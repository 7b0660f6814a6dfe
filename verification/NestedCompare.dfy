/**
 Comparing values in nested vectors: loops over list entries and struct fields that
 stop as soon as the outcome is decided.
 */
module NestedCompare {
  import opened NestedVectors
  import opened NestedOrder

  /** Decides equality of two values of one type, wherever they are stored. */
  method NestedEqual<T(==)>(v: Vec<T>, i: nat, w: Vec<T>, j: nat) returns (result: bool)
    requires Valid(v) && Valid(w) && i < Length(v) && j < Length(w) && Shape(v) == Shape(w)
    ensures result == (Read(v, i) == Read(w, j))
    decreases v, 1
  {
    if v.nulls[i] && w.nulls[j] {
      result := true;
    } else if v.nulls[i] != w.nulls[j] {
      result := false;
    } else {
      result := EqualsOperation(v, i, w, j);
    }
  }

  method EqualsOperation<T(==)>(v: Vec<T>, i: nat, w: Vec<T>, j: nat) returns (result: bool)
    requires Valid(v) && Valid(w) && i < Length(v) && j < Length(w) && Shape(v) == Shape(w) && !v.nulls[i] && !w.nulls[j]
    ensures result == (Read(v, i) == Read(w, j))
    decreases v, 0
  {
    match v
    case Leaves(_, cells) => result := cells[i] == w.cells[j];
    case Lists(_, entries, data) =>
      result := ListEquals(data, entries[i], w.data, w.entries[j]);
    case Structs(_, fields) =>
      assert |Shape(v).members| == |Shape(w).members|;
      for k := 0 to |fields|
        invariant forall q | 0 <= q < k :: Read(fields[q], i) == Read(w.fields[q], j)
      {
        assert Shape(v).members[k] == Shape(fields[k]) && Shape(w).members[k] == Shape(w.fields[k]);
        result := NestedEqual(fields[k], i, w.fields[k], j);
        if !result {
          assert Read(v, i).members[k] != Read(w, j).members[k];
          return;
        }
      }
      result := true;
  }

  method ListEquals<T(==)>(v: Vec<T>, left: Entry, w: Vec<T>, right: Entry) returns (result: bool)
    requires Valid(v) && Valid(w) && Shape(v) == Shape(w)
    requires left.offset + left.size <= Length(v) && right.offset + right.size <= Length(w)
    ensures result == (ReadAll(v, left.offset, left.size) == ReadAll(w, right.offset, right.size))
    decreases v, 2
  {
    if left.size != right.size {
      return false;
    }
    for k := 0 to left.size
      invariant ReadAll(v, left.offset, k) == ReadAll(w, right.offset, k)
    {
      result := NestedEqual(v, left.offset + k, w, right.offset + k);
      if !result {
        ReadAllAt(v, left.offset, left.size, k);
        ReadAllAt(w, right.offset, right.size, k);
        return;
      }
    }
    result := true;
  }

  /** Decides order and equality of two values of one type, nulls included. */
  method NestedGreaterThan<T(==, !new)>(gt: (T, T) -> bool, v: Vec<T>, i: nat, w: Vec<T>, j: nat) returns (isGreaterThan: bool, isEqual: bool)
    requires StrictTotal(gt) && Valid(v) && Valid(w) && i < Length(v) && j < Length(w) && Shape(v) == Shape(w)
    ensures isGreaterThan == Greater(gt, Read(v, i), Read(w, j)) && isEqual == (Read(v, i) == Read(w, j))
    decreases v, 1
  {
    var isLeftNull, isRightNull := v.nulls[i], w.nulls[j];
    if isLeftNull || isRightNull {
      isGreaterThan := !isRightNull;
      isEqual := isLeftNull == isRightNull;
    } else {
      isGreaterThan := GreaterThanOperation(gt, v, i, w, j);
      if !isGreaterThan {
        isEqual := EqualsOperation(v, i, w, j);
      } else {
        Irreflexive(gt, Read(v, i));
        isEqual := false;
      }
    }
  }

  method GreaterThanOperation<T(==, !new)>(gt: (T, T) -> bool, v: Vec<T>, i: nat, w: Vec<T>, j: nat) returns (result: bool)
    requires StrictTotal(gt) && Valid(v) && Valid(w) && i < Length(v) && j < Length(w) && Shape(v) == Shape(w) && !v.nulls[i] && !w.nulls[j]
    ensures result == Greater(gt, Read(v, i), Read(w, j))
    decreases v, 0
  {
    match v
    case Leaves(_, cells) => result := gt(cells[i], w.cells[j]);
    case Lists(_, entries, data) => result := ListGreaterThan(gt, data, entries[i], w.data, w.entries[j]);
    case Structs(_, fields) => result := StructGreaterThan(gt, v, i, w, j);
  }

  method ListGreaterThan<T(==, !new)>(gt: (T, T) -> bool, v: Vec<T>, left: Entry, w: Vec<T>, right: Entry) returns (result: bool)
    requires StrictTotal(gt) && Valid(v) && Valid(w) && Shape(v) == Shape(w)
    requires left.offset + left.size <= Length(v) && right.offset + right.size <= Length(w)
    ensures result == GreaterSeq(gt, ReadAll(v, left.offset, left.size), ReadAll(w, right.offset, right.size))
    decreases v, 2
  {
    ghost var xs, ys := ReadAll(v, left.offset, left.size), ReadAll(w, right.offset, right.size);
    var commonLength := if left.size < right.size then left.size else right.size;
    for k := 0 to commonLength
      invariant xs[..k] == ys[..k]
    {
      var isEqual;
      result, isEqual := NestedGreaterThan(gt, v, left.offset + k, w, right.offset + k);
      ReadAllAt(v, left.offset, left.size, k);
      ReadAllAt(w, right.offset, right.size, k);
      if result || !isEqual {
        DecidedAt(gt, xs, ys, k);
        return;
      }
      assert xs[..k + 1] == xs[..k] + [xs[k]] && ys[..k + 1] == ys[..k] + [ys[k]];
    }
    DecidedAt(gt, xs, ys, commonLength);
    result := left.size > right.size;
  }

  method StructGreaterThan<T(==, !new)>(gt: (T, T) -> bool, v: Vec<T>, i: nat, w: Vec<T>, j: nat) returns (result: bool)
    requires StrictTotal(gt) && v.Structs? && w.Structs? && Valid(v) && Valid(w) && i < Length(v) && j < Length(w)
    requires Shape(v) == Shape(w) && !v.nulls[i] && !w.nulls[j]
    ensures result == GreaterSeq(gt, Read(v, i).members, Read(w, j).members)
    decreases v.fields, 3
  {
    ghost var xs, ys := Read(v, i).members, Read(w, j).members;
    assert |Shape(v).members| == |Shape(w).members|;
    for k := 0 to |v.fields|
      invariant xs[..k] == ys[..k]
    {
      assert Shape(v).members[k] == Shape(v.fields[k]) && Shape(w).members[k] == Shape(w.fields[k]);
      var isEqual;
      result, isEqual := NestedGreaterThan(gt, v.fields[k], i, w.fields[k], j);
      if result || !isEqual {
        DecidedAt(gt, xs, ys, k);
        return;
      }
      assert xs[..k + 1] == xs[..k] + [xs[k]] && ys[..k + 1] == ys[..k] + [ys[k]];
    }
    DecidedAt(gt, xs, ys, |v.fields|);
    result := false;
  }
}
