/**
 Equality and order of nested values: a strict total order in which null is largest,
 and the loops over vectors that decide it.
 */
module NestedOrder {
  import opened NestedVectors

  // ----- types -----

  datatype Type = LeafType | ListType(child: Type) | StructType(members: seq<Type>)

  function Shape<T>(v: Vec<T>): Type {
    match v
    case Leaves(_, _) => LeafType
    case Lists(_, _, data) => ListType(Shape(data))
    case Structs(_, fields) => StructType(seq(|fields|, i requires 0 <= i < |fields| => Shape(fields[i])))
  }

  predicate Typed<T>(x: Value<T>, t: Type) {
    match x
    case Null => true
    case Leaf(_) => t.LeafType?
    case List(es) => t.ListType? && forall i | 0 <= i < |es| :: Typed(es[i], t.child)
    case Struct(es) => t.StructType? && |es| == |t.members| && forall i | 0 <= i < |es| :: Typed(es[i], t.members[i])
  }

  lemma {:induction false} ReadTyped<T>(v: Vec<T>, pos: nat)
    requires Valid(v) && pos < Length(v)
    ensures Typed(Read(v, pos), Shape(v))
    decreases v
  {
    if !v.nulls[pos] {
      match v
      case Leaves(_, _) =>
      case Lists(_, entries, data) =>
        var e := entries[pos];
        forall i | 0 <= i < e.size
          ensures Typed(ReadAll(data, e.offset, e.size)[i], Shape(data))
        {
          ReadAllAt(data, e.offset, e.size, i);
          ReadTyped(data, e.offset + i);
        }
      case Structs(_, fields) =>
        forall i | 0 <= i < |fields|
          ensures Typed(Read(fields[i], pos), Shape(fields[i]))
        {
          ReadTyped(fields[i], pos);
        }
    }
  }

  // ----- the order -----

  /** The order of the leaves. */
  ghost predicate StrictTotal<T(!new)>(gt: (T, T) -> bool) {
    && (forall a, b :: gt(a, b) ==> a != b && !gt(b, a))
    && (forall a, b :: a != b ==> gt(a, b) || gt(b, a))
    && (forall a, b, c :: gt(a, b) && gt(b, c) ==> gt(a, c))
  }

  /** Null is larger than everything else; lists and structs compare element by element, then by length. */
  predicate Greater<T(==)>(gt: (T, T) -> bool, x: Value<T>, y: Value<T>)
    decreases x, 1
  {
    if x.Null? || y.Null? then !y.Null?
    else if x.Leaf? && y.Leaf? then gt(x.leaf, y.leaf)
    else if x.List? && y.List? then GreaterSeq(gt, x.elements, y.elements)
    else x.Struct? && y.Struct? && GreaterSeq(gt, x.members, y.members)
  }

  predicate GreaterSeq<T(==)>(gt: (T, T) -> bool, xs: seq<Value<T>>, ys: seq<Value<T>>)
    decreases xs, 0
  {
    if xs == [] || ys == [] then |xs| > |ys|
    else Greater(gt, xs[0], ys[0]) || (xs[0] == ys[0] && GreaterSeq(gt, xs[1..], ys[1..]))
  }

  // ----- it is a strict total order -----

  ghost predicate OneOf(a: bool, b: bool, c: bool) {
    (a && !b && !c) || (!a && b && !c) || (!a && !b && c)
  }

  /** Exactly one of greater, equal and less holds of two values of one type. */
  lemma {:induction false} Trichotomy<T(!new)>(gt: (T, T) -> bool, x: Value<T>, y: Value<T>, t: Type)
    requires StrictTotal(gt) && Typed(x, t) && Typed(y, t)
    ensures OneOf(Greater(gt, x, y), x == y, Greater(gt, y, x))
    decreases x, 1
  {
    if x.List? && y.List? {
      TrichotomySeq(gt, x.elements, y.elements, seq(|x.elements|, _ => t.child));
    } else if x.Struct? && y.Struct? {
      TrichotomySeq(gt, x.members, y.members, t.members);
    }
  }

  ghost predicate TypedSeq<T>(xs: seq<Value<T>>, ts: seq<Type>) {
    forall i | 0 <= i < |xs| && i < |ts| :: Typed(xs[i], ts[i])
  }

  lemma {:induction false} TrichotomySeq<T(!new)>(gt: (T, T) -> bool, xs: seq<Value<T>>, ys: seq<Value<T>>, ts: seq<Type>)
    requires StrictTotal(gt) && |xs| <= |ts| && TypedSeq(xs, ts) && TypedSeq(ys, ts)
    ensures OneOf(GreaterSeq(gt, xs, ys), xs == ys, GreaterSeq(gt, ys, xs))
    decreases xs, 0
  {
    if xs != [] && ys != [] {
      Trichotomy(gt, xs[0], ys[0], ts[0]);
      TrichotomySeq(gt, xs[1..], ys[1..], ts[1..]);
      assert xs == [xs[0]] + xs[1..] && ys == [ys[0]] + ys[1..];
    }
  }

  /** The order is transitive. */
  lemma {:induction false} Transitive<T(!new)>(gt: (T, T) -> bool, x: Value<T>, y: Value<T>, z: Value<T>, t: Type)
    requires StrictTotal(gt) && Typed(x, t) && Typed(y, t) && Typed(z, t)
    requires Greater(gt, x, y) && Greater(gt, y, z)
    ensures Greater(gt, x, z)
    decreases x, 1
  {
    if x.List? && y.List? && z.List? {
      TransitiveSeq(gt, x.elements, y.elements, z.elements, seq(|x.elements|, _ => t.child));
    } else if x.Struct? && y.Struct? && z.Struct? {
      TransitiveSeq(gt, x.members, y.members, z.members, t.members);
    }
  }

  lemma {:induction false} TransitiveSeq<T(!new)>(gt: (T, T) -> bool, xs: seq<Value<T>>, ys: seq<Value<T>>, zs: seq<Value<T>>, ts: seq<Type>)
    requires StrictTotal(gt) && |xs| <= |ts| && TypedSeq(xs, ts) && TypedSeq(ys, ts) && TypedSeq(zs, ts)
    requires GreaterSeq(gt, xs, ys) && GreaterSeq(gt, ys, zs)
    ensures GreaterSeq(gt, xs, zs)
    decreases xs, 0
  {
    if ys != [] && zs != [] {
      if xs[0] == ys[0] && ys[0] == zs[0] {
        Trichotomy(gt, xs[0], xs[0], ts[0]);
        TransitiveSeq(gt, xs[1..], ys[1..], zs[1..], ts[1..]);
      } else if xs[0] != ys[0] && ys[0] != zs[0] {
        Transitive(gt, xs[0], ys[0], zs[0], ts[0]);
      }
    }
  }

  // ----- what the order is -----

  /** Null is larger than every other value, and no value is larger than null. */
  lemma NullLargest<T(!new)>(gt: (T, T) -> bool, x: Value<T>)
    ensures Greater(gt, Null, x) <==> x != Null
    ensures !Greater(gt, x, Null)
  {
  }

  lemma LeafOrder<T(!new)>(gt: (T, T) -> bool, a: T, b: T)
    ensures Greater(gt, Leaf(a), Leaf(b)) <==> gt(a, b)
  {
  }

  /** Where two sequences first differ, or where the shorter one ends. */
  ghost predicate FirstDifference<T(!new)>(xs: seq<Value<T>>, ys: seq<Value<T>>, k: nat) {
    && k <= |xs| && k <= |ys| && (forall i | 0 <= i < k :: xs[i] == ys[i])
    && (k < |xs| && k < |ys| ==> xs[k] != ys[k])
  }

  /** Lists and structs compare like the elements at the first difference; if there is none, a proper prefix is smaller. */
  lemma Lexicographic<T(!new)>(gt: (T, T) -> bool, xs: seq<Value<T>>, ys: seq<Value<T>>, k: nat)
    requires StrictTotal(gt) && FirstDifference(xs, ys, k)
    ensures var wins := if k == |ys| then ys < xs else k < |xs| && Greater(gt, xs[k], ys[k]);
            && (Greater(gt, List(xs), List(ys)) <==> wins)
            && (Greater(gt, Struct(xs), Struct(ys)) <==> wins)
  {
    assert xs[..k] == ys[..k];
    DecidedAt(gt, xs, ys, k);
  }

  /** There always is one such place. */
  lemma {:induction false} DifferenceExists<T(!new)>(xs: seq<Value<T>>, ys: seq<Value<T>>) returns (k: nat)
    ensures FirstDifference(xs, ys, k)
    decreases |xs|
  {
    k := 0;
    if xs != [] && ys != [] && xs[0] == ys[0] {
      var rest := DifferenceExists(xs[1..], ys[1..]);
      k := rest + 1;
      forall i | 0 <= i < k
        ensures xs[i] == ys[i]
      {
        if i > 0 {
          assert xs[1..][i - 1] == ys[1..][i - 1];
        }
      }
    }
  }

  // ----- the loops -----

  /** Lists that agree on their first `k` elements are ordered by what follows. */
  lemma {:induction false} DecidedAt<T(!new)>(gt: (T, T) -> bool, xs: seq<Value<T>>, ys: seq<Value<T>>, k: nat)
    requires StrictTotal(gt) && k <= |xs| && k <= |ys| && xs[..k] == ys[..k]
    ensures GreaterSeq(gt, xs, ys) == GreaterSeq(gt, xs[k..], ys[k..])
    decreases k
  {
    if k > 0 {
      assert xs[0] == xs[..k][0] && ys[0] == ys[..k][0];
      Irreflexive(gt, xs[0]);
      assert xs[1..][..k - 1] == xs[..k][1..] && ys[1..][..k - 1] == ys[..k][1..];
      DecidedAt(gt, xs[1..], ys[1..], k - 1);
      assert xs[1..][k - 1..] == xs[k..] && ys[1..][k - 1..] == ys[k..];
    }
  }

  lemma {:induction false} Irreflexive<T(!new)>(gt: (T, T) -> bool, x: Value<T>)
    requires StrictTotal(gt)
    ensures !Greater(gt, x, x)
    decreases x, 1
  {
    if x.List? {
      IrreflexiveSeq(gt, x.elements);
    } else if x.Struct? {
      IrreflexiveSeq(gt, x.members);
    }
  }

  lemma {:induction false} IrreflexiveSeq<T(!new)>(gt: (T, T) -> bool, xs: seq<Value<T>>)
    requires StrictTotal(gt)
    ensures !GreaterSeq(gt, xs, xs)
    decreases xs, 0
  {
    if xs != [] {
      Irreflexive(gt, xs[0]);
      IrreflexiveSeq(gt, xs[1..]);
    }
  }
}
