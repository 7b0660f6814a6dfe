/**
 Nested values and the vectors that hold them: a list is an offset and a size into a
 data vector, a struct is one position in each field vector.
 */
module NestedVectors {
  datatype Value<T> = Null | Leaf(leaf: T) | List(elements: seq<Value<T>>) | Struct(members: seq<Value<T>>)

  datatype Entry = Entry(offset: nat, size: nat)

  datatype Vec<T> =
    | Leaves(nulls: seq<bool>, cells: seq<T>)
    | Lists(nulls: seq<bool>, entries: seq<Entry>, data: Vec<T>)
    | Structs(nulls: seq<bool>, fields: seq<Vec<T>>)

  function Length<T>(v: Vec<T>): nat {
    |v.nulls|
  }

  /** Every list that is not null lies within its data vector, and fields are as long as their struct. */
  ghost predicate Valid<T>(v: Vec<T>) {
    match v
    case Leaves(nulls, cells) => |cells| == |nulls|
    case Lists(nulls, entries, data) =>
      && |entries| == |nulls| && Valid(data)
      && forall i | 0 <= i < |nulls| && !nulls[i] :: entries[i].offset + entries[i].size <= Length(data)
    case Structs(nulls, fields) => forall i | 0 <= i < |fields| :: Valid(fields[i]) && Length(fields[i]) == |nulls|
  }

  /** The value at a position, wherever its parts are stored. */
  ghost function Read<T>(v: Vec<T>, pos: nat): Value<T>
    requires Valid(v) && pos < Length(v)
    decreases v, 0
  {
    if v.nulls[pos] then Null
    else match v
      case Leaves(_, cells) => Leaf(cells[pos])
      case Lists(_, entries, data) => List(ReadAll(data, entries[pos].offset, entries[pos].size))
      case Structs(_, fields) => Struct(seq(|fields|, i requires 0 <= i < |fields| => Read(fields[i], pos)))
  }

  /** The values at `n` positions from `offset` on. */
  ghost function ReadAll<T>(v: Vec<T>, offset: nat, n: nat): (r: seq<Value<T>>)
    requires Valid(v) && offset + n <= Length(v)
    ensures |r| == n
    decreases v, 1, n
  {
    if n == 0 then [] else ReadAll(v, offset, n - 1) + [Read(v, offset + n - 1)]
  }

  lemma {:induction false} ReadAllAt<T>(v: Vec<T>, offset: nat, n: nat, i: nat)
    requires Valid(v) && offset + n <= Length(v) && i < n
    ensures ReadAll(v, offset, n)[i] == Read(v, offset + i)
    decreases n
  {
    if i < n - 1 {
      ReadAllAt(v, offset, n - 1, i);
    }
  }

  lemma {:induction false} ReadAllSame<T>(v: Vec<T>, w: Vec<T>, offset: nat, n: nat)
    requires Valid(v) && Valid(w) && offset + n <= Length(v) && offset + n <= Length(w)
    requires forall p | offset <= p < offset + n :: Read(v, p) == Read(w, p)
    ensures ReadAll(v, offset, n) == ReadAll(w, offset, n)
    decreases n
  {
    if n > 0 {
      ReadAllSame(v, w, offset, n - 1);
    }
  }
}
