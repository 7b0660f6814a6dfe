/**
 Hashing nested vectors: values that are equal hash alike, wherever they are stored.
 */
module NestedHash {
  import opened NestedVectors
  import opened NestedOrder

  const NULL_HASH: nat := 0xFFFF_FFFF_FFFF_FFFF
  const DEFAULT_VECTOR_CAPACITY: nat := 2048

  /** How leaves are hashed and how hashes are combined. */
  datatype Hashing<!T> = Hashing(leaf: T -> nat, combine: (nat, nat) -> nat)

  // ----- hashes of values -----

  /** The hash of a value of a type; a null struct hashes like one whose members are null. */
  function HashOf<T>(h: Hashing<T>, x: Value<T>, t: Type): nat
    decreases t, 1
  {
    match t
    case LeafType => if x.Leaf? then h.leaf(x.leaf) else NULL_HASH
    case ListType(child) => if x.List? then HashList(h, x.elements, child) else NULL_HASH
    case StructType(ts) => if ts == [] then NULL_HASH else HashMembers(h, x, ts, |ts|)
  }

  /** The elements folded into the hash of null, one after the other. */
  function HashList<T>(h: Hashing<T>, es: seq<Value<T>>, t: Type): nat
    decreases t, 2, |es|
  {
    if es == [] then NULL_HASH else h.combine(HashList(h, es[..|es| - 1], t), HashOf(h, es[|es| - 1], t))
  }

  function Member<T>(x: Value<T>, i: nat): Value<T> {
    if x.Struct? && i < |x.members| then x.members[i] else Null
  }

  /** The hash of the first member, into which the others are combined from the left. */
  function HashMembers<T>(h: Hashing<T>, x: Value<T>, ts: seq<Type>, n: nat): nat
    requires 0 < n <= |ts|
    decreases ts, 0, n
  {
    if n == 1 then HashOf(h, Member(x, 0), ts[0])
    else h.combine(HashOf(h, Member(x, n - 1), ts[n - 1]), HashMembers(h, x, ts, n - 1))
  }

  // ----- hashes in vectors -----

  /** A struct has a member to hash. */
  ghost predicate Hashable<T>(v: Vec<T>) {
    match v
    case Leaves(_, _) => true
    case Lists(_, _, data) => Hashable(data)
    case Structs(_, fields) => fields != [] && forall i | 0 <= i < |fields| :: Hashable(fields[i])
  }

  /** The hash at a position. Structs are hashed by their members, whether they are null or not. */
  ghost function HashAt<T>(h: Hashing<T>, v: Vec<T>, pos: nat): nat
    requires Valid(v) && Hashable(v) && pos < Length(v)
    decreases v, 1
  {
    match v
    case Leaves(nulls, cells) => if nulls[pos] then NULL_HASH else h.leaf(cells[pos])
    case Lists(nulls, entries, data) => if nulls[pos] then NULL_HASH else HashRange(h, data, entries[pos].offset, entries[pos].size)
    case Structs(_, fields) => HashFields(h, v, pos, |fields|)
  }

  ghost function HashRange<T>(h: Hashing<T>, v: Vec<T>, offset: nat, n: nat): nat
    requires Valid(v) && Hashable(v) && offset + n <= Length(v)
    decreases v, 2, n
  {
    if n == 0 then NULL_HASH else h.combine(HashRange(h, v, offset, n - 1), HashAt(h, v, offset + n - 1))
  }

  ghost function HashFields<T>(h: Hashing<T>, v: Vec<T>, pos: nat, n: nat): nat
    requires v.Structs? && Valid(v) && Hashable(v) && pos < Length(v) && 0 < n <= |v.fields|
    decreases v, 0, n
  {
    if n == 1 then HashAt(h, v.fields[0], pos) else h.combine(HashAt(h, v.fields[n - 1], pos), HashFields(h, v, pos, n - 1))
  }

  // ----- when the hash is that of the value -----

  /** What is stored at the position hashes like null: leaves are null, lists are null or empty, structs have only such
      members. */
  ghost predicate Blank<T>(v: Vec<T>, pos: nat)
    requires Valid(v) && pos < Length(v)
  {
    match v
    case Leaves(nulls, _) => nulls[pos]
    case Lists(nulls, entries, _) => nulls[pos] || entries[pos].size == 0
    case Structs(_, fields) => forall i | 0 <= i < |fields| :: Blank(fields[i], pos)
  }

  /** Every null struct that is reached from the position has blank members. */
  ghost predicate Clean<T>(v: Vec<T>, pos: nat)
    requires Valid(v) && pos < Length(v)
  {
    match v
    case Leaves(_, _) => true
    case Lists(nulls, entries, data) =>
      nulls[pos] || forall p | entries[pos].offset <= p < entries[pos].offset + entries[pos].size :: Clean(data, p)
    case Structs(nulls, fields) =>
      if nulls[pos] then forall i | 0 <= i < |fields| :: Blank(fields[i], pos) else forall i | 0 <= i < |fields| :: Clean(fields[i], pos)
  }

  lemma {:induction false} BlankHash<T>(h: Hashing<T>, v: Vec<T>, pos: nat)
    requires Valid(v) && Hashable(v) && pos < Length(v) && Blank(v, pos)
    ensures HashAt(h, v, pos) == HashOf(h, Null, Shape(v))
    decreases v, 1
  {
    if v.Structs? {
      BlankFields(h, v, pos, |v.fields|);
    }
  }

  lemma {:induction false} BlankFields<T>(h: Hashing<T>, v: Vec<T>, pos: nat, n: nat)
    requires v.Structs? && Valid(v) && Hashable(v) && pos < Length(v) && 0 < n <= |v.fields| && Blank(v, pos)
    ensures HashFields(h, v, pos, n) == HashMembers(h, Null, Shape(v).members, n)
    decreases v, 0, n
  {
    BlankHash(h, v.fields[n - 1], pos);
    if n > 1 {
      BlankFields(h, v, pos, n - 1);
    }
  }

  lemma {:induction false} CleanHash<T>(h: Hashing<T>, v: Vec<T>, pos: nat)
    requires Valid(v) && Hashable(v) && pos < Length(v) && Clean(v, pos)
    ensures HashAt(h, v, pos) == HashOf(h, Read(v, pos), Shape(v))
    decreases v, 1
  {
    match v
    case Leaves(_, _) =>
    case Lists(nulls, entries, data) =>
      if !nulls[pos] {
        CleanRange(h, data, entries[pos].offset, entries[pos].size);
      }
    case Structs(nulls, fields) =>
      if nulls[pos] {
        BlankFields(h, v, pos, |fields|);
      } else {
        CleanFields(h, v, pos, |fields|);
      }
  }

  lemma {:induction false} CleanRange<T>(h: Hashing<T>, v: Vec<T>, offset: nat, n: nat)
    requires Valid(v) && Hashable(v) && offset + n <= Length(v) && forall p | offset <= p < offset + n :: Clean(v, p)
    ensures HashRange(h, v, offset, n) == HashList(h, ReadAll(v, offset, n), Shape(v))
    decreases v, 2, n
  {
    hide HashAt, HashOf, Read, Shape, HashList, ReadAll, Valid, Hashable, Clean;
    if n > 0 {
      CleanRange(h, v, offset, n - 1);
      CleanHash(h, v, offset + n - 1);
      ReadAllNext(v, offset, n - 1);
      HashListNext(h, ReadAll(v, offset, n - 1), Read(v, offset + n - 1), Shape(v));
    } else {
      NothingRead(h, v, offset);
    }
  }

  lemma ReadAllNext<T>(v: Vec<T>, offset: nat, n: nat)
    requires Valid(v) && offset + n < Length(v)
    ensures ReadAll(v, offset, n + 1) == ReadAll(v, offset, n) + [Read(v, offset + n)]
  {
  }

  lemma HashListNext<T>(h: Hashing<T>, es: seq<Value<T>>, x: Value<T>, t: Type)
    ensures HashList(h, es + [x], t) == h.combine(HashList(h, es, t), HashOf(h, x, t))
  {
    hide HashOf;
    assert (es + [x])[..|es|] == es;
  }

  lemma NothingRead<T>(h: Hashing<T>, v: Vec<T>, offset: nat)
    requires Valid(v) && Hashable(v) && offset <= Length(v)
    ensures HashRange(h, v, offset, 0) == HashList(h, ReadAll(v, offset, 0), Shape(v))
  {
  }

  lemma {:induction false} CleanFields<T>(h: Hashing<T>, v: Vec<T>, pos: nat, n: nat)
    requires v.Structs? && Valid(v) && Hashable(v) && pos < Length(v) && 0 < n <= |v.fields| && !v.nulls[pos] && Clean(v, pos)
    ensures HashFields(h, v, pos, n) == HashMembers(h, Read(v, pos), Shape(v).members, n)
    decreases v, 0, n
  {
    CleanHash(h, v.fields[n - 1], pos);
    assert Read(v.fields[n - 1], pos) == Member(Read(v, pos), n - 1);
    if n > 1 {
      CleanFields(h, v, pos, n - 1);
    }
  }

  // ----- and when it is not -----

  /** A hash that grows with everything that is not null. */
  function Counting<T>(): Hashing<T> {
    Hashing(_ => NULL_HASH + 1, (a, b) => a + b + 1)
  }

  lemma {:induction false} BlankCounts<T>(v: Vec<T>, pos: nat)
    requires Valid(v) && Hashable(v) && pos < Length(v)
    ensures HashAt(Counting<T>(), v, pos) >= HashOf(Counting<T>(), Null, Shape(v))
    ensures !Blank(v, pos) ==> HashAt(Counting<T>(), v, pos) > HashOf(Counting<T>(), Null, Shape(v))
    decreases v, 1
  {
    match v
    case Leaves(_, _) =>
    case Lists(nulls, entries, data) =>
      if !nulls[pos] {
        RangeCounts(data, entries[pos].offset, entries[pos].size);
      }
    case Structs(_, fields) => BlankFieldsCount(v, pos, |fields|);
  }

  lemma {:induction false} RangeCounts<T>(v: Vec<T>, offset: nat, n: nat)
    requires Valid(v) && Hashable(v) && offset + n <= Length(v)
    ensures HashRange(Counting<T>(), v, offset, n) >= NULL_HASH + n
    decreases n
  {
    if n > 0 {
      RangeCounts(v, offset, n - 1);
    }
  }

  lemma FieldShape<T>(v: Vec<T>, pos: nat, i: nat)
    requires v.Structs? && Valid(v) && Hashable(v) && pos < Length(v) && i < |v.fields|
    ensures Valid(v.fields[i]) && Hashable(v.fields[i]) && pos < Length(v.fields[i]) && Shape(v).members[i] == Shape(v.fields[i])
  {
  }

  lemma {:induction false} BlankFieldsCount<T>(v: Vec<T>, pos: nat, n: nat)
    requires v.Structs? && Valid(v) && Hashable(v) && pos < Length(v) && 0 < n <= |v.fields|
    ensures var at, of := HashFields(Counting<T>(), v, pos, n), HashMembers(Counting<T>(), Null, Shape(v).members, n);
            at >= of && (at == of ==> forall i | 0 <= i < n :: Blank(v.fields[i], pos))
    decreases v, 0, n
  {
    hide HashAt, HashOf, HashFields, HashMembers, Blank, Hashable;
    FieldsCount(v, pos, n);
    MembersCount<T>(Null, Shape(v).members, n);
    FieldShape(v, pos, n - 1);
    BlankCounts(v.fields[n - 1], pos);
    if n > 1 {
      BlankFieldsCount(v, pos, n - 1);
    }
  }

  /** What one more field, and one more member, adds to the count. */
  lemma FieldsCount<T>(v: Vec<T>, pos: nat, n: nat)
    requires v.Structs? && Valid(v) && Hashable(v) && pos < Length(v) && 0 < n <= |v.fields|
    ensures HashFields(Counting<T>(), v, pos, n) ==
            HashAt(Counting<T>(), v.fields[n - 1], pos) + if n == 1 then 0 else HashFields(Counting<T>(), v, pos, n - 1) + 1
  {
    hide HashAt;
  }

  lemma MembersCount<T>(x: Value<T>, ts: seq<Type>, n: nat)
    requires 0 < n <= |ts|
    ensures HashMembers(Counting<T>(), x, ts, n) ==
            HashOf(Counting<T>(), Member(x, n - 1), ts[n - 1]) + if n == 1 then 0 else HashMembers(Counting<T>(), x, ts, n - 1) + 1
  {
    hide HashOf;
  }

  lemma {:induction false} CleanCounts<T>(v: Vec<T>, pos: nat)
    requires Valid(v) && Hashable(v) && pos < Length(v)
    ensures HashAt(Counting<T>(), v, pos) >= HashOf(Counting<T>(), Read(v, pos), Shape(v))
    ensures !Clean(v, pos) ==> HashAt(Counting<T>(), v, pos) > HashOf(Counting<T>(), Read(v, pos), Shape(v))
    decreases v, 1
  {
    match v
    case Leaves(_, _) =>
    case Lists(nulls, entries, data) =>
      if !nulls[pos] {
        var offset, size := entries[pos].offset, entries[pos].size;
        CleanRangeCounts(data, offset, size);
        assert (forall p | offset <= p < offset + size :: Clean(data, p)) ==> Clean(v, pos);
        assert HashAt(Counting<T>(), v, pos) == HashRange(Counting<T>(), data, offset, size);
        assert HashOf(Counting<T>(), Read(v, pos), Shape(v)) == HashList(Counting<T>(), ReadAll(data, offset, size), Shape(data));
      }
    case Structs(nulls, fields) =>
      if nulls[pos] {
        BlankFieldsCount(v, pos, |fields|);
      } else {
        CleanFieldsCount(v, pos, |fields|);
      }
  }

  lemma {:induction false} CleanRangeCounts<T>(v: Vec<T>, offset: nat, n: nat)
    requires Valid(v) && Hashable(v) && offset + n <= Length(v)
    ensures var at, of := HashRange(Counting<T>(), v, offset, n), HashList(Counting<T>(), ReadAll(v, offset, n), Shape(v));
            at >= of && (at == of ==> forall p | offset <= p < offset + n :: Clean(v, p))
    decreases v, 2, n
  {
    hide HashAt, HashOf, Read, Shape, HashList, ReadAll, Valid, Hashable, Clean;
    if n > 0 {
      CleanRangeCounts(v, offset, n - 1);
      CleanCounts(v, offset + n - 1);
      ReadAllNext(v, offset, n - 1);
      HashListNext(Counting<T>(), ReadAll(v, offset, n - 1), Read(v, offset + n - 1), Shape(v));
    } else {
      NothingRead(Counting<T>(), v, offset);
    }
  }

  lemma FieldFacts<T>(v: Vec<T>, pos: nat, i: nat)
    requires v.Structs? && Valid(v) && Hashable(v) && pos < Length(v) && i < |v.fields| && !v.nulls[pos]
    ensures Valid(v.fields[i]) && Hashable(v.fields[i]) && pos < Length(v.fields[i])
    ensures Read(v.fields[i], pos) == Member(Read(v, pos), i) && Shape(v).members[i] == Shape(v.fields[i])
  {
  }

  lemma {:induction false} CleanFieldsCount<T>(v: Vec<T>, pos: nat, n: nat)
    requires v.Structs? && Valid(v) && Hashable(v) && pos < Length(v) && 0 < n <= |v.fields| && !v.nulls[pos]
    ensures var at, of := HashFields(Counting<T>(), v, pos, n), HashMembers(Counting<T>(), Read(v, pos), Shape(v).members, n);
            at >= of && (at == of ==> forall i | 0 <= i < n :: Clean(v.fields[i], pos))
    decreases v, 0, n
  {
    hide HashAt, HashOf, HashFields, HashMembers, Clean, Hashable, Read;
    FieldsCount(v, pos, n);
    MembersCount(Read(v, pos), Shape(v).members, n);
    FieldFacts(v, pos, n - 1);
    CleanCounts(v.fields[n - 1], pos);
    if n > 1 {
      CleanFieldsCount(v, pos, n - 1);
    }
  }

  /** The hash at a position is a function of the value there, however leaves are hashed and hashes combined, exactly when
      every null struct that is reached from the position has blank members. */
  lemma HashIsOfValue<T(!new)>(v: Vec<T>, pos: nat)
    requires Valid(v) && Hashable(v) && pos < Length(v)
    ensures (forall h: Hashing<T> :: HashAt(h, v, pos) == HashOf(h, Read(v, pos), Shape(v))) <==> Clean(v, pos)
  {
    hide HashAt, HashOf, Clean, Valid, Hashable;
    if Clean(v, pos) {
      forall h: Hashing<T>
        ensures HashAt(h, v, pos) == HashOf(h, Read(v, pos), Shape(v))
      {
        CleanHash(h, v, pos);
      }
    } else {
      CleanCounts(v, pos);
    }
  }

  /** Equal values of one type hash alike, whatever the offsets, the neighbours and the vectors. */
  lemma EqualHashAlike<T(!new)>(h: Hashing<T>, v: Vec<T>, i: nat, w: Vec<T>, j: nat)
    requires Valid(v) && Hashable(v) && i < Length(v) && Clean(v, i)
    requires Valid(w) && Hashable(w) && j < Length(w) && Clean(w, j)
    requires Shape(v) == Shape(w) && Read(v, i) == Read(w, j)
    ensures HashAt(h, v, i) == HashAt(h, w, j)
  {
    HashIsOfValue(v, i);
    HashIsOfValue(w, j);
  }

  /** Two null structs over leaves that hash differently hash differently. */
  lemma NullStructsDiffer<T>(h: Hashing<T>, a: T, b: T)
    requires h.leaf(a) != h.leaf(b)
    ensures var v := Structs([true, true], [Leaves([false, false], [a, b])]);
            Valid(v) && Hashable(v) && Read(v, 0) == Read(v, 1) && HashAt(h, v, 0) != HashAt(h, v, 1)
  {
    var v, cells := Structs([true, true], [Leaves([false, false], [a, b])]), Leaves([false, false], [a, b]);
    assert v.fields[0] == cells && Valid(v) && Hashable(v);
    assert HashFields(h, v, 0, 1) == HashAt(h, cells, 0) == h.leaf(a);
    assert HashFields(h, v, 1, 1) == HashAt(h, cells, 1) == h.leaf(b);
  }

  // ----- nothing is left out of a hash -----

  /** Leaves and combinations never collide, neither with each other nor with null. */
  ghost predicate Separating<T(!new)>(h: Hashing<T>) {
    && (forall a, b :: h.leaf(a) == h.leaf(b) ==> a == b) && (forall a :: h.leaf(a) != NULL_HASH)
    && (forall a, b, c, d :: h.combine(a, b) == h.combine(c, d) ==> a == c && b == d)
    && (forall a, b :: h.combine(a, b) != NULL_HASH)
  }

  function Elements<T>(x: Value<T>): seq<Value<T>> {
    if x.List? then x.elements else []
  }

  /** Equal, but that a null list is like an empty one and a null struct like one of null members. */
  ghost predicate Alike<T(!new)>(x: Value<T>, y: Value<T>, t: Type)
    decreases t
  {
    match t
    case LeafType => x == y
    case ListType(child) =>
      && |Elements(x)| == |Elements(y)|
      && forall i | 0 <= i < |Elements(x)| :: Alike(Elements(x)[i], Elements(y)[i], child)
    case StructType(ts) => forall i | 0 <= i < |ts| :: Alike(Member(x, i), Member(y, i), ts[i])
  }

  /** Every element, every member and their order count: with hashing that separates, two values of a type hash alike
      exactly when they are alike. */
  lemma {:induction false} HashExact<T(!new)>(h: Hashing<T>, x: Value<T>, y: Value<T>, t: Type)
    requires Separating(h) && Typed(x, t) && Typed(y, t)
    ensures HashOf(h, x, t) == HashOf(h, y, t) <==> Alike(x, y, t)
    decreases t, 1
  {
    match t
    case LeafType =>
    case ListType(child) => HashListExact(h, Elements(x), Elements(y), child);
    case StructType(ts) =>
      if ts != [] {
        HashMembersExact(h, x, y, ts, |ts|);
      }
  }

  lemma {:induction false} HashListExact<T(!new)>(h: Hashing<T>, es: seq<Value<T>>, fs: seq<Value<T>>, t: Type)
    requires Separating(h) && (forall i | 0 <= i < |es| :: Typed(es[i], t)) && forall i | 0 <= i < |fs| :: Typed(fs[i], t)
    ensures HashList(h, es, t) == HashList(h, fs, t) <==> |es| == |fs| && forall i | 0 <= i < |es| :: Alike(es[i], fs[i], t)
    decreases t, 2, |es|
  {
    hide HashOf, Alike, Typed;
    if es != [] && fs != [] {
      var m, n := |es| - 1, |fs| - 1;
      HashListExact(h, es[..m], fs[..n], t);
      HashExact(h, es[m], fs[n], t);
    }
  }

  lemma MembersTyped<T(!new)>(x: Value<T>, ts: seq<Type>, i: nat)
    requires Typed(x, StructType(ts)) && i < |ts|
    ensures Typed(Member(x, i), ts[i])
  {
  }

  lemma {:induction false} HashMembersExact<T(!new)>(h: Hashing<T>, x: Value<T>, y: Value<T>, ts: seq<Type>, n: nat)
    requires Separating(h) && Typed(x, StructType(ts)) && Typed(y, StructType(ts)) && 0 < n <= |ts|
    ensures HashMembers(h, x, ts, n) == HashMembers(h, y, ts, n) <==> forall i | 0 <= i < n :: Alike(Member(x, i), Member(y, i), ts[i])
    decreases ts, 0, n
  {
    hide HashOf, Alike, Typed, Member;
    MembersTyped(x, ts, n - 1);
    MembersTyped(y, ts, n - 1);
    HashExact(h, Member(x, n - 1), Member(y, n - 1), ts[n - 1]);
    if n > 1 {
      HashMembersExact(h, x, y, ts, n - 1);
    }
  }

  /** What null hashes to, and which way hashes are combined: elements into what came before, members before it. */
  lemma HashOrder<T>(h: Hashing<T>, a: Value<T>, b: Value<T>, t: Type, u: Type)
    ensures HashOf(h, Null, LeafType) == HashOf(h, Null, ListType(t)) == 0xFFFF_FFFF_FFFF_FFFF
    ensures HashOf(h, List([a, b]), ListType(t)) == h.combine(h.combine(NULL_HASH, HashOf(h, a, t)), HashOf(h, b, t))
    ensures HashOf(h, Struct([a, b]), StructType([t, u])) == h.combine(HashOf(h, b, u), HashOf(h, a, t))
  {
    HashListNext(h, [], a, t);
    HashListNext(h, [a], b, t);
    assert [] + [a] == [a] && [a] + [b] == [a, b];
    assert HashMembers(h, Struct([a, b]), [t, u], 1) == HashOf(h, a, t);
  }

  // ----- the loops -----

  ghost predicate Positions(sel: seq<nat>, n: nat) {
    forall i | 0 <= i < |sel| :: sel[i] < n
  }

  ghost predicate NoRepeats(sel: seq<nat>) {
    forall i, j | 0 <= i < j < |sel| :: sel[i] != sel[j]
  }

  /** The hashes of the selected values, where the result selection says. */
  ghost predicate Hashed<T>(h: Hashing<T>, v: Vec<T>, sel: seq<nat>, result: seq<nat>, resultSel: seq<nat>)
    requires Valid(v) && Hashable(v) && Positions(sel, Length(v)) && |resultSel| == |sel| && Positions(resultSel, |result|)
  {
    forall i | 0 <= i < |sel| :: result[resultSel[i]] == HashAt(h, v, sel[i])
  }

  ghost predicate Kept(before: seq<nat>, after: seq<nat>, sel: seq<nat>) {
    |after| == |before| && forall p | 0 <= p < |before| && p !in sel :: after[p] == before[p]
  }

  method ComputeHash<T>(h: Hashing<T>, v: Vec<T>, sel: seq<nat>, result: array<nat>, resultSel: seq<nat>)
    requires Valid(v) && Hashable(v) && Positions(sel, Length(v))
    requires |resultSel| == |sel| && Positions(resultSel, result.Length) && NoRepeats(resultSel)
    modifies result
    ensures Hashed(h, v, sel, result[..], resultSel) && Kept(old(result[..]), result[..], resultSel)
    decreases v, 1
  {
    match v
    case Leaves(nulls, cells) =>
      for i := 0 to |sel|
        invariant forall k | 0 <= k < i :: result[resultSel[k]] == HashAt(h, v, sel[k])
        invariant forall p | 0 <= p < result.Length && p !in resultSel :: result[p] == old(result[p])
      {
        result[resultSel[i]] := if nulls[sel[i]] then NULL_HASH else h.leaf(cells[sel[i]]);
      }
    case Lists(_, _, data) =>
      var tmp := ComputeDataVecHash(h, data);
      FinalizeDataVecHash(h, v, sel, result, resultSel, tmp);
    case Structs(_, _) => ComputeStructVecHash(h, v, sel, result, resultSel);
  }

  /** Hashes a whole data vector, a selection of at most the vector capacity at a time. */
  method ComputeDataVecHash<T>(h: Hashing<T>, v: Vec<T>) returns (tmp: array<nat>)
    requires Valid(v) && Hashable(v)
    ensures fresh(tmp) && tmp.Length == Length(v) && forall p | 0 <= p < Length(v) :: tmp[p] == HashAt(h, v, p)
    decreases v, 2
  {
    tmp := new nat[|v.nulls|];
    var numValuesComputed: nat := 0;
    while numValuesComputed < |v.nulls|
      invariant numValuesComputed <= |v.nulls|
      invariant forall p | 0 <= p < numValuesComputed :: tmp[p] == HashAt(h, v, p)
    {
      var left := |v.nulls| - numValuesComputed;
      var n := if DEFAULT_VECTOR_CAPACITY < left then DEFAULT_VECTOR_CAPACITY else left;
      var sel := [];
      ghost var start := numValuesComputed;
      for i := 0 to n
        invariant numValuesComputed == start + i
        invariant |sel| == i && forall k | 0 <= k < i :: sel[k] == start + k
      {
        sel := sel + [numValuesComputed];
        numValuesComputed := numValuesComputed + 1;
      }
      ghost var before := tmp[..];
      ComputeHash(h, v, sel, tmp, sel);
      forall p | 0 <= p < numValuesComputed
        ensures tmp[p] == HashAt(h, v, p)
      {
        if p < start {
          assert tmp[..][p] == before[p];
        } else {
          assert sel[p - start] == p;
        }
      }
    }
  }

  method FinalizeDataVecHash<T>(h: Hashing<T>, v: Vec<T>, sel: seq<nat>, result: array<nat>, resultSel: seq<nat>, tmp: array<nat>)
    requires v.Lists? && Valid(v) && Hashable(v) && Positions(sel, Length(v))
    requires |resultSel| == |sel| && Positions(resultSel, result.Length) && NoRepeats(resultSel) && result != tmp
    requires tmp.Length == Length(v.data) && forall p | 0 <= p < Length(v.data) :: tmp[p] == HashAt(h, v.data, p)
    modifies result
    ensures Hashed(h, v, sel, result[..], resultSel) && Kept(old(result[..]), result[..], resultSel)
  {
    for i := 0 to |sel|
      invariant forall k | 0 <= k < i :: result[resultSel[k]] == HashAt(h, v, sel[k])
      invariant forall p | 0 <= p < result.Length && p !in resultSel :: result[p] == old(result[p])
    {
      var pos, hashValue := sel[i], NULL_HASH;
      if !v.nulls[pos] {
        var entry := v.entries[pos];
        for j := 0 to entry.size
          invariant hashValue == HashRange(h, v.data, entry.offset, j)
        {
          hashValue := h.combine(hashValue, tmp[entry.offset + j]);
        }
      }
      result[resultSel[i]] := hashValue;
    }
  }

  method ComputeStructVecHash<T>(h: Hashing<T>, v: Vec<T>, sel: seq<nat>, result: array<nat>, resultSel: seq<nat>)
    requires v.Structs? && Valid(v) && Hashable(v) && Positions(sel, Length(v))
    requires |resultSel| == |sel| && Positions(resultSel, result.Length) && NoRepeats(resultSel)
    modifies result
    ensures Hashed(h, v, sel, result[..], resultSel) && Kept(old(result[..]), result[..], resultSel)
    decreases v, 0
  {
    ComputeHash(h, v.fields[0], sel, result, resultSel);
    var tmp := new nat[|sel|];
    var tmpSel := seq(|sel|, i => i);
    FirstField(h, v, sel, result[..], resultSel);
    hide FieldsHashed, Hashed, Kept, Positions, NoRepeats;
    for f := 1 to |v.fields|
      invariant FieldsHashed(h, v, f, sel, result[..], resultSel)
      invariant Kept(old(result[..]), result[..], resultSel)
    {
      FieldSelectable(v, f, sel);
      ghost var before := result[..];
      ComputeHash(h, v.fields[f], sel, tmp, tmpSel);
      assert result[..] == before;
      CombineHash(h, v, f, sel, tmp, tmpSel, result, resultSel);
      KeptTwice(old(result[..]), before, result[..], resultSel);
    }
    AllFields(h, v, sel, result[..], resultSel);
  }

  /** The hashes of the first `n` members are combined. */
  ghost predicate FieldsHashed<T>(h: Hashing<T>, v: Vec<T>, n: nat, sel: seq<nat>, result: seq<nat>, resultSel: seq<nat>)
    requires v.Structs? && Valid(v) && Hashable(v) && Positions(sel, Length(v)) && 0 < n <= |v.fields|
    requires |resultSel| == |sel| && Positions(resultSel, |result|)
  {
    forall k | 0 <= k < |sel| :: result[resultSel[k]] == HashFields(h, v, sel[k], n)
  }

  lemma FirstField<T>(h: Hashing<T>, v: Vec<T>, sel: seq<nat>, result: seq<nat>, resultSel: seq<nat>)
    requires v.Structs? && Valid(v) && Hashable(v) && Positions(sel, Length(v))
    requires |resultSel| == |sel| && Positions(resultSel, |result|) && Positions(sel, Length(v.fields[0]))
    requires Hashed(h, v.fields[0], sel, result, resultSel)
    ensures FieldsHashed(h, v, 1, sel, result, resultSel)
  {
  }

  lemma AllFields<T>(h: Hashing<T>, v: Vec<T>, sel: seq<nat>, result: seq<nat>, resultSel: seq<nat>)
    requires v.Structs? && Valid(v) && Hashable(v) && Positions(sel, Length(v))
    requires |resultSel| == |sel| && Positions(resultSel, |result|) && FieldsHashed(h, v, |v.fields|, sel, result, resultSel)
    ensures Hashed(h, v, sel, result, resultSel)
  {
  }

  lemma FieldSelectable<T>(v: Vec<T>, f: nat, sel: seq<nat>)
    requires v.Structs? && Valid(v) && Hashable(v) && Positions(sel, Length(v)) && f < |v.fields|
    ensures Valid(v.fields[f]) && Hashable(v.fields[f]) && Positions(sel, Length(v.fields[f]))
    ensures var tmpSel := seq(|sel|, i => i); |tmpSel| == |sel| && Positions(tmpSel, |sel|) && NoRepeats(tmpSel)
  {
  }

  lemma KeptTwice(a: seq<nat>, b: seq<nat>, c: seq<nat>, sel: seq<nat>)
    requires Kept(a, b, sel) && Kept(b, c, sel)
    ensures Kept(a, c, sel)
  {
  }

  lemma HashFieldsNext<T>(h: Hashing<T>, v: Vec<T>, pos: nat, f: nat)
    requires v.Structs? && Valid(v) && Hashable(v) && pos < Length(v) && 0 < f < |v.fields|
    ensures Valid(v.fields[f]) && Hashable(v.fields[f]) && pos < Length(v.fields[f])
    ensures HashFields(h, v, pos, f + 1) == h.combine(HashAt(h, v.fields[f], pos), HashFields(h, v, pos, f))
  {
    hide HashAt;
  }

  /** One more member combined into the hashes. */
  method CombineHash<T>(h: Hashing<T>, ghost v: Vec<T>, ghost f: nat, ghost sel: seq<nat>, tmp: array<nat>, ghost tmpSel: seq<nat>,
                        result: array<nat>, resultSel: seq<nat>)
    requires v.Structs? && Valid(v) && Hashable(v) && Positions(sel, Length(v)) && 0 < f < |v.fields|
    requires |resultSel| == |sel| && Positions(resultSel, result.Length) && NoRepeats(resultSel) && result != tmp
    requires tmp.Length == |sel| && tmpSel == seq(|sel|, i => i) && Hashed(h, v.fields[f], sel, tmp[..], tmpSel)
    requires FieldsHashed(h, v, f, sel, result[..], resultSel)
    modifies result
    ensures FieldsHashed(h, v, f + 1, sel, result[..], resultSel)
    ensures Kept(old(result[..]), result[..], resultSel)
  {
    hide HashAt, HashFields, Valid, Hashable;
    for i := 0 to |resultSel|
      invariant forall k | 0 <= k < i :: result[resultSel[k]] == HashFields(h, v, sel[k], f + 1)
      invariant forall k | i <= k < |sel| :: result[resultSel[k]] == HashFields(h, v, sel[k], f)
      invariant forall p | 0 <= p < result.Length && p !in resultSel :: result[p] == old(result[p])
    {
      assert tmpSel[i] == i && tmp[..][i] == tmp[i];
      HashFieldsNext(h, v, sel[i], f);
      result[resultSel[i]] := h.combine(tmp[i], result[resultSel[i]]);
    }
  }
}
