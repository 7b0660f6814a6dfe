/**
 Slicing list data for lambdas: the elements of the selected lists are handed out in
 slices of at most the vector capacity, each with the position of its list.
 */
module ListSlices {
  const DEFAULT_VECTOR_CAPACITY: nat := 2048

  datatype Entry = Entry(offset: nat, size: nat)

  /** A list vector: an entry per position, some of them null. */
  datatype ListVector = ListVector(entries: seq<Entry>, nulls: seq<bool>)

  /** The position of a list, and the offset of one of its elements. */
  type Element = (nat, nat)

  ghost predicate Selectable(v: ListVector, order: seq<nat>) {
    |v.entries| == |v.nulls| && forall i | 0 <= i < |order| :: order[i] < |v.entries|
  }

  /** The elements of one list from the `k`th on. */
  function ElementsOf(pos: nat, e: Entry, k: nat): (r: seq<Element>)
    requires k <= e.size
    ensures |r| == e.size - k
    decreases e.size - k
  {
    if k == e.size then [] else [(pos, e.offset + k)] + ElementsOf(pos, e, k + 1)
  }

  lemma {:induction false} ElementAt(pos: nat, e: Entry, k: nat, i: nat)
    requires k <= e.size && i < e.size - k
    ensures ElementsOf(pos, e, k)[i] == (pos, e.offset + k + i)
    decreases i
  {
    if i > 0 {
      ElementAt(pos, e, k + 1, i - 1);
    }
  }

  /** The elements of all lists, in the given order. */
  ghost function Elements(v: ListVector, order: seq<nat>): seq<Element>
    requires Selectable(v, order)
  {
    if order == [] then []
    else (if v.nulls[order[0]] then [] else ElementsOf(order[0], v.entries[order[0]], 0)) + Elements(v, order[1..])
  }

  // ----- every element once -----

  /** A position is an element of its list. */
  predicate IsElement(v: ListVector, x: Element) {
    && x.0 < |v.entries| && x.0 < |v.nulls| && !v.nulls[x.0]
    && v.entries[x.0].offset <= x.1 < v.entries[x.0].offset + v.entries[x.0].size
  }

  lemma {:induction false} OfOneList(pos: nat, e: Entry, k: nat, x: Element)
    requires k <= e.size
    ensures multiset(ElementsOf(pos, e, k))[x] == if x.0 == pos && e.offset + k <= x.1 < e.offset + e.size then 1 else 0
    decreases e.size - k
  {
    if k < e.size {
      OfOneList(pos, e, k + 1, x);
    }
  }

  /** Each element of a list is counted as often as the list is selected, and nothing else is. */
  lemma {:induction false} ElementsCount(v: ListVector, order: seq<nat>, x: Element)
    requires Selectable(v, order)
    ensures multiset(Elements(v, order))[x] == if IsElement(v, x) then multiset(order)[x.0] else 0
    decreases |order|
  {
    if order != [] {
      ElementsCount(v, order[1..], x);
      assert order == [order[0]] + order[1..];
      if !v.nulls[order[0]] {
        OfOneList(order[0], v.entries[order[0]], 0, x);
      }
    }
  }

  /** By ascending offset of their lists. */
  ghost predicate ByOffset(v: ListVector, order: seq<nat>)
    requires Selectable(v, order)
  {
    forall i, j | 0 <= i < j < |order| :: v.entries[order[i]].offset <= v.entries[order[j]].offset
  }

  lemma {:induction false} ElementsFrom(v: ListVector, order: seq<nat>, x: Element)
    requires Selectable(v, order) && x in Elements(v, order)
    ensures x.0 in order && IsElement(v, x)
    decreases |order|
  {
    if x in Elements(v, order[1..]) {
      ElementsFrom(v, order[1..], x);
    } else {
      OfOneList(order[0], v.entries[order[0]], 0, x);
    }
  }

  /** Lists come in the order of their offsets. */
  lemma {:induction false} ElementsOrdered(v: ListVector, order: seq<nat>, i: nat, j: nat)
    requires Selectable(v, order) && ByOffset(v, order) && i < j < |Elements(v, order)|
    ensures var xs := Elements(v, order);
            xs[i].0 < |v.entries| && xs[j].0 < |v.entries| && v.entries[xs[i].0].offset <= v.entries[xs[j].0].offset
    decreases |order|
  {
    var p, rest := order[0], Elements(v, order[1..]);
    var head := if v.nulls[p] then [] else ElementsOf(p, v.entries[p], 0);
    assert Elements(v, order) == head + rest;
    if i < |head| {
      ElementAt(p, v.entries[p], 0, i);
    }
    if j < |head| {
      ElementAt(p, v.entries[p], 0, j);
    }
    if i >= |head| {
      ElementsOrdered(v, order[1..], i - |head|, j - |head|);
    } else if j >= |head| {
      var x := rest[j - |head|];
      assert x in rest;
      ElementsFrom(v, order[1..], x);
      var k :| 0 <= k < |order[1..]| && order[1..][k] == x.0;
      assert order[k + 1] == x.0;
    }
  }

  /** The elements of one list come one after the other: each is followed by the next one of its list, and the last one by
      the first one of another list. */
  lemma {:induction false} ElementsConsecutive(v: ListVector, order: seq<nat>, k: nat)
    requires Selectable(v, order) && k + 1 < |Elements(v, order)|
    ensures var x, y := Elements(v, order)[k], Elements(v, order)[k + 1];
            && IsElement(v, x) && IsElement(v, y)
            && if x.1 + 1 < v.entries[x.0].offset + v.entries[x.0].size then y == (x.0, x.1 + 1) else y.1 == v.entries[y.0].offset
    decreases |order|
  {
    var p, rest := order[0], Elements(v, order[1..]);
    var head := if v.nulls[p] then [] else ElementsOf(p, v.entries[p], 0);
    assert Elements(v, order) == head + rest;
    if k >= |head| {
      ElementsConsecutive(v, order[1..], k - |head|);
    } else {
      ElementAt(p, v.entries[p], 0, k);
      if k + 1 < |head| {
        ElementAt(p, v.entries[p], 0, k + 1);
      } else {
        StartsAtOffset(v, order[1..]);
      }
    }
  }

  lemma {:induction false} StartsAtOffset(v: ListVector, order: seq<nat>)
    requires Selectable(v, order) && Elements(v, order) != []
    ensures var x := Elements(v, order)[0]; IsElement(v, x) && x.1 == v.entries[x.0].offset
    decreases |order|
  {
    var p := order[0];
    if v.nulls[p] || v.entries[p].size == 0 {
      assert Elements(v, order) == Elements(v, order[1..]);
      StartsAtOffset(v, order[1..]);
    } else {
      ElementAt(p, v.entries[p], 0, 0);
    }
  }

  // ----- sorting -----

  /** The selected positions by ascending offset. */
  method SortByOffset(v: ListVector, sel: seq<nat>) returns (order: seq<nat>)
    requires Selectable(v, sel)
    ensures Selectable(v, order) && ByOffset(v, order) && multiset(order) == multiset(sel)
  {
    order := [];
    for i := 0 to |sel|
      invariant Selectable(v, order) && ByOffset(v, order) && multiset(order) == multiset(sel[..i])
    {
      assert sel[..i + 1] == sel[..i] + [sel[i]];
      order := Insert(v, order, sel[i]);
    }
    assert sel[..|sel|] == sel;
  }

  method Insert(v: ListVector, order: seq<nat>, pos: nat) returns (r: seq<nat>)
    requires Selectable(v, order) && ByOffset(v, order) && pos < |v.entries|
    ensures Selectable(v, r) && ByOffset(v, r) && multiset(r) == multiset(order) + multiset{pos}
  {
    hide ByOffset;
    var k := |order|;
    while k > 0 && v.entries[pos].offset < v.entries[order[k - 1]].offset
      invariant 0 <= k <= |order|
      invariant forall i | k <= i < |order| :: v.entries[pos].offset < v.entries[order[i]].offset
    {
      k := k - 1;
    }
    r := order[..k] + [pos] + order[k..];
    InsertCounts(order, pos, k);
    InsertOrdered(v, order, pos, k);
  }

  lemma InsertCounts(order: seq<nat>, pos: nat, k: nat)
    requires k <= |order|
    ensures multiset(order[..k] + [pos] + order[k..]) == multiset(order) + multiset{pos}
  {
    assert order == order[..k] + order[k..];
  }

  lemma InsertOrdered(v: ListVector, order: seq<nat>, pos: nat, k: nat)
    requires Selectable(v, order) && ByOffset(v, order) && pos < |v.entries| && k <= |order|
    requires k > 0 ==> v.entries[order[k - 1]].offset <= v.entries[pos].offset
    requires forall i | k <= i < |order| :: v.entries[pos].offset < v.entries[order[i]].offset
    ensures var r := order[..k] + [pos] + order[k..]; Selectable(v, r) && ByOffset(v, r)
  {
    var r := order[..k] + [pos] + order[k..];
    assert forall i | 0 <= i < |r| :: r[i] == if i < k then order[i] else if i == k then pos else order[i - 1];
    forall i, j | 0 <= i < j < |r|
      ensures v.entries[r[i]].offset <= v.entries[r[j]].offset
    {
      if i < k <= j && j > k {
        assert v.entries[order[i]].offset <= v.entries[order[j - 1]].offset;
      } else if i < k && j == k {
        assert i == k - 1 || v.entries[order[i]].offset <= v.entries[order[k - 1]].offset;
      }
    }
  }

  lemma FirstElement(pos: nat, e: Entry, k: nat, later: seq<Element>)
    requires k < e.size
    ensures ElementsOf(pos, e, k) + later == [(pos, e.offset + k)] + (ElementsOf(pos, e, k + 1) + later)
    ensures k + 1 == e.size ==> ElementsOf(pos, e, k + 1) + later == later
  {
  }

  // ----- the tracker -----

  class ListEntryTracker {
    const listVector: ListVector
    const listEntries: seq<nat>
    var listEntryIdx: nat
    var offsetInList: nat

    predicate Done()
      reads this
    {
      listEntryIdx >= |listEntries|
    }

    /** Either everything was handed out, or the next element is that of a list that has it. */
    ghost predicate Valid()
      reads this
    {
      && Selectable(listVector, listEntries) && listEntryIdx <= |listEntries|
      && (!Done() ==> Has(listEntryIdx) && offsetInList < listVector.entries[listEntries[listEntryIdx]].size)
      && (Done() ==> offsetInList == 0)
    }

    /** The list at an index has elements. */
    predicate Has(i: nat)
      requires i < |listEntries| && Selectable(listVector, listEntries)
    {
      !listVector.nulls[listEntries[i]] && listVector.entries[listEntries[i]].size > 0
    }

    /** What is still to be handed out. */
    ghost function Remaining(): (r: seq<Element>)
      requires Valid()
      reads this
      ensures Done() ==> r == []
    {
      if Done() then []
      else
        var pos := listEntries[listEntryIdx];
        ElementsOf(pos, listVector.entries[pos], offsetInList) + Elements(listVector, listEntries[listEntryIdx + 1..])
    }

    constructor (v: ListVector, sel: seq<nat>)
      requires Selectable(v, sel)
      ensures Valid() && listVector == v && multiset(listEntries) == multiset(sel) && ByOffset(v, listEntries)
      ensures Remaining() == Elements(v, listEntries)
    {
      var order := SortByOffset(v, sel);
      listVector, listEntries, listEntryIdx, offsetInList := v, order, 0, 0;
      new;
      UpdateListEntry();
      assert listEntries[0..] == listEntries;
    }

    /** Skips null and empty lists. */
    method UpdateListEntry()
      requires Selectable(listVector, listEntries) && listEntryIdx <= |listEntries|
      modifies this
      ensures old(listEntryIdx) <= listEntryIdx <= |listEntries| && offsetInList == old(offsetInList)
      ensures !Done() ==> Has(listEntryIdx)
      ensures Elements(listVector, listEntries[listEntryIdx..]) == Elements(listVector, listEntries[old(listEntryIdx)..])
    {
      while true
        invariant old(listEntryIdx) <= listEntryIdx <= |listEntries| && offsetInList == old(offsetInList)
        invariant Elements(listVector, listEntries[listEntryIdx..]) == Elements(listVector, listEntries[old(listEntryIdx)..])
        decreases |listEntries| - listEntryIdx
      {
        if listEntryIdx >= |listEntries| {
          break;
        }
        if Has(listEntryIdx) {
          break;
        }
        assert listEntries[listEntryIdx..][1..] == listEntries[listEntryIdx + 1..];
        listEntryIdx := listEntryIdx + 1;
      }
    }

    function GetListEntryPos(): nat
      requires !Done()
      reads this
    {
      listEntries[listEntryIdx]
    }

    function GetCurDataOffset(): nat
      requires !Done() && listEntries[listEntryIdx] < |listVector.entries|
      reads this
    {
      listVector.entries[listEntries[listEntryIdx]].offset + offsetInList
    }

    /** Moves on to the next element. */
    method GetNextDataOffset()
      requires Valid() && !Done()
      modifies this
      ensures Valid() && old(Remaining()) == [(old(GetListEntryPos()), old(GetCurDataOffset()))] + Remaining()
    {
      ghost var pos := GetListEntryPos();
      ghost var e, k := listVector.entries[pos], offsetInList;
      ghost var later := Elements(listVector, listEntries[listEntryIdx + 1..]);
      FirstElement(pos, e, k, later);
      offsetInList := offsetInList + 1;
      if offsetInList >= listVector.entries[listEntries[listEntryIdx]].size {
        listEntryIdx := listEntryIdx + 1;
        UpdateListEntry();
        offsetInList := 0;
        RemainingFrom();
      }
    }

    /** While there is something left, the current list exists. */
    lemma Current()
      requires Valid() && !Done()
      ensures listEntries[listEntryIdx] < |listVector.entries|
    {
    }

    /** At the start of a list, what remains are the elements of this list and of those after it. */
    lemma RemainingFrom()
      requires Valid() && offsetInList == 0
      ensures Remaining() == Elements(listVector, listEntries[listEntryIdx..])
    {
      if !Done() {
        assert listEntries[listEntryIdx..][1..] == listEntries[listEntryIdx + 1..];
      }
    }
  }

  // ----- slices -----

  function Zip(lists: seq<nat>, data: seq<nat>, n: nat): (r: seq<Element>)
    requires n <= |lists| && n <= |data|
    ensures |r| == n
  {
    if n == 0 then [] else Zip(lists, data, n - 1) + [(lists[n - 1], data[n - 1])]
  }

  lemma {:induction false} ZipSame(lists: seq<nat>, data: seq<nat>, n: nat, lists': seq<nat>, data': seq<nat>)
    requires n <= |lists| == |lists'| && n <= |data| == |data'|
    requires forall i | 0 <= i < n :: lists'[i] == lists[i] && data'[i] == data[i]
    ensures Zip(lists', data', n) == Zip(lists, data, n)
    decreases n
  {
    if n > 0 {
      ZipSame(lists, data, n - 1, lists', data');
    }
  }

  lemma ZipNone(lists: seq<nat>, data: seq<nat>, rest: seq<Element>)
    ensures Zip(lists, data, 0) + rest == rest
  {
  }

  lemma Reassociate(xs: seq<Element>, x: Element, ys: seq<Element>)
    ensures xs + [x] + ys == xs + ([x] + ys)
  {
  }

  lemma ZipNext(lists: seq<nat>, data: seq<nat>, n: nat, lists': seq<nat>, data': seq<nat>)
    requires n < |lists| == |lists'| && n < |data| == |data'|
    requires forall i | 0 <= i < n :: lists'[i] == lists[i] && data'[i] == data[i]
    ensures Zip(lists', data', n + 1) == Zip(lists, data, n) + [(lists'[n], data'[n])]
  {
    ZipSame(lists, data, n, lists', data');
  }

  class ListSliceInfo {
    const tracker: ListEntryTracker
    const dataSel: array<nat>
    const listEntrySel: array<nat>
    var sliceSize: nat

    ghost predicate Valid()
      reads this, tracker, dataSel, listEntrySel
    {
      && tracker.Valid() && dataSel.Length == listEntrySel.Length == DEFAULT_VECTOR_CAPACITY
      && sliceSize <= DEFAULT_VECTOR_CAPACITY && dataSel != listEntrySel
    }

    /** The elements of the current slice. */
    ghost function Slice(): (r: seq<Element>)
      requires Valid()
      reads this, tracker, dataSel, listEntrySel
      ensures |r| == sliceSize
    {
      Zip(listEntrySel[..], dataSel[..], sliceSize)
    }

    constructor (v: ListVector, sel: seq<nat>)
      requires Selectable(v, sel)
      ensures Valid() && fresh(tracker) && fresh(dataSel) && fresh(listEntrySel)
      ensures tracker.listVector == v && multiset(tracker.listEntries) == multiset(sel)
      ensures Selectable(v, tracker.listEntries) && ByOffset(v, tracker.listEntries)
      ensures tracker.Remaining() == Elements(v, tracker.listEntries)
    {
      tracker := new ListEntryTracker(v, sel);
      dataSel := new nat[DEFAULT_VECTOR_CAPACITY];
      listEntrySel := new nat[DEFAULT_VECTOR_CAPACITY];
      sliceSize := 0;
    }

    /** The next slice: as much of what remains as fits. */
    method UpdateSelVector()
      requires Valid()
      modifies this, tracker, dataSel, listEntrySel
      ensures Valid() && Slice() + tracker.Remaining() == old(tracker.Remaining())
      ensures |Slice()| == DEFAULT_VECTOR_CAPACITY || tracker.Done()
    {
      hide ListEntryTracker.Remaining, ListEntryTracker.Valid, Zip;
      var n: nat := 0;
      ZipNone(listEntrySel[..], dataSel[..], tracker.Remaining());
      while !tracker.Done() && n < DEFAULT_VECTOR_CAPACITY
        invariant tracker.Valid() && n <= DEFAULT_VECTOR_CAPACITY
        invariant Zip(listEntrySel[..], dataSel[..], n) + tracker.Remaining() == old(tracker.Remaining())
        decreases DEFAULT_VECTOR_CAPACITY - n
      {
        ghost var lists, data := listEntrySel[..], dataSel[..];
        tracker.Current();
        dataSel[n] := tracker.GetCurDataOffset();
        listEntrySel[n] := tracker.GetListEntryPos();
        ghost var x := (listEntrySel[n], dataSel[n]);
        ZipNext(lists, data, n, listEntrySel[..], dataSel[..]);
        tracker.GetNextDataOffset();
        Reassociate(Zip(lists, data, n), x, tracker.Remaining());
        n := n + 1;
      }
      sliceSize := n;
    }
  }

  function Concat(slices: seq<seq<Element>>): seq<Element> {
    if slices == [] then [] else Concat(slices[..|slices| - 1]) + slices[|slices| - 1]
  }

  lemma ConcatNext(slices: seq<seq<Element>>, slice: seq<Element>, rest: seq<Element>)
    ensures Concat(slices + [slice]) == Concat(slices) + slice
    ensures Concat(slices + [slice]) + rest == Concat(slices) + (slice + rest)
  {
    assert (slices + [slice])[..|slices|] == slices;
  }

  lemma ConcatNone(rest: seq<Element>)
    ensures Concat([]) == [] && Concat([]) + rest == rest
  {
  }

  /** The do-while loop of the lambda evaluator, with the slices it handed to the function. */
  method EvaluateSlices(v: ListVector, sel: seq<nat>) returns (ghost slices: seq<seq<Element>>, ghost order: seq<nat>, size: nat)
    requires Selectable(v, sel)
    ensures Selectable(v, order) && multiset(order) == multiset(sel) && ByOffset(v, order)
    ensures Concat(slices) == Elements(v, order) && size == |Elements(v, order)|
    ensures slices != [] && forall i | 0 <= i < |slices| - 1 :: |slices[i]| == DEFAULT_VECTOR_CAPACITY
    ensures |slices[|slices| - 1]| <= DEFAULT_VECTOR_CAPACITY
  {
    hide Concat, Elements, ListEntryTracker.Valid, ListEntryTracker.Remaining, ByOffset, ListSliceInfo.Slice;
    var sliceInfo := new ListSliceInfo(v, sel);
    order := sliceInfo.tracker.listEntries;
    slices, size := [], 0;
    ConcatNone(sliceInfo.tracker.Remaining());
    while true
      invariant sliceInfo.Valid() && fresh(sliceInfo) && fresh(sliceInfo.tracker) && fresh(sliceInfo.dataSel) && fresh(sliceInfo.listEntrySel)
      invariant Concat(slices) + sliceInfo.tracker.Remaining() == Elements(v, order) && size == |Concat(slices)|
      invariant forall i | 0 <= i < |slices| :: |slices[i]| == DEFAULT_VECTOR_CAPACITY
      decreases |sliceInfo.tracker.Remaining()|
    {
      ghost var before := slices;
      sliceInfo.UpdateSelVector();
      slices := before + [sliceInfo.Slice()];
      ConcatNext(before, sliceInfo.Slice(), sliceInfo.tracker.Remaining());
      size := size + sliceInfo.sliceSize;
      if sliceInfo.tracker.Done() {
        break;
      }
    }
  }
}
