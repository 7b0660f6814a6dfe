/**
 Operations on a range of a null mask: setting it, its minimum and maximum, and
 the number of nulls of a whole mask.
 */
module NullMaskRange {
  import opened Words
  import opened NullMask

  /** `after` is `before` with every position of `lo..hi` set to `isNull`. */
  ghost predicate RangeSet(before: seq<Word>, after: seq<Word>, lo: nat, hi: nat, isNull: bool)
    requires hi <= 64 * |before|
  {
    && SameOutside(before, after, lo, hi)
    && forall p | lo <= p < hi :: NullAt(after, p) == isNull
  }

  lemma RangeSetByWords(before: seq<Word>, after: seq<Word>, lo: nat, hi: nat, isNull: bool)
    requires |before| == |after| && hi <= 64 * |before|
    requires forall k, j | 0 <= k < |after| && 0 <= j < 64 ::
               after[k][j] == if lo <= 64 * k + j < hi then isNull else before[k][j]
    ensures RangeSet(before, after, lo, hi, isNull)
  {
    EveryEntry(before);
    EveryEntry(after);
    forall p | 0 <= p < 64 * |after|
      ensures NullAt(after, p) == if lo <= p < hi then isNull else NullAt(before, p)
    {
      assert after[p / 64][p % 64] == if lo <= 64 * (p / 64) + p % 64 < hi then isNull else before[p / 64][p % 64];
    }
  }

  method SetNullRange(entries: array<Word>, offset: nat, numBitsToSet: nat, isNull: bool)
    requires offset + numBitsToSet <= 64 * entries.Length
    modifies entries
    ensures RangeSet(old(entries[..]), entries[..], offset, offset + numBitsToSet, isNull)
  {
    if numBitsToSet == 0 {
      return;
    }
    var firstEntryPos, firstBitPos := offset / 64, offset % 64;
    var lastEntryPos, lastBitPos := (offset + numBitsToSet) / 64, (offset + numBitsToSet) % 64;
    // The entries in the middle.
    var k := firstEntryPos + 1;
    while k < lastEntryPos
      invariant firstEntryPos < k && (k <= lastEntryPos || k == firstEntryPos + 1)
      invariant forall i | 0 <= i < entries.Length ::
                  entries[i] == if firstEntryPos < i < k then (if isNull then ALL_NULL_ENTRY else NO_NULL_ENTRY)
                                else old(entries[i])
    {
      entries[k] := if isNull then ALL_NULL_ENTRY else NO_NULL_ENTRY;
      k := k + 1;
    }
    if firstEntryPos == lastEntryPos {
      if isNull {
        entries[firstEntryPos] := Or(entries[firstEntryPos], And(Not(LowerMask(firstBitPos)), Not(HighMask(64 - lastBitPos))));
      } else {
        entries[firstEntryPos] := And(entries[firstEntryPos], Or(LowerMask(firstBitPos), HighMask(64 - lastBitPos)));
      }
    } else if isNull {
      entries[firstEntryPos] := Or(entries[firstEntryPos], Not(LowerMask(firstBitPos)));
      if lastBitPos > 0 {
        entries[lastEntryPos] := Or(entries[lastEntryPos], LowerMask(lastBitPos));
      }
    } else {
      entries[firstEntryPos] := And(entries[firstEntryPos], LowerMask(firstBitPos));
      if lastBitPos > 0 {
        entries[lastEntryPos] := And(entries[lastEntryPos], Not(LowerMask(lastBitPos)));
      }
    }
    RangeSetByWords(old(entries[..]), entries[..], offset, offset + numBitsToSet, isNull);
  }

  /** Every position of `lo..hi` is null. */
  ghost predicate AllNull(entries: seq<Word>, lo: nat, hi: nat)
    requires lo <= hi <= 64 * |entries|
  {
    forall p | lo <= p < hi :: NullAt(entries, p)
  }

  /** Some position of `lo..hi` is null. */
  ghost predicate AnyNull(entries: seq<Word>, lo: nat, hi: nat)
    requires lo <= hi <= 64 * |entries|
  {
    exists p :: lo <= p < hi && NullAt(entries, p)
  }

  lemma RangeSplit(entries: seq<Word>, lo: nat, mid: nat, hi: nat)
    requires lo <= mid <= hi <= 64 * |entries|
    ensures AllNull(entries, lo, hi) == (AllNull(entries, lo, mid) && AllNull(entries, mid, hi))
    ensures AnyNull(entries, lo, hi) == (AnyNull(entries, lo, mid) || AnyNull(entries, mid, hi))
  {
  }

  /** Testing entry `e` under the mask of bits `a..b` tests the positions it holds there. */
  lemma MaskedEntry(entries: seq<Word>, e: nat, a: nat, b: nat, mask: Word)
    requires e < |entries| && a <= b <= 64
    requires forall j | 0 <= j < 64 :: mask[j] == (a <= j < b)
    ensures And(entries[e], mask) == mask <==> AllNull(entries, 64 * e + a, 64 * e + b)
    ensures And(entries[e], mask) == NO_NULL_ENTRY <==> !AnyNull(entries, 64 * e + a, 64 * e + b)
  {
    FullUnderMask(entries[e], mask);
    EveryEntry(entries);
    if AllNull(entries, 64 * e + a, 64 * e + b) {
      forall j | 0 <= j < 64 && mask[j]
        ensures entries[e][j]
      {
        EntryOf(entries, e, j);
      }
    }
    if !AnyNull(entries, 64 * e + a, 64 * e + b) {
      forall j | 0 <= j < 64 && mask[j]
        ensures !entries[e][j]
      {
        EntryOf(entries, e, j);
      }
    }
    forall p | 64 * e + a <= p < 64 * e + b
      ensures NullAt(entries, p) == entries[e][p - 64 * e] && mask[p - 64 * e]
    {
      EntryOf(entries, e, p - 64 * e);
    }
  }

  /** Every position of `lo..hi` has the flag `b`. */
  ghost predicate Uniform(entries: seq<Word>, lo: nat, hi: nat, b: bool)
    requires hi <= 64 * |entries|
  {
    forall p | lo <= p < hi :: NullAt(entries, p) == b
  }

  lemma EntryUniform(entries: seq<Word>, e: nat, b: bool)
    requires e < |entries|
    ensures entries[e] == (if b then ALL_NULL_ENTRY else NO_NULL_ENTRY) <==> Uniform(entries, 64 * e, 64 * e + 64, b)
  {
    forall p | 64 * e <= p < 64 * e + 64
      ensures NullAt(entries, p) == entries[e][p - 64 * e]
    {
      EntryOf(entries, e, p - 64 * e);
    }
    if Uniform(entries, 64 * e, 64 * e + 64, b) {
      forall j | 0 <= j < 64
        ensures entries[e][j] == b
      {
        assert NullAt(entries, 64 * e + j) == b;
      }
      assert entries[e] == if b then ALL_NULL_ENTRY else NO_NULL_ENTRY;
    }
  }

  /** A range that starts with `b` and does not stay uniform has both flags. */
  lemma Mixed(entries: seq<Word>, lo: nat, hi: nat, from: nat, to: nat, b: bool)
    requires lo < hi <= 64 * |entries| && lo <= from <= to <= hi
    requires NullAt(entries, lo) == b && !Uniform(entries, from, to, b)
    ensures !AllNull(entries, lo, hi) && AnyNull(entries, lo, hi)
  {
    var p :| from <= p < to && NullAt(entries, p) != b;
  }

  lemma UniformMinMax(entries: seq<Word>, lo: nat, hi: nat, b: bool)
    requires lo < hi <= 64 * |entries| && Uniform(entries, lo, hi, b)
    ensures AllNull(entries, lo, hi) == b && AnyNull(entries, lo, hi) == b
  {
    assert NullAt(entries, lo) == b;
  }

  /** The three-way test of a word under the mask of its bits `a..b`: none, all or some are null. */
  method MaskedMinMax(entries: array<Word>, e: nat, mask: Word, ghost a: nat, ghost b: nat) returns (min: bool, max: bool)
    requires e < entries.Length && a <= b <= 64
    requires forall j | 0 <= j < 64 :: mask[j] == (a <= j < b)
    ensures a == b ==> !min && !max
    ensures min ==> max
    ensures a < b ==> min == AllNull(entries[..], 64 * e + a, 64 * e + b)
    ensures a < b ==> max == AnyNull(entries[..], 64 * e + a, 64 * e + b)
  {
    var masked := And(entries[e], mask);
    MaskedEntry(entries[..], e, a, b, mask);
    assert a < b && AllNull(entries[..], 64 * e + a, 64 * e + b) ==> NullAt(entries[..], 64 * e + a);
    if masked == NO_NULL_ENTRY {
      return false, false;
    } else if masked == mask {
      return true, true;
    } else {
      return false, true;
    }
  }

  method GetMinMax(entries: array<Word>, offset: nat, numValues: nat) returns (min: bool, max: bool)
    requires offset + numValues <= 64 * entries.Length && offset / 64 < entries.Length
    ensures numValues == 0 ==> !min && !max
    ensures numValues > 0 ==> min == AllNull(entries[..], offset, offset + numValues)
    ensures numValues > 0 ==> max == AnyNull(entries[..], offset, offset + numValues)
  {
    var e, o := offset / 64, offset % 64;
    assert 64 * e + o == offset;
    if o + numValues <= 64 {
      min, max := MaskedMinMax(entries, e, And(HighMask(64 - o), LowerMask(o + numValues)), o, o + numValues);
    } else if o > 0 {
      min, max := MaskedMinMax(entries, e, HighMask(64 - o), o, 64);
      RangeSplit(entries[..], offset, 64 * (e + 1), offset + numValues);
      if min != max {
        return false, true;
      }
      UniformFromMinMax(entries[..], offset, 64 * (e + 1), min);
      min, max := RestMinMax(entries, offset, e + 1, numValues - (64 - o), min);
    } else {
      // The rest of the entry is checked with the middle ones.
      min := NullAt(entries[..], 64 * e);
      min, max := RestMinMax(entries, offset, e, numValues, min);
    }
  }

  lemma UniformFromMinMax(entries: seq<Word>, lo: nat, hi: nat, b: bool)
    requires lo < hi <= 64 * |entries| && AllNull(entries, lo, hi) == b == AnyNull(entries, lo, hi)
    ensures Uniform(entries, lo, hi, b) && NullAt(entries, lo) == b
  {
  }

  /** The middle entries and the last one, when everything from `offset` to entry `e` has the flag `first`. */
  method RestMinMax(entries: array<Word>, offset: nat, e: nat, numValues: nat, first: bool) returns (min: bool, max: bool)
    requires offset <= 64 * e && offset < 64 * e + numValues <= 64 * entries.Length
    requires Uniform(entries[..], offset, 64 * e, first) && NullAt(entries[..], offset) == first
    ensures min == AllNull(entries[..], offset, 64 * e + numValues)
    ensures max == AnyNull(entries[..], offset, 64 * e + numValues)
  {
    ghost var s, hi := entries[..], 64 * e + numValues;
    min, max := first, first;
    var baseline := if min then ALL_NULL_ENTRY else NO_NULL_ENTRY;
    for i := 0 to numValues / 64
      invariant Uniform(s, offset, 64 * (e + i), first)
    {
      EntryUniform(s, e + i, first);
      if entries[e + i] != baseline {
        Mixed(s, offset, hi, 64 * (e + i), 64 * (e + i) + 64, first);
        return false, true;
      }
    }
    var last, n := e + numValues / 64, numValues % 64;
    if offset < 64 * last {
      UniformMinMax(s, offset, 64 * last, first);
    }
    if n > 0 {
      var lastMin, lastMax := MaskedMinMax(entries, last, LowerMask(n), 0, n);
      RangeSplit(s, offset, 64 * last, hi);
      assert offset == 64 * last && !lastMax ==> !NullAt(s, offset);
      if !lastMax {
        return false, max;
      } else if lastMin {
        return min, true;
      } else {
        return false, true;
      }
    }
  }

  /** The number of nulls below position `p`. */
  function NullsBelow(entries: seq<Word>, p: nat): nat
    requires p <= 64 * |entries|
  {
    if p == 0 then 0 else NullsBelow(entries, p - 1) + if NullAt(entries, p - 1) then 1 else 0
  }

  lemma {:induction false} PopCountLast(w: seq<bool>)
    requires w != []
    ensures PopCount(w) == PopCount(w[..|w| - 1]) + if w[|w| - 1] then 1 else 0
  {
    if |w| > 1 {
      PopCountLast(w[1..]);
      assert w[1..][..|w| - 2] == w[..|w| - 1][1..];
    }
  }

  lemma {:induction false} NullsOfEntry(entries: seq<Word>, e: nat, j: nat)
    requires e < |entries| && j <= 64
    ensures NullsBelow(entries, 64 * e + j) == NullsBelow(entries, 64 * e) + PopCount(entries[e][..j])
    decreases j
  {
    if j > 0 {
      NullsOfEntry(entries, e, j - 1);
      EntryOf(entries, e, j - 1);
      PopCountLast(entries[e][..j]);
      assert entries[e][..j][..j - 1] == entries[e][..j - 1];
    }
  }

  method CountNulls(entries: array<Word>) returns (sum: nat)
    ensures sum == NullsBelow(entries[..], 64 * entries.Length)
  {
    sum := 0;
    for e := 0 to entries.Length
      invariant sum == NullsBelow(entries[..], 64 * e)
    {
      sum := sum + PopCount(entries[e]);
      NullsOfEntry(entries[..], e, 64);
      assert entries[e][..64] == entries[e];
    }
  }
}
