/**
 Substring search: whole-word windows for short needles and a rolling sum for long
 ones, all of which return the leftmost occurrence.
 */
module Find {
  type Bytes = seq<bv8>

  ghost predicate MatchAt(haystack: Bytes, needle: Bytes, p: int) {
    0 <= p && p + |needle| <= |haystack| && haystack[p..p + |needle|] == needle
  }

  /** The leftmost occurrence, or -1 when there is none. */
  ghost predicate Leftmost(haystack: Bytes, needle: Bytes, r: int) {
    && (r == -1 || MatchAt(haystack, needle, r))
    && forall p | 0 <= p < (if r == -1 then |haystack| + 1 else r) :: !MatchAt(haystack, needle, p)
  }

  // ----- words -----

  /** An unsigned integer as its bytes, most significant first. */
  type Word = seq<bv8>

  function Zero(width: nat): Word {
    seq(width, _ => 0)
  }

  /** One byte, shifted left so that `i` bytes are above it. */
  function Place(width: nat, i: nat, b: bv8): Word {
    seq(width, k => if k == i then b else 0)
  }

  function Or(a: Word, b: Word): Word
    requires |a| == |b|
  {
    seq(|a|, k requires 0 <= k < |a| => a[k] | b[k])
  }

  /** Shifting by one byte loses the most significant one. */
  function ShiftByte(a: Word): Word
    requires a != []
  {
    a[1..] + [0]
  }

  /** The window of the haystack from `p` on, with zeros below it. */
  ghost function Window(haystack: Bytes, p: nat, n: nat, width: nat): Word
    requires p + n <= |haystack| && n <= width
  {
    haystack[p..p + n] + Zero(width - n)
  }

  lemma PlaceNext(s: Bytes, p: nat, i: nat, width: nat)
    requires p + i < |s| && i < width
    ensures Or(Window(s, p, i, width), Place(width, i, s[p + i])) == Window(s, p, i + 1, width)
  {
    var a, b := Window(s, p, i, width), Place(width, i, s[p + i]);
    forall k | 0 <= k < width
      ensures (a[k] | b[k]) == Window(s, p, i + 1, width)[k]
    {
      assert b[k] == 0 || a[k] == 0;
    }
  }

  /** The window moves by one byte. */
  lemma Slide(s: Bytes, p: nat, n: nat, width: nat)
    requires 0 < n <= width && p + n < |s|
    ensures Or(ShiftByte(Window(s, p, n, width)), Place(width, n - 1, s[p + n])) == Window(s, p + 1, n, width)
  {
    var a, b, w := ShiftByte(Window(s, p, n, width)), Place(width, n - 1, s[p + n]), Window(s, p + 1, n, width);
    forall k | 0 <= k < width
      ensures (a[k] | b[k]) == w[k]
    {
      if k < n - 1 {
        assert a[k] == s[p + 1 + k] == w[k];
      } else {
        assert a[k] == 0;
      }
    }
  }

  /** Windows are equal exactly when the bytes in them are. */
  lemma WindowsEqual(s: Bytes, p: nat, t: Bytes, width: nat)
    requires |t| <= width && p + |t| <= |s|
    ensures Window(s, p, |t|, width) == Window(t, 0, |t|, width) <==> MatchAt(s, t, p)
  {
    assert t[0..|t|] == t;
    if Window(s, p, |t|, width) == Window(t, 0, |t|, width) {
      assert s[p..p + |t|] == Window(s, p, |t|, width)[..|t|];
      assert t == Window(t, 0, |t|, width)[..|t|];
    }
  }

  /** The first `n` bytes in the upper part of a word. */
  method LoadEntry(width: nat, s: Bytes, n: nat) returns (entry: Word)
    requires n <= |s| && n <= width
    ensures entry == Window(s, 0, n, width)
  {
    entry := Zero(width);
    assert entry == Window(s, 0, 0, width);
    hide Window;
    for i := 0 to n
      invariant |entry| == width && entry == Window(s, 0, i, width)
    {
      PlaceNext(s, 0, i, width);
      WindowWidth(s, 0, i + 1, width);
      entry := Or(entry, Place(width, i, s[i]));
    }
  }

  lemma WindowWidth(s: Bytes, p: nat, n: nat, width: nat)
    requires p + n <= |s| && n <= width
    ensures |Window(s, p, n, width)| == width
  {
  }

  /** Needles shorter than the word, by a window that slides through the haystack. */
  method UnalignedNeedleSizeFind(width: nat, haystack: Bytes, needle: Bytes) returns (r: int)
    requires 0 < |needle| < width
    ensures Leftmost(haystack, needle, r)
  {
    if |needle| > |haystack| {
      return -1;
    }
    hide Window, MatchAt, Or, Place, ShiftByte;
    var n := |needle|;
    var needleEntry := LoadEntry(width, needle, n);
    var haystackEntry := LoadEntry(width, haystack, n);
    var offset := n;
    while offset < |haystack|
      invariant n <= offset <= |haystack|
      invariant haystackEntry == Window(haystack, offset - n, n, width)
      invariant forall p | 0 <= p < offset - n :: !MatchAt(haystack, needle, p)
    {
      WindowsEqual(haystack, offset - n, needle, width);
      if haystackEntry == needleEntry {
        return offset - n;
      }
      Slide(haystack, offset - n, n, width);
      WindowWidth(haystack, offset - n, n, width);
      haystackEntry := Or(ShiftByte(haystackEntry), Place(width, n - 1, haystack[offset]));
      offset := offset + 1;
    }
    WindowsEqual(haystack, |haystack| - n, needle, width);
    if haystackEntry == needleEntry {
      return |haystack| - n;
    }
    NoRoom(haystack, needle);
    r := -1;
  }

  lemma NoRoom(haystack: Bytes, needle: Bytes)
    ensures forall p | p > |haystack| - |needle| :: !MatchAt(haystack, needle, p)
  {
  }

  /** Needles as long as a word, by loading a word at every offset. */
  method AlignedNeedleSizeFind(haystack: Bytes, needle: Bytes) returns (r: int)
    requires needle != []
    ensures Leftmost(haystack, needle, r)
  {
    if |needle| > |haystack| {
      return -1;
    }
    for offset := 0 to |haystack| - |needle| + 1
      invariant forall p | 0 <= p < offset :: !MatchAt(haystack, needle, p)
    {
      var haystackVal := haystack[offset..offset + |needle|];
      if needle == haystackVal {
        return offset;
      }
    }
    r := -1;
  }

  // ----- sums -----

  const UINT32: nat := 0x1_0000_0000

  function Value(b: bv8): nat {
    b as nat
  }

  function Sum(s: Bytes): nat {
    if s == [] then 0 else Sum(s[..|s| - 1]) + Value(s[|s| - 1])
  }

  lemma SumNext(s: Bytes, i: nat)
    requires i < |s|
    ensures Sum(s[..i + 1]) == Sum(s[..i]) + Value(s[i])
  {
    assert s[..i + 1][..i] == s[..i];
  }

  lemma {:induction false} SumFirst(s: Bytes)
    requires s != []
    ensures Sum(s) == Value(s[0]) + Sum(s[1..])
    decreases |s|
  {
    if |s| > 1 {
      SumFirst(s[..|s| - 1]);
      assert s[..|s| - 1][1..] == s[1..][..|s| - 2];
    }
  }

  /** The sum of a window that moves by one byte. */
  lemma SumSlide(s: Bytes, p: nat, n: nat)
    requires 0 < n && p + n < |s|
    ensures Sum(s[p + 1..p + 1 + n]) == Sum(s[p..p + n]) - Value(s[p]) + Value(s[p + n])
  {
    var a, b := s[p..p + n], s[p + 1..p + 1 + n];
    SumFirst(a);
    assert b[..n - 1] == a[1..];
  }

  /** Unsigned subtraction and addition, one after the other, wrapping around. */
  function Wrap(x: int): nat {
    x % UINT32
  }

  lemma WrapStep(d: int, out: nat, into: nat)
    ensures Wrap(Wrap(Wrap(d) - out) + into) == Wrap(d - out + into)
  {
    WrapSum(Wrap(d) - out, into);
    WrapSum(d, into - out);
    assert Wrap(d) - out + into == Wrap(d) + (into - out);
  }

  lemma WrapSum(a: int, b: int)
    ensures Wrap(Wrap(a) + b) == Wrap(a + b)
  {
    var q := a / 0x1_0000_0000;
    assert a == q * 0x1_0000_0000 + a % 0x1_0000_0000;
    WrapShift(a % 0x1_0000_0000 + b, q);
  }

  lemma WrapShift(a: int, q: int)
    ensures (a + q * 0x1_0000_0000) % 0x1_0000_0000 == a % 0x1_0000_0000
  {
  }

  /** What the rolling difference is at a window: the sum there less the sum of the needle. */
  ghost function Difference(haystack: Bytes, needle: Bytes, p: nat): nat
    requires p + |needle| <= |haystack|
  {
    Wrap(Sum(haystack[p..p + |needle|]) - Sum(needle))
  }

  method InitialDifference(haystack: Bytes, needle: Bytes) returns (sumsDiff: nat)
    requires |needle| <= |haystack|
    ensures sumsDiff == Difference(haystack, needle, 0)
  {
    sumsDiff := 0;
    assert Wrap(Sum(haystack[..0]) - Sum(needle[..0])) == 0;
    hide Wrap, Value, Sum;
    for i := 0 to |needle|
      invariant sumsDiff == Wrap(Sum(haystack[..i]) - Sum(needle[..i]))
    {
      SumNext(haystack, i);
      SumNext(needle, i);
      AddThenSubtract(Sum(haystack[..i]) - Sum(needle[..i]), Value(haystack[i]), Value(needle[i]));
      sumsDiff := Wrap(sumsDiff + Value(haystack[i]));
      sumsDiff := Wrap(sumsDiff - Value(needle[i]));
    }
    assert needle[..|needle|] == needle && haystack[0..0 + |needle|] == haystack[..|needle|];
  }

  lemma DifferenceSlides(haystack: Bytes, needle: Bytes, p: nat)
    requires needle != [] && p + |needle| < |haystack|
    ensures Wrap(Wrap(Difference(haystack, needle, p) - Value(haystack[p])) + Value(haystack[p + |needle|])) ==
            Difference(haystack, needle, p + 1)
  {
    hide Wrap, Sum, Value;
    var n := |needle|;
    SumSlide(haystack, p, n);
    WrapStep(Sum(haystack[p..p + n]) - Sum(needle), Value(haystack[p]), Value(haystack[p + n]));
  }

  /** Where the needle is, the sums do not differ. */
  lemma MatchHasSum(haystack: Bytes, needle: Bytes, p: nat)
    requires needle != [] && p + |needle| <= |haystack|
    ensures MatchAt(haystack, needle, p) ==> Difference(haystack, needle, p) == 0 && haystack[p] == needle[0]
  {
    assert haystack[p..p + |needle|][0] == haystack[p];
  }

  method SameBytes(haystack: Bytes, p: nat, needle: Bytes) returns (same: bool)
    requires p + |needle| <= |haystack|
    ensures same == MatchAt(haystack, needle, p)
  {
    same := haystack[p..p + |needle|] == needle;
  }

  /** Longer needles, by the difference of the sums of the window and of the needle. */
  method GenericFind(haystack: Bytes, needle: Bytes) returns (r: int)
    requires needle != []
    ensures Leftmost(haystack, needle, r)
  {
    if |needle| > |haystack| {
      return -1;
    }
    hide Wrap, Value, MatchAt, Difference;
    var n := |needle|;
    var sumsDiff := InitialDifference(haystack, needle);
    var offset := 0;
    while true
      invariant 0 <= offset <= |haystack| - n
      invariant sumsDiff == Difference(haystack, needle, offset)
      invariant forall p | 0 <= p < offset :: !MatchAt(haystack, needle, p)
      decreases |haystack| - offset
    {
      if sumsDiff == 0 && haystack[offset] == needle[0] {
        var same := SameBytes(haystack, offset, needle);
        if same {
          return offset;
        }
      }
      MatchHasSum(haystack, needle, offset);
      if offset >= |haystack| - n {
        NoRoom(haystack, needle);
        return -1;
      }
      DifferenceSlides(haystack, needle, offset);
      sumsDiff := Wrap(sumsDiff - Value(haystack[offset]));
      sumsDiff := Wrap(sumsDiff + Value(haystack[offset + n]));
      offset := offset + 1;
    }
  }

  lemma AddThenSubtract(d: int, into: nat, out: nat)
    ensures Wrap(Wrap(Wrap(d) + into) - out) == Wrap(d + into - out)
  {
    WrapSum(d, into);
    WrapSum(d + into, 0 - out);
  }

  // ----- find -----

  method FirstByte(haystack: Bytes, b: bv8) returns (r: int)
    ensures -1 <= r < |haystack|
    ensures r >= 0 ==> haystack[r] == b
    ensures forall i | 0 <= i < (if r == -1 then |haystack| else r) :: haystack[i] != b
  {
    for i := 0 to |haystack|
      invariant forall k | 0 <= k < i :: haystack[k] != b
    {
      if haystack[i] == b {
        return i;
      }
    }
    r := -1;
  }

  /** A search that starts at the first occurrence of the first byte misses nothing. */
  lemma FromFirstByte(haystack: Bytes, needle: Bytes, first: nat, r: int)
    requires needle != [] && first < |haystack| && (forall i | 0 <= i < first :: haystack[i] != needle[0])
    requires Leftmost(haystack[first..], needle, r)
    ensures Leftmost(haystack, needle, if r == -1 then -1 else first + r)
  {
    forall p | 0 <= p <= |haystack|
      ensures MatchAt(haystack, needle, p) ==> p >= first && MatchAt(haystack[first..], needle, p - first)
    {
      if MatchAt(haystack, needle, p) {
        assert haystack[p..p + |needle|][0] == haystack[p];
        assert haystack[first..][p - first..p - first + |needle|] == haystack[p..p + |needle|];
      }
    }
    if r != -1 {
      assert haystack[first..][r..r + |needle|] == haystack[first + r..first + r + |needle|];
    }
  }

  /** Dispatch by the length of the needle. */
  method FindNeedle(haystack: Bytes, needle: Bytes) returns (r: int)
    requires needle != []
    ensures Leftmost(haystack, needle, r)
  {
    var first := FirstByte(haystack, needle[0]);
    if first == -1 {
      NoFirstByte(haystack, needle);
      return -1;
    }
    var q := FindFrom(haystack[first..], needle);
    FromFirstByte(haystack, needle, first, q);
    r := if q == -1 then -1 else first + q;
  }

  method FindFrom(haystack: Bytes, needle: Bytes) returns (r: int)
    requires needle != [] && haystack != [] && haystack[0] == needle[0]
    ensures Leftmost(haystack, needle, r)
  {
    match |needle|
    case 1 =>
      OneByte(haystack, needle);
      r := 0;
    case 2 => r := AlignedNeedleSizeFind(haystack, needle);
    case 3 => r := UnalignedNeedleSizeFind(4, haystack, needle);
    case 4 => r := AlignedNeedleSizeFind(haystack, needle);
    case 5 => r := UnalignedNeedleSizeFind(8, haystack, needle);
    case 6 => r := UnalignedNeedleSizeFind(8, haystack, needle);
    case 7 => r := UnalignedNeedleSizeFind(8, haystack, needle);
    case 8 => r := AlignedNeedleSizeFind(haystack, needle);
    case _ => r := GenericFind(haystack, needle);
  }

  lemma NoFirstByte(haystack: Bytes, needle: Bytes)
    requires needle != [] && forall i | 0 <= i < |haystack| :: haystack[i] != needle[0]
    ensures Leftmost(haystack, needle, -1)
  {
    forall p | 0 <= p <= |haystack|
      ensures !MatchAt(haystack, needle, p)
    {
      if p + |needle| <= |haystack| {
        assert haystack[p..p + |needle|][0] == haystack[p];
      }
    }
  }

  lemma OneByte(haystack: Bytes, needle: Bytes)
    requires |needle| == 1 && haystack != [] && haystack[0] == needle[0]
    ensures Leftmost(haystack, needle, 0)
  {
    assert haystack[0..1] == needle;
  }

  lemma FirstByteLeftmost(haystack: Bytes, b: bv8, r: int)
    requires -1 <= r < |haystack| && (r >= 0 ==> haystack[r] == b)
    requires forall i | 0 <= i < (if r == -1 then |haystack| else r) :: haystack[i] != b
    ensures Leftmost(haystack, [b], r)
  {
    forall p | 0 <= p < |haystack|
      ensures MatchAt(haystack, [b], p) <==> haystack[p] == b
    {
      assert haystack[p..p + 1] == [haystack[p]];
    }
  }

  /** Positions from one on, and zero when there is none. The results for an empty needle and for one that is too long
      are overwritten: the search goes on, with `after`, the byte that follows an empty needle, as its first byte. */
  method Operation(left: Bytes, right: Bytes, after: bv8) returns (result: int)
    ensures right != [] ==> Leftmost(left, right, result - 1)
    ensures right == [] ==> Leftmost(left, [after], result - 1) && (result == 1 <==> left != [] && left[0] == after)
  {
    if |right| == 0 {
      result := 1;
    } else if |right| > |left| {
      result := 0;
    }
    if |right| == 0 {
      result := FirstByte(left, after);
      FirstByteLeftmost(left, after, result);
    } else {
      result := FindNeedle(left, right);
    }
    result := result + 1;
  }
}
