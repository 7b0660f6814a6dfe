/**
 The null mask: one bit per value, packed in 64-bit words. The word-wise methods
 are proved against the meaning given by `NullAt`, one position at a time.
 */
module NullMask {
  import opened Words

  /** The conversion of a 64-bit position to the `uint32_t` parameter of `isNull` and `setNull`. */
  function CutToUint32(p: nat): (r: nat)
    ensures r <= p && r < 0x1_0000_0000
  {
    p % 0x1_0000_0000
  }

  /** The value at position `p` is null. */
  predicate NullAt(entries: seq<Word>, p: nat)
    requires p < 64 * |entries|
  {
    if p < 64 then entries[0][p] else NullAt(entries[1..], p - 64)
  }

  /** Entry `e` of a mask holds the bits of positions `64 e` to `64 e + 63`. */
  lemma {:induction false} EntryOf(entries: seq<Word>, e: nat, j: nat)
    requires e < |entries| && j < 64
    ensures 64 * e + j < 64 * |entries|
    ensures NullAt(entries, 64 * e + j) == entries[e][j]
  {
    if e > 0 {
      EntryOf(entries[1..], e - 1, j);
    }
  }

  lemma EveryEntry(entries: seq<Word>)
    ensures forall p | 0 <= p < 64 * |entries| :: NullAt(entries, p) == entries[p / 64][p % 64]
  {
    forall p | 0 <= p < 64 * |entries|
      ensures NullAt(entries, p) == entries[p / 64][p % 64]
    {
      EntryOf(entries, p / 64, p % 64);
    }
  }

  /** Two masks of one length agree at every position outside `lo..hi`. */
  ghost predicate SameOutside(before: seq<Word>, after: seq<Word>, lo: nat, hi: nat) {
    && |before| == |after|
    && forall p | 0 <= p < 64 * |after| && !(lo <= p < hi) :: NullAt(after, p) == NullAt(before, p)
  }

  /** `after` is `before` with `n` bits from `dstOffset` on replaced by those of `src` from
      `srcOffset` on, each flipped when `invert` holds. */
  ghost predicate Copied(src: seq<Word>, srcOffset: nat, before: seq<Word>, after: seq<Word>, dstOffset: nat, n: nat,
                         invert: bool)
    requires srcOffset + n <= 64 * |src|
    requires dstOffset + n <= 64 * |before|
  {
    && SameOutside(before, after, dstOffset, dstOffset + n)
    && forall p | dstOffset <= p < dstOffset + n ::
         NullAt(after, p) == (NullAt(src, srcOffset + (p - dstOffset)) != invert)
  }

  /** Some of the `n` bits from `offset` on, flipped when `invert` holds, is set. */
  ghost predicate SomeNull(src: seq<Word>, offset: nat, n: nat, invert: bool)
    requires offset + n <= 64 * |src|
  {
    exists p :: offset <= p < offset + n && NullAt(src, p) != invert
  }

  function Min(a: nat, b: nat): nat {
    if a < b then a else b
  }

  lemma SomeNullSplit(src: seq<Word>, offset: nat, m: nat, n: nat, invert: bool)
    requires offset + m + n <= 64 * |src|
    ensures SomeNull(src, offset, m + n, invert) ==
            (SomeNull(src, offset, m, invert) || SomeNull(src, offset + m, n, invert))
  {
  }

  // ----- one word of an unaligned copy -----

  /** The bits to take from one source word: as many as fit in both words, moved to start at
      `dstBitPos`, with zeros around them. */
  method ReadChunk(word: Word, srcBitPos: nat, dstBitPos: nat, numBitsLeft: nat, invert: bool)
    returns (entry: Word, n: nat)
    requires srcBitPos < 64 && dstBitPos < 64
    ensures n == Min(64 - (if dstBitPos < srcBitPos then srcBitPos else dstBitPos), numBitsLeft)
    ensures forall j | 0 <= j < 64 ::
              entry[j] == (dstBitPos <= j < dstBitPos + n && word[srcBitPos + j - dstBitPos] != invert)
  {
    entry := if invert then Not(word) else word;
    if dstBitPos < srcBitPos {
      n := Min(64 - srcBitPos, numBitsLeft);
      // Clear what lies above the range, align, clear what lies below it.
      entry := And(entry, Not(HighMask(64 - (srcBitPos + n))));
      entry := ShiftRight(entry, srcBitPos - dstBitPos);
      entry := And(entry, Not(LowerMask(dstBitPos)));
    } else if dstBitPos > srcBitPos {
      n := Min(64 - dstBitPos, numBitsLeft);
      entry := And(entry, Not(LowerMask(srcBitPos)));
      entry := ShiftLeft(entry, dstBitPos - srcBitPos);
      entry := And(entry, Not(HighMask(64 - (dstBitPos + n))));
    } else {
      n := Min(64 - dstBitPos, numBitsLeft);
      entry := And(entry, Not(LowerMask(srcBitPos)));
      entry := And(entry, Not(HighMask(64 - (dstBitPos + n))));
    }
  }

  /** Clears `n` bits of entry `e` from `bitPos` on and merges `entry` into it. */
  method MergeChunk(dst: array<Word>, e: nat, bitPos: nat, n: nat, entry: Word) returns (nonZero: bool)
    requires e < dst.Length && bitPos + n <= 64
    requires forall j | 0 <= j < 64 && !(bitPos <= j < bitPos + n) :: !entry[j]
    modifies dst
    ensures forall k | 0 <= k < dst.Length && k != e :: dst[k] == old(dst[k])
    ensures forall j | 0 <= j < 64 :: dst[e][j] == if bitPos <= j < bitPos + n then entry[j] else old(dst[e][j])
    ensures nonZero <==> exists j :: 0 <= j < 64 && entry[j]
  {
    NonZero(entry);
    dst[e] := And(dst[e], Not(ShiftLeft(LowerMask(n), bitPos)));
    nonZero := entry != NO_NULL_ENTRY;
    if nonZero {
      dst[e] := Or(dst[e], entry);
    }
  }

  /** Once entry `de` holds the merged bits, `n` more bits have been copied. */
  lemma CopyStep(src: seq<Word>, srcOffset: nat, start: seq<Word>, before: seq<Word>, dstOffset: nat, bitPos: nat,
                 n: nat, invert: bool, se: nat, sb: nat, de: nat, db: nat, after: seq<Word>)
    requires srcOffset + bitPos + n <= 64 * |src| && dstOffset + bitPos + n <= 64 * |start|
    requires Copied(src, srcOffset, start, before, dstOffset, bitPos, invert)
    requires se < |src| && sb + n <= 64 && 64 * se + sb == srcOffset + bitPos
    requires de < |start| && db + n <= 64 && 64 * de + db == dstOffset + bitPos
    requires |after| == |before| && forall e | 0 <= e < |after| && e != de :: after[e] == before[e]
    requires forall j | 0 <= j < 64 ::
               after[de][j] == if db <= j < db + n then src[se][sb + j - db] != invert else before[de][j]
    ensures Copied(src, srcOffset, start, after, dstOffset, bitPos + n, invert)
  {
    forall p | 0 <= p < 64 * |after|
      ensures NullAt(after, p) ==
              if dstOffset + bitPos <= p < dstOffset + bitPos + n
              then NullAt(src, srcOffset + (p - dstOffset)) != invert
              else NullAt(before, p)
    {
      EntryOf(after, p / 64, p % 64);
      EntryOf(before, p / 64, p % 64);
      if p / 64 == de {
        var j := p % 64;
        assert p == 64 * de + j;
        if db <= j < db + n {
          EntryOf(src, se, sb + j - db);
          assert srcOffset + (p - dstOffset) == 64 * se + (sb + j - db);
        }
      }
    }
  }

  /** The chunk read from entry `se` has a one exactly when one of the copied bits is set. */
  lemma ChunkHasNull(src: seq<Word>, invert: bool, se: nat, sb: nat, db: nat, n: nat, entry: Word)
    requires se < |src| && sb + n <= 64 && db + n <= 64
    requires forall j | 0 <= j < 64 :: entry[j] == (db <= j < db + n && src[se][sb + j - db] != invert)
    ensures SomeNull(src, 64 * se + sb, n, invert) <==> exists j :: 0 <= j < 64 && entry[j]
  {
    var lo := 64 * se + sb;
    if j :| 0 <= j < 64 && entry[j] {
      EntryOf(src, se, sb + j - db);
      assert NullAt(src, lo + (j - db)) != invert;
    }
    if p :| lo <= p < lo + n && NullAt(src, p) != invert {
      EntryOf(src, se, p - 64 * se);
      assert entry[db + (p - lo)];
    }
  }

  method CopyUnaligned(src: array<Word>, srcOffset: nat, dst: array<Word>, dstOffset: nat, numBitsToCopy: nat,
                       invert: bool) returns (hasNull: bool)
    requires src != dst
    requires srcOffset + numBitsToCopy <= 64 * src.Length
    requires dstOffset + numBitsToCopy <= 64 * dst.Length
    modifies dst
    ensures Copied(src[..], srcOffset, old(dst[..]), dst[..], dstOffset, numBitsToCopy, invert)
    ensures hasNull == SomeNull(src[..], srcOffset, numBitsToCopy, invert)
  {
    var bitPos := 0;
    hasNull := false;
    var srcEntryPos: nat, srcBitPos: nat := srcOffset / 64, srcOffset % 64;
    var dstEntryPos: nat, dstBitPos: nat := dstOffset / 64, dstOffset % 64;
    while bitPos < numBitsToCopy
      invariant 0 <= bitPos <= numBitsToCopy
      invariant bitPos < numBitsToCopy ==> srcBitPos < 64 && dstBitPos < 64
      invariant bitPos < numBitsToCopy ==> 64 * srcEntryPos + srcBitPos == srcOffset + bitPos
      invariant bitPos < numBitsToCopy ==> 64 * dstEntryPos + dstBitPos == dstOffset + bitPos
      invariant Copied(src[..], srcOffset, old(dst[..]), dst[..], dstOffset, bitPos, invert)
      invariant hasNull == SomeNull(src[..], srcOffset, bitPos, invert)
    {
      ghost var before := dst[..];
      var entry, n := ReadChunk(src[srcEntryPos], srcBitPos, dstBitPos, numBitsToCopy - bitPos, invert);
      var nonZero := MergeChunk(dst, dstEntryPos, dstBitPos, n, entry);
      hasNull := hasNull || nonZero;
      ChunkHasNull(src[..], invert, srcEntryPos, srcBitPos, dstBitPos, n, entry);
      CopyStep(src[..], srcOffset, old(dst[..]), before, dstOffset, bitPos, n, invert, srcEntryPos, srcBitPos,
               dstEntryPos, dstBitPos, dst[..]);
      SomeNullSplit(src[..], srcOffset, bitPos, n, invert);
      if dstBitPos < srcBitPos {
        srcEntryPos, srcBitPos, dstBitPos := srcEntryPos + 1, 0, dstBitPos + n;
      } else if dstBitPos > srcBitPos {
        dstEntryPos, dstBitPos, srcBitPos := dstEntryPos + 1, 0, srcBitPos + n;
      } else {
        srcEntryPos, dstEntryPos, srcBitPos, dstBitPos := srcEntryPos + 1, dstEntryPos + 1, 0, 0;
      }
      bitPos := bitPos + n;
    }
  }

  // ----- whole bytes -----

  /** Byte `b` of the mask seen as little-endian memory: positions `8 b` to `8 b + 7`. */
  function ByteAt(entries: seq<Word>, b: nat): (r: seq<bool>)
    requires b < 8 * |entries|
    ensures |r| == 8 && forall i | 0 <= i < 8 :: r[i] == NullAt(entries, 8 * b + i)
  {
    EveryEntry(entries);
    entries[b / 8][8 * (b % 8)..8 * (b % 8) + 8]
  }

  /** `memcpy` of `numBytes` bytes, with the `any_of` test whether one of them is not zero. */
  method CopyBytes(src: array<Word>, srcByte: nat, dst: array<Word>, dstByte: nat, numBytes: nat)
    returns (anyNonZero: bool)
    requires src != dst
    requires srcByte + numBytes <= 8 * src.Length && dstByte + numBytes <= 8 * dst.Length
    modifies dst
    ensures Copied(src[..], 8 * srcByte, old(dst[..]), dst[..], 8 * dstByte, 8 * numBytes, false)
    ensures anyNonZero == SomeNull(src[..], 8 * srcByte, 8 * numBytes, false)
  {
    anyNonZero := false;
    ghost var s, d := src[..], dst[..];
    for i := 0 to numBytes
      invariant src[..] == s
      invariant Copied(s, 8 * srcByte, d, dst[..], 8 * dstByte, 8 * i, false)
      invariant anyNonZero == SomeNull(s, 8 * srcByte, 8 * i, false)
    {
      ghost var before := dst[..];
      var nonZero := CopyByte(src, srcByte + i, dst, dstByte + i);
      anyNonZero := anyNonZero || nonZero;
      CopiedCompose(s, 8 * srcByte, d, before, dst[..], 8 * dstByte, 8 * i, 8, false);
      SomeNullSplit(s, 8 * srcByte, 8 * i, 8, false);
    }
  }

  method CopyByte(src: array<Word>, srcByte: nat, dst: array<Word>, dstByte: nat) returns (nonZero: bool)
    requires src != dst
    requires srcByte < 8 * src.Length && dstByte < 8 * dst.Length
    modifies dst
    ensures Copied(src[..], 8 * srcByte, old(dst[..]), dst[..], 8 * dstByte, 8, false)
    ensures nonZero == SomeNull(src[..], 8 * srcByte, 8, false)
  {
    var byte := ByteAt(src[..], srcByte);
    var e, lo := dstByte / 8, 8 * (dstByte % 8);
    dst[e] := dst[e][..lo] + byte + dst[e][lo + 8..];
    nonZero := byte != [false, false, false, false, false, false, false, false];
    ByteCopied(src[..], srcByte, old(dst[..]), dst[..], dstByte);
    SomeNullInByte(src[..], srcByte);
  }

  lemma SomeNullInByte(src: seq<Word>, b: nat)
    requires b < 8 * |src|
    ensures SomeNull(src, 8 * b, 8, false) <==>
            ByteAt(src, b) != [false, false, false, false, false, false, false, false]
  {
    var byte := ByteAt(src, b);
    if p :| 8 * b <= p < 8 * b + 8 && NullAt(src, p) {
      assert byte[p - 8 * b];
    }
    if !SomeNull(src, 8 * b, 8, false) {
      forall i | 0 <= i < 8
        ensures !byte[i]
      {
        assert byte[i] == NullAt(src, 8 * b + i);
      }
    }
  }

  lemma ByteCopied(src: seq<Word>, sb: nat, before: seq<Word>, after: seq<Word>, db: nat)
    requires sb < 8 * |src| && db < 8 * |before|
    requires after == before[db / 8 := before[db / 8][..8 * (db % 8)] + ByteAt(src, sb) +
                                       before[db / 8][8 * (db % 8) + 8..]]
    ensures Copied(src, 8 * sb, before, after, 8 * db, 8, false)
  {
    var e, lo := db / 8, 8 * (db % 8);
    assert 64 * e + lo == 8 * db;
    forall p | 0 <= p < 64 * |after|
      ensures NullAt(after, p) ==
              if 8 * db <= p < 8 * db + 8 then NullAt(src, 8 * sb + (p - 8 * db)) else NullAt(before, p)
    {
      EntryOf(after, p / 64, p % 64);
      EntryOf(before, p / 64, p % 64);
      if p / 64 == e {
        var j := p % 64;
        assert p == 64 * e + j;
        if lo <= j < lo + 8 {
          assert after[e][j] == ByteAt(src, sb)[j - lo];
        }
      }
    }
  }

  /** Copying `m` bits and then the next `n` copies `m + n`. */
  lemma CopiedCompose(src: seq<Word>, srcOffset: nat, a: seq<Word>, b: seq<Word>, c: seq<Word>, dstOffset: nat,
                      m: nat, n: nat, invert: bool)
    requires srcOffset + m + n <= 64 * |src| && dstOffset + m + n <= 64 * |a|
    requires Copied(src, srcOffset, a, b, dstOffset, m, invert)
    requires Copied(src, srcOffset + m, b, c, dstOffset + m, n, invert)
    ensures Copied(src, srcOffset, a, c, dstOffset, m + n, invert)
  {
    forall p | dstOffset <= p < dstOffset + (m + n)
      ensures NullAt(c, p) == (NullAt(src, srcOffset + (p - dstOffset)) != invert)
    {
      if p < dstOffset + m {
        assert NullAt(c, p) == NullAt(b, p);
      } else {
        assert srcOffset + m + (p - (dstOffset + m)) == srcOffset + (p - dstOffset);
      }
    }
    forall p | 0 <= p < 64 * |c| && !(dstOffset <= p < dstOffset + (m + n))
      ensures NullAt(c, p) == NullAt(a, p)
    {
      assert NullAt(c, p) == NullAt(b, p);
    }
  }

  // ----- the short copy, bit by bit -----

  function WithNull(entries: seq<Word>, p: nat, isNull: bool): (r: seq<Word>)
    requires p < 64 * |entries|
    ensures |r| == |entries|
    ensures forall q | 0 <= q < 64 * |entries| :: NullAt(r, q) == if q == p then isNull else NullAt(entries, q)
  {
    EveryEntry(entries);
    EveryEntry(entries[p / 64 := entries[p / 64][p % 64 := isNull]]);
    entries[p / 64 := entries[p / 64][p % 64 := isNull]]
  }

  /** The position parameter is a `uint32_t`. */
  method SetNull(entries: array<Word>, pos: nat, isNull: bool)
    requires pos < 0x1_0000_0000 && pos < 64 * entries.Length
    modifies entries
    ensures entries[..] == WithNull(old(entries[..]), pos, isNull)
  {
    var entryPos, bitPos := pos / 64, pos % 64;
    if isNull {
      entries[entryPos] := Or(entries[entryPos], SingleOne(bitPos));
    } else {
      entries[entryPos] := And(entries[entryPos], Not(SingleOne(bitPos)));
    }
    assert entries[entryPos] == old(entries[entryPos])[bitPos := isNull];
  }

  /** What copying `n` bits one at a time leaves: both positions are cut to 32 bits. */
  function ShortCopy(src: seq<Word>, srcOffset: nat, dst: seq<Word>, dstOffset: nat, n: nat, invert: bool): (r: seq<Word>)
    requires srcOffset + n <= 64 * |src| && dstOffset + n <= 64 * |dst|
    ensures |r| == |dst|
  {
    if n == 0 then dst
    else WithNull(ShortCopy(src, srcOffset, dst, dstOffset, n - 1, invert), CutToUint32(dstOffset + n - 1),
                  NullAt(src, CutToUint32(srcOffset + n - 1)) != invert)
  }

  /** No position of a bit-by-bit copy is cut. */
  predicate FitsUint32(srcOffset: nat, dstOffset: nat, n: nat) {
    n == 0 || (srcOffset + n <= 0x1_0000_0000 && dstOffset + n <= 0x1_0000_0000)
  }

  lemma OneBitCopied(src: seq<Word>, srcOffset: nat, dst: seq<Word>, dstOffset: nat, invert: bool)
    requires srcOffset < 64 * |src| && dstOffset < 64 * |dst|
    ensures Copied(src, srcOffset, dst, WithNull(dst, dstOffset, NullAt(src, srcOffset) != invert), dstOffset, 1, invert)
  {
  }

  lemma ShortStep(src: seq<Word>, srcOffset: nat, dst: seq<Word>, before: seq<Word>, dstOffset: nat, k: nat, invert: bool)
    requires srcOffset + k < 64 * |src| && dstOffset + k < 64 * |dst|
    requires Copied(src, srcOffset, dst, before, dstOffset, k, invert)
    ensures Copied(src, srcOffset, dst, WithNull(before, dstOffset + k, NullAt(src, srcOffset + k) != invert), dstOffset,
                   k + 1, invert)
  {
    OneBitCopied(src, srcOffset + k, before, dstOffset + k, invert);
    CopiedCompose(src, srcOffset, dst, before, WithNull(before, dstOffset + k, NullAt(src, srcOffset + k) != invert),
                  dstOffset, k, 1, invert);
  }

  /** One more bit, where nothing is cut. */
  lemma ShortCopyNext(src: seq<Word>, srcOffset: nat, dst: seq<Word>, dstOffset: nat, n: nat, invert: bool)
    requires n > 0 && srcOffset + n <= 64 * |src| && dstOffset + n <= 64 * |dst| && FitsUint32(srcOffset, dstOffset, n)
    ensures ShortCopy(src, srcOffset, dst, dstOffset, n, invert) ==
            WithNull(ShortCopy(src, srcOffset, dst, dstOffset, n - 1, invert), dstOffset + (n - 1), NullAt(src, srcOffset + (n - 1)) != invert)
  {
    hide NullAt, WithNull;
    assert CutToUint32(dstOffset + n - 1) == dstOffset + (n - 1) && CutToUint32(srcOffset + n - 1) == srcOffset + (n - 1);
  }

  lemma NothingCopied(src: seq<Word>, srcOffset: nat, dst: seq<Word>, dstOffset: nat, invert: bool)
    requires srcOffset <= 64 * |src| && dstOffset <= 64 * |dst|
    ensures Copied(src, srcOffset, dst, dst, dstOffset, 0, invert)
  {
  }

  lemma {:induction false} ShortCopyCorrect(src: seq<Word>, srcOffset: nat, dst: seq<Word>, dstOffset: nat, n: nat,
                                            invert: bool)
    requires srcOffset + n <= 64 * |src| && dstOffset + n <= 64 * |dst|
    requires FitsUint32(srcOffset, dstOffset, n)
    ensures Copied(src, srcOffset, dst, ShortCopy(src, srcOffset, dst, dstOffset, n, invert), dstOffset, n, invert)
  {
    hide Copied, WithNull, NullAt, CutToUint32;
    if n == 0 {
      NothingCopied(src, srcOffset, dst, dstOffset, invert);
    } else {
      hide ShortCopy;
      ShortCopyCorrect(src, srcOffset, dst, dstOffset, n - 1, invert);
      ShortCopyNext(src, srcOffset, dst, dstOffset, n, invert);
      ShortStep(src, srcOffset, dst, ShortCopy(src, srcOffset, dst, dstOffset, n - 1, invert), dstOffset, n - 1, invert);
    }
  }

  lemma {:induction false} ShortCopyKeepsHigh(src: seq<Word>, srcOffset: nat, dst: seq<Word>, dstOffset: nat, n: nat,
                                              invert: bool, p: nat)
    requires srcOffset + n <= 64 * |src| && dstOffset + n <= 64 * |dst|
    requires 0x1_0000_0000 <= p < 64 * |dst|
    ensures NullAt(ShortCopy(src, srcOffset, dst, dstOffset, n, invert), p) == NullAt(dst, p)
  {
    if n > 0 {
      ShortCopyKeepsHigh(src, srcOffset, dst, dstOffset, n - 1, invert, p);
    }
  }

  /** A mask of `size` entries whose only null, if any, is at `p`. */
  function OnlyNull(size: nat, p: nat, isNull: bool): (r: seq<Word>)
    requires p < 64 * size
    ensures |r| == size
    ensures forall q | 0 <= q < 64 * size :: NullAt(r, q) == (q == p && isNull)
  {
    EveryEntry(seq(size, _ => NO_NULL_ENTRY));
    WithNull(seq(size, _ => NO_NULL_ENTRY), p, isNull)
  }

  /** A bit-by-bit copy is right for all contents exactly when no position is cut to 32 bits. */
  lemma ShortCopyExact(srcSize: nat, srcOffset: nat, dstSize: nat, dstOffset: nat, n: nat, invert: bool)
    requires srcOffset + n <= 64 * srcSize && dstOffset + n <= 64 * dstSize
    ensures (forall src: seq<Word>, dst: seq<Word> | |src| == srcSize && |dst| == dstSize ::
               Copied(src, srcOffset, dst, ShortCopy(src, srcOffset, dst, dstOffset, n, invert), dstOffset, n, invert))
            <==> FitsUint32(srcOffset, dstOffset, n)
  {
    if FitsUint32(srcOffset, dstOffset, n) {
      forall src: seq<Word>, dst: seq<Word> | |src| == srcSize && |dst| == dstSize
        ensures Copied(src, srcOffset, dst, ShortCopy(src, srcOffset, dst, dstOffset, n, invert), dstOffset, n, invert)
      {
        ShortCopyCorrect(src, srcOffset, dst, dstOffset, n, invert);
      }
    } else {
      var lastSrc, lastDst := srcOffset + n - 1, dstOffset + n - 1;
      var src := OnlyNull(srcSize, lastSrc, true);
      // The last destination bit is wrong: never written, or written from a wrong source bit.
      var dst := OnlyNull(dstSize, lastDst, invert);
      var after := ShortCopy(src, srcOffset, dst, dstOffset, n, invert);
      if lastDst >= 0x1_0000_0000 {
        ShortCopyKeepsHigh(src, srcOffset, dst, dstOffset, n, invert, lastDst);
      }
      assert NullAt(after, lastDst) == invert;
      assert NullAt(src, srcOffset + (lastDst - dstOffset));
      assert !Copied(src, srcOffset, dst, after, dstOffset, n, invert);
    }
  }

  method CopyNullMask(src: array<Word>, srcOffset: nat, dst: array<Word>, dstOffset: nat, numBitsToCopy: nat,
                      invert: bool) returns (hasNull: bool)
    requires src != dst
    requires srcOffset + numBitsToCopy <= 64 * src.Length
    requires dstOffset + numBitsToCopy <= 64 * dst.Length
    modifies dst
    ensures numBitsToCopy > 3 || FitsUint32(srcOffset, dstOffset, numBitsToCopy) ==>
              Copied(src[..], srcOffset, old(dst[..]), dst[..], dstOffset, numBitsToCopy, invert)
    ensures numBitsToCopy <= 3 ==>
              && dst[..] == ShortCopy(src[..], srcOffset, old(dst[..]), dstOffset, numBitsToCopy, invert)
              && hasNull == ShortFlag(src[..], srcOffset, numBitsToCopy)
    ensures numBitsToCopy > 3 || FitsUint32(srcOffset, dstOffset, numBitsToCopy) ==>
              hasNull == SomeNull(src[..], srcOffset, numBitsToCopy, invert && numBitsToCopy > 3)
  {
    if numBitsToCopy <= 3 {
      hasNull := CopyShort(src, srcOffset, dst, dstOffset, numBitsToCopy, invert);
    } else if !invert && srcOffset % 8 == dstOffset % 8 && numBitsToCopy >= 8 && numBitsToCopy - srcOffset % 8 >= 8 {
      hasNull := CopyByteAligned(src, srcOffset, dst, dstOffset, numBitsToCopy);
    } else {
      hasNull := CopyUnaligned(src, srcOffset, dst, dstOffset, numBitsToCopy, invert);
    }
  }

  lemma SomeNullNone(s: seq<Word>, offset: nat)
    requires offset <= 64 * |s|
    ensures !SomeNull(s, offset, 0, false)
  {
  }

  lemma SomeNullNext(s: seq<Word>, offset: nat, i: nat)
    requires offset + i < 64 * |s|
    ensures SomeNull(s, offset, i + 1, false) <==> SomeNull(s, offset, i, false) || NullAt(s, offset + i)
  {
  }

  /** What the bit-by-bit path reports: a null among the source bits at the cut positions. */
  ghost predicate ShortFlag(src: seq<Word>, srcOffset: nat, n: nat)
    requires srcOffset + n <= 64 * |src|
  {
    if n == 0 then false else ShortFlag(src, srcOffset, n - 1) || NullAt(src, CutToUint32(srcOffset + n - 1))
  }

  lemma {:induction false} ShortFlagCorrect(src: seq<Word>, srcOffset: nat, n: nat)
    requires srcOffset + n <= 64 * |src| && (n == 0 || srcOffset + n <= 0x1_0000_0000)
    ensures ShortFlag(src, srcOffset, n) == SomeNull(src, srcOffset, n, false)
  {
    hide SomeNull, NullAt;
    if n == 0 {
      SomeNullNone(src, srcOffset);
    } else {
      ShortFlagCorrect(src, srcOffset, n - 1);
      SomeNullNext(src, srcOffset, n - 1);
    }
  }

  lemma {:induction false} ShortFlagNone(src: seq<Word>, srcOffset: nat, n: nat)
    requires srcOffset + n <= 64 * |src| && forall p | 0 <= p < 64 * |src| && p < 0x1_0000_0000 :: !NullAt(src, p)
    ensures !ShortFlag(src, srcOffset, n)
    decreases n
  {
    if n > 0 {
      ShortFlagNone(src, srcOffset, n - 1);
    }
  }

  /** A null at a position that is cut is not noticed: only bits below 2^32 are read. */
  lemma CutFlagMissed(srcSize: nat, srcOffset: nat, n: nat) returns (src: seq<Word>)
    requires 0 < n && srcOffset + n <= 64 * srcSize && srcOffset + n > 0x1_0000_0000
    ensures |src| == srcSize && !ShortFlag(src, srcOffset, n) && SomeNull(src, srcOffset, n, false)
  {
    var last := srcOffset + n - 1;
    src := OnlyNull(srcSize, last, true);
    ShortFlagNone(src, srcOffset, n);
    assert NullAt(src, last);
  }

  /** Without a null in the source, an inverted copy is all null, which is not noticed either. */
  lemma InvertedFlagMissed(srcSize: nat, srcOffset: nat, n: nat) returns (src: seq<Word>)
    requires 0 < n && srcOffset + n <= 64 * srcSize
    ensures |src| == srcSize && !ShortFlag(src, srcOffset, n) && SomeNull(src, srcOffset, n, true)
  {
    src := OnlyNull(srcSize, srcOffset, false);
    ShortFlagNone(src, srcOffset, n);
    assert NullAt(src, srcOffset) != true;
  }

  /** What the short path returns tells, for all contents, whether a bit of an exact copy is null if and only if nothing is
      copied, or nothing is inverted and no position that is read is cut. */
  lemma ShortFlagExact(srcSize: nat, srcOffset: nat, n: nat, invert: bool)
    requires srcOffset + n <= 64 * srcSize
    ensures (forall src: seq<Word> | |src| == srcSize :: ShortFlag(src, srcOffset, n) == SomeNull(src, srcOffset, n, invert))
            <==> n == 0 || (!invert && srcOffset + n <= 0x1_0000_0000)
  {
    hide SomeNull, NullAt, ShortFlag;
    if n == 0 {
      forall src: seq<Word> | |src| == srcSize
        ensures ShortFlag(src, srcOffset, n) == SomeNull(src, srcOffset, n, invert)
      {
        NothingFlagged(src, srcOffset, invert);
      }
    } else if invert {
      var src := InvertedFlagMissed(srcSize, srcOffset, n);
    } else if srcOffset + n > 0x1_0000_0000 {
      var src := CutFlagMissed(srcSize, srcOffset, n);
    } else {
      forall src: seq<Word> | |src| == srcSize
        ensures ShortFlag(src, srcOffset, n) == SomeNull(src, srcOffset, n, invert)
      {
        ShortFlagCorrect(src, srcOffset, n);
      }
    }
  }

  lemma NothingFlagged(src: seq<Word>, srcOffset: nat, invert: bool)
    requires srcOffset <= 64 * |src|
    ensures !ShortFlag(src, srcOffset, 0) && !SomeNull(src, srcOffset, 0, invert)
  {
  }

  method CopyShort(src: array<Word>, srcOffset: nat, dst: array<Word>, dstOffset: nat, numBitsToCopy: nat, invert: bool)
    returns (anyNull: bool)
    requires src != dst
    requires srcOffset + numBitsToCopy <= 64 * src.Length
    requires dstOffset + numBitsToCopy <= 64 * dst.Length
    modifies dst
    ensures dst[..] == ShortCopy(src[..], srcOffset, old(dst[..]), dstOffset, numBitsToCopy, invert)
    ensures FitsUint32(srcOffset, dstOffset, numBitsToCopy) ==>
              Copied(src[..], srcOffset, old(dst[..]), dst[..], dstOffset, numBitsToCopy, invert)
    ensures anyNull == ShortFlag(src[..], srcOffset, numBitsToCopy)
    ensures FitsUint32(srcOffset, dstOffset, numBitsToCopy) ==>
              anyNull == SomeNull(src[..], srcOffset, numBitsToCopy, false)
  {
    hide Copied, SomeNull, NullAt, WithNull;
    anyNull := false;
    ghost var s, d := src[..], dst[..];
    for i := 0 to numBitsToCopy
      invariant src[..] == s
      invariant dst[..] == ShortCopy(s, srcOffset, d, dstOffset, i, invert)
      invariant anyNull == ShortFlag(s, srcOffset, i)
    {
      var isNull := NullAt(src[..], CutToUint32(srcOffset + i));
      SetNull(dst, CutToUint32(dstOffset + i), isNull != invert);
      anyNull := anyNull || isNull;
    }
    if FitsUint32(srcOffset, dstOffset, numBitsToCopy) {
      ShortCopyCorrect(s, srcOffset, d, dstOffset, numBitsToCopy, invert);
      ShortFlagCorrect(s, srcOffset, numBitsToCopy);
    }
  }

  /** Whole bytes from a byte boundary on, then the bits of the last partial byte. */
  method CopyFromByteBoundary(src: array<Word>, srcByte: nat, dst: array<Word>, dstByte: nat, numBits: nat)
    returns (hasNull: bool)
    requires src != dst
    requires 8 * srcByte + numBits <= 64 * src.Length
    requires 8 * dstByte + numBits <= 64 * dst.Length
    modifies dst
    ensures Copied(src[..], 8 * srcByte, old(dst[..]), dst[..], 8 * dstByte, numBits, false)
    ensures hasNull == SomeNull(src[..], 8 * srcByte, numBits, false)
  {
    ghost var s, d := src[..], dst[..];
    var numBytes, rest := numBits / 8, numBits % 8;
    hasNull := CopyBytes(src, srcByte, dst, dstByte, numBytes);
    if rest > 0 {
      ghost var afterBytes := dst[..];
      var last := CopyUnaligned(src, 8 * srcByte + 8 * numBytes, dst, 8 * dstByte + 8 * numBytes, rest, false);
      assert src[..] == s;
      CopiedCompose(s, 8 * srcByte, d, afterBytes, dst[..], 8 * dstByte, 8 * numBytes, rest, false);
      SomeNullSplit(s, 8 * srcByte, 8 * numBytes, rest, false);
      hasNull := last || hasNull;
    }
  }

  /** Offsets equal modulo 8: the bits up to the next byte boundary, then from there on. */
  method CopyByteAligned(src: array<Word>, srcOffset: nat, dst: array<Word>, dstOffset: nat, numBitsToCopy: nat)
    returns (hasNull: bool)
    requires src != dst
    requires srcOffset + numBitsToCopy <= 64 * src.Length
    requires dstOffset + numBitsToCopy <= 64 * dst.Length
    requires srcOffset % 8 == dstOffset % 8 && numBitsToCopy - srcOffset % 8 >= 8
    modifies dst
    ensures Copied(src[..], srcOffset, old(dst[..]), dst[..], dstOffset, numBitsToCopy, false)
    ensures hasNull == SomeNull(src[..], srcOffset, numBitsToCopy, false)
  {
    hide Copied, SomeNull;
    ghost var s, d := src[..], dst[..];
    if srcOffset == 0 {
      hasNull := CopyFromByteBoundary(src, 0, dst, dstOffset / 8, numBitsToCopy);
    } else {
      var numBitsInFirstByte := 8 - srcOffset % 8;
      var first := CopyUnaligned(src, srcOffset, dst, dstOffset, numBitsInFirstByte, false);
      assert src[..] == s;
      ghost var afterFirst := dst[..];
      var srcByte, dstByte := (srcOffset + numBitsInFirstByte) / 8, (dstOffset + numBitsInFirstByte) / 8;
      assert 8 * srcByte == srcOffset + numBitsInFirstByte && 8 * dstByte == dstOffset + numBitsInFirstByte;
      hasNull := CopyFromByteBoundary(src, srcByte, dst, dstByte, numBitsToCopy - numBitsInFirstByte);
      assert src[..] == s;
      CopiedCompose(s, srcOffset, d, afterFirst, dst[..], dstOffset, numBitsInFirstByte,
                    numBitsToCopy - numBitsInFirstByte, false);
      SomeNullSplit(s, srcOffset, numBitsInFirstByte, numBitsToCopy - numBitsInFirstByte, false);
      hasNull := hasNull || first;
    }
  }
}
