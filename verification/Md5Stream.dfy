/**
 The MD5 context of `md5.cpp`: a 64-byte buffer, a bit counter split into two
 32-bit words, and one compression per full block. `Represents` ties the context
 to the message received so far, whatever its chunks were.
 */
module Md5Stream {
  import opened Md5Spec
  import opened Md5

  /** The complete blocks of a message, and what is left after them. */
  function FullBlocks(m: Bytes): (r: Bytes)
    ensures |r| % 64 == 0 && |r| == |m| - |m| % 64
  {
    m[..|m| - |m| % 64]
  }

  function Tail(m: Bytes): (r: Bytes)
    ensures |r| == |m| % 64
  {
    m[|m| - |m| % 64..]
  }

  /** The state after the first `n` bytes of `m`. */
  function StateAfter(f: Compression, m: Bytes, n: nat): State
    requires n <= |m|
  {
    Absorb(f, INITIAL, ToWords(m[..n]))
  }

  lemma OneBlock(f: Compression, s: State, block: Words)
    requires |block| == 16
    ensures Absorb(f, s, block) == f(s, block)
  {
    assert block[..16] == block && block[16..] == [];
    assert Absorb(f, f(s, block), []) == f(s, block);
  }

  lemma AppendBlock(f: Compression, prefix: Bytes, block: Bytes)
    requires |prefix| % 64 == 0 && |block| == 64
    ensures Absorb(f, INITIAL, ToWords(prefix + block)) == f(Absorb(f, INITIAL, ToWords(prefix)), ToWords(block))
  {
    hide *;
    WordsOfBlocks(prefix);
    WordsConcat(prefix, block);
    AppendLast(f, ToWords(prefix), ToWords(block));
  }

  lemma NextBlock(f: Compression, m: Bytes, n: nat)
    requires n % 64 == 0 && n + 64 <= |m|
    ensures StateAfter(f, m, n + 64) == f(StateAfter(f, m, n), ToWords(m[n..n + 64]))
  {
    var prefix, block := m[..n], m[n..n + 64];
    AppendBlock(f, prefix, block);
    assert m[..n + 64] == prefix + block;
  }

  lemma SamePrefix(f: Compression, m: Bytes, data: Bytes, n: nat)
    requires n <= |m| && n % 64 == 0
    ensures StateAfter(f, m + data, n) == StateAfter(f, m, n)
  {
    assert (m + data)[..n] == m[..n];
  }

  // ----- the split counter -----

  /** The counter words of a message of `n` bytes. */
  function LowBits(n: nat): nat {
    8 * n % 0x1_0000_0000
  }

  function HighBits(n: nat): nat {
    8 * n / 0x1_0000_0000 % 0x1_0000_0000
  }

  /** The update of the two counter words: wrap the low word, carry when it became smaller, add the
      bits of the length that do not fit in the low word. */
  lemma CounterStep(n: nat, len: nat, low: nat, high: nat)
    requires len < 0x1_0000_0000
    requires low == (LowBits(n) + 8 * len % 0x1_0000_0000) % 0x1_0000_0000
    requires high == (HighBits(n) + (if low < LowBits(n) then 1 else 0) + len / 0x2000_0000) % 0x1_0000_0000
    ensures low == LowBits(n + len) && high == HighBits(n + len)
  {
    var q, h := 8 * n / 0x1_0000_0000, len / 0x2000_0000;
    var t, l := LowBits(n), 8 * (len % 0x2000_0000);
    Split32(8 * len, h, l);
    var carry := if t + l >= 0x1_0000_0000 then 1 else 0;
    Split32(t + l, carry, t + l - 0x1_0000_0000 * carry);
    Split32(8 * (n + len), q + h + carry, low);
    ModuloSum(q, h + carry);
  }

  lemma Split32(x: nat, q: nat, r: nat)
    requires x == 0x1_0000_0000 * q + r && r < 0x1_0000_0000
    ensures x / 0x1_0000_0000 == q && x % 0x1_0000_0000 == r
  {
  }

  lemma ModuloSum(a: nat, b: nat)
    ensures (a % 0x1_0000_0000 + b) % 0x1_0000_0000 == (a + b) % 0x1_0000_0000
  {
    var q, r := (a % 0x1_0000_0000 + b) / 0x1_0000_0000, (a % 0x1_0000_0000 + b) % 0x1_0000_0000;
    Split32(a + b, a / 0x1_0000_0000 + q, r);
  }

  /** The low counter word gives the number of buffered bytes. */
  lemma BufferedBytes(n: nat)
    ensures LowBits(n) / 8 % 64 == n % 64
  {
    var q := n / 0x2000_0000;
    var r := n % 0x2000_0000;
    assert n == 0x2000_0000 * q + r && LowBits(n) == 8 * r;
    assert n == 64 * (0x80_0000 * q) + r;
  }

  /** A message padded within its last block: one block of its tail, 0x80, zeros and the length. */
  lemma PadOneBlock(f: Compression, m: Bytes)
    requires |m| % 64 < 56
    ensures |Tail(m) + [0x80] + Zeros(55 - |m| % 64)| == 56
    ensures Absorb(f, INITIAL, Padded(m)) ==
            f(StateAfter(f, m, |m| - |m| % 64),
                     ToWords(Tail(m) + [0x80] + Zeros(55 - |m| % 64)) + LengthWords(8 * |m|))
  {
    var last := Tail(m) + [0x80] + Zeros(55 - |m| % 64);
    assert m + [0x80] + Zeros(PadZeros(|m|)) == FullBlocks(m) + last;
    hide ToWords, Absorb, Zeros, LengthWords;
    PaddedBlocks(f, FullBlocks(m), last, 8 * |m|);
  }

  /** A message padded into a block of its own: the tail, 0x80 and zeros, then zeros and the length. */
  lemma PadTwoBlocks(f: Compression, m: Bytes)
    requires |m| % 64 >= 56
    ensures |Tail(m) + [0x80] + Zeros(63 - |m| % 64)| == 64
    ensures Absorb(f, INITIAL, Padded(m)) ==
            f(f(StateAfter(f, m, |m| - |m| % 64), ToWords(Tail(m) + [0x80] + Zeros(63 - |m| % 64))),
                     ToWords(Zeros(56)) + LengthWords(8 * |m|))
  {
    var block := Tail(m) + [0x80] + Zeros(63 - |m| % 64);
    assert m + [0x80] + Zeros(PadZeros(|m|)) == FullBlocks(m) + block + Zeros(56);
    hide ToWords, Absorb, Zeros, LengthWords;
    PaddedBlocks(f, FullBlocks(m) + block, Zeros(56), 8 * |m|);
    AppendBlock(f, FullBlocks(m), block);
  }

  lemma Associative(a: Words, b: Words, c: Words)
    ensures (a + b) + c == a + (b + c)
  {
  }

  lemma AppendLast(f: Compression, p: Words, last: Words)
    requires |p| % 16 == 0 && |last| == 16
    ensures Absorb(f, INITIAL, p + last) == f(Absorb(f, INITIAL, p), last)
  {
    AbsorbConcat(f, INITIAL, p, last);
    OneBlock(f, Absorb(f, INITIAL, p), last);
  }

  lemma WordsOfBlocks(b: Bytes)
    requires |b| % 64 == 0
    ensures |b| % 4 == 0 && |ToWords(b)| % 16 == 0
  {
    hide ToWords;
    assert |b| == 64 * (|b| / 64);
    assert |ToWords(b)| == 16 * (|b| / 64);
  }

  /** Whole blocks, 56 bytes and the length words. */
  lemma PaddedBlocks(f: Compression, prefix: Bytes, last: Bytes, n: nat)
    requires |prefix| % 64 == 0 && |last| == 56
    ensures Absorb(f, INITIAL, ToWords(prefix + last) + LengthWords(n)) ==
            f(Absorb(f, INITIAL, ToWords(prefix)), ToWords(last) + LengthWords(n))
  {
    hide *;
    WordsOfBlocks(prefix);
    WordsConcat(prefix, last);
    Associative(ToWords(prefix), ToWords(last), LengthWords(n));
    AppendLast(f, ToWords(prefix), ToWords(last) + LengthWords(n));
  }

  /** A chunk that does not complete the buffered block. */
  lemma TailAppend(m: Bytes, data: Bytes)
    requires |m| % 64 + |data| < 64
    ensures |m + data| - |m + data| % 64 == |m| - |m| % 64
    ensures Tail(m + data) == Tail(m) + data
  {
    assert |m + data| == 64 * (|m| / 64) + (|m| % 64 + |data|);
  }

  lemma NextMultiple(n: nat)
    requires n % 64 == 0
    ensures (n + 64) % 64 == 0
  {
  }

  lemma BlockOf(m: Bytes, data: Bytes, pos: nat, none: Bytes)
    requires pos + 64 <= |data| && none == []
    ensures none + data[pos..pos + 64] == (m + data)[|m| + pos..|m| + pos + 64]
  {
  }

  /** What follows the last complete block is the tail of the message. */
  lemma RestOf(m: Bytes, data: Bytes, pos: nat)
    requires pos <= |data| < pos + 64 && (|m| + pos) % 64 == 0
    ensures |m + data| - |m + data| % 64 == |m| + pos && |data[pos..]| == |m + data| % 64 && Tail(m + data) == data[pos..]
  {
    var all := m + data;
    assert |all| == 64 * ((|m| + pos) / 64) + (|data| - pos);
    assert all[|m| + pos..] == data[pos..];
  }

  /** The buffered bytes with as many new ones as complete a block are a block of the whole message. */
  lemma JoinedBlock(m: Bytes, data: Bytes, buffered: Bytes)
    requires buffered == Tail(m) && |data| >= 64 - |buffered|
    ensures buffered + data[..64 - |buffered|] == (m + data)[|m| - |buffered|..|m| - |buffered| + 64]
  {
    var t, whole := |buffered|, m + data;
    assert whole[|m| - t..|m|] == m[|m| - t..];
    assert whole[|m|..|m| - t + 64] == data[..64 - t];
  }

  // ----- the digest in base 16 -----

  const HEX_DIGITS: string := "0123456789abcdef"

  function Base16(digest: Bytes): (r: string)
    ensures |r| == 2 * |digest|
  {
    if digest == [] then ""
    else
      var rest := Base16(digest[..|digest| - 1]);
      var a := digest[|digest| - 1];
      rest + [HEX_DIGITS[a / 16 % 16], HEX_DIGITS[a % 16]]
  }

  /** The value of a hexadecimal digit. */
  function DigitValue(c: char): int {
    if '0' <= c <= '9' then c as int - '0' as int else 10 + (c as int - 'a' as int)
  }

  predicate IsDigit(c: char) {
    '0' <= c <= '9' || 'a' <= c <= 'f'
  }

  ghost predicate AllBytes(b: Bytes) {
    forall i | 0 <= i < |b| :: 0 <= b[i] < 0x100
  }

  /** Two characters are the byte `a` in base 16, the high digit first. */
  ghost predicate Writes(high: char, low: char, a: int) {
    IsDigit(high) && IsDigit(low) && 16 * DigitValue(high) + DigitValue(low) == a
  }

  lemma DigitsAreHex(d: nat)
    requires d < 16
    ensures IsDigit(HEX_DIGITS[d]) && DigitValue(HEX_DIGITS[d]) == d
  {
  }

  /** Every byte is written as its two lower-case hexadecimal digits, the high one first. */
  lemma {:induction false} Base16Exact(digest: Bytes, i: nat)
    requires AllBytes(digest) && i < |digest|
    ensures Writes(Base16(digest)[2 * i], Base16(digest)[2 * i + 1], digest[i])
    decreases |digest|
  {
    hide IsDigit, DigitValue;
    var n := |digest| - 1;
    if i < n {
      Base16Exact(digest[..n], i);
    } else {
      DigitsAreHex(digest[n] / 16);
      DigitsAreHex(digest[n] % 16);
    }
  }

  // ----- the digest is sixteen bytes -----

  ghost predicate IsState(s: State) {
    && 0 <= s.a < 0x1_0000_0000 && 0 <= s.b < 0x1_0000_0000
    && 0 <= s.c < 0x1_0000_0000 && 0 <= s.d < 0x1_0000_0000
  }

  lemma CompressState(s: State, block: Words)
    requires IsState(s)
    ensures IsState(Compress(s, block))
  {
    hide Steps;
  }

  lemma {:induction false} AbsorbState(s: State, m: Words)
    requires IsState(s)
    ensures IsState(Absorb(Compress, s, m))
    decreases |m|
  {
    hide Compress;
    if |m| >= 16 {
      CompressState(s, m[..16]);
      AbsorbState(Compress(s, m[..16]), m[16..]);
    }
  }

  lemma WordBytes(w: int)
    requires 0 <= w < 0x1_0000_0000
    ensures AllBytes(ToLittleEndian(w))
  {
  }

  lemma DigestBytes(m: Bytes)
    ensures AllBytes(Digest(m))
  {
    hide Absorb, ToLittleEndian;
    var s := Absorb(Compress, INITIAL, Padded(m));
    AbsorbState(INITIAL, Padded(m));
    WordBytes(s.a);
    WordBytes(s.b);
    WordBytes(s.c);
    WordBytes(s.d);
  }

  /** The digest has the words of the state in their order, each with its low-order byte first. */
  lemma OutputWords(s: State)
    ensures ToWords(Output(s)) == [s.a, s.b, s.c, s.d]
  {
    var a, b, c, d := ToLittleEndian(s.a), ToLittleEndian(s.b), ToLittleEndian(s.c), ToLittleEndian(s.d);
    WordsConcat(a, b);
    WordsConcat(a + b, c);
    WordsConcat(a + b + c, d);
    OneWord(s.a);
    OneWord(s.b);
    OneWord(s.c);
    OneWord(s.d);
  }

  lemma OneWord(w: int)
    ensures ToWords(ToLittleEndian(w)) == [w]
  {
    var b := ToLittleEndian(w);
    assert b[..4] == b && b[4..] == [];
    assert w == w % 0x100 + 0x100 * (w / 0x100 % 0x100) + 0x1_0000 * (w / 0x1_0000 % 0x100) + 0x100_0000 * (w / 0x100_0000);
  }

  /** The text of every digest is 32 lower-case hexadecimal digits, two for each byte, the high one first. */
  lemma DigestText(m: Bytes)
    ensures |Base16(Digest(m))| == 32
    ensures forall i | 0 <= i < 16 :: Writes(Base16(Digest(m))[2 * i], Base16(Digest(m))[2 * i + 1], Digest(m)[i])
  {
    hide Digest, Base16, Writes;
    DigestBytes(m);
    forall i | 0 <= i < 16
      ensures Writes(Base16(Digest(m))[2 * i], Base16(Digest(m))[2 * i + 1], Digest(m)[i])
    {
      Base16Exact(Digest(m), i);
    }
  }

  class MD5 {
    /** `MD5Transform`; every result below holds whatever the compression function is. */
    const f: Compression
    // The context.
    var buf: State
    var bits0: nat
    var bits1: nat
    const inBytes: array<int>
    // The generator.
    var isInit: bool
    var zResult: string
    /** The bytes added since the last result. */
    ghost var message: Bytes

    /** The context has received exactly `m`. */
    ghost predicate Represents(m: Bytes)
      reads this, inBytes
    {
      && inBytes.Length == 64
      && buf == StateAfter(f, m, |m| - |m| % 64)
      && inBytes[..|m| % 64] == Tail(m)
      && bits0 == LowBits(|m|) && bits1 == HighBits(|m|)
    }

    ghost predicate Valid()
      reads this, inBytes
    {
      && inBytes.Length == 64
      && if isInit then Represents(message) else message == []
    }

    constructor (transform: Compression)
      ensures f == transform
      ensures Valid() && fresh(inBytes) && !isInit && message == [] && zResult == ""
    {
      f := transform;
      buf, bits0, bits1 := State(0, 0, 0, 0), 0, 0;
      inBytes := new int[64](_ => 0);
      isInit, zResult, message := false, "", [];
    }

    method MD5Init()
      requires inBytes.Length == 64
      modifies this`buf, this`bits0, this`bits1
      ensures Represents([])
    {
      buf := State(0x67452301, 0xefcdab89, 0x98badcfe, 0x10325476);
      bits0, bits1 := 0, 0;
    }

    /** `byteReverse` and `MD5Transform` of the whole buffer. */
    method TransformBuffer()
      requires inBytes.Length == 64
      modifies this`buf
      ensures buf == f(old(buf), ToWords(inBytes[..]))
    {
      buf := f(buf, ToWords(inBytes[..]));
    }

    /** Copies `data` into the buffer from `start` on. */
    method FillBuffer(start: nat, data: Bytes)
      requires inBytes.Length == 64 && start + |data| <= 64
      modifies inBytes
      ensures inBytes[..] == old(inBytes[..start]) + data + old(inBytes[start + |data|..])
    {
      for i := 0 to |data|
        invariant inBytes[..] == old(inBytes[..start]) + data[..i] + old(inBytes[start + i..])
      {
        inBytes[start + i] := data[i];
      }
    }

    /** The bit counter after `len` more bytes. */
    method CountBits(len: nat, ghost n: nat)
      requires len < 0x1_0000_0000 && bits0 == LowBits(n) && bits1 == HighBits(n)
      modifies this`bits0, this`bits1
      ensures bits0 == LowBits(n + len) && bits1 == HighBits(n + len)
    {
      var t := bits0;
      bits0 := (t + 8 * len % 0x1_0000_0000) % 0x1_0000_0000;
      if bits0 < t {
        bits1 := (bits1 + 1) % 0x1_0000_0000; // Carry from low to high
      }
      ghost var carry := if bits0 < t then 1 else 0;
      ModuloSum(HighBits(n) + carry, len / 0x2000_0000);
      bits1 := (bits1 + len / 0x2000_0000) % 0x1_0000_0000;
      CounterStep(n, len, bits0, bits1);
    }

    /** Fills the rest of the buffer and compresses it: bytes `n` to `n + 64` of `all`. */
    method CompleteBlock(start: nat, data: Bytes, ghost all: Bytes, ghost n: nat)
      requires inBytes.Length == 64 && start + |data| == 64
      requires n % 64 == 0 && n + 64 <= |all| && inBytes[..start] + data == all[n..n + 64]
      requires buf == StateAfter(f, all, n)
      modifies this`buf, inBytes
      ensures buf == StateAfter(f, all, n + 64)
    {
      hide *;
      FillBuffer(start, data);
      assert inBytes[..] == all[n..n + 64];
      TransformBuffer();
      NextBlock(f, all, n);
    }

    /** All complete blocks of `data` from `start` on, then what is left of it into the buffer. */
    method ProcessBlocks(data: Bytes, start: nat, ghost m: Bytes)
      requires inBytes.Length == 64 && start <= |data| && (|m| + start) % 64 == 0
      requires buf == StateAfter(f, m + data, |m| + start)
      modifies this`buf, inBytes
      ensures buf == StateAfter(f, m + data, |m + data| - |m + data| % 64)
      ensures inBytes[..|m + data| % 64] == Tail(m + data)
    {
      hide StateAfter, Tail;
      ghost var all := m + data;
      var pos: nat := start;
      while |data| - pos >= 64
        invariant pos <= |data| && (|m| + pos) % 64 == 0
        invariant buf == StateAfter(f, all, |m| + pos)
      {
        BlockOf(m, data, pos, inBytes[..0]);
        CompleteBlock(0, data[pos..pos + 64], all, |m| + pos);
        NextMultiple(|m| + pos);
        pos := pos + 64;
      }
      RestOf(m, data, pos);
      BufferRest(data[pos..]);
    }

    /** What is left of the data goes to the start of the buffer. */
    method BufferRest(rest: Bytes)
      requires inBytes.Length == 64 && |rest| <= 64
      modifies inBytes
      ensures inBytes[..|rest|] == rest
    {
      FillBuffer(0, rest);
      assert inBytes[..|rest|] == inBytes[..][..|rest|];
    }

    /** After any update the context stands for the message extended by `data`. */
    method MD5Update(data: Bytes, ghost m: Bytes)
      requires Represents(m) && |data| < 0x1_0000_0000
      modifies this`buf, this`bits0, this`bits1, inBytes
      ensures Represents(m + data)
    {
      hide StateAfter, LowBits, HighBits;
      var t := bits0 / 8 % 64; // Bytes already in the buffer
      BufferedBytes(|m|);
      CountBits(|data|, |m|);
      SamePrefix(f, m, data, |m| - |m| % 64);
      if t != 0 {
        var room := 64 - t;
        if |data| < room {
          FillBuffer(t, data);
          TailAppend(m, data);
          return;
        }
        JoinedBlock(m, data, inBytes[..t]);
        CompleteBlock(t, data[..room], m + data, |m| - t);
        ProcessBlocks(data, room, m);
      } else {
        ProcessBlocks(data, 0, m);
      }
    }

    /** `memset` of `n` buffer bytes from `start` on. */
    method ZeroBuffer(start: nat, n: nat)
      requires inBytes.Length == 64 && start + n <= 64
      modifies inBytes
      ensures inBytes[..] == old(inBytes[..start]) + Zeros(n) + old(inBytes[start + n..])
    {
      FillBuffer(start, Zeros(n));
    }

    /** Pads the buffered tail, appends the counter words and returns the digest of `m`; the context is
        cleared. */
    method MD5Final(ghost m: Bytes) returns (digest: Bytes)
      requires Represents(m)
      modifies this`buf, this`bits0, this`bits1, inBytes
      ensures digest == DigestWith(f, m)
      ensures buf == State(0, 0, 0, 0) && bits0 == bits1 == 0 && forall i | 0 <= i < inBytes.Length :: inBytes[i] == 0
    {
      hide StateAfter, ToWords, Absorb, Output;
      var used := bits0 / 8 % 64;
      BufferedBytes(|m|);
      ghost var before := buf;
      inBytes[used] := 0x80;
      var count := 64 - 1 - used;
      if count < 8 {
        // Two lots of padding: first the rest of this block, then a block of its own.
        ZeroBuffer(used + 1, count);
        assert inBytes[..] == Tail(m) + [0x80] + Zeros(63 - |m| % 64);
        TransformBuffer();
        ZeroBuffer(0, 56);
        assert inBytes[..56] == Zeros(56);
        PadTwoBlocks(f, m);
      } else {
        ZeroBuffer(used + 1, count - 8);
        assert inBytes[..56] == Tail(m) + [0x80] + Zeros(55 - |m| % 64);
        PadOneBlock(f, m);
      }
      assert LengthWords(8 * |m|) == [bits0, bits1];
      buf := f(buf, ToWords(inBytes[..56]) + [bits0, bits1]);
      assert buf == Absorb(f, INITIAL, Padded(m));
      digest := Output(buf);
      buf, bits0, bits1 := State(0, 0, 0, 0), 0, 0;
      ZeroBuffer(0, 64);
    }

    static method DigestToBase16(digest: Bytes) returns (zBuf: string)
      ensures zBuf == Base16(digest)
    {
      zBuf := "";
      for i := 0 to |digest|
        invariant zBuf == Base16(digest[..i])
      {
        var a := digest[i];
        assert digest[..i + 1][..i] == digest[..i];
        zBuf := zBuf + [HEX_DIGITS[a / 16 % 16], HEX_DIGITS[a % 16]];
      }
      assert digest[..|digest|] == digest;
    }

    /** Adds text; the first text after a result starts a new message. */
    method AddToMD5(z: Bytes)
      requires Valid() && |z| < 0x1_0000_0000
      modifies this, inBytes
      ensures Valid() && isInit && message == old(message) + z && zResult == old(zResult)
    {
      hide StateAfter, LowBits, HighBits, Tail;
      if !isInit {
        MD5Init();
        isInit := true;
      }
      MD5Update(z, message);
      message := message + z;
    }

    /** The base-16 digest of everything added since the last result; without any text, the last
        result again. */
    method FinishMD5() returns (r: string)
      requires Valid()
      modifies this, inBytes
      ensures Valid() && !isInit && message == [] && r == zResult
      ensures r == if old(isInit) then Base16(DigestWith(f, old(message))) else old(zResult)
      ensures old(isInit) && f == Transform ==> r == Base16(Digest(old(message)))
    {
      if isInit {
        DigestOfTransform(message);
        var digest := MD5Final(message);
        isInit := false;
        message := [];
        zResult := DigestToBase16(digest);
      }
      r := zResult;
    }
  }
}
