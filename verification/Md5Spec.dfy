/**
 MD5 as RFC 1321 describes it: padding (sections 3.1 and 3.2), the compression of
 one 64-byte block (sections 3.3 and 3.4) and the output (section 3.5).
 */
module Md5Spec {
  /** Bytes are the integers 0 to 255 and words the integers 0 to 2^32 - 1. */
  type Bytes = seq<int>
  type Words = seq<int>

  datatype State = State(a: int, b: int, c: int, d: int)

  const INITIAL: State := State(0x67452301, 0xefcdab89, 0x98badcfe, 0x10325476)

  /** The 64 additive constants, in the order in which the steps use them, a round at a time. */
  const SINES: seq<seq<bv32>> := [
    [0xd76aa478, 0xe8c7b756, 0x242070db, 0xc1bdceee, 0xf57c0faf, 0x4787c62a, 0xa8304613, 0xfd469501,
     0x698098d8, 0x8b44f7af, 0xffff5bb1, 0x895cd7be, 0x6b901122, 0xfd987193, 0xa679438e, 0x49b40821],
    [0xf61e2562, 0xc040b340, 0x265e5a51, 0xe9b6c7aa, 0xd62f105d, 0x02441453, 0xd8a1e681, 0xe7d3fbc8,
     0x21e1cde6, 0xc33707d6, 0xf4d50d87, 0x455a14ed, 0xa9e3e905, 0xfcefa3f8, 0x676f02d9, 0x8d2a4c8a],
    [0xfffa3942, 0x8771f681, 0x6d9d6122, 0xfde5380c, 0xa4beea44, 0x4bdecfa9, 0xf6bb4b60, 0xbebfbc70,
     0x289b7ec6, 0xeaa127fa, 0xd4ef3085, 0x04881d05, 0xd9d4d039, 0xe6db99e5, 0x1fa27cf8, 0xc4ac5665],
    [0xf4292244, 0x432aff97, 0xab9423a7, 0xfc93a039, 0x655b59c3, 0x8f0ccc92, 0xffeff47d, 0x85845dd1,
     0x6fa87e4f, 0xfe2ce6e0, 0xa3014314, 0x4e0811a1, 0xf7537e82, 0xbd3af235, 0x2ad7d2bb, 0xeb86d391]]

  function Sine(i: nat): bv32
    requires i < 64
  {
    SINES[i / 16][i % 16]
  }

  /** The rotations, four amounts per round. */
  const ROTATIONS: seq<seq<nat>> := [[7, 12, 17, 22], [5, 9, 14, 20], [4, 11, 16, 23], [6, 10, 15, 21]]

  function Rotation(i: nat): (s: nat)
    requires i < 64
    ensures 0 < s < 32
  {
    ROTATIONS[i / 16][i % 4]
  }

  /** The auxiliary functions F, G, H and I of section 3.4. */
  function Auxiliary(round: nat, x: bv32, y: bv32, z: bv32): bv32 {
    if round == 0 then (x & y) | (!x & z)
    else if round == 1 then (x & z) | (y & !z)
    else if round == 2 then x ^ y ^ z
    else y ^ (x | !z)
  }

  /** The message word that step `i` reads. */
  function MessageIndex(i: nat): (r: nat)
    requires i < 64
    ensures r < 16
  {
    if i < 16 then i
    else if i < 32 then (5 * i + 1) % 16
    else if i < 48 then (3 * i + 5) % 16
    else (7 * i) % 16
  }

  /** Addition modulo 2^32. */
  function Plus(x: bv32, y: bv32): bv32 {
    x + y
  }

  function RotateLeft(w: bv32, s: nat): bv32
    requires 0 < s < 32
  {
    (w << s) | (w >> (32 - s))
  }

  /** The bits of a word, and the word of given bits. */
  function Bits(w: int): bv32
    decreases w
  {
    if w <= 0 then 0 else (Bits(w / 2) << 1) | (if w % 2 == 1 then 1 else 0)
  }

  function Value(v: bv32): int
    decreases v
  {
    if v == 0 then 0 else 2 * Value(v >> 1) + (if v & 1 == 1 then 1 else 0)
  }

  /** The rotated sum of a, the auxiliary value, the message word and the constant, plus b. */
  function Mixed(a: bv32, b: bv32, auxiliary: bv32, word: bv32, sine: bv32, s: nat): int
    requires 0 < s < 32
  {
    Value(Plus(RotateLeft(Plus(a, Plus(auxiliary, Plus(word, sine))), s), b))
  }

  /** One step, given the auxiliary value and the message word: the new value takes the place of
      `b` and the roles move on by one. */
  function StepWith(i: nat, s: State, auxiliary: bv32, word: int): State
    requires i < 64
  {
    State(s.d, Mixed(Bits(s.a), Bits(s.b), auxiliary, Bits(word), Sine(i), Rotation(i)), s.b, s.c)
  }

  function Step(i: nat, s: State, block: Words): State
    requires i < 64 && |block| == 16
  {
    StepWith(i, s, Auxiliary(i / 16, Bits(s.b), Bits(s.c), Bits(s.d)), block[MessageIndex(i)])
  }

  function Steps(n: nat, s: State, block: Words): State
    requires n <= 64 && |block| == 16
  {
    if n == 0 then s else Step(n - 1, Steps(n - 1, s, block), block)
  }

  function Sum(x: int, y: int): int {
    (x + y) % 0x1_0000_0000
  }

  /** The compression of one block of sixteen words. */
  function Compress(s: State, block: Words): State {
    if |block| != 16 then s
    else
      var t := Steps(64, s, block);
      State(Sum(s.a, t.a), Sum(s.b, t.b), Sum(s.c, t.c), Sum(s.d, t.d))
  }

  // ----- bytes and words -----

  /** Four bytes as a word, low-order byte first. */
  function LittleEndian(b: Bytes): int
    requires |b| == 4
  {
    b[0] + 0x100 * b[1] + 0x1_0000 * b[2] + 0x100_0000 * b[3]
  }

  /** A word as four bytes, low-order byte first. */
  function ToLittleEndian(w: int): (b: Bytes)
    ensures |b| == 4
  {
    [w % 0x100, w / 0x100 % 0x100, w / 0x1_0000 % 0x100, w / 0x100_0000]
  }

  function ToWords(b: Bytes): (w: Words)
    ensures |w| == |b| / 4
  {
    if |b| < 4 then [] else [LittleEndian(b[..4])] + ToWords(b[4..])
  }

  type Compression = (State, Words) -> State

  /** The state after all complete 16-word blocks of `m`; a shorter tail is left alone. */
  function Absorb(f: Compression, s: State, m: Words): State
    decreases |m|
  {
    if |m| < 16 then s else Absorb(f, f(s, m[..16]), m[16..])
  }

  // ----- padding and digest -----

  function Zeros(n: nat): (r: Bytes)
    ensures |r| == n
  {
    seq(n, _ => 0)
  }

  /** The zero bytes that, after the byte 0x80, bring a length to 56 modulo 64. */
  function PadZeros(n: nat): (z: nat)
    ensures z < 64 && (n + 1 + z) % 64 == 56
  {
    if n % 64 < 56 then 55 - n % 64 else 119 - n % 64
  }

  /** The 64-bit representation of `n`, higher bits dropped, as two words, low-order word first. */
  function LengthWords(n: nat): (r: Words)
    ensures |r| == 2
  {
    [n % 0x1_0000_0000, n / 0x1_0000_0000 % 0x1_0000_0000]
  }

  /** Section 3.1: a one bit and zero bits up to 448 modulo 512; section 3.2: the length in bits. */
  function Padded(m: Bytes): (r: Words)
    ensures |r| % 16 == 0
  {
    var z := PadZeros(|m|);
    ToWords(m + [0x80] + Zeros(z)) + LengthWords(8 * |m|)
  }

  function Output(s: State): (r: Bytes)
    ensures |r| == 16
  {
    ToLittleEndian(s.a) + ToLittleEndian(s.b) + ToLittleEndian(s.c) + ToLittleEndian(s.d)
  }

  function DigestWith(f: Compression, m: Bytes): (r: Bytes)
    ensures |r| == 16
  {
    Output(Absorb(f, INITIAL, Padded(m)))
  }

  /** Sections 3.3 to 3.5: all blocks of the padded message, from the initial state. */
  function Digest(m: Bytes): (r: Bytes)
    ensures |r| == 16
  {
    DigestWith(Compress, m)
  }

  /** Whole blocks are absorbed before what follows them. */
  lemma {:induction false} AbsorbConcat(f: Compression, s: State, a: Words, b: Words)
    requires |a| % 16 == 0
    ensures Absorb(f, s, a + b) == Absorb(f, Absorb(f, s, a), b)
    decreases |a|
  {
    if a == [] {
      assert a + b == b;
    } else {
      assert (a + b)[..16] == a[..16] && (a + b)[16..] == a[16..] + b;
      AbsorbConcat(f, f(s, a[..16]), a[16..], b);
    }
  }

  /** Compressions that agree on blocks of sixteen words absorb alike. */
  lemma {:induction false} AbsorbSame(f: Compression, g: Compression, s: State, m: Words)
    requires forall t, b | |b| == 16 :: f(t, b) == g(t, b)
    ensures Absorb(f, s, m) == Absorb(g, s, m)
    decreases |m|
  {
    if |m| >= 16 {
      AbsorbSame(f, g, f(s, m[..16]), m[16..]);
    }
  }

  lemma {:induction false} WordsConcat(a: Bytes, b: Bytes)
    requires |a| % 4 == 0 && |b| % 4 == 0
    ensures ToWords(a + b) == ToWords(a) + ToWords(b)
    decreases |a|
  {
    hide LittleEndian;
    if a == [] {
      assert a + b == b;
    } else {
      assert (a + b)[..4] == a[..4] && (a + b)[4..] == a[4..] + b;
      WordsConcat(a[4..], b);
    }
  }
}
