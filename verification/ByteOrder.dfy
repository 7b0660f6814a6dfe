/**
 `byteReverse` of `md5.cpp`, on little- and big-endian hosts alike.
 */
module ByteOrder {
  import opened Md5Spec

  function Reversed(b: Bytes): (r: Bytes)
    requires |b| == 4
    ensures |r| == 4
  {
    [b[3], b[2], b[1], b[0]]
  }

  predicate IsByteString(b: Bytes) {
    |b| == 4 && forall i | 0 <= i < 4 :: 0 <= b[i] < 0x100
  }

  /** The four bytes of a word in the memory of a host, and the word it reads there. */
  function Store(bigEndian: bool, w: int): (b: Bytes)
    ensures |b| == 4
  {
    if bigEndian then Reversed(ToLittleEndian(w)) else ToLittleEndian(w)
  }

  function Load(bigEndian: bool, b: Bytes): int
    requires |b| == 4
  {
    LittleEndian(if bigEndian then Reversed(b) else b)
  }

  /** One word of `byteReverse`: put together low-order byte first, stored as the host stores words. */
  function ByteReverse(bigEndian: bool, b: Bytes): (r: Bytes)
    requires |b| == 4
    ensures |r| == 4
  {
    Store(bigEndian, LittleEndian(b))
  }

  lemma DigitsOfWord(w: int)
    requires 0 <= w < 0x1_0000_0000
    ensures LittleEndian(ToLittleEndian(w)) == w && IsByteString(ToLittleEndian(w))
  {
    var h := w / 0x100;
    var g := h / 0x100;
    assert w == 0x100 * h + w % 0x100;
    assert h == 0x100 * g + h % 0x100;
    assert g == 0x100 * (g / 0x100) + g % 0x100;
    assert w / 0x1_0000 == g;
    assert w / 0x100_0000 == g / 0x100;
  }

  lemma WordOfDigits(b: Bytes)
    requires IsByteString(b)
    ensures 0 <= LittleEndian(b) < 0x1_0000_0000
  {
  }

  /** What the transform reads after `byteReverse` is the little-endian word on every host. */
  lemma ReadAfterReverse(bigEndian: bool, b: Bytes)
    requires IsByteString(b)
    ensures Load(bigEndian, ByteReverse(bigEndian, b)) == LittleEndian(b)
  {
    WordOfDigits(b);
    DigitsOfWord(LittleEndian(b));
    var d := ToLittleEndian(LittleEndian(b));
    assert Reversed(Reversed(d)) == d;
  }

  /** The digest bytes, reversed in place from the state words, are little-endian on every host. */
  lemma DigestAfterReverse(bigEndian: bool, w: int)
    requires 0 <= w < 0x1_0000_0000
    ensures ByteReverse(bigEndian, Store(bigEndian, w)) == ToLittleEndian(w)
  {
    DigitsOfWord(w);
    var d := ToLittleEndian(w);
    var r := Reversed(d);
    if bigEndian {
      WordOfDigits(r);
      DigitsOfWord(LittleEndian(r));
      DigitsUnique(ToLittleEndian(LittleEndian(r)), r);
    }
  }

  lemma LowDigit(x: int, p: int, y: int, q: int)
    requires 0 <= x < 0x100 && 0 <= y < 0x100 && x + 0x100 * p == y + 0x100 * q
    ensures x == y && p == q
  {
  }

  lemma DigitsUnique(a: Bytes, b: Bytes)
    requires IsByteString(a) && IsByteString(b) && LittleEndian(a) == LittleEndian(b)
    ensures a == b
  {
    LowDigit(a[0], a[1] + 0x100 * (a[2] + 0x100 * a[3]), b[0], b[1] + 0x100 * (b[2] + 0x100 * b[3]));
    LowDigit(a[1], a[2] + 0x100 * a[3], b[1], b[2] + 0x100 * b[3]);
    LowDigit(a[2], a[3], b[2], b[3]);
  }
}
