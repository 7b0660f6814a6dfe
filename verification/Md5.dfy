/**
 The compression function as `md5.cpp` writes it, and its equality with the one of
 RFC 1321.
 */
module Md5 {
  import opened Md5Spec

  /** The macros F1 to F4. */
  function SourceAuxiliary(round: nat, x: bv32, y: bv32, z: bv32): bv32 {
    if round == 0 then z ^ (x & (y ^ z))
    else if round == 1 then y ^ (z & (x ^ y))
    else if round == 2 then x ^ y ^ z
    else y ^ (x | !z)
  }

  /** The macro MD5STEP: the auxiliary value and the data are added to `w`, which is rotated and gets `x` added. */
  function Stepped(w: bv32, auxiliary: bv32, data: bv32, x: bv32, s: nat): int
    requires 0 < s < 32
  {
    Value(Plus(SourceRotate(Plus(w, Plus(auxiliary, data)), s), x))
  }

  function SourceRotate(w: bv32, s: nat): bv32
    requires 0 < s < 32
  {
    (w << s) | (w >> (32 - s))
  }

  function SourceStep(round: nat, w: int, x: int, y: int, z: int, data: bv32, s: nat): int
    requires 0 < s < 32
  {
    Stepped(Bits(w), SourceAuxiliary(round, Bits(x), Bits(y), Bits(z)), data, Bits(x), s)
  }

  /** What a line of `MD5Transform` gives to the macro: a message word, a constant and a shift. */
  datatype Line = Line(word: nat, constant: bv32, shift: nat)

  predicate IsLine(line: Line) {
    line.word < 16 && 0 < line.shift < 32
  }

  function Data(block: Words, line: Line): bv32
    requires |block| == 16 && IsLine(line)
  {
    Plus(Bits(block[line.word]), line.constant)
  }

  /** Four lines: they assign to the registers a, d, c and b in turn. */
  function Four(round: nat, s: State, block: Words, l0: Line, l1: Line, l2: Line, l3: Line): State
    requires |block| == 16 && IsLine(l0) && IsLine(l1) && IsLine(l2) && IsLine(l3)
  {
    var a := SourceStep(round, s.a, s.b, s.c, s.d, Data(block, l0), l0.shift);
    var d := SourceStep(round, s.d, a, s.b, s.c, Data(block, l1), l1.shift);
    var c := SourceStep(round, s.c, d, a, s.b, Data(block, l2), l2.shift);
    var b := SourceStep(round, s.b, c, d, a, Data(block, l3), l3.shift);
    State(a, b, c, d)
  }

  /** Four lines and the macro that they use. */
  datatype Lines = Lines(round: nat, l0: Line, l1: Line, l2: Line, l3: Line)

  /** The 64 lines of `MD5Transform`, four at a time. */
  function LinesOf(j: nat): (q: Lines)
    requires j < 16
    ensures IsLine(q.l0) && IsLine(q.l1) && IsLine(q.l2) && IsLine(q.l3)
  {
    match j
    case 0 => Lines(0, Line(0, 0xd76aa478, 7), Line(1, 0xe8c7b756, 12), Line(2, 0x242070db, 17), Line(3, 0xc1bdceee, 22))
    case 1 => Lines(0, Line(4, 0xf57c0faf, 7), Line(5, 0x4787c62a, 12), Line(6, 0xa8304613, 17), Line(7, 0xfd469501, 22))
    case 2 => Lines(0, Line(8, 0x698098d8, 7), Line(9, 0x8b44f7af, 12), Line(10, 0xffff5bb1, 17), Line(11, 0x895cd7be, 22))
    case 3 => Lines(0, Line(12, 0x6b901122, 7), Line(13, 0xfd987193, 12), Line(14, 0xa679438e, 17), Line(15, 0x49b40821, 22))
    case 4 => Lines(1, Line(1, 0xf61e2562, 5), Line(6, 0xc040b340, 9), Line(11, 0x265e5a51, 14), Line(0, 0xe9b6c7aa, 20))
    case 5 => Lines(1, Line(5, 0xd62f105d, 5), Line(10, 0x02441453, 9), Line(15, 0xd8a1e681, 14), Line(4, 0xe7d3fbc8, 20))
    case 6 => Lines(1, Line(9, 0x21e1cde6, 5), Line(14, 0xc33707d6, 9), Line(3, 0xf4d50d87, 14), Line(8, 0x455a14ed, 20))
    case 7 => Lines(1, Line(13, 0xa9e3e905, 5), Line(2, 0xfcefa3f8, 9), Line(7, 0x676f02d9, 14), Line(12, 0x8d2a4c8a, 20))
    case 8 => Lines(2, Line(5, 0xfffa3942, 4), Line(8, 0x8771f681, 11), Line(11, 0x6d9d6122, 16), Line(14, 0xfde5380c, 23))
    case 9 => Lines(2, Line(1, 0xa4beea44, 4), Line(4, 0x4bdecfa9, 11), Line(7, 0xf6bb4b60, 16), Line(10, 0xbebfbc70, 23))
    case 10 => Lines(2, Line(13, 0x289b7ec6, 4), Line(0, 0xeaa127fa, 11), Line(3, 0xd4ef3085, 16), Line(6, 0x04881d05, 23))
    case 11 => Lines(2, Line(9, 0xd9d4d039, 4), Line(12, 0xe6db99e5, 11), Line(15, 0x1fa27cf8, 16), Line(2, 0xc4ac5665, 23))
    case 12 => Lines(3, Line(0, 0xf4292244, 6), Line(7, 0x432aff97, 10), Line(14, 0xab9423a7, 15), Line(5, 0xfc93a039, 21))
    case 13 => Lines(3, Line(12, 0x655b59c3, 6), Line(3, 0x8f0ccc92, 10), Line(10, 0xffeff47d, 15), Line(1, 0x85845dd1, 21))
    case 14 => Lines(3, Line(8, 0x6fa87e4f, 6), Line(15, 0xfe2ce6e0, 10), Line(6, 0xa3014314, 15), Line(13, 0x4e0811a1, 21))
    case 15 => Lines(3, Line(4, 0xf7537e82, 6), Line(11, 0xbd3af235, 10), Line(2, 0x2ad7d2bb, 15), Line(9, 0xeb86d391, 21))
  }

  function SourceLines(j: nat, s: State, block: Words): State
    requires j < 16 && |block| == 16
  {
    var q := LinesOf(j);
    Four(q.round, s, block, q.l0, q.l1, q.l2, q.l3)
  }

  function SourceSteps(n: nat, s: State, block: Words): State
    requires n <= 16 && |block| == 16
  {
    if n == 0 then s else SourceLines(n - 1, SourceSteps(n - 1, s, block), block)
  }

  /** `MD5Transform`. */
  function Transform(s: State, block: Words): State {
    if |block| != 16 then s
    else
      var t := SourceSteps(16, s, block);
      State(Sum(s.a, t.a), Sum(s.b, t.b), Sum(s.c, t.c), Sum(s.d, t.d))
  }

  lemma FormOfF(round: nat, x: bv32, y: bv32, z: bv32)
    requires round == 0
    ensures SourceAuxiliary(round, x, y, z) == Auxiliary(round, x, y, z)
  {
    assert z ^ (x & (y ^ z)) == (x & y) | (!x & z);
  }

  lemma FormOfG(round: nat, x: bv32, y: bv32, z: bv32)
    requires round == 1
    ensures SourceAuxiliary(round, x, y, z) == Auxiliary(round, x, y, z)
  {
    assert y ^ (z & (x ^ y)) == (x & z) | (y & !z);
  }

  /** The optimised forms of F and G compute the RFC's F and G; H and I are unchanged. */
  lemma AuxiliaryForms(round: nat, x: bv32, y: bv32, z: bv32)
    ensures SourceAuxiliary(round, x, y, z) == Auxiliary(round, x, y, z)
  {
    if round == 0 {
      FormOfF(round, x, y, z);
    } else if round == 1 {
      FormOfG(round, x, y, z);
    }
  }

  /** The line is that of step `i`: its message word, its constant and its rotation. */
  ghost predicate LineOf(i: nat, line: Line)
    requires i < 64
  {
    line.word == MessageIndex(i) && line.constant == Sine(i) && line.shift == Rotation(i)
  }

  /** A line with the roles of the registers as the RFC passes them on. */
  lemma OneStep(i: nat, s: State, block: Words, line: Line)
    requires i < 64 && |block| == 16 && IsLine(line) && LineOf(i, line)
    ensures Step(i, s, block) == State(s.d, SourceStep(i / 16, s.a, s.b, s.c, s.d, Data(block, line), line.shift), s.b, s.c)
  {
    hide Bits, Plus, Value, SourceAuxiliary, Auxiliary, MessageIndex, Sine, Rotation, SourceRotate, RotateLeft;
    var f := SourceAuxiliary(i / 16, Bits(s.b), Bits(s.c), Bits(s.d));
    RotateForm(Plus(Bits(s.a), Plus(f, Data(block, line))), line.shift);
    AuxiliaryForms(i / 16, Bits(s.b), Bits(s.c), Bits(s.d));
  }

  lemma RotateForm(w: bv32, s: nat)
    requires 0 < s < 32
    ensures SourceRotate(w, s) == RotateLeft(w, s)
  {
  }

  /** Four lines with fixed registers are four steps, after which the roles are back where they were. */
  lemma FourSteps(i: nat, s: State, block: Words, l0: Line, l1: Line, l2: Line, l3: Line)
    requires i <= 60 && i % 4 == 0 && |block| == 16 && IsLine(l0) && IsLine(l1) && IsLine(l2) && IsLine(l3)
    requires LineOf(i, l0) && LineOf(i + 1, l1) && LineOf(i + 2, l2) && LineOf(i + 3, l3)
    ensures Four(i / 16, s, block, l0, l1, l2, l3) ==
            Step(i + 3, Step(i + 2, Step(i + 1, Step(i, s, block), block), block), block)
  {
    hide SourceStep, Step, LineOf, Data;
    assert i / 16 == (i + 1) / 16 == (i + 2) / 16 == (i + 3) / 16;
    var s1 := Step(i, s, block);
    var s2 := Step(i + 1, s1, block);
    var s3 := Step(i + 2, s2, block);
    OneStep(i, s, block, l0);
    OneStep(i + 1, s1, block, l1);
    OneStep(i + 2, s2, block, l2);
    OneStep(i + 3, s3, block, l3);
  }

  /** The lines are those of steps 4j to 4j + 3. */
  ghost predicate LinesMatch(j: nat)
    requires j < 16
  {
    var q := LinesOf(j);
    && q.round == j / 4
    && LineOf(4 * j, q.l0) && LineOf(4 * j + 1, q.l1) && LineOf(4 * j + 2, q.l2) && LineOf(4 * j + 3, q.l3)
  }

  lemma Lines0Match()
    ensures LinesMatch(0)
  {
  }

  lemma Lines1Match()
    ensures LinesMatch(1)
  {
  }

  lemma Lines2Match()
    ensures LinesMatch(2)
  {
  }

  lemma Lines3Match()
    ensures LinesMatch(3)
  {
  }

  lemma Lines4Match()
    ensures LinesMatch(4)
  {
  }

  lemma Lines5Match()
    ensures LinesMatch(5)
  {
  }

  lemma Lines6Match()
    ensures LinesMatch(6)
  {
  }

  lemma Lines7Match()
    ensures LinesMatch(7)
  {
  }

  lemma Lines8Match()
    ensures LinesMatch(8)
  {
  }

  lemma Lines9Match()
    ensures LinesMatch(9)
  {
  }

  lemma Lines10Match()
    ensures LinesMatch(10)
  {
  }

  lemma Lines11Match()
    ensures LinesMatch(11)
  {
  }

  lemma Lines12Match()
    ensures LinesMatch(12)
  {
  }

  lemma Lines13Match()
    ensures LinesMatch(13)
  {
  }

  lemma Lines14Match()
    ensures LinesMatch(14)
  {
  }

  lemma Lines15Match()
    ensures LinesMatch(15)
  {
  }

  lemma AllLinesMatch(j: nat)
    requires j < 16
    ensures LinesMatch(j)
  {
    hide LinesMatch;
    match j
    case 0 => Lines0Match();
    case 1 => Lines1Match();
    case 2 => Lines2Match();
    case 3 => Lines3Match();
    case 4 => Lines4Match();
    case 5 => Lines5Match();
    case 6 => Lines6Match();
    case 7 => Lines7Match();
    case 8 => Lines8Match();
    case 9 => Lines9Match();
    case 10 => Lines10Match();
    case 11 => Lines11Match();
    case 12 => Lines12Match();
    case 13 => Lines13Match();
    case 14 => Lines14Match();
    case 15 => Lines15Match();
  }

  /** The lines are the steps of the RFC, four at a time. */
  lemma LinesAreSteps(j: nat, s: State, block: Words)
    requires j < 16 && |block| == 16
    ensures SourceLines(j, s, block) == Step(4 * j + 3, Step(4 * j + 2, Step(4 * j + 1, Step(4 * j, s, block), block), block), block)
  {
    hide LinesOf, LineOf, Four, Step;
    var q := LinesOf(j);
    AllLinesMatch(j);
    FourSteps(4 * j, s, block, q.l0, q.l1, q.l2, q.l3);
  }

  lemma {:induction false} StepsForms(n: nat, s: State, block: Words)
    requires n <= 16 && |block| == 16
    ensures SourceSteps(n, s, block) == Steps(4 * n, s, block)
  {
    hide SourceLines, Step;
    if n > 0 {
      StepsForms(n - 1, s, block);
      var t := Steps(4 * (n - 1), s, block);
      LinesAreSteps(n - 1, t, block);
      var j := n - 1;
      assert Steps(4 * j + 1, s, block) == Step(4 * j, t, block);
      assert Steps(4 * j + 2, s, block) == Step(4 * j + 1, Steps(4 * j + 1, s, block), block);
      assert Steps(4 * j + 3, s, block) == Step(4 * j + 2, Steps(4 * j + 2, s, block), block);
      assert Steps(4 * n, s, block) == Step(4 * j + 3, Steps(4 * j + 3, s, block), block);
    }
  }

  /** The source's transform is the RFC's compression of a block. */
  lemma TransformIsCompress(s: State, block: Words)
    ensures Transform(s, block) == Compress(s, block)
  {
    if |block| == 16 {
      StepsForms(16, s, block);
    }
  }

  /** A digest built on the source's transform is the RFC's digest. */
  lemma DigestOfTransform(m: Bytes)
    ensures DigestWith(Transform, m) == Digest(m)
  {
    forall s, b
      ensures Transform(s, b) == Compress(s, b)
    {
      TransformIsCompress(s, b);
    }
    AbsorbSame(Transform, Compress, INITIAL, Padded(m));
  }
}
