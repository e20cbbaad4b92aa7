/**
 The MD5 message digest as RFC 1321 states it in sections 2 and 3.1 to 3.5.
 */
module Md5Spec {

  /** Words and bytes are numbers; sums of words are taken modulo 2^32. */
  type Byte = b: int | 0 <= b < 0x100
  type Word = w: int | 0 <= w < TWO_32

  const TWO_32 := 0x1_0000_0000

  /** The four registers, or the four words of a digest. */
  datatype Quad = Quad(a: Word, b: Word, c: Word, d: Word)

  function Sum(x: Word, y: Word): Word {
    if x + y < TWO_32 then x + y else x + y - TWO_32
  }

  // ---------------------------------------------------------------- bits

  function Pow2(n: nat): (p: nat)
    ensures p > 0
  {
    if n == 0 then 1 else 2 * Pow2(n - 1)
  }

  datatype BitOp = AndBit | OrBit | XorBit | NotBit

  /** NotBit looks at its first operand only. */
  predicate Eval(op: BitOp, a: bool, b: bool) {
    match op
    case AndBit => a && b
    case OrBit => a || b
    case XorBit => a != b
    case NotBit => !a
  }

  /** The operation on the lowest `n` bits, bit by bit. */
  function Bitwise(op: BitOp, x: nat, y: nat, n: nat): (r: nat)
    ensures r < Pow2(n)
  {
    if n == 0 then 0 else
    2 * Bitwise(op, x / 2, y / 2, n - 1) + (if Eval(op, x % 2 == 1, y % 2 == 1) then 1 else 0)
  }

  lemma WordHas32Bits()
    ensures Pow2(32) == TWO_32
  {
    assert Pow2(8) == 0x100;
    assert Pow2(16) == 0x1_0000;
    assert Pow2(24) == 0x100_0000;
  }

  function Bits(op: BitOp, x: Word, y: Word): Word {
    WordHas32Bits();
    Bitwise(op, x, y, 32)
  }

  function And(x: Word, y: Word): Word { Bits(AndBit, x, y) }

  function Or(x: Word, y: Word): Word { Bits(OrBit, x, y) }

  function Xor(x: Word, y: Word): Word { Bits(XorBit, x, y) }

  function Not(x: Word): Word { Bits(NotBit, x, x) }

  function ShiftLeft(w: Word, s: nat): Word {
    if s == 0 then w else Sum(ShiftLeft(w, s - 1), ShiftLeft(w, s - 1))
  }

  function ShiftRight(w: Word, s: nat): Word {
    if s == 0 then w else ShiftRight(w / 2, s - 1)
  }

  function RotateLeft(w: Word, s: nat): Word
    requires s <= 32
  {
    Or(ShiftLeft(w, s), ShiftRight(w, 32 - s))
  }

  // ---------------------------------------------------------------- section 3.4, the rounds

  datatype Aux = F | G | H | I

  function Apply(f: Aux, x: Word, y: Word, z: Word): Word {
    match f
    case F => Or(And(x, y), And(Not(x), z))
    case G => Or(And(x, z), And(y, Not(z)))
    case H => Xor(Xor(x, y), z)
    case I => Xor(y, Or(x, Not(z)))
  }

  /** The operation on a, b, c, d with word `x`, constant `t` and shift `s`. */
  type StepFunction = (Aux, Word, Word, Word, Word, Word, Word, Shift) -> Word

  type Shift = s: int | 0 <= s <= 32

  /** a = b + ((a + f(b, c, d) + x + t) <<< s). */
  function Step(f: Aux, a: Word, b: Word, c: Word, d: Word, x: Word, t: Word, s: Shift): Word {
    Sum(b, RotateLeft(Sum(Sum(Sum(a, Apply(f, b, c, d)), x), t), s))
  }

  /** T[j + 1], the integer part of 4294967296 times abs(sin(j + 1)). */
  function T(j: nat): Word
    requires j < 64
  {
    if j < 32 then (if j < 16 then T1(j) else T2(j)) else (if j < 48 then T3(j) else T4(j))
  }

  function T1(j: nat): Word {
    if j < 4 then Column(j % 4, 0xd76a_a478, 0xe8c7_b756, 0x2420_70db, 0xc1bd_ceee)
    else if j < 8 then Column(j % 4, 0xf57c_0faf, 0x4787_c62a, 0xa830_4613, 0xfd46_9501)
    else if j < 12 then Column(j % 4, 0x6980_98d8, 0x8b44_f7af, 0xffff_5bb1, 0x895c_d7be)
    else Column(j % 4, 0x6b90_1122, 0xfd98_7193, 0xa679_438e, 0x49b4_0821)
  }

  function T2(j: nat): Word {
    if j < 20 then Column(j % 4, 0xf61e_2562, 0xc040_b340, 0x265e_5a51, 0xe9b6_c7aa)
    else if j < 24 then Column(j % 4, 0xd62f_105d, 0x0244_1453, 0xd8a1_e681, 0xe7d3_fbc8)
    else if j < 28 then Column(j % 4, 0x21e1_cde6, 0xc337_07d6, 0xf4d5_0d87, 0x455a_14ed)
    else Column(j % 4, 0xa9e3_e905, 0xfcef_a3f8, 0x676f_02d9, 0x8d2a_4c8a)
  }

  function T3(j: nat): Word {
    if j < 36 then Column(j % 4, 0xfffa_3942, 0x8771_f681, 0x6d9d_6122, 0xfde5_380c)
    else if j < 40 then Column(j % 4, 0xa4be_ea44, 0x4bde_cfa9, 0xf6bb_4b60, 0xbebf_bc70)
    else if j < 44 then Column(j % 4, 0x289b_7ec6, 0xeaa1_27fa, 0xd4ef_3085, 0x0488_1d05)
    else Column(j % 4, 0xd9d4_d039, 0xe6db_99e5, 0x1fa2_7cf8, 0xc4ac_5665)
  }

  function T4(j: nat): Word {
    if j < 52 then Column(j % 4, 0xf429_2244, 0x432a_ff97, 0xab94_23a7, 0xfc93_a039)
    else if j < 56 then Column(j % 4, 0x655b_59c3, 0x8f0c_cc92, 0xffef_f47d, 0x8584_5dd1)
    else if j < 60 then Column(j % 4, 0x6fa8_7e4f, 0xfe2c_e6e0, 0xa301_4314, 0x4e08_11a1)
    else Column(j % 4, 0xf753_7e82, 0xbd3a_f235, 0x2ad7_d2bb, 0xeb86_d391)
  }

  function Column(column: nat, v0: Word, v1: Word, v2: Word, v3: Word): Word {
    if column == 0 then v0 else if column == 1 then v1 else if column == 2 then v2 else v3
  }

  function AuxOf(j: nat): Aux
    requires j < 64
  {
    if j < 16 then F else if j < 32 then G else if j < 48 then H else I
  }

  /** The message word that operation `j` reads. */
  function Index(j: nat): (k: nat)
    requires j < 64
    ensures k < 16
  {
    if j < 16 then j else if j < 32 then (5 * j + 1) % 16 else if j < 48 then (3 * j + 5) % 16 else 7 * j % 16
  }

  function ShiftOf(j: nat): (s: Shift)
    requires j < 64
  {
    if j < 16 then Column(j % 4, 7, 12, 17, 22)
    else if j < 32 then Column(j % 4, 5, 9, 14, 20)
    else if j < 48 then Column(j % 4, 4, 11, 16, 23)
    else Column(j % 4, 6, 10, 15, 21)
  }

  /** Operation `j`; the registers turn by one place after each operation. */
  function Operation(step: StepFunction, x: seq<Word>, j: nat, q: Quad): Quad
    requires |x| == 16 && j < 64
  {
    Quad(q.d, step(AuxOf(j), q.a, q.b, q.c, q.d, x[Index(j)], T(j), ShiftOf(j)), q.b, q.c)
  }

  function Operations(step: StepFunction, x: seq<Word>, n: nat, q: Quad): Quad
    requires |x| == 16 && n <= 64
  {
    if n == 0 then q else Operation(step, x, n - 1, Operations(step, x, n - 1, q))
  }

  /** The four rounds. */
  function Rounds(step: StepFunction, x: seq<Word>, q: Quad): Quad
    requires |x| == 16
  {
    Operations(step, x, 4 * |x|, q)
  }

  function Plus(p: Quad, q: Quad): Quad {
    Quad(Sum(p.a, q.a), Sum(p.b, q.b), Sum(p.c, q.c), Sum(p.d, q.d))
  }

  // ---------------------------------------------------------------- bytes and words

  /** Four bytes as a word, the low-order byte first (section 2). */
  function LittleWord(b0: Byte, b1: Byte, b2: Byte, b3: Byte): Word {
    (b0 as int) + 0x100 * (b1 as int) + 0x1_0000 * (b2 as int) + 0x100_0000 * (b3 as int)
  }

  function LittleBytes(w: Word): (b: seq<Byte>)
    ensures |b| == 4 && LittleWord(b[0], b[1], b[2], b[3]) == w
  {
    var w1 := w / 0x100;
    var w2 := w1 / 0x100;
    var w3 := w2 / 0x100;
    [w % 0x100, w1 % 0x100, w2 % 0x100, w3]
  }

  /** The n-th group of four bytes as a word. */
  function LittleNth(s: seq<Byte>, n: nat): Word
    requires 4 * n + 4 <= |s|
  {
    LittleWord(s[4 * n], s[4 * n + 1], s[4 * n + 2], s[4 * n + 3])
  }

  function Words(block: seq<Byte>): (x: seq<Word>)
    requires |block| == 64
    ensures |x| == 16
  {
    seq(16, n requires 0 <= n < 16 => LittleNth(block, n))
  }

  // ---------------------------------------------------------------- the digest

  /** Section 3.3, which gives the bytes of each register, the low-order byte first. */
  const START := Quad(LittleWord(0x01, 0x23, 0x45, 0x67), LittleWord(0x89, 0xab, 0xcd, 0xef),
                      LittleWord(0xfe, 0xdc, 0xba, 0x98), LittleWord(0x76, 0x54, 0x32, 0x10))

  function Compress(q: Quad, block: seq<Byte>): Quad
    requires |block| == 64
  {
    Plus(q, Rounds(Step, Words(block), q))
  }

  function Block(m: seq<Byte>, k: nat): (b: seq<Byte>)
    requires 64 * k + 64 <= |m|
    ensures |b| == 64
  {
    m[64 * k..64 * k + 64]
  }

  /** Section 3.4 over the first `k` blocks of a message. */
  function Chain(m: seq<Byte>, k: nat): Quad
    requires 64 * k <= |m|
  {
    if k == 0 then START else Compress(Chain(m, k - 1), Block(m, k - 1))
  }

  function Zeros(n: nat): (z: seq<Byte>)
    ensures |z| == n
  {
    seq(n, _ => 0)
  }

  /** Section 3.2: the length in bits as 64 bits, low-order word first. */
  function LengthBytes(bits: nat): (b: seq<Byte>)
    ensures |b| == 8
  {
    LittleBytes(bits % TWO_32) + LittleBytes(bits / TWO_32 % TWO_32)
  }

  /** Section 3.1: one 1 bit, then the fewest 0 bits that leave room for the length. */
  function Padding(n: nat): (p: seq<Byte>)
    ensures (n + |p|) % 64 == 56 && 1 <= |p| <= 64
  {
    [0x80] + Zeros((119 - n % 64) % 64)
  }

  function Padded(m: seq<Byte>): (p: seq<Byte>)
    ensures |p| % 64 == 0
  {
    var p := m + Padding(|m|);
    RoomForLength(|p|);
    p + LengthBytes(8 * |m|)
  }

  lemma RoomForLength(n: nat)
    requires n % 64 == 56
    ensures (n + 8) % 64 == 0
  {
  }

  /** Section 3.5: A, B, C, D, each with its low-order byte first. */
  function Output(q: Quad): (o: seq<Byte>)
    ensures |o| == 16
  {
    LittleBytes(q.a) + LittleBytes(q.b) + LittleBytes(q.c) + LittleBytes(q.d)
  }

  function Digest(m: seq<Byte>): (o: seq<Byte>)
    ensures |o| == 16
  {
    Output(Chain(Padded(m), |Padded(m)| / 64))
  }

  /** Blocks already taken in do not depend on what follows. */
  lemma {:induction false} ChainPrefix(m: seq<Byte>, m': seq<Byte>, k: nat)
    requires 64 * k <= |m| && m <= m'
    ensures Chain(m, k) == Chain(m', k)
  {
    hide Compress;
    if k > 0 {
      ChainPrefix(m, m', k - 1);
      assert Block(m, k - 1) == Block(m', k - 1);
    }
  }
}
