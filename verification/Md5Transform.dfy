/**
 The block transform of base/md5.cc, and its equality with the rounds of RFC 1321.
 */
module Md5Transform {
  import opened Md5Spec

  // ---------------------------------------------------------------- the macros

  function F1(x: Word, y: Word, z: Word): Word { Xor(z, And(x, Xor(y, z))) }

  function F2(x: Word, y: Word, z: Word): Word { F1(z, x, y) }

  function F3(x: Word, y: Word, z: Word): Word { Xor(Xor(x, y), z) }

  function F4(x: Word, y: Word, z: Word): Word { Xor(y, Or(x, Not(z))) }

  function CoreFunction(f: Aux, x: Word, y: Word, z: Word): Word {
    match f
    case F => F1(x, y, z)
    case G => F2(x, y, z)
    case H => F3(x, y, z)
    case I => F4(x, y, z)
  }

  /** The central step: register `w` gains a core function, an input word and a constant, turns left by `s` and gains `x`. */
  function Md5Step(f: Aux, w: Word, x: Word, y: Word, z: Word, input: Word, t: Word, s: Shift): Word {
    var sum := Sum(w, Sum(CoreFunction(f, x, y, z), Sum(input, t)));
    var turned := Or(ShiftLeft(sum, s), ShiftRight(sum, 32 - s));
    Sum(turned, x)
  }

  // ---------------------------------------------------------------- the 64 unrolled steps

  /** Four operations of RFC 1321, after which the registers are back in place. */
  function Four(step: StepFunction, x: seq<Word>, j: nat, q: Quad): Quad
    requires |x| == 16 && j + 4 <= 64
  {
    Operation(step, x, j + 3, Operation(step, x, j + 2, Operation(step, x, j + 1, Operation(step, x, j, q))))
  }

  /** Round 1 as written, first half, for any step operation. */
  method RoundOneFirst(step: StepFunction, x: seq<Word>, q: Quad) returns (r: Quad)
    requires |x| == 16
    ensures r == Four(step, x, 4, Four(step, x, 0, q))
  {
    var a, b, c, d := q.a, q.b, q.c, q.d;
    a := step(F, a, b, c, d, x[0], 0xd76a_a478, 7);
    d := step(F, d, a, b, c, x[1], 0xe8c7_b756, 12);
    c := step(F, c, d, a, b, x[2], 0x2420_70db, 17);
    b := step(F, b, c, d, a, x[3], 0xc1bd_ceee, 22);
    ghost var mid := Quad(a, b, c, d);
    assert mid == Four(step, x, 0, q);
    a := step(F, a, b, c, d, x[4], 0xf57c_0faf, 7);
    d := step(F, d, a, b, c, x[5], 0x4787_c62a, 12);
    c := step(F, c, d, a, b, x[6], 0xa830_4613, 17);
    b := step(F, b, c, d, a, x[7], 0xfd46_9501, 22);
    r := Quad(a, b, c, d);
  }

  /** Round 1 as written, second half, for any step operation. */
  method RoundOneSecond(step: StepFunction, x: seq<Word>, q: Quad) returns (r: Quad)
    requires |x| == 16
    ensures r == Four(step, x, 12, Four(step, x, 8, q))
  {
    var a, b, c, d := q.a, q.b, q.c, q.d;
    a := step(F, a, b, c, d, x[8], 0x6980_98d8, 7);
    d := step(F, d, a, b, c, x[9], 0x8b44_f7af, 12);
    c := step(F, c, d, a, b, x[10], 0xffff_5bb1, 17);
    b := step(F, b, c, d, a, x[11], 0x895c_d7be, 22);
    ghost var mid := Quad(a, b, c, d);
    assert mid == Four(step, x, 8, q);
    a := step(F, a, b, c, d, x[12], 0x6b90_1122, 7);
    d := step(F, d, a, b, c, x[13], 0xfd98_7193, 12);
    c := step(F, c, d, a, b, x[14], 0xa679_438e, 17);
    b := step(F, b, c, d, a, x[15], 0x49b4_0821, 22);
    r := Quad(a, b, c, d);
  }

  /** Round 2 as written, first half, for any step operation. */
  method RoundTwoFirst(step: StepFunction, x: seq<Word>, q: Quad) returns (r: Quad)
    requires |x| == 16
    ensures r == Four(step, x, 20, Four(step, x, 16, q))
  {
    var a, b, c, d := q.a, q.b, q.c, q.d;
    a := step(G, a, b, c, d, x[1], 0xf61e_2562, 5);
    d := step(G, d, a, b, c, x[6], 0xc040_b340, 9);
    c := step(G, c, d, a, b, x[11], 0x265e_5a51, 14);
    b := step(G, b, c, d, a, x[0], 0xe9b6_c7aa, 20);
    ghost var mid := Quad(a, b, c, d);
    assert mid == Four(step, x, 16, q);
    a := step(G, a, b, c, d, x[5], 0xd62f_105d, 5);
    d := step(G, d, a, b, c, x[10], 0x0244_1453, 9);
    c := step(G, c, d, a, b, x[15], 0xd8a1_e681, 14);
    b := step(G, b, c, d, a, x[4], 0xe7d3_fbc8, 20);
    r := Quad(a, b, c, d);
  }

  /** Round 2 as written, second half, for any step operation. */
  method RoundTwoSecond(step: StepFunction, x: seq<Word>, q: Quad) returns (r: Quad)
    requires |x| == 16
    ensures r == Four(step, x, 28, Four(step, x, 24, q))
  {
    var a, b, c, d := q.a, q.b, q.c, q.d;
    a := step(G, a, b, c, d, x[9], 0x21e1_cde6, 5);
    d := step(G, d, a, b, c, x[14], 0xc337_07d6, 9);
    c := step(G, c, d, a, b, x[3], 0xf4d5_0d87, 14);
    b := step(G, b, c, d, a, x[8], 0x455a_14ed, 20);
    ghost var mid := Quad(a, b, c, d);
    assert mid == Four(step, x, 24, q);
    a := step(G, a, b, c, d, x[13], 0xa9e3_e905, 5);
    d := step(G, d, a, b, c, x[2], 0xfcef_a3f8, 9);
    c := step(G, c, d, a, b, x[7], 0x676f_02d9, 14);
    b := step(G, b, c, d, a, x[12], 0x8d2a_4c8a, 20);
    r := Quad(a, b, c, d);
  }

  /** Round 3 as written, first half, for any step operation. */
  method RoundThreeFirst(step: StepFunction, x: seq<Word>, q: Quad) returns (r: Quad)
    requires |x| == 16
    ensures r == Four(step, x, 36, Four(step, x, 32, q))
  {
    var a, b, c, d := q.a, q.b, q.c, q.d;
    a := step(H, a, b, c, d, x[5], 0xfffa_3942, 4);
    d := step(H, d, a, b, c, x[8], 0x8771_f681, 11);
    c := step(H, c, d, a, b, x[11], 0x6d9d_6122, 16);
    b := step(H, b, c, d, a, x[14], 0xfde5_380c, 23);
    ghost var mid := Quad(a, b, c, d);
    assert mid == Four(step, x, 32, q);
    a := step(H, a, b, c, d, x[1], 0xa4be_ea44, 4);
    d := step(H, d, a, b, c, x[4], 0x4bde_cfa9, 11);
    c := step(H, c, d, a, b, x[7], 0xf6bb_4b60, 16);
    b := step(H, b, c, d, a, x[10], 0xbebf_bc70, 23);
    r := Quad(a, b, c, d);
  }

  /** Round 3 as written, second half, for any step operation. */
  method RoundThreeSecond(step: StepFunction, x: seq<Word>, q: Quad) returns (r: Quad)
    requires |x| == 16
    ensures r == Four(step, x, 44, Four(step, x, 40, q))
  {
    var a, b, c, d := q.a, q.b, q.c, q.d;
    a := step(H, a, b, c, d, x[13], 0x289b_7ec6, 4);
    d := step(H, d, a, b, c, x[0], 0xeaa1_27fa, 11);
    c := step(H, c, d, a, b, x[3], 0xd4ef_3085, 16);
    b := step(H, b, c, d, a, x[6], 0x0488_1d05, 23);
    ghost var mid := Quad(a, b, c, d);
    assert mid == Four(step, x, 40, q);
    a := step(H, a, b, c, d, x[9], 0xd9d4_d039, 4);
    d := step(H, d, a, b, c, x[12], 0xe6db_99e5, 11);
    c := step(H, c, d, a, b, x[15], 0x1fa2_7cf8, 16);
    b := step(H, b, c, d, a, x[2], 0xc4ac_5665, 23);
    r := Quad(a, b, c, d);
  }

  /** Round 4 as written, first half, for any step operation. */
  method RoundFourFirst(step: StepFunction, x: seq<Word>, q: Quad) returns (r: Quad)
    requires |x| == 16
    ensures r == Four(step, x, 52, Four(step, x, 48, q))
  {
    var a, b, c, d := q.a, q.b, q.c, q.d;
    a := step(I, a, b, c, d, x[0], 0xf429_2244, 6);
    d := step(I, d, a, b, c, x[7], 0x432a_ff97, 10);
    c := step(I, c, d, a, b, x[14], 0xab94_23a7, 15);
    b := step(I, b, c, d, a, x[5], 0xfc93_a039, 21);
    ghost var mid := Quad(a, b, c, d);
    assert mid == Four(step, x, 48, q);
    a := step(I, a, b, c, d, x[12], 0x655b_59c3, 6);
    d := step(I, d, a, b, c, x[3], 0x8f0c_cc92, 10);
    c := step(I, c, d, a, b, x[10], 0xffef_f47d, 15);
    b := step(I, b, c, d, a, x[1], 0x8584_5dd1, 21);
    r := Quad(a, b, c, d);
  }

  /** Round 4 as written, second half, for any step operation. */
  method RoundFourSecond(step: StepFunction, x: seq<Word>, q: Quad) returns (r: Quad)
    requires |x| == 16
    ensures r == Four(step, x, 60, Four(step, x, 56, q))
  {
    var a, b, c, d := q.a, q.b, q.c, q.d;
    a := step(I, a, b, c, d, x[8], 0x6fa8_7e4f, 6);
    d := step(I, d, a, b, c, x[15], 0xfe2c_e6e0, 10);
    c := step(I, c, d, a, b, x[6], 0xa301_4314, 15);
    b := step(I, b, c, d, a, x[13], 0x4e08_11a1, 21);
    ghost var mid := Quad(a, b, c, d);
    assert mid == Four(step, x, 56, q);
    a := step(I, a, b, c, d, x[4], 0xf753_7e82, 6);
    d := step(I, d, a, b, c, x[11], 0xbd3a_f235, 10);
    c := step(I, c, d, a, b, x[2], 0x2ad7_d2bb, 15);
    b := step(I, b, c, d, a, x[9], 0xeb86_d391, 21);
    r := Quad(a, b, c, d);
  }

  lemma FourAgain(step: StepFunction, x: seq<Word>, j: nat, q: Quad)
    requires |x| == 16 && j + 4 <= 64
    ensures Operations(step, x, j + 4, q) == Four(step, x, j, Operations(step, x, j, q))
  {
    assert Operations(step, x, j + 1, q) == Operation(step, x, j, Operations(step, x, j, q));
    assert Operations(step, x, j + 2, q) == Operation(step, x, j + 1, Operations(step, x, j + 1, q));
    assert Operations(step, x, j + 3, q) == Operation(step, x, j + 2, Operations(step, x, j + 2, q));
  }

  lemma EightAgain(step: StepFunction, x: seq<Word>, j: nat, q: Quad)
    requires |x| == 16 && j + 8 <= 64
    ensures Operations(step, x, j + 8, q) == Four(step, x, j + 4, Four(step, x, j, Operations(step, x, j, q)))
  {
    FourAgain(step, x, j, q);
    FourAgain(step, x, j + 4, q);
  }

  /** All four rounds as written. */
  method UnrolledRounds(step: StepFunction, x: seq<Word>, q: Quad) returns (r: Quad)
    requires |x| == 16
    ensures r == Rounds(step, x, q)
  {
    ghost var n := |x| - 16;
    r := RoundOneFirst(step, x, q);
    EightAgain(step, x, n + 0, q);
    r := RoundOneSecond(step, x, r);
    EightAgain(step, x, n + 8, q);
    r := RoundTwoFirst(step, x, r);
    EightAgain(step, x, n + 16, q);
    r := RoundTwoSecond(step, x, r);
    EightAgain(step, x, n + 24, q);
    r := RoundThreeFirst(step, x, r);
    EightAgain(step, x, n + 32, q);
    r := RoundThreeSecond(step, x, r);
    EightAgain(step, x, n + 40, q);
    r := RoundFourFirst(step, x, r);
    EightAgain(step, x, n + 48, q);
    r := RoundFourSecond(step, x, r);
    EightAgain(step, x, n + 56, q);
  }

  // ---------------------------------------------------------------- the macros are the RFC's functions

  /** z ^ (x & (y ^ z)) chooses between y and z, bit by bit. */
  lemma {:induction false} SelectAgrees(x: nat, y: nat, z: nat, n: nat)
    ensures Bitwise(XorBit, z, Bitwise(AndBit, x, Bitwise(XorBit, y, z, n), n), n)
         == Bitwise(OrBit, Bitwise(AndBit, x, y, n), Bitwise(AndBit, Bitwise(NotBit, x, x, n), z, n), n)
  {
    if n > 0 {
      SelectAgrees(x / 2, y / 2, z / 2, n - 1);
    }
  }

  lemma {:induction false} ReversedSelectAgrees(x: nat, y: nat, z: nat, n: nat)
    ensures Bitwise(XorBit, y, Bitwise(AndBit, z, Bitwise(XorBit, x, y, n), n), n)
         == Bitwise(OrBit, Bitwise(AndBit, x, z, n), Bitwise(AndBit, y, Bitwise(NotBit, z, z, n), n), n)
  {
    if n > 0 {
      ReversedSelectAgrees(x / 2, y / 2, z / 2, n - 1);
    }
  }

  /** The optimised core functions are those of RFC 1321. */
  lemma CoreFunctionsAgree(f: Aux, x: Word, y: Word, z: Word)
    ensures CoreFunction(f, x, y, z) == Apply(f, x, y, z)
  {
    SelectAgrees(x, y, z, 32);
    ReversedSelectAgrees(x, y, z, 32);
  }

  lemma StepsAgree(f: Aux, w: Word, x: Word, y: Word, z: Word, input: Word, t: Word, s: Shift)
    ensures Md5Step(f, w, x, y, z, input, t, s) == Step(f, w, x, y, z, input, t, s)
  {
    CoreFunctionsAgree(f, x, y, z);
    SumsAgree(w, Apply(f, x, y, z), input, t);
  }

  lemma SumsAgree(w: Word, f: Word, input: Word, t: Word)
    ensures Sum(w, Sum(f, Sum(input, t))) == Sum(Sum(Sum(w, f), input), t)
  {
  }

  lemma {:induction false} OperationsAgree(x: seq<Word>, n: nat, q: Quad)
    requires |x| == 16 && n <= 64
    ensures Operations(Md5Step, x, n, q) == Operations(Step, x, n, q)
  {
    if n > 0 {
      OperationsAgree(x, n - 1, q);
      var p := Operations(Step, x, n - 1, q);
      StepsAgree(AuxOf(n - 1), p.a, p.b, p.c, p.d, x[Index(n - 1)], T(n - 1), ShiftOf(n - 1));
    }
  }

  /** The state words as registers. */
  function Registers(buf: array<Word>): Quad
    reads buf
    requires buf.Length == 4
  {
    Quad(buf[0], buf[1], buf[2], buf[3])
  }

  /** MD5Transform: the registers go through the 64 steps and are added to the state in place. */
  method Transform(buf: array<Word>, x: seq<Word>)
    requires buf.Length == 4 && |x| == 16
    modifies buf
    ensures Registers(buf) == Plus(old(Registers(buf)), Rounds(Step, x, old(Registers(buf))))
  {
    ghost var q := Registers(buf);
    var r := UnrolledRounds(Md5Step, x, Quad(buf[0], buf[1], buf[2], buf[3]));
    OperationsAgree(x, 4 * |x|, q);
    AddRegisters(buf, r);
  }

  method AddRegisters(buf: array<Word>, r: Quad)
    requires buf.Length == 4
    modifies buf
    ensures Registers(buf) == Plus(old(Registers(buf)), r)
  {
    var sum := Plus(Quad(buf[0], buf[1], buf[2], buf[3]), r);
    buf[0] := sum.a;
    buf[1] := sum.b;
    buf[2] := sum.c;
    buf[3] := sum.d;
  }
}
