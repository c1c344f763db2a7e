/** MD5's block function: the unrolled `md5_process` against section 3.4 of RFC 1321. */
module Md5Process {
  import opened Bits

  const ALL_ONES: u32 := 0xFFFF_FFFF

  /** The sum, but for a multiple of 2^32. */
  function Add(x: nat, y: nat): (r: u32)
    ensures (x + y - r) % TWO32 == 0
  {
    (x + y) % TWO32
  }

  function Not(x: u32): (r: u32) {
    ALL_ONES - x
  }

  // ---- section 3.4 of RFC 1321 ----

  /** The four registers, in the order the next operation takes them. */
  datatype Regs = Regs(a: u32, b: u32, c: u32, d: u32)

  /** F, G, H and I. */
  function RoundFunction(round: nat, x: u32, y: u32, z: u32): nat {
    if round == 0 then Or(And(x, y), And(Not(x), z))
    else if round == 1 then Or(And(x, z), And(y, Not(z)))
    else if round == 2 then Xor(x, Xor(y, z))
    else Xor(y, Or(x, Not(z)))
  }

  /** Which word of the block operation `i` takes. */
  function WordIndex(i: nat): (k: nat)
    ensures k < 16
  {
    if i < 16 then i
    else if i < 32 then (5 * i + 1) % 16
    else if i < 48 then (3 * i + 5) % 16
    else 7 * i % 16
  }

  /** How far operation `i` rotates. */
  function Amount(i: nat): (s: nat)
    ensures 0 < s < 32
  {
    if i < 16 then Pick(i, 7, 12, 17, 22)
    else if i < 32 then Pick(i, 5, 9, 14, 20)
    else if i < 48 then Pick(i, 4, 11, 16, 23)
    else Pick(i, 6, 10, 15, 21)
  }

  function Pick(i: nat, s0: nat, s1: nat, s2: nat, s3: nat): nat {
    if i % 4 == 0 then s0 else if i % 4 == 1 then s1 else if i % 4 == 2 then s2 else s3
  }

  /** The word rotated left by `s` bits. */
  function Rotated(x: u32, s: nat): (r: u32)
    requires s <= 32
    ensures forall i: nat :: i < 32 ==> Bit(r, i) == Bit(x, if i >= s then i - s else i + 32 - s)
  {
    Pow2Of32();
    LowBound(Up(x, s), 32);
    ShrLess(x, 32 - s);
    OrBound(Shl(x, s, 32), Shr(x, 32 - s), 32);
    var r := Or(Shl(x, s, 32), Shr(x, 32 - s));
    assert forall i: nat :: i < 32 ==> Bit(r, i) == Bit(x, if i >= s then i - s else i + 32 - s) by {
      forall i: nat | i < 32 ensures Bit(r, i) == Bit(x, if i >= s then i - s else i + 32 - s) {
        RotatedBit(x, s, i);
      }
    }
    r
  }

  lemma RotatedBit(x: u32, s: nat, i: nat)
    requires s <= 32 && i < 32
    ensures Bit(Or(Shl(x, s, 32), Shr(x, 32 - s)), i) == Bit(x, if i >= s then i - s else i + 32 - s)
  {
    BitOr(Shl(x, s, 32), Shr(x, 32 - s), i);
    BitShl(x, s, 32, i);
    BitShr(x, 32 - s, i);
    if i >= s {
      Pow2Of32();
      BitHigh(x, 32, 32 - s + i);
    }
  }

  /** Operation `i`: a = b + ((a + f(b, c, d) + X[k] + T[i]) <<< s), then the registers move
      round by one. */
  function Step(X: seq<u32>, r: Regs, i: nat): Regs
    requires |X| == 16 && i < 64
  {
    var sum := Add(Add(Add(r.a, RoundFunction(i / 16, r.b, r.c, r.d)), X[WordIndex(i)]), T(i));
    Regs(r.d, Add(r.b, Rotated(sum, Amount(i))), r.b, r.c)
  }

  /** The first `n` operations. */
  function Run(X: seq<u32>, r: Regs, n: nat): Regs
    requires |X| == 16 && n <= 64
  {
    if n == 0 then r else Step(X, Run(X, r, n - 1), n - 1)
  }

  /** The table of the sine function. */
  function T(i: nat): u32 {
    match i
    case 0 => 0xD76A_A478
    case 1 => 0xE8C7_B756
    case 2 => 0x2420_70DB
    case 3 => 0xC1BD_CEEE
    case 4 => 0xF57C_0FAF
    case 5 => 0x4787_C62A
    case 6 => 0xA830_4613
    case 7 => 0xFD46_9501
    case 8 => 0x6980_98D8
    case 9 => 0x8B44_F7AF
    case 10 => 0xFFFF_5BB1
    case 11 => 0x895C_D7BE
    case 12 => 0x6B90_1122
    case 13 => 0xFD98_7193
    case 14 => 0xA679_438E
    case 15 => 0x49B4_0821
    case 16 => 0xF61E_2562
    case 17 => 0xC040_B340
    case 18 => 0x265E_5A51
    case 19 => 0xE9B6_C7AA
    case 20 => 0xD62F_105D
    case 21 => 0x0244_1453
    case 22 => 0xD8A1_E681
    case 23 => 0xE7D3_FBC8
    case 24 => 0x21E1_CDE6
    case 25 => 0xC337_07D6
    case 26 => 0xF4D5_0D87
    case 27 => 0x455A_14ED
    case 28 => 0xA9E3_E905
    case 29 => 0xFCEF_A3F8
    case 30 => 0x676F_02D9
    case 31 => 0x8D2A_4C8A
    case 32 => 0xFFFA_3942
    case 33 => 0x8771_F681
    case 34 => 0x6D9D_6122
    case 35 => 0xFDE5_380C
    case 36 => 0xA4BE_EA44
    case 37 => 0x4BDE_CFA9
    case 38 => 0xF6BB_4B60
    case 39 => 0xBEBF_BC70
    case 40 => 0x289B_7EC6
    case 41 => 0xEAA1_27FA
    case 42 => 0xD4EF_3085
    case 43 => 0x0488_1D05
    case 44 => 0xD9D4_D039
    case 45 => 0xE6DB_99E5
    case 46 => 0x1FA2_7CF8
    case 47 => 0xC4AC_5665
    case 48 => 0xF429_2244
    case 49 => 0x432A_FF97
    case 50 => 0xAB94_23A7
    case 51 => 0xFC93_A039
    case 52 => 0x655B_59C3
    case 53 => 0x8F0C_CC92
    case 54 => 0xFFEF_F47D
    case 55 => 0x8584_5DD1
    case 56 => 0x6FA8_7E4F
    case 57 => 0xFE2C_E6E0
    case 58 => 0xA301_4314
    case 59 => 0x4E08_11A1
    case 60 => 0xF753_7E82
    case 61 => 0xBD3A_F235
    case 62 => 0x2AD7_D2BB
    case _ => 0xEB86_D391
  }

  // ---- the source's forms ----

  /** The source's `F`, a cheaper expression in the first two rounds. */
  function SourceF(round: nat, x: u32, y: u32, z: u32): nat {
    if round == 0 then Xor(z, And(x, Xor(y, z)))
    else if round == 1 then Xor(y, And(z, Xor(x, y)))
    else if round == 2 then Xor(Xor(x, y), z)
    else Xor(y, Or(x, Not(z)))
  }

  /** The source's `S`. */
  function SourceS(x: u32, n: nat): nat
    requires n <= 32
  {
    Or(Shl(x, n, 32), Shr(And(x, ALL_ONES), 32 - n))
  }

  /** The source's `P`: the new value of its first argument. */
  function P(round: nat, a: u32, b: u32, c: u32, d: u32, x: u32, s: nat, t: u32): u32
    requires s <= 32
  {
    var sum := Add(a, Add(Add(SourceF(round, b, c, d), x), t));
    Add(SourceS(sum, s), b)
  }

  lemma BitNot(x: u32, i: nat)
    requires i < 32
    ensures Bit(Not(x), i) == !Bit(x, i)
  {
    Pow2Of32();
    NotBits(x, 32, i);
  }

  lemma {:induction false} NotBits(x: nat, n: nat, i: nat)
    requires x < Pow2(n) && i < n
    ensures Bit(Pow2(n) - 1 - x, i) == !Bit(x, i)
    decreases n
  {
    assert (Pow2(n) - 1 - x) / 2 == Pow2(n - 1) - 1 - x / 2;
    if i > 0 {
      NotBits(x / 2, n - 1, i - 1);
    }
  }

  /** In each round the cheaper expression has the specification's bits. */
  lemma SameFunctionBit(round: nat, x: u32, y: u32, z: u32, i: nat)
    requires i < 32
    ensures Bit(SourceF(round, x, y, z), i) == Bit(RoundFunction(round, x, y, z), i)
  {
    if round == 0 {
      BitXor(z, And(x, Xor(y, z)), i);
      BitAnd(x, Xor(y, z), i);
      BitXor(y, z, i);
      BitOr(And(x, y), And(Not(x), z), i);
      BitAnd(x, y, i);
      BitAnd(Not(x), z, i);
      BitNot(x, i);
    } else if round == 1 {
      BitXor(y, And(z, Xor(x, y)), i);
      BitAnd(z, Xor(x, y), i);
      BitXor(x, y, i);
      BitOr(And(x, z), And(y, Not(z)), i);
      BitAnd(x, z, i);
      BitAnd(y, Not(z), i);
      BitNot(z, i);
    } else if round == 2 {
      BitXor(Xor(x, y), z, i);
      BitXor(x, y, i);
      BitXor(x, Xor(y, z), i);
      BitXor(y, z, i);
    }
  }

  lemma FunctionBounds(round: nat, x: u32, y: u32, z: u32)
    ensures SourceF(round, x, y, z) < TWO32 && RoundFunction(round, x, y, z) < TWO32
  {
    Pow2Of32();
    if round == 0 {
      AndBound(x, Xor(y, z));
      XorBound(z, And(x, Xor(y, z)), 32);
      AndBound(x, y);
      AndBound(Not(x), z);
      OrBound(And(x, y), And(Not(x), z), 32);
    } else if round == 1 {
      AndBound(z, Xor(x, y));
      XorBound(y, And(z, Xor(x, y)), 32);
      AndBound(x, z);
      AndBound(y, Not(z));
      OrBound(And(x, z), And(y, Not(z)), 32);
    } else if round == 2 {
      XorBound(x, y, 32);
      XorBound(Xor(x, y), z, 32);
      XorBound(y, z, 32);
      XorBound(x, Xor(y, z), 32);
    } else {
      OrBound(x, Not(z), 32);
      XorBound(y, Or(x, Not(z)), 32);
    }
  }

  lemma SameFunction(round: nat, x: u32, y: u32, z: u32)
    ensures SourceF(round, x, y, z) == RoundFunction(round, x, y, z)
  {
    var f, g := SourceF(round, x, y, z), RoundFunction(round, x, y, z);
    FunctionBounds(round, x, y, z);
    Pow2Of32();
    forall i: nat | i < 32 ensures Bit(f, i) == Bit(g, i) {
      SameFunctionBit(round, x, y, z, i);
    }
    BitsEqual(f, g, 32);
  }

  lemma SameRotation(x: u32, s: nat)
    requires s <= 32
    ensures SourceS(x, s) == Rotated(x, s)
  {
    Pow2Of32();
    AndMask(x, 32);
    LowSmall(x, 32);
  }

  /** The macro computes b + ((a + f(b, c, d) + x + t) <<< s). */
  lemma MacroMeaning(round: nat, a: u32, b: u32, c: u32, d: u32, x: u32, s: nat, t: u32)
    requires s <= 32
    ensures P(round, a, b, c, d, x, s, t) ==
            Add(b, Rotated(Add(Add(Add(a, RoundFunction(round, b, c, d)), x), t), s))
  {
    SameFunction(round, b, c, d);
    SumOrder(a, RoundFunction(round, b, c, d), x, t);
    SameRotation(Add(Add(Add(a, RoundFunction(round, b, c, d)), x), t), s);
  }

  lemma AddReduced(x: nat, y: nat)
    ensures Add(x % TWO32, y) == Add(x, y) == Add(y, x % TWO32)
  {
    var q, r := x / TWO32, x % TWO32;
    assert x + y == r + y + TWO32 * q;
  }

  lemma SumOrder(a: nat, f: nat, x: nat, t: nat)
    ensures Add(a, Add(Add(f, x), t)) == Add(Add(Add(a, f), x), t)
  {
    AddReduced(f + x, t);
    AddReduced(f + x + t, a);
    AddReduced(a + f, x);
    AddReduced(a + f + x, t);
  }

  // ---- the unrolled schedule ----

  /** The shape of the macro: round, the four registers, the word, the shift, the constant. */
  type Macro = (nat, u32, u32, u32, u32, u32, nat, u32) -> u32

  const SOURCE_P: Macro :=
    (round, a, b, c, d, x, s, t) => if s <= 32 then P(round, a, b, c, d, x, s, t) else 0

  function StepWith(p: Macro, X: seq<u32>, r: Regs, i: nat): Regs
    requires |X| == 16 && i < 64
  {
    Regs(r.d, p(i / 16, r.a, r.b, r.c, r.d, X[WordIndex(i)], Amount(i), T(i)), r.b, r.c)
  }

  function RunWith(p: Macro, X: seq<u32>, r: Regs, n: nat): Regs
    requires |X| == 16 && n <= 64
  {
    if n == 0 then r else StepWith(p, X, RunWith(p, X, r, n - 1), n - 1)
  }

  lemma {:induction false} RunIsRun(X: seq<u32>, r: Regs, n: nat)
    requires |X| == 16 && n <= 64
    ensures RunWith(SOURCE_P, X, r, n) == Run(X, r, n)
  {
    if n > 0 {
      var q, i := Run(X, r, n - 1), n - 1;
      RunIsRun(X, r, i);
      MacroMeaning(i / 16, q.a, q.b, q.c, q.d, X[WordIndex(i)], Amount(i), T(i));
    }
  }

  /** Round 1 of md5_process. */
  method Round1(p: Macro, X: seq<u32>, A0: u32, B0: u32, C0: u32, D0: u32, ghost start: Regs)
    returns (A: u32, B: u32, C: u32, D: u32)
    requires |X| == 16 && Regs(A0, B0, C0, D0) == RunWith(p, X, start, 0)
    ensures Regs(A, B, C, D) == RunWith(p, X, start, 16)
  {
    A, B, C, D := A0, B0, C0, D0;
    A := p(0, A, B, C, D, X[0], 7, 0xD76A_A478);
    assert Regs(D, A, B, C) == RunWith(p, X, start, 1);
    D := p(0, D, A, B, C, X[1], 12, 0xE8C7_B756);
    assert Regs(C, D, A, B) == RunWith(p, X, start, 2);
    C := p(0, C, D, A, B, X[2], 17, 0x2420_70DB);
    assert Regs(B, C, D, A) == RunWith(p, X, start, 3);
    B := p(0, B, C, D, A, X[3], 22, 0xC1BD_CEEE);
    assert Regs(A, B, C, D) == RunWith(p, X, start, 4);
    A := p(0, A, B, C, D, X[4], 7, 0xF57C_0FAF);
    assert Regs(D, A, B, C) == RunWith(p, X, start, 5);
    D := p(0, D, A, B, C, X[5], 12, 0x4787_C62A);
    assert Regs(C, D, A, B) == RunWith(p, X, start, 6);
    C := p(0, C, D, A, B, X[6], 17, 0xA830_4613);
    assert Regs(B, C, D, A) == RunWith(p, X, start, 7);
    B := p(0, B, C, D, A, X[7], 22, 0xFD46_9501);
    assert Regs(A, B, C, D) == RunWith(p, X, start, 8);
    A := p(0, A, B, C, D, X[8], 7, 0x6980_98D8);
    assert Regs(D, A, B, C) == RunWith(p, X, start, 9);
    D := p(0, D, A, B, C, X[9], 12, 0x8B44_F7AF);
    assert Regs(C, D, A, B) == RunWith(p, X, start, 10);
    C := p(0, C, D, A, B, X[10], 17, 0xFFFF_5BB1);
    assert Regs(B, C, D, A) == RunWith(p, X, start, 11);
    B := p(0, B, C, D, A, X[11], 22, 0x895C_D7BE);
    assert Regs(A, B, C, D) == RunWith(p, X, start, 12);
    A := p(0, A, B, C, D, X[12], 7, 0x6B90_1122);
    assert Regs(D, A, B, C) == RunWith(p, X, start, 13);
    D := p(0, D, A, B, C, X[13], 12, 0xFD98_7193);
    assert Regs(C, D, A, B) == RunWith(p, X, start, 14);
    C := p(0, C, D, A, B, X[14], 17, 0xA679_438E);
    assert Regs(B, C, D, A) == RunWith(p, X, start, 15);
    B := p(0, B, C, D, A, X[15], 22, 0x49B4_0821);
    assert Regs(A, B, C, D) == RunWith(p, X, start, 16);
  }

  /** Round 2 of md5_process. */
  method Round2(p: Macro, X: seq<u32>, A0: u32, B0: u32, C0: u32, D0: u32, ghost start: Regs)
    returns (A: u32, B: u32, C: u32, D: u32)
    requires |X| == 16 && Regs(A0, B0, C0, D0) == RunWith(p, X, start, 16)
    ensures Regs(A, B, C, D) == RunWith(p, X, start, 32)
  {
    A, B, C, D := A0, B0, C0, D0;
    A := p(1, A, B, C, D, X[1], 5, 0xF61E_2562);
    assert Regs(D, A, B, C) == RunWith(p, X, start, 17);
    D := p(1, D, A, B, C, X[6], 9, 0xC040_B340);
    assert Regs(C, D, A, B) == RunWith(p, X, start, 18);
    C := p(1, C, D, A, B, X[11], 14, 0x265E_5A51);
    assert Regs(B, C, D, A) == RunWith(p, X, start, 19);
    B := p(1, B, C, D, A, X[0], 20, 0xE9B6_C7AA);
    assert Regs(A, B, C, D) == RunWith(p, X, start, 20);
    A := p(1, A, B, C, D, X[5], 5, 0xD62F_105D);
    assert Regs(D, A, B, C) == RunWith(p, X, start, 21);
    D := p(1, D, A, B, C, X[10], 9, 0x0244_1453);
    assert Regs(C, D, A, B) == RunWith(p, X, start, 22);
    C := p(1, C, D, A, B, X[15], 14, 0xD8A1_E681);
    assert Regs(B, C, D, A) == RunWith(p, X, start, 23);
    B := p(1, B, C, D, A, X[4], 20, 0xE7D3_FBC8);
    assert Regs(A, B, C, D) == RunWith(p, X, start, 24);
    A := p(1, A, B, C, D, X[9], 5, 0x21E1_CDE6);
    assert Regs(D, A, B, C) == RunWith(p, X, start, 25);
    D := p(1, D, A, B, C, X[14], 9, 0xC337_07D6);
    assert Regs(C, D, A, B) == RunWith(p, X, start, 26);
    C := p(1, C, D, A, B, X[3], 14, 0xF4D5_0D87);
    assert Regs(B, C, D, A) == RunWith(p, X, start, 27);
    B := p(1, B, C, D, A, X[8], 20, 0x455A_14ED);
    assert Regs(A, B, C, D) == RunWith(p, X, start, 28);
    A := p(1, A, B, C, D, X[13], 5, 0xA9E3_E905);
    assert Regs(D, A, B, C) == RunWith(p, X, start, 29);
    D := p(1, D, A, B, C, X[2], 9, 0xFCEF_A3F8);
    assert Regs(C, D, A, B) == RunWith(p, X, start, 30);
    C := p(1, C, D, A, B, X[7], 14, 0x676F_02D9);
    assert Regs(B, C, D, A) == RunWith(p, X, start, 31);
    B := p(1, B, C, D, A, X[12], 20, 0x8D2A_4C8A);
    assert Regs(A, B, C, D) == RunWith(p, X, start, 32);
  }

  /** Round 3 of md5_process. */
  method Round3(p: Macro, X: seq<u32>, A0: u32, B0: u32, C0: u32, D0: u32, ghost start: Regs)
    returns (A: u32, B: u32, C: u32, D: u32)
    requires |X| == 16 && Regs(A0, B0, C0, D0) == RunWith(p, X, start, 32)
    ensures Regs(A, B, C, D) == RunWith(p, X, start, 48)
  {
    A, B, C, D := A0, B0, C0, D0;
    A := p(2, A, B, C, D, X[5], 4, 0xFFFA_3942);
    assert Regs(D, A, B, C) == RunWith(p, X, start, 33);
    D := p(2, D, A, B, C, X[8], 11, 0x8771_F681);
    assert Regs(C, D, A, B) == RunWith(p, X, start, 34);
    C := p(2, C, D, A, B, X[11], 16, 0x6D9D_6122);
    assert Regs(B, C, D, A) == RunWith(p, X, start, 35);
    B := p(2, B, C, D, A, X[14], 23, 0xFDE5_380C);
    assert Regs(A, B, C, D) == RunWith(p, X, start, 36);
    A := p(2, A, B, C, D, X[1], 4, 0xA4BE_EA44);
    assert Regs(D, A, B, C) == RunWith(p, X, start, 37);
    D := p(2, D, A, B, C, X[4], 11, 0x4BDE_CFA9);
    assert Regs(C, D, A, B) == RunWith(p, X, start, 38);
    C := p(2, C, D, A, B, X[7], 16, 0xF6BB_4B60);
    assert Regs(B, C, D, A) == RunWith(p, X, start, 39);
    B := p(2, B, C, D, A, X[10], 23, 0xBEBF_BC70);
    assert Regs(A, B, C, D) == RunWith(p, X, start, 40);
    A := p(2, A, B, C, D, X[13], 4, 0x289B_7EC6);
    assert Regs(D, A, B, C) == RunWith(p, X, start, 41);
    D := p(2, D, A, B, C, X[0], 11, 0xEAA1_27FA);
    assert Regs(C, D, A, B) == RunWith(p, X, start, 42);
    C := p(2, C, D, A, B, X[3], 16, 0xD4EF_3085);
    assert Regs(B, C, D, A) == RunWith(p, X, start, 43);
    B := p(2, B, C, D, A, X[6], 23, 0x0488_1D05);
    assert Regs(A, B, C, D) == RunWith(p, X, start, 44);
    A := p(2, A, B, C, D, X[9], 4, 0xD9D4_D039);
    assert Regs(D, A, B, C) == RunWith(p, X, start, 45);
    D := p(2, D, A, B, C, X[12], 11, 0xE6DB_99E5);
    assert Regs(C, D, A, B) == RunWith(p, X, start, 46);
    C := p(2, C, D, A, B, X[15], 16, 0x1FA2_7CF8);
    assert Regs(B, C, D, A) == RunWith(p, X, start, 47);
    B := p(2, B, C, D, A, X[2], 23, 0xC4AC_5665);
    assert Regs(A, B, C, D) == RunWith(p, X, start, 48);
  }

  /** Round 4 of md5_process. */
  method Round4(p: Macro, X: seq<u32>, A0: u32, B0: u32, C0: u32, D0: u32, ghost start: Regs)
    returns (A: u32, B: u32, C: u32, D: u32)
    requires |X| == 16 && Regs(A0, B0, C0, D0) == RunWith(p, X, start, 48)
    ensures Regs(A, B, C, D) == RunWith(p, X, start, 64)
  {
    A, B, C, D := A0, B0, C0, D0;
    A := p(3, A, B, C, D, X[0], 6, 0xF429_2244);
    assert Regs(D, A, B, C) == RunWith(p, X, start, 49);
    D := p(3, D, A, B, C, X[7], 10, 0x432A_FF97);
    assert Regs(C, D, A, B) == RunWith(p, X, start, 50);
    C := p(3, C, D, A, B, X[14], 15, 0xAB94_23A7);
    assert Regs(B, C, D, A) == RunWith(p, X, start, 51);
    B := p(3, B, C, D, A, X[5], 21, 0xFC93_A039);
    assert Regs(A, B, C, D) == RunWith(p, X, start, 52);
    A := p(3, A, B, C, D, X[12], 6, 0x655B_59C3);
    assert Regs(D, A, B, C) == RunWith(p, X, start, 53);
    D := p(3, D, A, B, C, X[3], 10, 0x8F0C_CC92);
    assert Regs(C, D, A, B) == RunWith(p, X, start, 54);
    C := p(3, C, D, A, B, X[10], 15, 0xFFEF_F47D);
    assert Regs(B, C, D, A) == RunWith(p, X, start, 55);
    B := p(3, B, C, D, A, X[1], 21, 0x8584_5DD1);
    assert Regs(A, B, C, D) == RunWith(p, X, start, 56);
    A := p(3, A, B, C, D, X[8], 6, 0x6FA8_7E4F);
    assert Regs(D, A, B, C) == RunWith(p, X, start, 57);
    D := p(3, D, A, B, C, X[15], 10, 0xFE2C_E6E0);
    assert Regs(C, D, A, B) == RunWith(p, X, start, 58);
    C := p(3, C, D, A, B, X[6], 15, 0xA301_4314);
    assert Regs(B, C, D, A) == RunWith(p, X, start, 59);
    B := p(3, B, C, D, A, X[13], 21, 0x4E08_11A1);
    assert Regs(A, B, C, D) == RunWith(p, X, start, 60);
    A := p(3, A, B, C, D, X[4], 6, 0xF753_7E82);
    assert Regs(D, A, B, C) == RunWith(p, X, start, 61);
    D := p(3, D, A, B, C, X[11], 10, 0xBD3A_F235);
    assert Regs(C, D, A, B) == RunWith(p, X, start, 62);
    C := p(3, C, D, A, B, X[2], 15, 0x2AD7_D2BB);
    assert Regs(B, C, D, A) == RunWith(p, X, start, 63);
    B := p(3, B, C, D, A, X[9], 21, 0xEB86_D391);
    assert Regs(A, B, C, D) == RunWith(p, X, start, 64);
  }
}
