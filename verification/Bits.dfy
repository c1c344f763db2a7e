/** Machine words as bounded natural numbers, and the bits they hold.

    The C++ sources manipulate `uint8`, `uint32` and `uint64` words with shifts and
    bitwise operators.  A word is modelled as a natural number below 2^w, and every
    operator is defined digit by digit: `Up` doubles, `Shr` halves, `Low` keeps the low
    digits, `Or`, `And` and `Xor` combine digits.  `Lsb(x, n)` lists the low `n` bits of
    `x` from the least significant one, `Msb(x, n)` from the most significant one. */
module Bits {

  type byte = x: int | 0 <= x < 256
  type u32 = x: int | 0 <= x < 0x1_0000_0000
  type u64 = x: int | 0 <= x < 0x1_0000_0000_0000_0000

  const TWO32: nat := 0x1_0000_0000
  const TWO64: nat := 0x1_0000_0000_0000_0000

  function Pow2(n: nat): (p: nat)
    ensures p > 0
  {
    if n == 0 then 1 else 2 * Pow2(n - 1)
  }

  /** Bit `i` of `x`; bit 0 is the least significant. */
  predicate Bit(x: nat, i: nat) {
    if i == 0 then x % 2 == 1 else Bit(x / 2, i - 1)
  }

  function Digit(b: bool): nat {
    if b then 1 else 0
  }

  /** x * 2^n. */
  function Up(x: nat, n: nat): nat {
    if n == 0 then x else 2 * Up(x, n - 1)
  }

  /** x % 2^n. */
  function Low(x: nat, n: nat): nat {
    if n == 0 then 0 else x % 2 + 2 * Low(x / 2, n - 1)
  }

  /** `x >> n` of an unsigned word. */
  function Shr(x: nat, n: nat): nat {
    if n == 0 then x else Shr(x / 2, n - 1)
  }

  /** `x << n` in a word of `w` bits. */
  function Shl(x: nat, n: nat, w: nat): nat {
    Low(Up(x, n), w)
  }

  function Or(x: nat, y: nat): nat
    decreases x + y
  {
    if x == 0 && y == 0 then 0
    else Digit(x % 2 == 1 || y % 2 == 1) + 2 * Or(x / 2, y / 2)
  }

  function And(x: nat, y: nat): nat
    decreases x + y
  {
    if x == 0 && y == 0 then 0
    else Digit(x % 2 == 1 && y % 2 == 1) + 2 * And(x / 2, y / 2)
  }

  function Xor(x: nat, y: nat): nat
    decreases x + y
  {
    if x == 0 && y == 0 then 0
    else Digit((x % 2 == 1) != (y % 2 == 1)) + 2 * Xor(x / 2, y / 2)
  }

  // ---- powers of two ----

  lemma {:induction false} Pow2Mono(m: nat, n: nat)
    requires m <= n
    ensures Pow2(m) <= Pow2(n)
  {
    if m < n {
      Pow2Mono(m, n - 1);
    }
  }

  lemma Pow2Of8()
    ensures Pow2(8) == 256
  {
    assert Pow2(4) == 16;
  }

  lemma Pow2Of32()
    ensures Pow2(32) == TWO32
  {
    Pow2Of8();
    assert Pow2(12) == 0x1000;
    assert Pow2(16) == 0x1_0000;
    assert Pow2(20) == 0x10_0000;
    assert Pow2(24) == 0x100_0000;
    assert Pow2(28) == 0x1000_0000;
  }

  lemma Pow2Of64()
    ensures Pow2(64) == TWO64
  {
    Pow2Of32();
    assert Pow2(36) == 0x10_0000_0000;
    assert Pow2(40) == 0x100_0000_0000;
    assert Pow2(44) == 0x1000_0000_0000;
    assert Pow2(48) == 0x1_0000_0000_0000;
    assert Pow2(52) == 0x10_0000_0000_0000;
    assert Pow2(56) == 0x100_0000_0000_0000;
    assert Pow2(60) == 0x1000_0000_0000_0000;
  }

  /** `Low` and `Shr` are remainder and quotient by 2^n. */
  lemma {:induction false} DivisionByPow2(x: nat, n: nat)
    ensures x == Up(Shr(x, n), n) + Low(x, n) && Low(x, n) < Pow2(n)
    decreases n
  {
    if n > 0 {
      DivisionByPow2(x / 2, n - 1);
    }
  }

  lemma {:induction false} LowBound(x: nat, n: nat)
    ensures Low(x, n) < Pow2(n)
    decreases n
  {
    if n > 0 {
      LowBound(x / 2, n - 1);
    }
  }

  lemma {:induction false} LowUp(x: nat, k: nat, n: nat)
    requires k <= n
    ensures Low(Up(x, k), n) == Up(Low(x, n - k), k)
    decreases k
  {
    if k > 0 {
      LowUp(x, k - 1, n - 1);
    }
  }

  lemma {:induction false} LowLow(x: nat, a: nat, b: nat)
    requires b <= a
    ensures Low(Low(x, a), b) == Low(x, b)
    decreases b
  {
    if b > 0 {
      LowLow(x / 2, a - 1, b - 1);
    }
  }

  lemma {:induction false} LowSmall(x: nat, n: nat)
    requires x < Pow2(n)
    ensures Low(x, n) == x
    decreases n
  {
    if n > 0 {
      LowSmall(x / 2, n - 1);
    }
  }

  lemma {:induction false} ShrSmall(x: nat, n: nat)
    requires x < Pow2(n)
    ensures Shr(x, n) == 0
    decreases n
  {
    if n > 0 {
      ShrSmall(x / 2, n - 1);
    }
  }

  lemma {:induction false} ShrBound(x: nat, n: nat, k: nat)
    requires x < Pow2(n + k)
    ensures Shr(x, n) < Pow2(k)
    decreases n
  {
    if n > 0 {
      ShrBound(x / 2, n - 1, k);
    }
  }

  lemma {:induction false} ShrLess(x: nat, n: nat)
    ensures Shr(x, n) <= x
    decreases n
  {
    if n > 0 {
      ShrLess(x / 2, n - 1);
    }
  }

  lemma {:induction false} UpUp(x: nat, m: nat, n: nat)
    ensures Up(x, m + n) == Up(Up(x, m), n)
    decreases n
  {
    if n > 0 {
      UpUp(x, m, n - 1);
    }
  }

  lemma {:induction false} UpBound(x: nat, n: nat, k: nat)
    requires x < Pow2(k)
    ensures Up(x, n) + Pow2(n) <= Pow2(n + k)
  {
    if n > 0 {
      UpBound(x, n - 1, k);
    }
  }

  /** A shift that loses nothing. */
  lemma ShlExact(x: nat, n: nat, k: nat, w: nat)
    requires x < Pow2(k) && n + k <= w
    ensures Shl(x, n, w) == Up(x, n)
  {
    UpBound(x, n, k);
    Pow2Mono(n + k, w);
    LowSmall(Up(x, n), w);
  }

  // ---- the bits of the operators ----

  lemma {:induction false} BitOfZero(i: nat)
    ensures !Bit(0, i)
  {
    if i > 0 {
      BitOfZero(i - 1);
    }
  }

  lemma {:induction false} BitOr(x: nat, y: nat, i: nat)
    ensures Bit(Or(x, y), i) == (Bit(x, i) || Bit(y, i))
  {
    if x == 0 && y == 0 {
      BitOfZero(i);
    } else if i > 0 {
      BitOr(x / 2, y / 2, i - 1);
    }
  }

  lemma {:induction false} BitAnd(x: nat, y: nat, i: nat)
    ensures Bit(And(x, y), i) == (Bit(x, i) && Bit(y, i))
  {
    if x == 0 && y == 0 {
      BitOfZero(i);
    } else if i > 0 {
      BitAnd(x / 2, y / 2, i - 1);
    }
  }

  lemma {:induction false} BitXor(x: nat, y: nat, i: nat)
    ensures Bit(Xor(x, y), i) == (Bit(x, i) != Bit(y, i))
  {
    if x == 0 && y == 0 {
      BitOfZero(i);
    } else if i > 0 {
      BitXor(x / 2, y / 2, i - 1);
    }
  }

  lemma {:induction false} BitShr(x: nat, n: nat, i: nat)
    ensures Bit(Shr(x, n), i) == Bit(x, n + i)
    decreases n
  {
    if n > 0 {
      BitShr(x / 2, n - 1, i);
    }
  }

  lemma {:induction false} BitLow(x: nat, n: nat, i: nat)
    ensures Bit(Low(x, n), i) == (i < n && Bit(x, i))
    decreases n
  {
    if n == 0 {
      BitOfZero(i);
    } else if i > 0 {
      BitLow(x / 2, n - 1, i - 1);
    }
  }

  lemma {:induction false} BitUp(x: nat, n: nat, i: nat)
    ensures Bit(Up(x, n), i) == (i >= n && Bit(x, i - n))
    decreases n
  {
    if n > 0 && i > 0 {
      BitUp(x, n - 1, i - 1);
    }
  }

  lemma BitShl(x: nat, n: nat, w: nat, i: nat)
    ensures Bit(Shl(x, n, w), i) == (n <= i < w && Bit(x, i - n))
  {
    BitLow(Up(x, n), w, i);
    BitUp(x, n, i);
  }

  lemma {:induction false} BitHigh(x: nat, n: nat, i: nat)
    requires x < Pow2(n) && i >= n
    ensures !Bit(x, i)
    decreases n
  {
    if n == 0 {
      BitOfZero(i);
    } else {
      BitHigh(x / 2, n - 1, i - 1);
    }
  }

  lemma {:induction false} BitMask(n: nat, i: nat)
    ensures Bit(Pow2(n) - 1, i) == (i < n)
    decreases n
  {
    if n == 0 {
      BitOfZero(i);
    } else if i > 0 {
      assert (Pow2(n) - 1) / 2 == Pow2(n - 1) - 1;
      BitMask(n - 1, i - 1);
    }
  }

  /** Two words with the same bits are the same number. */
  lemma {:induction false} BitsEqual(x: nat, y: nat, n: nat)
    requires x < Pow2(n) && y < Pow2(n)
    requires forall i: nat :: i < n ==> Bit(x, i) == Bit(y, i)
    ensures x == y
    decreases n
  {
    if n > 0 {
      assert Bit(x, 0) == Bit(y, 0);
      forall i: nat | i < n - 1 ensures Bit(x / 2, i) == Bit(y / 2, i) {
        assert Bit(x, i + 1) == Bit(y, i + 1);
      }
      BitsEqual(x / 2, y / 2, n - 1);
    }
  }

  /** Words whose bits do not overlap are joined by `|` as by addition. */
  lemma {:induction false} OrDisjoint(x: nat, y: nat, n: nat)
    requires x < Pow2(n)
    ensures Or(x, Up(y, n)) == x + Up(y, n) == Or(Up(y, n), x)
    decreases n
  {
    if n == 0 {
      OrZero(y);
    } else {
      OrDisjoint(x / 2, y, n - 1);
    }
  }

  lemma {:induction false} OrZero(y: nat)
    ensures Or(0, y) == y == Or(y, 0)
    decreases y
  {
    if y > 0 {
      OrZero(y / 2);
    }
  }

  lemma {:induction false} OrBound(x: nat, y: nat, n: nat)
    requires x < Pow2(n) && y < Pow2(n)
    ensures Or(x, y) < Pow2(n)
    decreases n
  {
    if n > 0 {
      OrBound(x / 2, y / 2, n - 1);
    }
  }

  lemma {:induction false} XorBound(x: nat, y: nat, n: nat)
    requires x < Pow2(n) && y < Pow2(n)
    ensures Xor(x, y) < Pow2(n)
    decreases n
  {
    if n > 0 {
      XorBound(x / 2, y / 2, n - 1);
    }
  }

  lemma {:induction false} AndBound(x: nat, y: nat)
    ensures And(x, y) <= x && And(x, y) <= y
    decreases x + y
  {
    if x != 0 || y != 0 {
      AndBound(x / 2, y / 2);
    }
  }

  lemma {:induction false} AndMask(x: nat, n: nat)
    ensures And(x, Pow2(n) - 1) == Low(x, n)
    decreases n
  {
    if n == 0 {
      AndBound(x, 0);
    } else {
      assert (Pow2(n) - 1) / 2 == Pow2(n - 1) - 1;
      AndMask(x / 2, n - 1);
    }
  }

  lemma LowOf8(x: nat)
    ensures Low(x, 8) == x % 256
  {
    var q, r := Shr(x, 8), Low(x, 8);
    DivisionByPow2(x, 8);
    Pow2Of8();
    UpOf8(q);
    assert x == 256 * q + r && r < 256;
  }

  lemma AndByte(x: nat)
    ensures And(x, 0xFF) == x % 256
  {
    Pow2Of8();
    AndMask(x, 8);
    LowOf8(x);
  }

  // ---- bit sequences ----

  /** The low `n` bits of `x`, least significant first. */
  function Lsb(x: nat, n: nat): (s: seq<bool>)
    ensures |s| == n
  {
    if n == 0 then [] else [x % 2 == 1] + Lsb(x / 2, n - 1)
  }

  lemma {:induction false} LsbAt(x: nat, n: nat, i: nat)
    requires i < n
    ensures Lsb(x, n)[i] == Bit(x, i)
    decreases n
  {
    if i > 0 {
      LsbAt(x / 2, n - 1, i - 1);
    }
  }

  lemma {:induction false} LsbSplit(x: nat, m: nat, n: nat)
    ensures Lsb(x, m + n) == Lsb(x, m) + Lsb(Shr(x, m), n)
    decreases m
  {
    if m > 0 {
      LsbSplit(x / 2, m - 1, n);
    }
  }

  lemma {:induction false} LsbLow(x: nat, n: nat, w: nat)
    requires n <= w
    ensures Lsb(Low(x, w), n) == Lsb(x, n)
    decreases n
  {
    if n > 0 {
      LsbLow(x / 2, n - 1, w - 1);
    }
  }

  /** Appending the `n` low bits of `y` above the `m` bits of `x`. */
  lemma {:induction false} LsbJoin(x: nat, y: nat, m: nat, n: nat)
    requires x < Pow2(m)
    ensures Lsb(x + Up(y, m), m + n) == Lsb(x, m) + Lsb(y, n)
    decreases m
  {
    if m > 0 {
      assert (x + Up(y, m)) / 2 == x / 2 + Up(y, m - 1);
      LsbJoin(x / 2, y, m - 1, n);
    }
  }

  /** The bits of a byte string, each byte least significant bit first. */
  function BytesLsb(s: seq<byte>): (b: seq<bool>)
    ensures |b| == 8 * |s|
  {
    if s == [] then [] else Lsb(s[0], 8) + BytesLsb(s[1..])
  }

  lemma {:induction false} BytesLsbAt(s: seq<byte>, i: nat)
    requires i < 8 * |s|
    ensures BytesLsb(s)[i] == Bit(s[i / 8], i % 8)
  {
    if i < 8 {
      LsbAt(s[0], 8, i);
    } else {
      BytesLsbAt(s[1..], i - 8);
    }
  }

  lemma {:induction false} BytesLsbAppend(s: seq<byte>, t: seq<byte>)
    ensures BytesLsb(s + t) == BytesLsb(s) + BytesLsb(t)
  {
    if s == [] {
      assert s + t == t;
    } else {
      assert (s + t)[1..] == s[1..] + t;
      BytesLsbAppend(s[1..], t);
    }
  }

  // ---- numbered bits of a byte string ----

  /** Bit `p` of a byte string, numbered from the low bit of each byte. */
  predicate LowFirst(s: seq<byte>, p: nat)
    requires p < 8 * |s|
  {
    Bit(s[p / 8], p % 8)
  }

  /** Bit `p` of a byte string, numbered from the high bit of each byte. */
  predicate HighFirst(s: seq<byte>, p: nat)
    requires p < 8 * |s|
  {
    Bit(s[p / 8], 7 - p % 8)
  }

  // ---- little-endian words ----

  /** The word a `memcpy` from bytes `s` puts in memory. */
  function LoadLe(s: seq<byte>): (w: nat) {
    if s == [] then 0 else s[0] + 256 * LoadLe(s[1..])
  }

  /** Byte `k` of the word in memory. */
  function ByteAt(w: nat, k: nat): (b: byte)
    ensures forall j: nat :: Bit(b, j) == (j < 8 && Bit(w, 8 * k + j))
  {
    var b := Low(Shr(w, 8 * k), 8);
    LowBound(Shr(w, 8 * k), 8);
    Pow2Of8();
    assert forall j: nat :: Bit(b, j) == (j < 8 && Bit(w, 8 * k + j)) by {
      forall j: nat ensures Bit(b, j) == (j < 8 && Bit(w, 8 * k + j)) {
        BitLow(Shr(w, 8 * k), 8, j);
        BitShr(w, 8 * k, j);
      }
    }
    b
  }

  lemma {:induction false} BitLoadLe(s: seq<byte>, p: nat)
    requires p < 8 * |s|
    ensures Bit(LoadLe(s), p) == LowFirst(s, p)
    decreases s
  {
    BitLoadStep(s[0], LoadLe(s[1..]), p);
    if p >= 8 {
      BitLoadLe(s[1..], p - 8);
    }
  }

  lemma BitLoadStep(b: byte, w: nat, i: nat)
    ensures Bit(b + 256 * w, i) == if i < 8 then Bit(b, i) else Bit(w, i - 8)
  {
    Pow2Of8();
    UpOf8(w);
    OrDisjoint(b, w, 8);
    BitOr(b, Up(w, 8), i);
    BitUp(w, 8, i);
    if i >= 8 {
      BitHigh(b, 8, i);
    }
  }

  lemma UpOf8(y: nat)
    ensures Up(y, 8) == 256 * y
  {
    assert Up(y, 1) == 2 * y;
    assert Up(y, 2) == 4 * y;
    assert Up(y, 4) == 16 * y;
    assert Up(y, 6) == 64 * y;
  }

  lemma {:induction false} LoadLeBound(s: seq<byte>, n: nat)
    requires n == 8 * |s|
    ensures LoadLe(s) < Pow2(n)
    decreases s
  {
    if s != [] {
      LoadLeBound(s[1..], n - 8);
      Pow2Of8();
      UpOf8(LoadLe(s[1..]));
      UpBound(LoadLe(s[1..]), 8, n - 8);
    }
  }
}
