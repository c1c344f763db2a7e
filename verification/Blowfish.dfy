/** The packet cipher: a Blowfish with its own round function. */
module Blowfish {
  import opened Bits
  import opened Remainders

  // ---- one block ----

  /** The key-dependent tables: 18 words and four boxes of 256. */
  type PBox = P: seq<u32> | |P| == 18 witness seq(18, _ => 0)
  type SBox = S: seq<u32> | |S| == 1024 witness seq(1024, _ => 0)

  function LowByte(x: nat): (b: byte) {
    AndByte(x);
    And(x, 0xff)
  }

  lemma HighByte(x: u32)
    ensures Shr(x, 24) < 256
  {
    Pow2Of32();
    Pow2Of8();
    ShrBound(x, 24, 8);
  }

  function TT(working: u32, S: SBox): u32
  {
    HighByte(working);
    (Xor(And(S[256 + LowByte(Shr(working, 8))], 1), 32)
     + Xor(And(S[768 + Shr(working, 24)], 1), 32)
     + S[512 + LowByte(Shr(working, 16))]
     + S[LowByte(working)]) % TWO32
  }

  function XorWord(x: u32, y: u32): u32 {
    Pow2Of32();
    XorBound(x, y, 32);
    Xor(x, y)
  }

  // ---- the round function, from the bytes of its word ----

  /** The word without its low-order byte. */
  lemma ShrByte(x: nat, low: byte, rest: nat)
    requires x == low + 0x100 * rest
    ensures Shr(x, 8) == rest && LowByte(x) == low
  {
    var q := Shr(x, 8);
    DivisionByPow2(x, 8);
    UpOf8(q);
    LowOf8(x);
    AndByte(x);
    RemainderIs(x, 0x100, rest, low);
  }

  lemma {:induction false} ShrShr(x: nat, m: nat, n: nat)
    ensures Shr(x, m + n) == Shr(Shr(x, m), n)
  {
    if m > 0 {
      ShrShr(x / 2, m - 1, n);
    }
  }

  /** The bytes that pick the entries of the boxes. */
  lemma FourBytes(w: nat, a: byte, b: byte, c: byte, d: byte)
    requires w == a + 0x100 * b + 0x1_0000 * c + 0x100_0000 * d
    ensures LowByte(w) == a && LowByte(Shr(w, 8)) == b && LowByte(Shr(w, 16)) == c && Shr(w, 24) == d
  {
    var w1, w2, w3 := b + 0x100 * c + 0x1_0000 * d, c + 0x100 * d, d as nat;
    ShrByte(w, a, w1);
    ShrByte(w1, b, w2);
    ShrByte(w2, c, w3);
    ShrShr(w, 8, 8);
    ShrShr(w, 16, 8);
  }

  /** The low bit of an entry, with 32 put on top. */
  lemma LowBitAnd32(v: nat)
    ensures Xor(And(v, 1), 32) == 32 + v % 2
  {
    assert Pow2(1) == 2 && Low(v, 1) == v % 2;
    AndMask(v, 1);
    assert Xor(0, 1) == 1 && Xor(0, 2) == 2 && Xor(0, 4) == 4 && Xor(0, 8) == 8 && Xor(0, 16) == 16;
    assert Xor(0, 32) == 32 && Xor(1, 32) == 33;
  }

  /** Boxes 0 and 2 count in full, boxes 1 and 3 by their low bits, each indexed by its own byte of the word. */
  lemma TTOfBytes(w: u32, S: SBox, a: byte, b: byte, c: byte, d: byte)
    requires w == a + 0x100 * b + 0x1_0000 * c + 0x100_0000 * d
    ensures TT(w, S) == (S[a] + (32 + S[256 + b] % 2) + S[512 + c] + (32 + S[768 + d] % 2)) % TWO32
  {
    FourBytes(w, a, b, c, d);
    LowBitAnd32(S[256 + b]);
    LowBitAnd32(S[768 + d]);
  }

  /** Every bit of the one word is flipped where the other has a one. */
  lemma XorWordBit(x: u32, y: u32, i: nat)
    ensures Bit(XorWord(x, y), i) == (Bit(x, i) != Bit(y, i))
  {
    BitXor(x, y, i);
  }

  const ROUNDS: nat := 16

  datatype Block = Block(l: u32, r: u32)

  /** One round of the loop: the left half is keyed, mixed into the right, and they swap. */
  function Round(b: Block, key: u32, S: SBox): Block
  {
    var x := XorWord(b.l, key);
    Block(XorWord(TT(x, S), b.r), x)
  }

  /** `n` rounds with the keys in ascending order. */
  function Rounds(b: Block, P: PBox, S: SBox, n: nat): Block
    requires n <= 16
  {
    if n == 0 then b else Round(Rounds(b, P, S, n - 1), P[n - 1], S)
  }

  /** The halves exchanged and the last two keys put on them. */
  function Exchanged(c: Block, k: u32, m: u32): Block
  {
    Block(XorWord(c.r, k), XorWord(c.l, m))
  }

  /** The last swap undone and the last two keys added. */
  function Encipher(b: Block, P: PBox, S: SBox): Block
  {
    Exchanged(Rounds(b, P, S, ROUNDS), P[17], P[16])
  }

  /** `n` rounds with the keys in descending order from P[17]. */
  function BackRounds(b: Block, P: PBox, S: SBox, n: nat): Block
    requires n <= 16
  {
    if n == 0 then b else Round(BackRounds(b, P, S, n - 1), P[18 - n], S)
  }

  function Decipher(b: Block, P: PBox, S: SBox): Block
  {
    Exchanged(BackRounds(b, P, S, ROUNDS), P[0], P[1])
  }

  /** One round in terms of the words: what it adds to the right half, and how the halves change places. */
  predicate IsRound(b: Block, c: Block, key: u32, S: SBox)
  {
    c.r == XorWord(b.l, key) && c.l == XorWord(b.r, TT(XorWord(b.l, key), S))
  }

  lemma {:induction false} RoundTrace(b: Block, P: PBox, S: SBox, n: nat) returns (t: seq<Block>)
    requires n <= 16
    ensures |t| == n + 1 && t[0] == b && t[n] == Rounds(b, P, S, n)
    ensures forall i :: 0 <= i < n ==> IsRound(t[i], t[i + 1], P[i], S)
  {
    if n == 0 {
      t := [b];
    } else {
      t := RoundTrace(b, P, S, n - 1);
      RoundIs(t[n - 1], P[n - 1], S);
      t := t + [Round(t[n - 1], P[n - 1], S)];
    }
  }

  lemma RoundIs(b: Block, key: u32, S: SBox)
    ensures IsRound(b, Round(b, key, S), key, S)
  {
    XorSymmetric(TT(XorWord(b.l, key), S), b.r);
  }

  lemma {:induction false} XorSymmetric(x: nat, y: nat)
    ensures Xor(x, y) == Xor(y, x)
    decreases x + y
  {
    if x > 0 || y > 0 {
      XorSymmetric(x / 2, y / 2);
    }
  }

  /** Enciphering is sixteen rounds, the halves exchanged once more, and the last two words of P put on them. */
  lemma SixteenRounds(b: Block, P: PBox, S: SBox) returns (t: seq<Block>)
    ensures |t| == 17 && t[0] == b
    ensures forall i :: 0 <= i < 16 ==> IsRound(t[i], t[i + 1], P[i], S)
    ensures Encipher(b, P, S) == Block(XorWord(t[16].r, P[17]), XorWord(t[16].l, P[16]))
  {
    t := RoundTrace(b, P, S, ROUNDS);
  }

  // ---- deciphering undoes enciphering ----

  lemma XorHalves(x: nat, y: nat)
    ensures Xor(x, y) / 2 == Xor(x / 2, y / 2)
    ensures Xor(x, y) % 2 == if x % 2 == y % 2 then 0 else 1
  {
  }

  lemma {:induction false} XorTwice(x: nat, y: nat)
    ensures Xor(Xor(x, y), y) == x
    decreases x + y
  {
    XorHalves(x, y);
    XorHalves(Xor(x, y), y);
    if x > 0 || y > 0 {
      XorTwice(x / 2, y / 2);
    }
  }

  lemma {:induction false} XorTwiceBefore(x: nat, y: nat)
    ensures Xor(y, Xor(y, x)) == x
    decreases x + y
  {
    XorHalves(y, x);
    XorHalves(y, Xor(y, x));
    if x > 0 || y > 0 {
      XorTwiceBefore(x / 2, y / 2);
    }
  }

  lemma {:induction false} XorAssociative(x: nat, y: nat, z: nat)
    ensures Xor(Xor(x, y), z) == Xor(x, Xor(y, z))
    decreases x + y + z
  {
    XorHalves(x, y);
    XorHalves(y, z);
    XorHalves(Xor(x, y), z);
    XorHalves(x, Xor(y, z));
    if x > 0 || y > 0 || z > 0 {
      XorAssociative(x / 2, y / 2, z / 2);
    }
  }

  lemma XorCancels(t: u32, x: u32, p: u32)
    ensures XorWord(XorWord(x, p), p) == x
    ensures XorWord(t, XorWord(XorWord(t, x), p)) == XorWord(x, p)
  {
    XorTwice(x, p);
    XorAssociative(t, x, p);
    XorTwiceBefore(Xor(x, p), t);
  }

  /** The right half before round `i + 1`, keyed: what the descending rounds come back to. */
  function Keyed(b: Block, P: PBox, S: SBox, i: nat): u32
    requires i <= 17
  {
    if i == 0 then b.r else XorWord(Rounds(b, P, S, i - 1).l, P[i - 1])
  }

  /** After `j` descending rounds of an enciphered block. */
  lemma {:induction false} WayBack(b: Block, P: PBox, S: SBox, j: nat)
    requires j <= 16
    ensures BackRounds(Encipher(b, P, S), P, S, j) ==
            Block(XorWord(Keyed(b, P, S, 16 - j), P[17 - j]), Keyed(b, P, S, 17 - j))
  {
    if j > 0 {
      var e := Encipher(b, P, S);
      WayBack(b, P, S, j - 1);
      WayBackStep(b, P, S, 17 - j);
      assert BackRounds(e, P, S, j) == Round(BackRounds(e, P, S, j - 1), P[18 - j], S);
    } else {
      WayBackStart(b, P, S);
    }
  }

  lemma WayBackStart(b: Block, P: PBox, S: SBox)
    ensures Encipher(b, P, S) == Block(XorWord(Keyed(b, P, S, 16), P[17]), Keyed(b, P, S, 17))
  {
    var fifteen := 15;
    assert Rounds(b, P, S, fifteen + 1) == Round(Rounds(b, P, S, fifteen), P[fifteen], S);
  }

  lemma WayBackStep(b: Block, P: PBox, S: SBox, i: nat)
    requires 1 <= i <= 16
    ensures Round(Block(XorWord(Keyed(b, P, S, i), P[i + 1]), Keyed(b, P, S, i + 1)), P[i + 1], S) ==
            Block(XorWord(Keyed(b, P, S, i - 1), P[i]), Keyed(b, P, S, i))
  {
    var k := Keyed(b, P, S, i);
    var before := Rounds(b, P, S, i - 1);
    assert Rounds(b, P, S, i) == Round(before, P[i - 1], S);
    assert Keyed(b, P, S, i + 1) == XorWord(XorWord(TT(k, S), before.r), P[i]);
    assert before.r == Keyed(b, P, S, i - 1);
    XorCancels(TT(k, S), before.r, P[i]);
    XorCancels(0, k, P[i + 1]);
  }

  lemma DecipherEncipher(b: Block, P: PBox, S: SBox)
    ensures Decipher(Encipher(b, P, S), P, S) == b
  {
    WayBack(b, P, S, 16);
    XorCancels(0, b.r, P[1]);
    XorCancels(0, b.l, P[0]);
    assert Keyed(b, P, S, 1) == XorWord(b.l, P[0]);
  }

  function Backwards(P: PBox): (Q: PBox)
    ensures forall i :: 0 <= i < 18 ==> Q[i] == P[17 - i]
  {
    seq(18, i requires 0 <= i < 18 => P[17 - i])
  }

  lemma {:induction false} BackRoundsAreRounds(b: Block, P: PBox, S: SBox, n: nat)
    requires n <= 16
    ensures BackRounds(b, P, S, n) == Rounds(b, Backwards(P), S, n)
  {
    if n > 0 {
      BackRoundsAreRounds(b, P, S, n - 1);
    }
  }

  /** Deciphering is enciphering with the keys the other way round. */
  lemma DecipherIsEncipher(b: Block, P: PBox, S: SBox)
    ensures Decipher(b, P, S) == Encipher(b, Backwards(P), S)
  {
    BackRoundsAreRounds(b, P, S, 16);
  }

  lemma EncipherDecipher(b: Block, P: PBox, S: SBox)
    ensures Encipher(Decipher(b, P, S), P, S) == b
  {
    DecipherEncipher(b, Backwards(P), S);
    DecipherIsEncipher(b, P, S);
    DecipherIsEncipher(Encipher(b, Backwards(P), S), Backwards(P), S);
    assert Backwards(Backwards(P)) == P;
  }

  // ---- the scalar routines ----

  /** The three statements of a round, with the swap folded in. */
  method OneRound(L: u32, R: u32, key: u32, S: array<u32>) returns (Xl: u32, Xr: u32)
    requires S.Length == 1024
    ensures Block(Xl, Xr) == Round(Block(L, R), key, S[..])
  {
    Xl := XorWord(L, key);
    var t := XorWord(TT(Xl, S[..]), R);
    Xr := Xl;
    Xl := t;
  }

  method BlowfishEncipher(xl: u32, xr: u32, P: array<u32>, S: array<u32>) returns (l: u32, r: u32)
    requires P.Length == 18 && S.Length == 1024
    ensures Block(l, r) == Encipher(Block(xl, xr), P[..], S[..])
  {
    var Xl, Xr := xl, xr;
    for i := 0 to ROUNDS
      invariant Block(Xl, Xr) == Rounds(Block(xl, xr), P[..], S[..], i)
    {
      Xl := XorWord(Xl, P[i]);
      Xr := XorWord(TT(Xl, S[..]), Xr);
      Xl, Xr := Xr, Xl;
    }
    Xl, Xr := Xr, Xl;
    Xr := XorWord(Xr, P[16]);
    Xl := XorWord(Xl, P[17]);
    return Xl, Xr;
  }

  method BlowfishDecipher(xl: u32, xr: u32, P: array<u32>, S: array<u32>) returns (l: u32, r: u32)
    requires P.Length == 18 && S.Length == 1024
    ensures Block(l, r) == Decipher(Block(xl, xr), P[..], S[..])
  {
    var Xl, Xr := xl, xr;
    var i := 17;
    while i > 1
      invariant 1 <= i <= 17
      invariant Block(Xl, Xr) == BackRounds(Block(xl, xr), P[..], S[..], 17 - i)
    {
      Xl := XorWord(Xl, P[i]);
      Xr := XorWord(TT(Xl, S[..]), Xr);
      Xl, Xr := Xr, Xl;
      i := i - 1;
    }
    Xl, Xr := Xr, Xl;
    Xr := XorWord(Xr, P[1]);
    Xl := XorWord(Xl, P[0]);
    return Xl, Xr;
  }

  // ---- whole buffers ----

  function BlockAt(s: seq<u32>, k: nat): Block
    requires 2 * k + 1 < |s|
  {
    Block(s[2 * k], s[2 * k + 1])
  }

  /** The first `count` blocks are changed one by one, the rest is as it was. */
  ghost predicate Mapped(before: seq<u32>, after: seq<u32>, count: nat, f: Block -> Block)
  {
    && 2 * count <= |before| == |after|
    && (forall k: nat :: k < count ==> BlockAt(after, k) == f(BlockAt(before, k)))
    && (forall i :: 2 * count <= i < |before| ==> after[i] == before[i])
  }

  function EncipherWith(P: PBox, S: SBox): Block -> Block
  {
    b => Encipher(b, P, S)
  }

  function DecipherWith(P: PBox, S: SBox): Block -> Block
  {
    b => Decipher(b, P, S)
  }

  /** The first `count` blocks are enciphered. */
  ghost predicate Enciphered(before: seq<u32>, after: seq<u32>, count: nat, P: PBox, S: SBox)
  {
    Mapped(before, after, count, EncipherWith(P, S))
  }

  /** The first `count` blocks are deciphered. */
  ghost predicate Deciphered(before: seq<u32>, after: seq<u32>, count: nat, P: PBox, S: SBox)
  {
    Mapped(before, after, count, DecipherWith(P, S))
  }

  /** Four blocks after `i` rounds each. */
  ghost predicate FourAt(b0: Block, b1: Block, b2: Block, b3: Block, c0: Block, c1: Block, c2: Block, c3: Block,
                         P: PBox, S: SBox, i: nat)
    requires i <= ROUNDS
  {
    && c0 == Rounds(b0, P, S, i) && c1 == Rounds(b1, P, S, i)
    && c2 == Rounds(b2, P, S, i) && c3 == Rounds(b3, P, S, i)
  }

  lemma FourNext(b0: Block, b1: Block, b2: Block, b3: Block, c0: Block, c1: Block, c2: Block, c3: Block,
                 P: PBox, S: SBox, i: nat)
    requires i < ROUNDS && FourAt(b0, b1, b2, b3, c0, c1, c2, c3, P, S, i)
    ensures FourAt(b0, b1, b2, b3, Round(c0, P[i], S), Round(c1, P[i], S), Round(c2, P[i], S), Round(c3, P[i], S),
                   P, S, i + 1)
  {
  }

  ghost predicate FourBackAt(b0: Block, b1: Block, b2: Block, b3: Block, c0: Block, c1: Block, c2: Block, c3: Block,
                             P: PBox, S: SBox, i: nat)
    requires i <= ROUNDS
  {
    && c0 == BackRounds(b0, P, S, i) && c1 == BackRounds(b1, P, S, i)
    && c2 == BackRounds(b2, P, S, i) && c3 == BackRounds(b3, P, S, i)
  }

  lemma FourBackNext(b0: Block, b1: Block, b2: Block, b3: Block, c0: Block, c1: Block, c2: Block, c3: Block,
                     P: PBox, S: SBox, i: nat)
    requires i < ROUNDS && FourBackAt(b0, b1, b2, b3, c0, c1, c2, c3, P, S, i)
    ensures FourBackAt(b0, b1, b2, b3, Round(c0, P[17 - i], S), Round(c1, P[17 - i], S),
                       Round(c2, P[17 - i], S), Round(c3, P[17 - i], S), P, S, i + 1)
  {
  }

  /** One round of each of four blocks, side by side. */
  method FourRounds(c0: Block, c1: Block, c2: Block, c3: Block, key: u32, S: array<u32>)
    returns (d0: Block, d1: Block, d2: Block, d3: Block)
    requires S.Length == 1024
    ensures d0 == Round(c0, key, S[..]) && d1 == Round(c1, key, S[..])
    ensures d2 == Round(c2, key, S[..]) && d3 == Round(c3, key, S[..])
  {
    var L0, R0 := OneRound(c0.l, c0.r, key, S);
    var L1, R1 := OneRound(c1.l, c1.r, key, S);
    var L2, R2 := OneRound(c2.l, c2.r, key, S);
    var L3, R3 := OneRound(c3.l, c3.r, key, S);
    return Block(L0, R0), Block(L1, R1), Block(L2, R2), Block(L3, R3);
  }

  /** The four-way interleaved round loop of blowfish_encipher_blocks. */
  method EncipherFour(b0: Block, b1: Block, b2: Block, b3: Block, P: array<u32>, S: array<u32>)
    returns (e0: Block, e1: Block, e2: Block, e3: Block)
    requires P.Length == 18 && S.Length == 1024
    ensures e0 == Encipher(b0, P[..], S[..]) && e1 == Encipher(b1, P[..], S[..])
    ensures e2 == Encipher(b2, P[..], S[..]) && e3 == Encipher(b3, P[..], S[..])
  {
    var c0, c1, c2, c3 := b0, b1, b2, b3;
    for i := 0 to ROUNDS
      invariant FourAt(b0, b1, b2, b3, c0, c1, c2, c3, P[..], S[..], i)
    {
      FourNext(b0, b1, b2, b3, c0, c1, c2, c3, P[..], S[..], i);
      c0, c1, c2, c3 := FourRounds(c0, c1, c2, c3, P[i], S);
    }
    e0, e1 := Exchanged(c0, P[17], P[16]), Exchanged(c1, P[17], P[16]);
    e2, e3 := Exchanged(c2, P[17], P[16]), Exchanged(c3, P[17], P[16]);
  }

  /** The four-way interleaved round loop of blowfish_decipher_blocks. */
  method DecipherFour(b0: Block, b1: Block, b2: Block, b3: Block, P: array<u32>, S: array<u32>)
    returns (e0: Block, e1: Block, e2: Block, e3: Block)
    requires P.Length == 18 && S.Length == 1024
    ensures e0 == Decipher(b0, P[..], S[..]) && e1 == Decipher(b1, P[..], S[..])
    ensures e2 == Decipher(b2, P[..], S[..]) && e3 == Decipher(b3, P[..], S[..])
  {
    var c0, c1, c2, c3 := b0, b1, b2, b3;
    var i := 17;
    while i > 1
      invariant 1 <= i <= 17
      invariant FourBackAt(b0, b1, b2, b3, c0, c1, c2, c3, P[..], S[..], 17 - i)
    {
      FourBackNext(b0, b1, b2, b3, c0, c1, c2, c3, P[..], S[..], 17 - i);
      c0, c1, c2, c3 := FourRounds(c0, c1, c2, c3, P[i], S);
      i := i - 1;
    }
    e0, e1 := Exchanged(c0, P[0], P[1]), Exchanged(c1, P[0], P[1]);
    e2, e3 := Exchanged(c2, P[0], P[1]), Exchanged(c3, P[0], P[1]);
  }

  ghost predicate StoredFour(now: seq<u32>, after: seq<u32>, at: nat, e0: Block, e1: Block, e2: Block, e3: Block) {
    && at + 8 <= |now| == |after|
    && after[at] == e0.l && after[at + 1] == e0.r && after[at + 2] == e1.l && after[at + 3] == e1.r
    && after[at + 4] == e2.l && after[at + 5] == e2.r && after[at + 6] == e3.l && after[at + 7] == e3.r
    && forall i :: 0 <= i < |now| && !(at <= i < at + 8) ==> after[i] == now[i]
  }

  lemma StoredBlocks(now: seq<u32>, after: seq<u32>, b: nat, e0: Block, e1: Block, e2: Block, e3: Block)
    requires StoredFour(now, after, 2 * b, e0, e1, e2, e3)
    ensures BlockAt(after, b) == e0 && BlockAt(after, b + 1) == e1
    ensures BlockAt(after, b + 2) == e2 && BlockAt(after, b + 3) == e3
    ensures forall k: nat :: k < b ==> BlockAt(after, k) == BlockAt(now, k)
    ensures forall i :: 2 * b + 8 <= i < |now| ==> after[i] == now[i]
  {
  }

  method StoreFour(data: array<u32>, at: nat, e0: Block, e1: Block, e2: Block, e3: Block)
    requires at + 8 <= data.Length
    modifies data
    ensures StoredFour(old(data[..]), data[..], at, e0, e1, e2, e3)
  {
    data[at], data[at + 1], data[at + 2], data[at + 3] := e0.l, e0.r, e1.l, e1.r;
    data[at + 4], data[at + 5], data[at + 6], data[at + 7] := e2.l, e2.r, e3.l, e3.r;
  }

  lemma MappedOne(before: seq<u32>, now: seq<u32>, after: seq<u32>, b: nat, f: Block -> Block)
    requires Mapped(before, now, b, f) && 2 * b + 2 <= |before| == |after|
    requires BlockAt(after, b) == f(BlockAt(now, b))
    requires forall i :: 0 <= i < |now| && i != 2 * b && i != 2 * b + 1 ==> after[i] == now[i]
    ensures Mapped(before, after, b + 1, f)
  {
    forall k: nat | k < b + 1 ensures BlockAt(after, k) == f(BlockAt(before, k)) {
      if k < b {
        assert BlockAt(after, k) == BlockAt(now, k);
      } else {
        assert BlockAt(now, b) == BlockAt(before, b);
      }
    }
  }

  lemma MappedFour(before: seq<u32>, now: seq<u32>, after: seq<u32>, b: nat, f: Block -> Block,
                   e0: Block, e1: Block, e2: Block, e3: Block)
    requires Mapped(before, now, b, f) && 2 * b + 8 <= |before|
    requires StoredFour(now, after, 2 * b, e0, e1, e2, e3)
    requires e0 == f(BlockAt(now, b)) && e1 == f(BlockAt(now, b + 1))
    requires e2 == f(BlockAt(now, b + 2)) && e3 == f(BlockAt(now, b + 3))
    ensures Mapped(before, after, b + 4, f)
  {
    StoredBlocks(now, after, b, e0, e1, e2, e3);
    forall k: nat | k < b + 4 ensures BlockAt(after, k) == f(BlockAt(before, k)) {
      if k < b {
        assert BlockAt(after, k) == BlockAt(now, k);
      } else {
        assert BlockAt(now, k) == BlockAt(before, k);
        assert k == b || k == b + 1 || k == b + 2 || k == b + 3;
      }
    }
  }

  /** Four blocks at once. */
  method EncipherNextFour(data: array<u32>, b: nat, P: array<u32>, S: array<u32>, ghost before: seq<u32>)
    requires P.Length == 18 && S.Length == 1024 && data != P && data != S
    requires Enciphered(before, data[..], b, P[..], S[..]) && 2 * b + 8 <= data.Length
    modifies data
    ensures Enciphered(before, data[..], b + 4, P[..], S[..])
  {
    var at := b * 2;
    ghost var now := data[..];
    var b0, b1 := Block(data[at], data[at + 1]), Block(data[at + 2], data[at + 3]);
    var b2, b3 := Block(data[at + 4], data[at + 5]), Block(data[at + 6], data[at + 7]);
    var e0, e1, e2, e3 := EncipherFour(b0, b1, b2, b3, P, S);
    StoreFour(data, at, e0, e1, e2, e3);
    MappedFour(before, now, data[..], b, EncipherWith(P[..], S[..]), e0, e1, e2, e3);
  }

  /** One block, by the scalar routine. */
  method EncipherNext(data: array<u32>, b: nat, P: array<u32>, S: array<u32>, ghost before: seq<u32>)
    requires P.Length == 18 && S.Length == 1024 && data != P && data != S
    requires Enciphered(before, data[..], b, P[..], S[..]) && 2 * b + 2 <= data.Length
    modifies data
    ensures Enciphered(before, data[..], b + 1, P[..], S[..])
  {
    ghost var now := data[..];
    var l, r := BlowfishEncipher(data[b * 2], data[b * 2 + 1], P, S);
    data[b * 2], data[b * 2 + 1] := l, r;
    MappedOne(before, now, data[..], b, EncipherWith(P[..], S[..]));
  }

  method EncipherBlocks(data: array<u32>, count: nat, P: array<u32>, S: array<u32>)
    requires P.Length == 18 && S.Length == 1024 && data != P && data != S
    requires 2 * count <= data.Length
    modifies data
    ensures Enciphered(old(data[..]), data[..], count, P[..], S[..])
  {
    var b := 0;
    ghost var before := data[..];
    while b + 4 <= count
      invariant b <= count && Enciphered(before, data[..], b, P[..], S[..])
    {
      EncipherNextFour(data, b, P, S, before);
      b := b + 4;
    }
    while b < count
      invariant b <= count && Enciphered(before, data[..], b, P[..], S[..])
    {
      EncipherNext(data, b, P, S, before);
      b := b + 1;
    }
  }

  /** Four blocks at once. */
  method DecipherNextFour(data: array<u32>, b: nat, P: array<u32>, S: array<u32>, ghost before: seq<u32>)
    requires P.Length == 18 && S.Length == 1024 && data != P && data != S
    requires Deciphered(before, data[..], b, P[..], S[..]) && 2 * b + 8 <= data.Length
    modifies data
    ensures Deciphered(before, data[..], b + 4, P[..], S[..])
  {
    var at := b * 2;
    ghost var now := data[..];
    var b0, b1 := Block(data[at], data[at + 1]), Block(data[at + 2], data[at + 3]);
    var b2, b3 := Block(data[at + 4], data[at + 5]), Block(data[at + 6], data[at + 7]);
    var e0, e1, e2, e3 := DecipherFour(b0, b1, b2, b3, P, S);
    StoreFour(data, at, e0, e1, e2, e3);
    MappedFour(before, now, data[..], b, DecipherWith(P[..], S[..]), e0, e1, e2, e3);
  }

  /** One block, by the scalar routine. */
  method DecipherNext(data: array<u32>, b: nat, P: array<u32>, S: array<u32>, ghost before: seq<u32>)
    requires P.Length == 18 && S.Length == 1024 && data != P && data != S
    requires Deciphered(before, data[..], b, P[..], S[..]) && 2 * b + 2 <= data.Length
    modifies data
    ensures Deciphered(before, data[..], b + 1, P[..], S[..])
  {
    ghost var now := data[..];
    var l, r := BlowfishDecipher(data[b * 2], data[b * 2 + 1], P, S);
    data[b * 2], data[b * 2 + 1] := l, r;
    MappedOne(before, now, data[..], b, DecipherWith(P[..], S[..]));
  }

  method DecipherBlocks(data: array<u32>, count: nat, P: array<u32>, S: array<u32>)
    requires P.Length == 18 && S.Length == 1024 && data != P && data != S
    requires 2 * count <= data.Length
    modifies data
    ensures Deciphered(old(data[..]), data[..], count, P[..], S[..])
  {
    var b := 0;
    ghost var before := data[..];
    while b + 4 <= count
      invariant b <= count && Deciphered(before, data[..], b, P[..], S[..])
    {
      DecipherNextFour(data, b, P, S, before);
      b := b + 4;
    }
    while b < count
      invariant b <= count && Deciphered(before, data[..], b, P[..], S[..])
    {
      DecipherNext(data, b, P, S, before);
      b := b + 1;
    }
  }

  /** Deciphering an enciphered buffer gives it back, whatever the tables and the count. */
  lemma BuffersRoundTrip(before: seq<u32>, middle: seq<u32>, after: seq<u32>, count: nat, P: PBox, S: SBox)
    requires Enciphered(before, middle, count, P, S) && Deciphered(middle, after, count, P, S)
    ensures after == before
  {
    forall i | 0 <= i < |before| ensures after[i] == before[i] {
      if i < 2 * count {
        var k := i / 2;
        DecipherEncipher(BlockAt(before, k), P, S);
        assert BlockAt(after, k) == BlockAt(before, k);
      }
    }
  }

  /** And the other way round. */
  lemma BuffersRoundTripBack(before: seq<u32>, middle: seq<u32>, after: seq<u32>, count: nat, P: PBox, S: SBox)
    requires Deciphered(before, middle, count, P, S) && Enciphered(middle, after, count, P, S)
    ensures after == before
  {
    forall i | 0 <= i < |before| ensures after[i] == before[i] {
      if i < 2 * count {
        var k := i / 2;
        EncipherDecipher(BlockAt(before, k), P, S);
        assert BlockAt(after, k) == BlockAt(before, k);
      }
    }
  }

  // ---- the key schedule ----

  /** The bytes of the source's fixed table: 18 words for P, 1024 for S. */
  const SUBKEY_SIZE := 4168

  /** The pairs of words overwritten: 9 in P, 512 in S. */
  const PAIRS: nat := 521

  function TableWord(subkey: seq<byte>, at: nat): u32
    requires at + 4 <= |subkey|
  {
    LoadLeBound(subkey[at..at + 4], 32);
    Pow2Of32();
    LoadLe(subkey[at..at + 4])
  }

  /** A signed key byte as the 32-bit word it is promoted to. */
  function SignExtended(c: int): (w: u32)
    requires -128 <= c < 128
    ensures (w - c) % 0x100 == 0 && w / 0x100 == if c < 0 then 0xFF_FFFF else 0
  {
    if c < 0 then c + TWO32 else c
  }

  type int8 = c: int | -128 <= c < 128

  /** The key is read round and round; a key size below one reads the first byte only. */
  function Period(keybytes: int): (p: nat)
    ensures p >= 1
  {
    if keybytes < 1 then 1 else keybytes
  }

  function KeyByte(key: seq<int8>, keybytes: int, n: nat): int8
    requires |key| >= Period(keybytes)
  {
    key[n % Period(keybytes)]
  }

  /** `(data << 8) | key[j]`. */
  function ShiftIn(data: u32, c: int8): u32 {
    LowBound(Up(data, 8), 32);
    Pow2Of32();
    OrBound(Shl(data, 8, 32), SignExtended(c), 32);
    Or(Shl(data, 8, 32), SignExtended(c))
  }

  /** The byte takes the low eight bits; above it stand the bits that were there, or ones if it is negative. */
  lemma ShiftInBit(data: u32, c: int8, i: nat)
    requires i < 32
    ensures Bit(ShiftIn(data, c), i) ==
            if i < 8 then Bit(c % 0x100, i) else c < 0 || Bit(data, i - 8)
  {
    BitOr(Shl(data, 8, 32), SignExtended(c), i);
    BitShl(data, 8, 32, i);
    SignBits(c, i);
  }

  lemma SignBits(c: int8, i: nat)
    requires i < 32
    ensures Bit(SignExtended(c), i) == if i < 8 then Bit(c % 0x100, i) else c < 0
  {
    var w, low := SignExtended(c), c % 0x100;
    LowOf8(w);
    BitLow(w, 8, i);
    if i >= 8 {
      ShrByte(w, low, w / 0x100);
      BitShr(w, 8, i - 8);
      if c < 0 {
        assert Pow2(4) == 16;
        Pow2Of8();
        Pow2Of24();
        BitMask(24, i - 8);
      } else {
        BitOfZero(i - 8);
      }
    }
  }

  lemma Pow2Of24()
    ensures Pow2(24) == 0x100_0000
  {
    assert Pow2(4) == 16;
    assert Pow2(8) == 256;
    assert Pow2(12) == 4096;
    assert Pow2(16) == 0x1_0000;
    assert Pow2(20) == 0x10_0000;
  }

  /** A word of the fixed table, low-order byte first. */
  lemma TableWordOfBytes(subkey: seq<byte>, at: nat, a: byte, b: byte, c: byte, d: byte)
    requires at + 4 <= |subkey| && subkey[at..at + 4] == [a, b, c, d]
    ensures TableWord(subkey, at) == a + 0x100 * b + 0x1_0000 * c + 0x100_0000 * d
  {
    assert [a, b, c, d][1..] == [b, c, d] && [b, c, d][1..] == [c, d] && [c, d][1..] == [d] && [d][1..] == [];
    assert LoadLe([d]) == d;
    assert LoadLe([c, d]) == c + 0x100 * d;
    assert LoadLe([b, c, d]) == b + 0x100 * c + 0x1_0000 * d;
  }

  /** The key bytes that go into one word. */
  const WORD_BYTES: nat := 4

  function Folded(key: seq<int8>, keybytes: int, i: nat, k: nat): u32
    requires |key| >= Period(keybytes)
  {
    if k == 0 then 0
    else ShiftIn(Folded(key, keybytes, i, k - 1), KeyByte(key, keybytes, 4 * i + k - 1))
  }

  /** P before the enciphering passes: the fixed words, each with four key bytes. */
  function KeyedWord(subkey: seq<byte>, key: seq<int8>, keybytes: int, i: nat): u32
    requires |subkey| == SUBKEY_SIZE && |key| >= Period(keybytes) && i < 18
  {
    XorWord(TableWord(subkey, 4 * i), Folded(key, keybytes, i, WORD_BYTES))
  }

  function KeyedP(subkey: seq<byte>, key: seq<int8>, keybytes: int): (P: PBox)
    requires |subkey| == SUBKEY_SIZE && |key| >= Period(keybytes)
  {
    seq(18, i requires 0 <= i < 18 => KeyedWord(subkey, key, keybytes, i))
  }

  function FixedS(subkey: seq<byte>): (S: SBox)
    requires |subkey| == SUBKEY_SIZE
  {
    seq(1024, i requires 0 <= i < 1024 => TableWord(subkey, 72 + 4 * i))
  }

  /** The tables and the running block. */
  datatype Schedule = Schedule(P: PBox, S: SBox, b: Block)

  function Start(subkey: seq<byte>, key: seq<int8>, keybytes: int): (s: Schedule)
    requires |subkey| == SUBKEY_SIZE && |key| >= Period(keybytes)
  {
    Schedule(KeyedP(subkey, key, keybytes), FixedS(subkey), Block(0, 0))
  }

  /** `n` pairs of words overwritten, first those of P, then those of S; every block is
      enciphered under the tables as they are by then. */
  function Scheduled(start: Schedule, n: nat): (s: Schedule)
    requires n <= PAIRS
  {
    if n == 0 then start else Overwrite(Scheduled(start, n - 1), n - 1)
  }

  function Overwrite(s: Schedule, n: nat): (t: Schedule)
    requires n < PAIRS
  {
    var b := Encipher(s.b, s.P, s.S);
    if n < 9 then Schedule(s.P[2 * n := b.l][2 * n + 1 := b.r], s.S, b)
    else
      var at := 2 * (n - 9);
      Schedule(s.P, s.S[at := b.l][at + 1 := b.r], b)
  }

  /** The fixed words copied in: what was in P and S is gone. */
  method CopySubkey(subkey: seq<byte>, P: array<u32>, S: array<u32>)
    requires |subkey| == SUBKEY_SIZE && P.Length == 18 && S.Length == 1024 && P != S
    modifies P, S
    ensures forall m :: 0 <= m < 18 ==> P[m] == TableWord(subkey, 4 * m)
    ensures S[..] == FixedS(subkey)
  {
    for i := 0 to 18
      invariant forall m :: 0 <= m < i ==> P[m] == TableWord(subkey, 4 * m)
    {
      P[i] := TableWord(subkey, 4 * i);
    }
    for i := 0 to 1024
      invariant forall m :: 0 <= m < 18 ==> P[m] == TableWord(subkey, 4 * m)
      invariant forall m :: 0 <= m < i ==> S[m] == TableWord(subkey, 72 + 4 * m)
    {
      S[i] := TableWord(subkey, 72 + 4 * i);
    }
  }

  /** One more byte of the key folded in, and the index of the next. */
  lemma FoldStep(key: seq<int8>, keybytes: int, i: nat, k: nat, j: nat)
    requires |key| >= Period(keybytes) && j == (4 * i + k) % Period(keybytes)
    ensures j < Period(keybytes)
    ensures ShiftIn(Folded(key, keybytes, i, k), key[j]) == Folded(key, keybytes, i, k + 1)
    ensures (if j + 1 >= keybytes then 0 else j + 1) == (4 * i + (k + 1)) % Period(keybytes)
  {
    NextIndex(4 * i + k, Period(keybytes));
    assert KeyByte(key, keybytes, 4 * i + (k + 1) - 1) == key[j];
  }

  /** The four key bytes of one word, and where the key is read on. */
  method FoldKey(key: seq<int8>, keybytes: int, i: nat, j0: nat) returns (data: u32, j: nat)
    requires |key| >= Period(keybytes) && j0 == 4 * i % Period(keybytes)
    ensures data == Folded(key, keybytes, i, WORD_BYTES) && j == (4 * i + 4) % Period(keybytes)
  {
    data, j := 0, j0;
    for k := 0 to WORD_BYTES
      invariant data == Folded(key, keybytes, i, k) && j == (4 * i + k) % Period(keybytes)
    {
      FoldStep(key, keybytes, i, k, j);
      data := ShiftIn(data, key[j]);
      j := j + 1;
      if j >= keybytes {
        j := 0;
      }
    }
  }

  lemma KeyedAt(subkey: seq<byte>, key: seq<int8>, keybytes: int, fixed: seq<u32>, i: nat)
    requires |subkey| == SUBKEY_SIZE && |key| >= Period(keybytes) && i < |fixed| == 18
    requires fixed[i] == TableWord(subkey, 4 * i)
    ensures KeyedP(subkey, key, keybytes)[i] == XorWord(fixed[i], Folded(key, keybytes, i, WORD_BYTES))
  {
  }

  method LoadTables(subkey: seq<byte>, key: seq<int8>, keybytes: int, P: array<u32>, S: array<u32>)
    requires |subkey| == SUBKEY_SIZE && |key| >= Period(keybytes)
    requires P.Length == 18 && S.Length == 1024 && P != S
    modifies P, S
    ensures P[..] == KeyedP(subkey, key, keybytes) && S[..] == FixedS(subkey)
  {
    CopySubkey(subkey, P, S);
    ghost var fixed, boxes, keyed := P[..], S[..], KeyedP(subkey, key, keybytes);
    var j := 0;
    for i := 0 to 18
      invariant j == 4 * i % Period(keybytes) && S[..] == boxes
      invariant forall m :: 0 <= m < i ==> P[m] == keyed[m]
      invariant forall m :: i <= m < 18 ==> P[m] == fixed[m]
    {
      var data;
      data, j := FoldKey(key, keybytes, i, j);
      KeyedAt(subkey, key, keybytes, fixed, i);
      P[i] := XorWord(P[i], data);
    }
  }

  lemma NextIndex(n: nat, p: nat)
    requires p >= 1
    ensures (n + 1) % p == if n % p + 1 >= p then 0 else n % p + 1
  {
    var q, r := n / p, n % p;
    assert n == p * q + r;
    if r + 1 < p {
      RemainderIs(n + 1, p, q, r + 1);
    } else {
      assert p * (q + 1) == p * q + p;
      RemainderIs(n + 1, p, q + 1, 0);
    }
  }

  /** The tables and the running block are what the schedule has them be after `n` pairs. */
  ghost predicate Reached(P: PBox, S: SBox, b: Block, start: Schedule, n: nat) {
    n <= PAIRS && Schedule(P, S, b) == Scheduled(start, n)
  }

  method BlowfishInit(subkey: seq<byte>, key: seq<int8>, keybytes: int, P: array<u32>, S: array<u32>)
    requires |subkey| == SUBKEY_SIZE && |key| >= Period(keybytes)
    requires P.Length == 18 && S.Length == 1024 && P != S
    modifies P, S
    ensures exists b :: Reached(P[..], S[..], b, Start(subkey, key, keybytes), PAIRS)
  {
    LoadTables(subkey, key, keybytes, P, S);
    var datal, datar := 0, 0;
    ghost var n, start := 0, Start(subkey, key, keybytes);
    assert Reached(P[..], S[..], Block(datal, datar), start, n);
    var i := 0;
    while i < 18
      invariant i == 2 * n && n <= 9
      invariant Reached(P[..], S[..], Block(datal, datar), start, n)
    {
      datal, datar := NextP(i, datal, datar, P, S, start, n);
      n := n + 1;
      i := i + 2;
    }
    i := 0;
    while i < 4
      invariant i <= 4 && n == 9 + 128 * i
      invariant Reached(P[..], S[..], Block(datal, datar), start, n)
    {
      var j := 0;
      ghost var pairs := 0;
      while j < 256
        invariant j == 2 * pairs && pairs <= 128 && n == 9 + 128 * i + pairs
        invariant Reached(P[..], S[..], Block(datal, datar), start, n)
      {
        datal, datar := NextS(i * 256 + j, datal, datar, P, S, start, n);
        n, pairs := n + 1, pairs + 1;
        j := j + 2;
      }
      i := i + 1;
    }
  }

  /** The body of the pass over P. */
  method NextP(i: nat, datal: u32, datar: u32, P: array<u32>, S: array<u32>,
               ghost start: Schedule, ghost n: nat)
    returns (l: u32, r: u32)
    requires P.Length == 18 && S.Length == 1024 && P != S && i == 2 * n && n < 9
    requires Reached(P[..], S[..], Block(datal, datar), start, n)
    modifies P
    ensures Reached(P[..], S[..], Block(l, r), start, n + 1)
  {
    ghost var s := Schedule(P[..], S[..], Block(datal, datar));
    l, r := BlowfishEncipher(datal, datar, P, S);
    P[i], P[i + 1] := l, r;
    assert Schedule(P[..], S[..], Block(l, r)) == Overwrite(s, n);
  }

  /** The body of the pass over S. */
  method NextS(at: nat, datal: u32, datar: u32, P: array<u32>, S: array<u32>,
               ghost start: Schedule, ghost n: nat)
    returns (l: u32, r: u32)
    requires P.Length == 18 && S.Length == 1024 && P != S && 9 <= n < PAIRS && at == 2 * (n - 9)
    requires Reached(P[..], S[..], Block(datal, datar), start, n)
    modifies S
    ensures Reached(P[..], S[..], Block(l, r), start, n + 1)
  {
    ghost var s := Schedule(P[..], S[..], Block(datal, datar));
    l, r := BlowfishEncipher(datal, datar, P, S);
    S[at], S[at + 1] := l, r;
    assert Schedule(P[..], S[..], Block(l, r)) == Overwrite(s, n);
  }

  /** One word of a block: the left for an even index, the right for an odd one. */
  function Half(b: Block, i: nat): u32 {
    if i % 2 == 0 then b.l else b.r
  }

  /** The chain of blocks that fill the tables. */
  function Link(start: Schedule, n: nat): Block
    requires n <= PAIRS
  {
    Scheduled(start, n).b
  }

  lemma OverwrittenP(s: Schedule, n: nat, i: nat)
    requires n < PAIRS && i < 18
    ensures Overwrite(s, n).P[i] == if i / 2 == n then Half(Overwrite(s, n).b, i) else s.P[i]
  {
  }

  lemma OverwrittenS(s: Schedule, n: nat, i: nat)
    requires n < PAIRS && i < 1024
    ensures Overwrite(s, n).S[i] == if i / 2 + 9 == n then Half(Overwrite(s, n).b, i) else s.S[i]
  {
  }

  /** After n links the words they fill hold them, P first and then S, and the others are as at the start. */
  lemma {:induction false} PFilled(start: Schedule, n: nat, i: nat)
    requires n <= PAIRS && i < 18
    ensures Scheduled(start, n).P[i] == if i / 2 < n then Half(Link(start, i / 2 + 1), i) else start.P[i]
    decreases n
  {
    if n > 0 {
      PFilled(start, n - 1, i);
      OverwrittenP(Scheduled(start, n - 1), n - 1, i);
    }
  }

  lemma {:induction false} SFilled(start: Schedule, n: nat, i: nat)
    requires n <= PAIRS && i < 1024
    ensures Scheduled(start, n).S[i] == if i / 2 + 9 < n then Half(Link(start, i / 2 + 10), i) else start.S[i]
    decreases n
  {
    if n > 0 {
      SFilled(start, n - 1, i);
      OverwrittenS(Scheduled(start, n - 1), n - 1, i);
    }
  }

  /** Each link is the one before it, enciphered under the tables as filled by then. */
  lemma LinkIs(start: Schedule, n: nat)
    requires n < PAIRS
    ensures Link(start, n + 1) == Encipher(Link(start, n), Scheduled(start, n).P, Scheduled(start, n).S)
  {
    var s := Scheduled(start, n);
    assert Scheduled(start, n + 1) == Overwrite(s, n);
  }

  /** In the end every word of both tables is a link's: two words a link, in the order of the tables. */
  lemma AllFilled(start: Schedule)
    ensures var s := Scheduled(start, PAIRS);
            && (forall i :: 0 <= i < 18 ==> s.P[i] == Half(Link(start, i / 2 + 1), i))
            && (forall i :: 0 <= i < 1024 ==> s.S[i] == Half(Link(start, i / 2 + 10), i))
  {
    forall i | 0 <= i < 18 ensures Scheduled(start, PAIRS).P[i] == Half(Link(start, i / 2 + 1), i) {
      PFilled(start, PAIRS, i);
    }
    forall i | 0 <= i < 1024 ensures Scheduled(start, PAIRS).S[i] == Half(Link(start, i / 2 + 10), i) {
      SFilled(start, PAIRS, i);
    }
  }

  /** Only the key bytes at the first 72 positions matter. */
  lemma SameKeyBytes(subkey: seq<byte>, key: seq<int8>, keybytes: int, key': seq<int8>, keybytes': int)
    requires |subkey| == SUBKEY_SIZE
    requires |key| >= Period(keybytes) && |key'| >= Period(keybytes')
    requires forall m: nat :: m < 72 ==> KeyByte(key, keybytes, m) == KeyByte(key', keybytes', m)
    ensures Scheduled(Start(subkey, key, keybytes), PAIRS) == Scheduled(Start(subkey, key', keybytes'), PAIRS)
  {
    forall i: nat | i < 18
      ensures KeyedP(subkey, key, keybytes)[i] == KeyedP(subkey, key', keybytes')[i]
    {
      SameFold(key, keybytes, key', keybytes', i, WORD_BYTES);
    }
    assert KeyedP(subkey, key, keybytes) == KeyedP(subkey, key', keybytes');
  }

  lemma {:induction false} SameFold(key: seq<int8>, keybytes: int, key': seq<int8>, keybytes': int, i: nat, k: nat)
    requires |key| >= Period(keybytes) && |key'| >= Period(keybytes') && i < 18 && k <= 4
    requires forall m: nat :: m < 72 ==> KeyByte(key, keybytes, m) == KeyByte(key', keybytes', m)
    ensures Folded(key, keybytes, i, k) == Folded(key', keybytes', i, k)
  {
    if k > 0 {
      SameFold(key, keybytes, key', keybytes', i, k - 1);
      assert KeyByte(key, keybytes, 4 * i + k - 1) == KeyByte(key', keybytes', 4 * i + k - 1);
    }
  }

  lemma TwiceAround(m: nat, p: nat)
    requires p >= 1
    ensures var r := m % (2 * p); m % p == if r < p then r else r - p
  {
    var q, r := Division(m, 2 * p);
    DoubledProduct(p, q);
    if r < p {
      RemainderIs(m, p, 2 * q, r);
    } else {
      RemainderIs(m, p, 2 * q + 1, r - p);
    }
  }

  lemma Division(m: nat, d: nat) returns (q: nat, r: nat)
    requires d >= 1
    ensures m == d * q + r && r < d && r == m % d
  {
    q, r := m / d, m % d;
  }

  lemma DoubledProduct(p: nat, q: nat)
    ensures (2 * p) * q == p * (2 * q) && p * (2 * q + 1) == p * (2 * q) + p
  {
  }

  /** A key and the key written twice over give the same tables. */
  lemma RepeatedKey(subkey: seq<byte>, key: seq<int8>)
    requires |subkey| == SUBKEY_SIZE && |key| >= 1
    ensures Scheduled(Start(subkey, key, |key|), PAIRS) == Scheduled(Start(subkey, key + key, 2 * |key|), PAIRS)
  {
    forall m: nat | m < 72
      ensures KeyByte(key, |key|, m) == KeyByte(key + key, 2 * |key|, m)
    {
      TwiceAround(m, |key|);
    }
    SameKeyBytes(subkey, key, |key|, key + key, 2 * |key|);
  }
}
