/** The streaming MD5 context, against sections 3.1 to 3.5 of RFC 1321. */
module Md5 {
  import opened Bits
  import opened BlockStream
  import opened Md5Process
  import opened Sequences
  import opened Remainders

  // ---- words and bytes ----

  /** GET_UINT32. */
  function GetUint32(b: seq<byte>, i: nat): nat
    requires i + 4 <= |b|
  {
    Or(Or(Or(b[i], Shl(b[i + 1], 8, 32)), Shl(b[i + 2], 16, 32)), Shl(b[i + 3], 24, 32))
  }

  /** The bytes are put together low-order byte first. */
  lemma GetIsLoad(b: seq<byte>, i: nat)
    requires i + 4 <= |b|
    ensures GetUint32(b, i) == LoadLe(b[i..i + 4]) < TWO32
  {
    Pow2Of8();
    Pow2Of32();
    var x1 := OrByte(b[i], b[i + 1], 8);
    var x2 := OrByte(x1, b[i + 2], 16);
    var x3 := OrByte(x2, b[i + 3], 24);
    UpOf8(b[i + 1]);
    UpOf16(b[i + 2]);
    UpOf24(b[i + 3]);
    LoadFour(b[i], b[i + 1], b[i + 2], b[i + 3]);
    assert b[i..i + 4] == [b[i], b[i + 1], b[i + 2], b[i + 3]];
  }

  lemma LoadFour(a: byte, b: byte, c: byte, d: byte)
    ensures LoadLe([a, b, c, d]) == a + 0x100 * b + 0x1_0000 * c + 0x100_0000 * d
  {
    assert [a, b, c, d][1..] == [b, c, d] && [b, c, d][1..] == [c, d] && [c, d][1..] == [d] && [d][1..] == [];
    assert LoadLe([d]) == d;
    assert LoadLe([c, d]) == c + 0x100 * d;
    assert LoadLe([b, c, d]) == b + 0x100 * c + 0x1_0000 * d;
  }

  lemma UpOf16(x: nat)
    ensures Up(x, 16) == 0x1_0000 * x
  {
    UpOf8(x);
    UpUp(x, 8, 8);
    UpOf8(0x100 * x);
  }

  lemma UpOf24(x: nat)
    ensures Up(x, 24) == 0x100_0000 * x
  {
    UpOf16(x);
    UpUp(x, 16, 8);
    UpOf8(0x1_0000 * x);
  }

  lemma OrByte(x: nat, b: byte, n: nat) returns (r: nat)
    requires x < Pow2(n) && n + 8 <= 32
    ensures r == Or(x, Shl(b, n, 32)) == x + Up(b, n) < Pow2(n + 8)
  {
    Pow2Of8();
    ShlExact(b, n, 8, 32);
    OrDisjoint(x, b, n);
    UpBound(b, n, 8);
    r := x + Up(b, n);
  }

  /** PUT_UINT32: the low bytes of `x`, low-order byte first. */
  function LeBytes(x: nat, n: nat): (b: seq<byte>)
    ensures |b| == n
  {
    if n == 0 then [] else [x % 256] + LeBytes(x / 256, n - 1)
  }

  function Word(block: seq<byte>, k: nat): (x: u32)
    requires |block| == 64 && k < 16
    ensures x == LoadLe(block[4 * k..4 * k + 4])
  {
    GetIsLoad(block, 4 * k);
    GetUint32(block, 4 * k)
  }

  function Words(block: seq<byte>): (X: seq<u32>)
    requires |block| == 64
    ensures |X| == 16 && forall k :: 0 <= k < 16 ==> X[k] == LoadLe(block[4 * k..4 * k + 4])
  {
    seq(16, k requires 0 <= k < 16 => Word(block, k))
  }

  // ---- the specification: a fold over the padded message ----

  const OPERATIONS: nat := 64

  /** Section 3.3 of RFC 1321: the registers hold the bytes 01 23 45 67 89 ab cd ef fe dc ba 98 76 54 32 10. */
  lemma InitialBytes()
    ensures LeBytes(INITIAL.a, 4) == [0x01, 0x23, 0x45, 0x67] && LeBytes(INITIAL.b, 4) == [0x89, 0xAB, 0xCD, 0xEF]
    ensures LeBytes(INITIAL.c, 4) == [0xFE, 0xDC, 0xBA, 0x98] && LeBytes(INITIAL.d, 4) == [0x76, 0x54, 0x32, 0x10]
  {
    WordBytes(INITIAL.a, 0x01, 0x23, 0x45, 0x67);
    WordBytes(INITIAL.b, 0x89, 0xAB, 0xCD, 0xEF);
    WordBytes(INITIAL.c, 0xFE, 0xDC, 0xBA, 0x98);
    WordBytes(INITIAL.d, 0x76, 0x54, 0x32, 0x10);
  }

  /** The bytes of a word, low-order byte first. */
  lemma WordBytes(x: u32, a: byte, b: byte, c: byte, d: byte)
    requires x == a + 0x100 * b + 0x1_0000 * c + 0x100_0000 * d
    ensures LeBytes(x, 4) == [a, b, c, d]
  {
    LeStep(d, d, 0, 0);
    LeStep(c + 0x100 * d, c, d, 1);
    LeStep(b + 0x100 * (c + 0x100 * d), b, c + 0x100 * d, 2);
    LeStep(x, a, b + 0x100 * (c + 0x100 * d), 3);
  }

  lemma LeStep(x: nat, low: byte, rest: nat, n: nat)
    requires x == low + 0x100 * rest
    ensures LeBytes(x, n + 1) == [low] + LeBytes(rest, n)
  {
  }

  /** The digest spells the four registers, low-order byte first. */
  lemma DigestSpells(r: Regs)
    ensures |Digest(r)| == 16
    ensures LoadLe(Digest(r)[0..4]) == r.a && LoadLe(Digest(r)[4..8]) == r.b
    ensures LoadLe(Digest(r)[8..12]) == r.c && LoadLe(Digest(r)[12..16]) == r.d
  {
    WordSpelled(r.a);
    WordSpelled(r.b);
    WordSpelled(r.c);
    WordSpelled(r.d);
    var d := Digest(r);
    assert d[0..4] == LeBytes(r.a, 4) && d[4..8] == LeBytes(r.b, 4);
    assert d[8..12] == LeBytes(r.c, 4) && d[12..16] == LeBytes(r.d, 4);
  }

  lemma WordSpelled(x: u32)
    ensures LoadLe(LeBytes(x, 4)) == x
  {
    var a, b, c, d := x % 256, x / 256 % 256, x / 256 / 256 % 256, x / 256 / 256 / 256;
    WordBytes(x, a, b, c, d);
    LoadFour(a, b, c, d);
  }

  const INITIAL := Regs(0x6745_2301, 0xEFCD_AB89, 0x98BA_DCFE, 0x1032_5476)

  /** One block: the 64 operations, then the registers are added to what they were. */
  function Compress(state: Regs, block: seq<byte>): Regs
    requires |block| == 64
  {
    var r := Run(Words(block), state, OPERATIONS);
    Regs(Add(state.a, r.a), Add(state.b, r.b), Add(state.c, r.c), Add(state.d, r.d))
  }

  const COMPRESS: BlockStep<Regs> := (state, block) => if |block| == 64 then Compress(state, block) else state

  /** At least one byte of padding, up to 56 modulo 64. */
  function PadLength(n: nat): (p: nat)
    ensures 1 <= p <= 64 && (n + p) % 64 == 56
  {
    (55 - n) % 64 + 1
  }

  /** The message with its padding and its length in bits modulo 2^64. */
  function Padded(m: seq<byte>): (r: seq<byte>)
    ensures |r| % 64 == 0
  {
    assert (|m| + PadLength(|m|) + 8) % 64 == 0;
    m + [0x80] + Repeated<byte>(0, PadLength(|m|) - 1) + LeBytes(8 * |m| % TWO64, 8)
  }

  function Digest(r: Regs): seq<byte> {
    LeBytes(r.a, 4) + LeBytes(r.b, 4) + LeBytes(r.c, 4) + LeBytes(r.d, 4)
  }

  function Md5Sum(m: seq<byte>): seq<byte> {
    Digest(Fold(COMPRESS, INITIAL, Padded(m), |Padded(m)| / 64))
  }

  // ---- the context ----

  /** How the two-word counter stands for the number of bytes seen. */
  ghost predicate Counts(total0: u32, total1: u32, n: nat) {
    total0 == n % TWO32 && total1 == n / TWO32 % TWO32
  }

  lemma CountMore(total0: u32, total1: u32, n: nat, length: u32)
    requires Counts(total0, total1, n)
    ensures var t0 := (total0 + length) % TWO32;
            Counts(t0, if t0 < length then (total1 + 1) % TWO32 else total1, n + length)
  {
    var q := n / TWO32;
    assert n == TWO32 * q + total0;
    var t0 := (total0 + length) % TWO32;
    if total0 + length >= TWO32 {
      assert n + length == TWO32 * (q + 1) + t0;
    } else {
      assert n + length == TWO32 * q + t0;
    }
  }

  /** `md5_finish` shifts the byte counter into a bit counter across the two words. */
  lemma BitCount(total0: u32, total1: u32, n: nat)
    requires Counts(total0, total1, n)
    ensures var low, high := Shl(total0, 3, 32), Or(Shr(total0, 29), Shl(total1, 3, 32));
            LeBytes(low, 4) + LeBytes(high, 4) == LeBytes(8 * n % TWO64, 8)
  {
    ShiftWords(total0, total1);
    BitCountValue(total0, total1, n);
    var low, high := 8 * total0 % TWO32, total0 / 0x2000_0000 + 8 * total1 % TWO32;
    Pow2Of32();
    UpOf32(high);
    LeJoin(low, high, 4);
  }

  lemma BitCountValue(total0: u32, total1: u32, n: nat)
    requires Counts(total0, total1, n)
    ensures 8 * n % TWO64 ==
            8 * total0 % TWO32 + TWO32 * (total0 / 0x2000_0000 + 8 * total1 % TWO32)
  {
    var q := n / TWO32;
    var s := q / TWO32;
    var e, f := total1 / 0x2000_0000, 8 * total1 % TWO32;
    var g, low := total0 / 0x2000_0000, 8 * total0 % TWO32;
    EightTimes(total0);
    EightTimes(total1);
    var sum := low + TWO32 * (g + f);
    assert n == TWO32 * q + total0;
    assert q == TWO32 * s + total1;
    assert 8 * n == TWO64 * (8 * s + e) + sum;
    assert 0 <= sum < TWO64;
  }

  lemma EightTimes(x: u32)
    ensures 8 * x == TWO32 * (x / 0x2000_0000) + 8 * x % TWO32
    ensures x / 0x2000_0000 < 8 && 8 * x % TWO32 <= TWO32 - 8
  {
    var y := x % 0x2000_0000;
    assert x == 0x2000_0000 * (x / 0x2000_0000) + y;
    assert 8 * x == TWO32 * (x / 0x2000_0000) + 8 * y;
    assert 0 <= 8 * y <= TWO32 - 8;
  }

  lemma ShiftWords(total0: u32, total1: u32)
    ensures Shl(total0, 3, 32) == 8 * total0 % TWO32
    ensures Or(Shr(total0, 29), Shl(total1, 3, 32)) == total0 / 0x2000_0000 + 8 * total1 % TWO32
  {
    UpOf3(total0);
    LowOf32(8 * total0);
    UpOf3(total1);
    LowOf32(8 * total1);
    ShrOf29(total0);
    var y := Low(total1, 29);
    LowUp(total1, 3, 32);
    assert Pow2(3) == 8;
    OrDisjoint(Shr(total0, 29), y, 3);
  }

  lemma UpOf3(x: nat)
    ensures Up(x, 3) == 8 * x
  {
    assert Up(x, 1) == 2 * x;
  }

  lemma UpOf32(x: nat)
    ensures Up(x, 32) == TWO32 * x
  {
    UpOf8(x);
    UpUp(x, 8, 8);
    UpOf8(0x100 * x);
    UpUp(x, 16, 8);
    UpOf8(0x1_0000 * x);
    UpUp(x, 24, 8);
    UpOf8(0x100_0000 * x);
  }

  lemma LowOf32(x: nat)
    ensures Low(x, 32) == x % TWO32
  {
    var q, r := Shr(x, 32), Low(x, 32);
    DivisionByPow2(x, 32);
    Pow2Of32();
    UpOf32(q);
    RemainderIs(x, TWO32, q, r);
  }

  lemma ShrOf29(x: u32)
    ensures Shr(x, 29) == x / 0x2000_0000 < 8
  {
    DivisionByPow2(x, 29);
    var q := Shr(x, 29);
    UpUp(q, 29, 3);
    UpOf3(Up(q, 29));
    UpOf32(q);
    Pow2Of29();
  }

  lemma Pow2Of29()
    ensures Pow2(29) == 0x2000_0000
  {
    Pow2Of8();
    assert Pow2(12) == 0x1000;
    assert Pow2(16) == 0x1_0000;
    assert Pow2(20) == 0x10_0000;
    assert Pow2(24) == 0x100_0000;
    assert Pow2(28) == 0x1000_0000;
  }

  lemma {:induction false} LeJoin(low: nat, high: nat, n: nat)
    requires low < Pow2(8 * n)
    ensures LeBytes(low, n) + LeBytes(high, 4) == LeBytes(low + Up(high, 8 * n), n + 4)
    decreases n
  {
    if n > 0 {
      var rest := Up(high, 8 * (n - 1));
      UpUp(high, 8 * (n - 1), 8);
      UpOf8(rest);
      assert (low + 256 * rest) / 256 == low / 256 + rest;
      ShrBound(low, 8, 8 * (n - 1));
      DivisionByPow2(low, 8);
      UpOf8(Shr(low, 8));
      Pow2Of8();
      LeJoin(low / 256, high, n - 1);
    }
  }

  const PADDING: seq<byte> := [0x80] + Repeated<byte>(0, 63)

  class Md5Context {
    var total0: u32
    var total1: u32
    var state: Regs
    const buffer: array<byte>
    ghost var seen: seq<byte>

    ghost predicate Valid()
      reads this, buffer
    {
      && buffer.Length == 64
      && Counts(total0, total1, |seen|)
      && Synced(COMPRESS, INITIAL, state, buffer[..|seen| % 64], seen)
    }

    /** md5_starts on a new context. */
    constructor ()
      ensures Valid() && seen == [] && fresh(buffer)
    {
      total0, total1, state, seen := 0, 0, INITIAL, [];
      buffer := new byte[64](_ => 0);
    }

    method Process(data: seq<byte>)
      requires |data| == 64
      modifies this`state
      ensures state == COMPRESS(old(state), data)
    {
      var X := Words(data);
      var A, B, C, D := state.a, state.b, state.c, state.d;
      A, B, C, D := Round1(SOURCE_P, X, A, B, C, D, state);
      A, B, C, D := Round2(SOURCE_P, X, A, B, C, D, state);
      A, B, C, D := Round3(SOURCE_P, X, A, B, C, D, state);
      A, B, C, D := Round4(SOURCE_P, X, A, B, C, D, state);
      RunIsRun(X, state, 64);
      state := Regs(Add(state.a, A), Add(state.b, B), Add(state.c, C), Add(state.d, D));
    }

    method Update(input: seq<byte>)
      requires Valid() && |input| < TWO32
      modifies this, buffer
      ensures Valid() && seen == old(seen) + input
    {
      var length: u32 := |input|;
      if length == 0 {
        assert seen == old(seen) + input;
        return;
      }
      var left := total0 % 64;
      CountModBlock(|seen|);
      Count(length, |seen|);
      ghost var before := seen;
      seen := seen + input;
      Absorb(input, left, before);
    }

    /** The byte counter's two words, with the carry. */
    method Count(length: u32, ghost n: nat)
      requires Counts(total0, total1, n)
      modifies this`total0, this`total1
      ensures Counts(total0, total1, n + length)
    {
      CountMore(total0, total1, n, length);
      total0 := (total0 + length) % TWO32;
      if total0 < length {
        total1 := (total1 + 1) % TWO32;
      }
    }

    /** The part of md5_update that moves bytes. */
    method Absorb(input: seq<byte>, left0: nat, ghost before: seq<byte>)
      requires buffer.Length == 64 && left0 == |before| % 64
      requires Synced(COMPRESS, INITIAL, state, buffer[..left0], before)
      modifies this`state, buffer
      ensures Synced(COMPRESS, INITIAL, state, buffer[..|before + input| % 64], before + input)
    {
      var left, pos := left0, 0;
      ghost var done := before;
      var fill := 64 - left;
      if left > 0 && |input| >= fill {
        TakePart(done, input, 0, fill);
        FillBlock(left, input[..fill], done);
        done := done + input[..fill];
        pos := fill;
        left := 0;
      }
      while |input| - pos >= 64
        invariant pos <= |input| && (left > 0 ==> left + (|input| - pos) < 64)
        invariant left == |done| % 64 && done + input[pos..] == before + input
        invariant Synced(COMPRESS, INITIAL, state, buffer[..left], done)
      {
        TakePart(done, input, pos, 64);
        ghost var block := input[pos..pos + 64];
        BlockDone(COMPRESS, INITIAL, state, [], done, block);
        assert [] + block == block;
        Process(input[pos..pos + 64]);
        done := done + block;
        pos := pos + 64;
      }
      HoldRest(left, input[pos..], done);
    }

    /** The buffered bytes and the first new ones make a block. */
    method FillBlock(left: nat, part: seq<byte>, ghost done: seq<byte>)
      requires buffer.Length == 64 && left == |done| % 64 && left + |part| == 64
      requires Synced(COMPRESS, INITIAL, state, buffer[..left], done)
      modifies this`state, buffer
      ensures |done + part| % 64 == 0
      ensures Synced(COMPRESS, INITIAL, state, [], done + part)
    {
      ghost var held := buffer[..left];
      BufferIn(left, part);
      assert buffer[..] == held + part;
      BlockDone(COMPRESS, INITIAL, state, held, done, part);
      Process(buffer[..]);
    }

    /** What is left over stays in the buffer. */
    method HoldRest(left: nat, part: seq<byte>, ghost done: seq<byte>)
      requires buffer.Length == 64 && left == |done| % 64 && left + |part| < 64
      requires Synced(COMPRESS, INITIAL, state, buffer[..left], done)
      modifies buffer
      ensures Synced(COMPRESS, INITIAL, state, buffer[..|done + part| % 64], done + part)
    {
      ghost var held := buffer[..left];
      HeldBack(COMPRESS, INITIAL, state, held, done, part);
      BufferIn(left, part);
      assert buffer[..left + |part|] == held + part;
    }

    /** memcpy into the buffer. */
    method BufferIn(at: nat, bytes: seq<byte>)
      requires buffer.Length == 64 && at + |bytes| <= 64
      modifies buffer
      ensures buffer[..at] == old(buffer[..at]) && buffer[at..at + |bytes|] == bytes
    {
      forall k | at <= k < at + |bytes| {
        buffer[k] := bytes[k - at];
      }
    }

    method Finish() returns (digest: seq<byte>)
      requires Valid()
      modifies this, buffer
      ensures digest == Md5Sum(old(seen))
    {
      ghost var message := seen;
      var high := Or(Shr(total0, 29), Shl(total1, 3, 32));
      var low := Shl(total0, 3, 32);
      var msglen := LeBytes(low, 4) + LeBytes(high, 4);
      BitCount(total0, total1, |message|);
      var last := total0 % 64;
      var padn := if last < 56 then 56 - last else 120 - last;
      PadCount(|message|, last, padn);
      Update(PADDING[..padn]);
      Update(msglen);
      PaddedParts(message, padn, msglen);
      assert seen[..|seen|] == seen;
      digest := LeBytes(state.a, 4) + LeBytes(state.b, 4) + LeBytes(state.c, 4) + LeBytes(state.d, 4);
    }
  }

  /** Moving `n` bytes from the input to what is done. */
  lemma TakePart(done: seq<byte>, input: seq<byte>, pos: nat, n: nat)
    requires pos + n <= |input|
    ensures done + input[pos..pos + n] + input[pos + n..] == done + input[pos..]
    ensures input[0..] == input && input[..n] == input[0..n]
  {
    assert input[pos..] == input[pos..pos + n] + input[pos + n..];
  }

  lemma CountModBlock(n: nat)
    ensures n % TWO32 % 64 == n % 64
  {
    var q := n / TWO32;
    assert n == 64 * (0x400_0000 * q) + n % TWO32;
  }

  lemma PadCount(n: nat, last: nat, padn: nat)
    requires last == n % TWO32 % 64 && padn == if last < 56 then 56 - last else 120 - last
    ensures padn == PadLength(n)
  {
    CountModBlock(n);
  }

  lemma PaddedParts(m: seq<byte>, padn: nat, length: seq<byte>)
    requires padn == PadLength(|m|) && length == LeBytes(8 * |m| % TWO64, 8)
    ensures m + PADDING[..padn] + length == Padded(m)
  {
    assert PADDING[..padn] == [0x80] + Repeated<byte>(0, padn - 1);
    assert m + ([0x80] + Repeated<byte>(0, padn - 1)) == m + [0x80] + Repeated<byte>(0, padn - 1);
  }

  function Flatten(chunks: seq<seq<byte>>): seq<byte> {
    if chunks == [] then [] else Flatten(chunks[..|chunks| - 1]) + chunks[|chunks| - 1]
  }

  /** However the message is cut into updates, the digest is that of the whole message. */
  method Md5OfChunks(chunks: seq<seq<byte>>) returns (digest: seq<byte>)
    requires forall k :: 0 <= k < |chunks| ==> |chunks[k]| < TWO32
    ensures digest == Md5Sum(Flatten(chunks))
  {
    var ctx := new Md5Context();
    for k := 0 to |chunks|
      invariant ctx.Valid() && fresh(ctx) && fresh(ctx.buffer) && ctx.seen == Flatten(chunks[..k])
    {
      assert chunks[..k + 1][..k] == chunks[..k];
      ctx.Update(chunks[k]);
    }
    assert chunks[..|chunks|] == chunks;
    digest := ctx.Finish();
  }

  /** The one-call form. */
  method Md5(text: seq<byte>, size: nat) returns (hash: seq<byte>)
    requires size <= |text| && size < 0x8000_0000
    ensures hash == Md5Sum(text[..size])
  {
    var ctx := new Md5Context();
    ctx.Update(text[..size]);
    assert [] + text[..size] == text[..size];
    hash := ctx.Finish();
  }
}
