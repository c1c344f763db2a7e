/** The seven-bit codec for soul plate names: `PackSoultrapperName` and its reader. */
module Soultrapper {
  import opened Bits
  import opened BitPacking

  const UNDERSCORE: byte := 95

  predicate SevenBits(s: seq<byte>) {
    forall k :: 0 <= k < |s| ==> s[k] < 128
  }

  function WithoutUnderscores(s: seq<byte>): (r: seq<byte>)
    ensures |r| <= |s| && (SevenBits(s) ==> SevenBits(r))
    ensures UNDERSCORE !in r
  {
    if s == [] then []
    else if s[|s| - 1] == UNDERSCORE then WithoutUnderscores(s[..|s| - 1])
    else WithoutUnderscores(s[..|s| - 1]) + [s[|s| - 1]]
  }

  /** The name that is packed: cut to 15 characters first, then without underscores. */
  function Trimmed(name: seq<byte>): (r: seq<byte>)
    ensures |r| <= 15 && (SevenBits(name) ==> SevenBits(r))
  {
    WithoutUnderscores(if |name| > 15 then name[..15] else name)
  }

  lemma {:induction false} StrippedAppend(a: seq<byte>, b: seq<byte>)
    ensures WithoutUnderscores(a + b) == WithoutUnderscores(a) + WithoutUnderscores(b)
  {
    if b == [] {
      assert a + b == a;
    } else {
      var n := |b| - 1;
      assert (a + b)[..|a + b| - 1] == a + b[..n] && (a + b)[|a + b| - 1] == b[n];
      StrippedAppend(a, b[..n]);
    }
  }

  lemma {:induction false} NothingToStrip(s: seq<byte>)
    requires UNDERSCORE !in s
    ensures WithoutUnderscores(s) == s
  {
    if s != [] {
      NothingToStrip(s[..|s| - 1]);
    }
  }

  /** Characters past the fifteenth never count, whatever is stripped before them. */
  lemma TrimmedCuts(name: seq<byte>, more: seq<byte>)
    requires |name| == 15
    ensures Trimmed(name + more) == Trimmed(name)
  {
    assert (name + more)[..15] == name;
    assert |more| == 0 ==> name + more == name;
  }

  /** Within fifteen characters an underscore may be left out. */
  lemma TrimmedStrips(a: seq<byte>, b: seq<byte>)
    requires |a| + |b| < 15
    ensures Trimmed(a + [UNDERSCORE] + b) == Trimmed(a + b)
  {
    StrippedAppend(a + [UNDERSCORE], b);
    StrippedAppend(a, [UNDERSCORE]);
    StrippedAppend(a, b);
    assert [UNDERSCORE][..0] == [];
  }

  /** And nothing else is lost. */
  lemma TrimmedKeeps(a: seq<byte>)
    requires |a| <= 15 && UNDERSCORE !in a
    ensures Trimmed(a) == a
  {
    NothingToStrip(a);
  }

  function CharAt(s: seq<byte>, i: nat): byte {
    if i < |s| then s[i] else 0
  }

  // ---- packing ----

  /** Byte `m` of the output: the rest of one character and the start of the next. */
  function PackedByte(s: seq<byte>, m: nat): nat {
    var i, shift := m + m / 7, m % 7 + 1;
    Or(Shl(CharAt(s, i), shift, 8), Shr(CharAt(s, i + 1), 7 - shift))
  }

  lemma BitOf128(i: nat)
    ensures Bit(128, i) == (i == 7)
  {
    assert Up(1, 7) == 128 by {
      assert Up(1, 2) == 4;
      assert Up(1, 4) == 16;
      assert Up(1, 6) == 64;
    }
    BitUp(1, 7, i);
    if i > 7 {
      assert Pow2(1) == 2;
      BitHigh(1, 1, i - 7);
    }
  }

  /** Clearing the top bit of a byte when it is set. */
  lemma ClearTop(t: byte)
    ensures (if And(t, 128) != 0 then Xor(t, 128) else t) == Low(t, 7)
  {
    var u := if And(t, 128) != 0 then Xor(t, 128) else t;
    Pow2Of8();
    XorBound(t, 128, 8);
    LowBound(t, 7);
    assert Pow2(7) == 128;
    TopBit(t);
    forall i: nat | i < 8 ensures Bit(u, i) == Bit(Low(t, 7), i) {
      BitXor(t, 128, i);
      BitOf128(i);
      BitLow(t, 7, i);
    }
    BitsEqual(u, Low(t, 7), 8);
  }

  lemma TopBit(t: byte)
    ensures And(t, 128) != 0 <==> Bit(t, 7)
  {
    BitAnd(t, 128, 7);
    BitOf128(7);
    if And(t, 128) == 0 {
      BitOfZero(7);
    } else if !Bit(t, 7) {
      Pow2Of8();
      AndBound(t, 128);
      forall i: nat | i < 8 ensures Bit(And(t, 128), i) == Bit(0, i) {
        BitAnd(t, 128, i);
        BitOf128(i);
        BitOfZero(i);
      }
      BitsEqual(And(t, 128), 0, 8);
    }
  }

  /** One turn of the shift loop, with `k` more to come. */
  function ShiftOnce(t: byte, k: nat): (r: byte) {
    LowBound(Up(t, 1), 8);
    Pow2Of8();
    var d := Shl(t, 1, 8);
    ClearTop(d);
    LowBound(d, 7);
    assert Pow2(7) == 128;
    if k > 0 && And(d, 128) != 0 then Xor(d, 128) else d
  }

  lemma ShiftStep(t: byte, k: nat)
    requires k < 8
    ensures Low(Up(ShiftOnce(t, k), k), 8) == Low(Up(t, k + 1), 8)
  {
    var d := Shl(t, 1, 8);
    LowBound(Up(t, 1), 8);
    Pow2Of8();
    ClearTop(d);
    DoubledThenUp(t, k);
    if k > 0 {
      LowUp(d, k, 8);
      LowUp(Low(d, 7), k, 8);
      LowLow(d, 7, 8 - k);
    }
  }

  /** The shift loop: one bit at a time, the top bit cleared before it could move on. */
  method ShiftLeft(current: byte, shift: nat) returns (tempLeft: byte)
    requires shift <= 7
    ensures tempLeft == Shl(current, shift, 8)
  {
    tempLeft := current;
    for j := 0 to shift
      invariant Low(Up(tempLeft, shift - j), 8) == Shl(current, shift, 8)
    {
      ShiftStep(tempLeft, shift - j - 1);
      tempLeft := ShiftOnce(tempLeft, shift - j - 1);
    }
    Pow2Of8();
    LowSmall(tempLeft, 8);
  }

  lemma DoubledThenUp(x: nat, k: nat)
    requires k < 8
    ensures Low(Up(Shl(x, 1, 8), k), 8) == Low(Up(x, k + 1), 8)
  {
    LowUp(Shl(x, 1, 8), k, 8);
    LowLow(Up(x, 1), 8, 8 - k);
    LowUp(Up(x, 1), k, 8);
    UpUp(x, 1, k);
  }

  method PackSoultrapperName(name: seq<byte>, output: array<byte>)
    requires output.Length >= 14
    modifies output
    ensures forall m :: 0 <= m < 14 ==> output[m] == PackedByte(Trimmed(name), m)
    ensures output[14..] == old(output[14..])
  {
    var text := Trimmed(name);
    var shift := 1;
    var loops := 0;
    var i := 0;
    while i <= 15
      invariant loops <= 2 && i <= 16 && (i == 16 <==> loops == 2) && (i == 16 ==> shift == 1)
      invariant i - loops == 7 * loops + shift - 1 && 1 <= shift <= 7
      invariant forall m :: 0 <= m < i - loops ==> output[m] == PackedByte(text, m)
      invariant output[14..] == old(output[14..])
    {
      var current := CharAt(text, i);
      var next := CharAt(text, i + 1);
      var tempLeft := ShiftLeft(current, shift);
      var tempRight := Shr(next, 7 - shift);
      var m := i - loops;
      PackedByteAt(text, m, loops, shift);
      output[m] := Or(tempLeft, tempRight);
      if shift == 7 {
        shift := 1;
        loops := loops + 1;
        i := i + 1;
      } else {
        shift := shift + 1;
      }
      i := i + 1;
    }
  }

  lemma PackedByteAt(s: seq<byte>, m: nat, loops: nat, shift: nat)
    requires 1 <= shift <= 7 && m == 7 * loops + shift - 1
    ensures PackedByte(s, m) == Or(Shl(CharAt(s, m + loops), shift, 8), Shr(CharAt(s, m + loops + 1), 7 - shift))
    ensures PackedByte(s, m) < 256
  {
    assert m / 7 == loops && m % 7 == shift - 1;
    Pow2Of8();
    LowBound(Up(CharAt(s, m + loops), shift), 8);
    ShrLess(CharAt(s, m + loops + 1), 7 - shift);
    OrBound(Shl(CharAt(s, m + loops), shift, 8), Shr(CharAt(s, m + loops + 1), 7 - shift), 8);
  }

  /** The packed bytes are the characters' seven bits, one after the other. */
  lemma PackedBit(s: seq<byte>, packed: seq<byte>, p: nat)
    requires SevenBits(s) && |packed| == 14 && p < 112
    requires forall m :: 0 <= m < 14 ==> packed[m] == PackedByte(s, m)
    ensures HighFirst(packed, p) == Bit(CharAt(s, p / 7), 6 - p % 7)
    ensures HighFirst(packed, p) == (p / 7 < |s| && Bit(s[p / 7], 6 - p % 7))
  {
    PackedCharBit(s, packed, p);
    BitOfZero(6 - p % 7);
  }

  lemma PackedCharBit(s: seq<byte>, packed: seq<byte>, p: nat)
    requires SevenBits(s) && |packed| == 14 && p < 112
    requires forall m :: 0 <= m < 14 ==> packed[m] == PackedByte(s, m)
    ensures HighFirst(packed, p) == Bit(CharAt(s, p / 7), 6 - p % 7)
  {
    var m, j := p / 8, p % 8;
    var g, r := m / 7, m % 7;
    var i := 8 * g + r;
    var shift := r + 1;
    var c, n := CharAt(s, i), CharAt(s, i + 1);
    PackedByteAt(s, m, g, shift);
    BitOr(Shl(c, shift, 8), Shr(n, 7 - shift), 7 - j);
    BitShl(c, shift, 8, 7 - j);
    BitShr(n, 7 - shift, 7 - j);
    assert p == 7 * i + (r + j);
    if r + j < 7 {
      assert p / 7 == i && p % 7 == r + j;
      assert Pow2(7) == 128;
      BitHigh(n, 7, 13 - r - j);
    } else {
      assert p / 7 == i + 1 && p % 7 == r + j - 7;
    }
  }

  lemma SeptetBit(s: seq<byte>, packed: seq<byte>, k: nat, i: nat)
    requires SevenBits(s) && |packed| == 14 && k < 16 && i < 7
    requires forall m :: 0 <= m < 14 ==> packed[m] == PackedByte(s, m)
    ensures HighFirst(packed, 7 * k + i) == Bit(CharAt(s, k), 6 - i)
  {
    PackedBit(s, packed, 7 * k + i);
    assert (7 * k + i) / 7 == k && (7 * k + i) % 7 == i;
  }

  // ---- reading ----

  /** The reader's position: `q` bits consumed, the rest of the current byte in the top
      bits of `current`. */
  ghost predicate Cursor(input: seq<byte>, current: byte, bitsLeft: nat, pos: nat, q: nat) {
    && |input| >= 14 && pos <= 14 && bitsLeft <= 8 && 8 * pos == q + bitsLeft
    && (bitsLeft > 0 ==> pos >= 1)
    && (bitsLeft > 0 ==> forall i: nat :: i < 8 ==>
          Bit(current, i) == (i + bitsLeft >= 8 && Bit(input[pos - 1], i + bitsLeft - 8)))
  }

  lemma CursorTop(input: seq<byte>, current: byte, bitsLeft: nat, pos: nat, q: nat)
    requires Cursor(input, current, bitsLeft, pos, q) && bitsLeft > 0
    ensures And(current, 0x80) != 0 <==> HighFirst(input, q)
  {
    TopBit(current);
    assert q == 8 * (pos - 1) + (8 - bitsLeft);
  }

  lemma CursorShifts(input: seq<byte>, current: byte, bitsLeft: nat, pos: nat, q: nat)
    requires Cursor(input, current, bitsLeft, pos, q) && bitsLeft > 0
    ensures Shl(current, 1, 8) < 256 && Cursor(input, Shl(current, 1, 8), bitsLeft - 1, pos, q + 1)
  {
    Pow2Of8();
    LowBound(Up(current, 1), 8);
    forall i: nat | i < 8
      ensures bitsLeft > 1 ==>
                Bit(Shl(current, 1, 8), i) ==
                (i + bitsLeft - 1 >= 8 && Bit(input[pos - 1], i + bitsLeft - 1 - 8))
    {
      BitShl(current, 1, 8, i);
    }
  }

  lemma {:induction false} UpOr(v: nat, d: bool, n: nat)
    ensures (if d then Or(Up(v, n + 1), Up(1, n)) else Up(v, n + 1)) == Up(2 * v + Digit(d), n)
  {
    UpDouble(v, d, n);
    if d {
      UpOneBound(n);
      OrDisjoint(Up(1, n), v, n + 1);
    }
  }

  lemma {:induction false} UpDouble(v: nat, d: bool, n: nat)
    ensures Up(2 * v + Digit(d), n) == Up(v, n + 1) + if d then Up(1, n) else 0
  {
    if n > 0 {
      UpDouble(v, d, n - 1);
    }
  }

  lemma {:induction false} UpOneBound(n: nat)
    ensures Up(1, n) < Pow2(n + 1)
  {
    if n > 0 {
      UpOneBound(n - 1);
    }
  }

  /** The next bit, fetching a byte when the current one is used up. */
  method ReadBit(input: array<byte>, current0: byte, bitsLeft0: nat, pos0: nat, ghost q: nat)
    returns (ended: bool, b: bool, current: byte, bitsLeft: nat, pos: nat)
    requires Cursor(input[..], current0, bitsLeft0, pos0, q) && q <= 112
    ensures ended <==> q == 112
    ensures !ended ==> b == HighFirst(input[..], q) && Cursor(input[..], current, bitsLeft, pos, q + 1)
  {
    ended, b, current, bitsLeft, pos := false, false, current0, bitsLeft0, pos0;
    if bitsLeft == 0 {
      if pos >= 14 {
        ended := true;
        return;
      }
      current := input[pos];
      pos := pos + 1;
      bitsLeft := 8;
    }
    CursorTop(input[..], current, bitsLeft, pos, q);
    CursorShifts(input[..], current, bitsLeft, pos, q);
    b := And(current, 0x80) != 0;
    current := Shl(current, 1, 8);
    bitsLeft := bitsLeft - 1;
  }

  /** One more bit of a field, put in its place in the character. */
  lemma BitAdded(text: seq<byte>, q: nat, k: nat, b: bool, n: nat)
    requires q + k + 1 <= 8 * |text| && b == HighFirst(text, q + k)
    ensures (if b then Or(Up(FieldHigh(text, q, k), n + 1), Up(1, n)) else Up(FieldHigh(text, q, k), n + 1))
            == Up(FieldHigh(text, q, k + 1), n)
  {
    UpOr(FieldHigh(text, q, k), b, n);
  }

  /** The inner loop: seven bits into a character, unless the input is used up. */
  method ReadChar(input: array<byte>, current0: byte, bitsLeft0: nat, pos0: nat, ghost q: nat)
    returns (ended: bool, c: nat, current: byte, bitsLeft: nat, pos: nat)
    requires Cursor(input[..], current0, bitsLeft0, pos0, q) && q % 7 == 0 && q <= 112
    ensures ended <==> q == 112
    ensures !ended ==> c == FieldHigh(input[..], q, 7) && Cursor(input[..], current, bitsLeft, pos, q + 7)
  {
    ended, c, current, bitsLeft, pos := false, 0, current0, bitsLeft0, pos0;
    ghost var text := input[..];
    var bit := 7;
    while bit > 0
      invariant 0 <= bit <= 7 && (q == 112 ==> bit == 7)
      invariant Cursor(text, current, bitsLeft, pos, q + (7 - bit))
      invariant c == Up(FieldHigh(text, q, 7 - bit), bit)
    {
      bit := bit - 1;
      var b;
      ended, b, current, bitsLeft, pos := ReadBit(input, current, bitsLeft, pos, q + (6 - bit));
      if ended {
        break;
      }
      BitAdded(text, q, 6 - bit, b, bit);
      if b {
        c := Or(c, Up(1, bit));
      }
    }
  }

  predicate Printable(c: nat) {
    48 <= c <= 122  // '0'..'z'
  }

  /** The characters read from septet `k` on, up to the first that is not rendered. */
  function Rendered(input: seq<byte>, k: nat): seq<byte>
    requires |input| >= 14 && k <= 16
    decreases 16 - k
  {
    if k == 16 then []
    else
      var c := FieldHigh(input, 7 * k, 7);
      if !Printable(c) then [] else [c] + Rendered(input, k + 1)
  }

  /** `output` is what was rendered before septet `k`. */
  ghost predicate Remaining(text: seq<byte>, k: nat, output: seq<byte>)
    requires |text| >= 14
  {
    k <= 16 && Rendered(text, 0) == output + Rendered(text, k)
  }

  lemma RemainingStep(text: seq<byte>, k: nat, output: seq<byte>)
    requires |text| >= 14 && k < 16 && Remaining(text, k, output)
    ensures var c := FieldHigh(text, 7 * k, 7);
            if Printable(c) then Remaining(text, k + 1, output + [c]) else Rendered(text, 0) == output
  {
  }

  method UnpackSoultrapperName(input: array<byte>) returns (output: seq<byte>)
    requires input.Length >= 14
    ensures output == Rendered(input[..], 0)
  {
    output := [];
    var bitsLeft, current, pos := 0, 0, 0;
    ghost var k, text := 0, input[..];
    ghost var result := Rendered(text, 0);
    while true
      invariant k <= 16 && Cursor(text, current, bitsLeft, pos, 7 * k)
      invariant Remaining(text, k, output)
      decreases 16 - k
    {
      var ended, c;
      ended, c, current, bitsLeft, pos := ReadChar(input, current, bitsLeft, pos, 7 * k);
      if ended {
        assert output == result;
        break;
      }
      RemainingStep(text, k, output);
      if c == 0 || c < 48 || c > 122 {
        break;
      }
      output := output + [c];
      k := k + 1;
    }
  }

  // ---- round trip ----

  /** The longest prefix of characters in '0'..'z'. */
  function PrintablePrefix(s: seq<byte>): (r: seq<byte>)
    ensures r <= s && (forall k :: 0 <= k < |r| ==> 48 <= r[k] <= 122)
    ensures |r| < |s| ==> !(48 <= s[|r|] <= 122)
  {
    if s == [] || !Printable(s[0]) then [] else [s[0]] + PrintablePrefix(s[1..])
  }

  lemma SeptetReads(s: seq<byte>, packed: seq<byte>, k: nat, len: nat)
    requires SevenBits(s) && |packed| == 14 && k < 16 && len == 7
    requires forall m :: 0 <= m < 14 ==> packed[m] == PackedByte(s, m)
    ensures ReadsHigh(packed, 7 * k, len, CharAt(s, k))
  {
    assert Pow2(len) == 128;
    var at, c := 7 * k, CharAt(s, k);
    forall p: nat | at <= p < at + len ensures HighFirst(packed, p) == Bit(c, at + len - 1 - p) {
      var i := p - at;
      assert at + len - 1 - p == 6 - i;
      SeptetBit(s, packed, k, i);
    }
  }

  lemma SeptetIs(s: seq<byte>, packed: seq<byte>, k: nat)
    requires SevenBits(s) && |packed| == 14 && k < 16
    requires forall m :: 0 <= m < 14 ==> packed[m] == PackedByte(s, m)
    ensures FieldHigh(packed, 7 * k, 7) == CharAt(s, k)
  {
    SeptetReads(s, packed, k, 7);
    ReadsHighUnique(packed, 7 * k, 7, CharAt(s, k));
  }

  lemma {:induction false} RenderedIs(s: seq<byte>, packed: seq<byte>, k: nat)
    requires SevenBits(s) && |packed| == 14 && k <= |s| <= 15
    requires forall m :: 0 <= m < 14 ==> packed[m] == PackedByte(s, m)
    ensures Rendered(packed, k) == PrintablePrefix(s[k..])
    decreases |s| - k
  {
    SeptetIs(s, packed, k);
    if k < |s| {
      assert s[k..][1..] == s[k + 1..];
      RenderedIs(s, packed, k + 1);
    }
  }

  /** Reading a packed seven-bit name gives its trimmed form, up to the first character
      that is not rendered. */
  lemma RoundTrip(name: seq<byte>, packed: seq<byte>)
    requires SevenBits(name) && |packed| == 14
    requires forall m :: 0 <= m < 14 ==> packed[m] == PackedByte(Trimmed(name), m)
    ensures Rendered(packed, 0) == PrintablePrefix(Trimmed(name))
  {
    RenderedIs(Trimmed(name), packed, 0);
    assert Trimmed(name)[0..] == Trimmed(name);
  }
}
