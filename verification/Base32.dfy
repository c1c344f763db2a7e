/** The Base32 secrets of the one-time-password code: `base32Decode`, against the encoding
    of section 6 of RFC 4648. */
module Base32 {
  import opened Bits
  import opened BitPacking
  import opened Wrappers
  import opened CStrings
  import opened Sequences

  const ALL_ONES_32: u32 := 0xFFFF_FFFF

  // ---- characters ----

  /** '=', ' ', '-' and '_' are passed over. */
  predicate IsSeparator(c: byte) {
    c == 61 || c == 32 || c == 45 || c == 95
  }

  /** std::toupper in the C locale. */
  function ToUpper(c: byte): byte {
    if 97 <= c <= 122 then c - 32 else c
  }

  /** The lookup table: 'A'..'Z' are 0 to 25, '2'..'7' are 26 to 31. */
  function Lookup(c: byte): (v: Option<nat>)
    ensures v.Some? ==> v.value < 32
  {
    if 65 <= c <= 90 then Some(c - 65)
    else if 50 <= c <= 55 then Some(26 + c - 50)
    else None
  }

  /** The alphabet of section 6 of RFC 4648. */
  function Alphabet(v: nat): (c: byte)
    requires v < 32
    ensures Lookup(ToUpper(c)) == Some(v) && !IsSeparator(c)
  {
    if v < 26 then 65 + v else 50 + (v - 26)
  }

  predicate Decodable(s: seq<byte>) {
    forall k :: 0 <= k < |s| ==> IsSeparator(s[k]) || Lookup(ToUpper(s[k])).Some?
  }

  /** The values of the characters that count. */
  function Values(s: seq<byte>): (v: seq<nat>)
    ensures |v| <= |s| && Quintets(v)
  {
    if s == [] then []
    else
      var init, c := Values(s[..|s| - 1]), s[|s| - 1];
      if IsSeparator(c) then init
      else match Lookup(ToUpper(c))
        case None => init
        case Some(v) => init + [v]
  }

  predicate Quintets(v: seq<nat>) {
    forall k :: 0 <= k < |v| ==> v[k] < 32
  }

  /** Bit `p` of a run of five-bit values, high bit first. */
  predicate QuintetBit(v: seq<nat>, p: nat)
    requires p < 5 * |v|
  {
    Bit(v[p / 5], 4 - p % 5)
  }

  // ---- the decoder ----

  /** `>>` of a signed 32-bit word: the sign fills in from the top. */
  function Sar(x: u32, n: nat): nat
    requires n <= 32
  {
    Or(Shr(x, n), if x >= 0x8000_0000 then Shl(ALL_ONES_32, 32 - n, 32) else 0)
  }

  /** `bytes` are the whole bytes of the values' bits. */
  ghost predicate WholeBytes(bytes: seq<byte>, values: seq<nat>) {
    && 8 * |bytes| <= 5 * |values|
    && forall p: nat :: p < 8 * |bytes| ==> HighFirst(bytes, p) == QuintetBit(values, p)
  }

  /** The low bits of the accumulator are the last bits read. */
  ghost predicate Tail(buffer: u32, n: nat, values: seq<nat>) {
    && n <= 5 * |values|
    && forall i: nat :: i < n ==> Bit(buffer, i) == QuintetBit(values, 5 * |values| - 1 - i)
  }

  ghost predicate Accumulates(buffer: u32, bitsLeft: nat, bytes: seq<byte>, values: seq<nat>) {
    && bitsLeft < 8 && 8 * |bytes| + bitsLeft == 5 * |values|
    && WholeBytes(bytes, values) && Tail(buffer, bitsLeft, values)
  }

  /** `buffer <<= 5; buffer |= val;` in a 32-bit word. */
  function Push(buffer: u32, v: nat): (r: u32)
    requires v < 32
  {
    Pow2Of32();
    LowBound(Up(buffer, 5), 32);
    OrBound(Shl(buffer, 5, 32), v, 32);
    Or(Shl(buffer, 5, 32), v)
  }

  lemma BitPush(buffer: u32, v: nat, i: nat)
    requires v < 32 && i < 32
    ensures Bit(Push(buffer, v), i) == if i < 5 then Bit(v, i) else Bit(buffer, i - 5)
  {
    BitOr(Shl(buffer, 5, 32), v, i);
    BitShl(buffer, 5, 32, i);
    if i >= 5 {
      assert Pow2(5) == 32;
      BitHigh(v, 5, i);
    }
  }

  /** `(buffer >> n) & 0xFF`: the wrapped high part and the sign never reach the byte. */
  function TakeByte(buffer: u32, n: nat): (b: byte)
    requires n < 8
    ensures forall i: nat :: i < 8 ==> Bit(b, i) == Bit(buffer, n + i)
  {
    AndByte(Sar(buffer, n));
    var b := And(Sar(buffer, n), 0xFF);
    assert forall i: nat :: i < 8 ==> Bit(b, i) == Bit(buffer, n + i) by {
      forall i: nat | i < 8 ensures Bit(b, i) == Bit(buffer, n + i) {
        BitTaken(buffer, n, i);
      }
    }
    b
  }

  lemma BitTaken(buffer: u32, n: nat, i: nat)
    requires n < 8 && i < 8
    ensures Bit(And(Sar(buffer, n), 0xFF), i) == Bit(buffer, n + i)
  {
    var fill := if buffer >= 0x8000_0000 then Shl(ALL_ONES_32, 32 - n, 32) else 0;
    BitAnd(Sar(buffer, n), 0xFF, i);
    Pow2Of8();
    BitMask(8, i);
    BitOr(Shr(buffer, n), fill, i);
    BitShr(buffer, n, i);
    BitShl(ALL_ONES_32, 32 - n, 32, i);
    BitOfZero(i);
  }

  lemma QuintetBitAppend(values: seq<nat>, v: nat, p: nat)
    requires p < 5 * |values| + 5
    ensures QuintetBit(values + [v], p) ==
            if p < 5 * |values| then QuintetBit(values, p) else Bit(v, 5 * |values| + 4 - p)
  {
    if p >= 5 * |values| {
      assert p / 5 == |values|;
    }
  }

  lemma Pushed(buffer: u32, n: nat, values: seq<nat>, v: nat)
    requires Tail(buffer, n, values) && n < 8 && v < 32
    ensures Tail(Push(buffer, v), n + 5, values + [v])
  {
    var next := values + [v];
    forall i: nat | i < n + 5 ensures Bit(Push(buffer, v), i) == QuintetBit(next, 5 * |next| - 1 - i) {
      BitPush(buffer, v, i);
      QuintetBitAppend(values, v, 5 * |next| - 1 - i);
    }
  }

  lemma StillWhole(bytes: seq<byte>, values: seq<nat>, v: nat)
    requires WholeBytes(bytes, values)
    ensures WholeBytes(bytes, values + [v])
  {
    forall p: nat | p < 8 * |bytes| ensures HighFirst(bytes, p) == QuintetBit(values + [v], p) {
      QuintetBitAppend(values, v, p);
    }
  }

  lemma SentBit(buffer: u32, n: nat, values: seq<nat>, i: nat)
    requires n < 8 && i < 8 && Tail(buffer, n + 8, values)
    ensures Bit(TakeByte(buffer, n), i) == QuintetBit(values, 5 * |values| - 1 - (n + i))
  {
  }

  lemma Sent(buffer: u32, n: nat, bytes: seq<byte>, values: seq<nat>)
    requires n < 8 && 8 * |bytes| + 8 + n == 5 * |values|
    requires WholeBytes(bytes, values) && Tail(buffer, n + 8, values)
    ensures WholeBytes(bytes + [TakeByte(buffer, n)], values)
  {
    var b := TakeByte(buffer, n);
    forall p: nat | p < 8 * |bytes| + 8 ensures HighFirst(bytes + [b], p) == QuintetBit(values, p) {
      if p >= 8 * |bytes| {
        var i := 8 * |bytes| + 7 - p;
        assert p / 8 == |bytes| && 7 - p % 8 == i;
        SentBit(buffer, n, values, i);
        assert 5 * |values| - 1 - (n + i) == p;
      } else {
        assert HighFirst(bytes + [b], p) == HighFirst(bytes, p);
      }
    }
  }

  /** All the whole bytes of the characters' bits, and no more. */
  ghost predicate Decodes(bytes: seq<byte>, base32: seq<byte>) {
    WholeBytes(bytes, Values(base32)) && 5 * |Values(base32)| < 8 * |bytes| + 8
  }

  /** base32Decode; None where the source throws. */
  method Base32Decode(base32: seq<byte>) returns (r: Option<seq<byte>>)
    ensures r.Some? <==> Decodable(base32)
    ensures r.Some? ==> Decodes(r.value, base32)
  {
    var bytes := [];
    var buffer: u32 := 0;
    var bitsLeft := 0;
    ghost var values := [];
    for k := 0 to |base32|
      invariant Decodable(base32[..k]) && values == Values(base32[..k])
      invariant Accumulates(buffer, bitsLeft, bytes, values)
    {
      var ch := base32[k];
      assert base32[..k + 1][..k] == base32[..k];
      if IsSeparator(ch) {
        continue;
      }
      var val := Lookup(ToUpper(ch));
      if val == None {
        return None;
      }
      bytes, buffer, bitsLeft := AddQuintet(bytes, buffer, bitsLeft, val.value, values);
      values := values + [val.value];
    }
    assert base32[..|base32|] == base32;
    return Some(bytes);
  }

  /** One character's worth of the loop. */
  method AddQuintet(bytes0: seq<byte>, buffer0: u32, bitsLeft0: nat, val: nat, ghost values: seq<nat>)
    returns (bytes: seq<byte>, buffer: u32, bitsLeft: nat)
    requires val < 32 && Accumulates(buffer0, bitsLeft0, bytes0, values)
    ensures Accumulates(buffer, bitsLeft, bytes, values + [val])
  {
    bytes := bytes0;
    buffer := Push(buffer0, val);
    bitsLeft := bitsLeft0 + 5;
    Pushed(buffer0, bitsLeft0, values, val);
    StillWhole(bytes0, values, val);
    if bitsLeft >= 8 {
      bitsLeft := bitsLeft - 8;
      Sent(buffer, bitsLeft, bytes, values + [val]);
      bytes := bytes + [TakeByte(buffer, bitsLeft)];
    }
  }

  // ---- the encoding, and the round trip ----

  /** The input's bits in groups of five, zeros filling up the last group. */
  function Grouped(s: seq<byte>): (v: seq<nat>)
    ensures 8 * |s| <= 5 * |v| < 8 * |s| + 5 && Quintets(v)
    ensures forall k :: 0 <= k < |v| ==> v[k] == FieldHigh(s + [0], 5 * k, 5)
  {
    GroupsOf(s + [0], (8 * |s| + 4) / 5)
  }

  function GroupsOf(s: seq<byte>, n: nat): (v: seq<nat>)
    requires 5 * n <= 8 * |s|
    ensures |v| == n && Quintets(v)
    ensures forall k :: 0 <= k < n ==> v[k] == FieldHigh(s, 5 * k, 5)
  {
    if n == 0 then []
    else
      FieldHighReads(s, 5 * (n - 1), 5);
      assert Pow2(5) == 32;
      GroupsOf(s, n - 1) + [FieldHigh(s, 5 * (n - 1), 5)]
  }

  lemma GroupedBit(s: seq<byte>, p: nat)
    requires p < 8 * |s|
    ensures QuintetBit(Grouped(s), p) == HighFirst(s, p)
  {
    var k := p / 5;
    FieldHighReads(s + [0], 5 * k, 5);
    assert HighFirst(s + [0], p) == Bit(Grouped(s)[k], 5 * k + 5 - 1 - p);
  }

  function Letters(v: seq<nat>): (s: seq<byte>)
    requires Quintets(v)
    ensures |s| == |v|
  {
    seq(|v|, k requires 0 <= k < |v| => Alphabet(v[k]))
  }

  function PaddingSize(n: nat): (p: nat)
    ensures (n + p) % 8 == 0 && p < 8
  {
    if n % 8 == 0 then 0 else 8 - n % 8
  }

  function Padding(n: nat): (p: seq<byte>)
    ensures |p| == n && forall k :: 0 <= k < n ==> p[k] == 61
  {
    seq(n, _ => 61)
  }

  /** Base32 of section 6 of RFC 4648: eight characters for every five bytes begun. */
  function Base32Encode(s: seq<byte>): (r: seq<byte>)
    ensures |r| % 8 == 0
  {
    var v := Grouped(s);
    Letters(v) + Padding(PaddingSize(|v|))
  }

  lemma {:induction false} ValuesOfLetters(v: seq<nat>)
    requires Quintets(v)
    ensures Values(Letters(v)) == v
    decreases v
  {
    if v != [] {
      var n := |v| - 1;
      assert Letters(v)[..n] == Letters(v[..n]);
      ValuesOfLetters(v[..n]);
      assert v == v[..n] + [v[n]];
    }
  }

  lemma {:induction false} ValuesAppend(a: seq<byte>, b: seq<byte>)
    ensures Values(a + b) == Values(a) + Values(b)
    decreases b
  {
    if b == [] {
      assert a + b == a;
    } else {
      var n := |b| - 1;
      var init := a + b[..n];
      ValuesAppend(a, b[..n]);
      assert a + b == init + [b[n]] && b[..n] + [b[n]] == b;
      ValuesStep(init, b[n]);
      ValuesStep(b[..n], b[n]);
      AppendAssoc(Values(a), Values(b[..n]), OwnValue(b[n]));
    }
  }

  function OwnValue(c: byte): seq<nat> {
    if IsSeparator(c) || Lookup(ToUpper(c)) == None then [] else [Lookup(ToUpper(c)).value]
  }

  /** One more character adds its value, if it has one. */
  lemma ValuesStep(s: seq<byte>, c: byte)
    ensures Values(s + [c]) == Values(s) + OwnValue(c)
  {
    assert (s + [c])[..|s|] == s;
  }

  lemma {:induction false} ValuesOfPadding(n: nat)
    ensures Values(Padding(n)) == []
  {
    if n > 0 {
      assert Padding(n)[..n - 1] == Padding(n - 1);
      ValuesOfPadding(n - 1);
    }
  }

  lemma ValuesOfEncoding(s: seq<byte>)
    ensures Values(Base32Encode(s)) == Grouped(s) && Decodable(Base32Encode(s))
  {
    var v := Grouped(s);
    var n := PaddingSize(|v|);
    ValuesAppend(Letters(v), Padding(n));
    ValuesOfLetters(v);
    ValuesOfPadding(n);
  }

  /** Bytes are determined by their bits. */
  lemma SameBytes(s: seq<byte>, t: seq<byte>)
    requires |s| == |t| && forall p: nat :: p < 8 * |s| ==> HighFirst(s, p) == HighFirst(t, p)
    ensures s == t
  {
    forall k | 0 <= k < |s| ensures s[k] == t[k] {
      forall i: nat | i < 8 ensures Bit(s[k], i) == Bit(t[k], i) {
        assert HighFirst(s, 8 * k + 7 - i) == HighFirst(t, 8 * k + 7 - i);
      }
      Pow2Of8();
      BitsEqual(s[k], t[k], 8);
    }
  }

  /** Decoding an encoding gives the bytes back, whatever their number. */
  lemma RoundTrip(s: seq<byte>, decoded: seq<byte>)
    requires Decodes(decoded, Base32Encode(s))
    ensures decoded == s
  {
    ValuesOfEncoding(s);
    assert |decoded| == |s|;
    forall p: nat | p < 8 * |s| ensures HighFirst(decoded, p) == HighFirst(s, p) {
      GroupedBit(s, p);
    }
    SameBytes(decoded, s);
  }

  /** The same text, but for the case of letters. */
  predicate SameButCase(s: seq<byte>, t: seq<byte>) {
    |s| == |t| && forall k :: 0 <= k < |s| ==> SameLetter(s[k], t[k])
  }

  predicate SameLetter(c: byte, d: byte) {
    c == d || (97 <= c <= 122 && d == c - 32) || (65 <= c <= 90 && d == c + 32)
  }

  lemma SameLetterCounts(c: byte, d: byte)
    requires SameLetter(c, d)
    ensures Counts(c) == Counts(d) && OwnValue(c) == OwnValue(d)
  {
  }

  lemma LastValue(s: seq<byte>)
    requires s != []
    ensures Values(s) == Values(s[..|s| - 1]) + OwnValue(s[|s| - 1])
  {
  }

  lemma LastDecodable(s: seq<byte>)
    requires s != []
    ensures Decodable(s) <==> Decodable(s[..|s| - 1]) && Counts(s[|s| - 1])
  {
    forall k | 0 <= k < |s| - 1 ensures s[..|s| - 1][k] == s[k] {
    }
  }

  /** Letter case makes no difference. */
  lemma {:induction false} CaseInsensitive(s: seq<byte>, t: seq<byte>)
    requires SameButCase(s, t)
    ensures Values(s) == Values(t) && (Decodable(s) <==> Decodable(t))
    decreases s
  {
    if s != [] {
      var n := |s| - 1;
      CaseInsensitive(s[..n], t[..n]);
      LastValue(s);
      LastValue(t);
      LastDecodable(s);
      LastDecodable(t);
      SameLetterCounts(s[n], t[n]);
    }
  }

  const ALPHABET := "ABCDEFGHIJKLMNOPQRSTUVWXYZ234567"

  /** The alphabet, letter by letter. */
  lemma AlphabetIs(v: nat)
    requires v < 32
    ensures Alphabet(v) as char == ALPHABET[v]
  {
  }

  /** What may stand in a text. */
  lemma CountsIff(c: byte)
    ensures Counts(c) <==> c as char in ALPHABET || c as char in LOWERS || c as char in "= -_"
  {
    CharClasses(c);
  }

  predicate Counts(c: byte) { IsSeparator(c) || Lookup(ToUpper(c)).Some? }

  lemma SeparatorDecodable(a: seq<byte>, c: byte, b: seq<byte>)
    requires IsSeparator(c)
    ensures Decodable(a + [c] + b) <==> Decodable(a + b)
  {
    var with, without := a + [c] + b, a + b;
    if Decodable(with) {
      forall k | 0 <= k < |without| ensures Counts(without[k]) {
        assert without[k] == with[if k < |a| then k else k + 1];
      }
    }
    if Decodable(without) {
      forall k | 0 <= k < |with| ensures Counts(with[k]) {
        assert k < |a| ==> with[k] == without[k];
        assert k > |a| ==> with[k] == without[k - 1];
      }
    }
  }

  /** A separator put in anywhere makes no difference. */
  lemma SeparatorInsensitive(a: seq<byte>, c: byte, b: seq<byte>)
    requires c as char in "= -_"
    ensures Values(a + [c] + b) == Values(a + b) && (Decodable(a + [c] + b) <==> Decodable(a + b))
  {
    SeparatorDecodable(a, c, b);
    ValuesAppend(a + [c], b);
    ValuesAppend(a, [c]);
    ValuesAppend(a, b);
    assert [c][..0] == [];
    assert Values([c]) == [];
  }
}
