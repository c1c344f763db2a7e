/** One-time codes: the code of a secret at a time, against RFC 4226 and RFC 6238. */
module Totp {
  import opened Bits
  import opened Base32
  import opened Remainders
  import opened Wrappers

  // ---- numbers as bytes, high-order byte first ----

  /** The number that bytes spell in network order. */
  function BeValue(s: seq<byte>): nat
  {
    if s == [] then 0 else 256 * BeValue(s[..|s| - 1]) + s[|s| - 1]
  }

  /** The last `len` bytes of a number. */
  function BeBytes(n: nat, len: nat): (s: seq<byte>)
    ensures |s| == len
  {
    if len == 0 then [] else BeBytes(n / 256, len - 1) + [n % 256]
  }

  predicate Fits(n: nat, len: nat) { if len == 0 then n == 0 else Fits(n / 256, len - 1) }

  lemma {:induction false} BytesSpell(n: nat, len: nat)
    requires Fits(n, len)
    ensures BeValue(BeBytes(n, len)) == n
  {
    if len > 0 {
      BytesSpell(n / 256, len - 1);
      assert BeBytes(n, len)[..len - 1] == BeBytes(n / 256, len - 1);
    }
  }

  const EIGHT: nat := 8

  lemma CounterFits(n: u64)
    ensures Fits(n, EIGHT)
  {
    var a, b := n / 256, n / 256 / 256;
    var c, d := b / 256, b / 256 / 256;
    var e, f := d / 256, d / 256 / 256;
    var g := f / 256;
    assert g / 256 == 0;
    assert Fits(g / 256, EIGHT - 8) && Fits(g, EIGHT - 7) && Fits(f, EIGHT - 6) && Fits(e, EIGHT - 5);
    assert Fits(d, EIGHT - 4) && Fits(c, EIGHT - 3) && Fits(b, EIGHT - 2) && Fits(a, EIGHT - 1);
  }

  /** The loop that stores the counter from its last byte to its first. */
  method CounterBytes(counter0: u64) returns (bytes: array<byte>)
    ensures fresh(bytes) && bytes.Length == 8 && BeValue(bytes[..]) == counter0
  {
    var counter: nat := counter0;
    bytes := new byte[EIGHT];
    var i: nat := EIGHT;
    while i > 0
      invariant i <= EIGHT && BeBytes(counter, i) + bytes[i..] == BeBytes(counter0, EIGHT)
    {
      i := i - 1;
      ghost var tail := bytes[i + 1..];
      AndByte(counter);
      DivisionByPow2(counter, 8);
      Pow2Of8();
      UpOf8(Shr(counter, 8));
      LowOf8(counter);
      bytes[i] := And(counter, 0xFF);
      assert bytes[i..] == [counter % 256] + tail;
      assert BeBytes(counter, i + 1) + tail == BeBytes(counter / 256, i) + ([counter % 256] + tail);
      counter := Shr(counter, 8);
    }
    CounterFits(counter0);
    BytesSpell(counter0, EIGHT);
    assert bytes[..] == BeBytes(counter, 0) + bytes[0..];
  }

  // ---- truncation ----

  type Sha1 = h: seq<byte> | |h| == 20 witness seq(20, _ => 0)

  /** Dynamic truncation, section 5.3 of RFC 4226: four bytes at the offset that the last byte names,
      less the top bit. */
  function DynamicTruncation(h: Sha1): nat
  {
    var offset := h[19] % 16;
    BeValue(h[offset..offset + 4]) % 0x8000_0000
  }

  lemma {:induction false} OrUp(x: nat, y: nat, n: nat)
    ensures Or(Up(x, n), Up(y, n)) == Up(Or(x, y), n)
  {
    if n > 0 {
      OrUp(x, y, n - 1);
    }
  }

  /** One more byte joined below those there are. */
  lemma JoinByte(y: nat, b: byte, n: nat)
    requires n + 8 <= 32
    ensures Or(Up(y, n + 8), Shl(b, n, 32)) == Up(256 * y + b, n)
  {
    Pow2Of8();
    ShlExact(b, n, 8, 32);
    UpUp(y, 8, n);
    OrUp(Up(y, 8), b, n);
    OrDisjoint(b, y, 8);
    UpOf8(y);
  }

  lemma UpOf4(x: nat)
    ensures Up(x, 4) == 16 * x
  {
    assert Up(x, 1) == 2 * x && Up(x, 2) == 4 * x && Up(x, 3) == 8 * x;
  }

  lemma LowOf4(x: nat)
    ensures And(x, 0x0F) == x % 16
  {
    assert Pow2(4) == 16;
    AndMask(x, 4);
    var q, r := Shr(x, 4), Low(x, 4);
    DivisionByPow2(x, 4);
    UpOf4(q);
    RemainderIs(x, 16, q, r);
  }

  lemma LowOf7(x: nat)
    ensures And(x, 0x7F) == x % 128
  {
    assert Pow2(4) == 16 && Pow2(7) == 8 * Pow2(4);
    AndMask(x, 7);
    var q, r := Shr(x, 7), Low(x, 7);
    DivisionByPow2(x, 7);
    UpOf4(q);
    assert Up(q, 5) == 32 * q && Up(q, 6) == 64 * q && Up(q, 7) == 128 * q;
    RemainderIs(x, 128, q, r);
  }

  /** The number of four bytes in network order. */
  function Spelled(a: nat, b: nat, c: nat, d: nat): nat { 256 * (256 * (256 * a + b) + c) + d }

  lemma FourBytes(a: byte, b: byte, c: byte, d: byte)
    ensures BeValue([a, b, c, d]) == Spelled(a, b, c, d)
  {
    assert [a][..0] == [] && [a, b][..1] == [a] && [a, b, c][..2] == [a, b] && [a, b, c, d][..3] == [a, b, c];
    assert BeValue([a]) == a;
    assert BeValue([a, b]) == 256 * a + b;
    assert BeValue([a, b, c]) == 256 * (256 * a + b) + c;
  }

  lemma TopBitCleared(a: byte, b: byte, c: byte, d: byte)
    ensures Spelled(a % 128, b, c, d) == Spelled(a, b, c, d) % 0x8000_0000
  {
    var q, r := a / 128, a % 128;
    assert 256 * (256 * (256 * a + b) + c) + d == 0x8000_0000 * q + (256 * (256 * (256 * r + b) + c) + d);
  }

  /** Four bytes shifted into place. */
  function Assembled(a: byte, b: byte, c: byte, d: byte): nat
  {
    Or(Or(Or(Shl(a, 24, 32), Shl(b, 16, 32)), Shl(c, 8, 32)), d)
  }

  lemma Joined(a: byte, b: byte, c: byte, d: byte)
    ensures Assembled(a, b, c, d) == Spelled(a, b, c, d)
  {
    TopByte(a);
    JoinByte(a, b, 16);
    JoinByte(256 * a + b, c, 8);
    JoinByte(256 * (256 * a + b) + c, d, 0);
    ShlNone(d);
  }

  lemma FourBytesAt(h: Sha1, offset: nat)
    requires offset < 16
    ensures BeValue(h[offset..offset + 4]) ==
            Spelled(h[offset], h[offset + 1], h[offset + 2], h[offset + 3])
  {
    FourBytes(h[offset], h[offset + 1], h[offset + 2], h[offset + 3]);
    assert h[offset..offset + 4] == [h[offset], h[offset + 1], h[offset + 2], h[offset + 3]];
  }

  lemma Truncation(h: Sha1, offset: nat)
    requires offset < 16
    ensures Assembled(h[offset] % 128, h[offset + 1], h[offset + 2], h[offset + 3])
            == BeValue(h[offset..offset + 4]) % 0x8000_0000
  {
    var a, b, c, d := h[offset], h[offset + 1], h[offset + 2], h[offset + 3];
    Joined(a % 128, b, c, d);
    FourBytesAt(h, offset);
    TopBitCleared(a, b, c, d);
  }

  /** The shifts and masks that put the code together are the dynamic truncation. */
  method Truncate(h: Sha1) returns (binaryCode: nat)
    ensures binaryCode == DynamicTruncation(h)
  {
    LowOf4(h[19]);
    var offset := And(h[19], 0x0F);
    LowOf7(h[offset]);
    var top: byte := And(h[offset], 0x7F);
    binaryCode := Assembled(top, Byte(h[offset + 1]), Byte(h[offset + 2]), Byte(h[offset + 3]));
    Truncation(h, offset);
  }

  /** Masking a byte to eight bits. */
  function Byte(b: byte): (r: byte)
    ensures r == b
  {
    AndByte(b);
    And(b, 0xFF)
  }

  lemma TopByte(a: byte)
    ensures Shl(a, 24, 32) == Up(a, 16 + 8)
  {
    Pow2Of8();
    ShlExact(a, 24, 8, 32);
  }

  lemma ShlNone(d: byte)
    ensures Shl(d, 0, 32) == d
  {
    Pow2Of8();
    ShlExact(d, 0, 8, 32);
  }

  // ---- the code as text ----

  /** Zero-padded decimal digits. */
  function Digits(n: nat, width: nat): (s: string)
    ensures |s| == width && forall k :: 0 <= k < width ==> '0' <= s[k] <= '9'
  {
    if width == 0 then "" else Digits(n / 10, width - 1) + ['0' + (n % 10) as char]
  }

  function DecimalValue(s: string): nat
    requires forall k :: 0 <= k < |s| ==> '0' <= s[k] <= '9'
  {
    if s == "" then 0 else 10 * DecimalValue(s[..|s| - 1]) + (s[|s| - 1] - '0') as nat
  }

  /** Six digits spell every number below a million. */
  lemma SixDigits(n: nat)
    requires n < 1_000_000
    ensures DecimalValue(Digits(n, 6)) == n
  {
    DigitsSpell(n, 6, 1_000_000);
  }

  lemma {:induction false} DigitsSpell(n: nat, width: nat, bound: nat)
    requires n < bound && width <= 6 && bound == Power(width)
    ensures DecimalValue(Digits(n, width)) == n
  {
    if width > 0 {
      DigitsSpell(n / 10, width - 1, Power(width - 1));
      assert Digits(n, width)[..width - 1] == Digits(n / 10, width - 1);
    }
  }

  function Power(width: nat): nat { if width == 0 then 1 else 10 * Power(width - 1) }

  /** The code of RFC 6238 for a step of thirty seconds: a text of six digits that spells the truncation's last six. */
  ghost predicate IsCode(code: string, hmac: (seq<byte>, seq<byte>) -> Sha1, secret: seq<byte>, epochSeconds: u64)
  {
    exists key, counter: seq<byte> ::
      && Decodes(key, secret)
      && |counter| == 8 && BeValue(counter) == epochSeconds / 30
      && code == Digits(DynamicTruncation(hmac(key, counter)) % 1_000_000, 6)
  }

  /** None where decoding the secret throws. */
  method GenerateTotp(hmac: (seq<byte>, seq<byte>) -> Sha1, secret: seq<byte>, epochSeconds: u64)
    returns (code: Option<string>)
    ensures code.Some? <==> Decodable(secret)
    ensures code.Some? ==> IsCode(code.value, hmac, secret, epochSeconds)
  {
    var key := Base32Decode(secret);
    if key.None? {
      return None;
    }
    var counter := CounterBytes(epochSeconds / 30);
    var binaryCode := Truncate(hmac(key.value, counter[..]));
    code := Some(Digits(binaryCode % 1_000_000, 6));
    assert IsCode(code.value, hmac, secret, epochSeconds);
  }

  // ---- one code per step ----

  lemma {:induction false} BeValueUnique(s: seq<byte>, t: seq<byte>)
    requires |s| == |t| && BeValue(s) == BeValue(t)
    ensures s == t
    decreases |s|
  {
    if s != [] {
      var n := |s| - 1;
      assert s[n] == BeValue(s) % 256 && t[n] == BeValue(t) % 256;
      BeValueUnique(s[..n], t[..n]);
      assert s == s[..n] + [s[n]] && t == t[..n] + [t[n]];
    }
  }

  /** Within a step of thirty seconds a secret has one code, and it is six digits long. */
  lemma OneCode(c: string, d: string, hmac: (seq<byte>, seq<byte>) -> Sha1, secret: seq<byte>, s: u64, t: u64)
    requires IsCode(c, hmac, secret, s) && IsCode(d, hmac, secret, t) && s / 30 == t / 30
    ensures c == d && |c| == 6
  {
    var k1, n1: seq<byte> :| Decodes(k1, secret) && |n1| == 8 && BeValue(n1) == s / 30
                             && c == Digits(DynamicTruncation(hmac(k1, n1)) % 1_000_000, 6);
    var k2, n2: seq<byte> :| Decodes(k2, secret) && |n2| == 8 && BeValue(n2) == t / 30
                             && d == Digits(DynamicTruncation(hmac(k2, n2)) % 1_000_000, 6);
    OneDecoding(k1, k2, secret);
    BeValueUnique(n1, n2);
  }

  lemma OneDecoding(a: seq<byte>, b: seq<byte>, secret: seq<byte>)
    requires Decodes(a, secret) && Decodes(b, secret)
    ensures a == b
  {
    SameBytes(a, b);
  }

  // ---- new secrets ----

  /** Thirty-two letters drawn from the alphabet: they decode, to exactly twenty bytes. */
  method NewBase32Secret(draws: seq<u64>) returns (secret: seq<byte>)
    requires |draws| == 32
    ensures |secret| == 32 && Decodable(secret)
    ensures forall key :: Decodes(key, secret) ==> |key| == 20
  {
    secret := [];
    for i := 0 to 32
      invariant |secret| == i && Decodable(secret) && |Values(secret)| == i
    {
      ValuesStep(secret, Alphabet(draws[i] % 32));
      secret := secret + [Alphabet(draws[i] % 32)];
    }
  }
}
