/** The six-bit codec for linkshell names: `EncodeStringLinkshell` and its decoder. */
module Linkshell {
  import opened Bits
  import opened BitPacking
  import opened Sextets
  import opened CStrings

  const LINKSHELL_STRING_LENGTH := 20

  /** a-z, A-Z, 0-9 are 1 to 62; anything else is 0. */
  function CharCode(c: byte): (r: nat)
    ensures r < 63 && (r == 0 <==> !IsAlnum(c))
  {
    if IsDigit(c) then c - 48 + 53
    else if IsUpper(c) then c - 65 + 27
    else if IsLower(c) then c - 97 + 1
    else 0
  }

  function Codes(s: seq<byte>): (r: seq<nat>)
    ensures |r| == |s| && SixBits(r)
  {
    seq(|s|, k requires 0 <= k < |s| => CharCode(s[k]))
  }

  function CodeChar(code: nat): (r: byte)
    requires code < 64
    ensures 1 <= code <= 62 ==> CharCode(r) == code
  {
    if 1 <= code <= 26 then 97 - 1 + code
    else if 27 <= code <= 52 then 65 - 27 + code
    else if 53 <= code <= 62 then 48 - 53 + code
    else code
  }

  /** The codes from 1 on, in the order of the characters; everything else is 0. */
  lemma CodeOrder(c: byte, k: nat)
    ensures k < 26 && LOWERS[k] as int == c ==> CharCode(c) == 1 + k
    ensures k < 26 && UPPERS[k] as int == c ==> CharCode(c) == 27 + k
    ensures k < 10 && DIGITS[k] as int == c ==> CharCode(c) == 53 + k
    ensures CharCode(c) == 0 <==> c as char !in LOWERS && c as char !in UPPERS && c as char !in DIGITS
  {
    CharClasses(c);
    CharPlaces(k);
  }

  lemma CodeCharInverse(c: byte)
    requires IsAlnum(c)
    ensures CodeChar(CharCode(c)) == c
  {
  }

  function Kept(signature: seq<byte>): (s: seq<byte>)
    ensures |s| <= 20 && s <= signature && (|s| < 20 ==> s == signature)
  {
    if |signature| <= 20 then signature else signature[..20]
  }

  /** Sextet `j` of the encoding of `s`: the characters, one terminator, zeros.  When the
      length leaves four bits of a byte, the terminator has only its high four bits set. */
  function Sextet(s: seq<byte>, j: nat): nat {
    if j < |s| then CharCode(s[j])
    else if j == |s| then (if |s| % 4 == 2 then 60 else 63)
    else 0
  }

  /** The 20 bytes are exactly the encoding of `s`. */
  ghost predicate Encodes(bytes: seq<byte>, s: seq<byte>) {
    && |bytes| == 20
    && (forall j: nat :: j < 26 ==> FieldHigh(bytes, 6 * j, 6) == Sextet(s, j))
    && (forall p: nat :: 156 <= p < 160 ==> !HighFirst(bytes, p))
  }

  method EncodeStringLinkshell(signature: seq<byte>, target: array<byte>)
    requires target.Length >= LINKSHELL_STRING_LENGTH
    modifies target
    ensures Encodes(target[..20], Kept(signature))
    ensures target[20..] == old(target[20..])
  {
    var encodedSignature := Pack(signature);
    MemCpy(target, encodedSignature[..]);
  }

  /** The local buffer's contents: the characters, then the terminator. */
  method Pack(signature: seq<byte>) returns (encodedSignature: array<byte>)
    ensures fresh(encodedSignature) && Encodes(encodedSignature[..], Kept(signature))
  {
    encodedSignature := new byte[20](_ => 0);
    var chars := 0;
    var length := if |signature| <= 20 then |signature| else 20;
    ghost var s := Kept(signature);
    ghost var codes := Codes(s);
    BlankBits(encodedSignature[..]);
    for currChar := 0 to length
      invariant chars == currChar && HoldsCodes(encodedSignature[..], codes, currChar)
    {
      ghost var before := encodedSignature[..];
      var _ := PackBitsLE(encodedSignature, CharCode(signature[currChar]), 0, 6 * currChar, 6);
      CodeWritten(before, encodedSignature[..], codes, currChar);
      chars := chars + 1;
    }
    PackTerminator(encodedSignature, chars, s);
  }

  method PackTerminator(encodedSignature: array<byte>, chars: nat, ghost s: seq<byte>)
    requires chars == |s| <= 20 && encodedSignature.Length == 20
    requires HoldsCodes(encodedSignature[..], Codes(s), chars)
    modifies encodedSignature
    ensures Encodes(encodedSignature[..], s)
  {
    var leftover := (chars * 6) % 8;
    leftover := 8 - leftover;
    leftover := if leftover == 8 || leftover == 2 then 6 else leftover;
    ghost var before := encodedSignature[..];
    var _ := PackBitsLE(encodedSignature, 0xFF, 0, 6 * chars, leftover);
    TerminatorWritten(before, encodedSignature[..], s, leftover);
  }

  lemma TerminatorWritten(before: seq<byte>, after: seq<byte>, s: seq<byte>, leftover: nat)
    requires |s| <= 20 == |before| && HoldsCodes(before, Codes(s), |s|)
    requires leftover == if |s| % 4 == 2 then 4 else 6
    requires WroteHigh(before, after, 6 * |s|, leftover, 0xFF)
    ensures Encodes(after, s)
  {
    forall p: nat | 6 * |s| <= p < 160 ensures HighFirst(after, p) == (p < 6 * |s| + leftover) {
      if p < 6 * |s| + leftover {
        Pow2Of8();
        BitMask(8, 6 * |s| + leftover - 1 - p);
      }
    }
    forall j: nat | j < 26 ensures FieldHigh(after, 6 * j, 6) == Sextet(s, j) {
      if j < |s| {
        ReadElsewhere(before, after, 6 * |s|, leftover, 0xFF, 6 * j, 6);
      } else {
        SextetDigits(after, 6 * j);
      }
    }
  }

  // ---- decoding ----

  /** What the decoder makes of the sextets from `i` on, given the characters so far: a
      zero ends the name and takes the character before it away, 63 ends the name. */
  function Read(codes: seq<nat>, i: nat, done: seq<byte>): seq<byte>
    requires SixBits(codes) && i <= |codes|
    decreases |codes| - i
  {
    if i == |codes| then done
    else if codes[i] == 0 then (if done == [] then [] else done[..|done| - 1])
    else if codes[i] == 63 then done
    else Read(codes, i + 1, done + [CodeChar(codes[i])])
  }

  function SextetCount(size: nat): (n: nat)
    ensures n <= 20 && 6 * n <= 8 * size && (n < 20 ==> 8 * size < 6 * (n + 1))
  {
    var n := size * 8 / 6;
    assert 8 * size == 6 * n + size * 8 % 6;
    if n <= 20 then n else 20
  }

  method DecodeStringLinkshell(signature: array<byte>, target: array<byte>)
    requires target.Length >= LINKSHELL_STRING_LENGTH
    modifies target
    ensures CString(target[..20]) == Read(SextetsOf(old(signature[..]), SextetCount(signature.Length)), 0, [])
    ensures target[20..] == old(target[20..])
  {
    var decodedSignature := new byte[21](_ => 0);
    ghost var result := ReadInto(signature, decodedSignature);
    ghost var text := decodedSignature[..];
    PlainText(text, result);
    StrNCpy(target, decodedSignature[..], LINKSHELL_STRING_LENGTH);
    assert CString(text[..20]) == result;
    CopiedText(target[..20], result);
  }

  /** The decoding loop. */
  method ReadInto(signature: array<byte>, decodedSignature: array<byte>) returns (ghost done: seq<byte>)
    requires signature != decodedSignature && Plain(decodedSignature[..], [])
    modifies decodedSignature
    ensures done == Read(SextetsOf(signature[..], SextetCount(signature.Length)), 0, [])
    ensures Plain(decodedSignature[..], done)
  {
    var length := SextetCount(signature.Length);
    ghost var text := signature[..];
    ghost var codes := SextetsOf(text, length);
    ghost var result := Read(codes, 0, []);
    done := [];
    var currChar := 0;
    while currChar < length
      invariant 0 <= currChar <= length && |done| == currChar && signature[..] == text
      invariant Plain(decodedSignature[..], done)
      invariant result == Read(codes, currChar, done)
    {
      var tempChar := ReadSextet(signature, currChar);
      assert tempChar == codes[currChar];
      var c := CodeChar(tempChar);
      if c == 0 {
        var at := if currChar == 0 then currChar else currChar - 1;
        Put(decodedSignature, at, 0, done, done[..at]);
        done := done[..at];
        break;
      }
      if c == 63 {
        Put(decodedSignature, currChar, 0, done, done);
        break;
      }
      Put(decodedSignature, currChar, c, done, done + [c]);
      done := done + [c];
      currChar := currChar + 1;
    }
    assert done == result && signature[..] == text;
  }

  /** One character stored: the text becomes `next`. */
  method Put(buffer: array<byte>, at: nat, c: byte, ghost done: seq<byte>, ghost next: seq<byte>)
    requires Plain(buffer[..], done) && at <= |done| <= at + 1 && at < 20
    requires next == if c == 0 then done[..at] else done + [c]
    requires c != 0 ==> at == |done|
    modifies buffer
    ensures Plain(buffer[..], next)
  {
    buffer[at] := c;
  }

  /** A buffer that holds `done` and NULs. */
  ghost predicate Plain(buffer: seq<byte>, done: seq<byte>) {
    && |buffer| == 21 && |done| <= 20
    && (forall k :: 0 <= k < 21 ==> buffer[k] == if k < |done| then done[k] else 0)
    && (forall k :: 0 <= k < |done| ==> done[k] != 0)
  }

  lemma PlainText(buffer: seq<byte>, done: seq<byte>)
    requires Plain(buffer, done)
    ensures CString(buffer[..20]) == done
  {
    CStringIs(buffer[..20], done);
  }

  // ---- round trip ----

  /** What is left of a name after encoding and decoding: all of it when it is letters and
      digits; otherwise the part before the first other character, less one. */
  function Survivor(s: seq<byte>): (r: seq<byte>)
    ensures r <= s
    ensures r == s <==> AllAlnum(s)
  {
    if AllAlnum(s) then s
    else
      var p := Alnums(s);
      if p == 0 then [] else s[..p - 1]
  }

  function Alnums(s: seq<byte>): (p: nat)
    ensures p <= |s| && AllAlnum(s[..p]) && (p < |s| ==> !IsAlnum(s[p]))
  {
    if s == [] || !IsAlnum(s[0]) then 0
    else
      var p := 1 + Alnums(s[1..]);
      assert forall k :: 1 <= k < p ==> s[..p][k] == s[1..][..p - 1][k - 1];
      p
  }

  /** Reading the sextets of letters and digits. */
  lemma {:induction false} ReadChars(codes: seq<nat>, s: seq<byte>, i: nat, n: nat)
    requires i <= n <= |s| && n <= |codes| && AllAlnum(s[..n]) && SixBits(codes)
    requires forall k :: 0 <= k < n ==> codes[k] == CharCode(s[k])
    ensures Read(codes, i, s[..i]) == Read(codes, n, s[..n])
    decreases n - i
  {
    if i < n {
      assert s[..n][i] == s[i];
      CodeCharInverse(s[i]);
      assert s[..i] + [s[i]] == s[..i + 1];
      ReadChars(codes, s, i + 1, n);
    }
  }

  /** A name of letters and digits reads up to its terminator; a four-bit terminator reads
      as '7', which the zero after it takes away. */
  lemma ReadTerminator(codes: seq<nat>, s: seq<byte>)
    requires |codes| == 20 && |s| <= 20 && SixBits(codes)
    requires forall k :: 0 <= k < 20 ==> codes[k] == Sextet(s, k)
    ensures Read(codes, |s|, s) == s
  {
    if |s| % 4 == 2 {
      var seven := CodeChar(60);
      assert Read(codes, |s|, s) == Read(codes, |s| + 1, s + [seven]);
      assert (s + [seven])[..|s|] == s;
    }
  }

  lemma ReadCodes(codes: seq<nat>, s: seq<byte>)
    requires |codes| == 20 && |s| <= 20 && SixBits(codes)
    requires forall k :: 0 <= k < 20 ==> codes[k] == Sextet(s, k)
    ensures Read(codes, 0, []) == Survivor(s)
  {
    var p := if AllAlnum(s) then |s| else Alnums(s);
    assert AllAlnum(s) ==> s[..|s|] == s;
    assert s[..0] == [];
    ReadChars(codes, s, 0, p);
    if AllAlnum(s) {
      ReadTerminator(codes, s);
    }
  }

  /** Decoding the encoding of any name. */
  lemma RoundTrip(signature: seq<byte>, encoded: seq<byte>)
    requires Encodes(encoded, Kept(signature))
    ensures Read(SextetsOf(encoded, SextetCount(20)), 0, []) == Survivor(Kept(signature))
  {
    var s := Kept(signature);
    var codes := SextetsOf(encoded, 20);
    forall k: nat | k < 20 ensures codes[k] == Sextet(s, k) {
      assert FieldHigh(encoded, 6 * k, 6) == Sextet(s, k);
    }
    ReadCodes(codes, s);
  }
}
