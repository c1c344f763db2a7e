/** The six-bit codec for item signatures: `EncodeStringSignature` and its decoder. */
module Signature {
  import opened Bits
  import opened BitPacking
  import opened Sextets
  import opened CStrings

  const SIGNATURE_STRING_LENGTH := 16

  /** 0-9, A-Z, a-z are 1 to 62; anything else is 0. */
  function CharCode(c: byte): (r: nat)
    ensures r < 63 && (r == 0 <==> !IsAlnum(c))
  {
    if IsDigit(c) then c - 48 + 1
    else if IsUpper(c) then c - 65 + 11
    else if IsLower(c) then c - 97 + 37
    else 0
  }

  function CodeChar(code: nat): (r: byte)
    requires code < 64
    ensures r == 0 <==> code == 0
  {
    if 1 <= code <= 10 then 48 - 1 + code
    else if 11 <= code <= 36 then 65 - 11 + code
    else if 37 <= code <= 62 then 97 - 37 + code
    else code
  }

  /** The codes from 1 on, in the order of the characters; everything else is 0. */
  lemma CodeOrder(c: byte, k: nat)
    ensures k < 26 && LOWERS[k] as int == c ==> CharCode(c) == 37 + k
    ensures k < 26 && UPPERS[k] as int == c ==> CharCode(c) == 11 + k
    ensures k < 10 && DIGITS[k] as int == c ==> CharCode(c) == 1 + k
    ensures CharCode(c) == 0 <==> c as char !in LOWERS && c as char !in UPPERS && c as char !in DIGITS
  {
    CharClasses(c);
    CharPlaces(k);
  }

  lemma CodeCharInverse(c: byte)
    requires IsAlnum(c)
    ensures CodeChar(CharCode(c)) == c
  {
  }

  function Codes(s: seq<byte>): (r: seq<nat>)
    ensures |r| == |s| && SixBits(r)
  {
    seq(|s|, k requires 0 <= k < |s| => CharCode(s[k]))
  }

  function Kept(signature: seq<byte>): (s: seq<byte>)
    ensures |s| <= 15 && s <= signature && (|s| < 15 ==> s == signature)
  {
    if |signature| <= 15 then signature else signature[..15]
  }

  /** `packed` is the 16-byte buffer of the encoding of `s`, before it is copied out. */
  ghost predicate Packed(packed: seq<byte>, s: seq<byte>) {
    |packed| == 16 && |s| <= 15 && HoldsCodes(packed, Codes(s), |s|)
  }

  /** What strncpy makes of the buffer: its bytes up to the first zero byte, then zeros. */
  ghost predicate CopiedOut(target: seq<byte>, packed: seq<byte>) {
    && |target| == |packed| == 16
    && var text := CString(packed);
       forall k :: 0 <= k < 16 ==> target[k] == if k < |text| then text[k] else 0
  }

  method EncodeStringSignature(signature: seq<byte>, target: array<byte>) returns (ghost packed: seq<byte>)
    requires target.Length >= SIGNATURE_STRING_LENGTH
    modifies target
    ensures Packed(packed, Kept(signature)) && CopiedOut(target[..16], packed)
    ensures target[16..] == old(target[16..])
  {
    var encodedSignature := Pack(signature);
    packed := encodedSignature[..];
    assert packed[..16] == packed;
    StrNCpy(target, encodedSignature[..], SIGNATURE_STRING_LENGTH);
  }

  method Pack(signature: seq<byte>) returns (encodedSignature: array<byte>)
    ensures fresh(encodedSignature) && Packed(encodedSignature[..], Kept(signature))
  {
    encodedSignature := new byte[16](_ => 0);
    var length := if |signature| <= 15 then |signature| else 15;
    ghost var codes := Codes(Kept(signature));
    BlankBits(encodedSignature[..]);
    for currChar := 0 to length
      invariant HoldsCodes(encodedSignature[..], codes, currChar)
    {
      ghost var before := encodedSignature[..];
      var _ := PackBitsLE(encodedSignature, CharCode(signature[currChar]), 0, 6 * currChar, 6);
      CodeWritten(before, encodedSignature[..], codes, currChar);
    }
  }

  /** The characters of the 16 sextets. */
  function Characters(s: seq<byte>): (r: seq<byte>)
    requires |s| >= 12
    ensures |r| == 16 && forall k :: 0 <= k < 16 ==> r[k] == CodeChar(SextetsOf(s, 16)[k])
  {
    seq(16, k requires 0 <= k < 16 => CodeChar(SextetsOf(s, 16)[k]))
  }

  method DecodeStringSignature(signature: array<byte>, target: array<byte>)
    requires signature.Length >= 12 && target.Length >= SIGNATURE_STRING_LENGTH
    modifies target
    ensures CString(target[..16]) == CString(Characters(old(signature[..])))
    ensures target[16..] == old(target[16..])
  {
    ghost var characters := Characters(signature[..]);
    var decodedSignature := ReadCharacters(signature);
    StrNCpy(target, decodedSignature[..], SIGNATURE_STRING_LENGTH);
    CopiedText(target[..16], CString(characters));
  }

  /** The decoding loop: sixteen characters and a NUL. */
  method ReadCharacters(signature: array<byte>) returns (decodedSignature: array<byte>)
    requires signature.Length >= 12
    ensures fresh(decodedSignature) && decodedSignature.Length == 17
    ensures decodedSignature[..][..16] == Characters(signature[..])
  {
    decodedSignature := new byte[17](_ => 0);
    ghost var text := signature[..];
    ghost var characters := Characters(text);
    for currChar := 0 to 16
      invariant signature[..] == text
      invariant forall k :: 0 <= k < currChar ==> decodedSignature[k] == characters[k]
    {
      var tempChar := ReadSextet(signature, currChar);
      decodedSignature[currChar] := CodeChar(tempChar);
    }
  }

  // ---- round trip ----

  /** 'F', 'V' and 'l': the codes 16, 32 and 48. */
  predicate LeavesLow(c: byte) {
    c == 70 || c == 86 || c == 108
  }

  /** '0', '1' and '2': the codes 1, 2 and 3. */
  predicate LeavesHigh(c: byte) {
    c == 48 || c == 49 || c == 50
  }

  /** Two neighbouring characters whose codes leave a zero byte between them: the second of
      a group of four is 'F', 'V' or 'l' and the third is '0', '1' or '2'. */
  predicate CollidesAt(s: seq<byte>, i: nat)
    requires i + 1 < |s|
  {
    i % 4 == 1 && LeavesLow(s[i]) && LeavesHigh(s[i + 1])
  }

  predicate Collides(s: seq<byte>) {
    exists i: nat :: i + 1 < |s| && CollidesAt(s, i)
  }

  lemma ZeroByte(s: seq<byte>, b: nat)
    requires b < |s|
    ensures s[b] == 0 <==> forall p: nat :: 8 * b <= p < 8 * b + 8 ==> !HighFirst(s, p)
  {
    if s[b] == 0 {
      forall p: nat | 8 * b <= p < 8 * b + 8 ensures !HighFirst(s, p) {
        BitOfZero(7 - p % 8);
      }
    }
    if forall p: nat :: 8 * b <= p < 8 * b + 8 ==> !HighFirst(s, p) {
      forall i: nat | i < 8 ensures Bit(s[b], i) == Bit(0, i) {
        BitOfZero(i);
        assert !HighFirst(s, 8 * b + 7 - i);
      }
      Pow2Of8();
      BitsEqual(s[b], 0, 8);
    }
  }

  /** The copy's bits: the buffer's up to its first zero byte. */
  lemma CopiedBit(target: seq<byte>, packed: seq<byte>, p: nat)
    requires CopiedOut(target, packed) && p < 128
    ensures HighFirst(target, p) == (p < 8 * |CString(packed)| && HighFirst(packed, p))
  {
    if p >= 8 * |CString(packed)| {
      BitOfZero(7 - p % 8);
    }
  }

  /** The last four bits of a sextet. */
  lemma LowFour(s: seq<byte>, at: nat)
    requires at + 6 <= 8 * |s|
    ensures FieldHigh(s, at, 6) % 16 == 0 <==> forall p: nat :: at + 2 <= p < at + 6 ==> !HighFirst(s, p)
  {
    SextetDigits(s, at);
    ZeroField(s, at + 2, 4);
    FourDigits(s, at + 2);
  }

  /** The first four bits of a sextet. */
  lemma HighFour(s: seq<byte>, at: nat)
    requires at + 6 <= 8 * |s|
    ensures FieldHigh(s, at, 6) < 4 <==> forall p: nat :: at <= p < at + 4 ==> !HighFirst(s, p)
  {
    SextetDigits(s, at);
    ZeroField(s, at, 4);
    FourDigits(s, at);
  }

  lemma FourDigits(s: seq<byte>, at: nat)
    requires at + 4 <= 8 * |s|
    ensures FieldHigh(s, at, 4) ==
            8 * Digit(HighFirst(s, at)) + 4 * Digit(HighFirst(s, at + 1))
            + 2 * Digit(HighFirst(s, at + 2)) + Digit(HighFirst(s, at + 3))
  {
    assert FieldHigh(s, at, 1) == Digit(HighFirst(s, at));
    assert FieldHigh(s, at, 2) == 2 * FieldHigh(s, at, 1) + Digit(HighFirst(s, at + 1));
    assert FieldHigh(s, at, 3) == 2 * FieldHigh(s, at, 2) + Digit(HighFirst(s, at + 2));
  }

  /** Where a code's low four bits and the next code's high four bits are zero. */
  lemma GapByte(packed: seq<byte>, k: nat)
    requires 24 * k + 24 <= 8 * |packed|
    ensures packed[3 * k + 1] == 0 <==>
              FieldHigh(packed, 24 * k + 6, 6) % 16 == 0 && FieldHigh(packed, 24 * k + 12, 6) < 4
  {
    var at := 24 * k + 8;
    ZeroByte(packed, 3 * k + 1);
    LowFour(packed, at - 2);
    HighFour(packed, at + 4);
  }

  lemma CodeOfGap(c: byte)
    requires IsAlnum(c)
    ensures CharCode(c) % 16 == 0 <==> LeavesLow(c)
    ensures CharCode(c) < 4 <==> LeavesHigh(c)
  {
  }

  /** The code of character `j` in the buffer. */
  lemma CodeAt(packed: seq<byte>, s: seq<byte>, j: nat)
    requires Packed(packed, s) && j < |s|
    ensures FieldHigh(packed, 6 * j, 6) == CharCode(s[j])
  {
    assert FieldHigh(packed, 6 * j, 6) == Codes(s)[j];
  }

  /** No zero byte holds the whole code of a letter or digit. */
  lemma WholeCode(packed: seq<byte>, s: seq<byte>, j: nat, b: nat)
    requires Packed(packed, s) && j < |s| && IsAlnum(s[j])
    requires 8 * b <= 6 * j && 6 * j + 6 <= 8 * b + 8 <= 128
    ensures packed[b] != 0
  {
    CodeAt(packed, s, j);
    ZeroByte(packed, b);
    SextetDigits(packed, 6 * j);
  }

  /** How much of a signature survives: up to the first character that is no letter or digit, or that
      stands second in a collision. */
  function Cut(s: seq<byte>): (j: nat)
    ensures j <= |s| && AllAlnum(s[..j]) && !Collides(s[..j])
    ensures forall k :: 0 <= k < j ==> IsAlnum(s[k])
    ensures forall k: nat :: k + 1 < j ==> !CollidesAt(s, k)
    ensures j < |s| ==> !IsAlnum(s[j]) || (j >= 1 && CollidesAt(s, j - 1))
    ensures j == |s| <==> AllAlnum(s) && !Collides(s)
  {
    var j := CutFrom(s, 0);
    assert forall i :: 0 <= i < j ==> s[i] == s[..j][i];
    assert forall i: nat :: i + 1 < j ==> CollidesAt(s[..j], i) == CollidesAt(s, i);
    assert j == |s| ==> s[..j] == s;
    j
  }

  function CutFrom(s: seq<byte>, i: nat): (j: nat)
    requires i <= |s|
    ensures i <= j <= |s|
    ensures forall k :: i <= k < j ==> IsAlnum(s[k])
    ensures forall k: nat :: i <= k + 1 < j ==> !CollidesAt(s, k)
    ensures j < |s| ==> !IsAlnum(s[j]) || (j >= 1 && CollidesAt(s, j - 1))
    decreases |s| - i
  {
    if i == |s| || !IsAlnum(s[i]) || (i >= 1 && CollidesAt(s, i - 1)) then i else CutFrom(s, i + 1)
  }

  /** Two neighbours that do not collide leave a bit between them. */
  lemma MiddleByte(packed: seq<byte>, s: seq<byte>, k: nat)
    requires Packed(packed, s) && 4 * k + 2 < |s| && IsAlnum(s[4 * k + 1]) && IsAlnum(s[4 * k + 2])
    ensures packed[3 * k + 1] == 0 <==> CollidesAt(s, 4 * k + 1)
  {
    GapByte(packed, k);
    CodeAt(packed, s, 4 * k + 1);
    CodeAt(packed, s, 4 * k + 2);
    CodeOfGap(s[4 * k + 1]);
    CodeOfGap(s[4 * k + 2]);
  }

  /** The copy loses no bit of the characters before the cut. */
  lemma NothingLost(packed: seq<byte>, s: seq<byte>, p: nat)
    requires Packed(packed, s) && 8 * |CString(packed)| <= p < 6 * Cut(s)
    ensures !HighFirst(packed, p)
  {
    var zero, cut := |CString(packed)|, Cut(s);
    var k := zero / 3;
    ZeroByte(packed, zero);
    if zero == 3 * k {
      WholeCode(packed, s, 4 * k, zero);
    } else if zero == 3 * k + 1 && 4 * k + 2 < cut {
      MiddleByte(packed, s, k);
    } else if zero == 3 * k + 2 && 4 * k + 3 < cut {
      WholeCode(packed, s, 4 * k + 3, zero);
    }
  }

  /** A sextet of the copy is zero when the buffer's is. */
  lemma ZeroStays(target: seq<byte>, packed: seq<byte>, j: nat)
    requires CopiedOut(target, packed) && j < 16
    requires FieldHigh(packed, 6 * j, 6) == 0 || 8 * |CString(packed)| <= 6 * j
    ensures SextetsOf(target, 16)[j] == 0
  {
    ZeroField(packed, 6 * j, 6);
    forall p: nat | 6 * j <= p < 6 * j + 6 ensures !HighFirst(target, p) {
      CopiedBit(target, packed, p);
    }
    ZeroField(target, 6 * j, 6);
  }

  lemma CutShort(characters: seq<byte>, j: nat)
    requires j < |characters| && characters[j] == 0
    ensures |CString(characters)| <= j
  {
    assert |CString(characters)| > j ==> CString(characters)[j] == characters[j];
  }

  /** The characters before the cut come back. */
  lemma BeforeCut(target: seq<byte>, packed: seq<byte>, s: seq<byte>, j: nat)
    requires Packed(packed, s) && CopiedOut(target, packed) && j < Cut(s)
    ensures Characters(target)[j] == s[j] != 0
  {
    forall p: nat | 6 * j <= p < 6 * j + 6 ensures HighFirst(target, p) == HighFirst(packed, p) {
      CopiedBit(target, packed, p);
      if p >= 8 * |CString(packed)| {
        NothingLost(packed, s, p);
      }
    }
    FieldHighSame(target, packed, 6 * j, 6);
    CodeAt(packed, s, j);
    assert s[..Cut(s)][j] == s[j];
    CodeCharInverse(s[j]);
  }

  lemma CollisionCuts(target: seq<byte>, packed: seq<byte>, s: seq<byte>, i: nat)
    requires Packed(packed, s) && CopiedOut(target, packed) && i + 1 < |s| && CollidesAt(s, i)
    ensures SextetsOf(target, 16)[i + 1] == 0
  {
    var k := i / 4;
    assert i == 4 * k + 1;
    MiddleByte(packed, s, k);
    CutShort(packed, 3 * k + 1);
    ZeroStays(target, packed, i + 1);
  }

  /** The character at the cut comes back as the end of the string. */
  lemma AtCut(target: seq<byte>, packed: seq<byte>, s: seq<byte>)
    requires Packed(packed, s) && CopiedOut(target, packed)
    ensures Characters(target)[Cut(s)] == 0
  {
    var cut := Cut(s);
    if cut == |s| {
      ZeroField(packed, 6 * cut, 6);
      ZeroStays(target, packed, cut);
    } else if !IsAlnum(s[cut]) {
      CodeAt(packed, s, cut);
      ZeroStays(target, packed, cut);
    } else {
      CollisionCuts(target, packed, s, cut - 1);
    }
  }

  /** What comes back of any signature: the part before its cut. */
  lemma ComesBack(target: seq<byte>, packed: seq<byte>, s: seq<byte>)
    requires Packed(packed, s) && CopiedOut(target, packed)
    ensures CString(Characters(target)) == s[..Cut(s)]
  {
    forall j: nat | j < Cut(s) ensures Characters(target)[j] == s[..Cut(s)][j] != 0 {
      BeforeCut(target, packed, s, j);
    }
    AtCut(target, packed, s);
    CStringIs(Characters(target), s[..Cut(s)]);
  }

  lemma RoundTripFails(target: seq<byte>, packed: seq<byte>, s: seq<byte>)
    requires Packed(packed, s) && CopiedOut(target, packed) && (!AllAlnum(s) || Collides(s))
    ensures CString(Characters(target)) == s[..Cut(s)] && Cut(s) < |s|
  {
    ComesBack(target, packed, s);
  }

  /** Decoding gives back the part of a signature before its cut: all of it exactly when it is letters
      and digits and no two of its characters collide. */
  lemma RoundTrip(signature: seq<byte>, target: seq<byte>, packed: seq<byte>)
    requires Packed(packed, Kept(signature)) && CopiedOut(target, packed)
    ensures CString(Characters(target)) == Kept(signature)[..Cut(Kept(signature))]
    ensures CString(Characters(target)) == Kept(signature) <==>
              AllAlnum(Kept(signature)) && !Collides(Kept(signature))
  {
    ComesBack(target, packed, Kept(signature));
    assert Kept(signature)[..|Kept(signature)|] == Kept(signature);
  }

  /** "AF0" comes back as "AF": its second packed byte is zero. */
  lemma CollisionExample(target: seq<byte>, packed: seq<byte>)
    requires Packed(packed, [65, 70, 48]) && CopiedOut(target, packed)
    ensures CString(Characters(target)) == [65, 70]
  {
    var s: seq<byte> := [65, 70, 48];
    assert CollidesAt(s, 1);
    ComesBack(target, packed, s);
    assert s[..2] == [65, 70];
  }
}
