/** Runs of six-bit codes in a byte buffer, as the name codecs keep them. */
module Sextets {
  import opened Bits
  import opened BitPacking

  predicate SixBits(codes: seq<nat>) {
    forall k :: 0 <= k < |codes| ==> codes[k] < 64
  }

  lemma SextetDigits(s: seq<byte>, at: nat)
    requires at + 6 <= 8 * |s|
    ensures FieldHigh(s, at, 6) ==
            32 * Digit(HighFirst(s, at)) + 16 * Digit(HighFirst(s, at + 1)) + 8 * Digit(HighFirst(s, at + 2))
            + 4 * Digit(HighFirst(s, at + 3)) + 2 * Digit(HighFirst(s, at + 4)) + Digit(HighFirst(s, at + 5))
  {
    assert FieldHigh(s, at, 1) == Digit(HighFirst(s, at));
    assert FieldHigh(s, at, 2) == 2 * FieldHigh(s, at, 1) + Digit(HighFirst(s, at + 1));
    assert FieldHigh(s, at, 3) == 2 * FieldHigh(s, at, 2) + Digit(HighFirst(s, at + 2));
    assert FieldHigh(s, at, 4) == 2 * FieldHigh(s, at, 3) + Digit(HighFirst(s, at + 3));
    assert FieldHigh(s, at, 5) == 2 * FieldHigh(s, at, 4) + Digit(HighFirst(s, at + 4));
  }

  /** A field is zero exactly when all its bits are. */
  lemma {:induction false} ZeroField(s: seq<byte>, at: nat, len: nat)
    requires at + len <= 8 * |s|
    ensures FieldHigh(s, at, len) == 0 <==> forall p: nat :: at <= p < at + len ==> !HighFirst(s, p)
  {
    if len > 0 {
      ZeroField(s, at, len - 1);
      assert FieldHigh(s, at, len) == 2 * FieldHigh(s, at, len - 1) + Digit(HighFirst(s, at + len - 1));
    }
  }

  /** The six-bit reads of the name codecs. */
  method ReadSextet(target: array<byte>, index: nat) returns (code: nat)
    requires 6 * index + 6 <= 8 * target.Length
    ensures code == FieldHigh(target[..], 6 * index, 6) < 64
  {
    code := UnpackBitsLE(target, 0, 6 * index, 6);
    ReadsHighUnique(target[..], 6 * index, 6, code);
    assert Pow2(6) == 64;
  }

  function SextetsOf(s: seq<byte>, n: nat): (r: seq<nat>)
    requires 6 * n <= 8 * |s|
    ensures |r| == n && SixBits(r)
    ensures forall k :: 0 <= k < n ==> r[k] == FieldHigh(s, 6 * k, 6)
  {
    if n == 0 then []
    else
      FieldHighReads(s, 6 * (n - 1), 6);
      assert Pow2(6) == 64;
      SextetsOf(s, n - 1) + [FieldHigh(s, 6 * (n - 1), 6)]
  }

  /** The first `i` codes are in place, and nothing behind them. */
  ghost predicate HoldsCodes(bytes: seq<byte>, codes: seq<nat>, i: nat) {
    && i <= |codes| && 6 * |codes| <= 8 * |bytes|
    && (forall j: nat :: j < i ==> FieldHigh(bytes, 6 * j, 6) == codes[j])
    && (forall p: nat :: 6 * i <= p < 8 * |bytes| ==> !HighFirst(bytes, p))
  }

  lemma BlankBits(bytes: seq<byte>)
    requires forall k :: 0 <= k < |bytes| ==> bytes[k] == 0
    ensures forall p: nat :: p < 8 * |bytes| ==> !HighFirst(bytes, p)
  {
    forall p: nat | p < 8 * |bytes| ensures !HighFirst(bytes, p) {
      BitOfZero(7 - p % 8);
    }
  }

  lemma CodeWritten(before: seq<byte>, after: seq<byte>, codes: seq<nat>, i: nat)
    requires i < |codes| && SixBits(codes) && HoldsCodes(before, codes, i)
    requires WroteHigh(before, after, 6 * i, 6, codes[i])
    ensures HoldsCodes(after, codes, i + 1)
  {
    ReadBack(before, after, 6 * i, 6, codes[i]);
    assert Pow2(6) == 64;
    LowSmall(codes[i], 6);
    forall j: nat | j < i ensures FieldHigh(after, 6 * j, 6) == codes[j] {
      ReadElsewhere(before, after, 6 * i, 6, codes[i], 6 * j, 6);
    }
  }
}
