/** Bit fields in byte buffers: `packBitsBE/LE` and `unpackBitsBE/LE`.

    The BE routines number the bits of a buffer from the low bit of each byte, the LE
    routines from the high bit; in both a field is a run of consecutive bits. */
module BitPacking {
  import opened Bits

  const ALL_ONES: u64 := 0xFFFF_FFFF_FFFF_FFFF

  /** `after` is `before` with the `len` low bits of `value` written at bit `at`, in the
      low-bit-first numbering; no other bit differs. */
  ghost predicate WroteLow(before: seq<byte>, after: seq<byte>, at: nat, len: nat, value: nat) {
    && at + len <= 8 * |before| && |before| == |after|
    && forall p: nat :: p < 8 * |before| ==>
         LowFirst(after, p) == if at <= p < at + len then Bit(value, p - at) else LowFirst(before, p)
  }

  /** The same in the high-bit-first numbering, the value's high bit first. */
  ghost predicate WroteHigh(before: seq<byte>, after: seq<byte>, at: nat, len: nat, value: nat) {
    && at + len <= 8 * |before| && |before| == |after|
    && forall p: nat :: p < 8 * |before| ==>
         HighFirst(after, p) ==
         if at <= p < at + len then Bit(value, at + len - 1 - p) else HighFirst(before, p)
  }

  /** `v` is the number whose bits are those of `s` from `at` on, low bit first. */
  ghost predicate ReadsLow(s: seq<byte>, at: nat, len: nat, v: nat) {
    && at + len <= 8 * |s| && v < Pow2(len)
    && forall p: nat :: at <= p < at + len ==> LowFirst(s, p) == Bit(v, p - at)
  }

  ghost predicate ReadsHigh(s: seq<byte>, at: nat, len: nat, v: nat) {
    && at + len <= 8 * |s| && v < Pow2(len)
    && forall p: nat :: at <= p < at + len ==> HighFirst(s, p) == Bit(v, at + len - 1 - p)
  }

  /** The mask of `len` ones shifted up by `off`. */
  function FieldMask(off: nat, len: nat): nat
    requires len <= 64
  {
    Shl(Shr(ALL_ONES, 64 - len), off, 64)
  }

  lemma BitOnes(i: nat)
    ensures Bit(ALL_ONES, i) == (i < 64)
  {
    Pow2Of64();
    BitMask(64, i);
  }

  lemma BitFieldMask(off: nat, len: nat, i: nat)
    requires len <= 64 && off + len <= 64
    ensures Bit(FieldMask(off, len), i) == (off <= i < off + len)
  {
    BitShl(Shr(ALL_ONES, 64 - len), off, 64, i);
    if i >= off {
      BitShr(ALL_ONES, 64 - len, i - off);
      BitOnes(64 - len + (i - off));
    }
  }

  /** The word packBitsBE writes back. */
  function Merged(data: nat, value: nat, off: nat, len: nat): nat
    requires len <= 64
  {
    var mask := FieldMask(off, len);
    Or(And(data, Xor(mask, ALL_ONES)), And(Shl(value, off, 64), mask))
  }

  lemma BitMerged(data: nat, value: nat, off: nat, len: nat, i: nat)
    requires off + len <= 64 && i < 64
    ensures Bit(Merged(data, value, off, len), i) ==
            if off <= i < off + len then Bit(value, i - off) else Bit(data, i)
  {
    var mask := FieldMask(off, len);
    BitFieldMask(off, len, i);
    BitOr(And(data, Xor(mask, ALL_ONES)), And(Shl(value, off, 64), mask), i);
    BitAnd(data, Xor(mask, ALL_ONES), i);
    BitXor(mask, ALL_ONES, i);
    BitOnes(i);
    BitAnd(Shl(value, off, 64), mask, i);
    BitShl(value, off, 64, i);
  }

  /** packBitsBE's work on the loaded word. */
  method MergeWord(data0: nat, value: u64, bitOffset: nat, lengthInBit: nat) returns (data: nat)
    requires bitOffset + lengthInBit <= 64
    ensures Carries(data, data0, value, bitOffset, lengthInBit)
  {
    var bitmask := Shr(ALL_ONES, 64 - lengthInBit);
    bitmask := Shl(bitmask, bitOffset, 64);
    var shifted := Shl(value, bitOffset, 64);
    shifted := And(shifted, bitmask);
    bitmask := Xor(bitmask, ALL_ONES);
    data := And(data0, bitmask);
    data := Or(data, shifted);
    forall i: nat | i < 64
      ensures Bit(data, i) ==
              if bitOffset <= i < bitOffset + lengthInBit then Bit(value, i - bitOffset) else Bit(data0, i)
    {
      BitMerged(data0, value, bitOffset, lengthInBit, i);
    }
  }

  /** `w` is `data` with the field at `off` replaced by `value`. */
  ghost predicate Carries(w: nat, data: nat, value: nat, off: nat, len: nat) {
    forall i: nat :: i < 64 ==>
      Bit(w, i) == if off <= i < off + len then Bit(value, i - off) else Bit(data, i)
  }

  /** `after` is `before` with the `n` bytes at `at` overwritten by those of `w`. */
  ghost predicate Stored(before: seq<byte>, after: seq<byte>, at: nat, n: nat, w: nat) {
    && at + n <= |before| == |after|
    && forall k :: 0 <= k < |after| ==>
         after[k] == if at <= k < at + n then ByteAt(w, k - at) else before[k]
  }

  lemma StoredBit(before: seq<byte>, after: seq<byte>, at: nat, n: nat, w: nat, p: nat)
    requires Stored(before, after, at, n, w) && p < 8 * |before|
    ensures LowFirst(after, p) ==
            if 8 * at <= p < 8 * (at + n) then Bit(w, p - 8 * at) else LowFirst(before, p)
  {
    var k, j := p / 8, p % 8;
    if at <= k < at + n {
      assert p - 8 * at == 8 * (k - at) + j;
    }
  }

  /** Storing the merged word replaces the field and nothing else. */
  lemma MergedBytes(before: seq<byte>, after: seq<byte>, at: nat, n: nat, value: nat, off: nat, len: nat, w: nat)
    requires off + len <= 8 * n <= 64 && at + n <= |before|
    requires Stored(before, after, at, n, w)
    requires Carries(w, LoadLe(before[at..at + n]), value, off, len)
    ensures WroteLow(before, after, 8 * at + off, len, value)
  {
    forall p: nat | p < 8 * |before|
      ensures LowFirst(after, p) ==
              if 8 * at + off <= p < 8 * at + off + len
              then Bit(value, p - (8 * at + off)) else LowFirst(before, p)
    {
      StoredBit(before, after, at, n, w, p);
      if 8 * at <= p < 8 * (at + n) {
        BitLoadLe(before[at..at + n], p - 8 * at);
        SliceBit(before, at, n, p - 8 * at);
      }
    }
  }

  method PackBitsBE(target: array<byte>, value: u64, byteOffset0: nat, bitOffset0: nat, lengthInBit: nat)
    returns (ret: nat)
    requires 1 <= lengthInBit && bitOffset0 % 8 + lengthInBit <= 64
    requires 8 * byteOffset0 + bitOffset0 + lengthInBit <= 8 * target.Length
    modifies target
    ensures WroteLow(old(target[..]), target[..], 8 * byteOffset0 + bitOffset0, lengthInBit, value)
    ensures ret == 8 * byteOffset0 + bitOffset0 + lengthInBit
  {
    var byteOffset := byteOffset0 + bitOffset0 / 8;
    var bitOffset := bitOffset0 % 8;
    var actualBytes := (bitOffset + lengthInBit + 7) / 8;
    ghost var before := target[..];
    assert before[byteOffset..byteOffset + actualBytes] == target[byteOffset..byteOffset + actualBytes];
    var data := MergeWord(LoadLe(target[byteOffset..byteOffset + actualBytes]), value, bitOffset, lengthInBit);
    StoreBytes(target, byteOffset, actualBytes, data);
    MergedBytes(before, target[..], byteOffset, actualBytes, value, bitOffset, lengthInBit, data);
    assert 8 * byteOffset + bitOffset == 8 * byteOffset0 + bitOffset0;
    return 8 * byteOffset + bitOffset + lengthInBit;
  }

  /** The `memcpy` back into the buffer. */
  method StoreBytes(target: array<byte>, at: nat, n: nat, w: nat)
    requires at + n <= target.Length
    modifies target
    ensures Stored(old(target[..]), target[..], at, n, w)
  {
    forall k | at <= k < at + n {
      target[k] := ByteAt(w, k - at);
    }
  }

  /** The field read back, for a load cut to `width` bits. */
  lemma FieldValue(data: nat, off: nat, len: nat, width: nat)
    requires off + len <= width <= 64
    ensures Shr(And(data, Low(FieldMask(off, len), width)), off) == Low(Shr(data, off), len)
  {
    var mask := Low(FieldMask(off, len), width);
    var v := And(data, mask);
    Pow2Of64();
    AndBound(data, mask);
    LowBound(FieldMask(off, len), width);
    Pow2Mono(width, 64);
    ShrLess(v, off);
    LowBound(Shr(data, off), len);
    Pow2Mono(len, 64);
    forall i: nat | i < 64 ensures Bit(Shr(v, off), i) == Bit(Low(Shr(data, off), len), i) {
      FieldValueBit(data, off, len, width, i);
    }
    BitsEqual(Shr(v, off), Low(Shr(data, off), len), 64);
  }

  lemma FieldValueBit(data: nat, off: nat, len: nat, width: nat, i: nat)
    requires off + len <= width <= 64
    ensures Bit(Shr(And(data, Low(FieldMask(off, len), width)), off), i) ==
            Bit(Low(Shr(data, off), len), i)
  {
    var mask := Low(FieldMask(off, len), width);
    BitShr(And(data, mask), off, i);
    BitAnd(data, mask, off + i);
    BitLow(FieldMask(off, len), width, off + i);
    BitFieldMask(off, len, off + i);
    BitLow(Shr(data, off), len, i);
    BitShr(data, off, i);
  }

  /** The value of a field of a loaded word. */
  lemma FieldBits(s: seq<byte>, at: nat, n: nat, off: nat, len: nat)
    requires off + len <= 8 * n && at + n <= |s|
    ensures ReadsLow(s, 8 * at + off, len, Low(Shr(LoadLe(s[at..at + n]), off), len))
  {
    var data := LoadLe(s[at..at + n]);
    LowBound(Shr(data, off), len);
    forall p: nat | 8 * at + off <= p < 8 * at + off + len
      ensures LowFirst(s, p) == Bit(Low(Shr(data, off), len), p - (8 * at + off))
    {
      var i := p - (8 * at + off);
      BitLow(Shr(data, off), len, i);
      BitShr(data, off, i);
      BitLoadLe(s[at..at + n], off + i);
      SliceBit(s, at, n, off + i);
    }
  }

  lemma SliceBit(s: seq<byte>, at: nat, n: nat, p: nat)
    requires p < 8 * n && at + n <= |s|
    ensures LowFirst(s[at..at + n], p) == LowFirst(s, 8 * at + p)
  {
    var k := p / 8;
    assert s[at..at + n][k] == s[at + k];
    assert (8 * at + p) / 8 == at + k;
  }

  method UnpackBitsBE(target: array<byte>, byteOffset0: nat, bitOffset0: nat, lengthInBit: nat)
    returns (retVal: nat)
    requires 1 <= lengthInBit <= 64
    requires 8 * byteOffset0 + bitOffset0 + lengthInBit <= 8 * target.Length
    ensures bitOffset0 % 8 + lengthInBit <= 64 ==>
              ReadsLow(target[..], 8 * byteOffset0 + bitOffset0, lengthInBit, retVal)
    ensures bitOffset0 % 8 + lengthInBit > 64 ==> retVal == 0
  {
    var byteOffset := byteOffset0 + bitOffset0 / 8;
    var bitOffset := bitOffset0 % 8;
    var bitmask := Shr(ALL_ONES, 64 - lengthInBit);
    bitmask := Shl(bitmask, bitOffset, 64);
    var actualBytes := (bitOffset + lengthInBit + 7) / 8;
    var data := LoadLe(target[byteOffset..byteOffset + actualBytes]);
    var width;
    if actualBytes == 1 {
      width := 8;
    } else if actualBytes <= 2 {
      width := 16;
    } else if actualBytes <= 4 {
      width := 32;
    } else if actualBytes <= 8 {
      width := 64;
    } else {
      return 0;
    }
    retVal := Shr(And(data, Low(bitmask, width)), bitOffset);
    FieldValue(data, bitOffset, lengthInBit, width);
    assert target[..][byteOffset..byteOffset + actualBytes] == target[byteOffset..byteOffset + actualBytes];
    FieldBits(target[..], byteOffset, actualBytes, bitOffset, lengthInBit);
  }

  // ---- the LE routines: the same on a reversed copy ----

  /** How many bytes the scratch buffer takes; 0 when the field does not fit. */
  function BytesNeeded(bits: nat): (n: nat)
    ensures n in {0, 1, 2, 4, 8} && (n == 0 <==> bits > 64)
    ensures n > 0 ==> bits <= 8 * n && (n > 1 ==> bits > 4 * n)
  {
    if bits <= 8 then 1
    else if bits <= 16 then 2
    else if bits <= 32 then 4
    else if bits <= 64 then 8
    else 0
  }

  function FromEnd(s: seq<byte>, k: nat): byte
    requires k < |s|
  {
    s[|s| - 1 - k]
  }

  /** `scratch` holds the `n` bytes of `s` from `at` on, last byte first. */
  ghost predicate Reversed(s: seq<byte>, at: nat, n: nat, scratch: seq<byte>) {
    && n <= |scratch| && at + n <= |s|
    && forall k :: 0 <= k < n ==> FromEnd(scratch, k) == s[at + k]
  }

  /** The bits of the reversed copy are the bits of the original, backwards. */
  lemma ReversedBit(s: seq<byte>, at: nat, n: nat, scratch: seq<byte>, p: nat)
    requires Reversed(s, at, n, scratch) && p < 8 * n
    ensures HighFirst(s, 8 * at + p) == LowFirst(scratch, 8 * |scratch| - 1 - p)
  {
    var k, j := p / 8, p % 8;
    assert FromEnd(scratch, k) == s[at + k];
    assert 8 * at + p == 8 * (at + k) + j;
    assert 8 * |scratch| - 1 - p == 8 * (|scratch| - 1 - k) + (7 - j);
  }

  ghost predicate SameOutside(before: seq<byte>, after: seq<byte>, at: nat, n: nat) {
    |before| == |after| && forall k :: 0 <= k < |before| && !(at <= k < at + n) ==> after[k] == before[k]
  }

  lemma PackedBackwards(before: seq<byte>, after: seq<byte>, at: nat, n: nat, off: nat, len: nat,
                        value: nat, scratch: seq<byte>, packed: seq<byte>)
    requires off + len <= 8 * n && SameOutside(before, after, at, n)
    requires Reversed(before, at, n, scratch) && Reversed(after, at, n, packed)
    requires WroteLow(scratch, packed, 8 * |scratch| - (off + len), len, value)
    ensures WroteHigh(before, after, 8 * at + off, len, value)
  {
    forall i: nat | i < 8 * |before|
      ensures HighFirst(after, i) ==
              if 8 * at + off <= i < 8 * at + off + len
              then Bit(value, 8 * at + off + len - 1 - i) else HighFirst(before, i)
    {
      if 8 * at <= i < 8 * (at + n) {
        var p := i - 8 * at;
        ReversedBit(before, at, n, scratch, p);
        ReversedBit(after, at, n, packed, p);
      } else {
        assert before[i / 8] == after[i / 8];
      }
    }
  }

  method PackBitsLE(target: array<byte>, value: u64, byteOffset0: nat, bitOffset0: nat, lengthInBit: nat)
    returns (ret: nat)
    requires 1 <= lengthInBit <= 64
    requires 8 * byteOffset0 + bitOffset0 + lengthInBit <= 8 * target.Length
    modifies target
    ensures bitOffset0 % 8 + lengthInBit <= 64 ==>
              && WroteHigh(old(target[..]), target[..], 8 * byteOffset0 + bitOffset0, lengthInBit, value)
              && ret == 8 * byteOffset0 + bitOffset0 + lengthInBit
    ensures bitOffset0 % 8 + lengthInBit > 64 ==> ret == 0 && target[..] == old(target[..])
  {
    var byteOffset := byteOffset0 + bitOffset0 / 8;
    var bitOffset := bitOffset0 % 8;
    var bytesNeeded := BytesNeeded(bitOffset + lengthInBit);
    if bytesNeeded == 0 {
      return 0;
    }
    var actualBytes := (bitOffset + lengthInBit + 7) / 8;
    ghost var before := target[..];
    var modifiedTarget := ReverseBytes(target, byteOffset, actualBytes, bytesNeeded);
    ghost var scratch := modifiedTarget[..];
    var newBitOffset := bytesNeeded * 8 - (bitOffset + lengthInBit);
    var _ := PackBitsBE(modifiedTarget, value, 0, newBitOffset, lengthInBit);
    CopyBack(target, byteOffset, actualBytes, modifiedTarget);
    PackedBackwards(before, target[..], byteOffset, actualBytes, bitOffset, lengthInBit,
                    value, scratch, modifiedTarget[..]);
    return 8 * byteOffset + bitOffset + lengthInBit;
  }

  /** The scratch copy, last byte first, behind zeros. */
  method ReverseBytes(target: array<byte>, at: nat, n: nat, size: nat) returns (scratch: array<byte>)
    requires n <= size && at + n <= target.Length
    ensures fresh(scratch) && scratch.Length == size
    ensures Reversed(target[..], at, n, scratch[..])
  {
    scratch := new byte[size](_ => 0);
    for curByte := 0 to n
      invariant forall k :: size - curByte <= k < size ==> scratch[k] == target[at + (size - 1 - k)]
    {
      scratch[size - 1 - curByte] := target[at + curByte];
    }
  }

  method CopyBack(target: array<byte>, at: nat, n: nat, scratch: array<byte>)
    requires n <= scratch.Length && at + n <= target.Length && scratch != target
    modifies target
    ensures Reversed(target[..], at, n, scratch[..])
    ensures SameOutside(old(target[..]), target[..], at, n)
  {
    ghost var bytes := scratch[..];
    for curByte := 0 to n
      invariant scratch[..] == bytes
      invariant forall k :: 0 <= k < curByte ==> FromEnd(bytes, k) == target[at + k]
      invariant forall k :: 0 <= k < target.Length && !(at <= k < at + n) ==> target[k] == old(target[k])
    {
      target[at + curByte] := scratch[scratch.Length - 1 - curByte];
      assert FromEnd(bytes, curByte) == target[at + curByte];
    }
  }

  lemma ReadBackwards(s: seq<byte>, at: nat, n: nat, off: nat, len: nat, scratch: seq<byte>, v: nat)
    requires Reversed(s, at, n, scratch) && off + len <= 8 * n
    requires ReadsLow(scratch, 8 * |scratch| - (off + len), len, v)
    ensures ReadsHigh(s, 8 * at + off, len, v)
  {
    forall p: nat | 8 * at + off <= p < 8 * at + off + len
      ensures HighFirst(s, p) == Bit(v, 8 * at + off + len - 1 - p)
    {
      ReversedBit(s, at, n, scratch, p - 8 * at);
    }
  }

  method UnpackBitsLE(target: array<byte>, byteOffset0: nat, bitOffset0: nat, lengthInBit: nat)
    returns (retVal: nat)
    requires 1 <= lengthInBit <= 64
    requires 8 * byteOffset0 + bitOffset0 + lengthInBit <= 8 * target.Length
    ensures bitOffset0 % 8 + lengthInBit <= 64 ==>
              ReadsHigh(target[..], 8 * byteOffset0 + bitOffset0, lengthInBit, retVal)
    ensures bitOffset0 % 8 + lengthInBit > 64 ==> retVal == 0
  {
    var byteOffset := byteOffset0 + bitOffset0 / 8;
    var bitOffset := bitOffset0 % 8;
    var bytesNeeded := BytesNeeded(bitOffset + lengthInBit);
    if bytesNeeded == 0 {
      return 0;
    }
    var actualBytes := (bitOffset + lengthInBit + 7) / 8;
    var modifiedTarget := ReverseBytes(target, byteOffset, actualBytes, bytesNeeded);
    var newBitOffset := bytesNeeded * 8 - (bitOffset + lengthInBit);
    if bytesNeeded == 1 {
      var bitmask := Shr(0xFF, bitOffset);
      retVal := Shr(And(modifiedTarget[0], bitmask), 8 - (lengthInBit + bitOffset));
      OneByteField(modifiedTarget[..], bitOffset, lengthInBit);
    } else {
      retVal := UnpackBitsBE(modifiedTarget, 0, newBitOffset, lengthInBit);
    }
    ReadBackwards(target[..], byteOffset, actualBytes, bitOffset, lengthInBit, modifiedTarget[..], retVal);
  }

  lemma OneByteField(s: seq<byte>, off: nat, len: nat)
    requires |s| == 1 && off + len <= 8
    ensures ReadsLow(s, 8 - (off + len), len, Shr(And(s[0], Shr(0xFF, off)), 8 - (len + off)))
  {
    var low := 8 - (off + len);
    var m := And(s[0], Shr(0xFF, off));
    OneByteBound(s[0], off, len);
    forall p: nat | low <= p < low + len ensures LowFirst(s, p) == Bit(Shr(m, low), p - low) {
      OneByteBit(s[0], off, p);
      BitShr(m, low, p - low);
    }
  }

  lemma OneByteBound(b: byte, off: nat, len: nat)
    requires off + len <= 8
    ensures Shr(And(b, Shr(0xFF, off)), 8 - (len + off)) < Pow2(len)
  {
    Pow2Of8();
    ShrBound(0xFF, off, 8 - off);
    AndBound(b, Shr(0xFF, off));
    ShrBound(And(b, Shr(0xFF, off)), 8 - (len + off), len);
  }

  lemma OneByteBit(b: byte, off: nat, i: nat)
    requires off + i < 8
    ensures Bit(And(b, Shr(0xFF, off)), i) == Bit(b, i)
  {
    BitAnd(b, Shr(0xFF, off), i);
    BitShr(0xFF, off, i);
    Pow2Of8();
    BitMask(8, off + i);
  }

  // ---- fields as numbers ----

  /** The number in the `len` bits from `at` on, high bit first. */
  function FieldHigh(s: seq<byte>, at: nat, len: nat): nat
    requires at + len <= 8 * |s|
  {
    if len == 0 then 0 else 2 * FieldHigh(s, at, len - 1) + Digit(HighFirst(s, at + len - 1))
  }

  lemma {:induction false} FieldHighReads(s: seq<byte>, at: nat, len: nat)
    requires at + len <= 8 * |s|
    ensures ReadsHigh(s, at, len, FieldHigh(s, at, len))
  {
    if len > 0 {
      FieldHighReads(s, at, len - 1);
      var v := FieldHigh(s, at, len);
      assert v / 2 == FieldHigh(s, at, len - 1);
      forall p: nat | at <= p < at + len ensures HighFirst(s, p) == Bit(v, at + len - 1 - p) {
        if p < at + len - 1 {
          assert Bit(v, at + len - 1 - p) == Bit(v / 2, at + len - 2 - p);
        }
      }
    }
  }

  /** A field has one value. */
  lemma ReadsHighUnique(s: seq<byte>, at: nat, len: nat, v: nat)
    requires ReadsHigh(s, at, len, v)
    ensures v == FieldHigh(s, at, len)
  {
    FieldHighReads(s, at, len);
    var w := FieldHigh(s, at, len);
    forall i: nat | i < len ensures Bit(v, i) == Bit(w, i) {
      assert HighFirst(s, at + len - 1 - i) == Bit(v, i);
    }
    BitsEqual(v, w, len);
  }

  /** Reading back what was written gives the value, cut to the field's width. */
  lemma ReadBack(before: seq<byte>, after: seq<byte>, at: nat, len: nat, value: nat)
    requires WroteHigh(before, after, at, len, value)
    ensures FieldHigh(after, at, len) == Low(value, len)
  {
    LowBound(value, len);
    forall p: nat | at <= p < at + len ensures HighFirst(after, p) == Bit(Low(value, len), at + len - 1 - p) {
      BitLow(value, len, at + len - 1 - p);
    }
    ReadsHighUnique(after, at, len, Low(value, len));
  }

  /** A field is determined by its bits. */
  lemma {:induction false} FieldHighSame(s: seq<byte>, t: seq<byte>, at: nat, len: nat)
    requires at + len <= 8 * |s| && at + len <= 8 * |t|
    requires forall p: nat :: at <= p < at + len ==> HighFirst(s, p) == HighFirst(t, p)
    ensures FieldHigh(s, at, len) == FieldHigh(t, at, len)
  {
    if len > 0 {
      FieldHighSame(s, t, at, len - 1);
      assert HighFirst(s, at + len - 1) == HighFirst(t, at + len - 1);
    }
  }

  /** A write leaves every disjoint field as it was. */
  lemma ReadElsewhere(before: seq<byte>, after: seq<byte>, at: nat, len: nat, value: nat, at': nat, len': nat)
    requires WroteHigh(before, after, at, len, value)
    requires at' + len' <= 8 * |before| && (at' + len' <= at || at + len <= at')
    ensures FieldHigh(after, at', len') == FieldHigh(before, at', len')
  {
    FieldHighSame(after, before, at', len');
  }
}
