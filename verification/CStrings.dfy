/** C strings in fixed buffers. */
module CStrings {
  import opened Bits

  /** The characters before the first NUL. */
  function CString(s: seq<byte>): (r: seq<byte>)
    ensures r <= s && (|r| < |s| ==> s[|r|] == 0)
    ensures forall k :: 0 <= k < |r| ==> r[k] != 0
  {
    if s == [] || s[0] == 0 then [] else [s[0]] + CString(s[1..])
  }

  /** The string is fixed by its characters and the NUL after them. */
  lemma {:induction false} CStringIs(s: seq<byte>, r: seq<byte>)
    requires r <= s && (|r| < |s| ==> s[|r|] == 0)
    requires forall k :: 0 <= k < |r| ==> r[k] != 0
    ensures CString(s) == r
    decreases r
  {
    if r != [] {
      assert s[0] == r[0];
      CStringIs(s[1..], r[1..]);
    }
  }

  /** strncpy: the characters before the first NUL of `src`, then NULs up to `n`. */
  method StrNCpy(target: array<byte>, src: seq<byte>, n: nat)
    requires n <= target.Length && n <= |src|
    modifies target
    ensures var text := CString(src[..n]);
            forall k :: 0 <= k < target.Length ==>
              target[k] == if k < |text| then text[k] else if k < n then 0 else old(target[k])
  {
    ghost var text := CString(src[..n]);
    var i := 0;
    while i < n && src[i] != 0
      invariant i <= |text|
      invariant forall k :: 0 <= k < target.Length ==>
                  target[k] == if k < i then text[k] else old(target[k])
    {
      assert src[i] == src[..n][i];
      assert i < |text|;
      target[i] := src[i];
      i := i + 1;
    }
    assert i < n ==> src[..n][i] == 0;
    for j := i to n
      invariant forall k :: 0 <= k < target.Length ==>
                  target[k] == if k < i then text[k] else if k < j then 0 else old(target[k])
    {
      target[j] := 0;
    }
  }

  lemma CopiedText(target: seq<byte>, text: seq<byte>)
    requires |text| <= |target| && forall k :: 0 <= k < |text| ==> text[k] != 0
    requires forall k :: 0 <= k < |target| ==> target[k] == if k < |text| then text[k] else 0
    ensures CString(target) == text
  {
    CStringIs(target, text);
  }

  /** memcpy of the whole source. */
  method MemCpy(target: array<byte>, src: seq<byte>)
    requires |src| <= target.Length
    modifies target
    ensures target[..|src|] == src && target[|src|..] == old(target[|src|..])
  {
    forall k | 0 <= k < |src| {
      target[k] := src[k];
    }
  }

  predicate IsDigit(c: byte) {
    48 <= c <= 57  // '0'..'9'
  }

  predicate IsUpper(c: byte) {
    65 <= c <= 90  // 'A'..'Z'
  }

  predicate IsLower(c: byte) {
    97 <= c <= 122  // 'a'..'z'
  }

  predicate IsAlnum(c: byte) {
    IsDigit(c) || IsUpper(c) || IsLower(c)
  }

  const DIGITS := "0123456789"
  const UPPERS := "ABCDEFGHIJKLMNOPQRSTUVWXYZ"
  const LOWERS := "abcdefghijklmnopqrstuvwxyz"

  lemma CharClasses(c: byte)
    ensures IsDigit(c) <==> c as char in DIGITS
    ensures IsUpper(c) <==> c as char in UPPERS
    ensures IsLower(c) <==> c as char in LOWERS
  {
  }

  lemma CharPlaces(k: nat)
    ensures k < 10 ==> DIGITS[k] as int == 48 + k
    ensures k < 26 ==> UPPERS[k] as int == 65 + k && LOWERS[k] as int == 97 + k
  {
  }

  predicate AllAlnum(s: seq<byte>) {
    forall k :: 0 <= k < |s| ==> IsAlnum(s[k])
  }
}
