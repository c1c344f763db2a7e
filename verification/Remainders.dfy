/** The remainder of a division, from its equation. */
module Remainders {

  lemma RemainderIs(x: nat, d: nat, q: nat, r: nat)
    requires r < d && x == d * q + r
    ensures x % d == r
  {
    var q', r' := x / d, x % d;
    assert x == d * q' + r';
    QuotientAtMost(d, q, r, q', r');
    QuotientAtMost(d, q', r', q, r);
  }

  lemma QuotientAtMost(d: nat, q: nat, r: nat, q': nat, r': nat)
    requires r < d && d * q + r == d * q' + r'
    ensures q' <= q
  {
    assert d * (q + 1) == d * q + d;
    if q' > q {
      MulMono(d, q + 1, q');
    }
  }

  lemma MulMono(d: nat, m: nat, n: nat)
    requires m <= n
    ensures d * m <= d * n
  {
    assert d * n == d * m + d * (n - m);
  }
}
