/** Folding a message in 64-byte blocks while bytes arrive in any portions. */
module BlockStream {
  import opened Bits

  /** What a block does to the state; only blocks of 64 bytes are ever passed to it. */
  type BlockStep<!S> = (S, seq<byte>) -> S

  /** The state after the first `n` blocks of `s`. */
  function Fold<S>(f: BlockStep<S>, initial: S, s: seq<byte>, n: nat): S
    requires 64 * n <= |s|
  {
    if n == 0 then initial else f(Fold(f, initial, s, n - 1), s[64 * (n - 1)..64 * n])
  }

  /** Later bytes do not change it. */
  lemma {:induction false} FoldPrefix<S>(f: BlockStep<S>, initial: S, s: seq<byte>, t: seq<byte>, n: nat)
    requires 64 * n <= |s|
    ensures Fold(f, initial, s + t, n) == Fold(f, initial, s, n)
  {
    if n > 0 {
      assert (s + t)[64 * (n - 1)..64 * n] == s[64 * (n - 1)..64 * n];
      FoldPrefix(f, initial, s, t, n - 1);
    }
  }

  /** After the bytes `done`: the whole blocks are in `state`, the rest is held back. */
  ghost predicate Synced<S>(f: BlockStep<S>, initial: S, state: S, held: seq<byte>, done: seq<byte>) {
    && |held| == |done| % 64
    && held == done[|done| - |held|..]
    && state == Fold(f, initial, done, |done| / 64)
  }

  /** Bytes that fill the block up. */
  lemma BlockDone<S>(f: BlockStep<S>, initial: S, state: S, held: seq<byte>, done: seq<byte>, more: seq<byte>)
    requires Synced(f, initial, state, held, done) && |held| + |more| == 64
    ensures Synced(f, initial, f(state, held + more), [], done + more)
  {
    var n := |done| / 64;
    assert |done + more| == 64 * (n + 1);
    FoldPrefix(f, initial, done, more, n);
    assert (done + more)[64 * n..64 * (n + 1)] == held + more;
  }

  /** Bytes that do not. */
  lemma HeldBack<S>(f: BlockStep<S>, initial: S, state: S, held: seq<byte>, done: seq<byte>, more: seq<byte>)
    requires Synced(f, initial, state, held, done) && |held| + |more| < 64
    ensures Synced(f, initial, state, held + more, done + more)
  {
    var n := |done| / 64;
    assert |done + more| == 64 * n + |held + more|;
    FoldPrefix(f, initial, done, more, n);
    assert (done + more)[64 * n..] == held + more;
  }
}
