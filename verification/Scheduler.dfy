/** The repeating timer of the main thread: calls on a grid of deadlines, against any clock. */
module Scheduler {
  import opened Remainders

  /** One turn of the loop: how long the call takes, and how late the wait that follows wakes up. */
  datatype Turn = Turn(cost: nat, lag: nat)

  /** What a turn did: the deadline it waited for, when its call began and ended, and the next deadline. */
  datatype Call = Call(due: int, begin: int, end: int, next: int)

  function Max(a: int, b: int): int { if a < b then b else a }

  /** The next deadline comes a period after this one, but never before the call that just ended. */
  predicate IsTurn(c: Call, period: nat) {
    c.begin <= c.end && c.next == Max(c.due + period, c.end)
  }

  /** A later call waits for the deadline of the turn before; the first has none of its own. */
  predicate TurnAt(t: seq<Call>, k: nat, first: int, period: nat)
    requires k < |t|
  {
    && IsTurn(t[k], period)
    && if k == 0 then t[0].due == first else t[k].due == t[k - 1].next && t[k].due <= t[k].begin
  }

  ghost predicate IsRun(t: seq<Call>, first: int, period: nat)
  {
    forall k :: 0 <= k < |t| ==> TurnAt(t, k, first, period)
  }

  /** The clock of a turn: the call lasts its cost, and the wait before it ended its lag after the deadline. */
  predicate OnTime(t: seq<Call>, k: nat, turns: seq<Turn>)
    requires k < |t| <= |turns|
  {
    && t[k].end == t[k].begin + turns[k].cost
    && (k > 0 ==> t[k].begin == t[k].due + turns[k - 1].lag)
  }

  ghost predicate Timed(t: seq<Call>, turns: seq<Turn>)
    requires |t| <= |turns|
  {
    forall k :: 0 <= k < |t| ==> OnTime(t, k, turns)
  }

  /** The call of this turn ran past the end of the next period. */
  predicate Overran(c: Call, period: nat) {
    c.due + period < c.end
  }

  /**
   * The loop, run for as many turns as the environment grants before it is closed. The clock
   * reads `start` when the loop begins, and the first call begins at once.
   */
  method IntervalOnMainThread(start: int, phase: nat, period: nat, turns: seq<Turn>) returns (t: seq<Call>)
    ensures |t| == |turns| && IsRun(t, start + phase, period) && Timed(t, turns)
    ensures |t| > 0 ==> t[0].begin == start && (t[0].begin == start + phase <==> phase == 0)
  {
    var now, deadline := start, start + phase;
    t := [];
    var k := 0;
    while k < |turns|
      invariant k <= |turns| && |t| == k
      invariant IsRun(t, start + phase, period) && Timed(t, turns)
      invariant if k == 0 then now == start && deadline == start + phase
                else deadline == t[k - 1].next && now == deadline + turns[k - 1].lag
      invariant k > 0 ==> t[0].begin == start
    {
      var due, begin := deadline, now;
      now := now + turns[k].cost;
      deadline := deadline + period;
      if deadline < now {
        deadline := now;
      }
      CallAdded(t, Call(due, begin, now, deadline), start + phase, period, turns);
      t := t + [Call(due, begin, now, deadline)];
      now := deadline + turns[k].lag;
      k := k + 1;
    }
  }

  lemma CallAdded(t: seq<Call>, c: Call, first: int, period: nat, turns: seq<Turn>)
    requires |t| < |turns| && IsRun(t, first, period) && Timed(t, turns)
    requires IsTurn(c, period) && c.end == c.begin + turns[|t|].cost
    requires if |t| == 0 then c.due == first
             else c.due == t[|t| - 1].next && c.begin == c.due + turns[|t| - 1].lag
    ensures IsRun(t + [c], first, period) && Timed(t + [c], turns)
  {
    var u := t + [c];
    forall k | 0 <= k < |u|
      ensures TurnAt(u, k, first, period) && OnTime(u, k, turns)
    {
      if k < |t| {
        assert TurnAt(t, k, first, period) && OnTime(t, k, turns);
      }
    }
  }

  // ---- how far apart the calls are ----

  lemma {:induction false} DeadlinesApart(t: seq<Call>, first: int, period: nat, i: nat, j: nat)
    requires IsRun(t, first, period) && i <= j < |t|
    ensures t[j].due - t[i].due >= (j - i) * period
    decreases j
  {
    if i < j {
      DeadlinesApart(t, first, period, i, j - 1);
      assert (j - i) * period == (j - 1 - i) * period + period;
      assert TurnAt(t, j - 1, first, period) && TurnAt(t, j, first, period);
    }
  }

  /** Of any calls in a row, all but the first are at least a period apart. */
  lemma CallsApart(t: seq<Call>, first: int, period: nat, i: nat, j: nat)
    requires IsRun(t, first, period) && i < j < |t|
    ensures t[j].begin - t[i].begin >= (j - i - 1) * period
  {
    DeadlinesApart(t, first, period, i + 1, j);
    assert TurnAt(t, i, first, period) && TurnAt(t, i + 1, first, period) && TurnAt(t, j, first, period);
  }

  /** The calls that begin in a window, both ends included. */
  ghost function CallsWithin(t: seq<Call>, from: int, width: nat): set<nat>
  {
    set k: nat | k < |t| && from <= t[k].begin <= from + width :: k
  }

  lemma {:induction false} SpanBound(s: set<nat>, low: nat, size: nat)
    requires forall k :: k in s ==> low <= k < low + size
    ensures |s| <= size
    decreases size
  {
    if size > 0 {
      var last := low + size - 1;
      SpanBound(s - {last}, low, size - 1);
      if last in s {
        assert s == (s - {last}) + {last};
      } else {
        assert s == s - {last};
      }
    } else {
      assert s == {};
    }
  }

  lemma {:induction false} LeastOf(s: set<nat>) returns (least: nat)
    requires s != {}
    ensures least in s && forall k :: k in s ==> least <= k
    decreases s
  {
    var x :| x in s;
    if s == {x} {
      least := x;
    } else {
      least := LeastOf(s - {x});
      least := if x < least then x else least;
      assert forall k :: k in s ==> k == x || k in s - {x};
    }
  }

  /** However long the calls take and the waits oversleep, no window sees more than two extra calls. */
  lemma WindowBound(t: seq<Call>, first: int, period: nat, from: int, width: nat)
    requires IsRun(t, first, period) && period > 0
    ensures |CallsWithin(t, from, width)| <= 2 + width / period
  {
    var s := CallsWithin(t, from, width);
    if s != {} {
      var i := LeastOf(s);
      forall j | j in s
        ensures j < i + (2 + width / period)
      {
        if i < j {
          CallsApart(t, first, period, i, j);
          FitsIn(j - i - 1, period, width);
        }
      }
      SpanBound(s, i, 2 + width / period);
    }
  }

  lemma FitsIn(n: nat, period: nat, width: nat)
    requires period > 0 && n * period <= width
    ensures n <= width / period
  {
    var q, r := width / period, width % period;
    assert width == period * q + r;
    if n > q {
      assert period * (q + 1) == period * q + period > width;
      MulMono(period, q + 1, n);
    }
  }

  // ---- the grid ----

  /** A deadline is never early on the grid, and it is on the grid exactly while no call has overrun. */
  lemma {:induction false} GridShift(t: seq<Call>, first: int, period: nat, k: nat)
    requires IsRun(t, first, period) && k < |t|
    ensures t[k].due >= first + k * period
    ensures t[k].due == first + k * period <==> forall i :: 0 <= i < k ==> !Overran(t[i], period)
  {
    assert TurnAt(t, k, first, period);
    if k > 0 {
      var last := t[k - 1];
      GridShift(t, first, period, k - 1);
      assert k * period == (k - 1) * period + period;
      assert TurnAt(t, k - 1, first, period);
      if t[k].due == first + k * period {
        assert last.due == first + (k - 1) * period && !Overran(last, period);
      } else {
        assert Overran(last, period) || last.due != first + (k - 1) * period;
      }
    }
  }

  /** Where the grid of deadline k started: at the first deadline, or at the last overrun before it. */
  ghost predicate GridFrom(t: seq<Call>, period: nat, k: nat, j: nat)
    requires k < |t|
  {
    j <= k && (forall i :: j <= i < k ==> !Overran(t[i], period)) && (j == 0 || Overran(t[j - 1], period))
  }

  /** The deadlines keep the grid exactly, counted from the last overrun: no drift and no burst. */
  lemma {:induction false} NoDrift(t: seq<Call>, first: int, period: nat, k: nat) returns (j: nat)
    requires IsRun(t, first, period) && k < |t|
    ensures GridFrom(t, period, k, j)
    ensures t[k].due == (if j == 0 then first else t[j - 1].end) + (k - j) * period
  {
    assert TurnAt(t, k, first, period);
    if k == 0 {
      j := 0;
    } else {
      assert TurnAt(t, k - 1, first, period);
      if Overran(t[k - 1], period) {
        j := k;
      } else {
        j := NoDrift(t, first, period, k - 1);
        assert (k - j) * period == (k - 1 - j) * period + period;
      }
    }
  }

  // ---- the bound is reached ----

  /** A run whose first wait wakes up a whole period late; from then on the calls are on time. */
  function LateRun(start: int, period: nat, n: nat): seq<Call>
  {
    var late := start + 2 * period;
    [Call(start, start, start, start + period), Call(start + period, late, late, late)]
    + seq(n + 1, k requires 0 <= k < n + 1 =>
        Call(late + k * period, late + k * period, late + k * period, late + (k + 1) * period))
  }

  /** The turns of that run: calls that take no time, and one late wake-up. */
  function LateTurns(period: nat, n: nat): seq<Turn>
  {
    [Turn(0, period)] + seq(n + 2, _ => Turn(0, 0))
  }

  lemma LateRunIsRun(start: int, period: nat, n: nat)
    ensures IsRun(LateRun(start, period, n), start, period)
    ensures Timed(LateRun(start, period, n), LateTurns(period, n))
  {
    var t, turns := LateRun(start, period, n), LateTurns(period, n);
    forall k | 0 <= k < |t| ensures TurnAt(t, k, start, period) && OnTime(t, k, turns) {
      if k >= 2 {
        LateTurn(start, period, n, k - 2);
      }
    }
  }

  lemma LateTurn(start: int, period: nat, n: nat, i: nat)
    requires i <= n
    ensures var t := LateRun(start, period, n);
            TurnAt(t, i + 2, start, period) && OnTime(t, i + 2, LateTurns(period, n))
  {
    var t, late := LateRun(start, period, n), start + 2 * period;
    assert t[i + 2] == Call(late + i * period, late + i * period, late + i * period, late + (i + 1) * period);
    assert (i + 1) * period == i * period + period;
    if i == 0 {
      assert t[1].next == late && 0 * period == 0;
    } else {
      assert t[i + 1].next == late + (i - 1 + 1) * period;
    }
  }

  lemma {:induction false} RangeSize(low: nat, high: nat) returns (s: set<nat>)
    requires low <= high
    ensures |s| == high - low && forall k :: k in s <==> low <= k < high
    decreases high - low
  {
    if low == high {
      s := {};
    } else {
      s := RangeSize(low, high - 1);
      s := s + {high - 1};
    }
  }

  /** For every width and period there is a run of the loop that reaches the bound, so no smaller one holds. */
  lemma BoundReached(start: int, period: nat, width: nat)
    requires period > 0
    ensures var t := LateRun(start, period, width / period);
            && IsRun(t, start, period) && Timed(t, LateTurns(period, width / period))
            && |CallsWithin(t, start + 2 * period, width)| == 2 + width / period
  {
    var n := width / period;
    var t, late := LateRun(start, period, n), start + 2 * period;
    LateRunIsRun(start, period, n);
    var s := RangeSize(1, n + 3);
    forall k: nat | k < |t| ensures k in CallsWithin(t, late, width) <==> k in s {
      if k >= 2 {
        WithinWidth(k - 2, n, period, width);
        assert t[k].begin == late + (k - 2) * period;
      }
    }
    assert CallsWithin(t, late, width) == s;
  }

  lemma WithinWidth(i: nat, n: nat, period: nat, width: nat)
    requires period > 0 && i <= n == width / period
    ensures 0 <= i * period <= width
  {
    MulMono(period, i, n);
    assert period * n <= width;
  }
}
