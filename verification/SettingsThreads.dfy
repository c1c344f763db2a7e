/**
 * The settings cache under concurrency: writers that change the map and then advance the
 * generation, and readers that load the generation and later look up, in any interleaving.
 */
module SettingsThreads {
  import opened Bits
  import opened Wrappers
  import opened Settings

  /**
   * The atomic steps. A call of `set` is a Write and then a Bump, a reload is any number of
   * Writes and then a Bump, and a call of `get` is a Load and then a Finish.
   */
  datatype Event =
    | Write(key: string, value: Variant)
    | Bump
    | Load(reader: nat, key: string)
    | Finish(reader: nat)

  /** A memo. When the generation was loaded and the map read is recorded, but no step looks at it. */
  datatype Memo = Memo(stamp: nat, value: Option<Variant>, loadedAt: nat, readAt: nat)

  /** A call of `get` between its two steps. */
  datatype Call = Call(key: string, stamp: nat, loadedAt: nat)

  datatype State = State(
    store: map<string, Variant>,
    generation: nat,
    memos: map<(nat, string), Memo>,
    calls: map<nat, Call>)

  const INITIAL: State := State(map[], 0, map[], map[])

  /** A reader, the state of one thread for one type of value, makes one call at a time. */
  predicate Enabled(s: State, e: Event)
  {
    match e
    case Load(reader, _) => reader !in s.calls
    case Finish(reader) => reader in s.calls
    case _ => true
  }

  predicate Hits(s: State, reader: nat)
    requires reader in s.calls
  {
    var call := s.calls[reader];
    (reader, call.key) in s.memos && s.memos[(reader, call.key)].stamp == call.stamp
  }

  /** What the call of a reader returns when it finishes now; None stands for the default. */
  function Answer(s: State, reader: nat): Option<Variant>
    requires reader in s.calls
  {
    if Hits(s, reader) then s.memos[(reader, s.calls[reader].key)].value else Lookup(s.store, s.calls[reader].key)
  }

  function Step(s: State, e: Event, at: nat): State
    requires Enabled(s, e)
  {
    match e
    case Write(key, value) => s.(store := s.store[key := value])
    case Bump => s.(generation := (s.generation + 1) % TWO64)
    case Load(reader, key) => s.(calls := s.calls[reader := Call(key, s.generation, at)])
    case Finish(reader) =>
      var call := s.calls[reader];
      var memos := if Hits(s, reader) then s.memos
                   else s.memos[(reader, call.key) := Memo(call.stamp, Lookup(s.store, call.key), call.loadedAt, at)];
      s.(memos := memos, calls := s.calls - {reader})
  }

  /** The state after the first n events, when each of them was enabled. */
  function After(events: seq<Event>, n: nat): Option<State>
    requires n <= |events|
  {
    if n == 0 then Some(INITIAL)
    else match After(events, n - 1)
      case None => None
      case Some(s) => if Enabled(s, events[n - 1]) then Some(Step(s, events[n - 1], n - 1)) else None
  }

  predicate IsRun(events: seq<Event>) { After(events, |events|).Some? }

  function At(events: seq<Event>, n: nat): State
    requires n <= |events| && After(events, n).Some?
  {
    After(events, n).value
  }

  lemma {:induction false} RunSoFar(events: seq<Event>, n: nat, m: nat)
    requires n <= m <= |events| && After(events, m).Some?
    ensures After(events, n).Some?
    decreases m
  {
    if n < m {
      RunSoFar(events, n, m - 1);
    }
  }

  // ---- generations ----

  /** How often the generation advanced in the first n events. */
  function Bumps(events: seq<Event>, n: nat): nat
    requires n <= |events|
  {
    if n == 0 then 0 else Bumps(events, n - 1) + if events[n - 1].Bump? then 1 else 0
  }

  lemma {:induction false} BumpsGrow(events: seq<Event>, n: nat, m: nat)
    requires n <= m <= |events|
    ensures Bumps(events, n) <= Bumps(events, m)
    decreases m
  {
    if n < m {
      BumpsGrow(events, n, m - 1);
    }
  }

  // ---- what a state remembers of its run ----

  /** Every memo was read from the map, some time after its stamp was the generation. */
  ghost predicate MemoOk(events: seq<Event>, n: nat, key: string, memo: Memo)
    requires n <= |events|
  {
    && memo.loadedAt <= memo.readAt < n
    && memo.stamp == Bumps(events, memo.loadedAt) % TWO64
    && After(events, memo.readAt).Some?
    && memo.value == Lookup(At(events, memo.readAt).store, key)
  }

  ghost predicate CallOk(events: seq<Event>, n: nat, reader: nat, call: Call)
    requires n <= |events|
  {
    && call.loadedAt < n
    && events[call.loadedAt] == Load(reader, call.key)
    && call.stamp == Bumps(events, call.loadedAt) % TWO64
  }

  ghost predicate Inv(events: seq<Event>, n: nat, s: State)
    requires n <= |events|
  {
    && s.generation == Bumps(events, n) % TWO64
    && (forall at :: at in s.memos ==> MemoOk(events, n, at.1, s.memos[at]))
    && (forall reader :: reader in s.calls ==> CallOk(events, n, reader, s.calls[reader]))
  }

  lemma MemoStep(events: seq<Event>, n: nat, s: State, at: (nat, string))
    requires n < |events| && After(events, n) == Some(s) && Inv(events, n, s) && Enabled(s, events[n])
    requires at in Step(s, events[n], n).memos
    ensures MemoOk(events, n + 1, at.1, Step(s, events[n], n).memos[at])
  {
    if at in s.memos {
      assert MemoOk(events, n, at.1, s.memos[at]);
    }
    if events[n].Finish? {
      assert CallOk(events, n, events[n].reader, s.calls[events[n].reader]);
    }
  }

  lemma CallStep(events: seq<Event>, n: nat, s: State, reader: nat)
    requires n < |events| && After(events, n) == Some(s) && Inv(events, n, s) && Enabled(s, events[n])
    requires reader in Step(s, events[n], n).calls
    ensures CallOk(events, n + 1, reader, Step(s, events[n], n).calls[reader])
  {
    if reader in s.calls {
      assert CallOk(events, n, reader, s.calls[reader]);
    }
  }

  lemma GenerationStep(events: seq<Event>, n: nat, s: State)
    requires n < |events| && s.generation == Bumps(events, n) % TWO64 && Enabled(s, events[n])
    ensures Step(s, events[n], n).generation == Bumps(events, n + 1) % TWO64
  {
    NextGeneration(Bumps(events, n));
  }

  lemma InvStep(events: seq<Event>, n: nat, s: State)
    requires n < |events| && After(events, n) == Some(s) && Inv(events, n, s) && Enabled(s, events[n])
    ensures Inv(events, n + 1, Step(s, events[n], n))
  {
    var t := Step(s, events[n], n);
    GenerationStep(events, n, s);
    forall at | at in t.memos
      ensures MemoOk(events, n + 1, at.1, t.memos[at])
    {
      MemoStep(events, n, s, at);
    }
    forall reader | reader in t.calls
      ensures CallOk(events, n + 1, reader, t.calls[reader])
    {
      CallStep(events, n, s, reader);
    }
  }

  /** Every state of every run keeps the invariant. */
  lemma {:induction false} InvHolds(events: seq<Event>, n: nat)
    requires n <= |events| && After(events, n).Some?
    ensures Inv(events, n, At(events, n))
  {
    if n > 0 {
      InvHolds(events, n - 1);
      InvStep(events, n - 1, At(events, n - 1));
    }
  }

  /** The last write of a key among the first n events. */
  function Newest(events: seq<Event>, n: nat, key: string): (q: Option<nat>)
    requires n <= |events|
    ensures q.Some? ==> q.value < n && events[q.value].Write? && events[q.value].key == key
    ensures forall w :: 0 <= w < n && events[w].Write? && events[w].key == key ==> q.Some? && w <= q.value
  {
    if n == 0 then None
    else if events[n - 1].Write? && events[n - 1].key == key then Some(n - 1)
    else Newest(events, n - 1, key)
  }

  function ValueOf(events: seq<Event>, q: Option<nat>): Option<Variant>
    requires q.Some? ==> q.value < |events| && events[q.value].Write?
  {
    if q.Some? then Some(events[q.value].value) else None
  }

  /** The map holds of every key the value last written. */
  lemma {:induction false} StoreIsNewest(events: seq<Event>, n: nat, key: string)
    requires n <= |events| && After(events, n).Some?
    ensures Lookup(At(events, n).store, key) == ValueOf(events, Newest(events, n, key))
  {
    if n > 0 {
      StoreIsNewest(events, n - 1, key);
    }
  }

  // ---- freshness ----

  /** No event of a reader between its load and its finish: together they are one call. */
  ghost predicate OneCall(events: seq<Event>, load: nat, finish: nat, reader: nat, key: string)
  {
    && load < finish < |events|
    && events[load] == Load(reader, key) && events[finish] == Finish(reader)
    && forall i :: load < i < finish ==> events[i] != Finish(reader)
  }

  lemma {:induction false} CallPending(events: seq<Event>, load: nat, n: nat, reader: nat, key: string)
    requires load < n <= |events| && After(events, n).Some? && events[load] == Load(reader, key)
    requires forall i :: load < i < n ==> events[i] != Finish(reader)
    ensures reader in At(events, n).calls && At(events, n).calls[reader].key == key
    ensures At(events, n).calls[reader].loadedAt == load
    decreases n
  {
    if load < n - 1 {
      CallPending(events, load, n - 1, reader, key);
    }
  }

  /** Nobody but the reader itself touches its memos, so they stay during a call. */
  lemma {:induction false} MemoStays(events: seq<Event>, load: nat, n: nat, reader: nat, key: string)
    requires load < n <= |events| && After(events, n).Some? && After(events, load).Some?
    requires events[load] == Load(reader, key) && forall i :: load < i < n ==> events[i] != Finish(reader)
    ensures (reader, key) in At(events, n).memos <==> (reader, key) in At(events, load).memos
    ensures (reader, key) in At(events, n).memos ==>
              At(events, n).memos[(reader, key)] == At(events, load).memos[(reader, key)]
    decreases n
  {
    if load < n - 1 {
      MemoStays(events, load, n - 1, reader, key);
    }
  }

  /** The memo that a reader has of a key after n events, if any. */
  function MemoAt(events: seq<Event>, n: nat, reader: nat, key: string): Option<Memo>
    requires n <= |events| && After(events, n).Some?
  {
    var memos := At(events, n).memos;
    if (reader, key) in memos then Some(memos[(reader, key)]) else None
  }

  /** The generation has come round to the memo's stamp: zero, 2^64, 2 * 2^64... bumps after it was loaded. */
  ghost predicate ComesRound(events: seq<Event>, load: nat, memo: Memo)
    requires load <= |events| && memo.loadedAt <= load
  {
    (Bumps(events, load) - Bumps(events, memo.loadedAt)) % TWO64 == 0
  }

  lemma SameStamp(m: nat, n: nat)
    ensures m % TWO64 == n % TWO64 <==> (n - m) % TWO64 == 0
  {
  }

  lemma CallNow(events: seq<Event>, load: nat, finish: nat, reader: nat, key: string)
    requires IsRun(events) && OneCall(events, load, finish, reader, key)
    ensures After(events, finish).Some? && After(events, load).Some? && reader in At(events, finish).calls
    ensures var call := At(events, finish).calls[reader];
            call.key == key && call.stamp == Bumps(events, load) % TWO64
  {
    RunSoFar(events, finish, |events|);
    RunSoFar(events, load, |events|);
    CallPending(events, load, finish, reader, key);
    InvHolds(events, finish);
    assert CallOk(events, finish, reader, At(events, finish).calls[reader]);
  }

  lemma MemoIs(events: seq<Event>, n: nat, reader: nat, key: string)
    requires n <= |events| && After(events, n).Some? && MemoAt(events, n, reader, key).Some?
    ensures MemoOk(events, n, key, MemoAt(events, n, reader, key).value)
  {
    InvHolds(events, n);
    assert MemoOk(events, n, key, At(events, n).memos[(reader, key)]);
  }

  /**
   * The write that a `get` answers with: the last one its memo saw, exactly if the generation has
   * come round to the memo's stamp, and else the last one there is.
   */
  ghost function Version(events: seq<Event>, load: nat, finish: nat, reader: nat, key: string): (q: Option<nat>)
    requires IsRun(events) && OneCall(events, load, finish, reader, key)
    ensures q.Some? ==> q.value < finish && events[q.value].Write? && events[q.value].key == key
  {
    CallNow(events, load, finish, reader, key);
    var memo := MemoAt(events, load, reader, key);
    if memo.Some? then
      MemoIs(events, load, reader, key);
      Newest(events, if ComesRound(events, load, memo.value) then memo.value.readAt else finish, key)
    else Newest(events, finish, key)
  }

  /** What a `get` of any run answers. */
  lemma AnswerIs(events: seq<Event>, load: nat, finish: nat, reader: nat, key: string)
    requires IsRun(events) && OneCall(events, load, finish, reader, key)
    ensures After(events, finish).Some? && reader in At(events, finish).calls
    ensures Answer(At(events, finish), reader) == ValueOf(events, Version(events, load, finish, reader, key))
  {
    CallNow(events, load, finish, reader, key);
    MemoStays(events, load, finish, reader, key);
    StoreIsNewest(events, finish, key);
    var memo := MemoAt(events, load, reader, key);
    if memo.Some? {
      MemoIs(events, load, reader, key);
      SameStamp(Bumps(events, memo.value.loadedAt), Bumps(events, load));
      StoreIsNewest(events, memo.value.readAt, key);
    }
  }

  /** A `get` of any run misses a write made before it exactly if it is served from a memo read before that write. */
  lemma StaleIff(events: seq<Event>, write: nat, load: nat, finish: nat, reader: nat, key: string)
    requires IsRun(events) && OneCall(events, load, finish, reader, key) && After(events, load).Some?
    requires write < load && events[write].Write? && events[write].key == key
    ensures var memo, q := MemoAt(events, load, reader, key), Version(events, load, finish, reader, key);
            (q.None? || q.value < write) <==>
            memo.Some? && memo.value.loadedAt <= memo.value.readAt <= write && ComesRound(events, load, memo.value)
  {
    var memo := MemoAt(events, load, reader, key);
    if memo.Some? {
      MemoIs(events, load, reader, key);
    }
  }

  /** The reader's memo of a key, if there is one, was loaded fewer than 2^64 bumps ago. */
  ghost predicate Recent(events: seq<Event>, load: nat, reader: nat, key: string)
    requires load <= |events| && After(events, load).Some?
  {
    var memo := MemoAt(events, load, reader, key);
    memo.Some? && memo.value.loadedAt <= load ==> Bumps(events, load) < Bumps(events, memo.value.loadedAt) + TWO64
  }

  /**
   * A `get` that starts after a write was published by a bump answers with that write or a later
   * one, as long as the reader's own memo is fewer than 2^64 generations old.
   */
  lemma GetIsFresh(events: seq<Event>, write: nat, bump: nat, load: nat, finish: nat, reader: nat, key: string)
    returns (q: nat)
    requires IsRun(events) && OneCall(events, load, finish, reader, key)
    requires After(events, load).Some? && Recent(events, load, reader, key)
    requires write < bump < load && events[write].Write? && events[write].key == key && events[bump].Bump?
    ensures After(events, finish).Some? && reader in At(events, finish).calls
    ensures write <= q < finish && events[q].Write? && events[q].key == key
    ensures Answer(At(events, finish), reader) == Some(events[q].value)
  {
    AnswerIs(events, load, finish, reader, key);
    StaleIff(events, write, load, finish, reader, key);
    var memo := MemoAt(events, load, reader, key);
    if memo.Some? && memo.value.loadedAt <= load && ComesRound(events, load, memo.value) {
      LoadedAfter(events, bump, load, memo.value.loadedAt);
    }
    q := Version(events, load, finish, reader, key).value;
  }

  /** With no generation between, the older load came after every bump the newer one saw. */
  lemma LoadedAfter(events: seq<Event>, bump: nat, load: nat, other: nat)
    requires bump < load < |events| && other <= load && events[bump].Bump?
    requires (Bumps(events, load) - Bumps(events, other)) % TWO64 == 0
    requires Bumps(events, load) < Bumps(events, other) + TWO64
    ensures bump < other
  {
    BumpsGrow(events, other, load);
    BumpsGrow(events, bump + 1, load);
    assert Bumps(events, bump + 1) == Bumps(events, bump) + 1;
    if other <= bump {
      BumpsGrow(events, other, bump);
    }
  }

  // ---- when the generation wraps around ----

  /** One reader reads a key, which is then written again and published by m bumps before it reads once more. */
  function Rewritten(key: string, first: Variant, second: Variant, m: nat): seq<Event>
  {
    [Write(key, first), Bump, Load(0, key), Finish(0), Write(key, second)] + seq(m, _ => Bump)
    + [Load(0, key), Finish(0)]
  }

  lemma AfterFirstGet(events: seq<Event>, key: string, first: Variant, second: Variant)
    requires 5 <= |events|
    requires events[..5] == [Write(key, first), Bump, Load(0, key), Finish(0), Write(key, second)]
    ensures After(events, 5) == Some(State(map[key := second], 1, map[(0, key) := Memo(1, Some(first), 2, 3)], map[]))
  {
    assert events[0] == events[..5][0] && events[1] == events[..5][1] && events[2] == events[..5][2];
    assert events[3] == events[..5][3] && events[4] == events[..5][4];
    var s1 := INITIAL.(store := map[key := first]);
    assert After(events, 1) == Some(s1);
    var s2 := s1.(generation := 1);
    assert After(events, 2) == Some(s2);
    var s3 := s2.(calls := map[0 := Call(key, 1, 2)]);
    assert After(events, 3) == Some(s3);
    var s4 := s2.(memos := map[(0, key) := Memo(1, Some(first), 2, 3)]);
    assert s3.calls - {0} == map[];
    assert After(events, 4) == Some(s4);
    assert s4.store[key := second] == map[key := second];
  }

  lemma NextGeneration(n: nat)
    ensures (n % TWO64 + 1) % TWO64 == (n + 1) % TWO64
  {
  }

  lemma {:induction false} AfterBumps(events: seq<Event>, s: State, m: nat)
    requires 5 + m <= |events| && After(events, 5) == Some(s) && s.generation < TWO64
    requires forall i :: 5 <= i < 5 + m ==> events[i] == Bump
    ensures After(events, 5 + m) == Some(s.(generation := (s.generation + m) % TWO64))
  {
    if m == 0 {
      assert s.(generation := s.generation) == s;
    } else {
      AfterBumps(events, s, m - 1);
      NextGeneration(s.generation + m - 1);
    }
  }

  /** The second read is stale exactly when the bumps brought the generation back to the memo's stamp. */
  lemma StaleAfterWrapping(key: string, first: Variant, second: Variant, m: nat)
    requires first != second
    ensures var events := Rewritten(key, first, second, m);
            && IsRun(events)
            && After(events, m + 6).Some? && 0 in At(events, m + 6).calls
            && (Answer(At(events, m + 6), 0) == Some(first) <==> m % TWO64 == 0)
            && (Answer(At(events, m + 6), 0) == Some(second) <==> m % TWO64 != 0)
  {
    var events := Rewritten(key, first, second, m);
    AfterFirstGet(events, key, first, second);
    var s := At(events, 5);
    AfterBumps(events, s, m);
    var t := s.(generation := (1 + m) % TWO64);
    assert events[5 + m] == Load(0, key) && events[6 + m] == Finish(0);
    assert After(events, m + 6) == Some(t.(calls := map[0 := Call(key, t.generation, m + 5)]));
    assert (1 + m) % TWO64 == 1 <==> m % TWO64 == 0;
    assert |events| == m + 7;
  }
}
