/** Where the trust tokens of a run come from. */
module AuthTokens {
  import opened Wrappers
  import opened AccountTables
  import opened AuthSession
  import opened AuthSafety
  import opened AuthRuns

  datatype Event = Event(request: Request, chance: Chance)

  /** The tables after the first n requests of a run. */
  function After(start: Db, w: World, events: seq<Event>, n: nat): Db
    requires n <= |events|
  {
    if n == 0 then start
    else Step(After(start, w, events, n - 1), w, events[n - 1].chance, events[n - 1].request).db
  }

  /** Every run keeps the tables safe. */
  lemma {:induction false} RunSafe(start: Db, w: World, events: seq<Event>, n: nat)
    requires n <= |events| && Safe(start)
    ensures Safe(After(start, w, events, n))
  {
    if n > 0 {
      RunSafe(start, w, events, n - 1);
      StepFrame(After(start, w, events, n - 1), w, events[n - 1].chance, events[n - 1].request);
    }
  }

  // ---- one step ----

  /** A login that gets past the second factor of its account and is trusted issues this token. */
  ghost predicate NewToken(db: Db, w: World, c: Chance, r: Request, h: string, row: TokenRow)
  {
    var id := AccountId(db, r.username);
    && Admits(db, w, c, r) && NeedsOtp(db, id)
    && Issues(db, c, r).Some? && h == w.digest(Issues(db, c, r).value)
    && row == TokenRow(id, c.now + THIRTY_DAYS)
  }

  lemma SecondFactorTokens(db: Db, w: World, c: Chance, r: Request, id: nat, h: string)
    requires id == AccountId(db, r.username) && h in SecondFactor(db, w, c, r, id).db.tokens
    ensures var row := SecondFactor(db, w, c, r, id).db.tokens[h];
            || (h in db.tokens && row == db.tokens[h])
            || (&& (TokenOpens(db, w, c, r, id) || CodeOpens(db, w, c, r, id))
                && r.trustThisComputer && c.newToken.Some? && h == w.digest(c.newToken.value)
                && row == TokenRow(id, c.now + THIRTY_DAYS))
  {
  }

  lemma LoginTokens(db: Db, w: World, c: Chance, r: Request, h: string)
    requires WellFormed(r) && r.command == LoginAttempt && Safe(db)
    requires h in Login(db, w, c, r).db.tokens
    ensures var row := Login(db, w, c, r).db.tokens[h];
            (h in db.tokens && row == db.tokens[h]) || NewToken(db, w, c, r, h, row)
  {
    var (owner, checked) := CheckPassword(db, w, c, r.username, r.password);
    PasswordOnly(db, w, c, r.username, r.password);
    LoginIff(db, w, c, r);
    var id := AccountId(db, r.username);
    if owner.Some? && IsNormal(owner.value.status) && NeedsOtp(checked, id) {
      SecondFactorTokens(checked, w, c, r, id, h);
      SecondFactorIff(checked, w, c, r, id);
    }
  }

  lemma OthersMakeNone(db: Db, w: World, c: Chance, r: Request)
    requires r.command != LoginAttempt
    ensures NoneNew(db.tokens, Perform(db, w, c, r).db.tokens)
  {
    PasswordOnly(db, w, c, r.username, r.password);
  }

  /** A token after a step was there before, or the step was a login that issued it. */
  lemma StepTokens(db: Db, w: World, c: Chance, r: Request, h: string)
    requires Safe(db) && h in Step(db, w, c, r).db.tokens
    ensures var row := Step(db, w, c, r).db.tokens[h];
            (h in db.tokens && row == db.tokens[h]) || NewToken(db, w, c, r, h, row)
  {
    if WellFormed(r) {
      if r.command == LoginAttempt {
        LoginTokens(db, w, c, r, h);
      } else {
        OthersMakeNone(db, w, c, r);
      }
    }
  }

  /** The secret of an account that holds a token has not been replaced. */
  lemma SecretKept(db: Db, w: World, c: Chance, r: Request, id: nat)
    requires Safe(db) && NeedsOtp(db, id) && HoldsToken(Step(db, w, c, r).db, id)
    ensures var after := Step(db, w, c, r).db;
            NeedsOtp(after, id) && SecretOf(after, id) == SecretOf(db, id)
  {
    if id != AccountId(db, r.username) {
      StepFrame(db, w, c, r);
    } else {
      SecretKeptOwn(db, w, c, r);
    }
  }

  lemma SecretKeptOwn(db: Db, w: World, c: Chance, r: Request)
    requires NeedsOtp(db, AccountId(db, r.username))
    requires HoldsToken(Step(db, w, c, r).db, AccountId(db, r.username))
    ensures var after := Step(db, w, c, r).db;
            var id := AccountId(db, r.username);
            NeedsOtp(after, id) && SecretOf(after, id) == SecretOf(db, id)
  {
    if WellFormed(r) {
      PasswordOnly(db, w, c, r.username, r.password);
      match r.command
      case LoginAttempt => LoginTouchesAll(db, w, c, r);
      case RemoveTotp => TakeDownAnswers(db, w, c, r);
      case _ =>
    }
  }

  // ---- whole runs ----

  /** Request k issued the token, which has stayed in the table since. */
  ghost predicate Issued(start: Db, w: World, events: seq<Event>, k: nat, n: nat, h: string, row: TokenRow)
    requires k < n <= |events|
  {
    && NewToken(After(start, w, events, k), w, events[k].chance, events[k].request, h, row)
    && Stays(start, w, events, k, n, h, row)
  }

  /** The token is in the table after every request from k up to the n-th. */
  ghost predicate Stays(start: Db, w: World, events: seq<Event>, k: nat, n: nat, h: string, row: TokenRow)
    requires k <= n <= |events|
    decreases n
  {
    n == k || (HasRow(After(start, w, events, n), h, row) && Stays(start, w, events, k, n - 1, h, row))
  }

  lemma {:induction false} StaysFrom(start: Db, w: World, events: seq<Event>, k: nat, n: nat, h: string, row: TokenRow)
    requires k < n <= |events| && Stays(start, w, events, k, n, h, row)
    ensures HasRow(After(start, w, events, k + 1), h, row) && Stays(start, w, events, k + 1, n, h, row)
    decreases n
  {
    if k + 1 < n {
      StaysFrom(start, w, events, k, n - 1, h, row);
    }
  }

  ghost predicate HasRow(db: Db, h: string, row: TokenRow) { h in db.tokens && db.tokens[h] == row }

  lemma StepKeepsOrIssues(start: Db, w: World, events: seq<Event>, n: nat, h: string, row: TokenRow)
    requires n < |events| && Safe(start) && HasRow(After(start, w, events, n + 1), h, row)
    ensures HasRow(After(start, w, events, n), h, row)
            || NewToken(After(start, w, events, n), w, events[n].chance, events[n].request, h, row)
  {
    RunSafe(start, w, events, n);
    StepTokens(After(start, w, events, n), w, events[n].chance, events[n].request, h);
  }

  /** Every token of a run was issued by a login of its account, thirty days before it expires. */
  lemma {:induction false} TokenIssued(start: Db, w: World, events: seq<Event>, n: nat, h: string, row: TokenRow)
    returns (k: nat)
    requires n <= |events| && Safe(start) && start.tokens == map[]
    requires HasRow(After(start, w, events, n), h, row)
    ensures k < n && Issued(start, w, events, k, n, h, row)
    decreases n
  {
    StepKeepsOrIssues(start, w, events, n - 1, h, row);
    if HasRow(After(start, w, events, n - 1), h, row) {
      k := TokenIssued(start, w, events, n - 1, h, row);
    } else {
      k := n - 1;
      assert Stays(start, w, events, k, k, h, row);
    }
  }

  /** Request i is a login of the account with the code of its secret. */
  ghost predicate CodeLogin(start: Db, w: World, events: seq<Event>, i: nat, id: nat)
    requires i < |events|
  {
    var db, c, r := After(start, w, events, i), events[i].chance, events[i].request;
    AccountId(db, r.username) == id && NeedsOtp(db, id) && Admits(db, w, c, r) && CodeOpens(db, w, c, r, id)
  }

  /** Request j changes the password of the account or takes down its second factor. */
  ghost predicate Ends(start: Db, w: World, events: seq<Event>, j: nat, id: nat)
    requires j < |events|
  {
    var db, c, r := After(start, w, events, j), events[j].chance, events[j].request;
    AccountId(db, r.username) == id && Clears(Step(db, w, c, r))
  }

  /** The second factor of the account is the same, and validated, after j requests as after i. */
  ghost predicate SameSecret(start: Db, w: World, events: seq<Event>, i: nat, j: nat, id: nat)
    requires i <= j <= |events|
  {
    var before, after := After(start, w, events, i), After(start, w, events, j);
    NeedsOtp(before, id) && NeedsOtp(after, id) && SecretOf(before, id) == SecretOf(after, id)
  }

  /** Since its login with a code at request i, the account has kept its password and its second factor. */
  ghost predicate TrustedSince(start: Db, w: World, events: seq<Event>, i: nat, n: nat, id: nat)
    requires i < n <= |events|
  {
    && CodeLogin(start, w, events, i, id)
    && (forall j :: i < j < n ==> !Ends(start, w, events, j, id))
    && (forall j :: i < j <= n ==> SameSecret(start, w, events, i, j, id))
  }

  /** A request after which the account still holds a token did not end its trust. */
  lemma NotEnded(start: Db, w: World, events: seq<Event>, i: nat, n: nat, id: nat)
    requires i <= n < |events| && Safe(start) && SameSecret(start, w, events, i, n, id)
    requires HoldsToken(After(start, w, events, n + 1), id)
    ensures !Ends(start, w, events, n, id) && SameSecret(start, w, events, i, n + 1, id)
  {
    var db, e := After(start, w, events, n), events[n];
    RunSafe(start, w, events, n);
    SecretKept(db, w, e.chance, e.request, id);
    ClearsTokens(db, w, e.chance, e.request);
  }

  lemma StillTrusted(start: Db, w: World, events: seq<Event>, i: nat, n: nat, id: nat)
    requires i < n < |events| && Safe(start) && TrustedSince(start, w, events, i, n, id)
    requires HoldsToken(After(start, w, events, n + 1), id)
    ensures TrustedSince(start, w, events, i, n + 1, id)
  {
    assert SameSecret(start, w, events, i, n, id);
    NotEnded(start, w, events, i, n, id);
  }

  lemma {:induction false} TrustedWhileHeld(start: Db, w: World, events: seq<Event>, i: nat, k: nat, n: nat,
                                            h: string, row: TokenRow)
    requires i < k <= n <= |events| && Safe(start) && TrustedSince(start, w, events, i, k, row.accid)
    requires Stays(start, w, events, k, n, h, row)
    ensures TrustedSince(start, w, events, i, n, row.accid)
    decreases n
  {
    if k < n {
      TrustedWhileHeld(start, w, events, i, k, n - 1, h, row);
      StillTrusted(start, w, events, i, n - 1, row.accid);
    }
  }

  /** The first step after a login with a code. */
  lemma TrustedFirst(start: Db, w: World, events: seq<Event>, i: nat, id: nat)
    requires i < |events| && Safe(start) && CodeLogin(start, w, events, i, id)
    requires HoldsToken(After(start, w, events, i + 1), id)
    ensures TrustedSince(start, w, events, i, i + 1, id)
  {
    RunSafe(start, w, events, i);
    SecretKept(After(start, w, events, i), w, events[i].chance, events[i].request, id);
  }

  /**
   * Behind every trust token of every run stands a login with the code of the account's secret,
   * directly or through older tokens, and since then the password was not changed and the second
   * factor neither removed nor replaced.
   */
  lemma {:induction false} TokenTraced(start: Db, w: World, events: seq<Event>, n: nat, h: string, row: TokenRow)
    returns (i: nat)
    requires n <= |events| && Safe(start) && start.tokens == map[]
    requires HasRow(After(start, w, events, n), h, row)
    ensures i < n && TrustedSince(start, w, events, i, n, row.accid)
    decreases n, 0
  {
    var k := TokenIssued(start, w, events, n, h, row);
    StaysFrom(start, w, events, k, n, h, row);
    i := TracedAt(start, w, events, k, h, row);
    TrustedWhileHeld(start, w, events, i, k + 1, n, h, row);
  }

  /** Behind the request that issues a token stands one with a code, at the latest itself. */
  lemma {:induction false} TracedAt(start: Db, w: World, events: seq<Event>, k: nat, h: string, row: TokenRow)
    returns (i: nat)
    requires k < |events| && Safe(start) && start.tokens == map[]
    requires NewToken(After(start, w, events, k), w, events[k].chance, events[k].request, h, row)
    requires HasRow(After(start, w, events, k + 1), h, row)
    ensures i <= k && TrustedSince(start, w, events, i, k + 1, row.accid)
    decreases k, 2
  {
    if CodeOpens(After(start, w, events, k), w, events[k].chance, events[k].request, row.accid) {
      i := k;
      TrustedFirst(start, w, events, k, row.accid);
    } else {
      i := TracedBack(start, w, events, k, h, row);
      StillTrusted(start, w, events, i, k, row.accid);
    }
  }

  /** A token issued on the strength of an older one traces back to where that one does. */
  lemma {:induction false} TracedBack(start: Db, w: World, events: seq<Event>, k: nat, h: string, row: TokenRow)
    returns (i: nat)
    requires k < |events| && Safe(start) && start.tokens == map[]
    requires NewToken(After(start, w, events, k), w, events[k].chance, events[k].request, h, row)
    requires !CodeOpens(After(start, w, events, k), w, events[k].chance, events[k].request, row.accid)
    ensures i < k && TrustedSince(start, w, events, i, k, row.accid)
    decreases k, 1
  {
    var db, r := After(start, w, events, k), events[k].request;
    assert TokenOpens(db, w, events[k].chance, r, row.accid);
    var older := w.digest(r.trustToken);
    i := TokenTraced(start, w, events, k, older, db.tokens[older]);
  }
}
