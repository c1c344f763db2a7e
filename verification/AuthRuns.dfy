/** What the answers of the login server tell, and where its trust tokens come from, over every run. */
module AuthRuns {
  import opened Wrappers
  import opened AccountTables
  import opened AuthSession
  import opened AuthSafety

  // ---- who gets in ----

  ghost predicate PasswordOpens(db: Db, w: World, c: Chance, username: string, password: string)
  {
    var found := Find(db.accounts, username);
    && found.Some?
    && (if IsBcrypt(found.value.password) then w.matches(password, found.value.password)
        else w.oldHash(password) == found.value.password && w.matches(password, c.rehash))
  }

  /** A live trust token of the account, or the code of the moment; an empty code cannot stand in for a bad token. */
  ghost predicate TokenOpens(db: Db, w: World, c: Chance, r: Request, id: nat)
  {
    r.trustToken != "" && IsTokenFormat(r.trustToken) && HasLive(db.tokens, w.digest(r.trustToken), id, c.now)
  }

  ghost predicate CodeOpens(db: Db, w: World, c: Chance, r: Request, id: nat)
  {
    r.otp == w.code(SecretOf(db, id), c.now) && (r.otp != "" || r.trustToken == "")
  }

  ghost predicate Admits(db: Db, w: World, c: Chance, r: Request)
  {
    && WellFormed(r) && r.command == LoginAttempt
    && PasswordOpens(db, w, c, r.username, r.password)
    && var account := Find(db.accounts, r.username).value;
       && IsNormal(account.status)
       && (NeedsOtp(db, account.id) ==> TokenOpens(db, w, c, r, account.id) || CodeOpens(db, w, c, r, account.id))
  }

  /** The token that a login is to issue, if any. */
  function Issues(db: Db, c: Chance, r: Request): Option<string>
  {
    if r.trustThisComputer && NeedsOtp(db, AccountId(db, r.username)) then c.newToken else None
  }

  ghost predicate LetsIn(o: Outcome) { exists reply :: reply in o.sent && reply.LoggedIn? }

  lemma SecondFactorIff(db: Db, w: World, c: Chance, r: Request, id: nat)
    requires id == AccountId(db, r.username)
    ensures var o := SecondFactor(db, w, c, r, id);
            && |o.sent| == 1
            && (o.sent[0].LoggedIn? <==> TokenOpens(db, w, c, r, id) || CodeOpens(db, w, c, r, id))
            && (o.sent[0].LoggedIn? ==>
                  o.sent[0] == LoggedIn(id, c.sessionHash, if r.trustThisComputer then c.newToken else None))
  {
  }

  lemma PasswordIff(db: Db, w: World, c: Chance, r: Request)
    ensures var owner := CheckPassword(db, w, c, r.username, r.password).0;
            owner.Some? && IsNormal(owner.value.status) <==>
            PasswordOpens(db, w, c, r.username, r.password) && IsNormal(Find(db.accounts, r.username).value.status)
  {
  }

  lemma LoginIff(db: Db, w: World, c: Chance, r: Request)
    requires WellFormed(r) && r.command == LoginAttempt && Safe(db)
    ensures var o := Login(db, w, c, r);
            && |o.sent| == 1
            && (o.sent[0].LoggedIn? <==> Admits(db, w, c, r))
            && (o.sent[0].LoggedIn? ==>
                  o.sent[0] == LoggedIn(AccountId(db, r.username), c.sessionHash, Issues(db, c, r)))
  {
    var (owner, checked) := CheckPassword(db, w, c, r.username, r.password);
    PasswordOnly(db, w, c, r.username, r.password);
    PasswordIff(db, w, c, r);
    var id := AccountId(db, r.username);
    if owner.Some? && IsNormal(owner.value.status) && NeedsOtp(checked, id) {
      SecondFactorIff(checked, w, c, r, id);
    }
  }

  /** Only a login answers with a session, and exactly when password, status and second factor all allow it. */
  lemma LetsInIff(db: Db, w: World, c: Chance, r: Request)
    requires Safe(db)
    ensures LetsIn(Step(db, w, c, r)) <==> Admits(db, w, c, r)
    ensures Admits(db, w, c, r) ==>
              Step(db, w, c, r).sent == [LoggedIn(AccountId(db, r.username), c.sessionHash, Issues(db, c, r))]
  {
    if WellFormed(r) && r.command == LoginAttempt {
      LoginIff(db, w, c, r);
      var o := Login(db, w, c, r);
      assert o.sent == [o.sent[0]];
      if o.sent[0].LoggedIn? {
        assert o.sent[0] in o.sent;
      }
    } else {
      OthersStayOut(db, w, c, r);
    }
  }

  /** Neither a session is given nor are tokens cleared, and the sessions stay. */
  ghost predicate Plain(db: Db, o: Outcome) { !LetsIn(o) && !Clears(o) && o.db.sessions == db.sessions }

  /** The password was changed or the second factor taken down. */
  ghost predicate Clears(o: Outcome)
  {
    Result(SuccessChangePassword) in o.sent || Result(SuccessRemoveTotp) in o.sent
  }

  lemma LoginAnswers(db: Db, w: World, c: Chance, r: Request)
    ensures !Clears(Login(db, w, c, r))
  {
  }

  lemma CreateAnswers(db: Db, c: Chance, r: Request)
    ensures Plain(db, Create(db, c, r))
  {
  }

  lemma SetUpAnswers(db: Db, w: World, c: Chance, r: Request)
    ensures Plain(db, SetUpTotp(db, w, c, r))
  {
    PasswordOnly(db, w, c, r.username, r.password);
  }

  lemma RegenerateAnswers(db: Db, w: World, c: Chance, r: Request)
    ensures Plain(db, Regenerate(db, w, c, r))
  {
    PasswordOnly(db, w, c, r.username, r.password);
  }

  lemma VerifyAnswers(db: Db, w: World, c: Chance, r: Request)
    ensures Plain(db, Verify(db, w, c, r))
  {
    PasswordOnly(db, w, c, r.username, r.password);
  }

  /** What a change of password or a removal of the second factor leaves, when it says it succeeded. */
  ghost predicate Cleared(db: Db, w: World, c: Chance, r: Request, o: Outcome)
  {
    var id := AccountId(db, r.username);
    && !LetsIn(o) && o.db.sessions == db.sessions
    && (Clears(o) ==> !HoldsToken(o.db, id))
    && (Result(SuccessRemoveTotp) in o.sent ==> id !in o.db.totp)
    && (Result(SuccessChangePassword) in o.sent ==>
          && Find(db.accounts, r.username).Some?
          && Find(o.db.accounts, r.username) == Some(Find(db.accounts, r.username).value.(password := c.newHash)))
  }

  lemma {:induction false} FindRehashed(accounts: seq<Account>, login: string, id: nat, hash: string)
    requires Find(accounts, login).Some? && Find(accounts, login).value.id == id
    ensures Find(Rehashed(accounts, (a: Account) => a.id == id, hash), login)
            == Some(Find(accounts, login).value.(password := hash))
  {
    var after := Rehashed(accounts, (a: Account) => a.id == id, hash);
    if accounts[0].login != login {
      FindRehashed(accounts[1..], login, id, hash);
      assert after[1..] == Rehashed(accounts[1..], (a: Account) => a.id == id, hash);
    }
  }

  lemma ChangedQuiet(db: Db, w: World, c: Chance, r: Request)
    ensures var o := Change(db, w, c, r);
            !LetsIn(o) && o.db.sessions == db.sessions && Result(SuccessRemoveTotp) !in o.sent
  {
  }

  lemma ChangedAnswers(db: Db, w: World, c: Chance, r: Request)
    requires Result(SuccessChangePassword) in Change(db, w, c, r).sent
    ensures var o := Change(db, w, c, r);
            var (owner, checked) := CheckPassword(db, w, c, r.username, r.password);
            && owner.Some? && IsNormal(owner.value.status)
            && o.db.accounts == Rehashed(checked.accounts, (a: Account) => a.id == owner.value.id, c.newHash)
            && o.db.tokens == WithoutTokens(checked.tokens, owner.value.id)
  {
  }

  lemma ChangeAnswers(db: Db, w: World, c: Chance, r: Request)
    ensures Cleared(db, w, c, r, Change(db, w, c, r))
  {
    var (owner, checked) := CheckPassword(db, w, c, r.username, r.password);
    PasswordOnly(db, w, c, r.username, r.password);
    FindSame(db.accounts, checked.accounts, r.username);
    ChangedQuiet(db, w, c, r);
    if Result(SuccessChangePassword) in Change(db, w, c, r).sent {
      ChangedAnswers(db, w, c, r);
      FindRehashed(checked.accounts, r.username, owner.value.id, c.newHash);
    }
  }

  lemma TakeDownAnswers(db: Db, w: World, c: Chance, r: Request)
    ensures Cleared(db, w, c, r, TakeDownTotp(db, w, c, r))
  {
    PasswordOnly(db, w, c, r.username, r.password);
  }

  lemma OthersStayOut(db: Db, w: World, c: Chance, r: Request)
    requires !WellFormed(r) || r.command != LoginAttempt
    ensures !LetsIn(Step(db, w, c, r)) && Step(db, w, c, r).db.sessions == db.sessions
  {
    match r.command
    case LoginCreate => CreateAnswers(db, c, r);
    case ChangePassword => ChangeAnswers(db, w, c, r);
    case CreateTotp => SetUpAnswers(db, w, c, r);
    case RemoveTotp => TakeDownAnswers(db, w, c, r);
    case RegenerateRecovery => RegenerateAnswers(db, w, c, r);
    case VerifyTotp => VerifyAnswers(db, w, c, r);
    case _ =>
  }

  /**
   * A reply that the password was changed, or the second factor removed, is true: the new
   * password is stored, or the row is gone, and either way the account has no trust token.
   */
  lemma ClearsTokens(db: Db, w: World, c: Chance, r: Request)
    ensures Clears(Step(db, w, c, r)) ==> Cleared(db, w, c, r, Step(db, w, c, r))
  {
    if WellFormed(r) {
      match r.command
      case LoginAttempt => LoginAnswers(db, w, c, r);
      case LoginCreate => CreateAnswers(db, c, r);
      case ChangePassword => ChangeAnswers(db, w, c, r);
      case CreateTotp => SetUpAnswers(db, w, c, r);
      case RemoveTotp => TakeDownAnswers(db, w, c, r);
      case RegenerateRecovery => RegenerateAnswers(db, w, c, r);
      case VerifyTotp => VerifyAnswers(db, w, c, r);
      case _ =>
    }
  }
}
