/** Opening an account and setting up its second factor: what the answers promise. */
module AuthAnswers {
  import opened Bits
  import opened Wrappers
  import opened AccountTables
  import opened AuthSession
  import opened AuthSafety
  import opened AuthRuns

  // ---- new accounts ----

  /** The next id is free, unless the ids have run up to the end of 32 bits and 1000 is taken again. */
  lemma NextIdFree(accounts: seq<Account>)
    requires forall i :: 0 <= i < |accounts| ==> accounts[i].id < TWO32
    ensures HasId(accounts, NextId(accounts)) <==> HasId(accounts, TWO32 - 1) && HasId(accounts, 1000)
  {
    var last := MaxId(accounts);
    if HasId(accounts, last) {
      var i :| 0 <= i < |accounts| && accounts[i].id == last;
      assert last < TWO32;
    }
    if last + 1 < TWO32 {
      assert NextId(accounts) > last;
      assert !HasId(accounts, TWO32 - 1);
    } else {
      assert NextId(accounts) == 1000;
    }
  }

  lemma {:induction false} FindAppended(accounts: seq<Account>, account: Account)
    requires Find(accounts, account.login).None?
    ensures Find(accounts + [account], account.login) == Some(account)
  {
    if accounts != [] {
      assert (accounts + [account])[1..] == accounts[1..] + [account];
      FindAppended(accounts[1..], account);
    }
  }

  /** Exactly when an account is created; the login then is new and opens a normal account under an id nobody had. */
  lemma CreatedAccount(db: Db, w: World, c: Chance, r: Request)
    requires WellFormed(r) && r.command == LoginCreate
    ensures Result(SuccessCreate) in Step(db, w, c, r).sent <==>
              && c.creationEnabled && Find(db.accounts, r.username).None? && !HasId(db.accounts, NextId(db.accounts))
    ensures var o := Step(db, w, c, r);
            var id := AccountId(o.db, r.username);
            Result(SuccessCreate) in o.sent ==>
              && id >= 1000 && !HasId(db.accounts, id)
              && Find(o.db.accounts, r.username) == Some(Account(id, r.username, c.newHash, 1))
  {
    if Find(db.accounts, r.username).None? {
      FindAppended(db.accounts, Account(NextId(db.accounts), r.username, c.newHash, 1));
    }
  }

  // ---- changing a password ----

  /** The password of the account opens it, the status allows it, the second factor agrees, and there is a new one. */
  ghost predicate ChangesPassword(db: Db, w: World, c: Chance, r: Request)
  {
    && PasswordOpens(db, w, c, r.username, r.password)
    && r.newPassword != ""
    && var account := Find(db.accounts, r.username).value;
       && IsNormal(account.status)
       && (NeedsOtp(db, account.id) ==> r.otp == w.code(SecretOf(db, account.id), c.now))
  }

  /** A change of password answers success exactly when all of that holds. */
  lemma ChangeSucceedsIff(db: Db, w: World, c: Chance, r: Request)
    requires WellFormed(r) && r.command == ChangePassword
    ensures Result(SuccessChangePassword) in Step(db, w, c, r).sent <==> ChangesPassword(db, w, c, r)
  {
    PasswordOnly(db, w, c, r.username, r.password);
  }

  /** It answers both an error and success exactly when, on top of that, the account is banned. */
  lemma BothAnswersIff(db: Db, w: World, c: Chance, r: Request)
    requires WellFormed(r) && r.command == ChangePassword
    ensures var sent := Step(db, w, c, r).sent;
            Result(ErrorChangePassword) in sent && Result(SuccessChangePassword) in sent <==>
            ChangesPassword(db, w, c, r) && IsBanned(Find(db.accounts, r.username).value.status)
    ensures ChangesPassword(db, w, c, r) ==>
              Step(db, w, c, r).sent ==
                (if IsBanned(Find(db.accounts, r.username).value.status) then [Result(ErrorChangePassword)] else [])
                + [Result(SuccessChangePassword)]
  {
    PasswordOnly(db, w, c, r.username, r.password);
  }

  /** An account that is both normal and banned. */
  const BANNED_AND_NORMAL := Account(1000, "user", "password", 3)

  /** Its owner is told that the change failed and then that it succeeded, and the new password is stored. */
  lemma BothAnswersExample(w: World, c: Chance)
    requires w.oldHash("password") == "password" && w.matches("password", c.rehash)
    ensures var db := Db([BANNED_AND_NORMAL], map[], map[], map[]);
            var r := Request(ChangePassword, "", (2, 1, 0), "user", "password", "new", "", "", false);
            var o := Step(db, w, c, r);
            && WellFormed(r) && Safe(db)
            && o.sent == [Result(ErrorChangePassword), Result(SuccessChangePassword)]
            && Find(o.db.accounts, "user") == Some(BANNED_AND_NORMAL.(password := c.newHash))
  {
    var db := Db([BANNED_AND_NORMAL], map[], map[], map[]);
    var r := Request(ChangePassword, "", (2, 1, 0), "user", "password", "new", "", "", false);
    assert Find(db.accounts, "user") == Some(BANNED_AND_NORMAL);
    assert ChangesPassword(db, w, c, r);
    BothAnswersIff(db, w, c, r);
    ClearsTokens(db, w, c, r);
  }

  // ---- a second factor ----

  /** A secret is handed out only for an account, and until it is verified a login does not ask for it. */
  lemma SecretHandedOut(db: Db, w: World, c: Chance, r: Request, secret: string)
    requires WellFormed(r) && r.command == CreateTotp && TotpSecret(secret) in Step(db, w, c, r).sent
    ensures var after := Step(db, w, c, r).db;
            var id := AccountId(db, r.username);
            && id != 0 && !NeedsOtp(db, id) && !NeedsOtp(after, id)
            && AccountId(after, r.username) == id && id in after.totp && SecretOf(after, id) == secret
  {
    PasswordOnly(db, w, c, r.username, r.password);
  }

  ghost predicate AnswersCode(o: Outcome) { exists code :: RecoveryCode(code) in o.sent }

  /** Verification: the code of the secret turns the second factor on, and nothing else about it changes. */
  lemma VerificationTells(db: Db, w: World, c: Chance, r: Request)
    requires WellFormed(r) && r.command == VerifyTotp && AnswersCode(Step(db, w, c, r))
    ensures var after := Step(db, w, c, r).db;
            var id := AccountId(db, r.username);
            && AccountId(after, r.username) == id && after.tokens == db.tokens
            && r.otp == w.code(SecretOf(db, id), c.now)
            && (id != 0 && id in db.totp ==> NeedsOtp(after, id) && SecretOf(after, id) == SecretOf(db, id))
  {
    PasswordOnly(db, w, c, r.username, r.password);
  }

  /** The first login after the second factor was turned on takes the code of its secret; no token helps yet. */
  lemma FirstLoginTakesCode(db: Db, w: World, c: Chance, r: Request, c': Chance, r': Request)
    requires Safe(db) && WellFormed(r) && r.command == VerifyTotp && AnswersCode(Step(db, w, c, r))
    requires AccountId(db, r.username) in db.totp && !NeedsOtp(db, AccountId(db, r.username))
    requires r'.username == r.username && LetsIn(Step(Step(db, w, c, r).db, w, c', r'))
    ensures r'.otp == w.code(SecretOf(db, AccountId(db, r.username)), c'.now)
  {
    var after, id := Step(db, w, c, r).db, AccountId(db, r.username);
    VerificationTells(db, w, c, r);
    StepFrame(db, w, c, r);
    LetsInIff(after, w, c', r');
    var account := Find(after.accounts, r.username).value;
    assert id != 0 && HasId(db.accounts, id);
    assert forall h :: h in after.tokens ==> NeedsOtp(db, after.tokens[h].accid);
    assert !TokenOpens(after, w, c', r', account.id);
  }

  /** A regenerated recovery code is the one in the table, and there is one only where a login asks for a code. */
  lemma RecoveryRegenerated(db: Db, w: World, c: Chance, r: Request, code: string)
    requires WellFormed(r) && r.command == RegenerateRecovery && RecoveryCode(code) in Step(db, w, c, r).sent
    ensures var after := Step(db, w, c, r).db;
            var id := AccountId(db, r.username);
            && AccountId(after, r.username) == id && SecretOf(after, id) == SecretOf(db, id)
            && after.tokens == db.tokens
            && if NeedsOtp(db, id) then RecoveryCodeOf(after, id) == code == c.newRecoveryCode
               else code == "" && after.totp == db.totp
  {
    PasswordOnly(db, w, c, r.username, r.password);
  }

  /**
   * Setting up a second factor, start to finish: a secret handed out and then verified is the one
   * whose code the next login takes.
   */
  lemma EnrolmentTakesItsSecret(db: Db, w: World, c1: Chance, r1: Request, secret: string,
                                c2: Chance, r2: Request, c3: Chance, r3: Request)
    requires Safe(db) && WellFormed(r1) && r1.command == CreateTotp && TotpSecret(secret) in Step(db, w, c1, r1).sent
    requires WellFormed(r2) && r2.command == VerifyTotp && r2.username == r1.username == r3.username
    requires var handed := Step(db, w, c1, r1).db;
             && AnswersCode(Step(handed, w, c2, r2))
             && LetsIn(Step(Step(handed, w, c2, r2).db, w, c3, r3))
    ensures r2.otp == w.code(secret, c2.now) && r3.otp == w.code(secret, c3.now)
  {
    var handed, id := Step(db, w, c1, r1).db, AccountId(db, r1.username);
    SecretHandedOut(db, w, c1, r1, secret);
    StepFrame(db, w, c1, r1);
    VerificationTells(handed, w, c2, r2);
    FirstLoginTakesCode(handed, w, c2, r2, c3, r3);
  }

  /** A recovery code just regenerated takes the second factor down, whatever the letter case. */
  lemma RecoveryCodeRemoves(db: Db, w: World, c: Chance, r: Request, code: string, c': Chance, r': Request)
    requires Safe(db) && WellFormed(r) && r.command == RegenerateRecovery
    requires RecoveryCode(code) in Step(db, w, c, r).sent && NeedsOtp(db, AccountId(db, r.username))
    requires WellFormed(r') && r'.command == RemoveTotp && r'.username == r.username
    requires PasswordOpens(Step(db, w, c, r).db, w, c', r'.username, r'.password)
    requires SameIgnoringCase(CText(r'.otp), CText(code))
    ensures var o := Step(Step(db, w, c, r).db, w, c', r');
            Result(SuccessRemoveTotp) in o.sent && AccountId(db, r.username) !in o.db.totp
  {
    var after := Step(db, w, c, r).db;
    RecoveryRegenerated(db, w, c, r, code);
    RemovalByCode(after, w, c', r', code);
    ClearsTokens(after, w, c', r');
  }

  lemma RemovalByCode(db: Db, w: World, c: Chance, r: Request, code: string)
    requires WellFormed(r) && r.command == RemoveTotp && PasswordOpens(db, w, c, r.username, r.password)
    requires RecoveryCodeOf(db, AccountId(db, r.username)) == code && SameIgnoringCase(CText(r.otp), CText(code))
    ensures Result(SuccessRemoveTotp) in Step(db, w, c, r).sent
  {
    PasswordOnly(db, w, c, r.username, r.password);
  }
}
