/** What every run of the login commands keeps, and what each answer tells. */
module AuthSafety {
  import opened Wrappers
  import opened AccountTables
  import opened AuthSession

  // ---- accounts ----

  /** Same accounts up to the passwords. */
  ghost predicate SameButPasswords(a: seq<Account>, b: seq<Account>)
  {
    |a| == |b| && forall i :: 0 <= i < |a| ==> b[i] == a[i].(password := b[i].password)
  }

  lemma {:induction false} FindSame(a: seq<Account>, b: seq<Account>, login: string)
    requires SameButPasswords(a, b)
    ensures Find(a, login).Some? == Find(b, login).Some?
    ensures Find(a, login).Some? ==>
              Find(b, login).value == Find(a, login).value.(password := Find(b, login).value.password)
  {
    if a != [] {
      assert b[0] == a[0].(password := b[0].password);
      if a[0].login != login {
        FindSame(a[1..], b[1..], login);
      }
    }
  }

  lemma UniqueSame(a: seq<Account>, b: seq<Account>)
    requires SameButPasswords(a, b) && UniqueAccounts(a)
    ensures UniqueAccounts(b)
  {
  }

  lemma HasIdSame(a: seq<Account>, b: seq<Account>, id: nat)
    requires SameButPasswords(a, b)
    ensures HasId(a, id) == HasId(b, id)
  {
    if HasId(a, id) {
      var i :| 0 <= i < |a| && a[i].id == id;
      assert b[i].id == id;
    }
    if HasId(b, id) {
      var i :| 0 <= i < |b| && b[i].id == id;
      assert a[i].id == id;
    }
  }

  /** Checking a password may store it anew, and changes nothing else. */
  lemma PasswordOnly(db: Db, w: World, c: Chance, username: string, password: string)
    ensures var (owner, after) := CheckPassword(db, w, c, username, password);
            && SameButPasswords(db.accounts, after.accounts)
            && after == db.(accounts := after.accounts)
            && AccountId(after, username) == AccountId(db, username)
            && (owner.Some? ==> owner.value.id == AccountId(db, username))
  {
    var (owner, after) := CheckPassword(db, w, c, username, password);
    FindSame(db.accounts, after.accounts, username);
  }

  lemma SafeSame(db: Db, after: Db)
    requires Safe(db) && SameButPasswords(db.accounts, after.accounts)
    requires after.totp == db.totp && after.tokens == db.tokens
    ensures Safe(after)
  {
    UniqueSame(db.accounts, after.accounts);
    forall id | id in after.totp
      ensures HasId(after.accounts, id)
    {
      HasIdSame(db.accounts, after.accounts, id);
    }
  }

  lemma IdBehindLogin(db: Db, login: string)
    requires AccountId(db, login) != 0
    ensures HasId(db.accounts, AccountId(db, login))
  {
    var account := Find(db.accounts, login).value;
    var i :| 0 <= i < |db.accounts| && db.accounts[i] == account;
  }

  // ---- what a command may touch ----

  /** No token is new. */
  ghost predicate NoneNew(before: map<string, TokenRow>, after: map<string, TokenRow>)
  {
    forall h :: h in after ==> h in before && after[h] == before[h]
  }

  /** The tokens of every other account stay, and nothing new is theirs. */
  ghost predicate TokensOnly(before: map<string, TokenRow>, after: map<string, TokenRow>, id: nat)
  {
    && (forall h :: h in before && before[h].accid != id ==> h in after && after[h] == before[h])
    && (forall h :: h in after && after[h].accid != id ==> h in before && before[h] == after[h])
  }

  ghost predicate TotpOnly(before: map<nat, TotpRow>, after: map<nat, TotpRow>, id: nat)
  {
    forall k :: k != id ==> (k in before <==> k in after) && (k in before ==> before[k] == after[k])
  }

  /** Rows stay in place; at most the password of the account named may change. */
  ghost predicate AccountsOnly(before: seq<Account>, after: seq<Account>, id: nat)
  {
    && |before| <= |after|
    && forall i :: 0 <= i < |before| ==>
         after[i] == if before[i].id == id then before[i].(password := after[i].password) else before[i]
  }

  ghost predicate Touches(before: Db, after: Db, id: nat)
  {
    && AccountsOnly(before.accounts, after.accounts, id)
    && TotpOnly(before.totp, after.totp, id)
    && TokensOnly(before.tokens, after.tokens, id)
  }

  /** The tables stay safe, and only those of one account change. */
  ghost predicate Keeps(before: Db, after: Db, id: nat) { Safe(after) && Touches(before, after, id) }

  /** A login whose tables changed in the tokens alone, none of them new but for an account with a second factor. */
  ghost predicate LoginTouches(before: Db, after: Db, id: nat)
  {
    && after.accounts == before.accounts && after.totp == before.totp
    && TokensOnly(before.tokens, after.tokens, id)
    && (NoneNew(before.tokens, after.tokens) || NeedsOtp(before, id))
  }

  lemma SuccessTouches(db: Db, w: World, c: Chance, r: Request, id: nat, otpVerified: bool)
    requires otpVerified ==> NeedsOtp(db, id)
    ensures LoginTouches(db, LoginSucceeds(db, w, c, r, id, otpVerified).db, id)
  {
  }

  lemma SecondFactorTouches(db: Db, w: World, c: Chance, r: Request, id: nat)
    requires NeedsOtp(db, id)
    ensures LoginTouches(db, SecondFactor(db, w, c, r, id).db, id)
  {
    var looked := db.(tokens := WithoutExpired(db.tokens, id, c.now));
    SuccessTouches(db, w, c, r, id, true);
    SuccessTouches(looked, w, c, r, id, true);
  }

  lemma LoginTouchesAll(db: Db, w: World, c: Chance, r: Request)
    ensures var checked := CheckPassword(db, w, c, r.username, r.password).1;
            LoginTouches(checked, Login(db, w, c, r).db, AccountId(db, r.username))
  {
    var (owner, checked) := CheckPassword(db, w, c, r.username, r.password);
    PasswordOnly(db, w, c, r.username, r.password);
    if owner.Some? && IsNormal(owner.value.status) {
      if NeedsOtp(checked, owner.value.id) {
        SecondFactorTouches(checked, w, c, r, owner.value.id);
      } else {
        SuccessTouches(checked, w, c, r, owner.value.id, false);
      }
    }
  }

  /** The password of a login is stored with the account of that login alone. */
  lemma {:induction false} FindUnique(accounts: seq<Account>, login: string, i: nat)
    requires UniqueAccounts(accounts) && i < |accounts| && accounts[i].login == login
    ensures Find(accounts, login) == Some(accounts[i])
  {
    if i > 0 {
      assert accounts[1..][i - 1] == accounts[i];
      FindUnique(accounts[1..], login, i - 1);
    }
  }

  lemma CheckTouches(db: Db, w: World, c: Chance, username: string, password: string)
    requires Safe(db)
    ensures var after := CheckPassword(db, w, c, username, password).1;
            AccountsOnly(db.accounts, after.accounts, AccountId(db, username)) && Safe(after)
  {
    var after := CheckPassword(db, w, c, username, password).1;
    PasswordOnly(db, w, c, username, password);
    SafeSame(db, after);
    forall i | 0 <= i < |db.accounts|
      ensures db.accounts[i].login == username ==> db.accounts[i].id == AccountId(db, username)
    {
      if db.accounts[i].login == username {
        FindUnique(db.accounts, username, i);
      }
    }
  }

  lemma LoginFrame(db: Db, w: World, c: Chance, r: Request)
    requires Safe(db)
    ensures Keeps(db, Login(db, w, c, r).db, AccountId(db, r.username))
  {
    CheckTouches(db, w, c, r.username, r.password);
    PasswordOnly(db, w, c, r.username, r.password);
    LoginTouchesAll(db, w, c, r);
    LoginKeepsSafe(CheckPassword(db, w, c, r.username, r.password).1, Login(db, w, c, r).db, AccountId(db, r.username));
  }

  lemma LoginKeepsSafe(db: Db, after: Db, id: nat)
    requires Safe(db) && LoginTouches(db, after, id)
    ensures Safe(after)
  {
    forall h | h in after.tokens
      ensures NeedsOtp(after, after.tokens[h].accid)
    {
      if after.tokens[h].accid != id || NoneNew(db.tokens, after.tokens) {
        assert h in db.tokens;
      }
    }
  }

  lemma CreateFrame(db: Db, c: Chance, r: Request)
    requires Safe(db)
    ensures Keeps(db, Create(db, c, r).db, AccountId(db, r.username))
  {
    var after := Create(db, c, r).db;
    if after != db {
      var k := |db.accounts|;
      forall i | 0 <= i < k
        ensures after.accounts[i].id != after.accounts[k].id && after.accounts[i].login != after.accounts[k].login
      {
      }
      forall id | id in after.totp
        ensures HasId(after.accounts, id)
      {
        var i :| 0 <= i < k && db.accounts[i].id == id;
        assert after.accounts[i].id == id;
      }
    }
  }

  /** A new password, with the tokens of its account gone. */
  lemma PasswordFrame(db: Db, id: nat, hash: string)
    requires Safe(db)
    ensures Keeps(db, db.(accounts := Rehashed(db.accounts, (a: Account) => a.id == id, hash),
                          tokens := WithoutTokens(db.tokens, id)), id)
  {
    var accounts := Rehashed(db.accounts, (a: Account) => a.id == id, hash);
    SafeSame(db, db.(accounts := accounts));
  }

  lemma KeepsThen(db: Db, checked: Db, after: Db, id: nat)
    requires AccountsOnly(db.accounts, checked.accounts, id) && checked.totp == db.totp && checked.tokens == db.tokens
    requires Keeps(checked, after, id)
    ensures Keeps(db, after, id)
  {
  }

  lemma ChangeFrame(db: Db, w: World, c: Chance, r: Request)
    requires Safe(db)
    ensures Keeps(db, Change(db, w, c, r).db, AccountId(db, r.username))
  {
    var checked := CheckPassword(db, w, c, r.username, r.password).1;
    CheckTouches(db, w, c, r.username, r.password);
    PasswordOnly(db, w, c, r.username, r.password);
    var id := AccountId(checked, r.username);
    if Change(db, w, c, r).db != checked {
      PasswordFrame(checked, id, c.newHash);
      KeepsThen(db, checked, Change(db, w, c, r).db, id);
    }
  }

  /** The row of one account replaced or removed, none of its tokens left without a validated row. */
  lemma RowFrame(db: Db, after: Db, id: nat)
    requires Safe(db) && after.accounts == db.accounts && after.sessions == db.sessions
    requires TotpOnly(db.totp, after.totp, id) && TokensOnly(db.tokens, after.tokens, id)
    requires id in after.totp ==> HasId(db.accounts, id)
    requires NoneNew(db.tokens, after.tokens)
    requires HoldsToken(after, id) ==> NeedsOtp(after, id)
    ensures Keeps(db, after, id)
  {
    forall h | h in after.tokens
      ensures NeedsOtp(after, after.tokens[h].accid)
    {
      assert h in db.tokens;
    }
  }

  lemma SetUpFrame(db: Db, w: World, c: Chance, r: Request)
    requires Safe(db)
    ensures Keeps(db, SetUpTotp(db, w, c, r).db, AccountId(db, r.username))
  {
    var checked := CheckPassword(db, w, c, r.username, r.password).1;
    CheckTouches(db, w, c, r.username, r.password);
    PasswordOnly(db, w, c, r.username, r.password);
    var id := AccountId(checked, r.username);
    if id != 0 {
      IdBehindLogin(checked, r.username);
      RowFrame(checked, SetUpTotp(db, w, c, r).db, id);
      KeepsThen(db, checked, SetUpTotp(db, w, c, r).db, id);
    }
  }

  lemma TakeDownFrame(db: Db, w: World, c: Chance, r: Request)
    requires Safe(db)
    ensures Keeps(db, TakeDownTotp(db, w, c, r).db, AccountId(db, r.username))
  {
    var checked := CheckPassword(db, w, c, r.username, r.password).1;
    CheckTouches(db, w, c, r.username, r.password);
    PasswordOnly(db, w, c, r.username, r.password);
    var id := AccountId(checked, r.username);
    if id != 0 {
      IdBehindLogin(checked, r.username);
    }
    RowFrame(checked, TakeDownTotp(db, w, c, r).db, id);
    KeepsThen(db, checked, TakeDownTotp(db, w, c, r).db, id);
  }

  /** The row of one account replaced, its second factor no less validated than before. */
  lemma RowReplaced(db: Db, id: nat, row: TotpRow)
    requires Safe(db) && id in db.totp && (db.totp[id].validated ==> row.validated)
    ensures Keeps(db, db.(totp := db.totp[id := row]), id)
  {
    RowFrame(db, db.(totp := db.totp[id := row]), id);
  }

  lemma RegenerateFrame(db: Db, w: World, c: Chance, r: Request)
    requires Safe(db)
    ensures Keeps(db, Regenerate(db, w, c, r).db, AccountId(db, r.username))
  {
    var checked := CheckPassword(db, w, c, r.username, r.password).1;
    CheckTouches(db, w, c, r.username, r.password);
    PasswordOnly(db, w, c, r.username, r.password);
    var id, after := AccountId(checked, r.username), Regenerate(db, w, c, r).db;
    if after != checked {
      RowReplaced(checked, id, after.totp[id]);
    }
    KeepsThen(db, checked, after, id);
  }

  lemma VerifyFrame(db: Db, w: World, c: Chance, r: Request)
    requires Safe(db)
    ensures Keeps(db, Verify(db, w, c, r).db, AccountId(db, r.username))
  {
    var checked := CheckPassword(db, w, c, r.username, r.password).1;
    CheckTouches(db, w, c, r.username, r.password);
    PasswordOnly(db, w, c, r.username, r.password);
    var id, after := AccountId(checked, r.username), Verify(db, w, c, r).db;
    if after != checked {
      RowReplaced(checked, id, after.totp[id]);
    }
    KeepsThen(db, checked, after, id);
  }

  lemma PerformFrame(db: Db, w: World, c: Chance, r: Request)
    requires Safe(db)
    ensures Keeps(db, Perform(db, w, c, r).db, AccountId(db, r.username))
  {
    match r.command
    case LoginAttempt => LoginFrame(db, w, c, r);
    case LoginCreate => CreateFrame(db, c, r);
    case ChangePassword => ChangeFrame(db, w, c, r);
    case CreateTotp => SetUpFrame(db, w, c, r);
    case RemoveTotp => TakeDownFrame(db, w, c, r);
    case RegenerateRecovery => RegenerateFrame(db, w, c, r);
    case VerifyTotp => VerifyFrame(db, w, c, r);
    case _ =>
  }

  /**
   * Every command keeps the tables safe, so a trust token is held only where a validated second
   * factor is, and it touches nothing of any account but the one it names.
   */
  lemma StepFrame(db: Db, w: World, c: Chance, r: Request)
    requires Safe(db)
    ensures Keeps(db, Step(db, w, c, r).db, AccountId(db, r.username))
  {
    PerformFrame(db, w, c, r);
  }
}
