/** What each command answers and leaves in the tables, from the guards a caller can check before it. */
module AuthCommands {
  import opened Wrappers
  import opened AccountTables
  import opened AuthSession
  import opened AuthSafety
  import opened AuthRuns

  // ---- before any command ----

  /** A request of another version, or with a malformed login or password, does nothing. */
  lemma NotWellFormed(db: Db, w: World, c: Chance, r: Request)
    requires !WellFormed(r)
    ensures Step(db, w, c, r).db == db
    ensures Step(db, w, c, r).sent == if r.version.0 == 2 && r.version.1 == 1 then [] else [TooOld]
  {
  }

  /** A right password in the old format is stored anew, whatever else the command does with it. */
  lemma PasswordStoredAnew(db: Db, w: World, c: Chance, username: string, password: string)
    requires Find(db.accounts, username).Some?
    ensures var (owner, after) := CheckPassword(db, w, c, username, password);
            var was := Find(db.accounts, username).value.password;
            && Find(after.accounts, username).Some?
            && Find(after.accounts, username).value.password ==
               (if !IsBcrypt(was) && w.oldHash(password) == was then c.rehash else was)
            && (owner.Some? <==> PasswordOpens(db, w, c, username, password))
  {
    FindMapped(db.accounts, username, c.rehash);
  }

  lemma {:induction false} FindMapped(accounts: seq<Account>, login: string, hash: string)
    requires Find(accounts, login).Some?
    ensures Find(Rehashed(accounts, (a: Account) => a.login == login, hash), login)
            == Some(Find(accounts, login).value.(password := hash))
  {
    var after := Rehashed(accounts, (a: Account) => a.login == login, hash);
    if accounts[0].login != login {
      FindMapped(accounts[1..], login, hash);
      assert after[1..] == Rehashed(accounts[1..], (a: Account) => a.login == login, hash);
    }
  }

  // ---- logging in ----

  /** No account has the login, and the empty stored password is taken for the right one. */
  ghost predicate OpensNothing(db: Db, w: World, c: Chance, r: Request)
  {
    Find(db.accounts, r.username).None? && w.oldHash(r.password) == "" && w.matches(r.password, c.rehash)
  }

  /** Why a login is refused. */
  ghost function Refusal(db: Db, w: World, c: Chance, r: Request): LoginResult
  {
    if OpensNothing(db, w, c, r) then LoginFail
    else if !PasswordOpens(db, w, c, r.username, r.password) then LoginError
    else if !IsNormal(Find(db.accounts, r.username).value.status) then LoginFail
    else if r.otp == "" && r.trustToken != "" then ErrorTrustTokenInvalid
    else LoginError
  }

  lemma SecondFactorRefuses(db: Db, w: World, c: Chance, r: Request, id: nat)
    requires id == AccountId(db, r.username) && !TokenOpens(db, w, c, r, id) && !CodeOpens(db, w, c, r, id)
    ensures var o := SecondFactor(db, w, c, r, id);
            && o.sent == [Result(if r.otp == "" && r.trustToken != "" then ErrorTrustTokenInvalid else LoginError)]
            && o.db.sessions == db.sessions
  {
  }

  /** A login that is not let in is refused for the first reason there is, and records no session. */
  lemma LoginRefused(db: Db, w: World, c: Chance, r: Request)
    requires WellFormed(r) && r.command == LoginAttempt && !Admits(db, w, c, r)
    ensures Step(db, w, c, r).sent == [Result(Refusal(db, w, c, r))]
    ensures Step(db, w, c, r).db.sessions == db.sessions
  {
    var (owner, checked) := CheckPassword(db, w, c, r.username, r.password);
    PasswordOnly(db, w, c, r.username, r.password);
    PasswordIff(db, w, c, r);
    if owner.Some? && IsNormal(owner.value.status) {
      SecondFactorRefuses(checked, w, c, r, AccountId(db, r.username));
    }
  }

  /** A login that is let in records its session for the account. */
  lemma SessionRecorded(db: Db, w: World, c: Chance, r: Request)
    requires Safe(db) && Admits(db, w, c, r)
    ensures Step(db, w, c, r).db.sessions == db.sessions[(r.ip, c.sessionHash) := AccountId(db, r.username)]
  {
    PasswordOnly(db, w, c, r.username, r.password);
    LoginIff(db, w, c, r);
  }

  /** The login of a banned account that is not also normal purges its tokens. */
  lemma BannedLoginPurges(db: Db, w: World, c: Chance, r: Request)
    requires WellFormed(r) && r.command == LoginAttempt && PasswordOpens(db, w, c, r.username, r.password)
    requires var status := Find(db.accounts, r.username).value.status; !IsNormal(status) && IsBanned(status)
    ensures !HoldsToken(Step(db, w, c, r).db, AccountId(db, r.username))
  {
    PasswordOnly(db, w, c, r.username, r.password);
  }

  // ---- opening an account ----

  lemma CreateAnswerIs(db: Db, w: World, c: Chance, r: Request)
    requires WellFormed(r) && r.command == LoginCreate
    ensures Step(db, w, c, r).sent ==
            [Result(if !c.creationEnabled then ErrorCreateDisabled
                    else if Find(db.accounts, r.username).Some? then ErrorCreateTaken
                    else if HasId(db.accounts, NextId(db.accounts)) then ErrorCreate
                    else SuccessCreate)]
    ensures Step(db, w, c, r).sent != [Result(SuccessCreate)] ==> Step(db, w, c, r).db == db
  {
  }

  // ---- the second factor ----

  /** A code of the account's secret, or its recovery code in any letter case. */
  ghost predicate Owns(db: Db, w: World, c: Chance, r: Request)
  {
    var id := AccountId(db, r.username);
    r.otp == w.code(SecretOf(db, id), c.now) || SameIgnoringCase(CText(r.otp), CText(RecoveryCodeOf(db, id)))
  }

  /** The second factor is taken down exactly with the password and a code or the recovery code. */
  lemma RemoveIff(db: Db, w: World, c: Chance, r: Request)
    requires WellFormed(r) && r.command == RemoveTotp && Find(db.accounts, r.username).Some?
    ensures var o := Step(db, w, c, r);
            && (Result(SuccessRemoveTotp) in o.sent <==>
                  PasswordOpens(db, w, c, r.username, r.password) && Owns(db, w, c, r))
            && (Result(SuccessRemoveTotp) !in o.sent ==>
                  o.sent == [ErrorMessage] && o.db.totp == db.totp && o.db.tokens == db.tokens)
  {
    PasswordOnly(db, w, c, r.username, r.password);
  }

  /** A new secret is stored exactly with the password and while none is validated; the answer hands it out. */
  lemma SetUpIff(db: Db, w: World, c: Chance, r: Request)
    requires WellFormed(r) && r.command == CreateTotp && Find(db.accounts, r.username).Some? && c.newSecret != ""
    requires AccountId(db, r.username) != 0
    ensures var o, id := Step(db, w, c, r), AccountId(db, r.username);
            && o.db.tokens == db.tokens
            && if PasswordOpens(db, w, c, r.username, r.password) && !NeedsOtp(db, id) then
                 && o.sent == [TotpSecret(c.newSecret)]
                 && SecretOf(o.db, id) == c.newSecret && RecoveryCodeOf(o.db, id) == c.newRecoveryCode
               else o.sent == [ErrorMessage] && o.db.totp == db.totp
  {
    PasswordOnly(db, w, c, r.username, r.password);
  }

  /** The recovery code is replaced exactly with the password and a code or the old recovery code,
      where a login asks for a code. */
  lemma RegenerateIff(db: Db, w: World, c: Chance, r: Request)
    requires WellFormed(r) && r.command == RegenerateRecovery && Find(db.accounts, r.username).Some?
    ensures var o, id := Step(db, w, c, r), AccountId(db, r.username);
            if PasswordOpens(db, w, c, r.username, r.password) && Owns(db, w, c, r) then
              o.sent == [RecoveryCode(if NeedsOtp(db, id) then c.newRecoveryCode else "")]
              && RecoveryCodeOf(o.db, id) == if NeedsOtp(db, id) then c.newRecoveryCode else RecoveryCodeOf(db, id)
            else o.sent == [ErrorMessage] && o.db.totp == db.totp
  {
    PasswordOnly(db, w, c, r.username, r.password);
  }

  /** The second factor is turned on exactly with the password and a code of its secret. */
  lemma VerifyIff(db: Db, w: World, c: Chance, r: Request)
    requires WellFormed(r) && r.command == VerifyTotp && Find(db.accounts, r.username).Some?
    ensures var o, id := Step(db, w, c, r), AccountId(db, r.username);
            if PasswordOpens(db, w, c, r.username, r.password) && r.otp == w.code(SecretOf(db, id), c.now) then
              o.sent == [RecoveryCode(RecoveryCodeOf(db, id))]
              && (id != 0 && id in db.totp ==> NeedsOtp(o.db, id))
            else o.sent == [ErrorMessage] && o.db.totp == db.totp
  {
    PasswordOnly(db, w, c, r.username, r.password);
  }
}
