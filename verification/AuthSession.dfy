/** The commands of the login server, as steps on its tables. */
module AuthSession {
  import opened Wrappers
  import opened AccountTables

  datatype Command =
    | Noop | LoginAttempt | LoginCreate | ChangePassword
    | CreateTotp | RemoveTotp | RegenerateRecovery | VerifyTotp | Unknown

  datatype Request = Request(
    command: Command,
    ip: string,
    version: (nat, nat, nat),
    username: string,
    password: string,
    newPassword: string,
    otp: string,
    trustToken: string,
    trustThisComputer: bool)

  /** What a command finds around it: the time, the settings, and the random texts it would draw. */
  datatype Chance = Chance(
    now: nat,
    creationEnabled: bool,
    rehash: string,
    newHash: string,
    newSecret: string,
    newRecoveryCode: string,
    newToken: Option<string>,
    sessionHash: string)

  datatype LoginResult =
    | LoginFail | LoginError | SuccessCreate | ErrorCreateTaken | SuccessChangePassword | ErrorChangePassword
    | ErrorCreateDisabled | ErrorCreate | SuccessRemoveTotp | ErrorTrustTokenInvalid

  datatype Reply =
    | Result(code: LoginResult)
    | LoggedIn(account: nat, sessionHash: string, token: Option<string>)
    | TotpSecret(secret: string)
    | RecoveryCode(code_: string)
    | ErrorMessage
    | TooOld

  /** The tables after a command, and what it sent. */
  datatype Outcome = Outcome(db: Db, sent: seq<Reply>)

  datatype Owner = Owner(id: nat, status: nat)

  // ---- checks before any command ----

  predicate IsMalformed(s: string, maxLength: nat): (r: bool)
    ensures !r <==> 1 <= |s| <= maxLength && forall i :: 0 <= i < |s| ==> ' ' <= s[i] <= 127 as char
  {
    s == "" || |s| > maxLength || exists i :: 0 <= i < |s| && (s[i] < ' ' || s[i] as int >= 128)
  }

  /** The text of a C string: up to its first zero character. */
  function CText(s: string): (r: string)
    ensures r <= s && (|r| < |s| ==> s[|r|] as int == 0)
    ensures forall i :: 0 <= i < |r| ==> r[i] as int != 0
  {
    if s == "" || s[0] as int == 0 then "" else [s[0]] + CText(s[1..])
  }

  function Lower(c: char): char { if 'A' <= c <= 'Z' then c - 'A' + 'a' else c }

  /** Two characters count as the same if they are, or are one letter in either case. */
  lemma SameLower(c: char, d: char)
    ensures Lower(c) == Lower(d) <==>
              c == d || ('A' <= c <= 'Z' && d as int == c as int + 32) || ('a' <= c <= 'z' && d as int == c as int - 32)
  {
  }

  predicate SameIgnoringCase(s: string, t: string)
  {
    |s| == |t| && forall i :: 0 <= i < |s| ==> Lower(s[i]) == Lower(t[i])
  }

  // ---- the commands as functions of the tables ----

  /**
   * Whether a password opens a login, and the tables afterwards: a password still stored in the
   * old format is stored anew when it is right.
   */
  function CheckPassword(db: Db, w: World, c: Chance, username: string, password: string): (Option<Owner>, Db)
  {
    var found := Find(db.accounts, username);
    var hash := if found.Some? then found.value.password else "";
    var owner := if found.Some? then Owner(found.value.id, found.value.status) else Owner(0, 0);
    if IsBcrypt(hash) then
      (if w.matches(password, hash) then Some(owner) else None, db)
    else if w.oldHash(password) != hash then
      (None, db)
    else
      (if w.matches(password, c.rehash) then Some(owner) else None,
       db.(accounts := Rehashed(db.accounts, (a: Account) => a.login == username, c.rehash)))
  }

  function LoginSucceeds(db: Db, w: World, c: Chance, r: Request, id: nat, otpVerified: bool): Outcome
  {
    var token := if r.trustThisComputer && otpVerified then c.newToken else None;
    var tokens := if token.None? then db.tokens
                  else WithToken(WithoutExpired(db.tokens, id, c.now), w.digest(token.value), id, c.now);
    Outcome(db.(tokens := tokens, sessions := db.sessions[(r.ip, c.sessionHash) := id]),
            [LoggedIn(id, c.sessionHash, token)])
  }

  /** The second factor of a login whose account has one: a trust token or a code. */
  function SecondFactor(db: Db, w: World, c: Chance, r: Request, id: nat): Outcome
  {
    var looked := r.trustToken != "" && IsTokenFormat(r.trustToken);
    var after := if looked then db.(tokens := WithoutExpired(db.tokens, id, c.now)) else db;
    if looked && HasLive(db.tokens, w.digest(r.trustToken), id, c.now) then
      LoginSucceeds(after, w, c, r, id, true)
    else if r.otp == "" && r.trustToken != "" then
      Outcome(after, [Result(ErrorTrustTokenInvalid)])
    else if r.otp == w.code(SecretOf(db, AccountId(db, r.username)), c.now) then
      LoginSucceeds(after, w, c, r, id, true)
    else
      Outcome(after, [Result(LoginError)])
  }

  function Login(db: Db, w: World, c: Chance, r: Request): Outcome
  {
    match CheckPassword(db, w, c, r.username, r.password)
    case (None, after) => Outcome(after, [Result(LoginError)])
    case (Some(owner), after) =>
      if !IsNormal(owner.status) then
        var tokens := if IsBanned(owner.status) then WithoutTokens(after.tokens, owner.id) else after.tokens;
        Outcome(after.(tokens := tokens), [Result(LoginFail)])
      else if NeedsOtp(after, owner.id) then SecondFactor(after, w, c, r, owner.id)
      else LoginSucceeds(after, w, c, r, owner.id, false)
  }

  function Create(db: Db, c: Chance, r: Request): Outcome
  {
    if !c.creationEnabled then Outcome(db, [Result(ErrorCreateDisabled)])
    else if Find(db.accounts, r.username).Some? then Outcome(db, [Result(ErrorCreateTaken)])
    else if HasId(db.accounts, NextId(db.accounts)) then Outcome(db, [Result(ErrorCreate)])
    else
      var account := Account(NextId(db.accounts), r.username, c.newHash, 1);
      Outcome(db.(accounts := db.accounts + [account]), [Result(SuccessCreate)])
  }

  function Change(db: Db, w: World, c: Chance, r: Request): Outcome
  {
    match CheckPassword(db, w, c, r.username, r.password)
    case (None, after) => Outcome(after, [Result(ErrorChangePassword)])
    case (Some(owner), after) =>
      var id := AccountId(after, r.username);
      if NeedsOtp(after, id) && r.otp != w.code(SecretOf(after, id), c.now) then
        Outcome(after, [Result(ErrorChangePassword)])
      else
        var refused := if IsBanned(owner.status) then [Result(ErrorChangePassword)] else [];
        if !IsNormal(owner.status) then Outcome(after, refused)
        else if r.newPassword == "" then Outcome(after, refused + [Result(ErrorChangePassword)])
        else
          Outcome(after.(accounts := Rehashed(after.accounts, (a: Account) => a.id == owner.id, c.newHash),
                         tokens := WithoutTokens(after.tokens, owner.id)),
                  refused + [Result(SuccessChangePassword)])
  }

  function SetUpTotp(db: Db, w: World, c: Chance, r: Request): Outcome
  {
    match CheckPassword(db, w, c, r.username, r.password)
    case (None, after) => Outcome(after, [ErrorMessage])
    case (Some(_), after) =>
      var id := AccountId(after, r.username);
      if NeedsOtp(after, id) || id == 0 then Outcome(after, [ErrorMessage])
      else
        var row := TotpRow(c.newSecret, c.newRecoveryCode, id in after.totp && after.totp[id].validated);
        Outcome(after.(totp := after.totp[id := row]),
                [if c.newSecret == "" then ErrorMessage else TotpSecret(c.newSecret)])
  }

  /** A code of the account's secret, or its recovery code in any letter case. */
  predicate OwnsTotp(db: Db, w: World, c: Chance, r: Request)
  {
    var id := AccountId(db, r.username);
    r.otp == w.code(SecretOf(db, id), c.now) || SameIgnoringCase(CText(r.otp), CText(RecoveryCodeOf(db, id)))
  }

  function TakeDownTotp(db: Db, w: World, c: Chance, r: Request): Outcome
  {
    match CheckPassword(db, w, c, r.username, r.password)
    case (None, after) => Outcome(after, [ErrorMessage])
    case (Some(_), after) =>
      var id := AccountId(after, r.username);
      if OwnsTotp(after, w, c, r) then
        Outcome(after.(totp := after.totp - {id}, tokens := WithoutTokens(after.tokens, id)),
                [Result(SuccessRemoveTotp)])
      else Outcome(after, [ErrorMessage])
  }

  function Regenerate(db: Db, w: World, c: Chance, r: Request): Outcome
  {
    match CheckPassword(db, w, c, r.username, r.password)
    case (None, after) => Outcome(after, [ErrorMessage])
    case (Some(_), after) =>
      var id := AccountId(after, r.username);
      if !OwnsTotp(after, w, c, r) then Outcome(after, [ErrorMessage])
      else if !NeedsOtp(after, id) then Outcome(after, [RecoveryCode("")])
      else
        var row := after.totp[id].(recoveryCode := c.newRecoveryCode);
        Outcome(after.(totp := after.totp[id := row]), [RecoveryCode(c.newRecoveryCode)])
  }

  function Verify(db: Db, w: World, c: Chance, r: Request): Outcome
  {
    match CheckPassword(db, w, c, r.username, r.password)
    case (None, after) => Outcome(after, [ErrorMessage])
    case (Some(_), after) =>
      var id := AccountId(after, r.username);
      if r.otp != w.code(SecretOf(after, id), c.now) then Outcome(after, [ErrorMessage])
      else
        var totp := if id in after.totp then after.totp[id := after.totp[id].(validated := true)] else after.totp;
        Outcome(after.(totp := totp), [RecoveryCode(RecoveryCodeOf(after, id))])
  }

  predicate IsSupported(version: (nat, nat, nat)) { version.0 == 2 && version.1 == 1 }

  function Perform(db: Db, w: World, c: Chance, r: Request): Outcome
  {
    match r.command
    case Noop => Outcome(db, [])
    case LoginAttempt => Login(db, w, c, r)
    case LoginCreate => Create(db, c, r)
    case ChangePassword => Change(db, w, c, r)
    case CreateTotp => SetUpTotp(db, w, c, r)
    case RemoveTotp => TakeDownTotp(db, w, c, r)
    case RegenerateRecovery => Regenerate(db, w, c, r)
    case VerifyTotp => Verify(db, w, c, r)
    case Unknown => Outcome(db, [])
  }

  predicate WellFormed(r: Request)
  {
    IsSupported(r.version) && !IsMalformed(r.username, 16) && !IsMalformed(r.password, 32)
  }

  /** One request, answered. */
  function Step(db: Db, w: World, c: Chance, r: Request): Outcome
  {
    if WellFormed(r) then Perform(db, w, c, r)
    else Outcome(db, if IsSupported(r.version) then [] else [TooOld])
  }
}
