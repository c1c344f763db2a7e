/** The login server: tables that its commands change in place, statement by statement. */
module AuthServer {
  import opened Wrappers
  import opened AccountTables
  import opened AuthSession

  class Server {
    var accounts: seq<Account>
    var totp: map<nat, TotpRow>
    var tokens: map<string, TokenRow>
    var sessions: map<(string, string), nat>
    const w: World

    constructor (start: Db, w: World)
      ensures Tables() == start && this.w == w
    {
      this.accounts, this.totp, this.tokens, this.sessions := start.accounts, start.totp, start.tokens, start.sessions;
      this.w := w;
    }

    function Tables(): Db
      reads this
    {
      Db(accounts, totp, tokens, sessions)
    }

    // ---- statements ----

    method RemoveAllTrustTokens(id: nat)
      modifies this`tokens
      ensures tokens == WithoutTokens(old(tokens), id)
    {
      tokens := WithoutTokens(tokens, id);
    }

    method SaveTrustToken(c: Chance, id: nat, token: string)
      modifies this`tokens
      ensures tokens == WithToken(WithoutExpired(old(tokens), id, c.now), w.digest(token), id, c.now)
    {
      tokens := WithoutExpired(tokens, id, c.now);
      if w.digest(token) !in tokens {
        tokens := tokens[w.digest(token) := TokenRow(id, c.now + THIRTY_DAYS)];
      }
    }

    method ValidateTrustToken(c: Chance, id: nat, token: string) returns (valid: bool)
      modifies this`tokens
      ensures tokens == if IsTokenFormat(token) then WithoutExpired(old(tokens), id, c.now) else old(tokens)
      ensures valid == (IsTokenFormat(token) && HasLive(old(tokens), w.digest(token), id, c.now))
    {
      if !IsTokenFormat(token) {
        return false;
      }
      tokens := WithoutExpired(tokens, id, c.now);
      valid := HasLive(tokens, w.digest(token), id, c.now);
    }

    method ValidatePassword(c: Chance, username: string, password: string) returns (owner: Option<Owner>)
      modifies this`accounts
      ensures (owner, Tables()) == CheckPassword(old(Tables()), w, c, username, password)
    {
      var id, status, hash := 0, 0, "";
      var found := Find(accounts, username);
      if found.Some? {
        id, status, hash := found.value.id, found.value.status, found.value.password;
      }
      if IsBcrypt(hash) {
        if !w.matches(password, hash) {
          return None;
        }
      } else {
        if w.oldHash(password) != hash {
          return None;
        }
        accounts := Rehashed(accounts, (a: Account) => a.login == username, c.rehash);
        assert Tables() == CheckPassword(old(Tables()), w, c, username, password).1;
        if !w.matches(password, c.rehash) {
          return None;
        }
      }
      owner := Some(Owner(id, status));
    }

    // ---- commands ----

    method LogIn(c: Chance, r: Request) returns (sent: seq<Reply>)
      modifies this
      ensures Outcome(Tables(), sent) == Login(old(Tables()), w, c, r)
    {
      var owner := ValidatePassword(c, r.username, r.password);
      if owner.None? {
        return [Result(LoginError)];
      }
      var id := owner.value.id;
      if !IsNormal(owner.value.status) {
        if IsBanned(owner.value.status) {
          RemoveAllTrustTokens(id);
        }
        return [Result(LoginFail)];
      }
      ghost var checked := Tables();
      var otpVerified := false;
      if NeedsOtp(Tables(), id) {
        var trustedByToken := false;
        if r.trustToken != "" {
          trustedByToken := ValidateTrustToken(c, id, r.trustToken);
        }
        if !trustedByToken {
          if r.otp == "" && r.trustToken != "" {
            return [Result(ErrorTrustTokenInvalid)];
          }
          if r.otp != w.code(SecretOf(Tables(), AccountId(Tables(), r.username)), c.now) {
            return [Result(LoginError)];
          }
        }
        otpVerified := true;
      }
      ghost var passed := Tables();
      assert Login(old(Tables()), w, c, r) == LoginSucceeds(passed, w, c, r, id, otpVerified);
      var token := None;
      if r.trustThisComputer && otpVerified && c.newToken.Some? {
        SaveTrustToken(c, id, c.newToken.value);
        token := c.newToken;
      }
      sessions := sessions[(r.ip, c.sessionHash) := id];
      sent := [LoggedIn(id, c.sessionHash, token)];
    }

    method CreateAccount(c: Chance, r: Request) returns (sent: seq<Reply>)
      modifies this
      ensures Outcome(Tables(), sent) == Create(old(Tables()), c, r)
    {
      if !c.creationEnabled {
        return [Result(ErrorCreateDisabled)];
      }
      if Find(accounts, r.username).Some? {
        return [Result(ErrorCreateTaken)];
      }
      var id := NextId(accounts);
      if HasId(accounts, id) {
        return [Result(ErrorCreate)];
      }
      accounts := accounts + [Account(id, r.username, c.newHash, 1)];
      sent := [Result(SuccessCreate)];
    }

    method ChangeUserPassword(c: Chance, r: Request) returns (sent: seq<Reply>)
      modifies this
      ensures Outcome(Tables(), sent) == Change(old(Tables()), w, c, r)
    {
      var owner := ValidatePassword(c, r.username, r.password);
      if owner.None? {
        return [Result(ErrorChangePassword)];
      }
      var id := AccountId(Tables(), r.username);
      if NeedsOtp(Tables(), id) {
        if r.otp != w.code(SecretOf(Tables(), id), c.now) {
          return [Result(ErrorChangePassword)];
        }
      }
      sent := [];
      if IsBanned(owner.value.status) {
        sent := sent + [Result(ErrorChangePassword)];
      }
      if IsNormal(owner.value.status) {
        if r.newPassword == "" {
          return sent + [Result(ErrorChangePassword)];
        }
        accounts := Rehashed(accounts, (a: Account) => a.id == owner.value.id, c.newHash);
        RemoveAllTrustTokens(owner.value.id);
        sent := sent + [Result(SuccessChangePassword)];
      }
    }

    /** Sets a new secret unless the account's own is validated; an empty text stands for a refusal. */
    method CreateAccountSecret(c: Chance, username: string) returns (secret: string)
      modifies this`totp
      ensures var id := AccountId(old(Tables()), username);
              if id == 0 || NeedsOtp(old(Tables()), id) then secret == "" && totp == old(totp)
              else && secret == c.newSecret
                   && totp == old(totp)[id := TotpRow(c.newSecret, c.newRecoveryCode,
                                                      id in old(totp) && old(totp)[id].validated)]
    {
      var id := AccountId(Tables(), username);
      if NeedsOtp(Tables(), id) || id == 0 {
        return "";
      }
      var row := if id in totp then totp[id] else TotpRow("", "", false);
      totp := totp[id := row.(secret := c.newSecret, recoveryCode := c.newRecoveryCode)];
      secret := c.newSecret;
    }

    method CreateTotpSecret(c: Chance, r: Request) returns (sent: seq<Reply>)
      modifies this
      ensures Outcome(Tables(), sent) == SetUpTotp(old(Tables()), w, c, r)
    {
      var owner := ValidatePassword(c, r.username, r.password);
      if owner.None? {
        return [ErrorMessage];
      }
      var secret := CreateAccountSecret(c, r.username);
      sent := [if secret != "" then TotpSecret(secret) else ErrorMessage];
    }

    method RemoveTotpSecret(c: Chance, r: Request) returns (sent: seq<Reply>)
      modifies this
      ensures Outcome(Tables(), sent) == TakeDownTotp(old(Tables()), w, c, r)
    {
      var owner := ValidatePassword(c, r.username, r.password);
      if owner.None? {
        return [ErrorMessage];
      }
      if OwnsTotp(Tables(), w, c, r) {
        var id := AccountId(Tables(), r.username);
        totp := totp - {id};
        RemoveAllTrustTokens(id);
        sent := [Result(SuccessRemoveTotp)];
      } else {
        sent := [ErrorMessage];
      }
    }

    method RegenerateAccountRecoveryCode(c: Chance, username: string) returns (code: string)
      modifies this`totp
      ensures var id := AccountId(old(Tables()), username);
              if NeedsOtp(old(Tables()), id)
              then code == c.newRecoveryCode
                   && totp == old(totp)[id := old(totp)[id].(recoveryCode := c.newRecoveryCode)]
              else code == "" && totp == old(totp)
    {
      var id := AccountId(Tables(), username);
      if !NeedsOtp(Tables(), id) {
        return "";
      }
      totp := totp[id := totp[id].(recoveryCode := c.newRecoveryCode)];
      code := c.newRecoveryCode;
    }

    method RegenerateRecoveryCode(c: Chance, r: Request) returns (sent: seq<Reply>)
      modifies this
      ensures Outcome(Tables(), sent) == Regenerate(old(Tables()), w, c, r)
    {
      var owner := ValidatePassword(c, r.username, r.password);
      if owner.None? {
        return [ErrorMessage];
      }
      if OwnsTotp(Tables(), w, c, r) {
        var code := RegenerateAccountRecoveryCode(c, r.username);
        sent := [RecoveryCode(code)];
      } else {
        sent := [ErrorMessage];
      }
    }

    method VerifyTotpCode(c: Chance, r: Request) returns (sent: seq<Reply>)
      modifies this
      ensures Outcome(Tables(), sent) == Verify(old(Tables()), w, c, r)
    {
      var owner := ValidatePassword(c, r.username, r.password);
      if owner.None? {
        return [ErrorMessage];
      }
      var id := AccountId(Tables(), r.username);
      if r.otp == w.code(SecretOf(Tables(), id), c.now) {
        if id in totp {
          totp := totp[id := totp[id].(validated := true)];
        }
        sent := [RecoveryCode(RecoveryCodeOf(Tables(), id))];
      } else {
        sent := [ErrorMessage];
      }
    }

    /** Reads one request and does what it asks; the tables and the answer are those of the step. */
    method Read(c: Chance, r: Request) returns (sent: seq<Reply>)
      modifies this
      ensures Outcome(Tables(), sent) == Step(old(Tables()), w, c, r)
    {
      if !IsSupported(r.version) {
        return [TooOld];
      }
      if IsMalformed(r.username, 16) {
        return [];
      }
      if IsMalformed(r.password, 32) {
        return [];
      }
      match r.command
      case Noop => sent := [];
      case LoginAttempt => sent := LogIn(c, r);
      case LoginCreate => sent := CreateAccount(c, r);
      case ChangePassword => sent := ChangeUserPassword(c, r);
      case CreateTotp => sent := CreateTotpSecret(c, r);
      case RemoveTotp => sent := RemoveTotpSecret(c, r);
      case RegenerateRecovery => sent := RegenerateRecoveryCode(c, r);
      case VerifyTotp => sent := VerifyTotpCode(c, r);
      case Unknown => sent := [];
    }
  }
}
