/** What a trust token is good for: a login that issues it, the logins it opens, and how long it lasts. */
module AuthTrust {
  import opened Bits
  import opened Totp
  import opened Wrappers
  import opened AccountTables
  import opened AuthSession
  import opened AuthSafety
  import opened AuthRuns
  import opened AuthTokens

  // ---- the text of a token ----

  const HEX_CHARS := "0123456789abcdef"

  method ToHexString(data: seq<byte>) returns (result: string)
    ensures |result| == 2 * |data|
    ensures forall i :: 0 <= i < |data| ==> IsHexOf(result[2 * i], result[2 * i + 1], data[i])
  {
    result := "";
    for i := 0 to |data|
      invariant |result| == 2 * i
      invariant forall k :: 0 <= k < i ==> IsHexOf(result[2 * k], result[2 * k + 1], data[k])
    {
      Nibbles(data[i]);
      result := result + [HEX_CHARS[And(Shr(data[i], 4), 0x0F)]] + [HEX_CHARS[And(data[i], 0x0F)]];
    }
  }

  /** The two digits of a byte, high-order digit first. */
  predicate IsHexOf(high: char, low: char, b: byte) {
    high == HEX_CHARS[b / 16] && low == HEX_CHARS[b % 16]
  }

  lemma Nibbles(b: byte)
    ensures And(Shr(b, 4), 0x0F) == b / 16 && And(b, 0x0F) == b % 16
  {
    var q := Shr(b, 4);
    DivisionByPow2(b, 4);
    UpOf4(q);
    LowOf4(b);
    LowOf4(q);
  }

  lemma HexDigits(i: nat)
    requires i < 16
    ensures IsHexDigit(HEX_CHARS[i])
    ensures forall j :: 0 <= j < 16 && HEX_CHARS[j] == HEX_CHARS[i] ==> j == i
  {
  }

  /** The text of thirty-two bytes is in the format of a token. */
  lemma TokenText(data: seq<byte>, text: string)
    requires |data| == 32 && |text| == 64
    requires forall i :: 0 <= i < 32 ==> IsHexOf(text[2 * i], text[2 * i + 1], data[i])
    ensures IsTokenFormat(text)
  {
    forall j | 0 <= j < 64 ensures IsHexDigit(text[j]) {
      var i := j / 2;
      assert IsHexOf(text[2 * i], text[2 * i + 1], data[i]);
      HexDigits(data[i] / 16);
      HexDigits(data[i] % 16);
    }
  }

  /** Different bytes make different texts. */
  lemma TokenTextUnique(a: seq<byte>, b: seq<byte>, text: string)
    requires |text| == 2 * |a| == 2 * |b|
    requires forall i :: 0 <= i < |a| ==> IsHexOf(text[2 * i], text[2 * i + 1], a[i])
    requires forall i :: 0 <= i < |b| ==> IsHexOf(text[2 * i], text[2 * i + 1], b[i])
    ensures a == b
  {
    forall i | 0 <= i < |a| ensures a[i] == b[i] {
      assert IsHexOf(text[2 * i], text[2 * i + 1], a[i]) && IsHexOf(text[2 * i], text[2 * i + 1], b[i]);
      HexDigits(a[i] / 16);
      HexDigits(a[i] % 16);
    }
  }

  // ---- issued, and good for thirty days ----

  /** The token that a login answers with is in the table, for thirty days. */
  lemma TokenSaved(db: Db, w: World, c: Chance, r: Request, later: nat)
    requires Safe(db) && Admits(db, w, c, r) && Issues(db, c, r).Some?
    requires w.digest(Issues(db, c, r).value) !in db.tokens
    ensures var h := w.digest(Issues(db, c, r).value);
            HasLive(Step(db, w, c, r).db.tokens, h, AccountId(db, r.username), later) <==> later < c.now + 30 * 86_400
  {
    var id := AccountId(db, r.username);
    PasswordOnly(db, w, c, r.username, r.password);
    PasswordIff(db, w, c, r);
    var checked := CheckPassword(db, w, c, r.username, r.password).1;
    SecondFactorSaves(checked, w, c, r, id);
  }

  lemma SecondFactorSaves(db: Db, w: World, c: Chance, r: Request, id: nat)
    requires r.trustThisComputer && c.newToken.Some? && w.digest(c.newToken.value) !in db.tokens
    requires id == AccountId(db, r.username) && (TokenOpens(db, w, c, r, id) || CodeOpens(db, w, c, r, id))
    ensures HasRow(SecondFactor(db, w, c, r, id).db, w.digest(c.newToken.value), TokenRow(id, c.now + THIRTY_DAYS))
  {
  }

  /**
   * Two commands: a login that was answered with a token, and, if the password opens the account
   * still, the next login with that token and no code: it is let in exactly within thirty days.
   */
  lemma TokenLogsIn(db: Db, w: World, c: Chance, r: Request, c': Chance, r': Request)
    requires Safe(db) && Admits(db, w, c, r) && Issues(db, c, r) == Some(r'.trustToken)
    requires w.digest(r'.trustToken) !in db.tokens && IsTokenFormat(r'.trustToken)
    requires WellFormed(r') && r'.command == LoginAttempt && r'.username == r.username && r'.otp == ""
    requires PasswordOpens(Step(db, w, c, r).db, w, c', r'.username, r'.password)
    ensures LetsIn(Step(Step(db, w, c, r).db, w, c', r')) <==> c'.now < c.now + 30 * 86_400
  {
    var after := Step(db, w, c, r).db;
    TokenSaved(db, w, c, r, c'.now);
    StepFrame(db, w, c, r);
    LetsInIff(after, w, c', r');
    LoginKeepsAccount(db, w, c, r);
  }

  lemma LoginKeepsAccount(db: Db, w: World, c: Chance, r: Request)
    requires WellFormed(r) && r.command == LoginAttempt && Find(db.accounts, r.username).Some?
    ensures var after := Step(db, w, c, r).db;
            && after.totp == db.totp && AccountId(after, r.username) == AccountId(db, r.username)
            && Find(after.accounts, r.username).Some?
            && Find(after.accounts, r.username).value.status == Find(db.accounts, r.username).value.status
            && Find(after.accounts, r.username).value.id == Find(db.accounts, r.username).value.id
  {
    PasswordOnly(db, w, c, r.username, r.password);
    LoginTouchesAll(db, w, c, r);
    FindSame(db.accounts, CheckPassword(db, w, c, r.username, r.password).1.accounts, r.username);
  }

  // ---- when a token goes ----

  /** The commands that take the tokens of an account away: clearing them, and a refused login of a banned account. */
  ghost predicate Purges(db: Db, w: World, c: Chance, r: Request)
  {
    || Clears(Step(db, w, c, r))
    || (Result(LoginFail) in Step(db, w, c, r).sent && Find(db.accounts, r.username).Some?
        && IsBanned(Find(db.accounts, r.username).value.status))
  }

  /** Live tokens stay. */
  ghost predicate KeepsLive(before: map<string, TokenRow>, after: map<string, TokenRow>, now: nat)
  {
    forall h :: h in before && before[h].expires > now ==> h in after && after[h] == before[h]
  }

  lemma SecondFactorKeepsLive(db: Db, w: World, c: Chance, r: Request, id: nat)
    ensures KeepsLive(db.tokens, SecondFactor(db, w, c, r, id).db.tokens, c.now)
  {
  }

  /** A login keeps the live tokens, or it was refused to a banned account and took all of its tokens away. */
  lemma LoginTokensAfter(db: Db, w: World, c: Chance, r: Request)
    requires WellFormed(r) && r.command == LoginAttempt && Find(db.accounts, r.username).Some?
    ensures var o, status := Login(db, w, c, r), Find(db.accounts, r.username).value.status;
            if Result(LoginFail) in o.sent && IsBanned(status) then
              o.db.tokens == WithoutTokens(db.tokens, AccountId(db, r.username))
            else KeepsLive(db.tokens, o.db.tokens, c.now)
  {
    var (owner, checked) := CheckPassword(db, w, c, r.username, r.password);
    PasswordOnly(db, w, c, r.username, r.password);
    if owner.Some? && IsNormal(owner.value.status) && NeedsOtp(checked, owner.value.id) {
      SecondFactorKeepsLive(checked, w, c, r, owner.value.id);
      SecondFactorAnswers(checked, w, c, r, owner.value.id);
    }
  }

  lemma SecondFactorAnswers(db: Db, w: World, c: Chance, r: Request, id: nat)
    ensures Result(LoginFail) !in SecondFactor(db, w, c, r, id).sent
  {
  }

  /** What the other commands do to the tokens: they clear those of the account, or they leave all. */
  ghost predicate ClearsOrKeeps(db: Db, id: nat, o: Outcome)
  {
    && Result(LoginFail) !in o.sent
    && o.db.tokens == if Clears(o) then WithoutTokens(db.tokens, id) else db.tokens
  }

  lemma ChangeTokens(db: Db, w: World, c: Chance, r: Request)
    ensures ClearsOrKeeps(db, AccountId(db, r.username), Change(db, w, c, r))
  {
    PasswordOnly(db, w, c, r.username, r.password);
  }

  lemma RemoveTokens(db: Db, w: World, c: Chance, r: Request)
    ensures ClearsOrKeeps(db, AccountId(db, r.username), TakeDownTotp(db, w, c, r))
  {
    PasswordOnly(db, w, c, r.username, r.password);
  }

  lemma TotpTokens(db: Db, w: World, c: Chance, r: Request)
    ensures ClearsOrKeeps(db, AccountId(db, r.username), SetUpTotp(db, w, c, r))
    ensures ClearsOrKeeps(db, AccountId(db, r.username), Regenerate(db, w, c, r))
    ensures ClearsOrKeeps(db, AccountId(db, r.username), Verify(db, w, c, r))
  {
    PasswordOnly(db, w, c, r.username, r.password);
  }

  lemma OthersTokens(db: Db, w: World, c: Chance, r: Request)
    requires !WellFormed(r) || r.command != LoginAttempt
    ensures ClearsOrKeeps(db, AccountId(db, r.username), Step(db, w, c, r))
  {
    match r.command
    case ChangePassword => ChangeTokens(db, w, c, r);
    case RemoveTotp => RemoveTokens(db, w, c, r);
    case CreateTotp => TotpTokens(db, w, c, r);
    case RegenerateRecovery => TotpTokens(db, w, c, r);
    case VerifyTotp => TotpTokens(db, w, c, r);
    case _ =>
  }

  /** A live token is gone after a request exactly if it is the account's own and the request purges them. */
  lemma LiveTokenStaysIff(db: Db, w: World, c: Chance, r: Request, h: string)
    requires Safe(db) && h in db.tokens && db.tokens[h].expires > c.now
    ensures HasRow(Step(db, w, c, r).db, h, db.tokens[h]) <==>
            !(db.tokens[h].accid == AccountId(db, r.username) && Purges(db, w, c, r))
  {
    if WellFormed(r) && r.command == LoginAttempt {
      LoginAnswers(db, w, c, r);
      if Find(db.accounts, r.username).Some? {
        LoginTokensAfter(db, w, c, r);
      } else {
        StrangerKeeps(db, w, c, r);
      }
    } else {
      OthersTokens(db, w, c, r);
    }
  }

  /** A login that no account has touches no token of any. */
  lemma StrangerKeeps(db: Db, w: World, c: Chance, r: Request)
    requires Safe(db) && WellFormed(r) && r.command == LoginAttempt && Find(db.accounts, r.username).None?
    ensures KeepsLive(db.tokens, Login(db, w, c, r).db.tokens, c.now)
  {
    LoginTouchesAll(db, w, c, r);
    forall h | h in db.tokens ensures db.tokens[h].accid != 0 {
      assert NeedsOtp(db, db.tokens[h].accid);
    }
    PasswordOnly(db, w, c, r.username, r.password);
  }

  lemma SecondFactorDrops(db: Db, w: World, c: Chance, r: Request, id: nat, h: string)
    requires IsTokenFormat(r.trustToken) && h in SecondFactor(db, w, c, r, id).db.tokens
    ensures var row := SecondFactor(db, w, c, r, id).db.tokens[h];
            row.accid == id ==> row.expires > c.now
  {
  }

  /** A login that gets as far as looking up a token leaves no expired token of its account. */
  lemma ExpiredDropped(db: Db, w: World, c: Chance, r: Request, h: string)
    requires Safe(db) && WellFormed(r) && r.command == LoginAttempt && IsTokenFormat(r.trustToken)
    requires PasswordOpens(db, w, c, r.username, r.password) && NeedsOtp(db, AccountId(db, r.username))
    requires IsNormal(Find(db.accounts, r.username).value.status)
    requires h in Step(db, w, c, r).db.tokens
    ensures var row := Step(db, w, c, r).db.tokens[h];
            row.accid == AccountId(db, r.username) ==> row.expires > c.now
  {
    PasswordOnly(db, w, c, r.username, r.password);
    PasswordIff(db, w, c, r);
    var checked := CheckPassword(db, w, c, r.username, r.password).1;
    SecondFactorDrops(checked, w, c, r, AccountId(db, r.username), h);
  }

  // ---- no login past the thirty days ----

  /**
   * In every run, a login that a trust token opens comes less than thirty days after the login of
   * the same account that issued the token.
   */
  lemma TokenInTime(start: Db, w: World, events: seq<Event>, j: nat, id: nat) returns (k: nat)
    requires j < |events| && Safe(start) && start.tokens == map[]
    requires TokenOpens(After(start, w, events, j), w, events[j].chance, events[j].request, id)
    ensures k < j && AccountId(After(start, w, events, k), events[k].request.username) == id
    ensures Admits(After(start, w, events, k), w, events[k].chance, events[k].request)
    ensures Issues(After(start, w, events, k), events[k].chance, events[k].request).Some?
    ensures events[j].chance.now < events[k].chance.now + 30 * 86_400
  {
    var db := After(start, w, events, j);
    var h := w.digest(events[j].request.trustToken);
    k := TokenIssued(start, w, events, j, h, db.tokens[h]);
  }
}
