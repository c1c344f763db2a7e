/** The database tables of the login server, and the statements it runs on them. */
module AccountTables {
  import opened Bits
  import opened Wrappers

  datatype Account = Account(id: nat, login: string, password: string, status: nat)
  datatype TotpRow = TotpRow(secret: string, recoveryCode: string, validated: bool)
  datatype TokenRow = TokenRow(accid: nat, expires: nat)

  /** Accounts in the order of their rows, one-time-password rows by account, trust tokens by their digest. */
  datatype Db = Db(
    accounts: seq<Account>,
    totp: map<nat, TotpRow>,
    tokens: map<string, TokenRow>,
    sessions: map<(string, string), nat>)

  /** The parts that are computed elsewhere: password hashing, the code of a secret at a time, token digests. */
  datatype World = World(
    matches: (string, string) -> bool,
    oldHash: string -> string,
    code: (string, nat) -> string,
    digest: string -> string)

  // ---- accounts ----

  predicate IsNormal(status: nat) { status % 2 == 1 }
  predicate IsBanned(status: nat) { status / 2 % 2 == 1 }

  /** They are the bits 0x01 and 0x02 of the status. */
  lemma StatusBits(status: nat)
    ensures IsNormal(status) <==> And(status, 0x01) != 0
    ensures IsBanned(status) <==> And(status, 0x02) != 0
  {
    var half := status / 2;
    AndMask(status, 1);
    AndMask(half, 1);
    assert Pow2(1) == 2 && Low(status, 1) == status % 2 && Low(half, 1) == half % 2;
    assert And(status, 2) == 2 * And(half, 1);
  }

  /** The first row with a login. */
  function Find(accounts: seq<Account>, login: string): (r: Option<Account>)
    ensures r.Some? ==> r.value in accounts && r.value.login == login
    ensures r.None? ==> forall i :: 0 <= i < |accounts| ==> accounts[i].login != login
  {
    if accounts == [] then None
    else if accounts[0].login == login then Some(accounts[0])
    else Find(accounts[1..], login)
  }

  /** The id behind a login; zero for none. */
  function AccountId(db: Db, login: string): nat
  {
    match Find(db.accounts, login)
    case Some(account) => account.id
    case None => 0
  }

  predicate HasId(accounts: seq<Account>, id: nat) { exists i :: 0 <= i < |accounts| && accounts[i].id == id }

  function MaxId(accounts: seq<Account>): (r: nat)
    ensures forall i :: 0 <= i < |accounts| ==> accounts[i].id <= r
    ensures r == 0 || HasId(accounts, r)
  {
    if accounts == [] then 0
    else
      var rest := MaxId(accounts[1..]);
      assert rest == 0 || HasId(accounts[1..], rest);
      if accounts[0].id > rest then accounts[0].id else rest
  }

  /** The id for a new account, counted in 32 bits. */
  function NextId(accounts: seq<Account>): (r: nat)
    ensures r >= 1000
    ensures MaxId(accounts) + 1 < TWO32 ==> r > MaxId(accounts) && (r > 1000 ==> HasId(accounts, r - 1))
  {
    var next := (MaxId(accounts) + 1) % TWO32;
    if next < 1000 then 1000 else next
  }

  /** UPDATE accounts SET password, on the rows that are hit. */
  function Rehashed(accounts: seq<Account>, hit: Account -> bool, hash: string): (r: seq<Account>)
    ensures |r| == |accounts|
    ensures forall i :: 0 <= i < |accounts| ==>
              r[i] == if hit(accounts[i]) then accounts[i].(password := hash) else accounts[i]
  {
    seq(|accounts|, i requires 0 <= i < |accounts| =>
      if hit(accounts[i]) then accounts[i].(password := hash) else accounts[i])
  }

  /** Sixty characters that begin with one of the four version marks. */
  predicate IsBcrypt(hash: string): (r: bool)
    ensures r <==> |hash| == 60 && hash[..4] in ["$2a$", "$2b$", "$2x$", "$2y$"]
  {
    assert |hash| >= 4 ==> hash[..4] == [hash[0], hash[1], hash[2], hash[3]];
    |hash| == 60 && hash[0] == '$' && hash[1] == '2'
    && (hash[2] == 'a' || hash[2] == 'b' || hash[2] == 'y' || hash[2] == 'x') && hash[3] == '$'
  }

  // ---- one-time passwords ----

  predicate NeedsOtp(db: Db, id: nat) { id != 0 && id in db.totp && db.totp[id].validated }

  function SecretOf(db: Db, id: nat): string { if id != 0 && id in db.totp then db.totp[id].secret else "" }

  function RecoveryCodeOf(db: Db, id: nat): string { if id != 0 && id in db.totp then db.totp[id].recoveryCode else "" }

  // ---- trust tokens ----

  predicate IsHexDigit(c: char) { '0' <= c <= '9' || 'a' <= c <= 'f' || 'A' <= c <= 'F' }

  predicate IsTokenFormat(token: string) { |token| == 64 && forall i :: 0 <= i < |token| ==> IsHexDigit(token[i]) }

  /** DELETE all tokens of an account. */
  function WithoutTokens(tokens: map<string, TokenRow>, id: nat): map<string, TokenRow>
  {
    map h | h in tokens && tokens[h].accid != id :: tokens[h]
  }

  /** DELETE the tokens of an account whose time has come. */
  function WithoutExpired(tokens: map<string, TokenRow>, id: nat, now: nat): map<string, TokenRow>
  {
    map h | h in tokens && (tokens[h].accid != id || tokens[h].expires > now) :: tokens[h]
  }

  predicate HasLive(tokens: map<string, TokenRow>, digest: string, id: nat, now: nat)
  {
    digest in tokens && tokens[digest].accid == id && tokens[digest].expires > now
  }

  const THIRTY_DAYS: nat := 30 * 24 * 60 * 60

  /** INSERT a token; a digest that is already there is a duplicate key and leaves the table as it is. */
  function WithToken(tokens: map<string, TokenRow>, digest: string, id: nat, now: nat): map<string, TokenRow>
  {
    if digest in tokens then tokens else tokens[digest := TokenRow(id, now + THIRTY_DAYS)]
  }

  predicate HoldsToken(db: Db, id: nat) { exists h :: h in db.tokens && db.tokens[h].accid == id }

  // ---- what the tables keep to ----

  ghost predicate UniqueAccounts(accounts: seq<Account>)
  {
    && (forall i :: 0 <= i < |accounts| ==> accounts[i].id != 0)
    && (forall i, j :: 0 <= i < j < |accounts| ==>
          accounts[i].id != accounts[j].id && accounts[i].login != accounts[j].login)
  }

  /** Tokens belong to accounts whose one-time password is set up and validated. */
  ghost predicate TokensBacked(db: Db)
  {
    forall h :: h in db.tokens ==> NeedsOtp(db, db.tokens[h].accid)
  }

  ghost predicate Safe(db: Db)
  {
    && UniqueAccounts(db.accounts)
    && (forall id :: id in db.totp ==> HasId(db.accounts, id))
    && TokensBacked(db)
  }
}
