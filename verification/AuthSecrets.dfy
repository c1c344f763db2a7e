/** The secrets of a run, and the codes they give. */
module AuthSecrets {
  import opened Bits
  import opened Base32
  import opened Totp
  import opened AccountTables
  import opened AuthSession
  import opened AuthSafety
  import opened AuthRuns
  import opened AuthTokens

  /** The bytes of a text. */
  function Bytes(s: string): (b: seq<byte>)
    ensures |b| == |s|
  {
    seq(|s|, i requires 0 <= i < |s| => s[i] as int % 256)
  }

  /** A text as `NewBase32Secret` draws it. */
  ghost predicate IsDrawn(secret: string)
  {
    |secret| == 32 && Decodable(Bytes(secret)) && forall key :: Decodes(key, Bytes(secret)) ==> |key| == 20
  }

  /** The code of the world is the one-time code of the secret, under some keyed hash. */
  ghost predicate GivesTotp(w: World, hmac: (seq<byte>, seq<byte>) -> Sha1)
  {
    forall secret: string, now: u64 :: Decodable(Bytes(secret)) ==>
      IsCode(w.code(secret, now), hmac, Bytes(secret), now)
  }

  /** Every secret in the table is one that was drawn. */
  ghost predicate SecretsDrawn(db: Db) { forall id :: id in db.totp ==> IsDrawn(db.totp[id].secret) }

  /** Every request of the run finds a drawn secret to hand out. */
  ghost predicate Draws(events: seq<Event>) { forall i :: 0 <= i < |events| ==> IsDrawn(events[i].chance.newSecret) }

  lemma StepSecrets(db: Db, w: World, c: Chance, r: Request, id: nat)
    requires id in Step(db, w, c, r).db.totp
    ensures var secret := Step(db, w, c, r).db.totp[id].secret;
            secret == c.newSecret || (id in db.totp && secret == db.totp[id].secret)
  {
    if WellFormed(r) {
      PasswordOnly(db, w, c, r.username, r.password);
      match r.command
      case LoginAttempt => LoginTouchesAll(db, w, c, r);
      case _ =>
    }
  }

  lemma StepDrawn(db: Db, w: World, c: Chance, r: Request)
    requires SecretsDrawn(db) && IsDrawn(c.newSecret)
    ensures SecretsDrawn(Step(db, w, c, r).db)
  {
    var after := Step(db, w, c, r).db;
    forall id | id in after.totp ensures IsDrawn(after.totp[id].secret) {
      StepSecrets(db, w, c, r, id);
    }
  }

  /** What holds at the start of a run and is kept by each of its requests holds throughout. */
  lemma {:induction false} RunKeeps(start: Db, w: World, events: seq<Event>, n: nat, inv: Db -> bool)
    requires n <= |events| && inv(start)
    requires forall db, e :: e in events && inv(db) ==> inv(Step(db, w, e.chance, e.request).db)
    ensures inv(After(start, w, events, n))
  {
    if n > 0 {
      RunKeeps(start, w, events, n - 1, inv);
      assert events[n - 1] in events;
    }
  }

  /** In every run that draws its secrets so, no secret is ever anything else. */
  lemma RunSecrets(start: Db, w: World, events: seq<Event>, n: nat)
    requires n <= |events| && SecretsDrawn(start)
    requires Draws(events)
    ensures SecretsDrawn(After(start, w, events, n))
  {
    forall db, e | e in events && SecretsDrawn(db) ensures SecretsDrawn(Step(db, w, e.chance, e.request).db) {
      StepDrawn(db, w, e.chance, e.request);
    }
    RunKeeps(start, w, events, n, db => SecretsDrawn(db));
  }

  /** So the secret that a command looks up always decodes, and computing its code never fails. */
  lemma SecretDecodes(start: Db, w: World, events: seq<Event>, n: nat, id: nat)
    requires n <= |events| && SecretsDrawn(start)
    requires Draws(events)
    ensures Decodable(Bytes(SecretOf(After(start, w, events, n), id)))
  {
    RunSecrets(start, w, events, n);
  }

  /**
   * A code is not used up: whatever is done in between, as long as the account holds on to its
   * secret, the code that opened a login opens again within the same step of thirty seconds, and
   * it has six digits.
   */
  lemma CodeOpensAgain(start: Db, w: World, hmac: (seq<byte>, seq<byte>) -> Sha1, events: seq<Event>,
                       i: nat, j: nat, id: nat)
    requires i <= j < |events| && SecretsDrawn(start) && GivesTotp(w, hmac)
    requires Draws(events)
    requires SecretOf(After(start, w, events, j), id) == SecretOf(After(start, w, events, i), id)
    requires CodeOpens(After(start, w, events, i), w, events[i].chance, events[i].request, id)
    requires events[j].request.otp == events[i].request.otp
    requires events[i].chance.now < TWO64 && events[j].chance.now < TWO64
    requires events[i].chance.now / 30 == events[j].chance.now / 30
    ensures |events[j].request.otp| == 6
    ensures CodeOpens(After(start, w, events, j), w, events[j].chance, events[j].request, id)
  {
    var secret, s, t := SecretOf(After(start, w, events, i), id), events[i].chance.now, events[j].chance.now;
    SecretDecodes(start, w, events, i, id);
    assert IsCode(w.code(secret, s), hmac, Bytes(secret), s);
    assert IsCode(w.code(secret, t), hmac, Bytes(secret), t);
    OneCode(w.code(secret, s), w.code(secret, t), hmac, Bytes(secret), s, t);
  }
}
