/**
 * The single-use token table of `backend/routes/passwords.js` (`tokenStore`): POST
 * `/generate-token` files a credential under 16 random bytes written in hex and arms a
 * 60 000 ms timer that deletes it; GET `/get-credentials/:token` reads and deletes it
 * in one step. Timers are kept explicitly and every timer due by the time of a request
 * has fired before the request is handled.
 */
module Tokens {
  import opened Wrappers
  import opened Bytes
  import Hex
  import Text

  const TokenExpirationMs := 60 * 1000
  const TokenBytes := 16

  datatype Payload = Payload(website: string, username: string, password: string)

  /** A pending `setTimeout` that deletes `token` at time `due`. */
  datatype Timer = Timer(token: string, due: int)

  datatype Broker = Broker(table: map<string, Payload>, timers: seq<Timer>)

  datatype Reply =
    | Issued(token: string)
    | Credentials(payload: Payload)
    | Refused(status: int, msg: string)

  const MissingCredentials := Refused(400, "Please provide all credentials")
  const TokenGone := Refused(404, "Token not found or has expired")

  datatype Step = Step(broker: Broker, reply: Reply)

  function DueTokens(ts: seq<Timer>, now: int): set<string> {
    set i | 0 <= i < |ts| && ts[i].due <= now :: ts[i].token
  }

  function Pending(ts: seq<Timer>, now: int): (r: seq<Timer>)
    ensures forall t :: t in r <==> t in ts && t.due > now
  {
    if |ts| == 0 then []
    else if ts[0].due > now then [ts[0]] + Pending(ts[1..], now)
    else Pending(ts[1..], now)
  }

  /** Lets every timer due by `now` fire: each deletes its token if still present. */
  function Advance(b: Broker, now: int): (r: Broker)
    ensures r.table.Keys == b.table.Keys - DueTokens(b.timers, now)
    ensures forall t :: t in r.table ==> r.table[t] == b.table[t]
    ensures forall t :: t in r.timers <==> t in b.timers && t.due > now
  {
    Broker(b.table - DueTokens(b.timers, now), Pending(b.timers, now))
  }

  /** Every filed token has a timer that will delete it. */
  predicate Armed(b: Broker) {
    forall tok :: tok in b.table ==> exists t :: t in b.timers && t.token == tok
  }

  /** POST `/generate-token` at time `now`, with `random` from `crypto.randomBytes(16)`. */
  function Issue(b: Broker, website: Option<string>, username: Option<string>, password: Option<string>,
                 random: seq<Byte>, now: int): (s: Step)
    requires |random| == TokenBytes
    ensures !(Text.Truthy(website) && Text.Truthy(username) && Text.Truthy(password)) ==>
      s == Step(Advance(b, now), MissingCredentials)
    ensures s.reply.Issued? <==> Text.Truthy(website) && Text.Truthy(username) && Text.Truthy(password)
    ensures s.reply.Issued? ==>
      && s.reply.token == Hex.Encode(random)
      && s.reply.token in s.broker.table
      && |s.reply.token| == 2 * TokenBytes
      && s.broker.table[s.reply.token] == Payload(website.value, username.value, password.value)
      && Timer(s.reply.token, now + TokenExpirationMs) in s.broker.timers
    ensures s.reply.Issued? ==>
      var live := Advance(b, now);
      && s.broker.table.Keys == live.table.Keys + {s.reply.token}
      && (forall t :: t in live.table && t != s.reply.token ==> s.broker.table[t] == live.table[t])
      && s.broker.timers == live.timers + [Timer(s.reply.token, now + TokenExpirationMs)]
  {
    var b' := Advance(b, now);
    if !(Text.Truthy(website) && Text.Truthy(username) && Text.Truthy(password)) then
      Step(b', MissingCredentials)
    else
      var token := Hex.Encode(random);
      var p := Payload(website.value, username.value, password.value);
      Step(Broker(b'.table[token := p], b'.timers + [Timer(token, now + TokenExpirationMs)]), Issued(token))
  }

  /** GET `/get-credentials/:token` at time `now`: a destructive read. */
  function Consume(b: Broker, token: string, now: int): (s: Step)
    ensures var live := Advance(b, now);
      if token in live.table then
        && s.reply == Credentials(live.table[token])
        && s.broker.table == live.table - {token}
        && s.broker.timers == live.timers
      else
        s.reply == TokenGone && s.broker == live
    ensures token !in s.broker.table
  {
    var live := Advance(b, now);
    if token in live.table then
      Step(Broker(live.table - {token}, live.timers), Credentials(live.table[token]))
    else
      Step(live, TokenGone)
  }

  /** A token consumed within its lifetime yields exactly the payload it was issued for. */
  lemma IssueThenConsume(b: Broker, website: string, username: string, password: string,
                         random: seq<Byte>, t0: int, t1: int)
    requires |random| == TokenBytes
    requires |website| > 0 && |username| > 0 && |password| > 0
    requires forall t :: t in b.timers ==> t.token != Hex.Encode(random)
    requires t0 <= t1 < t0 + TokenExpirationMs
    ensures var issued := Issue(b, Some(website), Some(username), Some(password), random, t0);
      Consume(issued.broker, issued.reply.token, t1).reply == Credentials(Payload(website, username, password))
  {
    var token := Hex.Encode(random);
    var p := Payload(website, username, password);
    var live := Advance(b, t0);
    var ts := live.timers + [Timer(token, t0 + TokenExpirationMs)];
    assert Issue(b, Some(website), Some(username), Some(password), random, t0)
      == Step(Broker(live.table[token := p], ts), Issued(token));
    StillUnused(b, token, t0);
    OnlyTimerNotDue(live.timers, token, t0 + TokenExpirationMs, t1);
    FiledIsRead(live.table, ts, token, p, t1);
  }

  lemma StillUnused(b: Broker, token: string, now: int)
    requires forall t :: t in b.timers ==> t.token != token
    ensures forall i :: 0 <= i < |Advance(b, now).timers| ==> Advance(b, now).timers[i].token != token
  {
    var live := Advance(b, now);
    forall i | 0 <= i < |live.timers|
      ensures live.timers[i].token != token
    {
      assert live.timers[i] in b.timers;
    }
  }

  /** A token whose only timer is the one just armed is not yet due. */
  lemma OnlyTimerNotDue(ts: seq<Timer>, token: string, due: int, now: int)
    requires forall i :: 0 <= i < |ts| ==> ts[i].token != token
    requires due > now
    ensures token !in DueTokens(ts + [Timer(token, due)], now)
  {
    var all := ts + [Timer(token, due)];
    assert forall i :: 0 <= i < |ts| ==> all[i] == ts[i];
  }

  lemma FiledIsRead(table: map<string, Payload>, ts: seq<Timer>, token: string, p: Payload, now: int)
    requires token !in DueTokens(ts, now)
    ensures Consume(Broker(table[token := p], ts), token, now).reply == Credentials(p)
  {
  }

  /** A second read of the same token is refused. */
  lemma SecondConsumeFails(b: Broker, token: string, t1: int, t2: int)
    ensures var once := Consume(b, token, t1);
      Consume(once.broker, token, t2).reply == TokenGone
  {
  }

  /** Once its lifetime has passed, an unconsumed token is refused like an unknown one. */
  lemma ExpiredTokenFails(b: Broker, website: string, username: string, password: string,
                          random: seq<Byte>, t0: int, t1: int)
    requires |random| == TokenBytes
    requires |website| > 0 && |username| > 0 && |password| > 0
    requires t1 >= t0 + TokenExpirationMs
    ensures var issued := Issue(b, Some(website), Some(username), Some(password), random, t0);
      Consume(issued.broker, issued.reply.token, t1).reply == TokenGone
  {
    var issued := Issue(b, Some(website), Some(username), Some(password), random, t0);
    var ts := issued.broker.timers;
    assert ts[|ts| - 1] == Timer(Hex.Encode(random), t0 + TokenExpirationMs);
    assert Hex.Encode(random) in DueTokens(ts, t1);
  }

  /** Issuing and consuming keep every filed token armed, so every entry eventually expires. */
  lemma StaysArmed(b: Broker, website: Option<string>, username: Option<string>, password: Option<string>,
                   random: seq<Byte>, token: string, now: int)
    requires Armed(b)
    requires |random| == TokenBytes
    ensures Armed(Issue(b, website, username, password, random, now).broker)
    ensures Armed(Consume(b, token, now).broker)
  {
    var live := Advance(b, now);
    forall tok | tok in live.table
      ensures exists t :: t in live.timers && t.token == tok
    {
      var t :| t in b.timers && t.token == tok;
      var i :| 0 <= i < |b.timers| && b.timers[i] == t;
      assert t.due <= now ==> tok in DueTokens(b.timers, now);
      assert t in live.timers;
    }
    var issued := Issue(b, website, username, password, random, now);
    if issued.reply.Issued? {
      forall tok | tok in issued.broker.table
        ensures exists t :: t in issued.broker.timers && t.token == tok
      {
        if tok == issued.reply.token {
          assert Timer(tok, now + TokenExpirationMs) in issued.broker.timers;
        } else {
          var t :| t in live.timers && t.token == tok;
          assert t in issued.broker.timers;
        }
      }
    }
  }
}
