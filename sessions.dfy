/**
 * Sequences of login and refresh requests served one after another against
 * one refresh-token table: what the table looks like after any number of
 * them, and a worked example of one user's session.
 */
module Sessions {
  import opened Wrappers
  import opened Identity
  import opened TokenService
  import opened RefreshTokens
  import opened Controller
  import opened Startup
  import opened Authorization

  /** One request with everything it depends on: the state of the user
      directory when it arrives, the clock reading, and the new GUID. */
  datatype Request =
    | LoginRequest(dir: Directory, email: string, password: string, now: int, guid: string)
    | RefreshRequest(dir: Directory, presented: string, now: int, guid: string)

  /** Serve one request: any answer but a token pair leaves the table as it
      was, and a pair adds exactly one row under its new refresh value. */
  function Serve(store: Store, secret: string, sign: Signer, q: Request): (r: Outcome)
    ensures !r.response.Tokens? ==> r.store == store
    ensures r.response.Tokens? ==>
              && r.response.refreshToken in r.store
              && AddsRow(store, r.store, r.response.refreshToken, r.store[r.response.refreshToken])
              && r.store[r.response.refreshToken].expires == q.now + RefreshLifetime
  {
    match q
    case LoginRequest(dir, email, password, now, guid) =>
      Login(store, dir, email, password, now, guid, secret, sign)
    case RefreshRequest(dir, presented, now, guid) =>
      Refresh(store, dir, presented, now, guid, secret, sign)
  }

  /** The refresh values handed out in a list of responses. */
  function IssuedKeys(rs: seq<Response>): set<string>
  {
    if rs == [] then {}
    else (if rs[0].Tokens? then {rs[0].refreshToken} else {}) + IssuedKeys(rs[1..])
  }

  /** How many responses in the list are token pairs. */
  function PairCount(rs: seq<Response>): nat
  {
    if rs == [] then 0 else (if rs[0].Tokens? then 1 else 0) + PairCount(rs[1..])
  }

  datatype Replay = Replay(responses: seq<Response>, store: Store)

  /** `after` is `before` grown by the pairs in `responses`: every row of
      `before` is kept as it was, the new keys are exactly the refresh
      values handed out, none of them was a key before, and no value is
      handed out twice. */
  ghost predicate Extends(before: Store, responses: seq<Response>, after: Store)
  {
    && (forall k :: k in before ==> k in after && after[k] == before[k])
    && after.Keys == before.Keys + IssuedKeys(responses)
    && before.Keys !! IssuedKeys(responses)
    && |IssuedKeys(responses)| == PairCount(responses)
  }

  /** One served request followed by the rest keeps the growth property. */
  lemma ExtendsStep(store: Store, o: Outcome, rest: Replay)
    requires !o.response.Tokens? ==> o.store == store
    requires o.response.Tokens? ==>
               && o.response.refreshToken in o.store
               && AddsRow(store, o.store, o.response.refreshToken, o.store[o.response.refreshToken])
    requires Extends(o.store, rest.responses, rest.store)
    ensures Extends(store, [o.response] + rest.responses, rest.store)
  {
    var responses := [o.response] + rest.responses;
    assert responses[1..] == rest.responses;
    if o.response.Tokens? {
      ExtendsAdd(store, o.store, o.response, rest);
    } else {
      assert IssuedKeys(responses) == IssuedKeys(rest.responses);
      assert PairCount(responses) == PairCount(rest.responses);
    }
  }

  /** `ExtendsStep` for one served request. */
  lemma ServeExtends(store: Store, secret: string, sign: Signer, q: Request, rest: Replay)
    requires Extends(Serve(store, secret, sign, q).store, rest.responses, rest.store)
    ensures Extends(store, [Serve(store, secret, sign, q).response] + rest.responses, rest.store)
  {
    ExtendsStep(store, Serve(store, secret, sign, q), rest);
  }

  /** The step of `ExtendsStep` for a request answered with a pair. */
  lemma ExtendsAdd(store: Store, mid: Store, pair: Response, rest: Replay)
    requires pair.Tokens? && pair.refreshToken in mid
    requires AddsRow(store, mid, pair.refreshToken, mid[pair.refreshToken])
    requires Extends(mid, rest.responses, rest.store)
    ensures Extends(store, [pair] + rest.responses, rest.store)
  {
    var responses := [pair] + rest.responses;
    var issued := IssuedKeys(rest.responses);
    var key := pair.refreshToken;
    assert responses[1..] == rest.responses;
    forall k | k in store
      ensures k in rest.store && rest.store[k] == store[k]
    {
      assert k in mid && mid[k] == store[k];
    }
    assert IssuedKeys(responses) == {key} + issued;
    assert PairCount(responses) == 1 + PairCount(rest.responses);
    KeysStep(store, mid, key, issued, rest.store);
    FreshStep(store, mid, key, issued);
    AddOne(key, issued);
  }

  /** The keys after one added row followed by more. */
  lemma KeysStep(store: Store, mid: Store, key: string, issued: set<string>, after: Store)
    requires mid.Keys == store.Keys + {key}
    requires after.Keys == mid.Keys + issued
    ensures after.Keys == store.Keys + ({key} + issued)
  {
  }

  /** The keys one added row and the later rows bring are all new. */
  lemma FreshStep(store: Store, mid: Store, key: string, issued: set<string>)
    requires key !in store && mid.Keys == store.Keys + {key}
    requires mid.Keys !! issued
    ensures store.Keys !! ({key} + issued)
    ensures key !in issued
  {
    assert key in mid.Keys;
  }

  /** Adding a new element to a finite set grows it by one. */
  lemma AddOne(key: string, issued: set<string>)
    requires key !in issued
    ensures |{key} + issued| == 1 + |issued|
  {
    assert {key} + issued == issued + {key};
  }

  /** Serve `qs` in order; the table only grows, as `Extends` says, by one
      row per token pair answered. */
  function Run(store: Store, secret: string, sign: Signer, qs: seq<Request>): (r: Replay)
    ensures |r.responses| == |qs|
    ensures Extends(store, r.responses, r.store)
    decreases |qs|
  {
    if qs == [] then Replay([], store)
    else
      var o := Serve(store, secret, sign, qs[0]);
      var rest := Run(o.store, secret, sign, qs[1..]);
      ServeExtends(store, secret, sign, qs[0], rest);
      Replay([o.response] + rest.responses, rest.store)
  }

  /** The clock never goes back: each request comes no earlier than `start`
      and no earlier than the one before it. */
  ghost predicate ClockFrom(start: int, qs: seq<Request>)
    decreases |qs|
  {
    qs == [] || (start <= qs[0].now && ClockFrom(qs[0].now, qs[1..]))
  }

  /** The clock reading of the last request, or `start` if there is none. */
  function LastTime(start: int, qs: seq<Request>): int
    decreases |qs|
  {
    if qs == [] then start else LastTime(qs[0].now, qs[1..])
  }

  /** With a clock that never goes back, no row of the table ever outlives
      the latest request by more than seven days. */
  lemma {:induction false} RunKeepsBounded(store: Store, secret: string, sign: Signer, qs: seq<Request>, start: int)
    requires Bounded(store, start) && ClockFrom(start, qs)
    ensures Bounded(Run(store, secret, sign, qs).store, LastTime(start, qs))
    decreases |qs|
  {
    if qs != [] {
      var q := qs[0];
      var o := Serve(store, secret, sign, q);
      assert Bounded(o.store, q.now) by {
        match q
        case LoginRequest(dir, email, password, now, guid) =>
          ActionsKeepBounded(store, dir, email, password, "", start, now, guid, secret, sign);
        case RefreshRequest(dir, presented, now, guid) =>
          ActionsKeepBounded(store, dir, "", "", presented, start, now, guid, secret, sign);
      }
      RunKeepsBounded(o.store, secret, sign, qs[1..], q.now);
      assert Run(store, secret, sign, qs).store == Run(o.store, secret, sign, qs[1..]).store;
    }
  }

  /** A refresh value handed out by any request is still a key after every
      later request, and was not a key before the sequence: nothing in
      either flow deletes a row, and no value is handed out over an old one. */
  lemma RowsSurvive(store: Store, secret: string, sign: Signer, qs: seq<Request>, i: nat)
    requires i < |qs|
    requires Run(store, secret, sign, qs).responses[i].Tokens?
    ensures var k := Run(store, secret, sign, qs).responses[i].refreshToken;
      k in Run(store, secret, sign, qs).store && k !in store
  {
    var r := Run(store, secret, sign, qs);
    IssuedKeysHold(r.responses, i);
  }

  /** Every pair in the list contributes its refresh value. */
  lemma {:induction false} IssuedKeysHold(rs: seq<Response>, i: nat)
    requires i < |rs| && rs[i].Tokens?
    ensures rs[i].refreshToken in IssuedKeys(rs)
    decreases i
  {
    if i > 0 {
      IssuedKeysHold(rs[1..], i - 1);
    }
  }

  /** One user's session: `alice@example.com` with password `P@ss1` and the
      single role `employee` logs in at time `t`. */
  const Alice: User := User("alice-id", Some("alice"), Some("alice@example.com"))

  function AliceDirectory(): Directory
  {
    Directory(
      map["alice@example.com" := Alice],
      map["alice-id" := Alice],
      (u: User, pw: string) => u == Alice && pw == "P@ss1",
      map["alice-id" := ["employee"]])
  }

  /** Logging in yields an access token naming alice, her email and the
      employee role, valid for two hours, that opens the employee action
      but not the manager action an hour later, and one refresh row
      expiring seven days after the login. */
  lemma AliceLogin(t: int, secret: string, sign: Signer)
    ensures var login := Login(map[], AliceDirectory(), "alice@example.com", "P@ss1", t, "g1", secret, sign);
      && login.response.Tokens?
      && login.response.accessToken.payload.claims
         == [Claim(Name, "alice"), Claim(Email, "alice@example.com"), Claim(Role, "employee")]
      && login.response.accessToken.payload.expires == t + 2 * 60 * 60
      && login.store == map["g1" := RefreshRow("alice-id", t + 7 * 24 * 60 * 60)]
      && Authorize(Employee, Some(login.response.accessToken), BearerParameters(secret), t + 60 * 60, sign) == Allow
      && Authorize(Manager, Some(login.response.accessToken), BearerParameters(secret), t + 60 * 60, sign) == Forbid
  {
    var d := AliceDirectory();
    assert d.byEmail["alice@example.com"] == Alice && RolesOf(d, Alice) == ["employee"];
    var login := Login(map[], d, "alice@example.com", "P@ss1", t, "g1", secret, sign);
    assert login == IssuePair(map[], d, Alice, t, "g1", secret, sign);
    RoleDecisions(Alice, "employee", t, secret, sign, t + 60 * 60);
  }

  /** Alice's refresh value is accepted seven days after the login and
      refused, with nothing written, eight days after it. */
  lemma AliceRefreshWindow(t: int, secret: string, sign: Signer)
    ensures var s := map["g1" := RefreshRow("alice-id", t + 7 * 24 * 60 * 60)];
      && Refresh(s, AliceDirectory(), "g1", t + 7 * 24 * 60 * 60, "g2", secret, sign).response.Tokens?
      && Refresh(s, AliceDirectory(), "g1", t + 8 * 24 * 60 * 60, "g2", secret, sign) == Outcome(Unauthorized, s)
  {
    var d := AliceDirectory();
    var s := map["g1" := RefreshRow("alice-id", t + 7 * 24 * 60 * 60)];
    assert Usable(s, "g1", t + 7 * 24 * 60 * 60) && s["g1"].userId in d.byId;
    assert d.byId["alice-id"] == Alice && RolesOf(d, Alice) == ["employee"];
    assert "g2" !in s;
  }

  /** A wrong password yields NoContent and an unknown email NotFound, and
      neither writes a row. */
  lemma AliceRejected(t: int, secret: string, sign: Signer)
    ensures Login(map[], AliceDirectory(), "alice@example.com", "wrong", t, "g1", secret, sign)
            == Outcome(NoContent, map[])
    ensures Login(map[], AliceDirectory(), "bob@example.com", "P@ss1", t, "g1", secret, sign)
            == Outcome(NotFound, map[])
  {
    assert "bob@example.com" !in AliceDirectory().byEmail;
  }
}
