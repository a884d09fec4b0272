/**
 * `UserController`'s login (`Authenticate`) and refresh
 * (`AtualizarTokenAsync`) actions. Each is a chain of guarded early returns
 * ending in one insertion into the refresh-token table. `Login` and
 * `Refresh` state what a request does to the table and what it answers; the
 * class `UserController` performs the same steps on its own table.
 */
module Controller {
  import opened Wrappers
  import opened Identity
  import opened TokenService
  import opened RefreshTokens
  import opened Startup

  /** An exception that ends the request before anything is written:
      `roles.First()` on an empty list, a null user name or email, or a
      refresh-token value that is already a key. */
  datatype Fault = NoRoleAssigned | NullReference(cause: TokenFault) | DuplicateRefreshToken

  /** What an action answers: the token pair, or the status it returns. */
  datatype Response =
    | Tokens(accessToken: Jwt, refreshToken: string)
    | NotFound
    | NoContent
    | Unauthorized
    | ServerError(fault: Fault)

  /** A response together with the table after the request. */
  datatype Outcome = Outcome(response: Response, store: Store)

  /** The tail both actions share: take the user's first role, build an
      access token for it, store a new refresh row `guid` for the user
      expiring seven days after `now`, and answer the pair. Any failure
      answers a server error and leaves the table as it was. */
  function IssuePair(store: Store, dir: Directory, user: User, now: int, guid: string,
                     secret: string, sign: Signer): (r: Outcome)
    ensures r.response.Tokens? <==>
              (&& RolesOf(dir, user) != []
               && user.userName.Some? && user.email.Some?
               && guid !in store)
    ensures !r.response.Tokens? ==> r.response.ServerError? && r.store == store
    ensures RolesOf(dir, user) == [] ==> r.response == ServerError(NoRoleAssigned)
    ensures r.response.Tokens? ==>
              && r.response.refreshToken == guid
              && AddsRow(store, r.store, guid, RefreshRow(user.id, now + RefreshLifetime))
              && r.response.accessToken
                 == GenerateToken(user, RolesOf(dir, user)[0], now, secret, sign).value
  {
    var roles := RolesOf(dir, user);
    if roles == [] then Outcome(ServerError(NoRoleAssigned), store)
    else match GenerateToken(user, roles[0], now, secret, sign)
      case Err(f) => Outcome(ServerError(NullReference(f)), store)
      case Ok(token) =>
        match Insert(store, guid, RefreshRow(user.id, now + RefreshLifetime))
        case Err(_) => Outcome(ServerError(DuplicateRefreshToken), store)
        case Ok(next) => Outcome(Tokens(token, guid), next)
  }

  /** `Authenticate`: an unknown email answers NotFound, a rejected password
      answers NoContent, and both leave the table as it was; a user who gets
      past both is issued a pair by `IssuePair`. */
  function Login(store: Store, dir: Directory, email: string, password: string, now: int,
                 guid: string, secret: string, sign: Signer): (r: Outcome)
    ensures r.response == NotFound <==> email !in dir.byEmail
    ensures r.response == NoContent <==>
              email in dir.byEmail && !dir.passwordAccepted(dir.byEmail[email], password)
    ensures !r.response.Tokens? ==> r.store == store
    ensures email in dir.byEmail && dir.passwordAccepted(dir.byEmail[email], password) ==>
              r == IssuePair(store, dir, dir.byEmail[email], now, guid, secret, sign)
    ensures r.response.Tokens? ==> email in dir.byEmail && dir.passwordAccepted(dir.byEmail[email], password)
  {
    if email !in dir.byEmail then Outcome(NotFound, store)
    else
      var user := dir.byEmail[email];
      if !dir.passwordAccepted(user, password) then Outcome(NoContent, store)
      else IssuePair(store, dir, user, now, guid, secret, sign)
  }

  /** `AtualizarTokenAsync`: a value that is not a key, or whose row expired
      strictly before `now`, answers Unauthorized; a row whose owner is gone
      answers NotFound; both leave the table as it was. Otherwise the owner
      is issued a pair under a new key, and the presented row is kept. When
      the user store finds users by their own id, the new row belongs to the
      owner of the presented one. */
  function Refresh(store: Store, dir: Directory, presented: string, now: int,
                   guid: string, secret: string, sign: Signer): (r: Outcome)
    ensures r.response == Unauthorized <==> !Usable(store, presented, now)
    ensures r.response == NotFound <==>
              Usable(store, presented, now) && store[presented].userId !in dir.byId
    ensures !r.response.Tokens? ==> r.store == store
    ensures Usable(store, presented, now) && store[presented].userId in dir.byId ==>
              r == IssuePair(store, dir, dir.byId[store[presented].userId], now, guid, secret, sign)
    ensures r.response.Tokens? ==>
              && Usable(store, presented, now)
              && store[presented].userId in dir.byId
              && r.response.refreshToken != presented
              && presented in r.store && r.store[presented] == store[presented]
    ensures r.response.Tokens? && ConsistentIds(dir) ==>
              r.store[r.response.refreshToken] == RefreshRow(store[presented].userId, now + RefreshLifetime)
  {
    match Find(store, presented)
    case None => Outcome(Unauthorized, store)
    case Some(row) =>
      if row.expires < now then Outcome(Unauthorized, store)
      else if row.userId !in dir.byId then Outcome(NotFound, store)
      else IssuePair(store, dir, dir.byId[row.userId], now, guid, secret, sign)
  }

  /** A successful login hands out a refresh token that the refresh action
      accepts for exactly seven days: at every time up to and including its
      expiry it is not refused as Unauthorized, and at every later time it
      is, without touching the table. */
  lemma LoginTokenLifetime(store: Store, dir: Directory, email: string, password: string, now: int,
                           guid: string, secret: string, sign: Signer,
                           dir2: Directory, later: int, guid2: string)
    requires Login(store, dir, email, password, now, guid, secret, sign).response.Tokens?
    ensures var s := Login(store, dir, email, password, now, guid, secret, sign).store;
      var r := Refresh(s, dir2, guid, later, guid2, secret, sign);
      && (r.response == Unauthorized <==> now + RefreshLifetime < later)
      && (r.response == Unauthorized ==> r.store == s)
  {
  }

  /** The presented refresh token is not retired by a successful refresh: a
      second refresh with the same value, at any time up to its expiry, gets
      past the lookup and expiry check again. */
  lemma PresentedTokenReusable(store: Store, dir: Directory, presented: string, now: int,
                               guid: string, secret: string, sign: Signer,
                               dir2: Directory, later: int, guid2: string)
    requires Refresh(store, dir, presented, now, guid, secret, sign).response.Tokens?
    requires later <= store[presented].expires
    ensures var s := Refresh(store, dir, presented, now, guid, secret, sign).store;
      Refresh(s, dir2, presented, later, guid2, secret, sign).response != Unauthorized
  {
  }

  /** A user who has a role, a user name and an email, and whose password
      is accepted, logs in: the access token passes the bearer validator
      configured with the same secret at the time of issue, giving back its
      three claims, and the refresh value finds a row expiring after `now`. */
  lemma LoginSucceeds(store: Store, dir: Directory, email: string, password: string, now: int,
                      guid: string, secret: string, sign: Signer)
    requires email in dir.byEmail && dir.passwordAccepted(dir.byEmail[email], password)
    requires var user := dir.byEmail[email];
      RolesOf(dir, user) != [] && user.userName.Some? && user.email.Some?
    requires guid !in store
    ensures var r := Login(store, dir, email, password, now, guid, secret, sign);
      && r.response.Tokens?
      && ValidateToken(r.response.accessToken, BearerParameters(secret), now, sign)
         == Ok(r.response.accessToken.payload.claims)
      && r.response.accessToken.payload.claims
         == [Claim(Name, dir.byEmail[email].userName.value), Claim(Email, dir.byEmail[email].email.value),
             Claim(Role, RolesOf(dir, dir.byEmail[email])[0])]
      && Find(r.store, r.response.refreshToken).Some?
      && Find(r.store, r.response.refreshToken).value.expires > now
  {
    var user := dir.byEmail[email];
    IssuedTokenAccepted(user, RolesOf(dir, user)[0], now, secret, sign, now);
  }

  /** A usable refresh value whose owner still exists, has a role, a user
      name and an email gets a new pair whose access token passes the bearer
      validator and whose refresh value finds a row expiring after `now`. */
  lemma RefreshSucceeds(store: Store, dir: Directory, presented: string, now: int,
                        guid: string, secret: string, sign: Signer)
    requires Usable(store, presented, now) && store[presented].userId in dir.byId
    requires var user := dir.byId[store[presented].userId];
      RolesOf(dir, user) != [] && user.userName.Some? && user.email.Some?
    requires guid !in store
    ensures var r := Refresh(store, dir, presented, now, guid, secret, sign);
      && r.response.Tokens?
      && ValidateToken(r.response.accessToken, BearerParameters(secret), now, sign)
         == Ok(r.response.accessToken.payload.claims)
      && Find(r.store, r.response.refreshToken).Some?
      && Find(r.store, r.response.refreshToken).value.expires > now
  {
    var user := dir.byId[store[presented].userId];
    IssuedTokenAccepted(user, RolesOf(dir, user)[0], now, secret, sign, now);
  }

  /** Only the first role counts: a token pair carries exactly one role
      claim, the first of the user's roles, so a user listed as
      `["employee", "manager"]` is not in role `manager` by this token. */
  lemma OnlyFirstRoleClaimed(store: Store, dir: Directory, user: User, now: int, guid: string,
                             secret: string, sign: Signer, role: string)
    requires IssuePair(store, dir, user, now, guid, secret, sign).response.Tokens?
    ensures Claim(Role, role) in IssuePair(store, dir, user, now, guid, secret, sign).response.accessToken.payload.claims
            <==> role == RolesOf(dir, user)[0]
  {
  }

  /** Issuing a pair at `now` keeps every row within seven days of `now`. */
  lemma IssuePairKeepsBounded(store: Store, dir: Directory, user: User, now: int, guid: string,
                              secret: string, sign: Signer)
    requires Bounded(store, now)
    ensures Bounded(IssuePair(store, dir, user, now, guid, secret, sign).store, now)
  {
    var r := IssuePair(store, dir, user, now, guid, secret, sign);
    if r.response.Tokens? {
      forall k | k in r.store ensures r.store[k].expires <= now + RefreshLifetime {
        if k != guid {
          assert k in store;
        }
      }
    }
  }

  /** Both actions keep the table free of rows that outlive the current time
      by more than seven days, when the clock has not gone back. */
  lemma ActionsKeepBounded(store: Store, dir: Directory, email: string, password: string,
                           presented: string, before: int, now: int,
                           guid: string, secret: string, sign: Signer)
    requires Bounded(store, before) && before <= now
    ensures Bounded(Login(store, dir, email, password, now, guid, secret, sign).store, now)
    ensures Bounded(Refresh(store, dir, presented, now, guid, secret, sign).store, now)
  {
    BoundedLater(store, before, now);
    if email in dir.byEmail {
      IssuePairKeepsBounded(store, dir, dir.byEmail[email], now, guid, secret, sign);
    }
    if presented in store && store[presented].userId in dir.byId {
      IssuePairKeepsBounded(store, dir, dir.byId[store[presented].userId], now, guid, secret, sign);
    }
  }

  /** The controller's refresh-token table (`_userDbContext.RefreshTokens`),
      with the configured secret and the signing algorithm. */
  class UserController {
    var refreshTokens: Store
    const secret: string
    const sign: Signer

    /** A controller is built for each request over the table as persisted
        so far. */
    constructor (store: Store, secret: string, sign: Signer)
      ensures refreshTokens == store && this.secret == secret && this.sign == sign
    {
      refreshTokens := store;
      this.secret := secret;
      this.sign := sign;
    }

    /** Lines shared by both actions: first role, access token, new row. */
    method IssueTokens(dir: Directory, user: User, now: int, guid: string) returns (response: Response)
      modifies this
      ensures Outcome(response, refreshTokens) == IssuePair(old(refreshTokens), dir, user, now, guid, secret, sign)
    {
      var roles := RolesOf(dir, user);
      if |roles| == 0 {
        return ServerError(NoRoleAssigned);
      }
      var token := GenerateToken(user, roles[0], now, secret, sign);
      if token.Err? {
        return ServerError(NullReference(token.error));
      }
      if guid in refreshTokens {
        return ServerError(DuplicateRefreshToken);
      }
      refreshTokens := refreshTokens[guid := RefreshRow(user.id, now + RefreshLifetime)];
      response := Tokens(token.value, guid);
    }

    /** `Authenticate` at time `now`, with `guid` the new GUID string. */
    method Authenticate(dir: Directory, email: string, password: string, now: int, guid: string)
      returns (response: Response)
      modifies this
      ensures Outcome(response, refreshTokens)
              == Login(old(refreshTokens), dir, email, password, now, guid, secret, sign)
    {
      if email !in dir.byEmail {
        return NotFound;
      }
      var user := dir.byEmail[email];
      if !dir.passwordAccepted(user, password) {
        return NoContent;
      }
      response := IssueTokens(dir, user, now, guid);
    }

    /** `AtualizarTokenAsync` at time `now`, with `guid` the new GUID string. */
    method AtualizarToken(dir: Directory, presented: string, now: int, guid: string)
      returns (response: Response)
      modifies this
      ensures Outcome(response, refreshTokens)
              == Refresh(old(refreshTokens), dir, presented, now, guid, secret, sign)
    {
      var existing := Find(refreshTokens, presented);
      if existing.None? || existing.value.expires < now {
        return Unauthorized;
      }
      if existing.value.userId !in dir.byId {
        return NotFound;
      }
      var user := dir.byId[existing.value.userId];
      response := IssueTokens(dir, user, now, guid);
    }
  }
}
