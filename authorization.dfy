/**
 * The `[Authorize]` and `[AllowAnonymous]` attributes of `UserController`,
 * and the decision the bearer scheme and role check make for a request.
 */
module Authorization {
  import opened Wrappers
  import opened Identity
  import opened TokenService
  import opened Startup

  /** The controller's actions. */
  datatype Endpoint =
    | Create | GetAll | GetUserById | DeletedUserById | AlterName | Authenticate
    | ForgotPassword | ResetPassword | Anonymous | Authenticated | Employee
    | Manager | AtualizarToken

  /** No attribute or `[AllowAnonymous]`; a bare `[Authorize]`; or
      `[Authorize(Roles = ...)]` with the listed roles. */
  datatype Policy = Open | SignedIn | InRoles(allowed: seq<string>)

  /** The attribute each action carries. Only the delete, employee and
      manager actions name roles; every role they name is one that start-up
      seeding creates, and `manager` is admitted wherever roles are named. */
  function PolicyOf(e: Endpoint): (p: Policy)
    ensures p.InRoles? <==> e == DeletedUserById || e == Employee || e == Manager
    ensures p.SignedIn? <==> e == AlterName || e == ForgotPassword || e == Authenticated
    ensures p.InRoles? ==> "manager" in p.allowed && forall r :: r in p.allowed ==> r in RolesToCreate
  {
    match e
    case DeletedUserById => InRoles(["manager"])
    case AlterName => SignedIn
    case ForgotPassword => SignedIn
    case Authenticated => SignedIn
    case Employee => InRoles(["employee", "manager"])
    case Manager => InRoles(["manager"])
    case _ => Open
  }

  /** `IsInRole`: the claims hold a role claim with exactly this value. */
  predicate IsInRole(claims: seq<Claim>, role: string)
  {
    Claim(Role, role) in claims
  }

  /** Allowed, refused for want of a valid token (401), or refused for want
      of a listed role (403). */
  datatype Decision = Allow | Challenge | Forbid

  /** The decision for a request to `e` carrying `bearer`, if any, checked
      with parameters `p` at time `now`. Open actions ignore the token; the
      others need a valid one, and role-restricted ones need one of the
      listed roles among its claims. */
  function Authorize(e: Endpoint, bearer: Option<Jwt>, p: ValidationParameters, now: int, sign: Signer): (d: Decision)
    ensures PolicyOf(e).Open? ==> d == Allow
    ensures d == Challenge <==>
              !PolicyOf(e).Open? && (bearer.None? || ValidateToken(bearer.value, p, now, sign).Err?)
    ensures d == Allow && !PolicyOf(e).Open? ==>
              bearer.Some? && ValidateToken(bearer.value, p, now, sign).Ok?
    ensures d == Allow && PolicyOf(e).InRoles? ==>
              exists r :: r in PolicyOf(e).allowed && IsInRole(bearer.value.payload.claims, r)
    ensures d == Forbid ==>
              && PolicyOf(e).InRoles?
              && forall r :: r in PolicyOf(e).allowed ==> !IsInRole(bearer.value.payload.claims, r)
  {
    match PolicyOf(e)
    case Open => Allow
    case SignedIn =>
      if bearer.None? || ValidateToken(bearer.value, p, now, sign).Err? then Challenge else Allow
    case InRoles(allowed) =>
      if bearer.None? then Challenge
      else match ValidateToken(bearer.value, p, now, sign)
        case Err(_) => Challenge
        case Ok(claims) =>
          if exists r :: r in allowed && IsInRole(claims, r) then Allow else Forbid
  }

  /** For a token issued with role `role` and presented while it is still
      accepted: the employee action admits exactly `employee` and `manager`,
      the manager and delete actions admit exactly `manager`, and any other
      role is forbidden there. No role stands in for another. */
  lemma RoleDecisions(user: User, role: string, issuedAt: int, secret: string, sign: Signer, now: int)
    requires GenerateToken(user, role, issuedAt, secret, sign).Ok?
    requires issuedAt - DefaultClockSkew <= now <= issuedAt + TokenLifetime + DefaultClockSkew
    ensures var t := Some(GenerateToken(user, role, issuedAt, secret, sign).value);
      var p := BearerParameters(secret);
      && (Authorize(Employee, t, p, now, sign) == Allow <==> role == "employee" || role == "manager")
      && (Authorize(Manager, t, p, now, sign) == Allow <==> role == "manager")
      && (Authorize(DeletedUserById, t, p, now, sign) == Allow <==> role == "manager")
      && (Authorize(Manager, t, p, now, sign) != Allow ==> Authorize(Manager, t, p, now, sign) == Forbid)
      && Authorize(AlterName, t, p, now, sign) == Allow
  {
    var t := GenerateToken(user, role, issuedAt, secret, sign).value;
    IssuedTokenAccepted(user, role, issuedAt, secret, sign, now);
    assert forall r :: IsInRole(t.payload.claims, r) <==> r == role;
    assert "employee" in ["employee", "manager"] && "manager" in ["employee", "manager"];
    assert "manager" in ["manager"];
  }

  /** Once the bearer handler refuses a token, every action except the open
      ones answers 401, whatever roles the token names. */
  lemma ExpiredTokenChallenged(user: User, role: string, issuedAt: int, secret: string, sign: Signer,
                               now: int, e: Endpoint)
    requires GenerateToken(user, role, issuedAt, secret, sign).Ok?
    requires issuedAt + TokenLifetime + DefaultClockSkew < now
    ensures var t := Some(GenerateToken(user, role, issuedAt, secret, sign).value);
      Authorize(e, t, BearerParameters(secret), now, sign) == if PolicyOf(e).Open? then Allow else Challenge
  {
    IssuedTokenAccepted(user, role, issuedAt, secret, sign, now);
  }

  /** A correctly signed token whose `nbf` lies after its `exp` never opens a
      protected action, whatever roles it names and whatever the time. */
  lemma InvertedLifetimeChallenged(t: Jwt, secret: string, now: int, sign: Signer, e: Endpoint)
    requires t.signature == sign(t.payload, SigningKey(secret))
    requires t.payload.expires < t.payload.notBefore
    ensures Authorize(e, Some(t), BearerParameters(secret), now, sign) == if PolicyOf(e).Open? then Allow else Challenge
    ensures ValidateToken(t, BearerParameters(secret), now, sign) == Err(InvalidLifetime)
  {
  }
}
