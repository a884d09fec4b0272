/**
 * What the host sets up before serving requests: the bearer-token
 * validation parameters, built from the same secret the issuer signs with,
 * and the seeding of the two application roles.
 */
module Startup {
  import opened Wrappers
  import opened Identity
  import opened TokenService

  /** `TokenValidationParameters.ClockSkew` is left at its default of five
      minutes. */
  const DefaultClockSkew: nat := 5 * 60

  /** `AddJwtBearer`'s parameters: the symmetric key of the ASCII bytes of
      the secret, issuer and audience not checked, lifetime checked with the
      default skew. A token is accepted exactly when it is signed under the
      secret's key, its `nbf` is not after its `exp`, and the time lies in
      its lifetime widened by five minutes on each side. */
  function BearerParameters(secret: string): (p: ValidationParameters)
    ensures forall t: Jwt, now: int, sign: Signer :: ValidateToken(t, p, now, sign).Ok? <==>
              (&& t.signature == sign(t.payload, SigningKey(secret))
               && t.payload.notBefore <= t.payload.expires
               && t.payload.notBefore - DefaultClockSkew <= now <= t.payload.expires + DefaultClockSkew)
  {
    ValidationParameters(
      signingKey := SigningKey(secret),
      validateIssuer := false,
      validateAudience := false,
      validateLifetime := true,
      clockSkew := DefaultClockSkew)
  }

  /** A token issued at `issuedAt` passes bearer validation, giving back the
      claims it was issued with, from five minutes before issue until five
      minutes past its two-hour expiry; after that it is refused as expired. */
  lemma IssuedTokenAccepted(user: User, role: string, issuedAt: int, secret: string, sign: Signer, now: int)
    requires GenerateToken(user, role, issuedAt, secret, sign).Ok?
    ensures var t := GenerateToken(user, role, issuedAt, secret, sign).value;
      var v := ValidateToken(t, BearerParameters(secret), now, sign);
      && (v.Ok? <==> issuedAt - DefaultClockSkew <= now <= issuedAt + TokenLifetime + DefaultClockSkew)
      && (v.Ok? ==> v.value == t.payload.claims)
      && (issuedAt + TokenLifetime + DefaultClockSkew < now ==> v == Err(Expired))
  {
  }

  /** The signer tells apart keys of one length of at most 64 bytes: one
      payload signed under two such keys gives two different signatures.
      HMAC-SHA256 pads shorter keys with zero bytes to its 64-byte block and
      hashes longer ones, so keys of different lengths, or longer than a
      block, may sign alike; within this class HMAC is relied on to be
      collision-free. */
  ghost predicate KeyBinding(sign: Signer)
  {
    forall p, k1, k2 :: |k1| == |k2| <= 64 && k1 != k2 ==> sign(p, k1) != sign(p, k2)
  }

  /** A validator configured with a secret of the issuer's UTF-16 length
      (at most 64 code units) that differs from the issuer's in an ASCII
      code unit at position `j` refuses the token's signature, whatever the
      time. */
  lemma OtherSecretRejected(user: User, role: string, issuedAt: int, secret: string, other: string,
                            j: nat, sign: Signer, now: int)
    requires KeyBinding(sign)
    requires |Utf16(secret)| == |Utf16(other)| <= 64
    requires j < |Utf16(secret)| && Utf16(secret)[j] != Utf16(other)[j]
    requires 0 <= Utf16(secret)[j] < 0x80 && 0 <= Utf16(other)[j] < 0x80
    requires GenerateToken(user, role, issuedAt, secret, sign).Ok?
    ensures ValidateToken(GenerateToken(user, role, issuedAt, secret, sign).value,
                          BearerParameters(other), now, sign) == Err(InvalidSignature)
  {
    var t := GenerateToken(user, role, issuedAt, secret, sign).value;
    assert AsciiBytes(secret)[j] != AsciiBytes(other)[j];
    assert sign(t.payload, SigningKey(secret)) != sign(t.payload, SigningKey(other));
  }

  /** The roles created at start-up, in the order the loop visits them. */
  const RolesToCreate: seq<string> := ["manager", "employee"]

  /** The names `CreateAsync` is called for when `names` are visited in
      order over a role store holding `existing`. */
  function Created(existing: set<string>, names: seq<string>): seq<string>
    decreases names
  {
    if names == [] then []
    else if names[0] in existing then Created(existing, names[1..])
    else [names[0]] + Created(existing + {names[0]}, names[1..])
  }

  /** Seeding creates each missing name, and only missing names, exactly
      once each. */
  lemma {:induction false} CreatedExactlyMissing(existing: set<string>, names: seq<string>)
    ensures forall x :: x in Created(existing, names) <==> x in names && x !in existing
    ensures forall i, j :: 0 <= i < j < |Created(existing, names)| ==>
              Created(existing, names)[i] != Created(existing, names)[j]
    decreases names
  {
    if names != [] {
      var n := names[0];
      assert forall x :: x in names <==> x == n || x in names[1..];
      if n in existing {
        CreatedExactlyMissing(existing, names[1..]);
      } else {
        CreatedExactlyMissing(existing + {n}, names[1..]);
        var rest := Created(existing + {n}, names[1..]);
        assert Created(existing, names) == [n] + rest;
        assert n !in rest;
      }
    }
  }

  /** Seeding creates nothing exactly when every name is already a role:
      an existing role is never created again. */
  lemma {:induction false} NothingCreatedIffPresent(existing: set<string>, names: seq<string>)
    ensures Created(existing, names) == [] <==> forall x :: x in names ==> x in existing
    decreases names
  {
    if names != [] {
      NothingCreatedIffPresent(existing, names[1..]);
      NothingCreatedIffPresent(existing + {names[0]}, names[1..]);
      assert forall x :: x in names <==> x == names[0] || x in names[1..];
    }
  }

  /** The names of a list, as a set. */
  ghost function Elems(names: seq<string>): set<string>
  {
    set x | x in names
  }

  lemma ElemsAppend(names: seq<string>, name: string)
    ensures Elems(names + [name]) == Elems(names) + {name}
  {
    forall x ensures x in Elems(names + [name]) <==> x in Elems(names) + {name} {
      assert x in names + [name] <==> x in names || x == name;
    }
  }

  /** One step of `Created`: the first name is created exactly when it is
      missing, and the rest are visited over the store that results. */
  lemma CreatedStep(existing: set<string>, names: seq<string>)
    requires names != []
    ensures Created(existing, names)
            == if names[0] in existing then Created(existing, names[1..])
               else [names[0]] + Created(existing + {names[0]}, names[1..])
  {
  }

  /** The seeding loop over `names`: every name the store lacks is created,
      in order. The role set becomes the old one plus all of `names`, and
      `created` lists the `CreateAsync` calls made. */
  method EnsureRoles(existing: set<string>, names: seq<string>) returns (roles: set<string>, created: seq<string>)
    ensures roles == existing + Elems(names)
    ensures created == Created(existing, names)
  {
    roles, created := existing, [];
    for i := 0 to |names|
      invariant roles == existing + Elems(names[..i])
      invariant created + Created(roles, names[i..]) == Created(existing, names)
    {
      var name := names[i];
      assert Created(roles, names[i..])
             == if name in roles then Created(roles, names[i + 1..])
                else [name] + Created(roles + {name}, names[i + 1..]) by {
        CreatedStep(roles, names[i..]);
        assert names[i..][1..] == names[i + 1..];
      }
      assert names[..i + 1] == names[..i] + [name];
      ElemsAppend(names[..i], name);
      if name !in roles {
        assert (created + [name]) + Created(roles + {name}, names[i + 1..])
               == created + ([name] + Created(roles + {name}, names[i + 1..]));
        roles := roles + {name};
        created := created + [name];
      }
    }
    assert names[..|names|] == names;
  }

  /** Start-up seeding: both application roles exist afterwards, roles that
      were there are kept, nothing else is added, and `CreateAsync` is
      called only for the roles that were missing. */
  method SeedRoles(existing: set<string>) returns (roles: set<string>, created: seq<string>)
    ensures roles == existing + {"manager", "employee"}
    ensures created == Created(existing, RolesToCreate)
    ensures forall x :: x in created <==> (x == "manager" || x == "employee") && x !in existing
  {
    roles, created := EnsureRoles(existing, RolesToCreate);
    CreatedExactlyMissing(existing, RolesToCreate);
    assert Elems(RolesToCreate) == {"manager", "employee"} by {
      assert RolesToCreate[0] == "manager" && RolesToCreate[1] == "employee";
    }
  }

  /** Seeding again, as on every later start, finds both roles and creates
      nothing: the role set after two runs is the set after one. */
  method SeedTwice(existing: set<string>) returns (once: set<string>, twice: set<string>, createdAgain: seq<string>)
    ensures twice == once
    ensures createdAgain == []
    ensures "manager" in once && "employee" in once
    ensures existing <= once && once - existing <= {"manager", "employee"}
  {
    var c;
    once, c := SeedRoles(existing);
    twice, createdAgain := SeedRoles(once);
    NothingCreatedIffPresent(once, RolesToCreate);
  }
}
