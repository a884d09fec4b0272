/**
 * The access-token issuer (`TokenService.GenerateToken`) and the bearer
 * validator it is paired with. A token is its payload and a signature; the
 * keyed signing algorithm (HMAC-SHA256) is a parameter `sign`, and the
 * compact string encoding of RFC 7519 is not modelled. Times are in seconds.
 */
module TokenService {
  import opened Wrappers
  import opened Identity

  /** An octet of the key. */
  newtype Byte = x: int | 0 <= x < 0x100

  /** `DateTime.UtcNow.AddHours(2)`: an access token lives two hours. */
  const TokenLifetime: int := 2 * 60 * 60

  datatype ClaimType = Name | Email | Role

  datatype Claim = Claim(claimType: ClaimType, value: string)

  /** The token body: the claims of the subject, and the times the JWT
      handler writes (`nbf` and `iat` default to the time of creation). */
  datatype Payload = Payload(claims: seq<Claim>, notBefore: int, issuedAt: int, expires: int)

  /** A keyed signature over a payload (HMAC-SHA256 in the source). */
  type Signer = (Payload, seq<Byte>) -> seq<Byte>

  datatype Jwt = Jwt(payload: Payload, signature: seq<Byte>)

  /** `user.UserName.ToString()` and `user.Email.ToString()` on a null column
      throw before any token exists. */
  datatype TokenFault = NullUserName | NullEmail

  /** One character as UTF-16 code units: itself below U+10000, otherwise
      a high and a low surrogate that together give the character back. */
  function CodeUnits(c: char): (u: seq<int>)
    ensures c as int < 0x10000 ==> u == [c as int]
    ensures c as int >= 0x10000 ==>
              && |u| == 2
              && 0xD800 <= u[0] < 0xDC00 && 0xDC00 <= u[1] < 0xE000
              && 0x10000 + (u[0] - 0xD800) * 0x400 + (u[1] - 0xDC00) == c as int
  {
    if c as int < 0x10000 then [c as int]
    else
      var v := c as int - 0x10000;
      [0xD800 + v / 0x400, 0xDC00 + v % 0x400]
  }

  /** A string as the UTF-16 code units a .NET string holds. It is as long
      as the string exactly when no character lies outside the Basic
      Multilingual Plane, and then its units are the characters. */
  function Utf16(s: string): (u: seq<int>)
    ensures |u| >= |s|
    ensures |u| == |s| <==> forall i :: 0 <= i < |s| ==> s[i] as int < 0x10000
    ensures (forall i :: 0 <= i < |s| ==> s[i] as int < 0x10000) ==>
              forall i :: 0 <= i < |s| ==> u[i] == s[i] as int
    decreases |s|
  {
    if s == [] then [] else CodeUnits(s[0]) + Utf16(s[1..])
  }

  /** One code unit under `Encoding.ASCII`: 7-bit units are kept and every
      other unit, each half of a surrogate pair included, becomes '?'. */
  function AsciiUnit(x: int): (b: Byte)
    ensures b < 0x80
    ensures b as int == x <==> 0 <= x < 0x80
  {
    if 0 <= x < 0x80 then x as Byte else '?' as int as Byte
  }

  /** `Encoding.ASCII.GetBytes(s)`: one byte per UTF-16 code unit. */
  function AsciiBytes(s: string): (b: seq<Byte>)
    ensures |b| == |Utf16(s)|
    ensures forall j :: 0 <= j < |b| ==> b[j] < 0x80
    ensures forall j :: 0 <= j < |b| ==> (b[j] as int == Utf16(s)[j] <==> 0 <= Utf16(s)[j] < 0x80)
    ensures forall j :: 0 <= j < |b| && !(0 <= Utf16(s)[j] < 0x80) ==> b[j] as int == '?' as int
  {
    var u := Utf16(s);
    seq(|u|, j requires 0 <= j < |u| => AsciiUnit(u[j]))
  }

  /** `Encoding.ASCII.GetString(b)` for 7-bit bytes. */
  function AsciiString(b: seq<Byte>): (s: string)
    requires forall i :: 0 <= i < |b| ==> b[i] < 0x80
    ensures |s| == |b|
    ensures forall i :: 0 <= i < |b| ==> s[i] as int == b[i] as int
  {
    seq(|b|, i requires 0 <= i < |b| => (b[i] as int) as char)
  }

  /** The ASCII key bytes give the secret back exactly when the secret is
      7-bit text. */
  lemma AsciiRoundTrip(s: string)
    ensures AsciiString(AsciiBytes(s)) == s <==> forall i :: 0 <= i < |s| ==> s[i] as int < 0x80
  {
    var b := AsciiBytes(s);
    if AsciiString(b) == s {
      assert |Utf16(s)| == |s|;
      forall i | 0 <= i < |s| ensures s[i] as int < 0x80 {
        assert AsciiString(b)[i] == s[i];
      }
    }
  }

  /** The bytes of two strings are the bytes of each, one after the other. */
  lemma AsciiBytesStep(s: string)
    requires s != []
    ensures AsciiBytes(s) == AsciiBytes(s[..1]) + AsciiBytes(s[1..])
  {
    assert s[..1][1..] == [];
    assert Utf16(s[..1]) == CodeUnits(s[0]);
    var u := Utf16(s);
    assert u == Utf16(s[..1]) + Utf16(s[1..]);
  }

  /** The key loses every non-ASCII character: two secrets that agree on
      their ASCII characters and have, position by position, non-ASCII
      characters of the same UTF-16 width elsewhere give one key. */
  lemma {:induction false} KeyIgnoresNonAscii(s: string, t: string)
    requires |s| == |t|
    requires forall i :: 0 <= i < |s| ==>
               || s[i] == t[i]
               || (&& s[i] as int >= 0x80 && t[i] as int >= 0x80
                   && (s[i] as int < 0x10000 <==> t[i] as int < 0x10000))
    ensures AsciiBytes(s) == AsciiBytes(t)
    decreases |s|
  {
    if s != [] {
      KeyIgnoresNonAscii(s[1..], t[1..]);
      OneCharKey(s[0], t[0]);
      SameKeyStep(s, t);
    }
  }

  /** Keys agree when they agree on the first character and on the rest. */
  lemma SameKeyStep(s: string, t: string)
    requires s != [] && t != []
    requires AsciiBytes([s[0]]) == AsciiBytes([t[0]]) && AsciiBytes(s[1..]) == AsciiBytes(t[1..])
    ensures AsciiBytes(s) == AsciiBytes(t)
  {
    AsciiBytesStep(s);
    AsciiBytesStep(t);
    assert s[..1] == [s[0]] && t[..1] == [t[0]];
  }

  /** `KeyIgnoresNonAscii` for one character. */
  lemma OneCharKey(c: char, d: char)
    requires || c == d
             || (&& c as int >= 0x80 && d as int >= 0x80
                 && (c as int < 0x10000 <==> d as int < 0x10000))
    ensures AsciiBytes([c]) == AsciiBytes([d])
  {
    assert [c][1..] == [] && [d][1..] == [];
    assert Utf16([c]) == CodeUnits(c) && Utf16([d]) == CodeUnits(d);
  }

  /** The signing key: the ASCII bytes of the configured secret. Issuer and
      validator both derive their key this way. Secrets within the Basic
      Multilingual Plane give one byte per character: its code where it is
      ASCII and '?' where it is not; other characters give two '?'. */
  function SigningKey(secret: string): (key: seq<Byte>)
    ensures |key| == |Utf16(secret)|
    ensures (forall i :: 0 <= i < |secret| ==> secret[i] as int < 0x10000) ==>
              && |key| == |secret|
              && (forall i :: 0 <= i < |secret| && secret[i] as int < 0x80 ==> key[i] as int == secret[i] as int)
              && (forall i :: 0 <= i < |secret| && secret[i] as int >= 0x80 ==> key[i] as int == '?' as int)
  {
    AsciiBytes(secret)
  }

  /** `GenerateToken(user, role)` at time `now`: three claims (name, email,
      the given role) expiring two hours later, signed with the key of the
      secret. A null user name or email faults instead. */
  function GenerateToken(user: User, role: string, now: int, secret: string, sign: Signer): (r: Result<Jwt, TokenFault>)
    ensures r.Ok? <==> user.userName.Some? && user.email.Some?
    ensures r.Err? ==> (r.error == NullUserName <==> user.userName.None?)
    ensures r.Ok? ==> r.value.payload.claims
                        == [Claim(Name, user.userName.value), Claim(Email, user.email.value), Claim(Role, role)]
    ensures r.Ok? ==> r.value.payload.notBefore == r.value.payload.issuedAt == now
    ensures r.Ok? ==> r.value.payload.expires - r.value.payload.issuedAt == TokenLifetime
    ensures r.Ok? ==> r.value.signature == sign(r.value.payload, SigningKey(secret))
  {
    if user.userName.None? then Err(NullUserName)
    else if user.email.None? then Err(NullEmail)
    else
      var claims := [Claim(Name, user.userName.value), Claim(Email, user.email.value), Claim(Role, role)];
      var payload := Payload(claims, now, now, now + TokenLifetime);
      Ok(Jwt(payload, sign(payload, SigningKey(secret))))
  }

  /** The values of the claims of one type, in order. */
  function ClaimValues(claims: seq<Claim>, t: ClaimType): (vs: seq<string>)
    ensures |vs| <= |claims|
    ensures forall v :: v in vs <==> Claim(t, v) in claims
  {
    if claims == [] then []
    else if claims[0].claimType == t then [claims[0].value] + ClaimValues(claims[1..], t)
    else ClaimValues(claims[1..], t)
  }

  /** An issued token carries one claim of each type: the name, the email
      and the single role it was issued for, and nothing else. */
  lemma IssuedClaims(user: User, role: string, now: int, secret: string, sign: Signer)
    requires GenerateToken(user, role, now, secret, sign).Ok?
    ensures var claims := GenerateToken(user, role, now, secret, sign).value.payload.claims;
      && |claims| == 3
      && ClaimValues(claims, Name) == [user.userName.value]
      && ClaimValues(claims, Email) == [user.email.value]
      && ClaimValues(claims, Role) == [role]
  {
    var claims := GenerateToken(user, role, now, secret, sign).value.payload.claims;
    assert claims[1..][1..][1..] == [];
    assert claims[1..][1..] == [Claim(Role, role)];
    assert claims[1..] == [Claim(Email, user.email.value), Claim(Role, role)];
    forall t: ClaimType ensures ClaimValues(claims[1..][1..][1..], t) == [] { }
    assert ClaimValues(claims[1..][1..], Name) == [] && ClaimValues(claims[1..][1..], Email) == [];
    assert ClaimValues(claims[1..], Name) == [] && ClaimValues(claims[1..], Email) == [user.email.value];
  }

  /** `TokenValidationParameters` as far as they concern these tokens. */
  datatype ValidationParameters = ValidationParameters(
    signingKey: seq<Byte>,
    validateIssuer: bool,
    validateAudience: bool,
    validateLifetime: bool,
    clockSkew: nat)

  datatype ValidationError = InvalidSignature | InvalidLifetime | NotYetValid | Expired | InvalidAudience | InvalidIssuer

  /** The bearer handler's check of a presented token: the signature under
      the configured key, then the lifetime (a token whose `nbf` lies after
      its `exp` is refused outright, otherwise the window from `nbf` to
      `exp` is widened by the clock skew on each side), then
      audience and issuer (the issued tokens carry neither, so either check
      when switched on rejects them). On success the token's claims. */
  function ValidateToken(t: Jwt, p: ValidationParameters, now: int, sign: Signer): (r: Result<seq<Claim>, ValidationError>)
    ensures r.Ok? ==> r.value == t.payload.claims
    ensures r.Ok? <==>
              (&& t.signature == sign(t.payload, p.signingKey)
               && !p.validateIssuer && !p.validateAudience
               && (p.validateLifetime ==>
                     && t.payload.notBefore <= t.payload.expires
                     && t.payload.notBefore - p.clockSkew <= now <= t.payload.expires + p.clockSkew))
    ensures r == Err(InvalidSignature) <==> t.signature != sign(t.payload, p.signingKey)
    ensures r.Ok? ==> !p.validateIssuer && !p.validateAudience
    ensures r == Err(Expired) <==>
              (&& t.signature == sign(t.payload, p.signingKey) && p.validateLifetime
               && t.payload.notBefore <= t.payload.expires
               && now + p.clockSkew >= t.payload.notBefore && t.payload.expires < now - p.clockSkew)
    ensures r == Err(InvalidLifetime) <==>
              (&& t.signature == sign(t.payload, p.signingKey) && p.validateLifetime
               && t.payload.expires < t.payload.notBefore)
  {
    if t.signature != sign(t.payload, p.signingKey) then Err(InvalidSignature)
    else if p.validateLifetime && t.payload.expires < t.payload.notBefore then Err(InvalidLifetime)
    else if p.validateLifetime && now + p.clockSkew < t.payload.notBefore then Err(NotYetValid)
    else if p.validateLifetime && t.payload.expires < now - p.clockSkew then Err(Expired)
    else if p.validateAudience then Err(InvalidAudience)
    else if p.validateIssuer then Err(InvalidIssuer)
    else Ok(t.payload.claims)
  }
}
