/**
 * The two cryptographic libraries as the service uses them, kept abstract:
 * bcrypt (hash and compare) and JSON Web Tokens (sign and verify). Each is a
 * pair of functions supplied by the caller, together with the only facts the
 * code relies on about them.
 */
module Crypto {
  import opened Util

  /** bcrypt: `hash` with the random salt folded in, and `compare(plain, digest)`. */
  datatype Hasher = Hasher(hash: string -> string, compare: (string, string) -> bool)

  /** A digest is a non-empty string that compares equal to the password it was made from. */
  ghost predicate HasherSound(h: Hasher) {
    forall p :: h.hash(p) != "" && h.compare(p, h.hash(p))
  }

  /** Seconds in the "30d" lifetime both token issuers request. */
  const TOKEN_LIFETIME: nat := 30 * 24 * 60 * 60

  /** A token's payload: the user id, the e-mail (in-memory router only), issue and expiry time in seconds. */
  datatype Claims = Claims(id: string, email: Option<string>, iat: nat, exp: nat)

  /** The `name` of an error `jwt.verify` throws; anything else is OtherError. */
  datatype ErrorName = JsonWebTokenError | TokenExpiredError | OtherError

  datatype Verdict = Verified(id: string) | Rejected(name: ErrorName)

  /** jsonwebtoken: `sign(claims, secret)` and `verify(token, secret, nowSeconds)`. */
  datatype Jwt = Jwt(sign: (Claims, string) -> string, verify: (string, string, nat) -> Verdict)

  /**
   * A signed token is a non-empty string without spaces; verifying it with
   * the signing secret yields its id strictly before `exp` and TokenExpiredError from then on.
   */
  ghost predicate JwtSound(j: Jwt) {
    && (forall c: Claims, key: string :: key != "" ==> j.sign(c, key) != "" && ' ' !in j.sign(c, key))
    && (forall c: Claims, key: string, t: nat :: key != "" && t < c.exp ==> j.verify(j.sign(c, key), key, t) == Verified(c.id))
    && (forall c: Claims, key: string, t: nat :: key != "" && t >= c.exp ==> j.verify(j.sign(c, key), key, t) == Rejected(TokenExpiredError))
  }

  /** jsonwebtoken's clock: whole seconds of a millisecond timestamp. */
  function Seconds(nowMs: nat): nat {
    nowMs / 1000
  }

  /** The payload `jwt.sign(payload, secret, {expiresIn: "30d"})` signs at time `nowMs`. */
  function IssuedClaims(id: string, email: Option<string>, nowMs: nat): (c: Claims)
    ensures c.id == id && c.email == email
    ensures c.iat == Seconds(nowMs) && c.exp - c.iat == TOKEN_LIFETIME
  {
    Claims(id, email, Seconds(nowMs), Seconds(nowMs) + TOKEN_LIFETIME)
  }

  /**
   * `generateToken(id)` of the auth controller: signs `{id}` alone with the
   * JWT_SECRET setting. jsonwebtoken throws when the secret is missing or empty.
   */
  function GenerateToken(j: Jwt, secret: Option<string>, id: string, nowMs: nat): (r: Option<string>)
    ensures r.Some? <==> Truthy(secret)
    ensures r.Some? ==> r.value == j.sign(IssuedClaims(id, None, nowMs), secret.value)
  {
    if Truthy(secret) then
      var c := IssuedClaims(id, None, nowMs);
      Some(j.sign(c, secret.value))
    else None
  }

  /** The secret the in-memory router signs with: JWT_SECRET, or a built-in fallback when it is unset or empty. */
  const FALLBACK_SECRET: string := "your_jwt_secret_key"

  function RouterSecret(secret: Option<string>): (k: string)
    ensures k != ""
    ensures Truthy(secret) ==> k == secret.value
  {
    if Truthy(secret) then secret.value else FALLBACK_SECRET
  }

  /** The in-memory router's token: `{id, email}` signed with RouterSecret, never failing. */
  function RouterToken(j: Jwt, secret: Option<string>, id: string, email: string, nowMs: nat): (t: string)
    ensures JwtSound(j) ==> t != "" && ' ' !in t
  {
    j.sign(IssuedClaims(id, Some(email), nowMs), RouterSecret(secret))
  }

  /**
   * A token from GenerateToken verifies to its id for the thirty days after
   * issue, and is reported expired from then on.
   */
  lemma TokenLifetime(j: Jwt, secret: Option<string>, id: string, issuedMs: nat, nowMs: nat)
    requires JwtSound(j) && Truthy(secret)
    ensures var t := GenerateToken(j, secret, id, issuedMs).value;
      && (Seconds(nowMs) < Seconds(issuedMs) + TOKEN_LIFETIME ==> j.verify(t, secret.value, Seconds(nowMs)) == Verified(id))
      && (Seconds(nowMs) >= Seconds(issuedMs) + TOKEN_LIFETIME ==> j.verify(t, secret.value, Seconds(nowMs)) == Rejected(TokenExpiredError))
  {
    var c := IssuedClaims(id, None, issuedMs);
    assert GenerateToken(j, secret, id, issuedMs).value == j.sign(c, secret.value);
  }

  /**
   * A token from RouterToken verifies to its id under the router's key for
   * the thirty days after issue, and is reported expired from then on,
   * whether or not JWT_SECRET is set.
   */
  lemma RouterTokenLifetime(j: Jwt, secret: Option<string>, id: string, email: string, issuedMs: nat, nowMs: nat)
    requires JwtSound(j)
    ensures var t := RouterToken(j, secret, id, email, issuedMs);
      && t != "" && ' ' !in t
      && (Seconds(nowMs) < Seconds(issuedMs) + TOKEN_LIFETIME ==>
            j.verify(t, RouterSecret(secret), Seconds(nowMs)) == Verified(id))
      && (Seconds(nowMs) >= Seconds(issuedMs) + TOKEN_LIFETIME ==>
            j.verify(t, RouterSecret(secret), Seconds(nowMs)) == Rejected(TokenExpiredError))
  {
    var c := IssuedClaims(id, Some(email), issuedMs);
    assert RouterToken(j, secret, id, email, issuedMs) == j.sign(c, RouterSecret(secret));
  }
}
