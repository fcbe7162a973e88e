/**
 * The two libraries the backend trusts for secrets, kept abstract: bcrypt's
 * `hash` and `compare` over passwords, and JSON Web Tokens signed with the
 * server secret. A token carries the employee's `_id` and an expiry in whole
 * seconds, as the JWT `exp` claim does.
 */
module Crypto {
  import opened Common
  import opened EmployeeModel

  /** bcrypt: `hash` (its random salt already chosen) and `compare`. */
  datatype Bcrypt = Bcrypt(hash: string -> string, compare: (string, string) -> bool)

  /** The payload of a session token: `{ id: employee._id }` and its `exp` claim in seconds. */
  datatype Claims = Claims(id: Id, exp: int)

  /**
   * Signing with the server secret, and the signature check that recovers the
   * payload of a genuine token (`None` for a forged or malformed one).
   */
  datatype Jwt = Jwt(sign: Claims -> string, decode: string -> Option<Claims>)

  /**
   * What the backend relies on from the JWT library: a signed token decodes
   * to what was signed, and is a non-empty word without spaces.
   */
  ghost predicate Sound(jwt: Jwt)
  {
    forall c :: jwt.decode(jwt.sign(c)) == Some(c) && jwt.sign(c) != "" && ' ' !in jwt.sign(c)
  }

  /** `expiresIn: '24h'`, in seconds. */
  const LifetimeSeconds := 86400

  /** The JWT clock: whole seconds since the epoch. */
  function Seconds(now: int): int
  {
    now / 1000
  }

  /** `jwt.sign({ id }, secret, { expiresIn: '24h' })` at time `now` (milliseconds). */
  function Issue(jwt: Jwt, id: Id, now: int): string
  {
    jwt.sign(Claims(id, Seconds(now) + LifetimeSeconds))
  }

  /**
   * `jwt.verify(token, secret)` at time `now`: the payload of a genuine token
   * whose expiry lies strictly in the future, else failure.
   */
  function Verify(jwt: Jwt, token: string, now: int): (r: Option<Claims>)
    ensures r.Some? ==> jwt.decode(token) == r && Seconds(now) < r.value.exp
    ensures r.None? <==> jwt.decode(token).None? || jwt.decode(token).value.exp <= Seconds(now)
  {
    match jwt.decode(token)
    case None => None
    case Some(c) => if Seconds(now) < c.exp then Some(c) else None
  }

  /**
   * A token issued at `issued` verifies, with the identity it was issued for,
   * exactly until 24 hours of whole seconds have passed.
   */
  lemma IssuedTokenLifetime(jwt: Jwt, id: Id, issued: int, now: int)
    requires Sound(jwt)
    ensures Verify(jwt, Issue(jwt, id, issued), now) ==
      if Seconds(now) < Seconds(issued) + LifetimeSeconds
      then Some(Claims(id, Seconds(issued) + LifetimeSeconds))
      else None
  {
    assert jwt.decode(jwt.sign(Claims(id, Seconds(issued) + LifetimeSeconds)))
        == Some(Claims(id, Seconds(issued) + LifetimeSeconds));
  }

  /** A token issued at T is accepted at T + 23h59m and refused at T + 24h01m. */
  lemma TokenExpiresAfterADay(jwt: Jwt, id: Id, t: int)
    requires Sound(jwt)
    ensures Verify(jwt, Issue(jwt, id, t), t + 86340000) == Some(Claims(id, Seconds(t) + LifetimeSeconds))
    ensures Verify(jwt, Issue(jwt, id, t), t + 86460000) == None
  {
    IssuedTokenLifetime(jwt, id, t, t + 86340000);
    IssuedTokenLifetime(jwt, id, t, t + 86460000);
    assert Seconds(t + 86340000) == Seconds(t) + 86340;
    assert Seconds(t + 86460000) == Seconds(t) + 86460;
  }
}
