/**
 * Access tokens (app/auth/jwt_handler.py): issuing a signed, time-limited claim
 * set and verifying one. A token is a JSON Web Token (RFC 7519) signed with
 * HS256, HMAC-SHA256 as defined in section 3.2 of RFC 7518. The wire format and
 * the MAC are abstract: a token is a record of its header's algorithm, its
 * payload and its signature, and the MAC is an uninterpreted `Signer`.
 */
module Jwt {
  import opened Wrappers

  /** A JSON claim value (arrays and nested objects are not modelled). */
  datatype Claim = Text(s: string) | Number(n: int) | Bool(b: bool) | Null

  /** The claim set of a token: claim name to value. */
  type Payload = map<string, Claim>

  /** The MAC over (key, algorithm, payload); left uninterpreted. */
  type Signer = (string, string, Payload) -> string

  datatype Token =
    | Compact(alg: string, payload: Payload, sig: string)  // header.payload.signature
    | Garbled(text: string)                                // does not parse as a token

  /** The one fixed secret and algorithm used both to sign and to verify. */
  const SECRET_KEY: string := "your_secret_key"
  const ALGORITHM: string := "HS256"
  const ACCESS_TOKEN_EXPIRE_MINUTES: int := 30
  /** Lifetime of a token in seconds; time is counted in whole seconds. */
  const ACCESS_TOKEN_TTL: int := ACCESS_TOKEN_EXPIRE_MINUTES * 60

  /** The `sub` claim (section 4.1.2 of RFC 7519) as `payload.get("sub")` reads it. */
  function Sub(p: Payload): Claim {
    if "sub" in p then p["sub"] else Null
  }

  /** Python's truth value of a claim: None, "", 0 and False are false. */
  predicate Truthy(c: Claim) {
    match c
    case Text(s) => s != ""
    case Number(n) => n != 0
    case Bool(b) => b
    case Null => false
  }

  /** The payload carries a numeric `exp` claim (section 4.1.4 of RFC 7519). */
  predicate HasExp(p: Payload) {
    "exp" in p && p["exp"].Number?
  }

  function Exp(p: Payload): int
    requires HasExp(p)
  {
    p["exp"].n
  }

  /** The token names HS256 and its signature is the MAC of its payload under the secret. */
  predicate WellSigned(t: Token, sign: Signer) {
    t.Compact? && t.alg == ALGORITHM && t.sig == sign(SECRET_KEY, ALGORITHM, t.payload)
  }

  /**
   * `jwt.decode(token, SECRET_KEY, algorithms=[ALGORITHM])`: the payload of a
   * well-signed token; None stands for the JWTError raised otherwise.
   */
  function Decode(t: Token, sign: Signer): (r: Option<Payload>)
    ensures r.Some? <==> WellSigned(t, sign)
    ensures r.Some? ==> r.value == t.payload
  {
    match t
    case Garbled(_) => None
    case Compact(alg, p, sig) =>
      if alg in [ALGORITHM] && sig == sign(SECRET_KEY, alg, p) then Some(p) else None
  }

  /**
   * Comparing a missing or non-numeric `exp` with the clock raises TypeError;
   * verification is only defined for tokens where that cannot happen.
   */
  predicate ExpReadable(t: Token, sign: Signer) {
    WellSigned(t, sign) ==> HasExp(t.payload)
  }

  /** The token passes verification at time `now`. */
  predicate Accepted(t: Token, now: int, sign: Signer)
    requires ExpReadable(t, sign)
  {
    WellSigned(t, sign) && now <= Exp(t.payload)
  }

  /**
   * create_access_token: copy the caller's claims, set `exp` to issue time
   * plus 30 minutes (overwriting any `exp` the caller gave) and sign.
   */
  function CreateAccessToken(data: Payload, now: int, sign: Signer): (t: Token)
    ensures WellSigned(t, sign)
    ensures t.payload.Keys == data.Keys + {"exp"}
    ensures forall k :: k in data && k != "exp" ==> t.payload[k] == data[k]
    ensures HasExp(t.payload) && Exp(t.payload) == now + ACCESS_TOKEN_TTL
  {
    var toEncode := data["exp" := Number(now + ACCESS_TOKEN_TTL)];
    Compact(ALGORITHM, toEncode, sign(SECRET_KEY, ALGORITHM, toEncode))
  }

  /**
   * verify_access_token (the second definition, the one Python keeps): the
   * whole payload if the token is well signed and not yet expired, else None.
   */
  function VerifyAccessToken(t: Token, now: int, sign: Signer): (r: Option<Payload>)
    requires ExpReadable(t, sign)
    ensures r.Some? <==> Accepted(t, now, sign)
    ensures r.Some? ==> r.value == t.payload
  {
    match Decode(t, sign)
    case None => None
    case Some(payload) =>
      if Exp(payload) < now then None  // expired
      else Some(payload)
  }

  /** A freshly issued token verifies, with its whole payload, exactly until its expiry. */
  lemma IssuedTokenVerifies(data: Payload, issuedAt: int, now: int, sign: Signer)
    ensures ExpReadable(CreateAccessToken(data, issuedAt, sign), sign)
    ensures var t := CreateAccessToken(data, issuedAt, sign);
      VerifyAccessToken(t, now, sign) ==
        if now <= issuedAt + ACCESS_TOKEN_TTL then Some(t.payload) else None
  {
  }

  /** A token issued for `{"sub": u}` yields `u` as subject while it is live. */
  lemma IssuedSubjectRoundTrip(u: string, issuedAt: int, now: int, sign: Signer)
    requires now <= issuedAt + ACCESS_TOKEN_TTL
    ensures var t := CreateAccessToken(map["sub" := Text(u)], issuedAt, sign);
      ExpReadable(t, sign) &&
      VerifyAccessToken(t, now, sign).Some? &&
      Sub(VerifyAccessToken(t, now, sign).value) == Text(u)
  {
    var t := CreateAccessToken(map["sub" := Text(u)], issuedAt, sign);
    assert "sub" in t.payload && t.payload["sub"] == Text(u);
  }

  /** The expiry test is strict: accepted at `exp` itself, rejected one second later. */
  lemma ExpiryBoundary(t: Token, sign: Signer)
    requires WellSigned(t, sign) && HasExp(t.payload)
    ensures VerifyAccessToken(t, Exp(t.payload), sign) == Some(t.payload)
    ensures VerifyAccessToken(t, Exp(t.payload) + 1, sign) == None
  {
  }

  /**
   * Changing the signature of a valid token, or its algorithm, makes it fail
   * verification at every time, like a token that does not parse.
   */
  lemma TamperedTokenRejected(t: Token, forgedSig: string, forgedAlg: string, now: int, sign: Signer)
    requires t.Compact? && t.sig == sign(SECRET_KEY, t.alg, t.payload)
    requires forgedSig != t.sig && forgedAlg != ALGORITHM
    ensures VerifyAccessToken(Compact(t.alg, t.payload, forgedSig), now, sign) == None
    ensures VerifyAccessToken(Compact(forgedAlg, t.payload, forgedSig), now, sign) == None
    ensures VerifyAccessToken(Compact(forgedAlg, t.payload, sign(SECRET_KEY, forgedAlg, t.payload)), now, sign) == None
    ensures VerifyAccessToken(Garbled(forgedSig), now, sign) == None
  {
  }
}
