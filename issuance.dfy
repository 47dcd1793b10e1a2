/** The token handler: pick a key of the requested class, build the claims and
    the header, and sign. */
module Issuance {
  import opened Wrappers
  import opened Keys
  import opened Discovery

  /** The fixed subject of every issued token. */
  const SUBJECT: string := "fake_user"
  /** Lifetime of a normal token, in seconds. */
  const TOKEN_LIFETIME: int := 3600
  /** How long ago an expired-request token has already expired, in seconds. */
  const EXPIRED_TOKEN_AGE: int := 60

  datatype Claims = Claims(sub: string, iat: int, exp: int)

  /** The extra header fields the handler asks for: the signing key's id. */
  datatype Header = Header(kid: string)

  /** An issued token: the header and claims any reader decodes from it, and the
      compact serialised string that the signer produced. */
  datatype Jwt = Jwt(header: Header, payload: Claims, compact: string)

  datatype AuthError = KeyNotFound(status: int, detail: string)

  const NOT_FOUND: AuthError := KeyNotFound(404, "Requested key type not found")

  /** RS256 signing and compact serialisation of (claims, header, private PEM). */
  type Signer = (Claims, Header, string) -> string

  /** The index of the first record of the requested class, scanning the list
      from the front; `None` when there is none. */
  function SelectKey(keys: seq<KeyRecord>, now: int, expired: bool): (r: Option<nat>)
    ensures r.Some? ==> r.value < |keys| && InClass(keys[r.value], now, expired)
    ensures r.Some? ==> forall j :: 0 <= j < r.value ==> !InClass(keys[j], now, expired)
    ensures r.None? <==> forall j :: 0 <= j < |keys| ==> !InClass(keys[j], now, expired)
  {
    if keys == [] then None
    else if InClass(keys[0], now, expired) then Some(0)
    else match SelectKey(keys[1..], now, expired)
      case None => None
      case Some(i) => Some(i + 1)
  }

  /** The claims of a token issued at `now`. */
  function BuildClaims(now: int, expired: bool): (c: Claims)
    ensures c.sub == SUBJECT && c.iat == now
    ensures c.exp == if expired then now - EXPIRED_TOKEN_AGE else now + TOKEN_LIFETIME
    // an expired request yields a token that has already expired, a normal one a live token
    ensures c.exp < c.iat <==> expired
    ensures c.exp > c.iat <==> !expired
  {
    Claims(SUBJECT, now, if expired then now - EXPIRED_TOKEN_AGE else now + TOKEN_LIFETIME)
  }

  /** The token handler. It only reads the key list. */
  function Auth(keys: seq<KeyRecord>, now: int, expired: bool, sign: Signer): (r: Result<Jwt, AuthError>)
    // it fails exactly when no key of the requested class exists, and then with 404
    ensures r.Err? <==> forall j :: 0 <= j < |keys| ==> !InClass(keys[j], now, expired)
    ensures r.Err? ==> r.error == NOT_FOUND
    ensures r.Ok? ==> r.value.payload == BuildClaims(now, expired)
    // the token names, and is signed with, the first key of the requested class
    ensures r.Ok? ==>
              && SelectKey(keys, now, expired).Some?
              && var i := SelectKey(keys, now, expired).value;
              && r.value.header.kid == keys[i].kid
              && r.value.compact == sign(r.value.payload, r.value.header, keys[i].privateKeyPem)
  {
    match SelectKey(keys, now, expired)
    case None => Err(NOT_FOUND)
    case Some(i) =>
      var payload := BuildClaims(now, expired);
      var header := Header(keys[i].kid);
      Ok(Jwt(header, payload, sign(payload, header, keys[i].privateKeyPem)))
  }

  /** A token issued for a normal request names a key whose descriptor is in the
      discovery document at the same time, and the only descriptor there with
      that key id is the public half of the signing key. */
  lemma ValidTokenKidPublished(keys: seq<KeyRecord>, now: int, sign: Signer)
    requires StoreInvariant(keys)
    requires Auth(keys, now, false, sign).Ok?
    ensures var i := SelectKey(keys, now, false).value;
            keys[i].publicJwk in Jwks(keys, now)
            && keys[i].publicJwk["kid"] == Auth(keys, now, false, sign).value.header.kid
    ensures forall d :: d in Jwks(keys, now) && "kid" in d &&
                        d["kid"] == Auth(keys, now, false, sign).value.header.kid ==>
                        d == keys[SelectKey(keys, now, false).value].publicJwk
  {
    var i := SelectKey(keys, now, false).value;
    JwksMembership(keys, now, keys[i].publicJwk);
    assert WellFormed(keys[i]);
    forall d | d in Jwks(keys, now) && "kid" in d && d["kid"] == keys[i].kid
      ensures d == keys[i].publicJwk
    {
      JwksMembership(keys, now, d);
      var j :| 0 <= j < |keys| && IsValidAt(keys[j], now) && keys[j].publicJwk == d;
      assert WellFormed(keys[j]);
      assert i == j;
    }
  }

  /** A token issued for an expired request names a key that no descriptor of
      the discovery document carries at the same time. */
  lemma ExpiredTokenKidUnpublished(keys: seq<KeyRecord>, now: int, sign: Signer)
    requires StoreInvariant(keys)
    requires Auth(keys, now, true, sign).Ok?
    ensures forall d :: d in Jwks(keys, now) ==>
              "kid" in d && d["kid"] != Auth(keys, now, true, sign).value.header.kid
  {
    ExpiredKidNeverPublished(keys, now, SelectKey(keys, now, true).value);
  }
}
