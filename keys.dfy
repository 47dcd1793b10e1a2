/** Signing-key records: how a record and its public descriptor are built, when a
    record counts as valid, and the invariant a collection of records keeps. */
module Keys {

  /** A public key descriptor in JSON Web Key form: field name to field value. */
  type Descriptor = map<string, string>

  /** Validity window of a freshly generated key, in seconds. */
  const KEY_LIFETIME: int := 3600

  /** The four fields that key generation writes over the constructed JWK. */
  const STAMPED_FIELDS: set<string> := {"kid", "alg", "kty", "use"}

  /** What the cryptographic library hands back for one new RSA key pair: the
      private key as PEM text and the public half as a JWK dictionary (holding
      `n`, `e` and whatever else the library puts there). Both are opaque here. */
  datatype KeyMaterial = KeyMaterial(privatePem: string, publicJwk: Descriptor)

  /** One entry of the in-memory key list. */
  datatype KeyRecord = KeyRecord(
    kid: string,
    privateKeyPem: string,
    publicJwk: Descriptor,
    expiresAt: int)

  /** A descriptor carries the given key id, the RS256 algorithm tag, the RSA key
      type and the signature use. */
  predicate IsStamped(d: Descriptor, kid: string)
  {
    && "kid" in d && d["kid"] == kid
    && "alg" in d && d["alg"] == "RS256"
    && "kty" in d && d["kty"] == "RSA"
    && "use" in d && d["use"] == "sig"
  }

  /** A record whose descriptor names the record's own key id. */
  predicate WellFormed(r: KeyRecord)
  {
    IsStamped(r.publicJwk, r.kid)
  }

  /** Valid keys expire strictly after `now`. */
  predicate IsValidAt(r: KeyRecord, now: int)
  {
    r.expiresAt > now
  }

  /** The selection condition of the token handler: an expired request wants a
      key with `expiresAt <= now`, a normal one a key with `expiresAt > now`. */
  predicate InClass(r: KeyRecord, now: int, expired: bool): (b: bool)
    // the two classes split the keys in two at every instant
    ensures b <==> (IsValidAt(r, now) != expired)
  {
    if expired then r.expiresAt <= now else r.expiresAt > now
  }

  /** The dictionary update applied to the library's JWK: the four stamped fields
      are overwritten, every other field is kept. */
  function Stamp(base: Descriptor, kid: string): (d: Descriptor)
    ensures IsStamped(d, kid)
    ensures d.Keys == base.Keys + STAMPED_FIELDS
    ensures forall f :: f in base && f !in STAMPED_FIELDS ==> d[f] == base[f]
  {
    base + map["kid" := kid, "alg" := "RS256", "kty" := "RSA", "use" := "sig"]
  }

  /** Key generation with the cryptography, the random id and the clock read
      supplied as arguments. */
  function GenerateKeypair(material: KeyMaterial, kid: string, now: int, isExpired: bool): (r: KeyRecord)
    ensures r.kid == kid && WellFormed(r)
    ensures r.privateKeyPem == material.privatePem
    ensures forall f :: f in material.publicJwk && f !in STAMPED_FIELDS ==>
              f in r.publicJwk && r.publicJwk[f] == material.publicJwk[f]
    ensures r.expiresAt == if isExpired then now - KEY_LIFETIME else now + KEY_LIFETIME
    // an expired key is expired from the start, a valid key is valid from the start
    ensures IsValidAt(r, now) <==> !isExpired
    // and each stays in its class for at least the next hour
    ensures forall t :: now <= t < now + KEY_LIFETIME ==> InClass(r, t, isExpired)
  {
    KeyRecord(kid, material.privatePem, Stamp(material.publicJwk, kid),
              if isExpired then now - KEY_LIFETIME else now + KEY_LIFETIME)
  }

  /** The key ids in use. */
  function Kids(keys: seq<KeyRecord>): set<string>
  {
    set i | 0 <= i < |keys| :: keys[i].kid
  }

  predicate DistinctKids(keys: seq<KeyRecord>)
  {
    forall i, j :: 0 <= i < j < |keys| ==> keys[i].kid != keys[j].kid
  }

  /** What every state of the key list satisfies: each descriptor names its own
      record's key id, and no two records share a key id. */
  predicate StoreInvariant(keys: seq<KeyRecord>)
  {
    && (forall i :: 0 <= i < |keys| ==> WellFormed(keys[i]))
    && DistinctKids(keys)
  }

  lemma KidsAppend(keys: seq<KeyRecord>, r: KeyRecord)
    ensures Kids(keys + [r]) == Kids(keys) + {r.kid}
  {
    var ks := keys + [r];
    assert ks[|keys|].kid == r.kid;
    forall k | k in Kids(keys) ensures k in Kids(ks) {
      var i :| 0 <= i < |keys| && keys[i].kid == k;
      assert ks[i].kid == k;
    }
  }

  /** Appending a well-formed record under an unused key id keeps the invariant. */
  lemma AppendPreservesInvariant(keys: seq<KeyRecord>, r: KeyRecord)
    requires StoreInvariant(keys)
    requires WellFormed(r)
    requires r.kid !in Kids(keys)
    ensures StoreInvariant(keys + [r])
  {
    var ks := keys + [r];
    forall i, j | 0 <= i < j < |ks| ensures ks[i].kid != ks[j].kid {
      if j == |keys| {
        assert keys[i].kid in Kids(keys);
      }
    }
  }
}
