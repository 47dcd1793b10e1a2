/** What the server answers right after startup, with its one valid and one
    expired key. */
module Server {
  import opened Wrappers
  import opened Keys
  import opened Store
  import opened Discovery
  import opened Issuance

  /** Within the valid key's hour, discovery publishes exactly that key, a normal
      request is signed with it, and an expired request with the expired key. */
  lemma StartupAnswers(valid: KeyMaterial, validKid: string, validAt: int,
                       expired: KeyMaterial, expiredKid: string, expiredAt: int,
                       now: int, sign: Signer)
    requires now < validAt + KEY_LIFETIME
    requires expiredAt - KEY_LIFETIME <= now
    ensures var keys := SeedKeys(valid, validKid, validAt, expired, expiredKid, expiredAt);
            && Jwks(keys, now) == [Stamp(valid.publicJwk, validKid)]
            && Jwks(keys, now)[0]["kid"] == validKid
            && Auth(keys, now, false, sign).Ok?
            && Auth(keys, now, false, sign).value.header.kid == validKid
            && Auth(keys, now, true, sign).Ok?
            && Auth(keys, now, true, sign).value.header.kid == expiredKid
  {
    var keys := SeedKeys(valid, validKid, validAt, expired, expiredKid, expiredAt);
    assert keys[..1] == [keys[0]];
    assert keys[..|keys| - 1] == keys[..1];
    assert keys[..1][..0] == [];
    assert InClass(keys[1], now, true);
  }

  /** Nothing rotates the keys: once the valid key's hour is over, discovery is
      empty and a normal request fails with 404. */
  lemma StartupKeysLapse(valid: KeyMaterial, validKid: string, validAt: int,
                         expired: KeyMaterial, expiredKid: string, expiredAt: int,
                         now: int, sign: Signer)
    requires validAt + KEY_LIFETIME <= now
    requires expiredAt - KEY_LIFETIME <= now
    ensures var keys := SeedKeys(valid, validKid, validAt, expired, expiredKid, expiredAt);
            && Jwks(keys, now) == []
            && Auth(keys, now, false, sign) == Err(NOT_FOUND)
  {
    var keys := SeedKeys(valid, validKid, validAt, expired, expiredKid, expiredAt);
    JwksEmpty(keys, now);
  }
}
