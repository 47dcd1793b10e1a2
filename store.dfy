/** The module-level key list of the server and its startup seeding. */
module Store {
  import opened Keys

  class KeyStore {
    /** The records in insertion order. */
    var keys: seq<KeyRecord>

    ghost predicate Valid()
      reads this
    {
      StoreInvariant(keys)
    }

    /** The list starts empty. */
    constructor ()
      ensures Valid()
      ensures keys == []
    {
      keys := [];
    }

    /** Generates a key and appends it to the list. The key id, drawn from a
        random UUID by the server, is an argument that must not be in use. */
    method Add(material: KeyMaterial, kid: string, now: int, isExpired: bool)
      requires Valid()
      requires kid !in Kids(keys)
      modifies this
      ensures Valid()
      ensures keys == old(keys) + [GenerateKeypair(material, kid, now, isExpired)]
      ensures Kids(keys) == old(Kids(keys)) + {kid}
    {
      var record := GenerateKeypair(material, kid, now, isExpired);
      AppendPreservesInvariant(keys, record);
      KidsAppend(keys, record);
      keys := keys + [record];
    }
  }

  /** The two records startup appends: a valid key, then an expired one. */
  function SeedKeys(valid: KeyMaterial, validKid: string, validAt: int,
                    expired: KeyMaterial, expiredKid: string, expiredAt: int): seq<KeyRecord>
  {
    [GenerateKeypair(valid, validKid, validAt, false),
     GenerateKeypair(expired, expiredKid, expiredAt, true)]
  }

  /** Server startup: an empty list, one valid key generated at `validAt`, then
      one expired key generated at `expiredAt`. */
  method Startup(valid: KeyMaterial, validKid: string, validAt: int,
                 expired: KeyMaterial, expiredKid: string, expiredAt: int)
    returns (store: KeyStore)
    requires validKid != expiredKid
    ensures fresh(store) && store.Valid()
    ensures store.keys == SeedKeys(valid, validKid, validAt, expired, expiredKid, expiredAt)
  {
    store := new KeyStore();
    store.Add(valid, validKid, validAt, false);
    store.Add(expired, expiredKid, expiredAt, true);
  }
}
