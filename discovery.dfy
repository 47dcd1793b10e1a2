/** The key discovery document: the public descriptors of the keys that are
    valid at the time of the request. */
module Discovery {
  import opened Keys

  /** The descriptors of the records with `expiresAt > now`, in list order. */
  function Jwks(keys: seq<KeyRecord>, now: int): (r: seq<Descriptor>)
    ensures |r| <= |keys|
  {
    if keys == [] then []
    else
      var last := keys[|keys| - 1];
      Jwks(keys[..|keys| - 1], now) + (if IsValidAt(last, now) then [last.publicJwk] else [])
  }

  /** The position at which the record at index `i` is published, if it is
      valid: the number of valid records before it. */
  function Published(keys: seq<KeyRecord>, now: int, i: nat): nat
    requires i <= |keys|
  {
    |Jwks(keys[..i], now)|
  }

  /** The document for a prefix of the list is a prefix of the whole document. */
  lemma {:induction false} JwksPrefix(keys: seq<KeyRecord>, now: int, k: nat)
    requires k <= |keys|
    ensures Jwks(keys[..k], now) <= Jwks(keys, now)
    decreases |keys| - k
  {
    if k == |keys| {
      assert keys[..k] == keys;
    } else {
      JwksPrefix(keys, now, k + 1);
      var p := keys[..k + 1];
      assert p[..|p| - 1] == keys[..k];
    }
  }

  /** A valid record appears in the document, at its position. */
  lemma JwksAt(keys: seq<KeyRecord>, now: int, i: nat)
    requires i < |keys| && IsValidAt(keys[i], now)
    ensures Published(keys, now, i) < |Jwks(keys, now)|
    ensures Jwks(keys, now)[Published(keys, now, i)] == keys[i].publicJwk
  {
    JwksPrefix(keys, now, i + 1);
    var p := keys[..i + 1];
    assert p[..|p| - 1] == keys[..i];
  }

  /** Valid records are published in insertion order: an earlier valid record
      sits at an earlier position than any later record. */
  lemma JwksInOrder(keys: seq<KeyRecord>, now: int, i: nat, j: nat)
    requires i < j < |keys| && IsValidAt(keys[i], now)
    ensures Published(keys, now, i) < Published(keys, now, j)
  {
    var front := keys[..j];
    JwksPrefix(front, now, i + 1);
    assert front[..i + 1] == keys[..i + 1];
    var p := keys[..i + 1];
    assert p[..|p| - 1] == keys[..i];
  }

  /** Every position of the document is the position of some valid record. */
  lemma {:induction false} JwksPositions(keys: seq<KeyRecord>, now: int, p: nat)
    requires p < |Jwks(keys, now)|
    ensures exists i :: 0 <= i < |keys| && IsValidAt(keys[i], now) && Published(keys, now, i) == p
  {
    var n := |keys|;
    var init := keys[..n - 1];
    if p < |Jwks(init, now)| {
      JwksPositions(init, now, p);
      var i :| 0 <= i < |init| && IsValidAt(init[i], now) && Published(init, now, i) == p;
      assert init[..i] == keys[..i];
      assert Published(keys, now, i) == p;
    } else {
      assert IsValidAt(keys[n - 1], now);
      assert Published(keys, now, n - 1) == p;
    }
  }

  /** A descriptor is in the document exactly when some valid record carries it. */
  lemma JwksMembership(keys: seq<KeyRecord>, now: int, d: Descriptor)
    ensures d in Jwks(keys, now) <==>
            exists i :: 0 <= i < |keys| && IsValidAt(keys[i], now) && keys[i].publicJwk == d
  {
    var r := Jwks(keys, now);
    if d in r {
      var p :| 0 <= p < |r| && r[p] == d;
      JwksPositions(keys, now, p);
      var i :| 0 <= i < |keys| && IsValidAt(keys[i], now) && Published(keys, now, i) == p;
      JwksAt(keys, now, i);
    }
    if exists i :: 0 <= i < |keys| && IsValidAt(keys[i], now) && keys[i].publicJwk == d {
      var i :| 0 <= i < |keys| && IsValidAt(keys[i], now) && keys[i].publicJwk == d;
      JwksAt(keys, now, i);
    }
  }

  /** The document is empty exactly when no key is valid; that is not an error. */
  lemma JwksEmpty(keys: seq<KeyRecord>, now: int)
    ensures Jwks(keys, now) == [] <==> forall i :: 0 <= i < |keys| ==> !IsValidAt(keys[i], now)
  {
    if Jwks(keys, now) != [] {
      JwksPositions(keys, now, 0);
    }
    forall i | 0 <= i < |keys| && IsValidAt(keys[i], now) ensures Jwks(keys, now) != [] {
      JwksAt(keys, now, i);
    }
  }

  /** Under the store invariant, every published descriptor carries a key id, and
      no published descriptor carries the key id of a key expired at `now`. */
  lemma ExpiredKidNeverPublished(keys: seq<KeyRecord>, now: int, i: nat)
    requires StoreInvariant(keys)
    requires i < |keys| && !IsValidAt(keys[i], now)
    ensures forall d :: d in Jwks(keys, now) ==> "kid" in d && d["kid"] != keys[i].kid
  {
    forall d | d in Jwks(keys, now) ensures "kid" in d && d["kid"] != keys[i].kid {
      JwksMembership(keys, now, d);
      var j :| 0 <= j < |keys| && IsValidAt(keys[j], now) && keys[j].publicJwk == d;
      assert WellFormed(keys[j]);
      assert i != j;
    }
  }
}
