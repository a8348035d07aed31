/**
 * Identity of a listed entity.
 *
 * Collectors return each entity as a dictionary of string attributes. Some
 * modules put the anti-forgery token `tbs` into it, and that token changes on
 * every fetch, so the run loop strips it before deduplicating (`remove_tbs`)
 * and compares what is left as a `HashableDict`: hashed over its sorted
 * items, compared as a dictionary. A Dafny map is a value with extensional
 * equality, so the stripped map itself is the fingerprint.
 */
module Fingerprints {

  /** One remote resource as a collector lists it: attribute name to value. */
  type Entity = map<string, string>

  /** The volatile per-request token that must not take part in identity. */
  const VolatileKey: string := "tbs"

  /**
   * `remove_tbs`: a copy of the entity without its `tbs` key. The argument is
   * a value, so the caller's entity is left as it was.
   */
  function RemoveTbs(e: Entity): (fp: Entity)
    ensures fp.Keys == e.Keys - {VolatileKey}
    ensures forall k :: k in fp ==> fp[k] == e[k]
  {
    e - {VolatileKey}
  }

  /**
   * The (name, value) items of an entity: what `HashableDict.__hash__` hashes
   * once sorted, and what dictionary equality compares.
   */
  function Items(e: Entity): (s: set<(string, string)>)
    ensures forall k :: k in e ==> (k, e[k]) in s
    ensures forall p :: p in s ==> p.0 in e && e[p.0] == p.1
  {
    set k | k in e :: (k, e[k])
  }

  /**
   * Two entities have the same items exactly when they are the same map, so
   * set membership of fingerprints is independent of key order.
   */
  lemma ItemsIdentify(a: Entity, b: Entity)
    ensures Items(a) == Items(b) <==> a == b
  {
  }

  /**
   * Fingerprints are equal exactly when the entities agree on every key other
   * than `tbs`: the same keys, with the same values.
   */
  lemma FingerprintIgnoresTbs(e1: Entity, e2: Entity)
    ensures RemoveTbs(e1) == RemoveTbs(e2) <==>
      (forall k :: k != VolatileKey ==> (k in e1 <==> k in e2)) &&
      (forall k :: k != VolatileKey && k in e1 && k in e2 ==> e1[k] == e2[k])
  {
    var f1, f2 := RemoveTbs(e1), RemoveTbs(e2);
    if (forall k :: k != VolatileKey ==> (k in e1 <==> k in e2)) &&
       (forall k :: k != VolatileKey && k in e1 && k in e2 ==> e1[k] == e2[k])
    {
      assert f1.Keys == f2.Keys;
      forall k | k in f1
        ensures f1[k] == f2[k]
      {
        assert k != VolatileKey && k in e1 && k in e2;
      }
    }
    if f1 == f2 {
      forall k | k != VolatileKey
        ensures k in e1 <==> k in e2
      {
        assert k in e1 <==> k in f1;
        assert k in e2 <==> k in f2;
      }
      forall k | k != VolatileKey && k in e1 && k in e2
        ensures e1[k] == e2[k]
      {
        assert f1[k] == e1[k] && f2[k] == e2[k];
      }
    }
  }

  /**
   * A re-fetch that only changes (or adds, or drops) the token yields the same
   * fingerprint, and stripping is idempotent.
   */
  lemma FingerprintStableUnderRefetch(e: Entity, token: string)
    ensures RemoveTbs(e[VolatileKey := token]) == RemoveTbs(e)
    ensures RemoveTbs(RemoveTbs(e)) == RemoveTbs(e)
    ensures VolatileKey !in RemoveTbs(e)
  {
  }
}
