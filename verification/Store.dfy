/** The versioned store as a value: each key holds data under non-negative versions. */
module Store {
  import opened Wire

  type Key = uint64
  type Hash = map<nat, Bytes>
  type Hashes = map<Key, Hash>

  function Versions(db: Hashes, k: Key): Hash {
    if k in db then db[k] else map[]
  }

  ghost predicate IsMax(h: Hash, m: nat) {
    m in h && forall v <- h :: v <= m
  }

  lemma {:induction false} MaxExists(h: Hash)
    requires h != map[]
    ensures exists m :: IsMax(h, m)
    decreases |h|
  {
    var v :| v in h;
    var rest := h - {v};
    assert |rest| < |h| by {
      assert rest.Keys == h.Keys - {v};
    }
    if rest == map[] {
      assert forall w <- h :: w == v || w in rest;
      assert IsMax(h, v);
    } else {
      MaxExists(rest);
      var m :| IsMax(rest, m);
      assert forall w <- h :: w == v || w in rest;
      assert IsMax(h, if v > m then v else m);
    }
  }

  ghost function MaxVersion(h: Hash): (m: nat)
    requires h != map[]
    ensures IsMax(h, m)
  {
    MaxExists(h);
    var m :| IsMax(h, m);
    m
  }

  /** What a client should see for a key: the data of its newest version, or nothing. */
  ghost function Newest(db: Hashes, k: Key): Bytes {
    var h := Versions(db, k);
    if h == map[] then [] else h[MaxVersion(h)]
  }

  /** HSETNX: writes the version only if it is not there yet. */
  function SetIfAbsent(db: Hashes, k: Key, v: nat, d: Bytes): Hashes {
    if v in Versions(db, k) then db else db[k := Versions(db, k)[v := d]]
  }

  /** The version a read leaves in currv. */
  ghost function VersionRead(db: Hashes, k: Key, currv: nat): nat {
    var h := Versions(db, k);
    if h == map[] then currv else MaxVersion(h)
  }

  ghost predicate HoldsOnly(h: Hash, v: nat, d: Bytes) {
    h == map[v := d]
  }

  ghost predicate HoldsOneVersion(h: Hash, d: Bytes) {
    exists v: nat :: HoldsOnly(h, v, d)
  }

  lemma NewestOfOne(h: Hash, v: nat, d: Bytes)
    requires HoldsOnly(h, v, d)
    ensures v in h && MaxVersion(h) == v
  {
    assert v in h;
  }

  /** Version 0 is the only one in use. */
  ghost predicate AllZero(db: Hashes) {
    forall k, v | v in Versions(db, k) :: v == 0
  }
}
