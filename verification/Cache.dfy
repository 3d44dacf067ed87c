/** The bounded cache in front of the store. Which entries an overflowing set drops is left open. */
module Cache {
  import opened Wire
  import opened Store

  const MAX_SIZE := 100
  const CLEAR_SIZE := 10

  type Entries = map<Key, Bytes>

  /** An absent key reads as the empty string. */
  function Lookup(c: Entries, k: Key): Bytes {
    if k in c then c[k] else []
  }

  /** The new entry is there; of the others some may be gone, the rest are as they were. */
  ghost predicate IsSet(c: Entries, k: Key, d: Bytes, c': Entries) {
    && k in c' && c'[k] == d && |c'| <= MAX_SIZE
    && forall x <- c' :: x == k || (x in c && c'[x] == c[x])
  }

  class CacheSpace {
    var cacheMap: Entries

    ghost predicate Valid()
      reads this
    {
      |cacheMap| <= MAX_SIZE
    }

    constructor ()
      ensures Valid() && cacheMap == map[]
    {
      cacheMap := map[];
    }

    method Set(k: Key, v: Bytes) returns (ok: bool)
      requires Valid()
      modifies this
      ensures Valid() && ok && IsSet(old(cacheMap), k, v, cacheMap)
      ensures |cacheMap| <= 100
      ensures |old(cacheMap)[k := v]| <= 100 ==> cacheMap == old(cacheMap)[k := v]
      ensures |old(cacheMap)[k := v]| > 100 ==> |cacheMap| >= |old(cacheMap)[k := v]| - 10
    {
      cacheMap := cacheMap[k := v];
      if |cacheMap| > MAX_SIZE {
        var cleared := 0;
        while cleared < CLEAR_SIZE
          invariant 0 <= cleared <= CLEAR_SIZE && |cacheMap| <= MAX_SIZE + 1 - cleared
          invariant |cacheMap| >= |old(cacheMap)[k := v]| - cleared
          invariant k in cacheMap && cacheMap[k] == v
          invariant forall x <- cacheMap :: x == k || (x in old(cacheMap) && cacheMap[x] == old(cacheMap)[x])
        {
          var others := cacheMap.Keys - {k};
          assert |others| == |cacheMap| - 1;
          var x :| x in others;
          assert (cacheMap - {x}).Keys == cacheMap.Keys - {x};
          cacheMap := cacheMap - {x};
          cleared := cleared + 1;
        }
      }
      ok := true;
    }

    method Get(k: Key) returns (ret: Bytes)
      ensures ret == Lookup(cacheMap, k) == if k in cacheMap then cacheMap[k] else []
    {
      ret := [];
      if k in cacheMap {
        ret := cacheMap[k];
      }
    }

    method Del(k: Key)
      requires Valid()
      modifies this
      ensures Valid() && cacheMap == old(cacheMap) - {k}
    {
      assert (cacheMap - {k}).Keys == cacheMap.Keys - {k};
      cacheMap := cacheMap - {k};
    }
  }
}
