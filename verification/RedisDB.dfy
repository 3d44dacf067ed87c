/** One connection to the versioned store. Every connection reaches the same store. */
module RedisDB {
  import opened Wire
  import opened Store

  datatype Element = VersionName(v: nat) | Data(d: Bytes)

  ghost function Flat(order: seq<nat>, h: Hash): seq<Element>
    requires forall v <- order :: v in h
  {
    if order == [] then []
    else
      var last := order[|order| - 1];
      Flat(order[..|order| - 1], h) + [VersionName(last), Data(h[last])]
  }

  lemma {:induction false} FlatAt(order: seq<nat>, h: Hash)
    requires forall v <- order :: v in h
    ensures |Flat(order, h)| == 2 * |order|
    ensures forall j | 0 <= j < |order| ::
              Flat(order, h)[2 * j] == VersionName(order[j]) && Flat(order, h)[2 * j + 1] == Data(h[order[j]])
  {
    if order != [] {
      FlatAt(order[..|order| - 1], h);
    }
  }

  /** The versions of a hash listed in some order. */
  ghost predicate Lists(order: seq<nat>, h: Hash) {
    (forall v <- order :: v in h) && (forall v <- h :: v in order)
  }

  /** A reply to HGETALL: each version followed by its data, in any order. */
  ghost predicate IsReply(reply: seq<Element>, h: Hash) {
    exists order :: Lists(order, h) && reply == Flat(order, h)
  }

  class DBInst {
    var db: Hashes

    constructor ()
      ensures db == map[]
    {
      db := map[];
    }

    method HGetAll(k: Key) returns (reply: seq<Element>)
      ensures IsReply(reply, Versions(db, k))
    {
      var h := Versions(db, k);
      var todo := h.Keys;
      ghost var order := [];
      reply := [];
      while todo != {}
        invariant todo <= h.Keys
        invariant (forall v <- order :: v in h) && (forall v <- h :: v in order || v in todo)
        invariant reply == Flat(order, h)
      {
        var v :| v in todo;
        reply := reply + [VersionName(v), Data(h[v])];
        ghost var longer := order + [v];
        assert longer[..|longer| - 1] == order;
        assert forall w <- order :: w in longer;
        order := longer;
        todo := todo - {v};
      }
      assert Lists(order, h);
    }

    /** HSETNX. */
    method HSetNX(k: Key, v: nat, d: Bytes) returns (written: int)
      modifies this
      ensures db == SetIfAbsent(old(db), k, v, d)
      ensures written == if v in Versions(old(db), k) then 0 else 1
    {
      written := if v in Versions(db, k) then 0 else 1;
      if written == 1 {
        db := db[k := Versions(db, k)[v := d]];
      }
    }

    /** The data of the newest version, whatever the order of the reply; currv is kept for an absent key. */
    method Get(k: Key, currv0: nat) returns (ret: Bytes, currv: nat)
      ensures ret == Newest(db, k)
      ensures currv == VersionRead(db, k, currv0)
      ensures var h := Versions(db, k);
        if h == map[] then ret == [] && currv == currv0
        else currv in h && (forall v <- h :: v <= currv) && ret == h[currv]
    {
      hide Flat;
      ret, currv := [], currv0;
      var reply := HGetAll(k);
      ghost var h := Versions(db, k);
      ghost var order :| Lists(order, h) && reply == Flat(order, h);
      FlatAt(order, h);
      if |reply| > 1 && |reply| % 2 == 0 {
        var maxv, maxi, i := 0, 0, 0;
        ghost var at, next := 0, 0;
        while i < |reply|
          invariant i == 2 * next && next <= |order|
          invariant maxi == 2 * at && at < |order|
          invariant if next == 0 then maxv == at == 0 else order[at] == maxv
          invariant forall e | 0 <= e < next :: order[e] <= maxv
          decreases |reply| - i
        {
          assert reply[2 * next] == VersionName(order[next]);
          var tmpv := reply[i].v;
          if tmpv > maxv {
            maxv := tmpv;
            maxi := i;
            at := next;
          }
          i := i + 2;
          next := next + 1;
        }
        currv := maxv;
        maxi := maxi + 1;
        assert reply[2 * at + 1] == Data(h[order[at]]);
        ret := reply[maxi].d;
        assert IsMax(h, maxv);
      } else {
        assert order == [];
        assert h == map[];
      }
    }

    method Set(k: Key, v: Bytes, currv: nat) returns (ret: bool)
      modifies this
      ensures db == SetIfAbsent(old(db), k, currv, v)
      ensures ret <==> currv !in Versions(old(db), k)
      ensures Versions(db, k) == if ret then Versions(old(db), k)[currv := v] else Versions(old(db), k)
      ensures forall x | x != k :: Versions(db, x) == Versions(old(db), x)
    {
      var reply := HSetNX(k, currv, v);
      ret := reply == 1;
    }
  }
}
