/** What a batch of pushed entries does to the store. */
module PushBatch {
  import opened Wire
  import opened Store
  import opened InOut

  /** One turn of a Push: read, append, write at the version just read. */
  ghost function PushOne(db: Hashes, currv: nat, kv: DataInfo): Hashes {
    SetIfAbsent(db, kv.id, VersionRead(db, kv.id, currv), Newest(db, kv.id) + kv.d)
  }

  ghost function PushAll(db: Hashes, currv: nat, infos: seq<DataInfo>): Hashes
    decreases |infos|
  {
    if infos == [] then db
    else PushAll(PushOne(db, currv, infos[0]), VersionRead(db, infos[0].id, currv), infos[1..])
  }

  predicate Mentions(infos: seq<DataInfo>, k: Key) {
    exists i | 0 <= i < |infos| :: infos[i].id == k
  }

  function FirstData(infos: seq<DataInfo>, k: Key): Bytes
    requires Mentions(infos, k)
  {
    if infos[0].id == k then infos[0].d else FirstData(infos[1..], k)
  }

  lemma PushOneEffect(db: Hashes, currv: nat, kv: DataInfo, k: Key)
    ensures var h := Versions(db, k);
      Versions(PushOne(db, currv, kv), k) == if h == map[] && kv.id == k then map[currv := kv.d] else h
  {
    assert [] + kv.d == kv.d;
  }

  /**
   A batch leaves every key that has data as it was and gives each other key it names exactly one
   version, holding the data of the key's first occurrence.
   */
  lemma {:induction false} PushEffect(db: Hashes, currv: nat, infos: seq<DataInfo>, k: Key)
    ensures var h, h' := Versions(db, k), Versions(PushAll(db, currv, infos), k);
      if h != map[] then h' == h
      else if Mentions(infos, k) then HoldsOneVersion(h', FirstData(infos, k))
      else h' == map[]
    decreases |infos|
  {
    if infos != [] {
      var db', v := PushOne(db, currv, infos[0]), VersionRead(db, infos[0].id, currv);
      PushOneEffect(db, currv, infos[0], k);
      MentionsTail(infos, k);
      PushEffect(db', v, infos[1..], k);
      if Versions(db, k) == map[] && infos[0].id == k {
        assert HoldsOnly(Versions(db', k), currv, infos[0].d);
      }
    }
  }

  lemma MentionsTail(infos: seq<DataInfo>, k: Key)
    requires infos != []
    ensures Mentions(infos, k) <==> infos[0].id == k || Mentions(infos[1..], k)
  {
    if Mentions(infos, k) && infos[0].id != k {
      var i :| 0 <= i < |infos| && infos[i].id == k;
      assert infos[1..][i - 1].id == k;
    } else if Mentions(infos[1..], k) {
      var i :| 0 <= i < |infos[1..]| && infos[1..][i].id == k;
      assert infos[i + 1].id == k;
    }
  }

  /** What a reader sees of a key after a batch. */
  lemma PushNewest(db: Hashes, currv: nat, infos: seq<DataInfo>, k: Key)
    ensures Newest(PushAll(db, currv, infos), k) ==
            if Versions(db, k) == map[] && Mentions(infos, k) then FirstData(infos, k) else Newest(db, k)
  {
    PushEffect(db, currv, infos, k);
    if Versions(db, k) == map[] && Mentions(infos, k) {
      var v: nat :| HoldsOnly(Versions(PushAll(db, currv, infos), k), v, FirstData(infos, k));
      NewestOfOne(Versions(PushAll(db, currv, infos), k), v, FirstData(infos, k));
    }
  }

  /**
   The version a fresh key gets: currv for the first entry, else the newest version of the key of the
   entry just before it, which need not be 0.
   */
  lemma {:induction false} PushVersion(db: Hashes, currv: nat, infos: seq<DataInfo>, i: nat)
    requires i < |infos| && Versions(db, infos[i].id) == map[]
    requires forall j | 0 <= j < i :: infos[j].id != infos[i].id
    ensures var db' := PushAll(db, currv, infos);
      if i == 0 then HoldsOnly(Versions(db', infos[0].id), currv, infos[0].d)
      else Versions(db', infos[i - 1].id) != map[] &&
           HoldsOnly(Versions(db', infos[i].id), MaxVersion(Versions(db', infos[i - 1].id)), infos[i].d)
    decreases |infos|
  {
    var db1, v := PushOne(db, currv, infos[0]), VersionRead(db, infos[0].id, currv);
    PushOneEffect(db, currv, infos[0], infos[0].id);
    PushOneEffect(db, currv, infos[0], infos[i].id);
    PushEffect(db1, v, infos[1..], infos[0].id);
    if i > 0 {
      PushVersion(db1, v, infos[1..], i - 1);
      if Versions(db, infos[0].id) == map[] {
        NewestOfOne(Versions(db1, infos[0].id), currv, infos[0].d);
      }
    }
  }

  lemma {:induction false} PushKeepsZero(db: Hashes, infos: seq<DataInfo>)
    requires AllZero(db)
    ensures AllZero(PushAll(db, 0, infos))
    decreases |infos|
  {
    if infos != [] {
      var db' := PushOne(db, 0, infos[0]);
      assert VersionRead(db, infos[0].id, 0) == 0;
      forall k, v | v in Versions(db', k) ensures v == 0 {
        PushOneEffect(db, 0, infos[0], k);
      }
      PushKeepsZero(PushOne(db, 0, infos[0]), infos[1..]);
    }
  }

  /** Version 0 is the only one in use after a batch if and only if it was before. */
  lemma PushZeroExactly(db: Hashes, infos: seq<DataInfo>)
    ensures AllZero(PushAll(db, 0, infos)) <==> AllZero(db)
  {
    if AllZero(db) {
      PushKeepsZero(db, infos);
    } else {
      var k, v: nat :| v in Versions(db, k) && v != 0;
      PushEffect(db, 0, infos, k);
      assert v in Versions(PushAll(db, 0, infos), k);
    }
  }
}
