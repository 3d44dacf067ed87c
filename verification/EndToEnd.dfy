/** From the bytes a client sends to what it reads back, and to what the store and the cache hold then. */
module EndToEnd {
  import opened Wire
  import opened Codec
  import opened Store
  import opened Cache
  import opened InOut
  import opened PushBatch
  import opened Service
  import M = Messages
  import ServMsg

  ghost function Answers(db: Hashes, keys: seq<Key>): seq<Bytes> {
    seq(|keys|, i requires 0 <= i < |keys| => Newest(db, keys[i]))
  }

  /** The message a Pull reply should carry. */
  ghost function PullAnswer(db: Hashes, keys: seq<Key>): Msg<M.PullRsp> {
    Msg(M.PullRsp(0, [], Answers(db, keys)), [])
  }

  /** An encoded request is complete; a zero byte ends it whatever follows. */
  predicate Ends(tail: Bytes) {
    tail == [] || tail[0] == 0
  }

  lemma PullDecodes(req: Msg<M.PullReq>, tail: Bytes, infos: seq<DataInfo>)
    requires KeepsUnknown(M.PULL_REQ, req) && |Encode(M.PULL_REQ, req)| < TWO31 && Ends(tail)
    ensures Decodes(Pull, Encode(M.PULL_REQ, req) + tail, infos) <==> infos == Requested(req.known.keys)
  {
    hide Encode, Parse, Decodes;
    var body := Encode(M.PULL_REQ, req);
    M.PullReqCodecLaws(req, req, if tail == [] then [] else tail[1..]);
    assert if tail == [] then body + tail == body else body + tail == body + [0] + tail[1..];
    AsksExactlyWhenIntact(Pull, body + tail);
  }

  /**
   The reply to an encoded PullReq, also when a zero byte and anything else follow the request, parses to
   exactly one datum for each key, in request order, equal to the newest stored value or empty. A reply
   of 2 GiB or more is not sent at all.
   */
  lemma PullEndToEnd(db: Hashes, req: Msg<M.PullReq>, tail: Bytes, infos: seq<DataInfo>)
    requires KeepsUnknown(M.PULL_REQ, req) && |Encode(M.PULL_REQ, req)| < TWO31 && Ends(tail)
    requires Decodes(Pull, Encode(M.PULL_REQ, req) + tail, infos)
    ensures var answer := PullAnswer(db, req.known.keys);
      var replies := Replies(db, Pull, infos);
      && |replies| == 1
      && if |Encode(M.PULL_RSP, answer)| < TWO31
         then Parse(M.PULL_RSP, Empty(M.PULL_RSP), replies[0]) == (answer, Complete)
         else replies[0] == []
  {
    hide Encode, Parse, Decodes;
    PullDecodes(req, tail, infos);
    assert Datas(Pulled(db, Requested(req.known.keys))) == Answers(db, req.known.keys);
    var answer := PullAnswer(db, req.known.keys);
    if |Encode(M.PULL_RSP, answer)| < TWO31 {
      M.PullRspCodecLaws(answer, answer, []);
    }
  }

  /** A client's Pull: the request is printed, handled, and the reply is parsed. */
  method AskPull(service: FsService, req: ServMsg.PullReq, tail: Bytes) returns (sent: bool, rsp: ServMsg.PullRsp)
    requires service.Valid() && KeepsUnknown(M.PULL_REQ, req.Value()) && Ends(tail)
    modifies service.cache, service.dbinst, req
    ensures service.Valid() && service.dbinst.db == old(service.dbinst.db) && req.Value() == old(req.Value())
    ensures sent <==> |old(req.Printed())| < TWO31
    ensures var answer := PullAnswer(old(service.dbinst.db), old(req.keys));
      sent ==> rsp.Value() == if |Encode(M.PULL_RSP, answer)| < TWO31 then answer else Empty(M.PULL_RSP)
    ensures sent && |Encode(M.PULL_RSP, PullAnswer(old(service.dbinst.db), old(req.keys)))| < TWO31 ==>
              && rsp.errCode == 0 && rsp.errDesc == [] && |rsp.data| == |old(req.keys)|
              && forall i | 0 <= i < |rsp.data| :: rsp.data[i] == Newest(old(service.dbinst.db), old(req.keys)[i])
    ensures sent ==> forall k <- service.cache.cacheMap ::
              || (k in old(service.cache.cacheMap) && service.cache.cacheMap[k] == old(service.cache.cacheMap)[k])
              || (k in old(req.keys) && service.cache.cacheMap[k] == Newest(old(service.dbinst.db), k))
    ensures var keys := old(req.keys);
      sent && keys != [] ==>
        Lookup(service.cache.cacheMap, keys[|keys| - 1]) == Newest(old(service.dbinst.db), keys[|keys| - 1])
  {
    hide Encode, Parse, Decodes, Replies, FilledFor, KeySet, Coherent, Newest, Lookup;
    hide Answers, PullAnswer, Reply, Pulled;
    rsp := new ServMsg.PullRsp();
    ghost var db, cached, asked := service.dbinst.db, service.cache.cacheMap, req.Value();
    var body;
    sent, body := req.SerializeToString();
    if sent {
      ghost var infos;
      var replies;
      replies, infos := service.Handle(Request("/pull", body + tail));
      PullDecodes(asked, tail, infos);
      PullEndToEnd(db, asked, tail, infos);
      FilledForKeys(cached, db, asked.known.keys, service.cache.cacheMap);
      AnswerParts(db, asked.known.keys);
      ParseNothing(M.PULL_RSP, Empty(M.PULL_RSP));
      var _ := rsp.ParseFromString(replies[0]);
    }
  }

  lemma AnswerParts(db: Hashes, keys: seq<Key>)
    ensures var answer := PullAnswer(db, keys).known;
      && answer.errCode == 0 && answer.errDesc == [] && |answer.data| == |keys|
      && forall i | 0 <= i < |keys| :: answer.data[i] == Newest(db, keys[i])
  {
  }

  lemma FilledForKeys(c: Entries, db: Hashes, keys: seq<Key>, c': Entries)
    requires FilledFor(c, db, Requested(keys), c')
    ensures forall k <- c' :: (k in c && c'[k] == c[k]) || (k in keys && c'[k] == Newest(db, k))
  {
    hide Newest;
  }

  lemma PushDecodes(req: Msg<M.PushReq>, tail: Bytes, infos: seq<DataInfo>)
    requires M.ValidPushReq(req) && |Encode(M.PUSH_REQ, req)| < TWO31 && Ends(tail)
    ensures Decodes(Push, Encode(M.PUSH_REQ, req) + tail, infos) <==> infos == InfosOf(req.known.infos)
  {
    hide Encode, Parse, Decodes;
    var body := Encode(M.PUSH_REQ, req);
    M.PushReqCodecLaws(req, req, if tail == [] then [] else tail[1..]);
    assert if tail == [] then body + tail == body else body + tail == body + [0] + tail[1..];
    AsksExactlyWhenIntact(Push, body + tail);
  }

  /** What a batch does to a key: the first entry of the key counts, and only where there was no data yet. */
  lemma PushLands(db: Hashes, pushed: seq<Msg<M.OneInfo>>, k: Key)
    ensures var h, h' := Versions(db, k), Versions(PushAll(db, 0, InfosOf(pushed)), k);
      && (h != map[] ==> h' == h)
      && ((forall i | 0 <= i < |pushed| :: pushed[i].known.key != k) ==> h' == h)
      && (forall i | 0 <= i < |pushed| && pushed[i].known.key == k &&
                     (forall j | 0 <= j < i :: pushed[j].known.key != k) ::
            h == map[] ==> |h'| == 1 && forall v <- h' :: h'[v] == pushed[i].known.data)
  {
    var infos := InfosOf(pushed);
    PushEffect(db, 0, infos, k);
    forall i | 0 <= i < |pushed| && pushed[i].known.key == k && (forall j | 0 <= j < i :: pushed[j].known.key != k)
      ensures Mentions(infos, k) && FirstData(infos, k) == pushed[i].known.data
    {
      assert infos[i].id == k;
      FirstIs(infos, k, i);
    }
  }

  lemma {:induction false} FirstIs(infos: seq<DataInfo>, k: Key, i: nat)
    requires i < |infos| && infos[i].id == k && forall j | 0 <= j < i :: infos[j].id != k
    ensures Mentions(infos, k) && FirstData(infos, k) == infos[i].d
    decreases |infos|
  {
    if i > 0 {
      FirstIs(infos[1..], k, i - 1);
    }
  }

  lemma KeySetOfPushed(pushed: seq<Msg<M.OneInfo>>, k: Key)
    ensures k in KeySet(InfosOf(pushed)) <==> exists i | 0 <= i < |pushed| :: pushed[i].known.key == k
  {
    var infos := InfosOf(pushed);
    forall i | 0 <= i < |pushed| && pushed[i].known.key == k ensures k in KeySet(infos) {
      assert infos[i] in infos && infos[i].id == k;
    }
  }

  /** A client's Push: two empty bodies come back, each new key holds its first data, no pushed key is cached. */
  method AskPush(service: FsService, req: ServMsg.PushReq, tail: Bytes) returns (sent: bool, replies: seq<Bytes>)
    requires service.Valid() && M.ValidPushReq(req.Value()) && Ends(tail)
    modifies service.cache, service.dbinst, req, req.infos
    ensures service.Valid() && (sent <==> |old(req.Printed())| < TWO31)
    ensures sent ==> replies == [[], []]
    ensures var pushed := old(req.Value()).known.infos;
      sent ==> forall k ::
        var h, h' := Versions(old(service.dbinst.db), k), Versions(service.dbinst.db, k);
        && (h != map[] ==> h' == h)
        && ((forall i | 0 <= i < |pushed| :: pushed[i].known.key != k) ==> h' == h)
        && (forall i | 0 <= i < |pushed| && pushed[i].known.key == k &&
                       (forall j | 0 <= j < i :: pushed[j].known.key != k) ::
              h == map[] ==> |h'| == 1 && forall v <- h' :: h'[v] == pushed[i].known.data)
    ensures var pushed := old(req.Value()).known.infos;
      sent ==> forall k ::
        (k in service.cache.cacheMap <==>
           k in old(service.cache.cacheMap) && !exists i | 0 <= i < |pushed| :: pushed[i].known.key == k) &&
        (k in service.cache.cacheMap ==> service.cache.cacheMap[k] == old(service.cache.cacheMap)[k])
  {
    hide Encode, Parse, Decodes, Replies, KeySet, Coherent, PushAll, FilledFor, ServMsg.Values;
    ghost var db, asked := service.dbinst.db, req.Value();
    replies := [];
    var body;
    sent, body := req.SerializeToString();
    if sent {
      ghost var infos;
      replies, infos := service.Handle(Request("/push", body + tail));
      PushDecodes(asked, tail, infos);
      forall k {
        PushLands(db, asked.known.infos, k);
      }
      forall k {
        KeySetOfPushed(asked.known.infos, k);
      }
    }
  }

  lemma DelCacheDecodes(req: Msg<M.DelCacheReq>, tail: Bytes, infos: seq<DataInfo>)
    requires KeepsUnknown(M.DEL_CACHE_REQ, req) && |Encode(M.DEL_CACHE_REQ, req)| < TWO31 && Ends(tail)
    ensures Decodes(DelCache, Encode(M.DEL_CACHE_REQ, req) + tail, infos) <==> infos == [DataInfo(req.known.key, [])]
  {
    hide Encode, Parse, Decodes;
    var body := Encode(M.DEL_CACHE_REQ, req);
    M.DelCacheReqCodecLaws(req, req, if tail == [] then [] else tail[1..]);
    assert if tail == [] then body + tail == body else body + tail == body + [0] + tail[1..];
    AsksExactlyWhenIntact(DelCache, body + tail);
  }

  /** A client's DelCache: exactly the key leaves the cache, and one empty body comes back. */
  method AskDelCache(service: FsService, req: ServMsg.DelCacheReq, tail: Bytes)
    returns (sent: bool, replies: seq<Bytes>)
    requires service.Valid() && KeepsUnknown(M.DEL_CACHE_REQ, req.Value()) && Ends(tail)
    modifies service.cache, service.dbinst, req
    ensures service.Valid() && (sent <==> |old(req.Printed())| < TWO31)
    ensures service.dbinst.db == old(service.dbinst.db)
    ensures sent ==> replies == [[]] && service.cache.cacheMap == old(service.cache.cacheMap) - {old(req.key)}
  {
    hide Encode, Parse, Decodes, Replies, KeySet, Coherent, FilledFor;
    ghost var asked := req.Value();
    replies := [];
    var body;
    sent, body := req.SerializeToString();
    if sent {
      ghost var infos;
      replies, infos := service.Handle(Request("/delcache", body + tail));
      DelCacheDecodes(asked, tail, infos);
      KeySetOfOne(asked.known.key);
    }
  }

  lemma KeySetOfOne(k: Key)
    ensures KeySet([DataInfo(k, [])]) == {k}
  {
  }

  /** A Push followed by a Pull: pushed data appears exactly for the keys that had none. */
  lemma PushThenPull(db: Hashes, req: Msg<M.PushReq>, infos: seq<DataInfo>, keys: seq<Key>)
    requires M.ValidPushReq(req) && |Encode(M.PUSH_REQ, req)| < TWO31
    requires Decodes(Push, Encode(M.PUSH_REQ, req), infos)
    ensures infos == InfosOf(req.known.infos)
    ensures var after := Answers(StoreAfter(db, Push, infos), keys);
      forall i | 0 <= i < |keys| ::
        after[i] == if Versions(db, keys[i]) == map[] && Mentions(infos, keys[i]) then FirstData(infos, keys[i])
                    else Newest(db, keys[i])
  {
    hide Encode, Parse, Decodes;
    assert Encode(M.PUSH_REQ, req) + [] == Encode(M.PUSH_REQ, req);
    PushDecodes(req, [], infos);
    forall i | 0 <= i < |keys| {
      PushNewest(db, 0, infos, keys[i]);
    }
  }
}
