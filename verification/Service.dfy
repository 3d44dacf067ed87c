/** The request handler: Pull reads through the cache, Push writes the store, DelCache invalidates. */
module Service {
  import opened Wire
  import opened Codec
  import opened Store
  import opened Cache
  import opened RedisDB
  import opened InOut
  import opened PushBatch
  import M = Messages

  function TypeOfUrl(url: string): MsgType {
    if url == "/pull" then Pull
    else if url == "/push" then Push
    else if url == "/delcache" then DelCache
    else Unknow
  }

  /** A non-empty cached value is what the store would answer; an empty one is a miss anyway. */
  ghost predicate Coherent(c: Entries, db: Hashes) {
    forall k <- c :: c[k] == [] || c[k] == Newest(db, k)
  }

  function KeySet(infos: seq<DataInfo>): set<Key> {
    set info | info in infos :: info.id
  }

  lemma KeySetOneMore(infos: seq<DataInfo>, i: nat)
    requires i < |infos|
    ensures KeySet(infos[..i + 1]) == KeySet(infos[..i]) + {infos[i].id}
  {
    assert infos[..i + 1] == infos[..i] + [infos[i]];
  }

  lemma KeySetNone()
    ensures KeySet([]) == {}
  {
  }

  lemma Without(c: Entries, db: Hashes, gone: set<Key>, k: Key)
    requires Coherent(c, db)
    ensures c - gone - {k} == c - (gone + {k})
    ensures Coherent(c - (gone + {k}), db)
  {
  }

  /** A Pull leaves old entries and fills in keys it was asked for. */
  ghost predicate FilledFor(c: Entries, db: Hashes, infos: seq<DataInfo>, c': Entries) {
    forall k <- c' :: (k in c && c'[k] == c[k]) || (k in KeySet(infos) && c'[k] == Newest(db, k))
  }

  /** Filling in newest data of a key that was asked for keeps the cache right, whatever is evicted. */
  lemma FillKeeps(c0: Entries, c: Entries, db: Hashes, infos: seq<DataInfo>, i: nat, c': Entries)
    requires i < |infos| && Coherent(c, db) && FilledFor(c0, db, infos, c)
    requires IsSet(c, infos[i].id, Newest(db, infos[i].id), c')
    ensures Coherent(c', db) && FilledFor(c0, db, infos, c') && Lookup(c', infos[i].id) == Newest(db, infos[i].id)
  {
    assert infos[i] in infos;
  }

  lemma FilledAtFirst(c: Entries, db: Hashes, infos: seq<DataInfo>)
    ensures FilledFor(c, db, infos, c)
  {
  }

  lemma HitIsNewest(c: Entries, db: Hashes, k: Key)
    requires Coherent(c, db)
    ensures Lookup(c, k) == [] || Lookup(c, k) == Newest(db, k)
  {
  }

  // ---------------------------------------------------------------- The service without a cache

  ghost function Pulled(db: Hashes, infos: seq<DataInfo>): (r: seq<DataInfo>)
    ensures |r| == |infos|
  {
    seq(|infos|, i requires 0 <= i < |infos| => DataInfo(infos[i].id, Newest(db, infos[i].id)))
  }

  /** A Pull under way: the first entries have their data. */
  ghost function PulledUpTo(db: Hashes, infos: seq<DataInfo>, i: nat): (r: seq<DataInfo>)
    requires i <= |infos|
    ensures |r| == |infos|
  {
    Pulled(db, infos[..i]) + infos[i..]
  }

  lemma PulledOneMore(db: Hashes, infos: seq<DataInfo>, i: nat)
    requires i < |infos|
    ensures PulledUpTo(db, infos, i)[i] == infos[i]
    ensures PulledUpTo(db, infos, i + 1) ==
            PulledUpTo(db, infos, i)[i := DataInfo(infos[i].id, Newest(db, infos[i].id))]
  {
  }

  lemma PulledAll(db: Hashes, infos: seq<DataInfo>)
    ensures PulledUpTo(db, infos, 0) == infos && PulledUpTo(db, infos, |infos|) == Pulled(db, infos)
  {
    assert infos[..|infos|] == infos;
  }

  ghost function StoreAfter(db: Hashes, t: MsgType, infos: seq<DataInfo>): Hashes {
    if t == Push then PushAll(db, 0, infos) else db
  }

  /** The bodies sent back. A Push runs on into the invalidation case and replies a second time. */
  ghost function Replies(db: Hashes, t: MsgType, infos: seq<DataInfo>): seq<Bytes> {
    match t
    case Pull => [Reply(Pull, Pulled(db, infos), 0)]
    case Push => [Reply(Push, infos, 0), Reply(Push, infos, 0)]
    case DelCache => [Reply(DelCache, infos, 0)]
    case Unknow => [Reply(Unknow, infos, 1)]
  }

  datatype Request = Request(url: string, body: Bytes)

  /** What each request was taken to ask for is something its body may decode to. */
  ghost predicate AllDecode(requests: seq<Request>, asked: seq<seq<DataInfo>>) {
    && |asked| == |requests|
    && forall i | 0 <= i < |requests| :: Decodes(TypeOfUrl(requests[i].url), requests[i].body, asked[i])
  }

  ghost function AllReplies(db: Hashes, requests: seq<Request>, asked: seq<seq<DataInfo>>): seq<seq<Bytes>>
    requires |asked| == |requests|
    decreases |requests|
  {
    if requests == [] then []
    else
      var t := TypeOfUrl(requests[0].url);
      [Replies(db, t, asked[0])] + AllReplies(StoreAfter(db, t, asked[0]), requests[1..], asked[1..])
  }

  lemma {:induction false} AllRepliesSnoc(db: Hashes, requests: seq<Request>, asked: seq<seq<DataInfo>>,
                                          request: Request, infos: seq<DataInfo>)
    requires |asked| == |requests|
    ensures var t, after := TypeOfUrl(request.url), StoreAfterAll(db, requests, asked);
      && StoreAfterAll(db, requests + [request], asked + [infos]) == StoreAfter(after, t, infos)
      && AllReplies(db, requests + [request], asked + [infos]) ==
         AllReplies(db, requests, asked) + [Replies(after, t, infos)]
    decreases |requests|
  {
    hide Replies, StoreAfter;
    if requests == [] {
      assert requests + [request] == [request] && asked + [infos] == [infos];
    } else {
      assert (requests + [request])[1..] == requests[1..] + [request] && (asked + [infos])[1..] == asked[1..] + [infos];
      AllRepliesSnoc(StoreAfter(db, TypeOfUrl(requests[0].url), asked[0]), requests[1..], asked[1..], request, infos);
    }
  }

  ghost function StoreAfterAll(db: Hashes, requests: seq<Request>, asked: seq<seq<DataInfo>>): Hashes
    requires |asked| == |requests|
    decreases |requests|
  {
    if requests == [] then db
    else StoreAfterAll(StoreAfter(db, TypeOfUrl(requests[0].url), asked[0]), requests[1..], asked[1..])
  }

  /** Writing into the store cannot make a cached value wrong: only keys that read as empty change. */
  lemma PushKeepsCoherent(c: Entries, db: Hashes, currv: nat, infos: seq<DataInfo>)
    requires Coherent(c, db)
    ensures Coherent(c, PushAll(db, currv, infos))
  {
    forall k | k in c
      ensures c[k] == [] || c[k] == Newest(PushAll(db, currv, infos), k)
    {
      PushNewest(db, currv, infos, k);
    }
  }

  class FsService {
    const cache: CacheSpace
    const dbinst: DBInst

    ghost predicate Valid()
      reads this, cache, dbinst
    {
      cache.Valid() && Coherent(cache.cacheMap, dbinst.db)
    }

    constructor ()
      ensures Valid() && dbinst.db == map[] && fresh(cache) && fresh(dbinst)
    {
      cache := new CacheSpace();
      dbinst := new DBInst();
    }

    /**
     Handles one body. The replies and the store are those of the service without a cache, for something the
     body may decode to.
     */
    method OnBody(body: Bytes, reqType: MsgType) returns (replies: seq<Bytes>, ghost infos: seq<DataInfo>)
      requires Valid()
      modifies cache, dbinst
      ensures Valid()
      ensures Decodes(reqType, body, infos)
      ensures replies == Replies(old(dbinst.db), reqType, infos)
      ensures dbinst.db == StoreAfter(old(dbinst.db), reqType, infos)
      ensures reqType == Push || reqType == DelCache ==> cache.cacheMap == old(cache.cacheMap) - KeySet(infos)
      ensures reqType == Pull ==> FilledFor(old(cache.cacheMap), old(dbinst.db), infos, cache.cacheMap)
      ensures reqType == Unknow ==> cache.cacheMap == old(cache.cacheMap)
      ensures reqType == Push ==> replies == [[], []]
      ensures reqType == DelCache || reqType == Unknow ==> replies == [[]]
      ensures reqType == Pull && infos != [] ==>
                Lookup(cache.cacheMap, infos[|infos| - 1].id) == Newest(old(dbinst.db), infos[|infos| - 1].id)
    {
      hide Decodes, Reply, PushAll, Newest, Fills, Coherent, KeySet, FilledFor, Pulled;
      var msg := new InOutMsg(body, reqType);
      infos := msg.infos;
      ReplyBytes(reqType, infos, if reqType == Unknow then 1 else 0);
      replies := [];
      if reqType == Unknow {
        var rsp := msg.EncodeRsp(1);
        replies := [rsp];
        return;
      }
      match reqType {
        case Pull =>
          replies := DoPull(msg);
        case Push =>
          replies := DoPush(msg);
          // No break here: the pushed keys are now invalidated as well.
          var more := DoDelCache(msg);
          replies := replies + more;
        case DelCache =>
          replies := DoDelCache(msg);
        case Unknow =>
      }
    }

    method DoPull(msg: InOutMsg) returns (replies: seq<Bytes>)
      requires Valid()
      modifies cache, msg`infos
      ensures Valid()
      ensures replies == [Reply(msg.t, Pulled(dbinst.db, old(msg.infos)), 0)]
      ensures FilledFor(old(cache.cacheMap), dbinst.db, old(msg.infos), cache.cacheMap)
      ensures var infos := old(msg.infos);
        infos != [] ==> Lookup(cache.cacheMap, infos[|infos| - 1].id) == Newest(dbinst.db, infos[|infos| - 1].id)
    {
      hide Reply, Newest, PulledUpTo, Pulled, Coherent, FilledFor, IsSet, Lookup;
      FilledAtFirst(cache.cacheMap, dbinst.db, msg.infos);
      PulledAll(dbinst.db, msg.infos);
      var keys := msg.GetPullIds();
      var currv := 0;
      var i, n := 0, |keys|;
      while i < n
        invariant 0 <= i <= n == |msg.infos| && Valid()
        invariant msg.infos == PulledUpTo(dbinst.db, old(msg.infos), i)
        invariant FilledFor(old(cache.cacheMap), dbinst.db, old(msg.infos), cache.cacheMap)
        invariant i > 0 ==> Lookup(cache.cacheMap, keys[i - 1]) == Newest(dbinst.db, keys[i - 1])
      {
        var k := keys[i];
        assert old(msg.infos)[i].id == k;
        ghost var c := cache.cacheMap;
        HitIsNewest(c, dbinst.db, k);
        var d := cache.Get(k);
        if d == [] {
          d, currv := dbinst.Get(k, currv);
          var _ := cache.Set(k, d);
          FillKeeps(old(cache.cacheMap), c, dbinst.db, old(msg.infos), i, cache.cacheMap);
        }
        PulledOneMore(dbinst.db, old(msg.infos), i);
        msg.SetPullData(i, d);
        i := i + 1;
      }
      var rsp := msg.EncodeRsp(0);
      PulledAll(dbinst.db, old(msg.infos));
      replies := [rsp];
    }

    method DoPush(msg: InOutMsg) returns (replies: seq<Bytes>)
      requires Valid()
      modifies dbinst
      ensures Valid()
      ensures replies == [Reply(msg.t, msg.infos, 0)]
      ensures dbinst.db == PushAll(old(dbinst.db), 0, msg.infos)
    {
      var currv := 0;
      var i, n := 0, |msg.infos|;
      while i < n
        invariant 0 <= i <= n == |msg.infos|
        invariant PushAll(dbinst.db, currv, msg.infos[i..]) == PushAll(old(dbinst.db), 0, msg.infos)
      {
        var kv := msg.infos[i];
        var d;
        d, currv := dbinst.Get(kv.id, currv);
        d := d + kv.d;
        var setRet := dbinst.Set(kv.id, d, currv);
        i := i + 1;
      }
      PushKeepsCoherent(cache.cacheMap, old(dbinst.db), 0, msg.infos);
      var rsp := msg.EncodeRsp(0);
      replies := [rsp];
    }

    method DoDelCache(msg: InOutMsg) returns (replies: seq<Bytes>)
      requires Valid()
      modifies cache
      ensures Valid()
      ensures replies == [Reply(msg.t, msg.infos, 0)]
      ensures cache.cacheMap == old(cache.cacheMap) - KeySet(msg.infos)
    {
      hide Coherent, KeySet, Reply;
      KeySetNone();
      var keys := msg.GetPullIds();
      for i := 0 to |keys|
        invariant Valid()
        invariant cache.cacheMap == old(cache.cacheMap) - KeySet(msg.infos[..i])
      {
        KeySetOneMore(msg.infos, i);
        Without(old(cache.cacheMap), dbinst.db, KeySet(msg.infos[..i]), keys[i]);
        cache.Del(keys[i]);
      }
      assert msg.infos[..|keys|] == msg.infos;
      var rsp := msg.EncodeRsp(0);
      replies := [rsp];
    }

    /** Handles one request: the handler is picked by the URL, and gets the body. */
    method Handle(request: Request) returns (replies: seq<Bytes>, ghost infos: seq<DataInfo>)
      requires Valid()
      modifies cache, dbinst
      ensures Valid()
      ensures Decodes(TypeOfUrl(request.url), request.body, infos)
      ensures replies == Replies(old(dbinst.db), TypeOfUrl(request.url), infos)
      ensures dbinst.db == StoreAfter(old(dbinst.db), TypeOfUrl(request.url), infos)
      ensures request.url == "/pull" ==>
                && Decodes(Pull, request.body, infos) && dbinst.db == old(dbinst.db)
                && replies == [Reply(Pull, Pulled(old(dbinst.db), infos), 0)]
                && FilledFor(old(cache.cacheMap), old(dbinst.db), infos, cache.cacheMap)
                && (infos != [] ==> var k := infos[|infos| - 1].id;
                                    Lookup(cache.cacheMap, k) == Newest(old(dbinst.db), k))
      ensures request.url == "/push" ==>
                && Decodes(Push, request.body, infos) && dbinst.db == PushAll(old(dbinst.db), 0, infos)
                && replies == [[], []] && cache.cacheMap == old(cache.cacheMap) - KeySet(infos)
      ensures request.url == "/delcache" ==>
                && Decodes(DelCache, request.body, infos) && dbinst.db == old(dbinst.db)
                && replies == [[]] && cache.cacheMap == old(cache.cacheMap) - KeySet(infos)
      ensures request.url != "/pull" && request.url != "/push" && request.url != "/delcache" ==>
                replies == [[]] && dbinst.db == old(dbinst.db) && cache.cacheMap == old(cache.cacheMap)
    {
      hide Decodes, Reply, PushAll, Newest, Coherent, KeySet, FilledFor, Pulled;
      replies, infos := OnBody(request.body, TypeOfUrl(request.url));
    }

    /** Any sequence of whole requests is answered as by the service without a cache. */
    method Serve(requests: seq<Request>) returns (all: seq<seq<Bytes>>, ghost asked: seq<seq<DataInfo>>)
      requires Valid()
      modifies cache, dbinst
      ensures Valid()
      ensures AllDecode(requests, asked)
      ensures all == AllReplies(old(dbinst.db), requests, asked)
      ensures dbinst.db == StoreAfterAll(old(dbinst.db), requests, asked)
    {
      hide Decodes, Replies, StoreAfter, Coherent, KeySet, FilledFor;
      all, asked := [], [];
      for i := 0 to |requests|
        invariant Valid()
        invariant AllDecode(requests[..i], asked)
        invariant all == AllReplies(old(dbinst.db), requests[..i], asked)
        invariant dbinst.db == StoreAfterAll(old(dbinst.db), requests[..i], asked)
      {
        ghost var infos;
        var replies;
        replies, infos := Handle(requests[i]);
        AllRepliesSnoc(old(dbinst.db), requests[..i], asked, requests[i], infos);
        assert requests[..i + 1] == requests[..i] + [requests[i]];
        all, asked := all + [replies], asked + [infos];
      }
      assert requests[..|requests|] == requests;
    }
  }
}
