/** The request object of the service: decoded from a body, filled in, and encoded as a reply. */
module InOut {
  import opened Wire
  import opened Codec
  import opened Store
  import Layout
  import Output
  import M = Messages
  import ServMsg

  datatype DataInfo = DataInfo(id: Key, d: Bytes)

  datatype MsgType = Push | Pull | DelCache | Unknow

  function Ids(infos: seq<DataInfo>): (ks: seq<Key>)
    ensures |ks| == |infos|
  {
    seq(|infos|, i requires 0 <= i < |infos| => infos[i].id)
  }

  function InfosOf(infos: seq<Msg<M.OneInfo>>): (ds: seq<DataInfo>)
    ensures |ds| == |infos|
  {
    seq(|infos|, i requires 0 <= i < |infos| => DataInfo(infos[i].known.key, infos[i].known.data))
  }

  lemma InfosOfNone()
    ensures InfosOf([]) == []
  {
  }

  lemma InfosOfSnoc(infos: seq<Msg<M.OneInfo>>, i: nat)
    requires i < |infos|
    ensures InfosOf(infos[..i + 1]) == InfosOf(infos[..i]) + [DataInfo(infos[i].known.key, infos[i].known.data)]
  {
  }

  function Requested(keys: seq<Key>): (ds: seq<DataInfo>)
    ensures |ds| == |keys|
  {
    seq(|keys|, i requires 0 <= i < |keys| => DataInfo(keys[i], []))
  }

  function Datas(infos: seq<DataInfo>): (ds: seq<Bytes>)
    ensures |ds| == |infos|
  {
    seq(|infos|, i requires 0 <= i < |infos| => infos[i].d)
  }

  /** A message object after the bytes were parsed into it, whatever the parse result. */
  ghost predicate ParsesTo<K>(s: Schema<K>, body: Bytes, m: Msg<K>) {
    Leaves(s, Parse(s, Empty(s), body), m)
  }

  /** What a body asks for: the entries of whatever is in the message, even when the parse stopped early or failed. */
  ghost predicate Decodes(t: MsgType, body: Bytes, infos: seq<DataInfo>) {
    match t
    case Push => exists m :: ParsesTo(M.PUSH_REQ, body, m) && infos == InfosOf(m.known.infos)
    case Pull => exists m :: ParsesTo(M.PULL_REQ, body, m) && infos == Requested(m.known.keys)
    case DelCache => exists m :: ParsesTo(M.DEL_CACHE_REQ, body, m) && infos == [DataInfo(m.known.key, [])]
    case Unknow => infos == []
  }

  /** The entries of a request object and its fields come from one and the same message. */
  ghost predicate Fills(t: MsgType, body: Bytes, infos: seq<DataInfo>, fields: set<uint32>) {
    if t == Pull then
      exists m :: ParsesTo(M.PULL_REQ, body, m) && infos == Requested(m.known.keys) && fields == SetOf(m.known.field)
    else
      Decodes(t, body, infos) && fields == {}
  }

  // ---------------------------------------------------------------- Damaged bodies

  /** The entries of the fields read whole, and of no others. */
  function Decode(t: MsgType, body: Bytes): seq<DataInfo> {
    match t
    case Push => InfosOf(Parse(M.PUSH_REQ, Empty(M.PUSH_REQ), body).0.known.infos)
    case Pull => Requested(Parse(M.PULL_REQ, Empty(M.PULL_REQ), body).0.known.keys)
    case DelCache => [DataInfo(Parse(M.DEL_CACHE_REQ, Empty(M.DEL_CACHE_REQ), body).0.known.key, [])]
    case Unknow => []
  }

  /** The parse did not fail at a field the entries come from. */
  predicate EntriesIntact(t: MsgType, body: Bytes) {
    match t
    case Push => PushIntact(Parse(M.PUSH_REQ, Empty(M.PUSH_REQ), body).1)
    case Pull => PullIntact(Parse(M.PULL_REQ, Empty(M.PULL_REQ), body).1)
    case DelCache => DelCacheIntact(Parse(M.DEL_CACHE_REQ, Empty(M.DEL_CACHE_REQ), body).1)
    case Unknow => true
  }

  predicate PushIntact(v: Verdict) {
    match v
    case Failed(Unreadable(tag, _)) => tag != 10
    case Failed(Refused(_)) => false
    case Failed(NoTag(at)) => !MayBe(at, 10)
    case _ => true
  }

  /** A failure in the list of fields does no harm to the keys. */
  predicate PullIntact(v: Verdict) {
    match v
    case Failed(Unreadable(tag, _)) => tag != 8 && tag != 10
    case Failed(Refused(f)) => f.num != 1
    case Failed(NoTag(at)) => !MayBe(at, 8) && !MayBe(at, 10)
    case _ => true
  }

  predicate DelCacheIntact(v: Verdict) {
    match v
    case Failed(Unreadable(tag, _)) => tag != 8
    case Failed(NoTag(at)) => !MayBe(at, 8)
    case _ => true
  }

  /** A body asks for exactly the entries of the fields read whole. */
  ghost predicate AsksExactly(t: MsgType, body: Bytes) {
    forall infos :: Decodes(t, body, infos) <==> infos == Decode(t, body)
  }

  lemma PushAsksExactly(body: Bytes)
    ensures AsksExactly(Push, body) <==> EntriesIntact(Push, body)
  {
    hide Parse, AbsorbAll;
    var parsed := Parse(M.PUSH_REQ, Empty(M.PUSH_REQ), body);
    if PushIntact(parsed.1) {
      assert ParsesTo(M.PUSH_REQ, body, parsed.0);
    } else if parsed.1.cause.NoTag? {
      var more := parsed.0.(known := M.PushReq(parsed.0.known.infos + [Empty(M.ONE_INFO)]));
      assert ParsesTo(M.PUSH_REQ, body, more);
      assert Decodes(Push, body, InfosOf(more.known.infos));
    } else {
      assert !Decodes(Push, body, Decode(Push, body));
    }
  }

  /** A message a Pull body may be parsed to, chosen to hold more keys than were read whole where that can be. */
  function PullWitness(m: Msg<M.PullReq>, v: Verdict): Msg<M.PullReq> {
    var k := m.known;
    match v
    case Failed(Unreadable(tag, _)) =>
      if tag == 8 || tag == 10 then m.(known := k.(keys := k.keys + [0]))
      else if tag == 16 || tag == 18 then m.(known := k.(field := k.field + [0]))
      else m
    case Failed(Refused(Field(num, Len(bs)))) =>
      var vs := M.Unpack(bs).0;
      m.(known := if num == 1 then k.(keys := k.keys + vs + [0]) else k.(field := k.field + M.Narrow(vs)))
    case Failed(NoTag(at)) =>
      if MayBe(at, 8) || MayBe(at, 10) then m.(known := k.(keys := k.keys + [0])) else m
    case _ => m
  }

  lemma PullWitnessLeft(m: Msg<M.PullReq>, v: Verdict)
    requires v.Failed? && v.cause.Refused? ==> v.cause.field.payload.Len?
    ensures var m' := PullWitness(m, v);
      Leaves(M.PULL_REQ, (m, v), m') && (!PullIntact(v) ==> |m'.known.keys| > |m.known.keys|)
  {
    hide M.Unpack, Begins;
  }

  lemma PullKeysCertain(m: Msg<M.PullReq>, v: Verdict, m': Msg<M.PullReq>)
    requires PullIntact(v) && Leaves(M.PULL_REQ, (m, v), m')
    ensures m'.known.keys == m.known.keys
  {
    hide M.Unpack, Begins;
  }

  lemma PullAsksExactly(body: Bytes)
    ensures AsksExactly(Pull, body) <==> EntriesIntact(Pull, body)
  {
    M.PullReqRefuses(Empty(M.PULL_REQ), ReadFields(body).fields);
    var (m, v) := Parse(M.PULL_REQ, Empty(M.PULL_REQ), body);
    assert v.Failed? && v.cause.Refused? ==> v.cause.field.payload.Len?;
    hide Parse, Leaves, PullIntact, PullWitness;
    PullWitnessLeft(m, v);
    var m' := PullWitness(m, v);
    assert ParsesTo(M.PULL_REQ, body, m');
    assert Decodes(Pull, body, Requested(m'.known.keys));
    if PullIntact(v) {
      forall x | ParsesTo(M.PULL_REQ, body, x) ensures x.known.keys == m.known.keys {
        PullKeysCertain(m, v, x);
      }
    }
  }

  lemma DelCacheAsksExactly(body: Bytes)
    ensures AsksExactly(DelCache, body) <==> EntriesIntact(DelCache, body)
  {
    M.DelCacheReqRefusesNothing(Empty(M.DEL_CACHE_REQ), ReadFields(body).fields);
    var (m, v) := Parse(M.DEL_CACHE_REQ, Empty(M.DEL_CACHE_REQ), body);
    assert v.Failed? ==> !v.cause.Refused?;
    hide Parse;
    if DelCacheIntact(v) {
      assert ParsesTo(M.DEL_CACHE_REQ, body, m);
    } else {
      var other := m.(known := M.DelCacheReq(if m.known.key == 0 then 1 else 0));
      assert ParsesTo(M.DEL_CACHE_REQ, body, other);
      assert Decodes(DelCache, body, [DataInfo(other.known.key, [])]);
    }
  }

  /**
   A request asks for exactly the entries of the fields read whole if and only if the parse of its body did
   not fail at a field the entries come from.
   */
  lemma AsksExactlyWhenIntact(t: MsgType, body: Bytes)
    ensures AsksExactly(t, body) <==> EntriesIntact(t, body)
  {
    hide Parse;
    match t {
      case Push => PushAsksExactly(body);
      case Pull => PullAsksExactly(body);
      case DelCache => DelCacheAsksExactly(body);
      case Unknow =>
    }
  }

  /** Whatever follows an encoded Pull request, it is asked for every requested key first. */
  lemma PullBeforeDamage(req: Msg<M.PullReq>, tail: Bytes, infos: seq<DataInfo>)
    requires KeepsUnknown(M.PULL_REQ, req) && |Encode(M.PULL_REQ, req)| < TWO31
    requires Decodes(Pull, Encode(M.PULL_REQ, req) + tail, infos)
    ensures Requested(req.known.keys) <= infos
  {
    hide Parse, Encode, Leaves;
    var m :| ParsesTo(M.PULL_REQ, Encode(M.PULL_REQ, req) + tail, m) && infos == Requested(m.known.keys);
    M.PullReqContinues(req, tail);
    M.PullReqKeeps(req, tail, m);
  }

  lemma PushBeforeDamage(req: Msg<M.PushReq>, tail: Bytes, infos: seq<DataInfo>)
    requires M.ValidPushReq(req) && |Encode(M.PUSH_REQ, req)| < TWO31
    requires Decodes(Push, Encode(M.PUSH_REQ, req) + tail, infos)
    ensures InfosOf(req.known.infos) <= infos
  {
    hide Parse, Encode, Leaves;
    var m :| ParsesTo(M.PUSH_REQ, Encode(M.PUSH_REQ, req) + tail, m) && infos == InfosOf(m.known.infos);
    M.PushReqContinues(req, tail);
    M.PushReqKeeps(req, tail, m);
  }

  /** A Pull body that breaks off behind the tag of a single key is asked for one more key, which may be any. */
  lemma PullCutOff(req: Msg<M.PullReq>, infos: seq<DataInfo>)
    requires KeepsUnknown(M.PULL_REQ, req) && |Encode(M.PULL_REQ, req)| < TWO31
    ensures Decodes(Pull, Encode(M.PULL_REQ, req) + [8], infos) <==>
            exists k :: infos == Requested(req.known.keys + [k])
  {
    hide Parse, Encode, Leaves;
    var body := Encode(M.PULL_REQ, req) + [8];
    M.PullReqContinues(req, [8]);
    if Decodes(Pull, body, infos) {
      var m :| ParsesTo(M.PULL_REQ, body, m) && infos == Requested(m.known.keys);
      M.CutOffKey(req, m);
      assert m.known.keys == req.known.keys + [m.known.keys[|req.known.keys|]];
    }
    forall k | infos == Requested(req.known.keys + [k])
      ensures Decodes(Pull, body, infos)
    {
      var m := req.(known := req.known.(keys := req.known.keys + [k]));
      M.CutOffKey(req, m);
      assert ParsesTo(M.PULL_REQ, body, m);
    }
  }

  /** A Push body that breaks off inside its last entry, behind fields it has printed, still pushes these. */
  lemma PushCutOff(req: Msg<M.PushReq>, info: Msg<M.OneInfo>, size: nat, infos: seq<DataInfo>)
    requires M.ValidPushReq(req) && |Encode(M.PUSH_REQ, req)| < TWO31
    requires KeepsUnknown(M.ONE_INFO, info) && |Encode(M.ONE_INFO, info)| < size < TWO31
    ensures Decodes(Push, Encode(M.PUSH_REQ, req) + M.CutOff(info, size), infos) <==>
            infos == InfosOf(req.known.infos + [info])
  {
    hide Parse, Encode, Leaves, M.CutOff;
    var body := Encode(M.PUSH_REQ, req) + M.CutOff(info, size);
    var whole := Msg(M.PushReq(req.known.infos + [info]), req.unknown);
    M.PushReqContinues(req, M.CutOff(info, size));
    M.CutOffInfo(req, info, size, whole);
    assert ParsesTo(M.PUSH_REQ, body, whole);
    if Decodes(Push, body, infos) {
      var m :| ParsesTo(M.PUSH_REQ, body, m) && infos == InfosOf(m.known.infos);
      M.CutOffInfo(req, info, size, m);
    }
  }

  function SetOf(field: seq<uint32>): (s: set<uint32>)
    ensures forall f :: f in s <==> f in field
  {
    set f | f in field
  }

  /** A printed message, or nothing when it is 2 GiB or more. */
  function Print<K>(s: Schema<K>, m: Msg<K>): Bytes {
    var bs := Encode(s, m);
    if |bs| < TWO31 then bs else []
  }

  function Reply(t: MsgType, infos: seq<DataInfo>, errCode: int32): Bytes {
    match t
    case Pull => Print(M.PULL_RSP, Msg(M.PullRsp(errCode, [], if errCode != 0 then [] else Datas(infos)), []))
    case Push => Print(M.PUSH_RSP, Msg(M.PushRsp(errCode, []), []))
    case DelCache => []
    case Unknow => []
  }

  /** The replies as bytes: no code and no text is written when the code is 0. */
  lemma ReplyBytes(t: MsgType, infos: seq<DataInfo>, errCode: int32)
    ensures t == Push || (t == Pull && errCode != 0) ==>
              Reply(t, infos, errCode) ==
              if errCode == 0 then []
              else if errCode > 0 then [8] + Varint(errCode)
              else [8] + Varint(errCode + 0x1_0000_0000_0000_0000)
    ensures t == Pull && errCode == 0 ==>
              var bs := Layout.Texts(26, Datas(infos));
              Reply(t, infos, errCode) == if |bs| < 0x8000_0000 then bs else []
    ensures t == DelCache || t == Unknow ==> Reply(t, infos, errCode) == []
  {
    hide Encode, Varint, Layout.Texts;
    Output.EncodeNone();
    if t == Push {
      Layout.PushRspBytes(Msg(M.PushRsp(errCode, []), []));
      CodeIsShort(errCode);
    } else if t == Pull && errCode != 0 {
      Layout.PullRspBytes(Msg(M.PullRsp(errCode, [], []), []));
      Layout.TextsSnoc(26, [], []);
      CodeIsShort(errCode);
    } else if t == Pull {
      Layout.PullRspBytes(Msg(M.PullRsp(0, [], Datas(infos)), []));
    }
  }

  lemma CodeIsShort(errCode: int32)
    ensures errCode > 0 ==> |Varint(errCode)| <= 10
    ensures errCode < 0 ==> |Varint(errCode + 0x1_0000_0000_0000_0000)| <= 10
  {
    Pow128Values();
    VarintShort(if errCode < 0 then errCode + 0x1_0000_0000_0000_0000 else errCode, 10);
  }

  class InOutMsg {
    var infos: seq<DataInfo>
    var fields: set<uint32>
    var t: MsgType

    constructor (d: Bytes, t: MsgType)
      ensures this.t == t && Decodes(t, d, infos) && Fills(t, d, infos, fields)
    {
      this.t := t;
      this.infos := [];
      this.fields := {};
      new;
      hide Parse, Leaves, InfosOf, Requested;
      match t {
        case Push => FillPush(d);
        case Pull => FillPull(d);
        case DelCache =>
          var req := new ServMsg.DelCacheReq();
          var _ := req.ParseFromString(d);
          assert ParsesTo(M.DEL_CACHE_REQ, d, req.Value());
          infos := infos + [DataInfo(req.key, [])];
        case Unknow =>
      }
    }

    /** The constructor's Push case: one entry for each nested message parsed, whatever the parse result. */
    method FillPush(d: Bytes)
      requires infos == []
      modifies this`infos
      ensures Decodes(Push, d, infos)
    {
      hide Parse, Leaves, ServMsg.Values, InfosOf;
      InfosOfNone();
      var req := new ServMsg.PushReq();
      var _ := req.ParseFromString(d);
      ghost var parsed := req.Value().known.infos;
      assert ParsesTo(M.PUSH_REQ, d, req.Value());
      var i := 0;
      while i < |req.infos|
        invariant 0 <= i <= |req.infos| == |parsed| && ServMsg.Values(req.infos) == parsed
        invariant infos == InfosOf(parsed[..i])
      {
        var onei := req.infos[i];
        InfosOfSnoc(parsed, i);
        infos := infos + [DataInfo(onei.key, onei.data)];
        i := i + 1;
      }
      assert parsed[..i] == parsed;
    }

    /** The constructor's Pull case: one entry with no data yet for each key, and the set of fields asked for. */
    method FillPull(d: Bytes)
      requires infos == [] && fields == {}
      modifies this`infos, this`fields
      ensures Decodes(Pull, d, infos) && Fills(Pull, d, infos, fields)
    {
      hide Parse, Leaves;
      var req := new ServMsg.PullReq();
      var _ := req.ParseFromString(d);
      ghost var keys, field := req.keys, req.field;
      assert ParsesTo(M.PULL_REQ, d, req.Value());
      var i := 0;
      while i < |req.keys|
        invariant 0 <= i <= |keys| && req.keys == keys && req.field == field
        invariant infos == Requested(keys[..i]) && fields == {}
      {
        infos := infos + [DataInfo(req.keys[i], [])];
        i := i + 1;
      }
      assert keys[..i] == keys && field[..0] == [];
      i := 0;
      while i < |req.field|
        invariant 0 <= i <= |field| && req.field == field
        invariant infos == Requested(keys) && fields == SetOf(field[..i])
      {
        fields := fields + {req.field[i]};
        i := i + 1;
      }
      assert field[..i] == field;
    }

    method GetPullIds() returns (ret: seq<Key>)
      ensures ret == Ids(infos)
    {
      ret := [];
      for i := 0 to |infos|
        invariant ret == Ids(infos[..i])
      {
        ret := ret + [infos[i].id];
      }
      assert infos[..|infos|] == infos;
    }

    method SetPullData(i: nat, d: Bytes)
      requires i < |infos|
      modifies this`infos
      ensures infos == old(infos)[i := DataInfo(old(infos)[i].id, d)]
    {
      infos := infos[i := infos[i].(d := d)];
    }

    method EncodeRsp(errCode: int32) returns (ret: Bytes)
      ensures ret == Reply(t, infos, errCode)
      ensures t == Push && errCode == 0 ==> ret == []
      ensures (t == Push || t == Pull) && errCode > 0 ==> ret == [8] + Varint(errCode)
      ensures (t == Push || t == Pull) && errCode < 0 ==> ret == [8] + Varint(errCode + 0x1_0000_0000_0000_0000)
      ensures t == Pull && errCode == 0 ==>
                var bs := Layout.Texts(26, Datas(infos)); ret == if |bs| < 0x8000_0000 then bs else []
      ensures t == DelCache || t == Unknow ==> ret == []
    {
      hide Encode, Varint, Layout.Texts;
      ReplyBytes(t, infos, errCode);
      ret := [];
      match t {
        case Pull =>
          var rsp := new ServMsg.PullRsp();
          if errCode != 0 {
            rsp.errCode := errCode;
          } else {
            for i := 0 to |infos|
              invariant rsp.Value() == Msg(M.PullRsp(0, [], Datas(infos[..i])), [])
            {
              assert Datas(infos[..i + 1]) == Datas(infos[..i]) + [infos[i].d];
              rsp.data := rsp.data + [infos[i].d];
            }
            assert infos[..|infos|] == infos;
          }
          var ok, out := rsp.SerializeToString();
          ret := out;
        case Push =>
          var rsp := new ServMsg.PushRsp();
          if errCode != 0 {
            rsp.errCode := errCode;
          }
          var ok, out := rsp.SerializeToString();
          ret := out;
        case DelCache =>
          var rsp := new ServMsg.DelCacheRsp();
          if errCode == 0 {
            rsp.succ := true;
          }
          // The message is never serialized: the reply is empty.
        case Unknow =>
      }
    }
  }
}
