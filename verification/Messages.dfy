/** The seven message types of serv-msg.proto as values, their schemas, and what the codec guarantees for each. */
module Messages {
  import opened Wire
  import opened Codec

  datatype OneInfo = OneInfo(key: uint64, data: Bytes)
  datatype PushReq = PushReq(infos: seq<Msg<OneInfo>>)
  datatype PushRsp = PushRsp(errCode: int32, errDesc: Bytes)
  datatype PullReq = PullReq(keys: seq<uint64>, field: seq<uint32>)
  datatype PullRsp = PullRsp(errCode: int32, errDesc: Bytes, data: seq<Bytes>)
  datatype DelCacheReq = DelCacheReq(key: uint64)
  datatype DelCacheRsp = DelCacheRsp(succ: bool)

  // ---------------------------------------------------------------- Scalars

  /** A negative int32 is written as the 64-bit varint with the same two's complement value. */
  function SignExtend(x: int32): uint64 {
    if x < 0 then x + TWO64 else x
  }

  function Truncate(v: uint64): int32 {
    var low := v % TWO32;
    if low < TWO31 then low else low - TWO32
  }

  /** The structural validity of UTF-8, section 3 of RFC 3629. */
  predicate Utf8(s: Bytes) {
    if s == [] then true
    else if s[0] < 0x80 then Utf8(s[1..])
    else if 0xC2 <= s[0] < 0xE0 then Follows(s, 1) && Utf8(s[2..])
    else if 0xE0 <= s[0] < 0xF0 then
      Follows(s, 2) && (s[0] == 0xE0 ==> s[1] >= 0xA0) && (s[0] == 0xED ==> s[1] < 0xA0) && Utf8(s[3..])
    else if 0xF0 <= s[0] < 0xF5 then
      Follows(s, 3) && (s[0] == 0xF0 ==> s[1] >= 0x90) && (s[0] == 0xF4 ==> s[1] < 0x90) && Utf8(s[4..])
    else false
  }

  predicate Follows(s: Bytes, n: nat) {
    n < |s| && forall i | 1 <= i <= n :: 0x80 <= s[i] < 0xC0
  }

  function Pack(vs: seq<uint64>): Bytes {
    if vs == [] then [] else Varint(vs[0]) + Pack(vs[1..])
  }

  /** The elements of a packed payload, and whether the payload ended with the last of them. */
  function Unpack(bs: Bytes): (r: (seq<uint64>, bool))
    decreases |bs|
  {
    if bs == [] then ([], true)
    else
      match ReadVarint64(bs)
      case Fail => ([], false)
      case Ok(v, rest) => var (vs, ok) := Unpack(rest); ([v] + vs, ok)
  }

  function Narrow(vs: seq<uint64>): (ws: seq<uint32>)
    ensures |ws| == |vs|
  {
    seq(|vs|, i requires 0 <= i < |vs| => vs[i] % TWO32)
  }

  lemma TruncateInverts(x: int32)
    ensures Truncate(SignExtend(x)) == x
  {
  }

  lemma {:induction false} UnpackInverts(vs: seq<uint64>)
    ensures Unpack(Pack(vs)) == (vs, true)
  {
    if vs != [] {
      ReadVarint64Inverts(vs[0], Pack(vs[1..]));
      VarintLength(vs[0]);
      UnpackInverts(vs[1..]);
      assert [vs[0]] + vs[1..] == vs;
    }
  }

  // ---------------------------------------------------------------- Schemas
  //
  // The generated parsers store first and check afterwards. What a library routine hands over for a
  // payload it cannot read is left open: any number, any string, any list.

  function OptVarint(num: fieldnum, v: uint64): seq<Field> {
    if v != 0 then [Field(num, VarintVal(v))] else []
  }

  function OptLen(num: fieldnum, bs: Bytes): seq<Field> {
    if bs != [] then [Field(num, Len(bs))] else []
  }

  /** A repeated field has got one more element. */
  predicate OneMore<T(==)>(xs: seq<T>, xs': seq<T>) {
    |xs'| == |xs| + 1 && xs <= xs'
  }

  const ONE_INFO: Schema<OneInfo> := Schema(
    OneInfo(0, []),
    {8, 18},
    AbsorbOneInfo,
    SpoilOneInfo,
    (k: OneInfo) => OptVarint(1, k.key) + OptLen(2, k.data),
    (k: OneInfo, from: OneInfo) => OneInfo(if from.key != 0 then from.key else k.key,
                                           if from.data != [] then from.data else k.data))

  function AbsorbOneInfo(k: OneInfo, f: Field): Option<OneInfo> {
    match f.payload
    case VarintVal(v) => Some(k.(key := v))
    case Len(bs) => Some(k.(data := bs))
    case _ => Some(k)
  }

  predicate SpoilOneInfo(k: OneInfo, cause: Cause, k': OneInfo) {
    match cause
    case Unreadable(tag, _) => OneInfoLeft(k, tag, k')
    case NoTag(at) => exists tag | tag in {8, 18} :: MayBe(at, tag) && OneInfoLeft(k, tag, k')
    case Refused(_) => false
  }

  /** The number or the string that could not be read was assigned before the check. */
  predicate OneInfoLeft(k: OneInfo, tag: uint32, k': OneInfo) {
    if tag == 8 then k'.data == k.data else k'.key == k.key
  }

  const PUSH_REQ: Schema<PushReq> := Schema(
    PushReq([]),
    {10},
    AbsorbPushReq,
    SpoilPushReq,
    (k: PushReq) => InfoFields(k.infos),
    (k: PushReq, from: PushReq) => PushReq(k.infos + from.infos))

  /** A nested message counts only if its own parse ends at its own limit. */
  function AbsorbPushReq(k: PushReq, f: Field): Option<PushReq> {
    match f.payload
    case Len(bs) =>
      var (info, verdict) := Parse(ONE_INFO, Empty(ONE_INFO), bs);
      if verdict == Complete then Some(PushReq(k.infos + [info])) else None
    case _ => Some(k)
  }

  /** The nested message was added before it was parsed, and holds what its own parse left in it. */
  predicate SpoilPushReq(k: PushReq, cause: Cause, k': PushReq) {
    && OneMore(k.infos, k'.infos)
    && var info := k'.infos[|k.infos|];
    match cause
    case Unreadable(_, at) => Leaves(ONE_INFO, Parse(ONE_INFO, Empty(ONE_INFO), AtHand(at)), info)
    case Refused(f) => f.payload.Len? && Leaves(ONE_INFO, Parse(ONE_INFO, Empty(ONE_INFO), f.payload.bytes), info)
    case NoTag(at) => MayBe(at, 10)
  }

  /**
   What a nested message is parsed from when its length reaches past the end of the input: the bytes there
   are. Without a readable length there are none.
   */
  function AtHand(at: Bytes): Bytes {
    match ReadVarint(at, 5)
    case Ok(n, rest) => if n < TWO31 then rest else []
    case Fail => []
  }

  function InfoFields(infos: seq<Msg<OneInfo>>): seq<Field> {
    if infos == [] then []
    else [Field(1, Len(Encode(ONE_INFO, infos[0])))] + InfoFields(infos[1..])
  }

  const PUSH_RSP: Schema<PushRsp> := Schema(
    PushRsp(0, []),
    {8, 18},
    AbsorbPushRsp,
    SpoilPushRsp,
    (k: PushRsp) => OptVarint(1, SignExtend(k.errCode)) + OptLen(2, k.errDesc),
    (k: PushRsp, from: PushRsp) => PushRsp(if from.errCode != 0 then from.errCode else k.errCode,
                                           if from.errDesc != [] then from.errDesc else k.errDesc))

  function AbsorbPushRsp(k: PushRsp, f: Field): Option<PushRsp> {
    match f.payload
    case VarintVal(v) => Some(k.(errCode := Truncate(v)))
    case Len(bs) => if Utf8(bs) then Some(k.(errDesc := bs)) else None
    case _ => Some(k)
  }

  /** A text that is not UTF-8 is kept as it came. */
  predicate SpoilPushRsp(k: PushRsp, cause: Cause, k': PushRsp) {
    match cause
    case Unreadable(tag, _) => PushRspLeft(k, tag, k')
    case Refused(f) => f.payload.Len? && k' == k.(errDesc := f.payload.bytes)
    case NoTag(at) => exists tag | tag in {8, 18} :: MayBe(at, tag) && PushRspLeft(k, tag, k')
  }

  predicate PushRspLeft(k: PushRsp, tag: uint32, k': PushRsp) {
    if tag == 8 then k'.errDesc == k.errDesc else k'.errCode == k.errCode
  }

  const PULL_REQ: Schema<PullReq> := Schema(
    PullReq([], []),
    {8, 10, 16, 18},
    AbsorbPullReq,
    SpoilPullReq,
    (k: PullReq) => OptLen(1, Pack(k.keys)) + OptLen(2, Pack(k.field)),
    (k: PullReq, from: PullReq) => PullReq(k.keys + from.keys, k.field + from.field))

  function AbsorbPullReq(k: PullReq, f: Field): Option<PullReq> {
    match f.payload
    case VarintVal(v) =>
      Some(if f.num == 1 then k.(keys := k.keys + [v]) else k.(field := k.field + [v % TWO32]))
    case Len(bs) =>
      var (vs, ok) := Unpack(bs);
      if !ok then None
      else Some(if f.num == 1 then k.(keys := k.keys + vs) else k.(field := k.field + Narrow(vs)))
    case _ => Some(k)
  }

  /** Of a packed run at least the well-formed elements were added. */
  predicate SpoilPullReq(k: PullReq, cause: Cause, k': PullReq) {
    match cause
    case Unreadable(tag, _) => PullReqLeft(k, tag, k')
    case Refused(f) =>
      && f.payload.Len?
      && var vs := Unpack(f.payload.bytes).0;
      if f.num == 1 then k.keys + vs <= k'.keys && k'.field == k.field
      else k.field + Narrow(vs) <= k'.field && k'.keys == k.keys
    case NoTag(at) => exists tag | tag in {8, 10, 16, 18} :: MayBe(at, tag) && PullReqLeft(k, tag, k')
  }

  /** A single element was added whatever it is. */
  predicate PullReqLeft(k: PullReq, tag: uint32, k': PullReq) {
    if tag == 8 then OneMore(k.keys, k'.keys) && k'.field == k.field
    else if tag == 16 then OneMore(k.field, k'.field) && k'.keys == k.keys
    else if tag == 10 then k.keys <= k'.keys && k'.field == k.field
    else k.field <= k'.field && k'.keys == k.keys
  }

  const PULL_RSP: Schema<PullRsp> := Schema(
    PullRsp(0, [], []),
    {8, 18, 26},
    AbsorbPullRsp,
    SpoilPullRsp,
    (k: PullRsp) => OptVarint(1, SignExtend(k.errCode)) + OptLen(2, k.errDesc) + DataFields(k.data),
    (k: PullRsp, from: PullRsp) => PullRsp(if from.errCode != 0 then from.errCode else k.errCode,
                                           if from.errDesc != [] then from.errDesc else k.errDesc,
                                           k.data + from.data))

  function AbsorbPullRsp(k: PullRsp, f: Field): Option<PullRsp> {
    match f.payload
    case VarintVal(v) => Some(k.(errCode := Truncate(v)))
    case Len(bs) =>
      if f.num == 3 then Some(k.(data := k.data + [bs]))
      else if Utf8(bs) then Some(k.(errDesc := bs))
      else None
    case _ => Some(k)
  }

  predicate SpoilPullRsp(k: PullRsp, cause: Cause, k': PullRsp) {
    match cause
    case Unreadable(tag, _) => PullRspLeft(k, tag, k')
    case Refused(f) => f.payload.Len? && k' == k.(errDesc := f.payload.bytes)
    case NoTag(at) => exists tag | tag in {8, 18, 26} :: MayBe(at, tag) && PullRspLeft(k, tag, k')
  }

  predicate PullRspLeft(k: PullRsp, tag: uint32, k': PullRsp) {
    if tag == 8 then k' == k.(errCode := k'.errCode)
    else if tag == 18 then k' == k.(errDesc := k'.errDesc)
    else k' == k.(data := k'.data) && OneMore(k.data, k'.data)
  }

  /** An empty element of a repeated field is written; only an absent scalar is not. */
  function DataFields(data: seq<Bytes>): (fs: seq<Field>)
    ensures |fs| == |data|
  {
    seq(|data|, i requires 0 <= i < |data| => Field(3, Len(data[i])))
  }

  const DEL_CACHE_REQ: Schema<DelCacheReq> := Schema(
    DelCacheReq(0),
    {8},
    AbsorbDelCacheReq,
    (k: DelCacheReq, cause: Cause, k': DelCacheReq) => SpoilOneNumber(cause),
    (k: DelCacheReq) => OptVarint(1, k.key),
    (k: DelCacheReq, from: DelCacheReq) => if from.key != 0 then from else k)

  /** The only number there is may have become any. */
  predicate SpoilOneNumber(cause: Cause) {
    match cause
    case Unreadable(_, _) => true
    case NoTag(at) => MayBe(at, 8)
    case Refused(_) => false
  }

  function AbsorbDelCacheReq(k: DelCacheReq, f: Field): Option<DelCacheReq> {
    match f.payload
    case VarintVal(v) => Some(DelCacheReq(v))
    case _ => Some(k)
  }

  const DEL_CACHE_RSP: Schema<DelCacheRsp> := Schema(
    DelCacheRsp(false),
    {8},
    AbsorbDelCacheRsp,
    (k: DelCacheRsp, cause: Cause, k': DelCacheRsp) => SpoilOneNumber(cause),
    (k: DelCacheRsp) => OptVarint(1, if k.succ then 1 else 0),
    (k: DelCacheRsp, from: DelCacheRsp) => if from.succ then from else k)

  function AbsorbDelCacheRsp(k: DelCacheRsp, f: Field): Option<DelCacheRsp> {
    match f.payload
    case VarintVal(v) => Some(DelCacheRsp(v != 0))
    case _ => Some(k)
  }

  // ---------------------------------------------------------------- Absorbing what a message prints

  ghost predicate ValidPushReq(m: Msg<PushReq>) {
    KeepsUnknown(PUSH_REQ, m) && ValidInfos(m.known.infos)
  }

  ghost predicate ValidInfos(infos: seq<Msg<OneInfo>>) {
    forall info <- infos :: KeepsUnknown(ONE_INFO, info)
  }

  lemma OneInfoAbsorbs(m: Msg<OneInfo>, from: Msg<OneInfo>)
    ensures Absorbs(ONE_INFO, m, from)
  {
    AbsorbAppend(ONE_INFO, m, OptVarint(1, from.known.key), OptLen(2, from.known.data));
  }

  lemma OneInfoMergeLaws(a: Msg<OneInfo>, b: Msg<OneInfo>, c: Msg<OneInfo>)
    ensures MergeLaws(ONE_INFO, a, b, c)
  {
    MergeLawsFollow(ONE_INFO, a, b, c);
  }

  lemma OneInfoCodecLaws(a: Msg<OneInfo>, b: Msg<OneInfo>, junk: Bytes)
    requires KeepsUnknown(ONE_INFO, a) && KeepsUnknown(ONE_INFO, b)
    requires |Encode(ONE_INFO, a)| < TWO31 && |Encode(ONE_INFO, b)| < TWO31
    ensures CodecLaws(ONE_INFO, a, b, junk)
  {
    hide AbsorbAll, Encode, MergeMsg;
    OneInfoAbsorbs(Empty(ONE_INFO), a);
    OneInfoAbsorbs(Empty(ONE_INFO), b);
    OneInfoAbsorbs(a, b);
    OneInfoMergeLaws(a, b, a);
    OneInfoMergeLaws(b, a, a);
    CodecLawsFollow(ONE_INFO, a, b, junk);
  }

  lemma InfoAbsorbs(m: Msg<PushReq>, info: Msg<OneInfo>)
    requires KeepsUnknown(ONE_INFO, info) && |Encode(ONE_INFO, info)| < TWO31
    ensures AbsorbField(PUSH_REQ, m, Field(1, Len(Encode(ONE_INFO, info)))) ==
            Taken(m.(known := PushReq(m.known.infos + [info])))
  {
    hide Encode, Parse;
    OneInfoCodecLaws(info, info, []);
  }

  lemma {:induction false} InfosAbsorb(m: Msg<PushReq>, infos: seq<Msg<OneInfo>>)
    requires ValidInfos(infos) && Fits(InfoFields(infos))
    ensures AbsorbAll(PUSH_REQ, m, InfoFields(infos)) ==
            Taken(m.(known := PushReq(m.known.infos + infos)))
    decreases |infos|
  {
    hide Encode, AbsorbField;
    if infos == [] {
      assert m.known.infos + infos == m.known.infos;
    } else {
      var m' := m.(known := PushReq(m.known.infos + [infos[0]]));
      InfoAbsorbs(m, infos[0]);
      assert InfoFields(infos)[1..] == InfoFields(infos[1..]);
      InfosAbsorb(m', infos[1..]);
      assert m.known.infos + [infos[0]] + infos[1..] == m.known.infos + infos;
    }
  }

  lemma PushReqAbsorbs(m: Msg<PushReq>, from: Msg<PushReq>)
    requires ValidPushReq(from) && |Encode(PUSH_REQ, from)| < TWO31
    ensures Absorbs(PUSH_REQ, m, from)
  {
    SmallMeansFits(AllFields(PUSH_REQ, from));
    FitsAppend(InfoFields(from.known.infos), from.unknown);
    InfosAbsorb(m, from.known.infos);
  }

  lemma PushReqMergeLaws(a: Msg<PushReq>, b: Msg<PushReq>, c: Msg<PushReq>)
    ensures MergeLaws(PUSH_REQ, a, b, c)
  {
    var x, y, z := a.known, b.known, c.known;
    assert [] + x.infos == x.infos == x.infos + [] && x.infos + y.infos + z.infos == x.infos + (y.infos + z.infos);
    MergeLawsFollow(PUSH_REQ, a, b, c);
  }

  lemma PushReqCodecLaws(a: Msg<PushReq>, b: Msg<PushReq>, junk: Bytes)
    requires ValidPushReq(a) && ValidPushReq(b)
    requires |Encode(PUSH_REQ, a)| < TWO31 && |Encode(PUSH_REQ, b)| < TWO31
    ensures CodecLaws(PUSH_REQ, a, b, junk)
  {
    hide AbsorbAll, Encode, MergeMsg;
    PushReqAbsorbs(Empty(PUSH_REQ), a);
    PushReqAbsorbs(Empty(PUSH_REQ), b);
    PushReqAbsorbs(a, b);
    PushReqMergeLaws(a, b, a);
    PushReqMergeLaws(b, a, a);
    CodecLawsFollow(PUSH_REQ, a, b, junk);
  }

  lemma PushRspAbsorbs(m: Msg<PushRsp>, from: Msg<PushRsp>)
    requires Utf8(from.known.errDesc)
    ensures Absorbs(PUSH_RSP, m, from)
  {
    TruncateInverts(from.known.errCode);
    AbsorbAppend(PUSH_RSP, m, OptVarint(1, SignExtend(from.known.errCode)), OptLen(2, from.known.errDesc));
  }

  lemma PushRspMergeLaws(a: Msg<PushRsp>, b: Msg<PushRsp>, c: Msg<PushRsp>)
    ensures MergeLaws(PUSH_RSP, a, b, c)
  {
    MergeLawsFollow(PUSH_RSP, a, b, c);
  }

  lemma PushRspCodecLaws(a: Msg<PushRsp>, b: Msg<PushRsp>, junk: Bytes)
    requires KeepsUnknown(PUSH_RSP, a) && KeepsUnknown(PUSH_RSP, b)
    requires Utf8(a.known.errDesc) && Utf8(b.known.errDesc)
    requires |Encode(PUSH_RSP, a)| < TWO31 && |Encode(PUSH_RSP, b)| < TWO31
    ensures CodecLaws(PUSH_RSP, a, b, junk)
  {
    hide AbsorbAll, Encode, MergeMsg;
    PushRspAbsorbs(Empty(PUSH_RSP), a);
    PushRspAbsorbs(Empty(PUSH_RSP), b);
    PushRspAbsorbs(a, b);
    PushRspMergeLaws(a, b, a);
    PushRspMergeLaws(b, a, a);
    CodecLawsFollow(PUSH_RSP, a, b, junk);
  }

  /** A reply survives printing and parsing if and only if its text is UTF-8; otherwise the parse fails. */
  lemma PushRspSurvivesExactly(b: Msg<PushRsp>)
    requires KeepsUnknown(PUSH_RSP, b) && |Encode(PUSH_RSP, b)| < TWO31
    ensures Parse(PUSH_RSP, Empty(PUSH_RSP), Encode(PUSH_RSP, b)) == (b, Complete) <==> Utf8(b.known.errDesc)
    ensures !Utf8(b.known.errDesc) ==> Parse(PUSH_RSP, Empty(PUSH_RSP), Encode(PUSH_RSP, b)).1.Failed?
  {
    if Utf8(b.known.errDesc) {
      PushRspCodecLaws(b, b, []);
    } else {
      var code, desc := OptVarint(1, SignExtend(b.known.errCode)), OptLen(2, b.known.errDesc);
      AbsorbAppend(PUSH_RSP, Empty(PUSH_RSP), code, desc);
      AbsorbAppend(PUSH_RSP, Empty(PUSH_RSP), code + desc, b.unknown);
      RefusedPrintFails(PUSH_RSP, b);
    }
  }

  lemma PullReqAbsorbs(m: Msg<PullReq>, from: Msg<PullReq>)
    ensures Absorbs(PULL_REQ, m, from)
  {
    hide Pack, Unpack;
    var keys, field := from.known.keys, from.known.field;
    UnpackInverts(keys);
    UnpackInverts(field);
    PackEmpty(keys);
    PackEmpty(field);
    assert m.known.keys + [] == m.known.keys && m.known.field + [] == m.known.field;
    assert Narrow(field) == field;
    AbsorbAppend(PULL_REQ, m, OptLen(1, Pack(keys)), OptLen(2, Pack(field)));
  }

  lemma PackEmpty(vs: seq<uint64>)
    ensures Pack(vs) == [] <==> vs == []
  {
  }

  lemma PullReqMergeLaws(a: Msg<PullReq>, b: Msg<PullReq>, c: Msg<PullReq>)
    ensures MergeLaws(PULL_REQ, a, b, c)
  {
    var x, y, z := a.known, b.known, c.known;
    assert [] + x.keys == x.keys == x.keys + [] && x.keys + y.keys + z.keys == x.keys + (y.keys + z.keys);
    assert [] + x.field == x.field == x.field + [] && x.field + y.field + z.field == x.field + (y.field + z.field);
    MergeLawsFollow(PULL_REQ, a, b, c);
  }

  lemma PullReqCodecLaws(a: Msg<PullReq>, b: Msg<PullReq>, junk: Bytes)
    requires KeepsUnknown(PULL_REQ, a) && KeepsUnknown(PULL_REQ, b)
    requires |Encode(PULL_REQ, a)| < TWO31 && |Encode(PULL_REQ, b)| < TWO31
    ensures CodecLaws(PULL_REQ, a, b, junk)
  {
    hide AbsorbAll, Encode, MergeMsg;
    PullReqAbsorbs(Empty(PULL_REQ), a);
    PullReqAbsorbs(Empty(PULL_REQ), b);
    PullReqAbsorbs(a, b);
    PullReqMergeLaws(a, b, a);
    PullReqMergeLaws(b, a, a);
    CodecLawsFollow(PULL_REQ, a, b, junk);
  }

  lemma {:induction false} DataAbsorbs(m: Msg<PullRsp>, data: seq<Bytes>)
    ensures AbsorbAll(PULL_RSP, m, DataFields(data)) ==
            Taken(m.(known := m.known.(data := m.known.data + data)))
    decreases |data|
  {
    if data == [] {
      assert m.known.data + data == m.known.data;
    } else {
      var m' := m.(known := m.known.(data := m.known.data + [data[0]]));
      DataAbsorbs(m', data[1..]);
      assert DataFields(data)[1..] == DataFields(data[1..]);
      assert m.known.data + [data[0]] + data[1..] == m.known.data + data;
    }
  }

  lemma PullRspAbsorbs(m: Msg<PullRsp>, from: Msg<PullRsp>)
    requires Utf8(from.known.errDesc)
    ensures Absorbs(PULL_RSP, m, from)
  {
    var x := from.known;
    var code, desc := OptVarint(1, SignExtend(x.errCode)), OptLen(2, x.errDesc);
    TruncateInverts(x.errCode);
    AbsorbAppend(PULL_RSP, m, code, desc);
    var m' := AbsorbAll(PULL_RSP, m, code + desc).msg;
    assert m'.known.data == m.known.data;
    AbsorbAppend(PULL_RSP, m, code + desc, DataFields(x.data));
    DataAbsorbs(m', x.data);
  }

  lemma PullRspMergeLaws(a: Msg<PullRsp>, b: Msg<PullRsp>, c: Msg<PullRsp>)
    ensures MergeLaws(PULL_RSP, a, b, c)
  {
    var x, y, z := a.known, b.known, c.known;
    assert [] + x.data == x.data == x.data + [] && x.data + y.data + z.data == x.data + (y.data + z.data);
    MergeLawsFollow(PULL_RSP, a, b, c);
  }

  lemma PullRspCodecLaws(a: Msg<PullRsp>, b: Msg<PullRsp>, junk: Bytes)
    requires KeepsUnknown(PULL_RSP, a) && KeepsUnknown(PULL_RSP, b)
    requires Utf8(a.known.errDesc) && Utf8(b.known.errDesc)
    requires |Encode(PULL_RSP, a)| < TWO31 && |Encode(PULL_RSP, b)| < TWO31
    ensures CodecLaws(PULL_RSP, a, b, junk)
  {
    hide AbsorbAll, Encode, MergeMsg;
    PullRspAbsorbs(Empty(PULL_RSP), a);
    PullRspAbsorbs(Empty(PULL_RSP), b);
    PullRspAbsorbs(a, b);
    PullRspMergeLaws(a, b, a);
    PullRspMergeLaws(b, a, a);
    CodecLawsFollow(PULL_RSP, a, b, junk);
  }

  lemma PullRspSurvivesExactly(b: Msg<PullRsp>)
    requires KeepsUnknown(PULL_RSP, b) && |Encode(PULL_RSP, b)| < TWO31
    ensures Parse(PULL_RSP, Empty(PULL_RSP), Encode(PULL_RSP, b)) == (b, Complete) <==> Utf8(b.known.errDesc)
    ensures !Utf8(b.known.errDesc) ==> Parse(PULL_RSP, Empty(PULL_RSP), Encode(PULL_RSP, b)).1.Failed?
  {
    if Utf8(b.known.errDesc) {
      PullRspCodecLaws(b, b, []);
    } else {
      var code, desc := OptVarint(1, SignExtend(b.known.errCode)), OptLen(2, b.known.errDesc);
      AbsorbAppend(PULL_RSP, Empty(PULL_RSP), code, desc);
      AbsorbAppend(PULL_RSP, Empty(PULL_RSP), code + desc, DataFields(b.known.data));
      AbsorbAppend(PULL_RSP, Empty(PULL_RSP), code + desc + DataFields(b.known.data), b.unknown);
      RefusedPrintFails(PULL_RSP, b);
    }
  }

  lemma DelCacheReqMergeLaws(a: Msg<DelCacheReq>, b: Msg<DelCacheReq>, c: Msg<DelCacheReq>)
    ensures MergeLaws(DEL_CACHE_REQ, a, b, c)
  {
    MergeLawsFollow(DEL_CACHE_REQ, a, b, c);
  }

  lemma DelCacheReqCodecLaws(a: Msg<DelCacheReq>, b: Msg<DelCacheReq>, junk: Bytes)
    requires KeepsUnknown(DEL_CACHE_REQ, a) && KeepsUnknown(DEL_CACHE_REQ, b)
    requires |Encode(DEL_CACHE_REQ, a)| < TWO31 && |Encode(DEL_CACHE_REQ, b)| < TWO31
    ensures CodecLaws(DEL_CACHE_REQ, a, b, junk)
  {
    DelCacheReqMergeLaws(a, b, a);
    DelCacheReqMergeLaws(b, a, a);
    CodecLawsFollow(DEL_CACHE_REQ, a, b, junk);
  }

  lemma DelCacheRspMergeLaws(a: Msg<DelCacheRsp>, b: Msg<DelCacheRsp>, c: Msg<DelCacheRsp>)
    ensures MergeLaws(DEL_CACHE_RSP, a, b, c)
  {
    MergeLawsFollow(DEL_CACHE_RSP, a, b, c);
  }

  lemma DelCacheRspCodecLaws(a: Msg<DelCacheRsp>, b: Msg<DelCacheRsp>, junk: Bytes)
    requires KeepsUnknown(DEL_CACHE_RSP, a) && KeepsUnknown(DEL_CACHE_RSP, b)
    requires |Encode(DEL_CACHE_RSP, a)| < TWO31 && |Encode(DEL_CACHE_RSP, b)| < TWO31
    ensures CodecLaws(DEL_CACHE_RSP, a, b, junk)
  {
    DelCacheRspMergeLaws(a, b, a);
    DelCacheRspMergeLaws(b, a, a);
    CodecLawsFollow(DEL_CACHE_RSP, a, b, junk);
  }

  // ---------------------------------------------------------------- Whatever was parsed prints and parses back

  lemma {:induction false} AbsorbKeepsValid(m: Msg<PushReq>, fs: seq<Field>)
    requires ValidPushReq(m)
    ensures ValidPushReq(AbsorbAll(PUSH_REQ, m, fs).msg)
    decreases |fs|
  {
    if fs != [] {
      if Knows(PUSH_REQ, fs[0]) {
        AbsorbKeepsUnknown(ONE_INFO, Empty(ONE_INFO), ReadFields(fs[0].payload.bytes).fields);
      }
      var o := AbsorbField(PUSH_REQ, m, fs[0]);
      if o.Taken? {
        AbsorbKeepsValid(o.msg, fs[1..]);
      }
    }
  }

  /** However a PushReq was encoded, and whatever else was in it, its reprint says the same. */
  lemma PushReqReprint(bs: Bytes)
    requires Parse(PUSH_REQ, Empty(PUSH_REQ), bs).1 == Complete
    ensures var m := Parse(PUSH_REQ, Empty(PUSH_REQ), bs).0;
      |Encode(PUSH_REQ, m)| < TWO31 ==> Parse(PUSH_REQ, Empty(PUSH_REQ), Encode(PUSH_REQ, m)) == (m, Complete)
  {
    AbsorbKeepsValid(Empty(PUSH_REQ), ReadFields(bs).fields);
    var m := Parse(PUSH_REQ, Empty(PUSH_REQ), bs).0;
    if |Encode(PUSH_REQ, m)| < TWO31 {
      PushReqCodecLaws(m, m, []);
    }
  }

  lemma {:induction false} AbsorbKeepsText(m: Msg<PullRsp>, fs: seq<Field>)
    requires Utf8(m.known.errDesc) && AbsorbAll(PULL_RSP, m, fs).Taken?
    ensures Utf8(AbsorbAll(PULL_RSP, m, fs).msg.known.errDesc)
    decreases |fs|
  {
    if fs != [] {
      AbsorbKeepsText(AbsorbField(PULL_RSP, m, fs[0]).msg, fs[1..]);
    }
  }

  lemma PullRspReprint(bs: Bytes)
    requires Parse(PULL_RSP, Empty(PULL_RSP), bs).1 == Complete
    ensures var m := Parse(PULL_RSP, Empty(PULL_RSP), bs).0;
      |Encode(PULL_RSP, m)| < TWO31 ==> Parse(PULL_RSP, Empty(PULL_RSP), Encode(PULL_RSP, m)) == (m, Complete)
  {
    AbsorbKeepsUnknown(PULL_RSP, Empty(PULL_RSP), ReadFields(bs).fields);
    AbsorbKeepsText(Empty(PULL_RSP), ReadFields(bs).fields);
    var m := Parse(PULL_RSP, Empty(PULL_RSP), bs).0;
    if |Encode(PULL_RSP, m)| < TWO31 {
      PullRspCodecLaws(m, m, []);
    }
  }

  // ---------------------------------------------------------------- What was read before an error stays

  lemma {:induction false} KeysAreKept(m: Msg<PullReq>, fs: seq<Field>)
    ensures m.known.keys <= AbsorbAll(PULL_REQ, m, fs).msg.known.keys
    decreases |fs|
  {
    if fs != [] {
      var o := AbsorbField(PULL_REQ, m, fs[0]);
      assert m.known.keys <= o.msg.known.keys;
      if o.Taken? {
        KeysAreKept(o.msg, fs[1..]);
      }
    }
  }

  lemma {:induction false} InfosAreKept(m: Msg<PushReq>, fs: seq<Field>)
    ensures m.known.infos <= AbsorbAll(PUSH_REQ, m, fs).msg.known.infos
    decreases |fs|
  {
    if fs != [] {
      var o := AbsorbField(PUSH_REQ, m, fs[0]);
      assert m.known.infos <= o.msg.known.infos;
      if o.Taken? {
        InfosAreKept(o.msg, fs[1..]);
      }
    }
  }

  /** Only a packed run is ever refused in a PullReq, and nothing in a DelCacheReq. */
  lemma {:induction false} PullReqRefuses(m: Msg<PullReq>, fs: seq<Field>)
    ensures var o := AbsorbAll(PULL_REQ, m, fs); o.Rejected? ==> o.field.payload.Len?
    decreases |fs|
  {
    if fs != [] {
      var o := AbsorbField(PULL_REQ, m, fs[0]);
      if o.Taken? {
        PullReqRefuses(o.msg, fs[1..]);
      }
    }
  }

  lemma {:induction false} DelCacheReqRefusesNothing(m: Msg<DelCacheReq>, fs: seq<Field>)
    ensures AbsorbAll(DEL_CACHE_REQ, m, fs).Taken?
    decreases |fs|
  {
    if fs != [] {
      DelCacheReqRefusesNothing(AbsorbField(DEL_CACHE_REQ, m, fs[0]).msg, fs[1..]);
    }
  }

  lemma PullReqContinues(req: Msg<PullReq>, tail: Bytes)
    requires KeepsUnknown(PULL_REQ, req) && |Encode(PULL_REQ, req)| < TWO31
    ensures Parse(PULL_REQ, Empty(PULL_REQ), Encode(PULL_REQ, req) + tail) == Parse(PULL_REQ, req, tail)
  {
    hide Encode, AbsorbAll, ReadFields, Parse;
    PullReqAbsorbs(Empty(PULL_REQ), req);
    PullReqMergeLaws(req, req, req);
    ParseEncoded(PULL_REQ, Empty(PULL_REQ), req, tail);
  }

  lemma PushReqContinues(req: Msg<PushReq>, tail: Bytes)
    requires ValidPushReq(req) && |Encode(PUSH_REQ, req)| < TWO31
    ensures Parse(PUSH_REQ, Empty(PUSH_REQ), Encode(PUSH_REQ, req) + tail) == Parse(PUSH_REQ, req, tail)
  {
    hide Encode, AbsorbAll, ReadFields, Parse;
    PushReqAbsorbs(Empty(PUSH_REQ), req);
    PushReqMergeLaws(req, req, req);
    ParseEncoded(PUSH_REQ, Empty(PUSH_REQ), req, tail);
  }

  /** However a parse into a message ends, the keys the message had come first. */
  lemma PullReqKeeps(req: Msg<PullReq>, tail: Bytes, m: Msg<PullReq>)
    requires Leaves(PULL_REQ, Parse(PULL_REQ, req, tail), m)
    ensures req.known.keys <= m.known.keys
  {
    hide AbsorbAll, ReadFields;
    KeysAreKept(req, ReadFields(tail).fields);
  }

  lemma PushReqKeeps(req: Msg<PushReq>, tail: Bytes, m: Msg<PushReq>)
    requires Leaves(PUSH_REQ, Parse(PUSH_REQ, req, tail), m)
    ensures req.known.infos <= m.known.infos
  {
    hide AbsorbAll, ReadFields;
    InfosAreKept(req, ReadFields(tail).fields);
  }

  /** A single key cut off behind its tag is added, whatever it is. */
  lemma CutOffKey(req: Msg<PullReq>, m: Msg<PullReq>)
    ensures Leaves(PULL_REQ, Parse(PULL_REQ, req, [8]), m) <==>
            m == Msg(PullReq(m.known.keys, req.known.field), req.unknown) && OneMore(req.known.keys, m.known.keys)
  {
    ReadOneByteTag([8]);
    ParseTurn(PULL_REQ, req, [8]);
  }

  /** The bytes of a nested message that is cut off behind its printed fields. */
  function CutOff(info: Msg<OneInfo>, size: nat): Bytes {
    [10] + (Varint(size) + Encode(ONE_INFO, info))
  }

  /** Such a message is added with exactly these fields, though the parse fails. */
  lemma CutOffInfo(req: Msg<PushReq>, info: Msg<OneInfo>, size: nat, m: Msg<PushReq>)
    requires KeepsUnknown(ONE_INFO, info) && |Encode(ONE_INFO, info)| < size < TWO31
    ensures Parse(PUSH_REQ, req, CutOff(info, size)).1.Failed?
    ensures Leaves(PUSH_REQ, Parse(PUSH_REQ, req, CutOff(info, size)), m) <==>
            m == Msg(PushReq(req.known.infos + [info]), req.unknown)
  {
    hide Encode, Parse, Varint, ReadVarint;
    var bs, at := CutOff(info, size), Varint(size) + Encode(ONE_INFO, info);
    assert bs[1..] == at;
    ReadOneByteTag(bs);
    assert ReadVarint(at, 5) == Ok(size, Encode(ONE_INFO, info)) by {
      Pow128Values();
      ReadVarintInverts(size, Encode(ONE_INFO, info), 5);
    }
    assert ReadPayload(10, at) == Fail && AtHand(at) == Encode(ONE_INFO, info);
    ParseTurn(PUSH_REQ, req, bs);
    OneInfoCodecLaws(info, info, []);
    assert Parse(PUSH_REQ, req, bs) == (req, Failed(Unreadable(10, at)));
    if SpoilPushReq(req.known, Unreadable(10, at), m.known) {
      assert m.known.infos == req.known.infos + [m.known.infos[|req.known.infos|]];
    }
  }

  // ---------------------------------------------------------------- Other encodings of a PullReq

  /** The ways a peer may write part of a PullReq: packed runs, single elements, fields of no interest. */
  datatype Piece =
    | PackedKeys(keys: seq<uint64>)
    | OneKey(key: uint64)
    | PackedField(field: seq<uint64>)
    | OneField(one: uint64)
    | Other(unknown: Field)

  function PieceField(p: Piece): Field {
    match p
    case PackedKeys(vs) => Field(1, Len(Pack(vs)))
    case OneKey(v) => Field(1, VarintVal(v))
    case PackedField(vs) => Field(2, Len(Pack(vs)))
    case OneField(v) => Field(2, VarintVal(v))
    case Other(f) => f
  }

  /** The message one piece stands for on its own. */
  function PieceMeaning(p: Piece): Msg<PullReq> {
    match p
    case PackedKeys(vs) => Msg(PullReq(vs, []), [])
    case OneKey(v) => Msg(PullReq([v], []), [])
    case PackedField(vs) => Msg(PullReq([], Narrow(vs)), [])
    case OneField(v) => Msg(PullReq([], Narrow([v])), [])
    case Other(f) => Msg(PullReq([], []), [f])
  }

  function PieceFields(ps: seq<Piece>): seq<Field> {
    if ps == [] then [] else [PieceField(ps[0])] + PieceFields(ps[1..])
  }

  function Meaning(ps: seq<Piece>): Msg<PullReq> {
    if ps == [] then Empty(PULL_REQ) else MergeMsg(PULL_REQ, PieceMeaning(ps[0]), Meaning(ps[1..]))
  }

  lemma {:induction false} PiecesAbsorb(m: Msg<PullReq>, ps: seq<Piece>)
    requires forall p <- ps :: p.Other? ==> !Knows(PULL_REQ, p.unknown)
    ensures AbsorbAll(PULL_REQ, m, PieceFields(ps)) == Taken(MergeMsg(PULL_REQ, m, Meaning(ps)))
    decreases |ps|
  {
    if ps == [] {
      PullReqMergeLaws(m, m, m);
    } else {
      var m' := MergeMsg(PULL_REQ, m, PieceMeaning(ps[0]));
      assert AbsorbField(PULL_REQ, m, PieceField(ps[0])) == Taken(m') by {
        PieceAbsorbs(m, ps[0]);
      }
      assert PieceFields(ps)[1..] == PieceFields(ps[1..]);
      PiecesAbsorb(m', ps[1..]);
      PullReqMergeLaws(m, PieceMeaning(ps[0]), Meaning(ps[1..]));
    }
  }

  lemma PieceAbsorbs(m: Msg<PullReq>, p: Piece)
    requires p.Other? ==> !Knows(PULL_REQ, p.unknown)
    ensures AbsorbField(PULL_REQ, m, PieceField(p)) == Taken(MergeMsg(PULL_REQ, m, PieceMeaning(p)))
  {
    assert m.known.keys + [] == m.known.keys && m.known.field + [] == m.known.field && m.unknown + [] == m.unknown;
    match p {
      case PackedKeys(vs) => UnpackInverts(vs);
      case PackedField(vs) => UnpackInverts(vs);
      case OneField(v) => assert Narrow([v]) == [v % TWO32];
      case _ =>
    }
  }

  /** However the pieces are interleaved, they parse to their concatenation in order. */
  lemma PullReqEncodingFreedom(ps: seq<Piece>)
    requires forall p <- ps :: p.Other? ==> !Knows(PULL_REQ, p.unknown)
    requires |EncodeFields(PieceFields(ps))| < TWO31
    ensures Parse(PULL_REQ, Empty(PULL_REQ), EncodeFields(PieceFields(ps))) == (Meaning(ps), Complete)
  {
    var bs := EncodeFields(PieceFields(ps));
    SmallMeansFits(PieceFields(ps));
    PiecesAbsorb(Empty(PULL_REQ), ps);
    ParseFields(PULL_REQ, Empty(PULL_REQ), PieceFields(ps), []);
    assert bs + [] == bs;
    PullReqMergeLaws(Meaning(ps), Meaning(ps), Meaning(ps));
  }
}
