/**
 The bytes of every message, tag by tag as the generated code has them, and what each tag does to a
 message: written out, without the schemas.
 */
module Layout {
  import opened Wire
  import opened Codec
  import opened Output
  import M = Messages
  import T = TestPb

  // ---------------------------------------------------------------- Fields

  lemma FieldBytes(f: Field)
    ensures EncodeField(f) ==
      match f.payload
      case VarintVal(v) => Varint(f.num * 8) + Varint(v)
      case I64(raw) => Varint(f.num * 8 + 1) + raw
      case Len(bs) => Varint(f.num * 8 + 2) + (Varint(|bs|) + bs)
      case Group(fs) => Varint(f.num * 8 + 3) + (EncodeFields(fs) + Varint(f.num * 8 + 4))
      case I32(raw) => Varint(f.num * 8 + 5) + raw
  {
  }

  /** Field number 0 and wire types 6 and 7 are no fields, and a group ends at the end tag of its own number. */
  lemma NoField(tag: uint32, bs: Bytes, num: fieldnum, other: fieldnum, fs: seq<Field>)
    ensures tag < 8 || tag % 8 == 6 || tag % 8 == 7 ==> ReadPayload(tag, bs) == Fail
    ensures Fits(fs) && other != num ==> ReadPayload(num * 8 + 3, EncodeFields(fs) + Varint(other * 8 + 4) + bs) == Fail
  {
    if Fits(fs) {
      ReadGroupInverts(other, fs, bs);
      TagParts(num, 3);
    }
  }

  function Text(tag: byte, bs: Bytes): Bytes {
    [tag] + Varint(|bs|) + bs
  }

  function Texts(tag: byte, data: seq<Bytes>): Bytes {
    if data == [] then [] else Text(tag, data[0]) + Texts(tag, data[1..])
  }

  function Numbers(vs: seq<uint64>): Bytes {
    if vs == [] then [] else Numbers(vs[..|vs| - 1]) + Varint(vs[|vs| - 1])
  }

  /** The elements of a list stand one behind the other, each with its tag and its length. */
  lemma {:induction false} TextsSnoc(tag: byte, data: seq<Bytes>, last: Bytes)
    ensures Texts(tag, []) == [] && Texts(tag, data + [last]) == Texts(tag, data) + ([tag] + Varint(|last|) + last)
    decreases |data|
  {
    if data == [] {
      assert data + [last] == [last] && [last][1..] == [];
    } else {
      TextsSnoc(tag, data[1..], last);
      assert (data + [last])[1..] == data[1..] + [last];
      Assoc(Text(tag, data[0]), Texts(tag, data[1..]), Text(tag, last));
    }
  }

  /** A number that is 0, and a text that is empty, is not written. */
  lemma OptFieldBytes(num: fieldnum, v: uint64, bs: Bytes)
    requires num < 16
    ensures EncodeFields(M.OptVarint(num, v)) == if v != 0 then [num * 8] + Varint(v) else []
    ensures EncodeFields(M.OptLen(num, bs)) == if bs != [] then [num * 8 + 2] + Varint(|bs|) + bs else []
  {
    EncodeNone();
    EncodeOne(Field(num, VarintVal(v)));
    EncodeOne(Field(num, Len(bs)));
    FieldBytes(Field(num, VarintVal(v)));
    FieldBytes(Field(num, Len(bs)));
    assert Varint(num * 8) == [num * 8] && Varint(num * 8 + 2) == [num * 8 + 2];
  }

  lemma {:induction false} PackBytes(vs: seq<uint64>)
    ensures M.Pack(vs) == Numbers(vs)
    decreases |vs|
  {
    if vs != [] {
      PackBytes(vs[..|vs| - 1]);
      PackSnoc(vs[..|vs| - 1], vs[|vs| - 1]);
      assert vs[..|vs| - 1] + [vs[|vs| - 1]] == vs;
    }
  }

  lemma {:induction false} PackSnoc(vs: seq<uint64>, v: uint64)
    ensures M.Pack(vs + [v]) == M.Pack(vs) + Varint(v)
    decreases |vs|
  {
    if vs == [] {
      assert vs + [v] == [v] && [v][1..] == [];
    } else {
      PackSnoc(vs[1..], v);
      assert (vs + [v])[1..] == vs[1..] + [v];
      Assoc(Varint(vs[0]), M.Pack(vs[1..]), Varint(v));
    }
  }

  lemma {:induction false} DataBytes(data: seq<Bytes>)
    ensures EncodeFields(M.DataFields(data)) == Texts(26, data)
    decreases |data|
  {
    hide EncodeField, Varint;
    if data != [] {
      DataBytes(data[1..]);
      assert M.DataFields(data)[1..] == M.DataFields(data[1..]);
      FieldBytes(Field(3, Len(data[0])));
      assert EncodeField(Field(3, Len(data[0]))) == Text(26, data[0]) by {
        TagByte(26);
        Assoc([26], Varint(|data[0]|), data[0]);
      }
    }
  }

  lemma TagByte(tag: byte)
    requires tag < 128
    ensures Varint(tag) == [tag]
  {
  }

  // ---------------------------------------------------------------- What each message prints

  lemma OneInfoBytes(m: Msg<M.OneInfo>)
    ensures Encode(M.ONE_INFO, m) ==
            (if m.known.key != 0 then [8] + Varint(m.known.key) else []) +
            (if m.known.data != [] then [18] + Varint(|m.known.data|) + m.known.data else []) +
            EncodeFields(m.unknown)
  {
    hide EncodeFields, Varint;
    EncodeThree(M.OptVarint(1, m.known.key), M.OptLen(2, m.known.data), m.unknown);
    OptFieldBytes(1, m.known.key, []);
    OptFieldBytes(2, 0, m.known.data);
  }

  function Nested(infos: seq<Msg<M.OneInfo>>): (bodies: seq<Bytes>)
    ensures |bodies| == |infos|
  {
    seq(|infos|, i requires 0 <= i < |infos| =>
      (if infos[i].known.key != 0 then [8] + Varint(infos[i].known.key) else []) +
      (if infos[i].known.data != [] then [18] + Varint(|infos[i].known.data|) + infos[i].known.data else []) +
      EncodeFields(infos[i].unknown))
  }

  lemma {:induction false} InfoBytes(infos: seq<Msg<M.OneInfo>>)
    ensures EncodeFields(M.InfoFields(infos)) == Texts(10, Nested(infos))
    decreases |infos|
  {
    hide EncodeField, Varint, Encode;
    if infos != [] {
      var body := Encode(M.ONE_INFO, infos[0]);
      OneInfoBytes(infos[0]);
      InfoBytes(infos[1..]);
      assert Nested(infos)[1..] == Nested(infos[1..]) && Nested(infos)[0] == body;
      FieldBytes(Field(1, Len(body)));
      assert EncodeField(Field(1, Len(body))) == Text(10, body) by {
        TagByte(10);
        Assoc([10], Varint(|body|), body);
      }
    }
  }

  lemma PushReqBytes(m: Msg<M.PushReq>)
    ensures Encode(M.PUSH_REQ, m) == Texts(10, Nested(m.known.infos)) + EncodeFields(m.unknown)
  {
    hide EncodeFields, Texts, Nested;
    EncodeAppend(M.InfoFields(m.known.infos), m.unknown);
    InfoBytes(m.known.infos);
  }

  lemma PushRspBytes(m: Msg<M.PushRsp>)
    ensures Encode(M.PUSH_RSP, m) ==
            (if m.known.errCode == 0 then []
             else if m.known.errCode > 0 then [8] + Varint(m.known.errCode)
             else [8] + Varint(m.known.errCode + 0x1_0000_0000_0000_0000)) +
            (if m.known.errDesc != [] then [18] + Varint(|m.known.errDesc|) + m.known.errDesc else []) +
            EncodeFields(m.unknown)
  {
    hide EncodeFields, Varint;
    EncodeThree(M.OptVarint(1, M.SignExtend(m.known.errCode)), M.OptLen(2, m.known.errDesc), m.unknown);
    OptFieldBytes(1, M.SignExtend(m.known.errCode), []);
    OptFieldBytes(2, 0, m.known.errDesc);
  }

  lemma PullReqBytes(m: Msg<M.PullReq>)
    ensures Encode(M.PULL_REQ, m) ==
            (if m.known.keys != [] then [10] + Varint(|Numbers(m.known.keys)|) + Numbers(m.known.keys) else []) +
            (if m.known.field != [] then [18] + Varint(|Numbers(m.known.field)|) + Numbers(m.known.field) else []) +
            EncodeFields(m.unknown)
  {
    hide EncodeFields, Varint, M.Pack, Numbers;
    M.PackEmpty(m.known.keys);
    M.PackEmpty(m.known.field);
    var keys, field := M.Pack(m.known.keys), M.Pack(m.known.field);
    EncodeThree(M.OptLen(1, keys), M.OptLen(2, field), m.unknown);
    OptFieldBytes(1, 0, keys);
    OptFieldBytes(2, 0, field);
    PackBytes(m.known.keys);
    PackBytes(m.known.field);
  }

  lemma PullRspBytes(m: Msg<M.PullRsp>)
    ensures Encode(M.PULL_RSP, m) ==
            (if m.known.errCode == 0 then []
             else if m.known.errCode > 0 then [8] + Varint(m.known.errCode)
             else [8] + Varint(m.known.errCode + 0x1_0000_0000_0000_0000)) +
            (if m.known.errDesc != [] then [18] + Varint(|m.known.errDesc|) + m.known.errDesc else []) +
            Texts(26, m.known.data) + EncodeFields(m.unknown)
  {
    hide EncodeFields, Varint, Texts;
    var k := m.known;
    var code, desc := M.OptVarint(1, M.SignExtend(k.errCode)), M.OptLen(2, k.errDesc);
    EncodeAppend(code + desc + M.DataFields(k.data), m.unknown);
    EncodeThree(code, desc, M.DataFields(k.data));
    OptFieldBytes(1, M.SignExtend(k.errCode), []);
    OptFieldBytes(2, 0, k.errDesc);
    DataBytes(k.data);
  }

  lemma DelCacheReqBytes(m: Msg<M.DelCacheReq>)
    ensures Encode(M.DEL_CACHE_REQ, m) ==
            (if m.known.key != 0 then [8] + Varint(m.known.key) else []) + EncodeFields(m.unknown)
  {
    hide EncodeFields, Varint;
    EncodeAppend(M.OptVarint(1, m.known.key), m.unknown);
    OptFieldBytes(1, m.known.key, []);
  }

  lemma DelCacheRspBytes(m: Msg<M.DelCacheRsp>)
    ensures Encode(M.DEL_CACHE_RSP, m) == (if m.known.succ then [8, 1] else []) + EncodeFields(m.unknown)
  {
    hide EncodeFields;
    var v := if m.known.succ then 1 else 0;
    EncodeAppend(M.OptVarint(1, v), m.unknown);
    OptFieldBytes(1, v, []);
    TagByte(1);
  }

  lemma TableNameTag()
    ensures Varint(79818) == [202, 239, 4]
  {
  }

  lemma TableNameBytes(bs: Bytes)
    ensures EncodeFields(M.OptLen(9977, bs)) == if bs != [] then [202, 239, 4] + (Varint(|bs|) + bs) else []
  {
    hide EncodeField, EncodeFields, Varint;
    EncodeNone();
    EncodeOne(Field(9977, Len(bs)));
    FieldBytes(Field(9977, Len(bs)));
    TableNameTag();
  }

  lemma TestPbBytes(m: Msg<T.Data>)
    ensures Encode(T.TEST_PB, m) ==
            (if m.known.sence != [] then [10] + Varint(|m.known.sence|) + m.known.sence else []) +
            (if m.known.page == 0 then []
             else if m.known.page > 0 then [16] + Varint(m.known.page)
             else [16] + Varint(m.known.page + 0x1_0000_0000_0000_0000)) +
            (if m.known.tableName == [] then []
             else [202, 239, 4] + (Varint(|m.known.tableName|) + m.known.tableName)) +
            EncodeFields(m.unknown)
  {
    hide Encode, EncodeFields, Varint, M.OptLen, M.OptVarint;
    var k := m.known;
    T.EncodeParts(m);
    OptFieldBytes(1, 0, k.sence);
    OptFieldBytes(2, M.SignExtend(k.page), []);
    TableNameBytes(k.tableName);
  }

  // ---------------------------------------------------------------- Which fields each message knows

  predicate IsNumber(f: Field, num: nat) {
    f.num == num && f.payload.VarintVal?
  }

  predicate IsText(f: Field, num: nat) {
    f.num == num && f.payload.Len?
  }

  lemma KnownFields(f: Field)
    ensures Knows(M.ONE_INFO, f) <==> IsNumber(f, 1) || IsText(f, 2)
    ensures Knows(M.PUSH_REQ, f) <==> IsText(f, 1)
    ensures Knows(M.PUSH_RSP, f) <==> IsNumber(f, 1) || IsText(f, 2)
    ensures Knows(M.PULL_REQ, f) <==> IsNumber(f, 1) || IsText(f, 1) || IsNumber(f, 2) || IsText(f, 2)
    ensures Knows(M.PULL_RSP, f) <==> IsNumber(f, 1) || IsText(f, 2) || IsText(f, 3)
    ensures Knows(M.DEL_CACHE_REQ, f) <==> IsNumber(f, 1)
    ensures Knows(M.DEL_CACHE_RSP, f) <==> IsNumber(f, 1)
    ensures Knows(T.TEST_PB, f) <==> IsText(f, 1) || IsNumber(f, 2) || IsText(f, 9977)
  {
    TagParts(f.num, WireType(f.payload));
  }

  // ---------------------------------------------------------------- What each tag does to a message

  lemma NumberParses<K>(s: Schema<K>, m: Msg<K>, tag: byte, v: uint64)
    requires tag < 128 && tag % 8 == 0 && tag in s.tags && tag != 0
    ensures Parse(s, m, [tag] + Varint(v)) ==
      match s.absorb(m.known, Field(tag / 8, VarintVal(v)))
      case Some(k) => (m.(known := k), Complete)
      case None => (m, Failed(Refused(Field(tag / 8, VarintVal(v)))))
  {
    hide ReadVarint64, Varint, Parse;
    var bs := [tag] + Varint(v);
    assert bs[1..] == Varint(v) + [];
    ReadOneByteTag(bs);
    ReadVarint64Inverts(v, []);
    ParseTurn(s, m, bs);
    forall k {
      ParseNothing(s, m.(known := k));
    }
  }

  lemma TextParses<K>(s: Schema<K>, m: Msg<K>, tag: byte, bs: Bytes)
    requires tag < 128 && tag % 8 == 2 && tag in s.tags && tag > 8 && |bs| < TWO31
    ensures Parse(s, m, [tag] + Varint(|bs|) + bs) ==
      match s.absorb(m.known, Field(tag / 8, Len(bs)))
      case Some(k) => (m.(known := k), Complete)
      case None => (m, Failed(Refused(Field(tag / 8, Len(bs)))))
  {
    hide ReadLen, Varint, Parse;
    var input := [tag] + Varint(|bs|) + bs;
    assert input[1..] == Varint(|bs|) + bs + [];
    ReadOneByteTag(input);
    ReadLenInverts(bs, []);
    ParseTurn(s, m, input);
    forall k {
      ParseNothing(s, m.(known := k));
    }
  }

  /** A known tag with nothing behind it. */
  lemma BareTagFails<K>(s: Schema<K>, m: Msg<K>, tag: byte)
    requires tag < 128 && (tag % 8 == 0 || tag % 8 == 2) && tag in s.tags && tag >= 8
    ensures Parse(s, m, [tag]) == (m, Failed(Unreadable(tag, [])))
  {
    hide Parse;
    ReadOneByteTag([tag]);
    ParseTurn(s, m, [tag]);
  }

  lemma OneInfoReads(m: Msg<M.OneInfo>, v: uint64, bs: Bytes)
    ensures Parse(M.ONE_INFO, m, [8] + Varint(v)) == (m.(known := M.OneInfo(v, m.known.data)), Complete)
    ensures |bs| < TWO31 ==>
              Parse(M.ONE_INFO, m, [18] + Varint(|bs|) + bs) == (m.(known := M.OneInfo(m.known.key, bs)), Complete)
  {
    hide Parse, Varint;
    NumberParses(M.ONE_INFO, m, 8, v);
    if |bs| < TWO31 {
      TextParses(M.ONE_INFO, m, 18, bs);
    }
  }

  /** A tag with nothing behind it fails; the number or the data may then be anything, the rest is as it was. */
  lemma OneInfoCutOff(m: Msg<M.OneInfo>, m': Msg<M.OneInfo>)
    ensures Leaves(M.ONE_INFO, Parse(M.ONE_INFO, m, [8]), m') <==>
            m' == Msg(M.OneInfo(m'.known.key, m.known.data), m.unknown)
    ensures Leaves(M.ONE_INFO, Parse(M.ONE_INFO, m, [18]), m') <==>
            m' == Msg(M.OneInfo(m.known.key, m'.known.data), m.unknown)
  {
    hide Parse;
    BareTagFails(M.ONE_INFO, m, 8);
    BareTagFails(M.ONE_INFO, m, 18);
  }

  lemma PushReqReads(m: Msg<M.PushReq>, bs: Bytes)
    requires |bs| < TWO31
    ensures var (info, verdict) := Parse(M.ONE_INFO, Empty(M.ONE_INFO), bs);
      verdict == Complete ==>
        Parse(M.PUSH_REQ, m, [10] + Varint(|bs|) + bs) == (Msg(M.PushReq(m.known.infos + [info]), m.unknown), Complete)
  {
    hide Parse, Varint;
    TextParses(M.PUSH_REQ, m, 10, bs);
  }

  /** A number is read as the code with the same low 32 bits. */
  predicate SameLow32(code: int32, v: uint64) {
    (v - code) % 0x1_0000_0000 == 0
  }

  lemma TruncateLow32(v: uint64)
    ensures SameLow32(M.Truncate(v), v)
  {
  }

  lemma PushRspReads(m: Msg<M.PushRsp>, v: uint64, bs: Bytes)
    ensures var (m', verdict) := Parse(M.PUSH_RSP, m, [8] + Varint(v));
      && verdict == Complete && SameLow32(m'.known.errCode, v)
      && m' == Msg(M.PushRsp(m'.known.errCode, m.known.errDesc), m.unknown)
    ensures |bs| < TWO31 ==>
      var parsed := Parse(M.PUSH_RSP, m, [18] + Varint(|bs|) + bs);
      var m' := Msg(M.PushRsp(m.known.errCode, bs), m.unknown);
      if M.Utf8(bs) then parsed == (m', Complete)
      else parsed.1.Failed? && forall x :: Leaves(M.PUSH_RSP, parsed, x) <==> x == m'
  {
    hide Parse, Varint, M.Utf8, M.Truncate;
    NumberParses(M.PUSH_RSP, m, 8, v);
    TruncateLow32(v);
    if |bs| < TWO31 {
      TextParses(M.PUSH_RSP, m, 18, bs);
    }
  }

  lemma PushRspCutOff(m: Msg<M.PushRsp>, m': Msg<M.PushRsp>)
    ensures Leaves(M.PUSH_RSP, Parse(M.PUSH_RSP, m, [8]), m') <==>
            m' == Msg(M.PushRsp(m'.known.errCode, m.known.errDesc), m.unknown)
    ensures Leaves(M.PUSH_RSP, Parse(M.PUSH_RSP, m, [18]), m') <==>
            m' == Msg(M.PushRsp(m.known.errCode, m'.known.errDesc), m.unknown)
  {
    hide Parse;
    BareTagFails(M.PUSH_RSP, m, 8);
    BareTagFails(M.PUSH_RSP, m, 18);
  }

  function Low32(vs: seq<uint64>): (ws: seq<uint32>)
    ensures |ws| == |vs| && forall i | 0 <= i < |vs| :: ws[i] == vs[i] % 0x1_0000_0000
  {
    seq(|vs|, i requires 0 <= i < |vs| => vs[i] % 0x1_0000_0000)
  }

  lemma PullReqReads(m: Msg<M.PullReq>, v: uint64, vs: seq<uint64>)
    ensures Parse(M.PULL_REQ, m, [8] + Varint(v)) ==
            (Msg(M.PullReq(m.known.keys + [v], m.known.field), m.unknown), Complete)
    ensures Parse(M.PULL_REQ, m, [16] + Varint(v)) ==
            (Msg(M.PullReq(m.known.keys, m.known.field + [v % 0x1_0000_0000]), m.unknown), Complete)
    ensures var bs := Numbers(vs);
      |bs| < TWO31 ==>
        && Parse(M.PULL_REQ, m, [10] + Varint(|bs|) + bs) ==
           (Msg(M.PullReq(m.known.keys + vs, m.known.field), m.unknown), Complete)
        && Parse(M.PULL_REQ, m, [18] + Varint(|bs|) + bs) ==
           (Msg(M.PullReq(m.known.keys, m.known.field + Low32(vs)), m.unknown), Complete)
  {
    hide Parse, Varint, Numbers, M.Unpack, M.Pack;
    NumberParses(M.PULL_REQ, m, 8, v);
    NumberParses(M.PULL_REQ, m, 16, v);
    PackBytes(vs);
    M.UnpackInverts(vs);
    assert M.Narrow(vs) == Low32(vs);
    if |Numbers(vs)| < TWO31 {
      TextParses(M.PULL_REQ, m, 10, Numbers(vs));
      TextParses(M.PULL_REQ, m, 18, Numbers(vs));
    }
  }

  /** A single element is added whatever it is; of a list without a length anything may be added. */
  lemma PullReqCutOff(m: Msg<M.PullReq>, m': Msg<M.PullReq>)
    requires m'.unknown == m.unknown
    ensures Leaves(M.PULL_REQ, Parse(M.PULL_REQ, m, [8]), m') <==>
            m'.known.field == m.known.field && exists k :: m'.known.keys == m.known.keys + [k]
    ensures Leaves(M.PULL_REQ, Parse(M.PULL_REQ, m, [16]), m') <==>
            m'.known.keys == m.known.keys && exists f :: m'.known.field == m.known.field + [f]
    ensures Leaves(M.PULL_REQ, Parse(M.PULL_REQ, m, [10]), m') <==>
            m'.known.field == m.known.field && m.known.keys <= m'.known.keys
    ensures Leaves(M.PULL_REQ, Parse(M.PULL_REQ, m, [18]), m') <==>
            m'.known.keys == m.known.keys && m.known.field <= m'.known.field
  {
    hide Parse;
    BareTagFails(M.PULL_REQ, m, 8);
    BareTagFails(M.PULL_REQ, m, 16);
    BareTagFails(M.PULL_REQ, m, 10);
    BareTagFails(M.PULL_REQ, m, 18);
    OneMoreIsSnoc(m.known.keys, m'.known.keys);
    OneMoreIsSnoc(m.known.field, m'.known.field);
  }

  lemma OneMoreIsSnoc<X>(xs: seq<X>, xs': seq<X>)
    ensures M.OneMore(xs, xs') <==> exists x :: xs' == xs + [x]
  {
    if M.OneMore(xs, xs') {
      assert xs' == xs + [xs'[|xs|]];
    }
  }

  lemma PullRspReads(m: Msg<M.PullRsp>, v: uint64, bs: Bytes)
    ensures var (m', verdict) := Parse(M.PULL_RSP, m, [8] + Varint(v));
      && verdict == Complete && SameLow32(m'.known.errCode, v)
      && m' == Msg(M.PullRsp(m'.known.errCode, m.known.errDesc, m.known.data), m.unknown)
    ensures |bs| < TWO31 ==>
      Parse(M.PULL_RSP, m, [26] + Varint(|bs|) + bs) ==
      (Msg(M.PullRsp(m.known.errCode, m.known.errDesc, m.known.data + [bs]), m.unknown), Complete)
    ensures |bs| < TWO31 ==>
      var parsed := Parse(M.PULL_RSP, m, [18] + Varint(|bs|) + bs);
      var m' := Msg(M.PullRsp(m.known.errCode, bs, m.known.data), m.unknown);
      if M.Utf8(bs) then parsed == (m', Complete)
      else parsed.1.Failed? && forall x :: Leaves(M.PULL_RSP, parsed, x) <==> x == m'
  {
    hide Parse, Varint, M.Utf8, M.Truncate;
    NumberParses(M.PULL_RSP, m, 8, v);
    TruncateLow32(v);
    if |bs| < TWO31 {
      TextParses(M.PULL_RSP, m, 18, bs);
      TextParses(M.PULL_RSP, m, 26, bs);
    }
  }

  lemma PullRspCutOff(m: Msg<M.PullRsp>, m': Msg<M.PullRsp>)
    requires m'.unknown == m.unknown
    ensures Leaves(M.PULL_RSP, Parse(M.PULL_RSP, m, [8]), m') <==> m'.known == m.known.(errCode := m'.known.errCode)
    ensures Leaves(M.PULL_RSP, Parse(M.PULL_RSP, m, [18]), m') <==> m'.known == m.known.(errDesc := m'.known.errDesc)
    ensures Leaves(M.PULL_RSP, Parse(M.PULL_RSP, m, [26]), m') <==>
            m'.known == m.known.(data := m'.known.data) && exists d :: m'.known.data == m.known.data + [d]
  {
    hide Parse;
    BareTagFails(M.PULL_RSP, m, 8);
    BareTagFails(M.PULL_RSP, m, 18);
    BareTagFails(M.PULL_RSP, m, 26);
    OneMoreIsSnoc(m.known.data, m'.known.data);
  }

  lemma DelCacheReads(m: Msg<M.DelCacheReq>, n: Msg<M.DelCacheRsp>, v: uint64)
    ensures Parse(M.DEL_CACHE_REQ, m, [8] + Varint(v)) == (Msg(M.DelCacheReq(v), m.unknown), Complete)
    ensures Parse(M.DEL_CACHE_RSP, n, [8] + Varint(v)) == (Msg(M.DelCacheRsp(v != 0), n.unknown), Complete)
  {
    hide Parse, Varint;
    NumberParses(M.DEL_CACHE_REQ, m, 8, v);
    NumberParses(M.DEL_CACHE_RSP, n, 8, v);
  }

  lemma DelCacheCutOff(m: Msg<M.DelCacheReq>, m': Msg<M.DelCacheReq>, n: Msg<M.DelCacheRsp>, n': Msg<M.DelCacheRsp>)
    ensures Leaves(M.DEL_CACHE_REQ, Parse(M.DEL_CACHE_REQ, m, [8]), m') <==> m'.unknown == m.unknown
    ensures Leaves(M.DEL_CACHE_RSP, Parse(M.DEL_CACHE_RSP, n, [8]), n') <==> n'.unknown == n.unknown
  {
    hide Parse;
    BareTagFails(M.DEL_CACHE_REQ, m, 8);
    BareTagFails(M.DEL_CACHE_RSP, n, 8);
  }

  lemma TestPbReads(m: Msg<T.Data>, v: uint64, bs: Bytes)
    ensures var (m', verdict) := Parse(T.TEST_PB, m, [16] + Varint(v));
      && verdict == Complete && SameLow32(m'.known.page, v)
      && m' == Msg(T.Data(m.known.sence, m'.known.page, m.known.tableName), m.unknown)
    ensures |bs| < TWO31 ==>
      var parsed := Parse(T.TEST_PB, m, [10] + Varint(|bs|) + bs);
      var m' := Msg(T.Data(bs, m.known.page, m.known.tableName), m.unknown);
      if M.Utf8(bs) then parsed == (m', Complete)
      else parsed.1.Failed? && forall x :: Leaves(T.TEST_PB, parsed, x) <==> x == m'
    ensures |bs| < TWO31 ==>
      var parsed := Parse(T.TEST_PB, m, [202, 239, 4] + (Varint(|bs|) + bs));
      var m' := Msg(T.Data(m.known.sence, m.known.page, bs), m.unknown);
      if M.Utf8(bs) then parsed == (m', Complete)
      else parsed.1.Failed? && forall x :: Leaves(T.TEST_PB, parsed, x) <==> x == m'
  {
    hide Parse, Varint, M.Utf8, M.Truncate;
    NumberParses(T.TEST_PB, m, 16, v);
    TruncateLow32(v);
    if |bs| < TWO31 {
      TextParses(T.TEST_PB, m, 10, bs);
      TableNameParses(m, bs);
    }
  }

  lemma TableNameParses(m: Msg<T.Data>, bs: Bytes)
    requires |bs| < TWO31
    ensures Parse(T.TEST_PB, m, [202, 239, 4] + (Varint(|bs|) + bs)) ==
            if M.Utf8(bs) then (m.(known := m.known.(tableName := bs)), Complete)
            else (m, Failed(Refused(Field(9977, Len(bs)))))
  {
    hide Parse, Varint, ReadLen, M.Utf8;
    TableNameTag();
    var tail := Varint(|bs|) + bs;
    ReadTagInverts(9977, 2, tail);
    assert tail + [] == tail;
    ReadLenInverts(bs, []);
    ParseTurn(T.TEST_PB, m, [202, 239, 4] + tail);
    ParseNothing(T.TEST_PB, m.(known := m.known.(tableName := bs)));
  }

  /** Tag 0 and every end-group tag stop a parse with the message as it stands; nothing behind them is looked at. */
  lemma StopTags<K>(s: Schema<K>, m: Msg<K>, num: fieldnum, junk: Bytes)
    ensures Parse(s, m, [0] + junk) == (m, Stopped(0))
    ensures Parse(s, m, Varint(num * 8 + 4) + junk) == (m, Stopped(num * 8 + 4))
  {
    hide Parse, Varint;
    ParseStopsAtZero(s, m, junk);
    ReadTagInverts(num, 4, junk);
    TagParts(num, 4);
    VarintLength(num * 8 + 4);
    ParseTurn(s, m, Varint(num * 8 + 4) + junk);
  }
}
