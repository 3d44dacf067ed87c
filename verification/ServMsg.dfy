/**
 The generated message classes. Each object stands for a value of Messages through Value(); the
 methods change the fields step by step as the generated code does, and are tied to Parse, Encode
 and MergeMsg of the type's schema.
 */
module ServMsg {
  import opened Wire
  import opened Codec
  import opened Input
  import opened Output
  import M = Messages

  /** One pushed key and its data. */
  class OneInfo {
    var key: uint64
    var data: Bytes
    var unknown: seq<Field>
    var cachedSize: int

    function Value(): Msg<M.OneInfo>
      reads this`key, this`data, this`unknown
    {
      Msg(M.OneInfo(key, data), unknown)
    }

    function Printed(): Bytes
      reads this`key, this`data, this`unknown
    {
      Encode(M.ONE_INFO, Value())
    }

    constructor ()
      ensures Value() == Empty(M.ONE_INFO)
    {
      key, data, unknown, cachedSize := 0, [], [], 0;
    }

    method Clear()
      modifies this
      ensures Value() == Empty(M.ONE_INFO)
    {
      data := [];
      key := 0;
      unknown := [];
    }

    method InternalParse(input: Bytes) returns (verdict: Verdict)
      modifies this
      ensures var parsed := Parse(M.ONE_INFO, old(Value()), input);
        verdict == parsed.1 && Leaves(M.ONE_INFO, parsed, Value())
    {
      hide Parse, Leaves, CauseAt, ReadPayload, ReadTag, ReadFields, ReadVarint64, ReadLen;
      var ptr := input;
      while ptr != []
        invariant Parse(M.ONE_INFO, Value(), ptr) == Parse(M.ONE_INFO, old(Value()), input)
        decreases |ptr|
      {
        ghost var m, bs := Value(), ptr;
        EndTurn(M.ONE_INFO, m, bs);
        var t := ReadTag(ptr);
        if t.Fail? { return Failed(NoTag(ptr)); }
        var tag := t.value;
        ptr := t.rest;
        if tag / 8 == 1 && tag % 256 == 8 {
          var v, ok, rest := TakeVarint64(ptr);
          VarintTurn(M.ONE_INFO, m, bs, tag, ptr);
          key := v;
          if !ok {
            LeavesSpoilt(M.ONE_INFO, m, tag, ptr, Value());
            return Failed(CauseAt(tag, ptr));
          }
          ptr := rest;
        } else if tag / 8 == 2 && tag % 256 == 18 {
          var str, ok, rest := TakeString(ptr);
          LenTurn(M.ONE_INFO, m, bs, tag, ptr);
          data := str;
          if !ok {
            LeavesSpoilt(M.ONE_INFO, m, tag, ptr, Value());
            return Failed(CauseAt(tag, ptr));
          }
          ptr := rest;
        } else {
          if tag % 8 == 4 || tag == 0 { return Stopped(tag); }
          var more, ok, rest := TakeUnknown(tag, ptr);
          UnknownTurn(M.ONE_INFO, m, bs, tag, ptr);
          unknown := unknown + more;
          if !ok {
            LeavesMore(M.ONE_INFO, m, tag, ptr, Value());
            return Failed(CauseAt(tag, ptr));
          }
          ptr := rest;
        }
      }
      ParseNothing(M.ONE_INFO, Value());
      return Complete;
    }

    /** The first pass: computes the size and keeps it for the second pass. */
    method ByteSizeLong() returns (total: nat)
      modifies this`cachedSize
      ensures Agree(total, |Printed()|)
      ensures total < TWO31 ==> cachedSize == total
    {
      hide EncodeFields, VarintSize, ToCachedSize;
      EncodeNone();
      total := 0;
      if |data| > 0 {
        LenFieldLength(2, data);
        total := total + 1 + LengthDelimitedSize(|data|);
      }
      VarintFieldLength(1, key);
      if key != 0 {
        total := total + 1 + VarintSize(key);
      }
      EncodeThree(M.OptVarint(1, key), M.OptLen(2, data), unknown);
      total := total + |EncodeFields(unknown)|;
      cachedSize := ToCachedSize(total);
    }

    /** The second pass: appends the message to what was written before. */
    method InternalSerialize(target: Bytes) returns (out: Bytes)
      ensures out == target + Printed()
    {
      hide EncodeFields, Varint;
      EncodeNone();
      out := target;
      if key != 0 {
        out := WriteVarint(1, key, out);
      }
      if |data| > 0 {
        out := WriteBytes(2, data, out);
      }
      out := out + EncodeFields(unknown);
      EncodeThree(M.OptVarint(1, key), M.OptLen(2, data), unknown);
    }

    method MergeFrom(from: OneInfo)
      requires from != this
      modifies this
      ensures Value() == MergeMsg(M.ONE_INFO, old(Value()), from.Value())
    {
      unknown := unknown + from.unknown;
      if |from.data| > 0 {
        data := from.data;
      }
      if from.key != 0 {
        key := from.key;
      }
    }
  }

  /** The values of a repeated message field. */
  function Values(infos: seq<OneInfo>): (vs: seq<Msg<M.OneInfo>>)
    reads infos`key, infos`data, infos`unknown
    ensures |vs| == |infos| && forall i | 0 <= i < |infos| :: vs[i] == infos[i].Value()
  {
    if infos == [] then [] else Values(infos[..|infos| - 1]) + [infos[|infos| - 1].Value()]
  }

  lemma ValuesSnoc(infos: seq<OneInfo>, last: OneInfo)
    ensures Values(infos + [last]) == Values(infos) + [last.Value()]
  {
    assert (infos + [last])[..|infos|] == infos;
  }

  /** The size of a repeated message field: one byte of tag for each, and its length-delimited size. */
  method SizeOfInfos(infos: seq<OneInfo>) returns (total: nat)
    modifies infos`cachedSize
    ensures Agree(total, |EncodeFields(M.InfoFields(Values(infos)))|)
    ensures total < TWO31 ==> forall info <- infos :: info.cachedSize == |info.Printed()|
  {
    hide Values, EncodeFields, Encode, LengthDelimitedSize, M.InfoFields;
    total := |infos|;
    InfoFieldsNone();
    ghost var values := Values(infos);
    var i := 0;
    while i < |infos|
      invariant 0 <= i <= |infos|
      invariant total >= |infos| - i && Agree(total + i - |infos|, |EncodeFields(M.InfoFields(values[..i]))|)
      invariant total < TWO31 ==> forall k | 0 <= k < i :: infos[k].cachedSize == |Encode(M.ONE_INFO, values[k])|
    {
      var size := infos[i].ByteSizeLong();
      NestedFieldLength(1, size, Encode(M.ONE_INFO, values[i]));
      InfoFieldsSnoc(values[..i], values[i]);
      assert values[..i] + [values[i]] == values[..i + 1];
      AgreeSum(total + i - |infos|, |EncodeFields(M.InfoFields(values[..i]))|,
               1 + LengthDelimitedSize(size), |EncodeFields([Field(1, Len(Encode(M.ONE_INFO, values[i])))])|);
      total := total + LengthDelimitedSize(size);
      i := i + 1;
    }
    assert values[..i] == values;
  }

  /** A nested message parsed from what its length allows: whole, or what its parse left in it. */
  lemma InfoSpoils(k: M.PushReq, ptr: Bytes, bytes: Bytes, info: Msg<M.OneInfo>)
    requires bytes == match ReadLen(ptr) case Ok(inside, _) => inside case Fail => M.AtHand(ptr)
    requires Leaves(M.ONE_INFO, Parse(M.ONE_INFO, Empty(M.ONE_INFO), bytes), info)
    ensures M.SpoilPushReq(k, CauseAt(10, ptr), M.PushReq(k.infos + [info]))
    ensures var parsed := Parse(M.ONE_INFO, Empty(M.ONE_INFO), bytes); parsed.1 == Complete ==> info == parsed.0
  {
    hide Parse, ReadLen, M.AtHand;
  }

  /** A batch of nested messages, each an object of its own. */
  class PushReq {
    var infos: seq<OneInfo>
    var unknown: seq<Field>
    var cachedSize: int

    function Value(): Msg<M.PushReq>
      reads this`infos, this`unknown, infos`key, infos`data, infos`unknown
    {
      Msg(M.PushReq(Values(infos)), unknown)
    }

    function Printed(): Bytes
      reads this`infos, this`unknown, infos`key, infos`data, infos`unknown
    {
      Encode(M.PUSH_REQ, Value())
    }

    /** Every nested message remembers its own size, as the second pass relies on. */
    predicate SizesCached()
      reads this, infos
    {
      forall info <- infos :: info.cachedSize == |info.Printed()|
    }

    constructor ()
      ensures Value() == Empty(M.PUSH_REQ) && infos == []
    {
      infos, unknown, cachedSize := [], [], 0;
    }

    method Clear()
      modifies this
      ensures Value() == Empty(M.PUSH_REQ) && infos == []
    {
      infos := [];
      unknown := [];
    }

    /**
     Adds a nested message, and only then reads its length and parses that many bytes into it; a length past
     the end of the input makes it fail only after the bytes there are have been parsed.
     */
    method ParseInfo(ptr: Bytes) returns (ok: bool, rest: Bytes)
      modifies this`infos
      ensures match ReadLen(ptr)
        case Ok(bytes, after) =>
          var (info, verdict) := Parse(M.ONE_INFO, Empty(M.ONE_INFO), bytes);
          if verdict != Complete then !ok
          else ok && rest == after && Value() == Msg(M.PushReq(old(Value()).known.infos + [info]), unknown)
        case Fail => !ok
      ensures !ok ==> Value().unknown == unknown
      ensures !ok ==> M.SpoilPushReq(old(Value()).known, CauseAt(10, ptr), Value().known)
    {
      hide Parse, Values, Leaves, ReadLen, M.AtHand, M.SpoilPushReq, CauseAt;
      var info := new OneInfo();
      ghost var before := infos;
      infos := infos + [info];
      ValuesSnoc(before, info);
      var bytes, whole, after := TakeLimited(ptr);
      var verdict := info.InternalParse(bytes);
      ValuesSnoc(before, info);
      InfoSpoils(old(Value()).known, ptr, bytes, info.Value());
      ok, rest := whole && verdict == Complete, after;
    }

    /** Adds a copy of a message. */
    method AddCopy(from: OneInfo)
      modifies this`infos
      ensures Values(infos) == old(Values(infos)) + [from.Value()]
      ensures infos[..|infos| - 1] == old(infos) && fresh(infos[|infos| - 1])
    {
      hide Values;
      var info := new OneInfo();
      info.MergeFrom(from);
      MergeIntoEmpty(M.ONE_INFO, from.Value());
      ValuesSnoc(infos, info);
      infos := infos + [info];
    }

    method InternalParse(input: Bytes) returns (verdict: Verdict)
      modifies this
      ensures var parsed := Parse(M.PUSH_REQ, old(Value()), input);
        verdict == parsed.1 && Leaves(M.PUSH_REQ, parsed, Value())
    {
      hide Parse, Leaves, CauseAt, ReadPayload, ReadTag, ReadFields, ReadVarint64, ReadLen;
      hide Values;
      var ptr := input;
      while ptr != []
        invariant Parse(M.PUSH_REQ, Value(), ptr) == Parse(M.PUSH_REQ, old(Value()), input)
        decreases |ptr|
      {
        ghost var m, bs := Value(), ptr;
        EndTurn(M.PUSH_REQ, m, bs);
        var t := ReadTag(ptr);
        if t.Fail? { return Failed(NoTag(ptr)); }
        var tag := t.value;
        if tag / 8 == 1 && tag % 256 == 10 {
          ghost var at := ptr;
          ptr := t.rest;
          // As long as the next byte is the same tag, stay here.
          while true
            invariant at != [] && ReadTag(at) == Ok(10, ptr) && |ptr| <= |t.rest|
            invariant Parse(M.PUSH_REQ, Value(), at) == Parse(M.PUSH_REQ, old(Value()), input)
            decreases |ptr|
          {
            ghost var n := Value();
            var ok, rest := ParseInfo(ptr);
            LenTurn(M.PUSH_REQ, n, at, 10, ptr);
            if !ok {
              LeavesSpoilt(M.PUSH_REQ, n, 10, ptr, Value());
              return Failed(CauseAt(10, ptr));
            }
            ptr := rest;
            if ptr == [] { break; }
            if ptr[0] != 10 { break; }
            ReadOneByteTag(ptr);
            at := ptr;
            ptr := ptr[1..];
          }
        } else {
          ptr := t.rest;
          if tag % 8 == 4 || tag == 0 { return Stopped(tag); }
          var more, ok, rest := TakeUnknown(tag, ptr);
          UnknownTurn(M.PUSH_REQ, m, bs, tag, ptr);
          unknown := unknown + more;
          if !ok {
            LeavesMore(M.PUSH_REQ, m, tag, ptr, Value());
            return Failed(CauseAt(tag, ptr));
          }
          ptr := rest;
        }
      }
      ParseNothing(M.PUSH_REQ, Value());
      return Complete;
    }

    /** Clears the message and parses; the fields read before a stop or an error stay. */
    method ParseFromString(input: Bytes) returns (ok: bool)
      modifies this
      ensures var parsed := Parse(M.PUSH_REQ, Empty(M.PUSH_REQ), input);
        (ok <==> parsed.1 == Complete) && Leaves(M.PUSH_REQ, parsed, Value())
    {
      Clear();
      var verdict := InternalParse(input);
      ok := verdict == Complete;
    }

    method ByteSizeLong() returns (total: nat)
      modifies this`cachedSize, infos`cachedSize
      ensures Agree(total, |Printed()|)
      ensures total < TWO31 ==> cachedSize == total && SizesCached()
    {
      hide Values, EncodeFields, LengthDelimitedSize, ToCachedSize;
      ghost var values := Values(infos);
      total := SizeOfInfos(infos);
      EncodeAppend(M.InfoFields(values), unknown);
      total := total + |EncodeFields(unknown)|;
      cachedSize := ToCachedSize(total);
    }

    method InternalSerialize(target: Bytes) returns (out: Bytes)
      requires SizesCached()
      ensures out == target + Printed()
    {
      hide Values, EncodeFields, Varint, M.InfoFields;
      out := target;
      InfoFieldsNone();
      ghost var values := Values(infos);
      var i := 0;
      while i < |infos|
        invariant 0 <= i <= |infos|
        invariant out == target + EncodeFields(M.InfoFields(values[..i]))
      {
        WriteInParts(1, infos[i].Printed(), out);
        // The length prefix is the size the first pass left in the nested message.
        out := out + Varint(10) + Varint(infos[i].cachedSize);
        out := infos[i].InternalSerialize(out);
        InfoFieldsSnoc(values[..i], values[i]);
        assert values[..i] + [values[i]] == values[..i + 1];
        i := i + 1;
      }
      assert values[..i] == values;
      EncodeAppend(M.InfoFields(values), unknown);
      out := out + EncodeFields(unknown);
    }

    method SerializeToString() returns (ok: bool, out: Bytes)
      modifies this`cachedSize, infos`cachedSize
      ensures ok <==> |Printed()| < TWO31
      ensures out == if ok then Printed() else []
    {
      var size := ByteSizeLong();
      if size >= TWO31 { return false, []; }
      out := InternalSerialize([]);
      ok := true;
    }

    method MergeFrom(from: PushReq)
      requires from != this
      modifies this
      ensures Value() == MergeMsg(M.PUSH_REQ, old(Value()), old(from.Value()))
      ensures forall info <- infos :: info in old(infos) || fresh(info)
    {
      hide Values;
      unknown := unknown + from.unknown;
      ghost var mine, theirs := Values(infos), Values(from.infos);
      var i := 0;
      while i < |from.infos|
        invariant 0 <= i <= |from.infos|
        invariant Values(infos) == mine + theirs[..i]
        invariant Values(from.infos) == theirs
        invariant unknown == old(unknown) + from.unknown
        invariant forall info <- infos :: info in old(infos) || fresh(info)
      {
        AddCopy(from.infos[i]);
        assert mine + theirs[..i] + [theirs[i]] == mine + theirs[..i + 1];
        i := i + 1;
      }
      assert theirs[..i] == theirs;
    }
  }

  /** A packed run that broke off, stored as far as it was handed over. */
  lemma PackedSpoils(k: M.PullReq, ptr: Bytes, vs: seq<uint64>)
    requires match ReadLen(ptr)
      case Ok(bytes, _) => M.Unpack(bytes).0 <= vs
      case Fail => true
    ensures M.SpoilPullReq(k, CauseAt(10, ptr), k.(keys := k.keys + vs))
    ensures M.SpoilPullReq(k, CauseAt(18, ptr), k.(field := k.field + M.Narrow(vs)))
  {
    hide M.Unpack, ReadLen;
  }

  /** A single element that could not be read, stored all the same. */
  lemma SingleSpoils(k: M.PullReq, ptr: Bytes, v: uint64)
    requires ReadVarint64(ptr).Fail?
    ensures M.SpoilPullReq(k, CauseAt(8, ptr), k.(keys := k.keys + [v]))
    ensures M.SpoilPullReq(k, CauseAt(16, ptr), k.(field := k.field + [v % TWO32]))
  {
    hide ReadVarint64;
  }

  /** Two packed lists of numbers. */
  class PullReq {
    var keys: seq<uint64>
    var field: seq<uint32>
    var unknown: seq<Field>
    var keysCachedByteSize: int
    var fieldCachedByteSize: int
    var cachedSize: int

    function Value(): Msg<M.PullReq>
      reads this
    {
      Msg(M.PullReq(keys, field), unknown)
    }

    function Printed(): Bytes
      reads this
    {
      Encode(M.PULL_REQ, Value())
    }

    /** Each packed run remembers its own size, as the second pass relies on. */
    predicate SizesCached()
      reads this
    {
      keysCachedByteSize == |M.Pack(keys)| && fieldCachedByteSize == |M.Pack(field)|
    }

    constructor ()
      ensures Value() == Empty(M.PULL_REQ)
    {
      keys := [];
      field := [];
      unknown := [];
      keysCachedByteSize, fieldCachedByteSize := 0, 0;
      cachedSize := 0;
    }

    method Clear()
      modifies this
      ensures Value() == Empty(M.PULL_REQ)
    {
      keys := [];
      field := [];
      unknown := [];
    }

    method InternalParse(input: Bytes) returns (verdict: Verdict)
      modifies this
      ensures var parsed := Parse(M.PULL_REQ, old(Value()), input);
        verdict == parsed.1 && Leaves(M.PULL_REQ, parsed, Value())
    {
      hide Parse, Leaves, CauseAt, ReadPayload, ReadTag, ReadFields, ReadVarint64, ReadLen;
      hide M.Unpack, M.Narrow, M.SpoilPullReq, M.OneMore;
      var ptr := input;
      while ptr != []
        invariant Parse(M.PULL_REQ, Value(), ptr) == Parse(M.PULL_REQ, old(Value()), input)
        decreases |ptr|
      {
        ghost var m, bs := Value(), ptr;
        EndTurn(M.PULL_REQ, m, bs);
        var t := ReadTag(ptr);
        if t.Fail? { return Failed(NoTag(ptr)); }
        var tag := t.value;
        if tag / 8 == 1 && tag % 256 == 10 {
          ptr := t.rest;
          var vs, ok, rest := TakePacked(ptr);
          LenTurn(M.PULL_REQ, m, bs, tag, ptr);
          keys := keys + vs;
          if !ok {
            PackedSpoils(m.known, ptr, vs);
            LeavesSpoilt(M.PULL_REQ, m, tag, ptr, Value());
            return Failed(CauseAt(tag, ptr));
          }
          ptr := rest;
        } else if tag / 8 == 1 && tag % 256 == 8 {
          ptr := t.rest;
          var v, ok, rest := TakeVarint64(ptr);
          VarintTurn(M.PULL_REQ, m, bs, tag, ptr);
          keys := keys + [v];
          if !ok {
            SingleSpoils(m.known, ptr, v);
            LeavesSpoilt(M.PULL_REQ, m, tag, ptr, Value());
            return Failed(CauseAt(tag, ptr));
          }
          ptr := rest;
        } else if tag / 8 == 2 && tag % 256 == 18 {
          ptr := t.rest;
          var vs, ok, rest := TakePacked(ptr);
          LenTurn(M.PULL_REQ, m, bs, tag, ptr);
          field := field + M.Narrow(vs);
          if !ok {
            PackedSpoils(m.known, ptr, vs);
            LeavesSpoilt(M.PULL_REQ, m, tag, ptr, Value());
            return Failed(CauseAt(tag, ptr));
          }
          ptr := rest;
        } else if tag / 8 == 2 && tag % 256 == 16 {
          ptr := t.rest;
          var v, ok, rest := TakeVarint64(ptr);
          VarintTurn(M.PULL_REQ, m, bs, tag, ptr);
          field := field + [v % TWO32];
          if !ok {
            SingleSpoils(m.known, ptr, v);
            LeavesSpoilt(M.PULL_REQ, m, tag, ptr, Value());
            return Failed(CauseAt(tag, ptr));
          }
          ptr := rest;
        } else {
          ptr := t.rest;
          if tag % 8 == 4 || tag == 0 { return Stopped(tag); }
          var more, ok, rest := TakeUnknown(tag, ptr);
          UnknownTurn(M.PULL_REQ, m, bs, tag, ptr);
          unknown := unknown + more;
          if !ok {
            LeavesMore(M.PULL_REQ, m, tag, ptr, Value());
            return Failed(CauseAt(tag, ptr));
          }
          ptr := rest;
        }
      }
      ParseNothing(M.PULL_REQ, Value());
      return Complete;
    }

    method ParseFromString(input: Bytes) returns (ok: bool)
      modifies this
      ensures var parsed := Parse(M.PULL_REQ, Empty(M.PULL_REQ), input);
        (ok <==> parsed.1 == Complete) && Leaves(M.PULL_REQ, parsed, Value())
    {
      Clear();
      var verdict := InternalParse(input);
      ok := verdict == Complete;
    }

    method ByteSizeLong() returns (total: nat)
      modifies this`cachedSize, this`keysCachedByteSize, this`fieldCachedByteSize
      ensures Agree(total, |Printed()|)
      ensures total < TWO31 ==> cachedSize == total && SizesCached()
    {
      hide EncodeFields, PackedSize, M.Pack, Int32Size, ToCachedSize;
      total := 0;
      var dataSize := PackedSize(keys);
      if dataSize > 0 {
        total := total + 1 + Int32Size(ToCachedSize(dataSize));
      }
      keysCachedByteSize := ToCachedSize(dataSize);
      total := total + dataSize;
      dataSize := PackedSize(field);
      if dataSize > 0 {
        total := total + 1 + Int32Size(ToCachedSize(dataSize));
      }
      fieldCachedByteSize := ToCachedSize(dataSize);
      total := total + dataSize;
      total := total + |EncodeFields(unknown)|;
      cachedSize := ToCachedSize(total);
      PackedFieldLength(1, keys);
      PackedFieldLength(2, field);
      PackedLength(keys);
      PackedLength(field);
      EncodeThree(M.OptLen(1, M.Pack(keys)), M.OptLen(2, M.Pack(field)), unknown);
    }

    method InternalSerialize(target: Bytes) returns (out: Bytes)
      requires SizesCached()
      ensures out == target + Printed()
    {
      hide EncodeFields, Varint, M.Pack;
      EncodeNone();
      out := target;
      if keysCachedByteSize > 0 {
        WriteInParts(1, M.Pack(keys), out);
        out := out + Varint(10) + Varint(keysCachedByteSize) + M.Pack(keys);
      }
      if fieldCachedByteSize > 0 {
        WriteInParts(2, M.Pack(field), out);
        out := out + Varint(18) + Varint(fieldCachedByteSize) + M.Pack(field);
      }
      EncodeThree(M.OptLen(1, M.Pack(keys)), M.OptLen(2, M.Pack(field)), unknown);
      out := out + EncodeFields(unknown);
    }

    method SerializeToString() returns (ok: bool, out: Bytes)
      modifies this`cachedSize, this`keysCachedByteSize, this`fieldCachedByteSize
      ensures Value() == old(Value())
      ensures ok <==> |Printed()| < TWO31
      ensures out == if ok then Printed() else []
    {
      var size := ByteSizeLong();
      if size >= TWO31 { return false, []; }
      out := InternalSerialize([]);
      ok := true;
    }

    method MergeFrom(from: PullReq)
      requires from != this
      modifies this
      ensures Value() == MergeMsg(M.PULL_REQ, old(Value()), from.Value())
    {
      unknown := unknown + from.unknown;
      keys := keys + from.keys;
      field := field + from.field;
    }
  }

  /** A code, a text, and a list of byte strings, empty ones included. */
  class PullRsp {
    var errCode: int32
    var errDesc: Bytes
    var data: seq<Bytes>
    var unknown: seq<Field>
    var cachedSize: int

    function Value(): Msg<M.PullRsp>
      reads this
    {
      Msg(M.PullRsp(errCode, errDesc, data), unknown)
    }

    function Printed(): Bytes
      reads this
    {
      Encode(M.PULL_RSP, Value())
    }

    constructor ()
      ensures Value() == Empty(M.PULL_RSP)
    {
      data := [];
      errDesc := [];
      errCode := 0;
      unknown := [];
      cachedSize := 0;
    }

    method Clear()
      modifies this
      ensures Value() == Empty(M.PULL_RSP)
    {
      data := [];
      errDesc := [];
      errCode := 0;
      unknown := [];
    }

    method InternalParse(input: Bytes) returns (verdict: Verdict)
      modifies this
      ensures var parsed := Parse(M.PULL_RSP, old(Value()), input);
        verdict == parsed.1 && Leaves(M.PULL_RSP, parsed, Value())
    {
      hide Parse, Leaves, CauseAt, ReadPayload, ReadTag, ReadFields, ReadVarint64, ReadLen;
      hide M.Truncate, M.Utf8;
      var ptr := input;
      while ptr != []
        invariant Parse(M.PULL_RSP, Value(), ptr) == Parse(M.PULL_RSP, old(Value()), input)
        decreases |ptr|
      {
        ghost var m, bs := Value(), ptr;
        EndTurn(M.PULL_RSP, m, bs);
        var t := ReadTag(ptr);
        if t.Fail? { return Failed(NoTag(ptr)); }
        var tag := t.value;
        if tag / 8 == 1 && tag % 256 == 8 {
          ptr := t.rest;
          var v, ok, rest := TakeVarint64(ptr);
          VarintTurn(M.PULL_RSP, m, bs, tag, ptr);
          errCode := M.Truncate(v);
          if !ok {
            LeavesSpoilt(M.PULL_RSP, m, tag, ptr, Value());
            return Failed(CauseAt(tag, ptr));
          }
          ptr := rest;
        } else if tag / 8 == 2 && tag % 256 == 18 {
          ptr := t.rest;
          var str, ok, rest := TakeString(ptr);
          LenTurn(M.PULL_RSP, m, bs, tag, ptr);
          errDesc := str;
          if !M.Utf8(errDesc) || !ok {
            LeavesSpoilt(M.PULL_RSP, m, tag, ptr, Value());
            return Failed(CauseAt(tag, ptr));
          }
          ptr := rest;
        } else if tag / 8 == 3 && tag % 256 == 26 {
          ghost var at := ptr;
          ptr := t.rest;
          while true
            invariant at != [] && ReadTag(at) == Ok(26, ptr) && |ptr| <= |t.rest|
            invariant Parse(M.PULL_RSP, Value(), at) == Parse(M.PULL_RSP, old(Value()), input)
            decreases |ptr|
          {
            ghost var n := Value();
            ghost var before := data;
            data := data + [[]];
            var str, ok, rest := TakeString(ptr);
            LenTurn(M.PULL_RSP, n, at, 26, ptr);
            data := data[|data| - 1 := str];
            if !ok {
              LeavesSpoilt(M.PULL_RSP, n, 26, ptr, Value());
              return Failed(CauseAt(26, ptr));
            }
            ptr := rest;
            assert data == before + [str];
            if ptr == [] { break; }
            if ptr[0] != 26 { break; }
            ReadOneByteTag(ptr);
            at := ptr;
            ptr := ptr[1..];
          }
        } else {
          ptr := t.rest;
          if tag % 8 == 4 || tag == 0 { return Stopped(tag); }
          var more, ok, rest := TakeUnknown(tag, ptr);
          UnknownTurn(M.PULL_RSP, m, bs, tag, ptr);
          unknown := unknown + more;
          if !ok {
            LeavesMore(M.PULL_RSP, m, tag, ptr, Value());
            return Failed(CauseAt(tag, ptr));
          }
          ptr := rest;
        }
      }
      ParseNothing(M.PULL_RSP, Value());
      return Complete;
    }

    method ParseFromString(input: Bytes) returns (ok: bool)
      modifies this
      ensures var parsed := Parse(M.PULL_RSP, Empty(M.PULL_RSP), input);
        (ok <==> parsed.1 == Complete) && Leaves(M.PULL_RSP, parsed, Value())
    {
      Clear();
      var verdict := InternalParse(input);
      ok := verdict == Complete;
    }

    method ByteSizeLong() returns (total: nat)
      modifies this`cachedSize
      ensures Agree(total, |Printed()|)
      ensures total < TWO31 ==> cachedSize == total
    {
      hide EncodeFields, VarintSize, LengthDelimitedSize, ToCachedSize;
      EncodeNone();
      total := |data|;
      var i := 0;
      while i < |data|
        invariant 0 <= i <= |data|
        invariant total >= |data| - i && Agree(total + i - |data|, |EncodeFields(M.DataFields(data[..i]))|)
      {
        LenFieldLength(3, data[i]);
        DataFieldsSnoc(data[..i], data[i]);
        assert data[..i] + [data[i]] == data[..i + 1];
        total := total + LengthDelimitedSize(|data[i]|);
        i := i + 1;
      }
      assert data[..i] == data;
      VarintFieldLength(1, M.SignExtend(errCode));
      if |errDesc| > 0 {
        LenFieldLength(2, errDesc);
        total := total + 1 + LengthDelimitedSize(|errDesc|);
      }
      if errCode != 0 {
        total := total + 1 + Int32Size(errCode);
      }
      EncodeAppend(M.OptVarint(1, M.SignExtend(errCode)) + M.OptLen(2, errDesc) + M.DataFields(data), unknown);
      EncodeThree(M.OptVarint(1, M.SignExtend(errCode)), M.OptLen(2, errDesc), M.DataFields(data));
      total := total + |EncodeFields(unknown)|;
      cachedSize := ToCachedSize(total);
    }

    method InternalSerialize(target: Bytes) returns (out: Bytes)
      ensures out == target + Printed()
    {
      hide EncodeFields;
      EncodeNone();
      out := target;
      if errCode != 0 {
        out := WriteVarint(1, M.SignExtend(errCode), out);
      }
      if |errDesc| > 0 {
        out := WriteBytes(2, errDesc, out);
      }
      ghost var head := EncodeFields(M.OptVarint(1, M.SignExtend(errCode))) + EncodeFields(M.OptLen(2, errDesc));
      var i := 0;
      while i < |data|
        invariant 0 <= i <= |data|
        invariant out == target + (head + EncodeFields(M.DataFields(data[..i])))
      {
        out := WriteBytes(3, data[i], out);
        DataFieldsSnoc(data[..i], data[i]);
        assert data[..i] + [data[i]] == data[..i + 1];
        i := i + 1;
      }
      assert data[..i] == data;
      EncodeAppend(M.OptVarint(1, M.SignExtend(errCode)) + M.OptLen(2, errDesc) + M.DataFields(data), unknown);
      EncodeThree(M.OptVarint(1, M.SignExtend(errCode)), M.OptLen(2, errDesc), M.DataFields(data));
      out := out + EncodeFields(unknown);
    }

    method SerializeToString() returns (ok: bool, out: Bytes)
      modifies this`cachedSize
      ensures Value() == old(Value())
      ensures ok <==> |Printed()| < TWO31
      ensures out == if ok then Printed() else []
    {
      var size := ByteSizeLong();
      if size >= TWO31 { return false, []; }
      out := InternalSerialize([]);
      ok := true;
    }

    method MergeFrom(from: PullRsp)
      requires from != this
      modifies this
      ensures Value() == MergeMsg(M.PULL_RSP, old(Value()), from.Value())
    {
      unknown := unknown + from.unknown;
      data := data + from.data;
      if |from.errDesc| > 0 {
        errDesc := from.errDesc;
      }
      if from.errCode != 0 {
        errCode := from.errCode;
      }
    }
  }

  /** A code and a text. */
  class PushRsp {
    var errCode: int32
    var errDesc: Bytes
    var unknown: seq<Field>
    var cachedSize: int

    function Value(): Msg<M.PushRsp>
      reads this
    {
      Msg(M.PushRsp(errCode, errDesc), unknown)
    }

    function Printed(): Bytes
      reads this
    {
      Encode(M.PUSH_RSP, Value())
    }

    constructor ()
      ensures Value() == Empty(M.PUSH_RSP)
    {
      errDesc := [];
      errCode := 0;
      unknown := [];
      cachedSize := 0;
    }

    method Clear()
      modifies this
      ensures Value() == Empty(M.PUSH_RSP)
    {
      errDesc := [];
      errCode := 0;
      unknown := [];
    }

    method InternalParse(input: Bytes) returns (verdict: Verdict)
      modifies this
      ensures var parsed := Parse(M.PUSH_RSP, old(Value()), input);
        verdict == parsed.1 && Leaves(M.PUSH_RSP, parsed, Value())
    {
      hide Parse, Leaves, CauseAt, ReadPayload, ReadTag, ReadFields, ReadVarint64, ReadLen;
      hide M.Truncate, M.Utf8;
      var ptr := input;
      while ptr != []
        invariant Parse(M.PUSH_RSP, Value(), ptr) == Parse(M.PUSH_RSP, old(Value()), input)
        decreases |ptr|
      {
        ghost var m, bs := Value(), ptr;
        EndTurn(M.PUSH_RSP, m, bs);
        var t := ReadTag(ptr);
        if t.Fail? { return Failed(NoTag(ptr)); }
        var tag := t.value;
        if tag / 8 == 1 && tag % 256 == 8 {
          ptr := t.rest;
          var v, ok, rest := TakeVarint64(ptr);
          VarintTurn(M.PUSH_RSP, m, bs, tag, ptr);
          errCode := M.Truncate(v);
          if !ok {
            LeavesSpoilt(M.PUSH_RSP, m, tag, ptr, Value());
            return Failed(CauseAt(tag, ptr));
          }
          ptr := rest;
        } else if tag / 8 == 2 && tag % 256 == 18 {
          ptr := t.rest;
          var str, ok, rest := TakeString(ptr);
          LenTurn(M.PUSH_RSP, m, bs, tag, ptr);
          errDesc := str;
          if !M.Utf8(errDesc) || !ok {
            LeavesSpoilt(M.PUSH_RSP, m, tag, ptr, Value());
            return Failed(CauseAt(tag, ptr));
          }
          ptr := rest;
        } else {
          ptr := t.rest;
          if tag % 8 == 4 || tag == 0 { return Stopped(tag); }
          var more, ok, rest := TakeUnknown(tag, ptr);
          UnknownTurn(M.PUSH_RSP, m, bs, tag, ptr);
          unknown := unknown + more;
          if !ok {
            LeavesMore(M.PUSH_RSP, m, tag, ptr, Value());
            return Failed(CauseAt(tag, ptr));
          }
          ptr := rest;
        }
      }
      ParseNothing(M.PUSH_RSP, Value());
      return Complete;
    }

    method ParseFromString(input: Bytes) returns (ok: bool)
      modifies this
      ensures var parsed := Parse(M.PUSH_RSP, Empty(M.PUSH_RSP), input);
        (ok <==> parsed.1 == Complete) && Leaves(M.PUSH_RSP, parsed, Value())
    {
      Clear();
      var verdict := InternalParse(input);
      ok := verdict == Complete;
    }

    method ByteSizeLong() returns (total: nat)
      modifies this`cachedSize
      ensures Agree(total, |Printed()|)
      ensures total < TWO31 ==> cachedSize == total
    {
      hide EncodeFields, VarintSize, LengthDelimitedSize, ToCachedSize;
      EncodeNone();
      total := 0;
      VarintFieldLength(1, M.SignExtend(errCode));
      if |errDesc| > 0 {
        LenFieldLength(2, errDesc);
        total := total + 1 + LengthDelimitedSize(|errDesc|);
      }
      if errCode != 0 {
        total := total + 1 + Int32Size(errCode);
      }
      EncodeThree(M.OptVarint(1, M.SignExtend(errCode)), M.OptLen(2, errDesc), unknown);
      total := total + |EncodeFields(unknown)|;
      cachedSize := ToCachedSize(total);
    }

    method InternalSerialize(target: Bytes) returns (out: Bytes)
      ensures out == target + Printed()
    {
      hide EncodeFields;
      EncodeNone();
      out := target;
      if errCode != 0 {
        out := WriteVarint(1, M.SignExtend(errCode), out);
      }
      if |errDesc| > 0 {
        out := WriteBytes(2, errDesc, out);
      }
      out := out + EncodeFields(unknown);
      EncodeThree(M.OptVarint(1, M.SignExtend(errCode)), M.OptLen(2, errDesc), unknown);
    }

    method SerializeToString() returns (ok: bool, out: Bytes)
      modifies this`cachedSize
      ensures Value() == old(Value())
      ensures ok <==> |Printed()| < TWO31
      ensures out == if ok then Printed() else []
    {
      var size := ByteSizeLong();
      if size >= TWO31 { return false, []; }
      out := InternalSerialize([]);
      ok := true;
    }

    method MergeFrom(from: PushRsp)
      requires from != this
      modifies this
      ensures Value() == MergeMsg(M.PUSH_RSP, old(Value()), from.Value())
    {
      unknown := unknown + from.unknown;
      if |from.errDesc| > 0 {
        errDesc := from.errDesc;
      }
      if from.errCode != 0 {
        errCode := from.errCode;
      }
    }
  }

  /** One key. */
  class DelCacheReq {
    var key: uint64
    var unknown: seq<Field>
    var cachedSize: int

    function Value(): Msg<M.DelCacheReq>
      reads this
    {
      Msg(M.DelCacheReq(key), unknown)
    }

    function Printed(): Bytes
      reads this
    {
      Encode(M.DEL_CACHE_REQ, Value())
    }

    constructor ()
      ensures Value() == Empty(M.DEL_CACHE_REQ)
    {
      key := 0;
      unknown := [];
      cachedSize := 0;
    }

    method Clear()
      modifies this
      ensures Value() == Empty(M.DEL_CACHE_REQ)
    {
      key := 0;
      unknown := [];
    }

    method InternalParse(input: Bytes) returns (verdict: Verdict)
      modifies this
      ensures var parsed := Parse(M.DEL_CACHE_REQ, old(Value()), input);
        verdict == parsed.1 && Leaves(M.DEL_CACHE_REQ, parsed, Value())
    {
      hide Parse, Leaves, CauseAt, ReadPayload, ReadTag, ReadFields, ReadVarint64, ReadLen;
      var ptr := input;
      while ptr != []
        invariant Parse(M.DEL_CACHE_REQ, Value(), ptr) == Parse(M.DEL_CACHE_REQ, old(Value()), input)
        decreases |ptr|
      {
        ghost var m, bs := Value(), ptr;
        EndTurn(M.DEL_CACHE_REQ, m, bs);
        var t := ReadTag(ptr);
        if t.Fail? { return Failed(NoTag(ptr)); }
        var tag := t.value;
        if tag / 8 == 1 && tag % 256 == 8 {
          ptr := t.rest;
          var v, ok, rest := TakeVarint64(ptr);
          VarintTurn(M.DEL_CACHE_REQ, m, bs, tag, ptr);
          key := v;
          if !ok {
            LeavesSpoilt(M.DEL_CACHE_REQ, m, tag, ptr, Value());
            return Failed(CauseAt(tag, ptr));
          }
          ptr := rest;
        } else {
          ptr := t.rest;
          if tag % 8 == 4 || tag == 0 { return Stopped(tag); }
          var more, ok, rest := TakeUnknown(tag, ptr);
          UnknownTurn(M.DEL_CACHE_REQ, m, bs, tag, ptr);
          unknown := unknown + more;
          if !ok {
            LeavesMore(M.DEL_CACHE_REQ, m, tag, ptr, Value());
            return Failed(CauseAt(tag, ptr));
          }
          ptr := rest;
        }
      }
      ParseNothing(M.DEL_CACHE_REQ, Value());
      return Complete;
    }

    method ParseFromString(input: Bytes) returns (ok: bool)
      modifies this
      ensures var parsed := Parse(M.DEL_CACHE_REQ, Empty(M.DEL_CACHE_REQ), input);
        (ok <==> parsed.1 == Complete) && Leaves(M.DEL_CACHE_REQ, parsed, Value())
    {
      Clear();
      var verdict := InternalParse(input);
      ok := verdict == Complete;
    }

    method ByteSizeLong() returns (total: nat)
      modifies this`cachedSize
      ensures Agree(total, |Printed()|)
      ensures total < TWO31 ==> cachedSize == total
    {
      hide EncodeFields;
      total := 0;
      VarintFieldLength(1, key);
      if key != 0 {
        total := total + 1 + VarintSize(key);
      }
      EncodeAppend(M.OptVarint(1, key), unknown);
      total := total + |EncodeFields(unknown)|;
      cachedSize := ToCachedSize(total);
    }

    method InternalSerialize(target: Bytes) returns (out: Bytes)
      ensures out == target + Printed()
    {
      hide EncodeFields;
      EncodeNone();
      out := target;
      if key != 0 {
        out := WriteVarint(1, key, out);
      }
      EncodeAppend(M.OptVarint(1, key), unknown);
      out := out + EncodeFields(unknown);
    }

    method SerializeToString() returns (ok: bool, out: Bytes)
      modifies this`cachedSize
      ensures Value() == old(Value())
      ensures ok <==> |Printed()| < TWO31
      ensures out == if ok then Printed() else []
    {
      var size := ByteSizeLong();
      if size >= TWO31 { return false, []; }
      out := InternalSerialize([]);
      ok := true;
    }

    method MergeFrom(from: DelCacheReq)
      requires from != this
      modifies this
      ensures Value() == MergeMsg(M.DEL_CACHE_REQ, old(Value()), from.Value())
    {
      unknown := unknown + from.unknown;
      if from.key != 0 {
        key := from.key;
      }
    }
  }

  /** One flag. */
  class DelCacheRsp {
    var succ: bool
    var unknown: seq<Field>
    var cachedSize: int

    function Value(): Msg<M.DelCacheRsp>
      reads this
    {
      Msg(M.DelCacheRsp(succ), unknown)
    }

    function Printed(): Bytes
      reads this
    {
      Encode(M.DEL_CACHE_RSP, Value())
    }

    constructor ()
      ensures Value() == Empty(M.DEL_CACHE_RSP)
    {
      succ := false;
      unknown := [];
      cachedSize := 0;
    }

    method Clear()
      modifies this
      ensures Value() == Empty(M.DEL_CACHE_RSP)
    {
      succ := false;
      unknown := [];
    }

    method InternalParse(input: Bytes) returns (verdict: Verdict)
      modifies this
      ensures var parsed := Parse(M.DEL_CACHE_RSP, old(Value()), input);
        verdict == parsed.1 && Leaves(M.DEL_CACHE_RSP, parsed, Value())
    {
      hide Parse, Leaves, CauseAt, ReadPayload, ReadTag, ReadFields, ReadVarint64, ReadLen;
      var ptr := input;
      while ptr != []
        invariant Parse(M.DEL_CACHE_RSP, Value(), ptr) == Parse(M.DEL_CACHE_RSP, old(Value()), input)
        decreases |ptr|
      {
        ghost var m, bs := Value(), ptr;
        EndTurn(M.DEL_CACHE_RSP, m, bs);
        var t := ReadTag(ptr);
        if t.Fail? { return Failed(NoTag(ptr)); }
        var tag := t.value;
        if tag / 8 == 1 && tag % 256 == 8 {
          ptr := t.rest;
          var v, ok, rest := TakeVarint64(ptr);
          VarintTurn(M.DEL_CACHE_RSP, m, bs, tag, ptr);
          succ := v != 0;
          if !ok {
            LeavesSpoilt(M.DEL_CACHE_RSP, m, tag, ptr, Value());
            return Failed(CauseAt(tag, ptr));
          }
          ptr := rest;
        } else {
          ptr := t.rest;
          if tag % 8 == 4 || tag == 0 { return Stopped(tag); }
          var more, ok, rest := TakeUnknown(tag, ptr);
          UnknownTurn(M.DEL_CACHE_RSP, m, bs, tag, ptr);
          unknown := unknown + more;
          if !ok {
            LeavesMore(M.DEL_CACHE_RSP, m, tag, ptr, Value());
            return Failed(CauseAt(tag, ptr));
          }
          ptr := rest;
        }
      }
      ParseNothing(M.DEL_CACHE_RSP, Value());
      return Complete;
    }

    method ParseFromString(input: Bytes) returns (ok: bool)
      modifies this
      ensures var parsed := Parse(M.DEL_CACHE_RSP, Empty(M.DEL_CACHE_RSP), input);
        (ok <==> parsed.1 == Complete) && Leaves(M.DEL_CACHE_RSP, parsed, Value())
    {
      Clear();
      var verdict := InternalParse(input);
      ok := verdict == Complete;
    }

    method ByteSizeLong() returns (total: nat)
      modifies this`cachedSize
      ensures Agree(total, |Printed()|)
      ensures total < TWO31 ==> cachedSize == total
    {
      hide EncodeFields;
      total := 0;
      VarintFieldLength(1, if succ then 1 else 0);
      if succ {
        total := total + 1 + 1;
      }
      EncodeAppend(M.OptVarint(1, if succ then 1 else 0), unknown);
      total := total + |EncodeFields(unknown)|;
      cachedSize := ToCachedSize(total);
    }

    method InternalSerialize(target: Bytes) returns (out: Bytes)
      ensures out == target + Printed()
    {
      hide EncodeFields;
      EncodeNone();
      out := target;
      if succ {
        out := WriteVarint(1, 1, out);
      }
      EncodeAppend(M.OptVarint(1, if succ then 1 else 0), unknown);
      out := out + EncodeFields(unknown);
    }

    method SerializeToString() returns (ok: bool, out: Bytes)
      modifies this`cachedSize
      ensures Value() == old(Value())
      ensures ok <==> |Printed()| < TWO31
      ensures out == if ok then Printed() else []
    {
      var size := ByteSizeLong();
      if size >= TWO31 { return false, []; }
      out := InternalSerialize([]);
      ok := true;
    }

    method MergeFrom(from: DelCacheRsp)
      requires from != this
      modifies this
      ensures Value() == MergeMsg(M.DEL_CACHE_RSP, old(Value()), from.Value())
    {
      unknown := unknown + from.unknown;
      if from.succ {
        succ := from.succ;
      }
    }
  }

  lemma {:induction false} InfoFieldsAppendOne(infos: seq<Msg<M.OneInfo>>, last: Msg<M.OneInfo>)
    ensures M.InfoFields(infos + [last]) == M.InfoFields(infos) + [Field(1, Len(Encode(M.ONE_INFO, last)))]
    decreases |infos|
  {
    hide Encode;
    if infos == [] {
      assert infos + [last] == [last];
    } else {
      InfoFieldsAppendOne(infos[1..], last);
      assert (infos + [last])[1..] == infos[1..] + [last];
    }
  }

  lemma InfoFieldsNone()
    ensures EncodeFields(M.InfoFields([])) == []
  {
  }

  lemma InfoFieldsSnoc(infos: seq<Msg<M.OneInfo>>, last: Msg<M.OneInfo>)
    ensures EncodeFields(M.InfoFields(infos + [last])) ==
            EncodeFields(M.InfoFields(infos)) + EncodeFields([Field(1, Len(Encode(M.ONE_INFO, last)))])
  {
    hide Encode, EncodeFields;
    InfoFieldsAppendOne(infos, last);
    EncodeAppend(M.InfoFields(infos), [Field(1, Len(Encode(M.ONE_INFO, last)))]);
  }
}
