/** The test message: a string under a field number whose tag takes three bytes, and the older stream parser. */
module TestPb {
  import opened Wire
  import opened Codec
  import opened Input
  import opened Output
  import M = Messages

  datatype Data = Data(sence: Bytes, page: int32, tableName: Bytes)

  const TABLE_NAME: fieldnum := 9977

  /** The highest tag the parser's switch can handle. */
  const CUTOFF := 79821

  const TEST_PB: Schema<Data> := Schema(
    Data([], 0, []),
    {10, 16, 79818},
    AbsorbTestPb,
    SpoilTestPb,
    (k: Data) => M.OptLen(1, k.sence) + M.OptVarint(2, M.SignExtend(k.page)) + M.OptLen(TABLE_NAME, k.tableName),
    (k: Data, from: Data) => Data(if from.sence != [] then from.sence else k.sence,
                                  if from.page != 0 then from.page else k.page,
                                  if from.tableName != [] then from.tableName else k.tableName))

  function AbsorbTestPb(k: Data, f: Field): Option<Data> {
    match f.payload
    case VarintVal(v) => Some(k.(page := M.Truncate(v)))
    case Len(bs) =>
      if !M.Utf8(bs) then None else Some(if f.num == 1 then k.(sence := bs) else k.(tableName := bs))
    case _ => Some(k)
  }

  predicate SpoilTestPb(k: Data, cause: Cause, k': Data) {
    match cause
    case Unreadable(tag, _) =>
      if tag == 10 then k' == k.(sence := k'.sence)
      else if tag == 16 then k' == k.(page := k'.page)
      else k' == k.(tableName := k'.tableName)
    case Refused(f) =>
      f.payload.Len? && k' == if f.num == 1 then k.(sence := f.payload.bytes) else k.(tableName := f.payload.bytes)
    case NoTag(_) => false
  }

  /** For a fixed field number the low byte of the tag fixes the wire type, even when the tag is longer. */
  lemma LowByteFixesTag(tag: uint32, num: nat, wt: nat)
    requires wt < 8 && tag / 8 == num
    ensures tag % 256 == (num * 8 + wt) % 256 <==> tag == num * 8 + wt
  {
  }

  class CodedOutputStream {
    var written: Bytes

    constructor ()
      ensures written == []
    {
      written := [];
    }
  }

  class TestPbMessage {
    var sence: Bytes
    var page: int32
    var tableName: Bytes
    var unknown: seq<Field>
    var cachedSize: int

    function Value(): Msg<Data>
      reads this
    {
      Msg(Data(sence, page, tableName), unknown)
    }

    function Printed(): Bytes
      reads this
    {
      Encode(TEST_PB, Value())
    }

    constructor ()
      ensures Value() == Empty(TEST_PB)
    {
      sence, page, tableName, unknown, cachedSize := [], 0, [], [], 0;
    }

    /**
     The older parser: it reports success at the end of the input, at a zero tag and at a tag it cannot read,
     and failure at an end-group tag or a bad field.
     */
    method MergePartialFromCodedStream(input: Bytes) returns (ok: bool)
      modifies this
      ensures var (m, verdict) := Parse(TEST_PB, old(Value()), input);
        && (match verdict
            case Complete => ok
            case Stopped(tag) => ok == (tag == 0)
            case Failed(cause) => ok == cause.NoTag?)
        && if ok then Value() == m else Leaves(TEST_PB, (m, verdict), Value())
    {
      hide Parse, Leaves, CauseAt, ReadPayload, ReadTag, ReadFields, ReadVarint64, ReadLen, M.Truncate, M.Utf8;
      var ptr := input;
      while ptr != []
        invariant Parse(TEST_PB, Value(), ptr) == Parse(TEST_PB, old(Value()), input)
        decreases |ptr|
      {
        ghost var m, bs := Value(), ptr;
        EndTurn(TEST_PB, m, bs);
        var t := ReadTag(ptr);
        if t.Fail? || t.value == 0 { return true; }
        var tag := t.value;
        ptr := t.rest;
        if tag <= CUTOFF && tag / 8 == 1 && tag % 256 == 10 {
          assert tag == 10;
          var str, ok, rest := TakeString(ptr);
          LenTurn(TEST_PB, m, bs, tag, ptr);
          sence := str;
          if !M.Utf8(sence) || !ok {
            LeavesSpoilt(TEST_PB, m, tag, ptr, Value());
            return false;
          }
          ptr := rest;
        } else if tag <= CUTOFF && tag / 8 == 2 && tag % 256 == 16 {
          assert tag == 16;
          var v, ok, rest := TakeVarint64(ptr);
          VarintTurn(TEST_PB, m, bs, tag, ptr);
          page := M.Truncate(v);
          if !ok {
            LeavesSpoilt(TEST_PB, m, tag, ptr, Value());
            return false;
          }
          ptr := rest;
        } else if tag <= CUTOFF && tag / 8 == 9977 && tag % 256 == 202 {
          LowByteFixesTag(tag, 9977, 2);
          var str, ok, rest := TakeString(ptr);
          LenTurn(TEST_PB, m, bs, tag, ptr);
          tableName := str;
          if !M.Utf8(tableName) || !ok {
            LeavesSpoilt(TEST_PB, m, tag, ptr, Value());
            return false;
          }
          ptr := rest;
        } else {
          if tag % 8 == 4 { return false; }
          var more, ok, rest := TakeUnknown(tag, ptr);
          UnknownTurn(TEST_PB, m, bs, tag, ptr);
          unknown := unknown + more;
          if !ok {
            LeavesMore(TEST_PB, m, tag, ptr, Value());
            return false;
          }
          ptr := rest;
        }
      }
      ParseNothing(TEST_PB, Value());
      return true;
    }

    /** Writes to a stream. */
    method SerializeWithCachedSizes(output: CodedOutputStream)
      modifies output
      ensures output.written == old(output.written) + Printed()
    {
      hide EncodeFields, Encode, Varint;
      EncodeNone();
      if |sence| > 0 {
        output.written := WriteBytes(1, sence, output.written);
      }
      if page != 0 {
        output.written := WriteVarint(2, M.SignExtend(page), output.written);
      }
      if |tableName| > 0 {
        output.written := WriteBytes(TABLE_NAME, tableName, output.written);
      }
      output.written := output.written + EncodeFields(unknown);
      EncodeParts(Value());
    }

    /** Writes to an array; the bytes are those the stream gets. */
    method InternalSerializeWithCachedSizesToArray(target: Bytes) returns (out: Bytes)
      ensures out == target + Printed()
    {
      hide EncodeFields, Encode, Varint;
      EncodeNone();
      out := target;
      if |sence| > 0 {
        out := WriteBytes(1, sence, out);
      }
      if page != 0 {
        out := WriteVarint(2, M.SignExtend(page), out);
      }
      if |tableName| > 0 {
        out := WriteBytes(TABLE_NAME, tableName, out);
      }
      out := out + EncodeFields(unknown);
      EncodeParts(Value());
    }

    method ByteSizeLong() returns (total: nat)
      modifies this`cachedSize
      ensures Agree(total, |Printed()|)
      ensures total < TWO31 ==> cachedSize == total
    {
      hide EncodeFields, VarintSize, LengthDelimitedSize, ToCachedSize;
      EncodeNone();
      total := |EncodeFields(unknown)|;
      if |sence| > 0 {
        LenFieldLength(1, sence);
        total := total + 1 + LengthDelimitedSize(|sence|);
      }
      if |tableName| > 0 {
        TableNameLength(tableName);
        total := total + 3 + LengthDelimitedSize(|tableName|);
      }
      VarintFieldLength(2, M.SignExtend(page));
      if page != 0 {
        total := total + 1 + Int32Size(page);
      }
      cachedSize := ToCachedSize(total);
      EncodeParts(Value());
    }

    method MergeFrom(from: TestPbMessage)
      requires from != this
      modifies this
      ensures Value() == MergeMsg(TEST_PB, old(Value()), from.Value())
    {
      unknown := unknown + from.unknown;
      if |from.sence| > 0 {
        sence := from.sence;
      }
      if |from.tableName| > 0 {
        tableName := from.tableName;
      }
      if from.page != 0 {
        page := from.page;
      }
    }
  }

  /** The tag of field 9977 takes three bytes. */
  lemma TableNameLength(bs: Bytes)
    ensures Agree(3 + LengthDelimitedSize(|bs|), |EncodeFields([Field(TABLE_NAME, Len(bs))])|)
  {
    EncodeOne(Field(TABLE_NAME, Len(bs)));
    VarintLength(|bs|);
    assert Varint(79818) == [202, 239, 4];
  }

  lemma EncodeParts(m: Msg<Data>)
    ensures Encode(TEST_PB, m) ==
            EncodeFields(M.OptLen(1, m.known.sence)) + EncodeFields(M.OptVarint(2, M.SignExtend(m.known.page))) +
            EncodeFields(M.OptLen(TABLE_NAME, m.known.tableName)) + EncodeFields(m.unknown)
  {
    var a, b, c := M.OptLen(1, m.known.sence), M.OptVarint(2, M.SignExtend(m.known.page)),
                   M.OptLen(TABLE_NAME, m.known.tableName);
    EncodeThree(a, b, c);
    EncodeAppend(a + b + c, m.unknown);
  }

  lemma TestPbAbsorbs(m: Msg<Data>, from: Msg<Data>)
    requires M.Utf8(from.known.sence) && M.Utf8(from.known.tableName)
    ensures Absorbs(TEST_PB, m, from)
  {
    hide M.Utf8;
    var a, b, c := M.OptLen(1, from.known.sence), M.OptVarint(2, M.SignExtend(from.known.page)),
                   M.OptLen(TABLE_NAME, from.known.tableName);
    M.TruncateInverts(from.known.page);
    AbsorbAppend(TEST_PB, m, a, b);
    AbsorbAppend(TEST_PB, m, a + b, c);
  }

  lemma TestPbMergeLaws(a: Msg<Data>, b: Msg<Data>, c: Msg<Data>)
    ensures MergeLaws(TEST_PB, a, b, c)
  {
    MergeLawsFollow(TEST_PB, a, b, c);
  }

  /** The parser inverts the serializers, and a zero byte ends the message successfully. */
  lemma TestPbCodecLaws(a: Msg<Data>, b: Msg<Data>, junk: Bytes)
    requires KeepsUnknown(TEST_PB, a) && M.Utf8(a.known.sence) && M.Utf8(a.known.tableName)
    requires KeepsUnknown(TEST_PB, b) && M.Utf8(b.known.sence) && M.Utf8(b.known.tableName)
    requires |Encode(TEST_PB, a)| < TWO31 && |Encode(TEST_PB, b)| < TWO31
    ensures CodecLaws(TEST_PB, a, b, junk)
  {
    hide AbsorbAll, Encode, MergeMsg, M.Utf8;
    TestPbAbsorbs(Empty(TEST_PB), a);
    TestPbAbsorbs(Empty(TEST_PB), b);
    TestPbAbsorbs(a, b);
    TestPbMergeLaws(a, b, a);
    TestPbMergeLaws(b, a, a);
    CodecLawsFollow(TEST_PB, a, b, junk);
  }

  /** A message survives printing and parsing if and only if both its strings are UTF-8. */
  lemma TestPbSurvivesExactly(b: Msg<Data>)
    requires KeepsUnknown(TEST_PB, b) && |Encode(TEST_PB, b)| < TWO31
    ensures Parse(TEST_PB, Empty(TEST_PB), Encode(TEST_PB, b)) == (b, Complete) <==>
            M.Utf8(b.known.sence) && M.Utf8(b.known.tableName)
  {
    if M.Utf8(b.known.sence) && M.Utf8(b.known.tableName) {
      TestPbCodecLaws(b, b, []);
    } else {
      var m := Empty(TEST_PB);
      var x, y, z := M.OptLen(1, b.known.sence), M.OptVarint(2, M.SignExtend(b.known.page)),
                     M.OptLen(TABLE_NAME, b.known.tableName);
      AbsorbAppend(TEST_PB, m, x, y);
      AbsorbAppend(TEST_PB, m, x + y, z);
      AbsorbAppend(TEST_PB, m, x + y + z, b.unknown);
      RefusedPrintFails(TEST_PB, b);
    }
  }

  lemma PrintContinues(b: Msg<Data>, tail: Bytes)
    requires KeepsUnknown(TEST_PB, b) && M.Utf8(b.known.sence) && M.Utf8(b.known.tableName)
    requires |Encode(TEST_PB, b)| < TWO31
    ensures Parse(TEST_PB, Empty(TEST_PB), Encode(TEST_PB, b) + tail) == Parse(TEST_PB, b, tail)
  {
    hide Encode, AbsorbAll, Parse, M.Utf8;
    TestPbAbsorbs(Empty(TEST_PB), b);
    TestPbMergeLaws(b, b, b);
    ParseEncoded(TEST_PB, Empty(TEST_PB), b, tail);
  }

  /** How the parse of one byte behind a message ends. */
  lemma OneByteMore(b: Msg<Data>, tail: Bytes)
    requires tail != []
    ensures tail[0] < 128 && (tail[0] == 0 || tail[0] % 8 == 4) ==> Parse(TEST_PB, b, tail) == (b, Stopped(tail[0]))
    ensures tail == [10] || tail == [16] ==> Parse(TEST_PB, b, tail).1 == Failed(Unreadable(tail[0], []))
    ensures tail == [128] ==> Parse(TEST_PB, b, tail) == (b, Failed(NoTag([128])))
  {
    ParseTurn(TEST_PB, b, tail);
    if tail[0] < 128 {
      ReadOneByteTag(tail);
    }
  }

  /**
   A message printed to a stream, with more bytes behind it, and parsed into a new one: whole at the end of
   the input, at a zero byte and at half a tag; a failure at an end-group tag and at a field cut off.
   */
  method PrintAndParse(from: TestPbMessage, tail: Bytes) returns (ok: bool, copy: TestPbMessage)
    requires KeepsUnknown(TEST_PB, from.Value()) && M.Utf8(from.sence) && M.Utf8(from.tableName)
    requires |from.Printed()| < TWO31
    ensures fresh(copy)
    ensures tail == [] || tail[0] == 0 || tail == [128] ==> ok && copy.Value() == from.Value()
    ensures tail != [] && tail[0] < 128 && tail[0] % 8 == 4 ==> !ok && copy.Value() == from.Value()
    ensures tail == [10] || tail == [16] ==> !ok
  {
    hide Parse, Encode, M.Utf8;
    var stream := new CodedOutputStream();
    from.SerializeWithCachedSizes(stream);
    copy := new TestPbMessage();
    ghost var b := from.Value();
    ok := copy.MergePartialFromCodedStream(stream.written + tail);
    assert [] + from.Printed() == from.Printed();
    PrintContinues(b, tail);
    if tail == [] {
      ParseNothing(TEST_PB, b);
    } else {
      OneByteMore(b, tail);
    }
  }
}
