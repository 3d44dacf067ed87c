/**
 The Protocol Buffers wire format: base-128 varints, tags, the payloads of the five wire types, and
 the reading of a whole byte string as a sequence of fields.

 A cursor into the input is the sequence of bytes not yet read.
 */
module Wire {
  const TWO31 := 0x8000_0000
  const TWO32 := 0x1_0000_0000
  const TWO64 := 0x1_0000_0000_0000_0000

  type byte = n: int | 0 <= n < 256
  type Bytes = seq<byte>
  type uint32 = n: int | 0 <= n < TWO32
  type uint64 = n: int | 0 <= n < TWO64
  type int32 = n: int | -TWO31 <= n < TWO31
  type fieldnum = n: int | 1 <= n < 0x2000_0000 witness 1
  type Raw4 = s: Bytes | |s| == 4 witness [0, 0, 0, 0]
  type Raw8 = s: Bytes | |s| == 8 witness [0, 0, 0, 0, 0, 0, 0, 0]

  /** The outcome of reading one item: the value and the unread bytes. */
  datatype Read<+T> = Fail | Ok(value: T, rest: Bytes)

  // ---------------------------------------------------------------- Base 128 varints

  function Varint(v: nat): Bytes {
    if v < 128 then [v] else [128 + v % 128] + Varint(v / 128)
  }

  function VarintSize(v: nat): (size: nat) {
    if v < 128 then 1 else 1 + VarintSize(v / 128)
  }

  /** Reads a varint of at most max bytes; the value is not yet reduced to a width. */
  function ReadVarint(bs: Bytes, max: nat): (r: Read<nat>)
    ensures r.Ok? ==> |r.rest| < |bs|
    decreases |bs|
  {
    if max == 0 || bs == [] then Fail
    else if bs[0] < 128 then Ok(bs[0], bs[1..])
    else
      match ReadVarint(bs[1..], max - 1)
      case Fail => Fail
      case Ok(v, rest) => Ok(bs[0] - 128 + 128 * v, rest)
  }

  function Pow128(n: nat): nat {
    if n == 0 then 1 else 128 * Pow128(n - 1)
  }

  function ReadTag(bs: Bytes): (r: Read<uint32>)
    ensures r.Ok? ==> |r.rest| < |bs|
  {
    match ReadVarint(bs, 5)
    case Fail => Fail
    case Ok(v, rest) => Ok(v % TWO32, rest)
  }

  function ReadVarint64(bs: Bytes): (r: Read<uint64>)
    ensures r.Ok? ==> |r.rest| < |bs|
  {
    match ReadVarint(bs, 10)
    case Fail => Fail
    case Ok(v, rest) => Ok(v % TWO64, rest)
  }

  /**
   The input ends inside a tag, and the bytes there are begin this one. A reader that looks past the end
   of its input may take them for it.
   */
  predicate MayBe(bs: Bytes, tag: nat) {
    |bs| < 5 && Begins(bs, tag)
  }

  predicate Begins(bs: Bytes, v: nat) {
    bs == [] || (bs[0] == 128 + v % 128 && Begins(bs[1..], v / 128))
  }

  /** The tag test of the tight loops compares one byte. */
  lemma ReadOneByteTag(bs: Bytes)
    requires bs != [] && bs[0] < 128
    ensures ReadTag(bs) == Ok(bs[0], bs[1..])
  {
  }

  /** A length prefix below 2^31 and that many bytes. */
  function ReadLen(bs: Bytes): (r: Read<Bytes>)
    ensures r.Ok? ==> |r.rest| < |bs| && |r.value| < |bs| && |r.value| < TWO31
  {
    match ReadVarint(bs, 5)
    case Fail => Fail
    case Ok(n, rest) => if n < TWO31 && n <= |rest| then Ok(rest[..n], rest[n..]) else Fail
  }

  lemma {:induction false} VarintLength(v: nat)
    ensures |Varint(v)| == VarintSize(v) >= 1
  {
    if v >= 128 {
      VarintLength(v / 128);
    }
  }

  lemma {:induction false} VarintShort(v: nat, max: nat)
    requires max > 0 && v < Pow128(max)
    ensures |Varint(v)| <= max
  {
    if v >= 128 {
      VarintShort(v / 128, max - 1);
    }
  }

  /** The encoder's bytes read back as the same number, whatever follows them. */
  lemma {:induction false} ReadVarintInverts(v: nat, tail: Bytes, max: nat)
    requires v < Pow128(max) && max > 0
    ensures ReadVarint(Varint(v) + tail, max) == Ok(v, tail)
  {
    var bs := Varint(v) + tail;
    if v < 128 {
      assert bs[1..] == tail;
    } else {
      ReadVarintInverts(v / 128, tail, max - 1);
      assert bs[1..] == Varint(v / 128) + tail;
    }
  }

  lemma {:induction false} ReadVarintExtends(bs: Bytes, more: Bytes, max: nat)
    requires ReadVarint(bs, max).Ok?
    ensures ReadVarint(bs + more, max) == Ok(ReadVarint(bs, max).value, ReadVarint(bs, max).rest + more)
  {
    if bs[0] < 128 {
      assert (bs + more)[1..] == bs[1..] + more;
    } else {
      ReadVarintExtends(bs[1..], more, max - 1);
      assert (bs + more)[1..] == bs[1..] + more;
    }
  }

  lemma ReadLenExtends(bs: Bytes, more: Bytes)
    requires ReadLen(bs).Ok?
    ensures ReadLen(bs + more) == Ok(ReadLen(bs).value, ReadLen(bs).rest + more)
  {
    ReadVarintExtends(bs, more, 5);
    var n, rest := ReadVarint(bs, 5).value, ReadVarint(bs, 5).rest;
    assert (rest + more)[..n] == rest[..n] && (rest + more)[n..] == rest[n..] + more;
  }

  lemma Pow128Values()
    ensures Pow128(5) == 0x8_0000_0000
    ensures Pow128(10) == 0x40_0000_0000_0000_0000
  {
    assert Pow128(3) == 0x20_0000;
    assert Pow128(5) == 128 * 128 * Pow128(3);
    assert Pow128(8) == 128 * 128 * 128 * Pow128(5);
    assert Pow128(10) == 128 * 128 * Pow128(8);
  }

  // ---------------------------------------------------------------- The number a varint stands for

  /** The value of the low seven bits of each of the first n bytes, the first byte being the least significant. */
  function Digits(bs: Bytes, n: nat): nat
    requires n <= |bs|
  {
    if n == 0 then 0 else Digits(bs, n - 1) + bs[n - 1] % 128 * Pow128(n - 1)
  }

  lemma {:induction false} DigitsFront(bs: Bytes, n: nat)
    requires 0 < n <= |bs|
    ensures Digits(bs, n) == bs[0] % 128 + 128 * Digits(bs[1..], n - 1)
    decreases n
  {
    if n > 1 {
      DigitsFront(bs, n - 1);
      Carry(bs[n - 1] % 128, Pow128(n - 2));
    }
  }

  lemma Carry(d: nat, p: nat)
    ensures d * (128 * p) == 128 * (d * p)
  {
  }

  /** A varint is the first n bytes, of which exactly the last has its high bit clear. */
  ghost predicate VarintAt(bs: Bytes, n: nat) {
    0 < n <= |bs| && bs[n - 1] < 128 && forall i | 0 <= i < n - 1 :: bs[i] >= 128
  }

  /** What is read is the base-128 number in the bytes up to the first one below 128, if it comes in time. */
  lemma {:induction false} ReadVarintValue(bs: Bytes, max: nat)
    ensures match ReadVarint(bs, max)
      case Ok(v, rest) =>
        var n := |bs| - |rest|;
        n <= max && VarintAt(bs, n) && rest == bs[n..] && v == Digits(bs, n)
      case Fail => forall i | 0 <= i < |bs| && i < max :: bs[i] >= 128
    decreases |bs|
  {
    if max > 0 && bs != [] {
      if bs[0] < 128 {
        assert Digits(bs, 1) == bs[0] by { assert Digits(bs, 0) == 0; }
      } else {
        ReadVarintValue(bs[1..], max - 1);
        if ReadVarint(bs[1..], max - 1).Ok? {
          var n := |bs| - |ReadVarint(bs, max).rest|;
          DigitsFront(bs, n);
        }
      }
    }
  }

  /** A tag keeps the low 32 bits of at most five bytes, a number the low 64 bits of at most ten. */
  lemma NumbersRead(bs: Bytes)
    ensures var t := ReadTag(bs);
      if t.Fail? then forall i | 0 <= i < |bs| && i < 5 :: bs[i] >= 128
      else var n := |bs| - |t.rest|;
        n <= 5 && VarintAt(bs, n) && t.rest == bs[n..] && t.value == Digits(bs, n) % 0x1_0000_0000
    ensures var r := ReadVarint64(bs);
      if r.Fail? then forall i | 0 <= i < |bs| && i < 10 :: bs[i] >= 128
      else var n := |bs| - |r.rest|;
        n <= 10 && VarintAt(bs, n) && r.rest == bs[n..] && r.value == Digits(bs, n) % 0x1_0000_0000_0000_0000
  {
    hide ReadVarint, Digits;
    ReadVarintValue(bs, 5);
    ReadVarintValue(bs, 10);
  }

  /** What is left of 2^32 behind 4 - k digits. */
  function Modulus(k: nat): (m: nat)
    requires k <= 4
    ensures m > 0
  {
    if k == 0 then 0x10 else if k == 1 then 0x800 else if k == 2 then 0x4_0000 else if k == 3 then 0x200_0000 else TWO32
  }

  lemma Scale(x: int, y: int, d: nat)
    requires x <= y
    ensures x * d <= y * d
  {
  }

  lemma QuotientAndRemainder(v: nat, d: nat, q: nat, r: nat)
    requires v == q * d + r && r < d
    ensures v / d == q && v % d == r
  {
    var q', r' := v / d, v % d;
    assert v == q' * d + r';
    if q' < q {
      Scale(q' + 1, q, d);
      assert false;
    } else if q < q' {
      Scale(q + 1, q', d);
      assert false;
    }
  }

  lemma LowDigit(v: nat, k: nat)
    requires 0 < k <= 4
    ensures v % Modulus(k) % 128 == v % 128 && v % Modulus(k) / 128 == v / 128 % Modulus(k - 1)
  {
    var d, w := v % 128, v / 128;
    var q, r := w / Modulus(k - 1), w % Modulus(k - 1);
    assert v == 128 * w + d && w == q * Modulus(k - 1) + r;
    assert Modulus(k) == 128 * Modulus(k - 1);
    Carry(q, Modulus(k - 1));
    QuotientAndRemainder(v, Modulus(k), q, 128 * r + d);
    QuotientAndRemainder(128 * r + d, 128, r, d);
  }

  /** Reading on past the end of a cut-off tag gives a tag that its bytes begin. */
  lemma {:induction false} BeginsRead(bs: Bytes, more: Bytes, max: nat)
    requires |bs| <= max && (forall i | 0 <= i < |bs| :: bs[i] >= 128) && ReadVarint(bs + more, max).Ok?
    ensures Begins(bs, ReadVarint(bs + more, max).value)
    decreases |bs|
  {
    if bs != [] {
      assert (bs + more)[1..] == bs[1..] + more;
      BeginsRead(bs[1..], more, max - 1);
    }
  }

  lemma {:induction false} BeginsLow(bs: Bytes, v: nat, k: nat)
    requires |bs| <= k <= 4 && Begins(bs, v)
    ensures Begins(bs, v % Modulus(k))
    decreases k
  {
    if bs != [] {
      LowDigit(v, k);
      BeginsLow(bs[1..], v / 128, k - 1);
    }
  }

  lemma CutTagReadsOn(bs: Bytes, more: Bytes)
    requires ReadTag(bs).Fail? && |bs| < 5 && ReadTag(bs + more).Ok?
    ensures MayBe(bs, ReadTag(bs + more).value)
  {
    NumbersRead(bs);
    BeginsRead(bs, more, 5);
    BeginsLow(bs, ReadVarint(bs + more, 5).value, 4);
  }

  /** And any tag that begins with these bytes can be what is read. */
  lemma {:induction false} MayBeReadOn(bs: Bytes, v: nat, max: nat) returns (more: Bytes)
    requires Begins(bs, v) && |bs| < max && v < Pow128(max)
    ensures ReadVarint(bs + more, max) == Ok(v, [])
    decreases |bs|
  {
    if bs == [] {
      more := Varint(v);
      ReadVarintInverts(v, [], max);
      assert bs + more == more + [];
    } else {
      more := MayBeReadOn(bs[1..], v / 128, max - 1);
      assert (bs + more)[1..] == bs[1..] + more;
    }
  }

  lemma VarintEndsOnce(bs: Bytes, n: nat, k: nat)
    requires VarintAt(bs, n) && VarintAt(bs, k)
    ensures n == k
  {
  }

  /** A length-delimited payload is a length below 2^31 in at most five bytes, and that many bytes. */
  lemma LengthsRead(bs: Bytes, n: nat)
    requires VarintAt(bs, n)
    ensures ReadLen(bs) ==
      if n <= 5 && Digits(bs, n) < 0x8000_0000 && n + Digits(bs, n) <= |bs|
      then Ok(bs[n..n + Digits(bs, n)], bs[n + Digits(bs, n)..]) else Fail
  {
    hide ReadVarint, Digits;
    ReadVarintValue(bs, 5);
    if ReadVarint(bs, 5).Ok? {
      VarintEndsOnce(bs, n, |bs| - |ReadVarint(bs, 5).rest|);
      var d := Digits(bs, n);
      if n + d <= |bs| {
        assert bs[n..][..d] == bs[n..n + d] && bs[n..][d..] == bs[n + d..];
      }
    } else {
      assert n > 5;
    }
  }

  /** A number is written as its base-128 digits, least significant first, in as few bytes as possible. */
  lemma {:induction false} VarintValue(v: nat)
    ensures var bs, n := Varint(v), |Varint(v)|;
      VarintAt(bs, n) && Digits(bs, n) == v && (n > 1 ==> bs[n - 1] != 0)
  {
    var bs := Varint(v);
    if v < 128 {
      assert Digits(bs, 0) == 0 && Pow128(0) == 1;
    } else {
      VarintValue(v / 128);
      DigitsFront(bs, |bs|);
      assert bs[1..] == Varint(v / 128);
    }
  }

  // ---------------------------------------------------------------- Fields

  datatype Field = Field(num: fieldnum, payload: Payload)
  datatype Payload =
    | VarintVal(v: uint64)
    | I64(raw8: Raw8)
    | Len(bytes: Bytes)
    | Group(fields: seq<Field>)
    | I32(raw4: Raw4)

  function WireType(p: Payload): (w: nat)
    ensures w < 6 && w != 4
  {
    match p
    case VarintVal(_) => 0
    case I64(_) => 1
    case Len(_) => 2
    case Group(_) => 3
    case I32(_) => 5
  }

  function EncodeFields(fs: seq<Field>): Bytes
    decreases fs
  {
    if fs == [] then [] else EncodeField(fs[0]) + EncodeFields(fs[1..])
  }

  function EncodeField(f: Field): Bytes
    decreases f, 1
  {
    Varint(f.num * 8 + WireType(f.payload)) + EncodePayload(f.num, f.payload)
  }

  /** What follows a field's tag; a group also carries its end tag. */
  function EncodePayload(num: fieldnum, p: Payload): Bytes
    decreases p, 0
  {
    match p
    case VarintVal(v) => Varint(v)
    case I64(raw) => raw
    case Len(bs) => Varint(|bs|) + bs
    case Group(fs) => EncodeFields(fs) + Varint(num * 8 + 4)
    case I32(raw) => raw
  }

  /** Every length-delimited payload is short enough for a length prefix. */
  predicate Fits(fs: seq<Field>)
    decreases fs
  {
    fs == [] || (FitsField(fs[0]) && Fits(fs[1..]))
  }

  predicate FitsField(f: Field)
    decreases f, 1
  {
    match f.payload
    case Len(bs) => |bs| < TWO31
    case Group(fs) => Fits(fs)
    case _ => true
  }

  /** Why reading a run of fields ended: a payload may be unreadable behind a good tag. */
  datatype End = AtEnd | StopTag(tag: uint32) | BadTag | Malformed(tag: uint32)
  datatype Parsed = Parsed(fields: seq<Field>, end: End, rest: Bytes) {
    function Prepend(fs: seq<Field>): Parsed {
      this.(fields := fs + fields)
    }
  }

  function ReadFields(bs: Bytes): (r: Parsed)
    ensures |r.rest| <= |bs|
    decreases |bs|, 1
  {
    if bs == [] then Parsed([], AtEnd, [])
    else
      match ReadTag(bs)
      case Fail => Parsed([], BadTag, bs)
      case Ok(tag, rest) =>
        if tag == 0 || tag % 8 == 4 then Parsed([], StopTag(tag), rest)
        else
          match ReadPayload(tag, rest)
          case Fail => Parsed([], Malformed(tag), rest)
          case Ok(p, rest') => ReadFields(rest').Prepend([Field(tag / 8, p)])
  }

  function ReadPayload(tag: uint32, bs: Bytes): (r: Read<Payload>)
    ensures r.Ok? ==> |r.rest| <= |bs| && tag / 8 > 0 && WireType(r.value) == tag % 8
    decreases |bs|, 2
  {
    if tag / 8 == 0 then Fail
    else if tag % 8 == 0 then
      match ReadVarint64(bs)
      case Fail => Fail
      case Ok(v, rest) => Ok(VarintVal(v), rest)
    else if tag % 8 == 1 then
      if |bs| < 8 then Fail else Ok(I64(bs[..8]), bs[8..])
    else if tag % 8 == 2 then
      match ReadLen(bs)
      case Fail => Fail
      case Ok(v, rest) => Ok(Len(v), rest)
    else if tag % 8 == 3 then
      var group := ReadFields(bs);
      if group.end == StopTag(tag + 1) then Ok(Group(group.fields), group.rest) else Fail
    else if tag % 8 == 5 then
      if |bs| < 4 then Fail else Ok(I32(bs[..4]), bs[4..])
    else Fail
  }

  lemma Assoc(a: Bytes, b: Bytes, c: Bytes)
    ensures a + b + c == a + (b + c)
  {
  }

  lemma {:induction false} EncodeAppend(a: seq<Field>, b: seq<Field>)
    ensures EncodeFields(a + b) == EncodeFields(a) + EncodeFields(b)
  {
    if a == [] {
      assert a + b == b;
    } else {
      EncodeAppend(a[1..], b);
      assert (a + b)[0] == a[0] && (a + b)[1..] == a[1..] + b;
      Assoc(EncodeField(a[0]), EncodeFields(a[1..]), EncodeFields(b));
    }
  }

  lemma {:induction false} FitsAppend(a: seq<Field>, b: seq<Field>)
    ensures Fits(a + b) == (Fits(a) && Fits(b))
  {
    if a == [] {
      assert a + b == b;
    } else {
      FitsAppend(a[1..], b);
      assert (a + b)[1..] == a[1..] + b;
    }
  }

  /** A message under 2 GiB has no payload too long for its length prefix. */
  lemma {:induction false} SmallMeansFits(fs: seq<Field>)
    requires |EncodeFields(fs)| < TWO31
    ensures Fits(fs)
    decreases fs
  {
    if fs != [] {
      SmallMeansFitsField(fs[0]);
      SmallMeansFits(fs[1..]);
    }
  }

  lemma {:induction false} SmallMeansFitsField(f: Field)
    requires |EncodeField(f)| < TWO31
    ensures FitsField(f)
    decreases f, 1
  {
    if f.payload.Group? {
      SmallMeansFits(f.payload.fields);
    }
  }

  lemma ReadTagInverts(num: fieldnum, wt: nat, tail: Bytes)
    requires wt < 8
    ensures ReadTag(Varint(num * 8 + wt) + tail) == Ok(num * 8 + wt, tail)
  {
    Pow128Values();
    ReadVarintInverts(num * 8 + wt, tail, 5);
  }

  lemma ReadVarint64Inverts(v: uint64, tail: Bytes)
    ensures ReadVarint64(Varint(v) + tail) == Ok(v, tail)
  {
    hide Varint, ReadVarint, Pow128;
    Pow128Values();
    ReadVarintInverts(v, tail, 10);
  }

  lemma ReadLenInverts(bs: Bytes, tail: Bytes)
    requires |bs| < TWO31
    ensures ReadLen(Varint(|bs|) + bs + tail) == Ok(bs, tail)
  {
    Pow128Values();
    ReadVarintInverts(|bs|, bs + tail, 5);
    Assoc(Varint(|bs|), bs, tail);
    assert (bs + tail)[..|bs|] == bs && (bs + tail)[|bs|..] == tail;
  }

  lemma PrependTwice(r: Parsed, fs: seq<Field>, f: Field)
    ensures r.Prepend(fs).Prepend([f]) == r.Prepend([f] + fs)
  {
    assert [f] + (fs + r.fields) == [f] + fs + r.fields;
  }

  /** Encoded fields in front of any bytes read back as those fields in front of what the bytes hold. */
  lemma {:induction false} ReadFieldsInverts(fs: seq<Field>, tail: Bytes)
    requires Fits(fs)
    ensures ReadFields(EncodeFields(fs) + tail) == ReadFields(tail).Prepend(fs)
    decreases fs, 0
  {
    if fs == [] {
      assert EncodeFields(fs) + tail == tail;
    } else {
      hide ReadFields, EncodeField;
      var f, rest := fs[0], EncodeFields(fs[1..]) + tail;
      ReadFieldInverts(f, rest);
      ReadFieldsInverts(fs[1..], tail);
      Assoc(EncodeField(f), EncodeFields(fs[1..]), tail);
      PrependTwice(ReadFields(tail), fs[1..], f);
      assert [f] + fs[1..] == fs;
    }
  }

  lemma {:induction false} ReadFieldInverts(f: Field, tail: Bytes)
    requires FitsField(f)
    ensures ReadFields(EncodeField(f) + tail) == ReadFields(tail).Prepend([f])
    decreases f, 1
  {
    hide Varint, ReadVarint, ReadTag, ReadPayload;
    var wt, body := WireType(f.payload), EncodePayload(f.num, f.payload);
    Assoc(Varint(f.num * 8 + wt), body, tail);
    ReadTagInverts(f.num, wt, body + tail);
    TagParts(f.num, wt);
    ReadPayloadInverts(f.num, f.payload, tail);
    ReadFieldsTurn(f.num * 8 + wt, EncodeField(f) + tail);
  }

  lemma TagParts(num: nat, wt: nat)
    requires wt < 8
    ensures (num * 8 + wt) / 8 == num && (num * 8 + wt) % 8 == wt
  {
  }

  /** One field in front of the input: what one turn of a parse loop reads. */
  lemma ReadFieldsTurn(tag: uint32, bs: Bytes)
    requires ReadTag(bs).Ok? && ReadTag(bs).value == tag && tag != 0 && tag % 8 != 4
    requires ReadPayload(tag, ReadTag(bs).rest).Ok?
    ensures var r := ReadPayload(tag, ReadTag(bs).rest);
      ReadFields(bs) == ReadFields(r.rest).Prepend([Field(tag / 8, r.value)])
  {
  }

  lemma {:induction false} ReadPayloadInverts(num: fieldnum, p: Payload, tail: Bytes)
    requires FitsField(Field(num, p))
    ensures ReadPayload(num * 8 + WireType(p), EncodePayload(num, p) + tail) == Ok(p, tail)
    decreases p, 0
  {
    TagParts(num, WireType(p));
    match p {
      case VarintVal(v) => ReadVarint64Inverts(v, tail);
      case Len(bs) => ReadLenInverts(bs, tail);
      case Group(fs) => ReadGroupInverts(num, fs, tail);
      case I64(raw) => assert (raw + tail)[..8] == raw && (raw + tail)[8..] == tail;
      case I32(raw) => assert (raw + tail)[..4] == raw && (raw + tail)[4..] == tail;
    }
  }

  lemma {:induction false} ReadGroupInverts(num: fieldnum, fs: seq<Field>, tail: Bytes)
    requires Fits(fs)
    ensures ReadFields(EncodeFields(fs) + Varint(num * 8 + 4) + tail) == Parsed(fs, StopTag(num * 8 + 4), tail)
    decreases fs, 1
  {
    hide Varint, EncodeFields, ReadPayload, ReadVarint;
    var end := Varint(num * 8 + 4);
    VarintLength(num * 8 + 4);
    assert ReadFields(end + tail) == Parsed([], StopTag(num * 8 + 4), tail) by {
      ReadTagInverts(num, 4, tail);
      TagParts(num, 4);
    }
    ReadFieldsInverts(fs, end + tail);
    Assoc(EncodeFields(fs), end, tail);
    assert fs + [] == fs;
  }

  /** Bytes that follow a completely read run are read as they would be on their own. */
  lemma {:induction false} ReadFieldsExtends(bs: Bytes, more: Bytes)
    ensures var r := ReadFields(bs);
      match r.end
      case AtEnd => ReadFields(bs + more) == ReadFields(more).Prepend(r.fields)
      case StopTag(_) => ReadFields(bs + more) == r.(rest := r.rest + more)
      case _ => true
    decreases |bs|, 1
  {
    hide ReadPayload, ReadVarint;
    if bs == [] {
      assert bs + more == more;
    } else if ReadTag(bs).Ok? {
      var tag, rest := ReadTag(bs).value, ReadTag(bs).rest;
      ReadVarintExtends(bs, more, 5);
      if tag != 0 && tag % 8 != 4 && ReadPayload(tag, rest).Ok? {
        var p, rest' := ReadPayload(tag, rest).value, ReadPayload(tag, rest).rest;
        var f: Field := Field(tag / 8, p);
        ReadPayloadExtends(tag, rest, more);
        ReadFieldsTurn(tag, bs);
        ReadFieldsTurn(tag, bs + more);
        ReadFieldsExtends(rest', more);
        PrependTwice(ReadFields(more), ReadFields(rest').fields, f);
      }
    }
  }

  lemma {:induction false} ReadPayloadExtends(tag: uint32, bs: Bytes, more: Bytes)
    requires ReadPayload(tag, bs).Ok?
    ensures ReadPayload(tag, bs + more) == Ok(ReadPayload(tag, bs).value, ReadPayload(tag, bs).rest + more)
    decreases |bs|, 2
  {
    if tag % 8 == 0 {
      ReadVarintExtends(bs, more, 10);
    } else if tag % 8 == 2 {
      ReadLenExtends(bs, more);
    } else if tag % 8 == 3 {
      ReadFieldsExtends(bs, more);
    } else {
      var n := if tag % 8 == 1 then 8 else 4;
      assert (bs + more)[..n] == bs[..n] && (bs + more)[n..] == bs[n..] + more;
    }
  }
}
