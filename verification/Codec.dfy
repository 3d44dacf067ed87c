/**
 What a message means on the wire, for any message type: a schema says which tags the type's parser
 handles, how one field changes the message, what a field the parser fails at may leave behind, which
 fields the type prints, and how two messages merge.
 Fields the type does not know are kept, in order, and printed after the known ones.
 */
module Codec {
  import opened Wire

  datatype Option<+T> = None | Some(value: T)

  datatype Msg<+K> = Msg(known: K, unknown: seq<Field>)

  /**
   What a parse failed at: bytes that are no whole tag; a tag whose payload, in the bytes at hand, cannot
   be read; or a well-formed field with contents the type refuses.
   */
  datatype Cause = NoTag(at: Bytes) | Unreadable(tag: uint32, at: Bytes) | Refused(field: Field)

  /** How a parse ended: at the end of the input, at a tag that stops it, or in an error. */
  datatype Verdict = Complete | Stopped(tag: uint32) | Failed(cause: Cause)

  /** The cause when the parse fails at a tag: its payload cannot be read, or is refused. */
  function CauseAt(tag: uint32, at: Bytes): Cause {
    match ReadPayload(tag, at)
    case Ok(p, _) => Refused(Field(tag / 8, p))
    case Fail => Unreadable(tag, at)
  }

  /** A field that fails has usually been stored in part; spoil says what may then be in the message. */
  datatype Schema<!K> = Schema(
    empty: K,
    tags: set<uint32>,
    absorb: (K, Field) -> Option<K>,
    spoil: (K, Cause, K) -> bool,
    fields: K -> seq<Field>,
    merge: (K, K) -> K)

  /** Fields were all taken, or all before the one that was rejected. */
  datatype Outcome<+K> = Taken(msg: Msg<K>) | Rejected(msg: Msg<K>, field: Field)

  function Empty<K>(s: Schema<K>): Msg<K> {
    Msg(s.empty, [])
  }

  predicate Knows<K>(s: Schema<K>, f: Field) {
    f.num * 8 + WireType(f.payload) in s.tags
  }

  function AbsorbField<K>(s: Schema<K>, m: Msg<K>, f: Field): Outcome<K> {
    if !Knows(s, f) then Taken(m.(unknown := m.unknown + [f]))
    else
      match s.absorb(m.known, f)
      case Some(k) => Taken(m.(known := k))
      case None => Rejected(m, f)
  }

  function AbsorbAll<K>(s: Schema<K>, m: Msg<K>, fs: seq<Field>): Outcome<K>
    decreases |fs|
  {
    if fs == [] then Taken(m)
    else
      var o := AbsorbField(s, m, fs[0]);
      if o.Taken? then AbsorbAll(s, o.msg, fs[1..]) else o
  }

  /** Parsing into m: the message when the parse ended or when it came to the field it failed at, and how it ended. */
  function Parse<K>(s: Schema<K>, m: Msg<K>, bs: Bytes): (Msg<K>, Verdict) {
    var r := ReadFields(bs);
    match AbsorbAll(s, m, r.fields)
    case Rejected(m', f) => (m', Failed(Refused(f)))
    case Taken(m') =>
      match r.end
      case AtEnd => (m', Complete)
      case StopTag(tag) => (m', Stopped(tag))
      case BadTag => (m', Failed(NoTag(r.rest)))
      case Malformed(tag) => (m', Failed(Unreadable(tag, r.rest)))
  }

  /**
   What a message may be turned into by the field a parse failed at. Where the input ends inside a tag, that
   field may be one the tag begins.
   */
  predicate Spoils<K(==)>(s: Schema<K>, m: Msg<K>, cause: Cause, m': Msg<K>) {
    match cause
    case NoTag(at) =>
      || m' == m
      || (|at| < 5 && m'.known == m.known && m.unknown <= m'.unknown)
      || (m'.unknown == m.unknown && s.spoil(m.known, cause, m'.known))
    case Unreadable(tag, _) =>
      if tag in s.tags then m'.unknown == m.unknown && s.spoil(m.known, cause, m'.known)
      else m'.known == m.known && m.unknown <= m'.unknown
    case Refused(_) => m'.unknown == m.unknown && s.spoil(m.known, cause, m'.known)
  }

  /** A message object after a parse: fields read before a stop or an error are kept. */
  predicate Leaves<K(==)>(s: Schema<K>, parsed: (Msg<K>, Verdict), m': Msg<K>) {
    match parsed.1
    case Failed(cause) => Spoils(s, parsed.0, cause, m')
    case _ => m' == parsed.0
  }

  function AllFields<K>(s: Schema<K>, m: Msg<K>): seq<Field> {
    s.fields(m.known) + m.unknown
  }

  function Encode<K>(s: Schema<K>, m: Msg<K>): Bytes {
    EncodeFields(AllFields(s, m))
  }

  function MergeMsg<K>(s: Schema<K>, a: Msg<K>, b: Msg<K>): Msg<K> {
    Msg(s.merge(a.known, b.known), a.unknown + b.unknown)
  }

  predicate KeepsUnknown<K>(s: Schema<K>, m: Msg<K>) {
    forall f <- m.unknown :: !Knows(s, f)
  }

  // ---------------------------------------------------------------- Laws of every schema

  lemma {:induction false} AbsorbAppend<K>(s: Schema<K>, m: Msg<K>, a: seq<Field>, b: seq<Field>)
    ensures AbsorbAll(s, m, a + b) ==
            if AbsorbAll(s, m, a).Taken? then AbsorbAll(s, AbsorbAll(s, m, a).msg, b) else AbsorbAll(s, m, a)
    decreases |a|
  {
    if a == [] {
      assert a + b == b;
    } else {
      assert (a + b)[0] == a[0] && (a + b)[1..] == a[1..] + b;
      var o := AbsorbField(s, m, a[0]);
      if o.Taken? {
        AbsorbAppend(s, o.msg, a[1..], b);
      }
    }
  }

  lemma {:induction false} AbsorbUnknown<K>(s: Schema<K>, m: Msg<K>, fs: seq<Field>)
    requires forall f <- fs :: !Knows(s, f)
    ensures AbsorbAll(s, m, fs) == Taken(m.(unknown := m.unknown + fs))
    decreases |fs|
  {
    if fs == [] {
      assert m.unknown + fs == m.unknown;
    } else {
      AbsorbUnknown(s, m.(unknown := m.unknown + [fs[0]]), fs[1..]);
      assert m.unknown + [fs[0]] + fs[1..] == m.unknown + fs;
    }
  }

  /** One turn of a parse loop: the next field is absorbed and the rest is parsed from there. */
  lemma ParseTurn<K>(s: Schema<K>, m: Msg<K>, bs: Bytes)
    requires bs != []
    ensures Parse(s, m, bs) ==
      match ReadTag(bs)
      case Fail => (m, Failed(NoTag(bs)))
      case Ok(tag, rest) =>
        if tag == 0 || tag % 8 == 4 then (m, Stopped(tag))
        else
          match ReadPayload(tag, rest)
          case Fail => (m, Failed(Unreadable(tag, rest)))
          case Ok(p, rest') =>
            var f: Field := Field(tag / 8, p);
            if tag !in s.tags then Parse(s, m.(unknown := m.unknown + [f]), rest')
            else
              match s.absorb(m.known, f)
              case Some(k) => Parse(s, m.(known := k), rest')
              case None => (m, Failed(Refused(f)))
  {
    hide ReadTag, ReadVarint64, ReadLen;
  }

  // The cases of a turn, one for each branch of a generated parser.

  lemma EndTurn<K>(s: Schema<K>, m: Msg<K>, bs: Bytes)
    requires bs != []
    ensures match ReadTag(bs)
      case Fail => Parse(s, m, bs) == (m, Failed(NoTag(bs)))
      case Ok(tag, _) => tag == 0 || tag % 8 == 4 ==> Parse(s, m, bs) == (m, Stopped(tag))
    ensures forall v: Verdict | v.Failed? ==> v.cause.NoTag? :: Leaves(s, (m, v), m)
  {
    ParseTurn(s, m, bs);
  }

  lemma VarintTurn<K>(s: Schema<K>, m: Msg<K>, bs: Bytes, tag: uint32, at: Bytes)
    requires bs != [] && ReadTag(bs) == Ok(tag, at) && tag in s.tags && tag % 8 == 0 && tag != 0
    ensures Parse(s, m, bs) ==
      match ReadVarint64(at)
      case Fail => (m, Failed(CauseAt(tag, at)))
      case Ok(v, rest) =>
        match s.absorb(m.known, Field(tag / 8, VarintVal(v)))
        case Some(k) => Parse(s, m.(known := k), rest)
        case None => (m, Failed(CauseAt(tag, at)))
    ensures ReadVarint64(at).Fail? ==> CauseAt(tag, at) == Unreadable(tag, at)
  {
    ParseTurn(s, m, bs);
  }

  lemma LenTurn<K>(s: Schema<K>, m: Msg<K>, bs: Bytes, tag: uint32, at: Bytes)
    requires bs != [] && ReadTag(bs) == Ok(tag, at) && tag in s.tags && tag % 8 == 2 && tag / 8 > 0
    ensures Parse(s, m, bs) ==
      match ReadLen(at)
      case Fail => (m, Failed(CauseAt(tag, at)))
      case Ok(v, rest) =>
        match s.absorb(m.known, Field(tag / 8, Len(v)))
        case Some(k) => Parse(s, m.(known := k), rest)
        case None => (m, Failed(CauseAt(tag, at)))
    ensures CauseAt(tag, at) ==
      match ReadLen(at)
      case Fail => Unreadable(tag, at)
      case Ok(v, _) => Refused(Field(tag / 8, Len(v)))
  {
    ParseTurn(s, m, bs);
  }

  lemma UnknownTurn<K>(s: Schema<K>, m: Msg<K>, bs: Bytes, tag: uint32, at: Bytes)
    requires bs != [] && ReadTag(bs) == Ok(tag, at) && tag !in s.tags && tag != 0 && tag % 8 != 4
    ensures Parse(s, m, bs) ==
      match ReadPayload(tag, at)
      case Fail => (m, Failed(CauseAt(tag, at)))
      case Ok(p, rest) => Parse(s, m.(unknown := m.unknown + [Field(tag / 8, p)]), rest)
    ensures ReadPayload(tag, at).Fail? ==> CauseAt(tag, at) == Unreadable(tag, at)
  {
    ParseTurn(s, m, bs);
  }

  lemma LeavesSpoilt<K>(s: Schema<K>, m: Msg<K>, tag: uint32, at: Bytes, m': Msg<K>)
    requires tag in s.tags && m'.unknown == m.unknown && s.spoil(m.known, CauseAt(tag, at), m'.known)
    ensures Leaves(s, (m, Failed(CauseAt(tag, at))), m')
  {
  }

  lemma LeavesMore<K>(s: Schema<K>, m: Msg<K>, tag: uint32, at: Bytes, m': Msg<K>)
    requires tag !in s.tags && ReadPayload(tag, at).Fail? && m'.known == m.known && m.unknown <= m'.unknown
    ensures Leaves(s, (m, Failed(CauseAt(tag, at))), m')
  {
  }

  /** What absorbing fs into m gives is what parsing their bytes gives; the rest is parsed from there. */
  lemma ParseFields<K>(s: Schema<K>, m: Msg<K>, fs: seq<Field>, tail: Bytes)
    requires Fits(fs) && AbsorbAll(s, m, fs).Taken?
    ensures Parse(s, m, EncodeFields(fs) + tail) == Parse(s, AbsorbAll(s, m, fs).msg, tail)
  {
    ReadFieldsInverts(fs, tail);
    AbsorbAppend(s, m, fs, ReadFields(tail).fields);
  }

  /** Parsing the bytes of b into m merges b into m and carries on with the bytes that follow. */
  lemma ParseEncoded<K>(s: Schema<K>, m: Msg<K>, b: Msg<K>, tail: Bytes)
    requires AbsorbAll(s, m, s.fields(b.known)) == Taken(m.(known := s.merge(m.known, b.known)))
    requires KeepsUnknown(s, b) && |Encode(s, b)| < TWO31
    ensures Parse(s, m, Encode(s, b) + tail) == Parse(s, MergeMsg(s, m, b), tail)
  {
    SmallMeansFits(AllFields(s, b));
    AbsorbAppend(s, m, s.fields(b.known), b.unknown);
    AbsorbUnknown(s, m.(known := s.merge(m.known, b.known)), b.unknown);
    ParseFields(s, m, AllFields(s, b), tail);
  }

  /** Concatenating any completely parsed bytes with more bytes parses the second part into the first's result. */
  lemma ParseSplit<K>(s: Schema<K>, m: Msg<K>, a: Bytes, b: Bytes)
    requires Parse(s, m, a).1 == Complete
    ensures Parse(s, m, a + b) == Parse(s, Parse(s, m, a).0, b)
  {
    ReadFieldsExtends(a, b);
    AbsorbAppend(s, m, ReadFields(a).fields, ReadFields(b).fields);
  }

  lemma ParseNothing<K>(s: Schema<K>, m: Msg<K>)
    ensures Parse(s, m, []) == (m, Complete) && Leaves(s, Parse(s, m, []), m)
  {
  }

  /** A zero byte stops the parser; nothing behind it is looked at. */
  lemma ParseStopsAtZero<K>(s: Schema<K>, m: Msg<K>, junk: Bytes)
    ensures Parse(s, m, [0] + junk) == (m, Stopped(0))
  {
  }

  lemma MergeIntoEmpty<K>(s: Schema<K>, b: Msg<K>)
    ensures MergeMsg(s, Empty(s), b) == Msg(s.merge(s.empty, b.known), b.unknown)
  {
    assert [] + b.unknown == b.unknown;
  }

  // ---------------------------------------------------------------- What every message type promises

  /** Printing then parsing is the identity; parsing a concatenation merges; a zero byte stops the parse. */
  ghost predicate CodecLaws<K>(s: Schema<K>, a: Msg<K>, b: Msg<K>, junk: Bytes) {
    && Parse(s, Empty(s), Encode(s, b)) == (b, Complete)
    && Parse(s, Empty(s), Encode(s, a) + Encode(s, b)) == (MergeMsg(s, a, b), Complete)
    && Parse(s, Empty(s), Encode(s, b) + [0] + junk) == (b, Stopped(0))
  }

  /** Merging is associative and the cleared message is its unit on both sides. */
  ghost predicate MergeLaws<K>(s: Schema<K>, a: Msg<K>, b: Msg<K>, c: Msg<K>) {
    && MergeMsg(s, MergeMsg(s, a, b), c) == MergeMsg(s, a, MergeMsg(s, b, c))
    && MergeMsg(s, Empty(s), a) == a
    && MergeMsg(s, a, Empty(s)) == a
  }

  /** Absorbing into m what the message prints merges it into m. */
  ghost predicate Absorbs<K>(s: Schema<K>, m: Msg<K>, b: Msg<K>) {
    AbsorbAll(s, m, s.fields(b.known)) == Taken(m.(known := s.merge(m.known, b.known)))
  }

  lemma CodecLawsFollow<K>(s: Schema<K>, a: Msg<K>, b: Msg<K>, junk: Bytes)
    requires Absorbs(s, Empty(s), a) && Absorbs(s, Empty(s), b) && Absorbs(s, a, b)
    requires MergeMsg(s, Empty(s), a) == a && MergeMsg(s, Empty(s), b) == b
    requires KeepsUnknown(s, a) && KeepsUnknown(s, b)
    requires |Encode(s, a)| < TWO31 && |Encode(s, b)| < TWO31
    ensures CodecLaws(s, a, b, junk)
  {
    var ea, eb := Encode(s, a), Encode(s, b);
    assert eb + [] == eb;
    ParseEncoded(s, Empty(s), b, []);
    ParseEncoded(s, Empty(s), a, eb);
    ParseEncoded(s, a, b, []);
    assert eb + [0] + junk == eb + ([0] + junk);
    ParseEncoded(s, Empty(s), b, [0] + junk);
    ParseStopsAtZero(s, b, junk);
  }

  /** A print that is refused when it is absorbed does not parse. */
  lemma RefusedPrintFails<K>(s: Schema<K>, b: Msg<K>)
    requires AbsorbAll(s, Empty(s), AllFields(s, b)).Rejected? && |Encode(s, b)| < TWO31
    ensures Parse(s, Empty(s), Encode(s, b)).1.Failed?
  {
    SmallMeansFits(AllFields(s, b));
    ReadFieldsInverts(AllFields(s, b), []);
    assert Encode(s, b) + [] == Encode(s, b) && AllFields(s, b) + [] == AllFields(s, b);
  }

  lemma MergeLawsFollow<K>(s: Schema<K>, a: Msg<K>, b: Msg<K>, c: Msg<K>)
    requires s.merge(s.merge(a.known, b.known), c.known) == s.merge(a.known, s.merge(b.known, c.known))
    requires s.merge(s.empty, a.known) == a.known == s.merge(a.known, s.empty)
    ensures MergeLaws(s, a, b, c)
  {
    MergeIntoEmpty(s, a);
    assert a.unknown + [] == a.unknown;
    assert a.unknown + b.unknown + c.unknown == a.unknown + (b.unknown + c.unknown);
  }

  /** Unknown fields gathered by a parse are still unknown to the schema, so printing keeps them apart. */
  lemma {:induction false} AbsorbKeepsUnknown<K>(s: Schema<K>, m: Msg<K>, fs: seq<Field>)
    requires KeepsUnknown(s, m)
    ensures KeepsUnknown(s, AbsorbAll(s, m, fs).msg)
    decreases |fs|
  {
    if fs != [] {
      var o := AbsorbField(s, m, fs[0]);
      if o.Taken? {
        AbsorbKeepsUnknown(s, o.msg, fs[1..]);
      }
    }
  }
}
