/** The library routines the generated serializers call: writing one field, and the sizes they promise. */
module Output {
  import opened Wire
  import opened Codec
  import opened Messages

  function WriteVarint(num: fieldnum, v: uint64, target: Bytes): (out: Bytes)
    ensures out == target + EncodeFields([Field(num, VarintVal(v))])
  {
    EncodeOne(Field(num, VarintVal(v)));
    target + Varint(num * 8) + Varint(v)
  }

  function WriteBytes(num: fieldnum, bs: Bytes, target: Bytes): (out: Bytes)
    ensures out == target + EncodeFields([Field(num, Len(bs))])
  {
    EncodeOne(Field(num, Len(bs)));
    target + Varint(num * 8 + 2) + Varint(|bs|) + bs
  }

  /** Writing a tag, a length, and then the bytes of that length is writing one field. */
  lemma WriteInParts(num: fieldnum, bs: Bytes, target: Bytes)
    ensures target + Varint(num * 8 + 2) + Varint(|bs|) + bs == target + EncodeFields([Field(num, Len(bs))])
  {
    EncodeOne(Field(num, Len(bs)));
  }

  lemma EncodeOne(f: Field)
    ensures EncodeFields([f]) == EncodeField(f)
  {
    assert [f][1..] == [];
  }

  lemma EncodeNone()
    ensures EncodeFields([]) == []
  {
  }

  lemma EncodeThree(a: seq<Field>, b: seq<Field>, c: seq<Field>)
    ensures EncodeFields(a + b + c) == EncodeFields(a) + EncodeFields(b) + EncodeFields(c)
  {
    EncodeAppend(a + b, c);
    EncodeAppend(a, b);
  }

  /** The size of a payload with its length prefix; the prefix holds the low 32 bits of the length. */
  function LengthDelimitedSize(n: nat): (size: nat)
    ensures size > n
  {
    VarintLength(n % TWO32);
    n + VarintSize(n % TWO32)
  }

  function Int32Size(x: int32): nat {
    VarintSize(SignExtend(x))
  }

  /** The conversion of a size to a 32-bit int, wrapping around from 2^31 on. */
  function ToCachedSize(n: nat): (size: int32)
    ensures n < TWO31 ==> size == n
  {
    Truncate(n % TWO64)
  }

  function PackedSize(vs: seq<uint64>): nat {
    if vs == [] then 0 else VarintSize(vs[0]) + PackedSize(vs[1..])
  }

  /** A computed size is right unless both it and the true length are 2 GiB or more. */
  predicate Agree(size: nat, length: nat) {
    size < TWO31 || length < TWO31 ==> size == length
  }

  lemma {:induction false} PackedLength(vs: seq<uint64>)
    ensures |Pack(vs)| == PackedSize(vs) && (PackedSize(vs) > 0 <==> vs != [])
  {
    if vs != [] {
      VarintLength(vs[0]);
      PackedLength(vs[1..]);
    }
  }

  lemma VarintFieldLength(num: fieldnum, v: uint64)
    requires num < 16
    ensures |EncodeFields(OptVarint(num, v))| == if v != 0 then 1 + VarintSize(v) else 0
  {
    if v != 0 {
      EncodeOne(Field(num, VarintVal(v)));
      VarintLength(v);
    }
  }

  lemma AgreeSum(a: nat, b: nat, c: nat, d: nat)
    requires Agree(a, b) && Agree(c, d)
    ensures Agree(a + c, b + d)
  {
  }

  /** A nested message whose size agrees with its length is a field whose size agrees. */
  lemma NestedFieldLength(num: fieldnum, size: nat, bs: Bytes)
    requires num < 16 && Agree(size, |bs|)
    ensures Agree(1 + LengthDelimitedSize(size), |EncodeFields([Field(num, Len(bs))])|)
  {
    LenFieldLength(num, bs);
  }

  lemma LenFieldLength(num: fieldnum, bs: Bytes)
    requires num < 16
    ensures Agree(1 + LengthDelimitedSize(|bs|), |EncodeFields([Field(num, Len(bs))])|)
  {
    EncodeOne(Field(num, Len(bs)));
    VarintLength(|bs|);
  }

  /** A packed field: nothing when empty, else a tag, the length as an int32 varint, and the elements. */
  lemma PackedFieldLength(num: fieldnum, vs: seq<uint64>)
    requires num < 16
    ensures var n := PackedSize(vs);
      Agree((if n > 0 then 1 + Int32Size(ToCachedSize(n)) else 0) + n, |EncodeFields(OptLen(num, Pack(vs)))|)
  {
    hide Varint, Pack, PackedSize, ToCachedSize;
    PackedLength(vs);
    VarintLength(num * 8 + 2);
    if vs != [] {
      EncodeOne(Field(num, Len(Pack(vs))));
      VarintLength(|Pack(vs)|);
    }
  }

  lemma DataFieldsSnoc(data: seq<Bytes>, last: Bytes)
    ensures EncodeFields(DataFields(data + [last])) ==
            EncodeFields(DataFields(data)) + EncodeFields([Field(3, Len(last))])
  {
    assert DataFields(data + [last]) == DataFields(data) + [Field(3, Len(last))];
    EncodeAppend(DataFields(data), [Field(3, Len(last))]);
  }
}
