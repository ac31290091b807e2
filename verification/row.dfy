/** RowCodec: the framing of a table row. Layout: magic, field count, one
    bool null flag per field, then the payload of every non-null field in
    order. Field's own serialisation is not part of this model: a field is
    its type, its null flag and the bytes it writes, and reading a payload
    back is a parameter of the deserialiser. */
module RowCodec {
  import opened Wrappers
  import opened Bytes
  import opened Codec

  /** Row::ROW_MAGIC_NUM. */
  const ROW_MAGIC_NUM: int := 1055820

  type TypeId = int

  /** A field: its type, whether it is null, and the bytes
      Field::SerializeTo writes for it. */
  datatype Field = Field(typeId: TypeId, isNull: bool, payload: seq<byte>)

  datatype Row = Row(fields: seq<Field>)

  /** Field::DeserializeFrom for a non-null field of the given type: the
      payload at the front of a buffer, or None when the bytes are not one. */
  type PayloadReader = (seq<byte>, TypeId) -> Option<seq<byte>>

  /** The count fits its u32 field, and a null field carries no payload, as
      a typed null Field does. */
  predicate Valid(r: Row) {
    && |r.fields| < U32_LIMIT
    && forall i :: 0 <= i < |r.fields| ==> (r.fields[i].isNull ==> r.fields[i].payload == [])
  }

  /** The bool MACH_WRITE_TO stores: 1 for null, 0 otherwise. */
  function NullFlag(f: Field): (b: byte)
    ensures b != 0 <==> f.isNull
  {
    if f.isNull then 1 else 0
  }

  function NullFlags(fs: seq<Field>): (bs: seq<byte>)
    ensures |bs| == |fs|
    ensures forall i :: 0 <= i < |fs| ==> bs[i] == NullFlag(fs[i])
  {
    if fs == [] then [] else [NullFlag(fs[0])] + NullFlags(fs[1..])
  }

  /** The bytes of the non-null fields; a null field adds none. */
  function PayloadSize(fs: seq<Field>): nat {
    if fs == [] then 0
    else (if fs[0].isNull then 0 else |fs[0].payload|) + PayloadSize(fs[1..])
  }

  function Payloads(fs: seq<Field>): (bs: seq<byte>)
    ensures |bs| == PayloadSize(fs)
  {
    if fs == [] then []
    else (if fs[0].isNull then [] else fs[0].payload) + Payloads(fs[1..])
  }

  /** GetSerializedSize: magic and count, a flag per field, and the non-null
      payloads. A row without fields takes 8 bytes. */
  function SerializedSize(r: Row): nat {
    8 + |r.fields| + PayloadSize(r.fields)
  }

  /** SerializeTo. */
  function Serialize(r: Row): (bs: seq<byte>)
    requires Valid(r)
    ensures |bs| == SerializedSize(r)
  {
    EncodeU32(ROW_MAGIC_NUM) + (EncodeU32(|r.fields|) + (NullFlags(r.fields) + Payloads(r.fields)))
  }

  /** The field loop: one field per schema column, null or not as its flag
      says. A null column becomes a typed null field and takes no bytes; a
      column past the end of the flags read is an overrun. */
  function ReadFields(flags: seq<byte>, types: seq<TypeId>, buf: seq<byte>, read: PayloadReader)
    : (r: Result<(seq<Field>, seq<byte>), DecodeError>)
    ensures r.Success? ==> |types| <= |flags|
    ensures r.Success? ==> |r.value.0| == |types| && |buf| - |r.value.1| == PayloadSize(r.value.0)
    ensures r.Success? ==> forall i :: 0 <= i < |types| ==>
      && r.value.0[i].typeId == types[i]
      && (r.value.0[i].isNull <==> flags[i] != 0)
      && (r.value.0[i].isNull ==> r.value.0[i].payload == [])
    decreases |types|
  {
    if types == [] then Success(([], buf))
    else if flags == [] then Failure(Overrun)
    else if flags[0] != 0 then
      var (fs, rest) :- ReadFields(flags[1..], types[1..], buf, read);
      Success(([Field(types[0], true, [])] + fs, rest))
    else
      var found := read(buf, types[0]);
      if found.None? then Failure(Unreadable)
      else if |buf| < |found.value| then Failure(Truncated)
      else
        var (fs, rest) :- ReadFields(flags[1..], types[1..], buf[|found.value|..], read);
        Success(([Field(types[0], false, found.value)] + fs, rest))
  }

  /** DeserializeFrom into a row with no fields yet: the fields of the
      columns `types` and the bytes taken. A wrong magic number is read and
      passed over. When the count written matches the schema, the bytes
      taken are the row's own serialized size. */
  function Deserialize(buf: seq<byte>, types: seq<TypeId>, read: PayloadReader): (r: Result<(Row, nat), DecodeError>)
    ensures r.Success? ==> |buf| >= 8 && |types| <= ReadU32(buf, 4)
    ensures r.Success? ==> r.value.1 == 8 + ReadU32(buf, 4) + PayloadSize(r.value.0.fields) <= |buf|
    ensures r.Success? && ReadU32(buf, 4) == |types| ==> r.value.1 == SerializedSize(r.value.0)
    ensures r.Success? ==> |r.value.0.fields| == |types|
    ensures r.Success? ==> forall i :: 0 <= i < |types| ==>
      && r.value.0.fields[i].typeId == types[i]
      && (r.value.0.fields[i].isNull <==> buf[8 + i] != 0)
      && (r.value.0.fields[i].isNull ==> r.value.0.fields[i].payload == [])
  {
    var (_, rest0) :- TakeU32(buf);
    var (count, rest1) :- TakeU32(rest0);
    var (flags, rest2) :- TakeBytes(rest1, count);
    assert forall i :: 0 <= i < count ==> flags[i] == buf[8 + i] by {
      assert buf == buf[..4] + rest0 && rest0 == rest0[..4] + rest1;
      assert rest1 == flags + rest2;
    }
    var (fields, rest3) :- ReadFields(flags, types, rest2, read);
    Success((Row(fields), |buf| - |rest3|))
  }

  /** A mismatched magic number changes nothing: whatever the first four
      bytes hold, the same row is read. */
  lemma MagicOnlyWarns(m1: u32, m2: u32, rest: seq<byte>, types: seq<TypeId>, read: PayloadReader)
    ensures Deserialize(EncodeU32(m1) + rest, types, read) == Deserialize(EncodeU32(m2) + rest, types, read)
  {
    TakeEncodedU32(m1, rest);
    TakeEncodedU32(m2, rest);
  }

  // ---------------------------------------------------------------------------
  // Round trip

  /** The payload reader gives back every non-null field of `fs` from its
      bytes, whatever follows them. */
  ghost predicate ReadsBack(read: PayloadReader, fs: seq<Field>) {
    forall i, rest :: 0 <= i < |fs| && !fs[i].isNull ==> read(fs[i].payload + rest, fs[i].typeId) == Some(fs[i].payload)
  }

  /** The schema's column types are the fields' types. */
  predicate TypesOf(types: seq<TypeId>, fs: seq<Field>) {
    |types| == |fs| && forall i :: 0 <= i < |fs| ==> types[i] == fs[i].typeId
  }

  /** One round of the field loop, for a field `f` at the front. */
  lemma ReadFieldsStep(flags: seq<byte>, types: seq<TypeId>, buf: seq<byte>, read: PayloadReader,
                       f: Field, after: seq<byte>, fs: seq<Field>, tail: seq<byte>)
    requires |flags| > 0 && |types| > 0 && f.typeId == types[0] && (flags[0] != 0 <==> f.isNull)
    requires f.isNull ==> f.payload == [] && buf == after
    requires !f.isNull ==> read(buf, types[0]) == Some(f.payload) && buf == f.payload + after
    requires ReadFields(flags[1..], types[1..], after, read) == Success((fs, tail))
    ensures ReadFields(flags, types, buf, read) == Success(([f] + fs, tail))
  {
    if !f.isNull {
      assert buf[|f.payload|..] == after;
    }
  }

  /** What the loop needs of the fields after the first. */
  lemma ReadsBackTail(read: PayloadReader, fs: seq<Field>, types: seq<TypeId>)
    requires |fs| > 0 && TypesOf(types, fs) && ReadsBack(read, fs)
    ensures TypesOf(types[1..], fs[1..]) && ReadsBack(read, fs[1..])
  {
    forall i, rest | 0 <= i < |fs[1..]| && !fs[1..][i].isNull
      ensures read(fs[1..][i].payload + rest, fs[1..][i].typeId) == Some(fs[1..][i].payload)
    {
      assert fs[1..][i] == fs[i + 1];
    }
  }

  lemma {:induction false} ReadEncodedFields(fs: seq<Field>, types: seq<TypeId>, tail: seq<byte>, read: PayloadReader)
    requires TypesOf(types, fs) && ReadsBack(read, fs)
    requires forall i :: 0 <= i < |fs| ==> (fs[i].isNull ==> fs[i].payload == [])
    ensures ReadFields(NullFlags(fs), types, Payloads(fs) + tail, read) == Success((fs, tail))
    decreases |fs|
  {
    if fs == [] {
      assert Payloads(fs) + tail == tail;
    } else {
      var after := Payloads(fs[1..]) + tail;
      FirstField(fs, tail);
      ReadsBackTail(read, fs, types);
      ReadEncodedFields(fs[1..], types[1..], tail, read);
      if !fs[0].isNull {
        assert read(fs[0].payload + after, fs[0].typeId) == Some(fs[0].payload);
      }
      ReadFieldsStep(NullFlags(fs), types, Payloads(fs) + tail, read, fs[0], after, fs[1..], tail);
      assert [fs[0]] + fs[1..] == fs;
    }
  }

  /** The flags and payload bytes of a field list, split after its first
      field. */
  lemma FirstField(fs: seq<Field>, tail: seq<byte>)
    requires |fs| > 0
    ensures NullFlags(fs)[1..] == NullFlags(fs[1..])
    ensures Payloads(fs) + tail == (if fs[0].isNull then [] else fs[0].payload) + (Payloads(fs[1..]) + tail)
  {
    Assoc(if fs[0].isNull then [] else fs[0].payload, Payloads(fs[1..]), tail);
  }

  /** Deserialize in terms of its reads. */
  lemma DeserializeSteps(buf: seq<byte>, rest0: seq<byte>, rest1: seq<byte>, rest2: seq<byte>, rest3: seq<byte>,
                         r: Row, types: seq<TypeId>, read: PayloadReader)
    requires TakeU32(buf) == Success((ROW_MAGIC_NUM, rest0))
    requires TakeU32(rest0) == Success((|r.fields|, rest1))
    requires TakeBytes(rest1, |r.fields|) == Success((NullFlags(r.fields), rest2))
    requires ReadFields(NullFlags(r.fields), types, rest2, read) == Success((r.fields, rest3))
    ensures Deserialize(buf, types, read) == Success((r, |buf| - |rest3|))
  {
  }

  /** DeserializeFrom(SerializeTo(r)) is `r` and takes exactly
      GetSerializedSize bytes, when the schema's column types are the
      fields' types and every non-null payload reads back. */
  lemma DeserializeSerialize(r: Row, types: seq<TypeId>, tail: seq<byte>, read: PayloadReader)
    requires Valid(r) && TypesOf(types, r.fields) && ReadsBack(read, r.fields)
    ensures Deserialize(Serialize(r) + tail, types, read) == Success((r, SerializedSize(r)))
  {
    var a := EncodeU32(ROW_MAGIC_NUM);
    var b := EncodeU32(|r.fields|);
    var c := NullFlags(r.fields);
    var d := Payloads(r.fields);
    Assoc(a, b + (c + d), tail);
    Assoc(b, c + d, tail);
    Assoc(c, d, tail);
    TakeEncodedU32(ROW_MAGIC_NUM, b + (c + (d + tail)));
    TakeEncodedU32(|r.fields|, c + (d + tail));
    TakeWrittenBytes(c, d + tail);
    ReadEncodedFields(r.fields, types, tail, read);
    DeserializeSteps(Serialize(r) + tail, b + (c + (d + tail)), c + (d + tail), d + tail, tail, r, types, read);
  }
}
