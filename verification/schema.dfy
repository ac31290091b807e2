/** SchemaCodec: the framing of a table schema. Layout: magic, column count,
    then each column's bytes in order. Column's own serialisation is not
    part of this model: a column is the bytes it writes, and reading one back
    is a parameter of the deserialiser. */
module SchemaCodec {
  import opened Wrappers
  import opened Bytes
  import opened Codec

  /** The value of SCHEMA_MAGIC_NUM is not part of this model. The reader
      only warns when it does not match, so nothing here depends on it. */
  const SCHEMA_MAGIC_NUM: u32

  /** A column as the bytes Column::SerializeTo writes; its
      GetSerializedSize is their number. */
  datatype Column = Column(bytes: seq<byte>)

  datatype Schema = Schema(columns: seq<Column>)

  /** Column::DeserializeFrom: the column at the front of a buffer, or None
      when the bytes are not a column. */
  type ColumnReader = seq<byte> -> Option<Column>

  predicate Valid(s: Schema) {
    |s.columns| < U32_LIMIT
  }

  function ColumnsSize(cs: seq<Column>): nat {
    if cs == [] then 0 else |cs[0].bytes| + ColumnsSize(cs[1..])
  }

  /** GetSerializedSize: the two u32 header fields and every column. */
  function SerializedSize(s: Schema): nat {
    8 + ColumnsSize(s.columns)
  }

  function EncodeColumns(cs: seq<Column>): (bs: seq<byte>)
    ensures |bs| == ColumnsSize(cs)
  {
    if cs == [] then [] else cs[0].bytes + EncodeColumns(cs[1..])
  }

  /** SerializeTo. */
  function Serialize(s: Schema): (bs: seq<byte>)
    requires Valid(s)
    ensures |bs| == SerializedSize(s)
  {
    EncodeU32(SCHEMA_MAGIC_NUM) + EncodeU32(|s.columns|) + EncodeColumns(s.columns)
  }

  /** The read loop: `n` columns, each followed by the next at the offset
      its size gives. */
  function ReadColumns(buf: seq<byte>, n: nat, read: ColumnReader): (r: Result<(seq<Column>, seq<byte>), DecodeError>)
    ensures r.Success? ==> |r.value.0| == n && |buf| - |r.value.1| == ColumnsSize(r.value.0)
    decreases n
  {
    if n == 0 then Success(([], buf))
    else
      var found := read(buf);
      if found.None? then Failure(Unreadable)
      else
      var c := found.value;
      if |buf| < |c.bytes| then Failure(Truncated)
      else
        var tail :- ReadColumns(buf[|c.bytes|..], n - 1, read);
        Success(([c] + tail.0, tail.1))
  }

  /** DeserializeFrom: the schema and the bytes it took, which are its own
      serialized size. A wrong magic number is read and passed over. */
  function Deserialize(buf: seq<byte>, read: ColumnReader): (r: Result<(Schema, nat), DecodeError>)
    ensures r.Success? ==> r.value.1 == SerializedSize(r.value.0) <= |buf|
    ensures |buf| < 8 ==> r == Failure(Truncated)
  {
    var (_, rest0) :- TakeU32(buf);
    var (n, rest1) :- TakeU32(rest0);
    var (columns, rest2) :- ReadColumns(rest1, n, read);
    Success((Schema(columns), |buf| - |rest2|))
  }

  /** A mismatched magic number changes nothing: whatever the first four
      bytes hold, the same schema is read. */
  lemma MagicOnlyWarns(m1: u32, m2: u32, rest: seq<byte>, read: ColumnReader)
    ensures Deserialize(EncodeU32(m1) + rest, read) == Deserialize(EncodeU32(m2) + rest, read)
  {
    TakeEncodedU32(m1, rest);
    TakeEncodedU32(m2, rest);
  }

  // ---------------------------------------------------------------------------
  // Round trip

  /** The column reader gives back every column of `cs` from its bytes,
      whatever follows them. */
  ghost predicate ReadsBack(read: ColumnReader, cs: seq<Column>) {
    forall i, rest :: 0 <= i < |cs| ==> read(cs[i].bytes + rest) == Some(cs[i])
  }

  lemma {:induction false} ReadEncodedColumns(cs: seq<Column>, tail: seq<byte>, read: ColumnReader)
    requires ReadsBack(read, cs)
    ensures ReadColumns(EncodeColumns(cs) + tail, |cs|, read) == Success((cs, tail))
    decreases |cs|
  {
    if cs == [] {
      assert EncodeColumns(cs) + tail == tail;
    } else {
      var c := cs[0];
      var after := EncodeColumns(cs[1..]) + tail;
      var buf := EncodeColumns(cs) + tail;
      assert buf == c.bytes + after;
      assert read(c.bytes + after) == Some(c);
      assert buf[|c.bytes|..] == after;
      assert ReadsBack(read, cs[1..]) by {
        forall i, rest | 0 <= i < |cs[1..]|
          ensures read(cs[1..][i].bytes + rest) == Some(cs[1..][i])
        {
          assert cs[1..][i] == cs[i + 1];
        }
      }
      ReadEncodedColumns(cs[1..], tail, read);
      assert [c] + cs[1..] == cs;
    }
  }

  lemma DeserializeSteps(buf: seq<byte>, rest0: seq<byte>, rest1: seq<byte>, rest2: seq<byte>,
                         s: Schema, n: nat, read: ColumnReader)
    requires TakeU32(buf) == Success((SCHEMA_MAGIC_NUM, rest0))
    requires TakeU32(rest0) == Success((|s.columns|, rest1))
    requires ReadColumns(rest1, |s.columns|, read) == Success((s.columns, rest2))
    requires n == |buf| - |rest2|
    ensures Deserialize(buf, read) == Success((s, n))
  {
  }

  /** DeserializeFrom(SerializeTo(s)) is `s` and takes exactly
      GetSerializedSize bytes, provided every column reads back. */
  lemma DeserializeSerialize(s: Schema, tail: seq<byte>, read: ColumnReader)
    requires Valid(s) && ReadsBack(read, s.columns)
    ensures Deserialize(Serialize(s) + tail, read) == Success((s, SerializedSize(s)))
  {
    var m := EncodeU32(SCHEMA_MAGIC_NUM);
    var k := EncodeU32(|s.columns|);
    var cs := EncodeColumns(s.columns);
    var buf := Serialize(s) + tail;
    assert buf == m + (k + (cs + tail)) by {
      Reassociate(m, k, cs, tail);
    }
    TakeEncodedU32(SCHEMA_MAGIC_NUM, k + (cs + tail));
    TakeEncodedU32(|s.columns|, cs + tail);
    ReadEncodedColumns(s.columns, tail, read);
    DeserializeSteps(buf, k + (cs + tail), cs + tail, tail, s, SerializedSize(s), read);
  }
}
