/** TableMetadata: the record the catalog keeps per table. Layout: magic,
    table id (u32), name length (u32), the name's bytes, root page id (i32),
    then the table's schema. */
module TableMetaCodec {
  import opened Wrappers
  import opened Bytes
  import opened Codec
  import S = SchemaCodec

  /** The magic number DeserializeFrom checks; the writer's constant is
      taken to be the same number. */
  const TABLE_METADATA_MAGIC_NUM: int := 344528

  datatype TableMetadata = TableMetadata(tableId: int, tableName: seq<byte>, rootPageId: int, schema: S.Schema)

  predicate Valid(m: TableMetadata) {
    IsU32(m.tableId) && |m.tableName| < U32_LIMIT && IsI32(m.rootPageId) && S.Valid(m.schema)
  }

  /** GetSerializedSize: four 4-byte fields, the name and the schema. */
  function SerializedSize(m: TableMetadata): nat {
    16 + |m.tableName| + S.SerializedSize(m.schema)
  }

  /** SerializeTo. */
  function Serialize(m: TableMetadata): (bs: seq<byte>)
    requires Valid(m)
    ensures |bs| == SerializedSize(m)
  {
    EncodeU32(TABLE_METADATA_MAGIC_NUM) + (EncodeU32(m.tableId) + (EncodeU32(|m.tableName|) +
      (m.tableName + (EncodeI32(m.rootPageId) + S.Serialize(m.schema)))))
  }

  // ---------------------------------------------------------------------------
  // The root page id's passage through table_id_t

  /** An int32_t converted to uint32_t: the value modulo 2^32. */
  function AsU32(x: int): (r: int)
    requires IsI32(x)
    ensures IsU32(r) && (r - x) % U32_LIMIT == 0
  {
    if x < 0 then x + U32_LIMIT else x
  }

  /** A uint32_t converted to int32_t (page_id_t): the value modulo 2^32 in
      the signed range. */
  function AsI32(x: int): (r: int)
    requires IsU32(x)
    ensures IsI32(r) && (x - r) % U32_LIMIT == 0
  {
    if x >= I32_LIMIT then x - U32_LIMIT else x
  }

  /** DeserializeFrom reads the root page id as an int32_t, keeps it in a
      table_id_t (uint32_t) and hands that to the page_id_t constructor
      parameter. The two conversions cancel, so every page id survives. */
  lemma RootSurvivesConversions(x: int)
    requires IsI32(x)
    ensures AsI32(AsU32(x)) == x
  {
  }

  /** DeserializeFrom: the metadata and the bytes it took. A NULL buffer and
      a wrong magic number are refused; the schema is read by the schema's
      deserialiser with `read` for its columns. */
  function Deserialize(buf: Option<seq<byte>>, read: S.ColumnReader): (r: Result<(TableMetadata, nat), DecodeError>)
    ensures buf.None? ==> r == Failure(NullBuffer)
    ensures buf.Some? && |buf.value| >= 4 && ReadU32(buf.value, 0) != TABLE_METADATA_MAGIC_NUM ==> r == Failure(BadMagic)
    ensures r.Success? ==> buf.Some? && r.value.1 == SerializedSize(r.value.0) <= |buf.value|
  {
    if buf.None? then Failure(NullBuffer)
    else
      var (magic, rest0) :- TakeU32(buf.value);
      if magic != TABLE_METADATA_MAGIC_NUM then Failure(BadMagic)
      else
        var (tableId, rest1) :- TakeU32(rest0);
        var (len, rest2) :- TakeU32(rest1);
        var (name, rest3) :- TakeBytes(rest2, len);
        var (root, rest4) :- TakeI32(rest3);
        var (schema, used) :- S.Deserialize(rest4, read);
        Success((TableMetadata(tableId, name, AsI32(AsU32(root)), schema), |buf.value| - |rest4| + used))
  }

  // ---------------------------------------------------------------------------
  // Round trip

  /** Deserialize in terms of its reads. */
  lemma DeserializeSteps(buf: seq<byte>, rest0: seq<byte>, rest1: seq<byte>, rest2: seq<byte>,
                         rest3: seq<byte>, rest4: seq<byte>, m: TableMetadata, read: S.ColumnReader)
    requires IsI32(m.rootPageId)
    requires TakeU32(buf) == Success((TABLE_METADATA_MAGIC_NUM, rest0))
    requires TakeU32(rest0) == Success((m.tableId, rest1))
    requires TakeU32(rest1) == Success((|m.tableName|, rest2))
    requires TakeBytes(rest2, |m.tableName|) == Success((m.tableName, rest3))
    requires TakeI32(rest3) == Success((m.rootPageId, rest4))
    requires S.Deserialize(rest4, read) == Success((m.schema, S.SerializedSize(m.schema)))
    ensures Deserialize(Some(buf), read) == Success((m, |buf| - |rest4| + S.SerializedSize(m.schema)))
  {
    RootSurvivesConversions(m.rootPageId);
  }

  /** DeserializeFrom(SerializeTo(m)) recovers the table id, name, root page
      id and schema, and takes exactly GetSerializedSize bytes, provided the
      schema's columns read back. */
  lemma DeserializeSerialize(m: TableMetadata, tail: seq<byte>, read: S.ColumnReader)
    requires Valid(m) && S.ReadsBack(read, m.schema.columns)
    ensures Deserialize(Some(Serialize(m) + tail), read) == Success((m, SerializedSize(m)))
  {
    var a := EncodeU32(TABLE_METADATA_MAGIC_NUM);
    var b := EncodeU32(m.tableId);
    var c := EncodeU32(|m.tableName|);
    var d := m.tableName;
    var e := EncodeI32(m.rootPageId);
    var f := S.Serialize(m.schema);
    Assoc(a, b + (c + (d + (e + f))), tail);
    Assoc(b, c + (d + (e + f)), tail);
    Assoc(c, d + (e + f), tail);
    Assoc(d, e + f, tail);
    Assoc(e, f, tail);
    TakeEncodedU32(TABLE_METADATA_MAGIC_NUM, b + (c + (d + (e + (f + tail)))));
    TakeEncodedU32(m.tableId, c + (d + (e + (f + tail))));
    TakeEncodedU32(|m.tableName|, d + (e + (f + tail)));
    TakeWrittenBytes(d, e + (f + tail));
    TakeEncodedI32(m.rootPageId, f + tail);
    S.DeserializeSerialize(m.schema, tail, read);
    DeserializeSteps(Serialize(m) + tail, b + (c + (d + (e + (f + tail)))), c + (d + (e + (f + tail))),
                     d + (e + (f + tail)), e + (f + tail), f + tail, m, read);
  }
}
