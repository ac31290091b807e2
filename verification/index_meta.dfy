/** IndexMetadata: the record the catalog keeps per index. The writer's
    layout is: magic, index id, name length, the name's bytes, the index id
    a second time, table id, key count, then each key column as a u32. The
    reader as written does not skip the second index id and reads each key
    as one signed byte. Both readers are modelled: DeserializeAsWritten is
    the source's reader, and Deserialize is the corrected one, which matches
    the writer. */
module IndexMetaCodec {
  import opened Wrappers
  import opened Bytes
  import opened Codec

  /** The magic number DeserializeFrom checks; the writer's constant is
      taken to be the same number. */
  const INDEX_METADATA_MAGIC_NUM: int := 344528

  datatype IndexMetadata = IndexMetadata(indexId: int, indexName: seq<byte>, tableId: int, keyMap: seq<int>)

  predicate Valid(m: IndexMetadata) {
    && IsU32(m.indexId) && |m.indexName| < U32_LIMIT && IsU32(m.tableId)
    && |m.keyMap| < U32_LIMIT && forall i :: 0 <= i < |m.keyMap| ==> IsU32(m.keyMap[i])
  }

  /** GetSerializedSize: six 4-byte fields, the name and a u32 per key. */
  function SerializedSize(m: IndexMetadata): nat {
    24 + |m.indexName| + 4 * |m.keyMap|
  }

  function EncodeKeys(ks: seq<int>): (bs: seq<byte>)
    requires forall i :: 0 <= i < |ks| ==> IsU32(ks[i])
    ensures |bs| == 4 * |ks|
  {
    if ks == [] then [] else EncodeU32(ks[0]) + EncodeKeys(ks[1..])
  }

  /** SerializeTo, the index id written twice. */
  function Serialize(m: IndexMetadata): (bs: seq<byte>)
    requires Valid(m)
    ensures |bs| == SerializedSize(m)
  {
    EncodeU32(INDEX_METADATA_MAGIC_NUM) + (EncodeU32(m.indexId) + (EncodeU32(|m.indexName|) +
      (m.indexName + (EncodeU32(m.indexId) + (EncodeU32(m.tableId) + (EncodeU32(|m.keyMap|) +
      EncodeKeys(m.keyMap)))))))
  }

  /** The part both readers share: the magic check, the index id and the
      name, and the bytes after the name. */
  function ReadHead(buf: seq<byte>): (r: Result<(int, seq<byte>, seq<byte>), DecodeError>)
    ensures |buf| >= 4 && ReadU32(buf, 0) != INDEX_METADATA_MAGIC_NUM ==> r == Failure(BadMagic)
    ensures r.Success? ==> |buf| == 12 + |r.value.1| + |r.value.2|
  {
    var (magic, rest0) :- TakeU32(buf);
    if magic != INDEX_METADATA_MAGIC_NUM then Failure(BadMagic)
    else
      var (indexId, rest1) :- TakeU32(rest0);
      var (len, rest2) :- TakeU32(rest1);
      var (name, rest3) :- TakeBytes(rest2, len);
      Success((indexId, name, rest3))
  }

  // ---------------------------------------------------------------------------
  // The reader as written

  /** `key_map.push_back(buf[ofs])`: one `char`, signed, widened to
      uint32_t, so a byte of 128 or more becomes 2^32 minus its distance
      below 256. */
  function KeyAsWritten(b: byte): (k: int)
    ensures IsU32(k)
    ensures b < 128 ==> k == b
    ensures b >= 128 ==> k == U32_LIMIT - (256 - b)
  {
    if b >= 128 then b - 256 + U32_LIMIT else b
  }

  /** The key loop as written: one byte read, four stepped over. A key slot
      must lie inside the buffer. */
  function ReadKeysAsWritten(buf: seq<byte>, n: nat): (r: Result<(seq<int>, seq<byte>), DecodeError>)
    ensures r.Success? <==> 4 * n <= |buf|
    ensures r.Success? ==> |r.value.0| == n && |r.value.1| == |buf| - 4 * n
    ensures r.Success? ==> forall i :: 0 <= i < n ==> r.value.0[i] == KeyAsWritten(buf[4 * i])
    decreases n
  {
    if n == 0 then Success(([], buf))
    else if |buf| < 4 then Failure(Truncated)
    else
      var (keys, rest) :- ReadKeysAsWritten(buf[4..], n - 1);
      assert forall i :: 0 < i < n ==> buf[4 * i] == buf[4..][4 * (i - 1)];
      Success(([KeyAsWritten(buf[0])] + keys, rest))
  }

  /** DeserializeFrom as written: after the name it reads the table id from
      the second index id and the key count from the table id, so the bytes
      it reports are 4 fewer than GetSerializedSize of what it returns. */
  function DeserializeAsWritten(buf: Option<seq<byte>>): (r: Result<(IndexMetadata, nat), DecodeError>)
    ensures buf.None? ==> r == Failure(NullBuffer)
    ensures buf.Some? && |buf.value| >= 4 && ReadU32(buf.value, 0) != INDEX_METADATA_MAGIC_NUM ==> r == Failure(BadMagic)
    ensures r.Success? ==> buf.Some? && r.value.1 + 4 == SerializedSize(r.value.0) && r.value.1 <= |buf.value|
  {
    if buf.None? then Failure(NullBuffer)
    else
      var (indexId, name, rest3) :- ReadHead(buf.value);
      var (tableId, rest4) :- TakeU32(rest3);
      var (n, rest5) :- TakeU32(rest4);
      var (keys, rest6) :- ReadKeysAsWritten(rest5, n);
      Success((IndexMetadata(indexId, name, tableId, keys), |buf.value| - |rest6|))
  }

  // ---------------------------------------------------------------------------
  // The reader that matches the writer

  function ReadKeys(buf: seq<byte>, n: nat): (r: Result<(seq<int>, seq<byte>), DecodeError>)
    ensures r.Success? <==> 4 * n <= |buf|
    ensures r.Success? ==> |r.value.0| == n && |r.value.1| == |buf| - 4 * n
    ensures r.Success? ==> forall i :: 0 <= i < n ==> IsU32(r.value.0[i])
    decreases n
  {
    if n == 0 then Success(([], buf))
    else
      var (key, rest) :- TakeU32(buf);
      var (keys, after) :- ReadKeys(rest, n - 1);
      Success(([key] + keys, after))
  }

  /** DeserializeFrom with the second index id stepped over and every key
      read as a u32: what it returns is valid and takes exactly its own
      GetSerializedSize. */
  function Deserialize(buf: Option<seq<byte>>): (r: Result<(IndexMetadata, nat), DecodeError>)
    ensures buf.None? ==> r == Failure(NullBuffer)
    ensures buf.Some? && |buf.value| >= 4 && ReadU32(buf.value, 0) != INDEX_METADATA_MAGIC_NUM ==> r == Failure(BadMagic)
    ensures r.Success? ==> buf.Some? && r.value.1 == SerializedSize(r.value.0) <= |buf.value|
  {
    if buf.None? then Failure(NullBuffer)
    else
      var (indexId, name, rest3) :- ReadHead(buf.value);
      var (_, rest4) :- TakeU32(rest3);
      var (tableId, rest5) :- TakeU32(rest4);
      var (n, rest6) :- TakeU32(rest5);
      var (keys, rest7) :- ReadKeys(rest6, n);
      Success((IndexMetadata(indexId, name, tableId, keys), |buf.value| - |rest7|))
  }

  // ---------------------------------------------------------------------------
  // Round trip

  lemma ReadEncodedHead(id: int, name: seq<byte>, after: seq<byte>)
    requires IsU32(id) && |name| < U32_LIMIT
    ensures ReadHead(EncodeU32(INDEX_METADATA_MAGIC_NUM) + (EncodeU32(id) + (EncodeU32(|name|) + (name + after))))
         == Success((id, name, after))
  {
    TakeEncodedU32(INDEX_METADATA_MAGIC_NUM, EncodeU32(id) + (EncodeU32(|name|) + (name + after)));
    TakeEncodedU32(id, EncodeU32(|name|) + (name + after));
    TakeEncodedU32(|name|, name + after);
    TakeWrittenBytes(name, after);
  }

  lemma {:induction false} ReadEncodedKeys(ks: seq<int>, tail: seq<byte>)
    requires forall i :: 0 <= i < |ks| ==> IsU32(ks[i])
    ensures ReadKeys(EncodeKeys(ks) + tail, |ks|) == Success((ks, tail))
    decreases |ks|
  {
    if ks == [] {
      assert EncodeKeys(ks) + tail == tail;
    } else {
      var rest := EncodeKeys(ks[1..]) + tail;
      assert EncodeKeys(ks) + tail == EncodeU32(ks[0]) + rest;
      TakeEncodedU32(ks[0], rest);
      ReadEncodedKeys(ks[1..], tail);
      assert [ks[0]] + ks[1..] == ks;
    }
  }

  /** Deserialize in terms of its reads. */
  lemma DeserializeSteps(buf: seq<byte>, rest3: seq<byte>, rest4: seq<byte>, rest5: seq<byte>,
                         rest6: seq<byte>, rest7: seq<byte>, m: IndexMetadata)
    requires ReadHead(buf) == Success((m.indexId, m.indexName, rest3))
    requires TakeU32(rest3) == Success((m.indexId, rest4))
    requires TakeU32(rest4) == Success((m.tableId, rest5))
    requires TakeU32(rest5) == Success((|m.keyMap|, rest6))
    requires ReadKeys(rest6, |m.keyMap|) == Success((m.keyMap, rest7))
    ensures Deserialize(Some(buf)) == Success((m, |buf| - |rest7|))
  {
  }

  /** Deserializing what SerializeTo wrote, whatever follows it, gives back
      the metadata and takes exactly GetSerializedSize bytes. */
  lemma DeserializeSerialize(m: IndexMetadata, tail: seq<byte>)
    requires Valid(m)
    ensures Deserialize(Some(Serialize(m) + tail)) == Success((m, SerializedSize(m)))
  {
    var a := EncodeU32(INDEX_METADATA_MAGIC_NUM);
    var b := EncodeU32(m.indexId);
    var c := EncodeU32(|m.indexName|);
    var d := m.indexName;
    var e := EncodeU32(m.indexId);
    var f := EncodeU32(m.tableId);
    var g := EncodeU32(|m.keyMap|);
    var h := EncodeKeys(m.keyMap);
    Assoc(a, b + (c + (d + (e + (f + (g + h))))), tail);
    Assoc(b, c + (d + (e + (f + (g + h)))), tail);
    Assoc(c, d + (e + (f + (g + h))), tail);
    Assoc(d, e + (f + (g + h)), tail);
    Assoc(e, f + (g + h), tail);
    Assoc(f, g + h, tail);
    Assoc(g, h, tail);
    var after := e + (f + (g + (h + tail)));
    ReadEncodedHead(m.indexId, m.indexName, after);
    TakeEncodedU32(m.indexId, f + (g + (h + tail)));
    TakeEncodedU32(m.tableId, g + (h + tail));
    TakeEncodedU32(|m.keyMap|, h + tail);
    ReadEncodedKeys(m.keyMap, tail);
    DeserializeSteps(Serialize(m) + tail, after, f + (g + (h + tail)), g + (h + tail), h + tail, tail, m);
  }

  // ---------------------------------------------------------------------------
  // What the reader as written makes of SerializeTo's bytes

  /** What DeserializeAsWritten returns once the name, the second index id
      and the table id are behind it: the key loop runs `m.tableId` times
      over `rest`, and `total` is the length of the whole buffer. */
  function MisreadFrom(m: IndexMetadata, rest: seq<byte>, total: nat): (r: Result<(IndexMetadata, nat), DecodeError>)
    requires IsU32(m.tableId) && |rest| <= total
    ensures r.Success? ==> r.value.0.tableId == m.indexId && |r.value.0.keyMap| == m.tableId
  {
    var read := ReadKeysAsWritten(rest, m.tableId);
    if read.Failure? then Failure(read.error)
    else Success((IndexMetadata(m.indexId, m.indexName, m.indexId, read.value.0), total - |read.value.1|))
  }

  /** DeserializeAsWritten in terms of its reads. */
  lemma AsWrittenSteps(buf: seq<byte>, rest3: seq<byte>, rest4: seq<byte>, rest5: seq<byte>,
                       m: IndexMetadata)
    requires ReadHead(buf) == Success((m.indexId, m.indexName, rest3))
    requires TakeU32(rest3) == Success((m.indexId, rest4))
    requires TakeU32(rest4) == Success((m.tableId, rest5))
    ensures |rest5| <= |buf| && DeserializeAsWritten(Some(buf)) == MisreadFrom(m, rest5, |buf|)
  {
  }

  /** On SerializeTo's bytes the reader as written keeps the index id and the
      name, but returns the index id as the table id and runs its key loop as
      many times as the table id says. */
  lemma AsWrittenMisreadsTableAndKeys(m: IndexMetadata, tail: seq<byte>)
    requires Valid(m)
    ensures var r := DeserializeAsWritten(Some(Serialize(m) + tail));
      r.Success? ==> (r.value.0.indexId == m.indexId && r.value.0.indexName == m.indexName
        && r.value.0.tableId == m.indexId && |r.value.0.keyMap| == m.tableId)
    ensures var rest := EncodeU32(|m.keyMap|) + EncodeKeys(m.keyMap) + tail;
      |rest| <= |Serialize(m) + tail| && DeserializeAsWritten(Some(Serialize(m) + tail)) == MisreadFrom(m, rest, |Serialize(m) + tail|)
  {
    var a := EncodeU32(INDEX_METADATA_MAGIC_NUM);
    var b := EncodeU32(m.indexId);
    var c := EncodeU32(|m.indexName|);
    var d := m.indexName;
    var e := EncodeU32(m.indexId);
    var f := EncodeU32(m.tableId);
    var gh := EncodeU32(|m.keyMap|) + EncodeKeys(m.keyMap);
    Assoc(a, b + (c + (d + (e + (f + gh)))), tail);
    Assoc(b, c + (d + (e + (f + gh))), tail);
    Assoc(c, d + (e + (f + gh)), tail);
    Assoc(d, e + (f + gh), tail);
    Assoc(e, f + gh, tail);
    Assoc(f, gh, tail);
    var after := e + (f + (gh + tail));
    ReadEncodedHead(m.indexId, m.indexName, after);
    TakeEncodedU32(m.indexId, f + (gh + tail));
    TakeEncodedU32(m.tableId, gh + tail);
    AsWrittenSteps(Serialize(m) + tail, after, f + (gh + tail), gh + tail, m);
  }

  /** The key bytes of the example below: count 2, then keys 1 and 2. */
  lemma ExampleKeyBytes()
    ensures EncodeU32(2) + EncodeKeys([1, 2]) + [] == [2, 0, 0, 0, 1, 0, 0, 0, 2, 0, 0, 0]
  {
    EncodeSmallU32(1);
    EncodeSmallU32(2);
    assert EncodeKeys([1, 2]) == EncodeU32(1) + EncodeU32(2) by {
      assert [1, 2][1..] == [2];
    }
  }

  lemma ExampleKeyLoop(rest: seq<byte>)
    requires rest == [2, 0, 0, 0, 1, 0, 0, 0, 2, 0, 0, 0]
    ensures ReadKeysAsWritten(rest, 3) == Success(([2, 1, 2], []))
  {
    var r := ReadKeysAsWritten(rest, 3);
    assert r.Success? && r.value.0[0] == 2 && r.value.0[1] == 1 && r.value.0[2] == 2;
    assert r.value.0 == [2, 1, 2] && r.value.1 == [];
  }

  /** Index 7 named "i" on table 3 with key columns [1, 2]: from the 33
      bytes written, the reader as written gets table 7 and keys [2, 1, 2]. */
  lemma AsWrittenCounterexample()
    ensures var m := IndexMetadata(7, [105], 3, [1, 2]);
      Valid(m) && DeserializeAsWritten(Some(Serialize(m))) == Success((IndexMetadata(7, [105], 7, [2, 1, 2]), 33))
  {
    var m := IndexMetadata(7, [105], 3, [1, 2]);
    AsWrittenMisreadsTableAndKeys(m, []);
    assert Serialize(m) + [] == Serialize(m);
    ExampleKeyBytes();
    ExampleKeyLoop(EncodeU32(2) + EncodeKeys([1, 2]) + []);
  }

  /** Even at the right offset, a key read as one signed byte loses every
      key of 256 or more and turns 128..255 into values near 2^32. */
  lemma AsWrittenKeyIsLowSignedByte()
    ensures ReadKeysAsWritten(EncodeU32(256), 1) == Success(([0], []))
    ensures ReadKeysAsWritten(EncodeU32(200), 1) == Success(([U32_LIMIT - 56], []))
    ensures ReadKeys(EncodeU32(256), 1) == Success(([256], []))
    ensures ReadKeys(EncodeU32(200), 1) == Success(([200], []))
  {
    assert EncodeU32(256) == [0, 1, 0, 0];
    EncodeSmallU32(200);
    var r1 := ReadKeysAsWritten(EncodeU32(256), 1);
    assert r1.Success? && r1.value.0[0] == 0;
    assert r1.value.0 == [0] && r1.value.1 == [];
    var r2 := ReadKeysAsWritten(EncodeU32(200), 1);
    assert r2.Success? && r2.value.0[0] == U32_LIMIT - 56;
    assert r2.value.0 == [U32_LIMIT - 56] && r2.value.1 == [];
    assert EncodeKeys([256]) + [] == EncodeU32(256);
    assert EncodeKeys([200]) + [] == EncodeU32(200);
    ReadEncodedKeys([256], []);
    ReadEncodedKeys([200], []);
  }
}
