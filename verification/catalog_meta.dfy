/** CatalogMetaCodec: the catalog's root record, two maps from table and
    index ids to the pages that hold their metadata. Layout: magic, table
    count, (u32 id, i32 page) per table in ascending id order, index count,
    then the index pairs. */
module CatalogMetaCodec {
  import opened Wrappers
  import opened Bytes
  import opened Codec

  /** The magic number DeserializeFrom checks. The writer's constant is not
      part of this model; it is taken to be the same number. */
  const CATALOG_METADATA_MAGIC_NUM: int := 89849

  datatype CatalogMeta = CatalogMeta(tableMetaPages: map<int, int>, indexMetaPages: map<int, int>)

  /** Ids are u32, pages are i32, and each count fits its u32 field. */
  predicate ValidPages(m: map<int, int>) {
    |m| < U32_LIMIT && forall id :: id in m ==> IsU32(id) && IsI32(m[id])
  }

  predicate Valid(c: CatalogMeta) {
    ValidPages(c.tableMetaPages) && ValidPages(c.indexMetaPages)
  }

  /** GetSerializedSize. */
  function SerializedSize(c: CatalogMeta): nat {
    12 + |c.tableMetaPages| * 8 + |c.indexMetaPages| * 8
  }

  /** The (id, page) pairs for `ids`, in that order. */
  function EncodePairs(m: map<int, int>, ids: seq<int>): (bs: seq<byte>)
    requires ValidPages(m) && forall id :: id in ids ==> id in m
    ensures |bs| == 8 * |ids|
  {
    if ids == [] then []
    else EncodeU32(ids[0]) + EncodeI32(m[ids[0]]) + EncodePairs(m, ids[1..])
  }

  function EncodeMap(m: map<int, int>): (bs: seq<byte>)
    requires ValidPages(m)
    ensures |bs| == 4 + 8 * |m|
  {
    EncodeU32(|m|) + EncodePairs(m, Ascending(m.Keys))
  }

  /** SerializeTo. */
  function Serialize(c: CatalogMeta): (bs: seq<byte>)
    requires Valid(c)
    ensures |bs| == SerializedSize(c)
  {
    EncodeU32(CATALOG_METADATA_MAGIC_NUM) + EncodeMap(c.tableMetaPages) + EncodeMap(c.indexMetaPages)
  }

  /** The read loop: `n` pairs, each stored into the map under its id, a
      later pair overwriting an earlier one with the same id. */
  function ReadPairs(buf: seq<byte>, n: nat, acc: map<int, int>): (r: Result<(map<int, int>, seq<byte>), DecodeError>)
    ensures r.Success? ==> |r.value.1| == |buf| - 8 * n
    ensures r.Success? ==> acc.Keys <= r.value.0.Keys
    ensures r.Failure? ==> r.error == Truncated
    decreases n
  {
    if n == 0 then Success((acc, buf))
    else
      var (id, rest1) :- TakeU32(buf);
      var (page, rest2) :- TakeI32(rest1);
      ReadPairs(rest2, n - 1, acc[id := page])
  }

  function ReadMap(buf: seq<byte>): (r: Result<(map<int, int>, seq<byte>), DecodeError>)
    ensures r.Failure? ==> r.error == Truncated
  {
    var (n, rest) :- TakeU32(buf);
    ReadPairs(rest, n, map[])
  }

  /** DeserializeFrom: the catalog and the number of bytes it took. A NULL
      buffer and a wrong magic number are refused. */
  function Deserialize(buf: Option<seq<byte>>): (r: Result<(CatalogMeta, nat), DecodeError>)
    ensures buf.None? ==> r == Failure(NullBuffer)
    ensures buf.Some? && |buf.value| >= 4 && ReadU32(buf.value, 0) != CATALOG_METADATA_MAGIC_NUM ==> r == Failure(BadMagic)
    ensures r.Success? ==> buf.Some? && r.value.1 <= |buf.value|
  {
    if buf.None? then Failure(NullBuffer)
    else
      var (magic, rest0) :- TakeU32(buf.value);
      if magic != CATALOG_METADATA_MAGIC_NUM then Failure(BadMagic)
      else
        var (tables, rest1) :- ReadMap(rest0);
        var (indexes, rest2) :- ReadMap(rest1);
        Success((CatalogMeta(tables, indexes), |buf.value| - |rest2|))
  }

  // ---------------------------------------------------------------------------
  // Round trip

  /** `acc` with the pair of each of `ids` stored in turn. */
  function Stored(acc: map<int, int>, m: map<int, int>, ids: seq<int>): map<int, int>
    decreases |ids|
  {
    if ids == [] then acc
    else if ids[0] in m then Stored(acc[ids[0] := m[ids[0]]], m, ids[1..])
    else Stored(acc, m, ids[1..])
  }

  /** Storing the pairs of `ids` gives every id of `ids` its page in `m` and
      leaves the other entries of `acc` as they were. */
  lemma {:induction false} StoredHolds(acc: map<int, int>, m: map<int, int>, ids: seq<int>)
    requires forall id :: id in ids ==> id in m
    ensures forall k :: k in Stored(acc, m, ids) <==> k in acc || k in ids
    ensures forall k :: k in ids ==> Stored(acc, m, ids)[k] == m[k]
    ensures forall k :: k in acc && k !in ids ==> Stored(acc, m, ids)[k] == acc[k]
    decreases |ids|
  {
    if ids != [] {
      assert forall k :: k in ids <==> k == ids[0] || k in ids[1..] by {
        assert ids == [ids[0]] + ids[1..];
      }
      var acc' := acc[ids[0] := m[ids[0]]];
      StoredHolds(acc', m, ids[1..]);
    }
  }

  /** Reading the pairs written for `ids` stores exactly those pairs. */
  lemma {:induction false} ReadEncodedPairs(m: map<int, int>, ids: seq<int>, tail: seq<byte>, acc: map<int, int>)
    requires ValidPages(m) && forall id :: id in ids ==> id in m
    ensures ReadPairs(EncodePairs(m, ids) + tail, |ids|, acc) == Success((Stored(acc, m, ids), tail))
    decreases |ids|
  {
    if ids == [] {
      assert EncodePairs(m, ids) + tail == tail;
    } else {
      var id := ids[0];
      var rest := EncodePairs(m, ids[1..]) + tail;
      assert EncodePairs(m, ids) + tail == EncodeU32(id) + (EncodeI32(m[id]) + rest);
      var buf := EncodePairs(m, ids) + tail;
      TakeEncodedU32(id, EncodeI32(m[id]) + rest);
      TakeEncodedI32(m[id], rest);
      assert ReadPairs(buf, |ids|, acc) == ReadPairs(rest, |ids| - 1, acc[id := m[id]]);
      ReadEncodedPairs(m, ids[1..], tail, acc[id := m[id]]);
    }
  }

  /** The pairs for every id of `m`, stored into nothing, are `m`. */
  lemma StoredAll(m: map<int, int>, ids: seq<int>)
    requires forall id :: id in ids <==> id in m
    ensures Stored(map[], m, ids) == m
  {
    StoredHolds(map[], m, ids);
    var r := Stored(map[], m, ids);
    assert forall k :: k in r <==> k in m;
    assert forall k :: k in r ==> r[k] == m[k];
  }

  /** Reading back all of a map's pairs, in ascending id order, gives the map. */
  lemma ReadAllPairs(m: map<int, int>, tail: seq<byte>)
    requires ValidPages(m)
    ensures ReadPairs(EncodePairs(m, Ascending(m.Keys)) + tail, |m|, map[]) == Success((m, tail))
  {
    var ids := Ascending(m.Keys);
    ReadEncodedPairs(m, ids, tail, map[]);
    StoredAll(m, ids);
  }

  lemma ReadEncodedMap(m: map<int, int>, tail: seq<byte>)
    requires ValidPages(m)
    ensures ReadMap(EncodeMap(m) + tail) == Success((m, tail))
  {
    var pairs := EncodePairs(m, Ascending(m.Keys));
    Assoc(EncodeU32(|m|), pairs, tail);
    TakeEncodedU32(|m|, pairs + tail);
    ReadAllPairs(m, tail);
    ReadMapSteps(EncodeMap(m) + tail, pairs + tail, m, tail);
  }

  /** ReadMap in terms of its two reads. */
  lemma ReadMapSteps(buf: seq<byte>, rest: seq<byte>, m: map<int, int>, tail: seq<byte>)
    requires TakeU32(buf) == Success((|m|, rest))
    requires ReadPairs(rest, |m|, map[]) == Success((m, tail))
    ensures ReadMap(buf) == Success((m, tail))
  {
  }

  /** Deserialize in terms of its three reads. */
  lemma DeserializeSteps(buf: seq<byte>, rest0: seq<byte>, rest1: seq<byte>, rest2: seq<byte>, c: CatalogMeta, n: nat)
    requires TakeU32(buf) == Success((CATALOG_METADATA_MAGIC_NUM, rest0))
    requires ReadMap(rest0) == Success((c.tableMetaPages, rest1))
    requires ReadMap(rest1) == Success((c.indexMetaPages, rest2))
    requires n == |buf| - |rest2|
    ensures Deserialize(Some(buf)) == Success((c, n))
  {
  }

  /** DeserializeFrom(SerializeTo(c)) is `c`, negative page ids included, and
      takes exactly GetSerializedSize bytes, whatever follows them. */
  lemma DeserializeSerialize(c: CatalogMeta, tail: seq<byte>)
    requires Valid(c)
    ensures Deserialize(Some(Serialize(c) + tail)) == Success((c, SerializedSize(c)))
  {
    var t := EncodeMap(c.tableMetaPages);
    var i := EncodeMap(c.indexMetaPages);
    var m := EncodeU32(CATALOG_METADATA_MAGIC_NUM);
    var buf := Serialize(c) + tail;
    assert Serialize(c) == m + t + i;
    assert buf == m + (t + (i + tail)) by {
      Reassociate(m, t, i, tail);
    }
    TakeEncodedU32(CATALOG_METADATA_MAGIC_NUM, t + (i + tail));
    ReadEncodedMap(c.tableMetaPages, i + tail);
    ReadEncodedMap(c.indexMetaPages, tail);
    DeserializeSteps(buf, t + (i + tail), i + tail, tail, c, SerializedSize(c));
  }
}
