/** Codec: what the catalog and record deserialisers share. A reader takes
    its field from the front of the remaining buffer and hands back the rest,
    so the bytes a deserialiser consumes are the difference in length. The
    source reads through a raw pointer; a read past the end of the bytes
    given is `Truncated` here. */
module Codec {
  import opened Wrappers
  import opened Bytes

  datatype DecodeError =
    | NullBuffer      // the buffer pointer is NULL
    | BadMagic        // the leading magic number does not match
    | Truncated       // a field lies past the end of the bytes given
    | Unreadable      // a column or field payload its own parser rejects
    | Overrun         // a read past the end of an array the reader allocated

  function TakeU32(buf: seq<byte>): (r: Result<(int, seq<byte>), DecodeError>)
    ensures r.Success? <==> |buf| >= 4
    ensures r.Success? ==> r.value == (ReadU32(buf, 0), buf[4..])
  {
    if |buf| < 4 then Failure(Truncated) else Success((ReadU32(buf, 0), buf[4..]))
  }

  function TakeI32(buf: seq<byte>): (r: Result<(int, seq<byte>), DecodeError>)
    ensures r.Success? <==> |buf| >= 4
    ensures r.Success? ==> r.value == (ReadI32(buf, 0), buf[4..])
  {
    if |buf| < 4 then Failure(Truncated) else Success((ReadI32(buf, 0), buf[4..]))
  }

  function TakeBytes(buf: seq<byte>, n: nat): (r: Result<(seq<byte>, seq<byte>), DecodeError>)
    ensures r.Success? <==> n <= |buf|
    ensures r.Success? ==> r.value.0 + r.value.1 == buf && |r.value.0| == n
  {
    if |buf| < n then Failure(Truncated) else Success((buf[..n], buf[n..]))
  }

  /** A u32 written in front of any bytes is read back, and the bytes after
      it are what remains. */
  lemma TakeEncodedU32(x: int, rest: seq<byte>)
    requires IsU32(x)
    ensures TakeU32(EncodeU32(x) + rest) == Success((x, rest))
  {
    ReadEncodedU32(x, rest);
    assert (EncodeU32(x) + rest)[4..] == rest;
  }

  lemma TakeEncodedI32(x: int, rest: seq<byte>)
    requires IsI32(x)
    ensures TakeI32(EncodeI32(x) + rest) == Success((x, rest))
  {
    ReadEncodedI32(x, rest);
    assert (EncodeI32(x) + rest)[4..] == rest;
  }

  lemma TakeWrittenBytes(bs: seq<byte>, rest: seq<byte>)
    ensures TakeBytes(bs + rest, |bs|) == Success((bs, rest))
  {
    assert (bs + rest)[..|bs|] == bs;
    assert (bs + rest)[|bs|..] == rest;
  }

  /** The regrouping every round-trip proof needs to peel fields off the
      front of a buffer. */
  lemma Reassociate(a: seq<byte>, b: seq<byte>, c: seq<byte>, d: seq<byte>)
    ensures a + b + c + d == a + (b + (c + d))
  {
  }

  /** One step of the same regrouping, for layouts written right-nested. */
  lemma Assoc(a: seq<byte>, b: seq<byte>, c: seq<byte>)
    ensures (a + b) + c == a + (b + c)
  {
  }

  // ---------------------------------------------------------------------------
  // The iteration order of a std::map

  function Min(s: set<int>): (k: int)
    requires s != {}
    ensures k in s && forall j :: j in s ==> k <= j
  {
    MinExists(s);
    var k :| k in s && forall j :: j in s ==> k <= j;
    k
  }

  lemma {:induction false} MinExists(s: set<int>)
    requires s != {}
    ensures exists k :: k in s && forall j :: j in s ==> k <= j
    decreases |s|
  {
    assert exists y :: y in s by {
      if forall y :: y !in s {
        assert false;
      }
    }
    var x :| x in s;
    var rest := s - {x};
    if rest == {} {
      forall j | j in s
        ensures x <= j
      {
        assert j !in rest;
      }
    } else {
      MinExists(rest);
      var m :| m in rest && forall j :: j in rest ==> m <= j;
      var k := if x < m then x else m;
      forall j | j in s
        ensures k <= j
      {
        if j != x {
          assert j in rest;
        }
      }
      assert k in s;
    }
  }

  /** The keys of a set in ascending order, as a std::map visits them. */
  function Ascending(s: set<int>): (ks: seq<int>)
    ensures |ks| == |s|
    ensures forall k :: k in ks <==> k in s
    ensures forall i, j :: 0 <= i < j < |ks| ==> ks[i] < ks[j]
    decreases |s|
  {
    if s == {} then []
    else
      var k := Min(s);
      var rest := Ascending(s - {k});
      assert forall j :: j in rest ==> k < j;
      [k] + rest
  }
}
