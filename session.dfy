/** Sessions against the record store, following the store's own tests:
    append, read back, read back in two positional reads, reopen, close. */
module Session {
  import opened Framing
  import opened Io
  import opened Log

  /** The payload the tests append: the 11 bytes of "hello world". */
  const HelloWorld: seq<byte> := [104, 101, 108, 108, 111, 32, 119, 111, 114, 108, 100]

  /** One record of it occupies 8 + 11 bytes. */
  const Width: nat := LenWidth + |HelloWorld|

  /** The records of the append-read test, as a stream. */
  const Three: seq<seq<byte>> := [HelloWorld, HelloWorld, HelloWorld]

  /** Where the three records lie: at 0, 19 and 38, ending at 57. */
  lemma ThreeLayout()
    ensures Encodable(Three)
    ensures Positions(0, Three) == [0, 19, 38]
    ensures |Frames(Three)| == 57
  {
    var one, two := [HelloWorld], [HelloWorld, HelloWorld];
    assert one == [] + [HelloWorld] && two == one + [HelloWorld] && Three == two + [HelloWorld];
    FramesSnoc(0, [], HelloWorld);
    FramesSnoc(0, one, HelloWorld);
    FramesSnoc(0, two, HelloWorld);
  }

  /** testAppend: three appends of "hello world" to an empty store, with no
      spill from the buffer; each returns a position `pos` and a count `n`
      with pos + n == Width * i. */
  method TestAppend(s: Store) returns (positions: seq<nat>, ends: seq<nat>)
    requires s.Valid() && s.Stream() == []
    modifies s
    ensures s.Valid() && s.origin == [] && s.records == Three
    ensures s.positions == positions == [0, 19, 38]
    ensures ends == [Width, 2 * Width, 3 * Width]
  {
    assert s.origin == [];
    var n1, p1, _ := s.Append(HelloWorld, NoFault, 0);
    var n2, p2, _ := s.Append(HelloWorld, NoFault, 0);
    var n3, p3, _ := s.Append(HelloWorld, NoFault, 0);
    positions, ends := [p1, p2, p3], [p1 + n1, p2 + n2, p3 + n3];
  }

  /** testRead: a read at 0, 19 and 38 of a store whose stream holds the
      three records returns "hello world" each time. */
  method TestRead(s: Store) returns (got: seq<Result<seq<byte>>>)
    requires s.Valid() && s.Stream() == Frames(Three)
    modifies s
    ensures s.Valid() && s.buf == [] && s.file == Frames(Three)
    ensures got == [Success(HelloWorld), Success(HelloWorld), Success(HelloWorld)]
  {
    ThreeLayout();
    assert [] + Frames(Three) == Frames(Three);
    ReadFramed([], Three, 0);
    ReadFramed([], Three, 1);
    ReadFramed([], Three, 2);
    var r1 := s.Read(0, Flushed);
    var r2 := s.Read(19, Flushed);
    var r3 := s.Read(38, Flushed);
    got := [r1, r2, r3];
  }

  /** testAppendRead: append three records, read them back, read them back
      in two positional reads each, then open a new store over the same file
      and read them back once more. */
  method AppendReadSession()
    returns (positions: seq<nat>, ends: seq<nat>, got: seq<Result<seq<byte>>>,
             headers: seq<nat>, payloads: seq<seq<byte>>, reopened: nat, regot: seq<Result<seq<byte>>>)
    ensures positions == [0, 19, 38]
    ensures ends == [Width, 2 * Width, 3 * Width]
    ensures got == [Success(HelloWorld), Success(HelloWorld), Success(HelloWorld)]
    ensures headers == [11, 11, 11]
    ensures payloads == [HelloWorld, HelloWorld, HelloWorld]
    ensures reopened == 57
    ensures regot == got
  {
    var s, _ := NewStore([], false);
    positions, ends := TestAppend(s);
    got := TestRead(s);

    ThreeLayout();
    var h1, b1 := ReadHeaderThenPayload(s, Three, 0, 0);
    var h2, b2 := ReadHeaderThenPayload(s, Three, 1, 19);
    var h3, b3 := ReadHeaderThenPayload(s, Three, 2, 38);
    headers, payloads := [h1, h2, h3], [b1, b2, b3];

    var t, _ := NewStore(s.file, false);
    reopened := t.size;
    regot := TestRead(t);
  }

  /** What a caller of `store.ReadAt` does to read the record at `off`: read
      the 8 header bytes, decode the length, then read that many bytes right
      after the header. Records still buffered are flushed by the first read. */
  method ReadHeaderThenPayload(s: Store, ghost recs: seq<seq<byte>>, ghost i: nat, off: nat)
    returns (len: nat, payload: seq<byte>)
    requires s.Valid() && s.Stream() == Frames(recs)
    requires Encodable(recs) && i < |recs| && Positions(0, recs)[i] == off
    modifies s
    ensures s.Valid() && s.buf == [] && s.file == old(s.Stream())
    ensures len == |recs[i]| && payload == recs[i]
  {
    len := ReadHeader(s, recs, i, off);
    payload := ReadPayload(s, recs, i, off, len);
  }

  /** The first of the two reads: 8 bytes at the record's position, decoded
      as the payload's length. */
  method ReadHeader(s: Store, ghost recs: seq<seq<byte>>, ghost i: nat, off: nat) returns (len: nat)
    requires s.Valid() && s.Stream() == Frames(recs)
    requires Encodable(recs) && i < |recs| && Positions(0, recs)[i] == off
    modifies s
    ensures s.Valid() && s.buf == [] && s.file == old(s.Stream())
    ensures len == |recs[i]|
  {
    var h := new byte[LenWidth];
    var n, _ := s.ReadAt(h, off, Flushed);
    assert PositionalRead(s.file, LenWidth, off) == Chunk(EncodeU64BE(|recs[i]|), None) by {
      assert s.file == [] + Frames(recs);
      HeaderThenPayload(s.file, off, [], recs, i);
    }
    assert h[..] == h[..n] == EncodeU64BE(|recs[i]|);
    len := DecodeU64BE(h[..]);
  }

  /** The second of the two reads: `len` bytes right after the header of the
      record at `off`, on a store whose stream is already in the file. */
  method ReadPayload(s: Store, ghost recs: seq<seq<byte>>, ghost i: nat, off: nat, len: nat)
    returns (payload: seq<byte>)
    requires s.Valid() && s.buf == [] && s.file == Frames(recs)
    requires Encodable(recs) && i < |recs| && Positions(0, recs)[i] == off && len == |recs[i]|
    modifies s
    ensures s.Valid() && s.buf == [] && s.file == old(s.file)
    ensures payload == recs[i]
  {
    var b := new byte[len];
    var m, _ := s.ReadAt(b, off + LenWidth, Flushed);
    assert PositionalRead(s.file, len, off + LenWidth) == Chunk(recs[i], None) by {
      assert s.file == [] + Frames(recs);
      HeaderThenPayload(s.file, off, [], recs, i);
    }
    assert b[..] == b[..m] == recs[i];
    payload := b[..];
  }

  /** One append of "hello world", then `store.Close`: the buffered record
      reaches the file, which grows from 0 to 19 bytes. */
  method CloseSession() returns (before: nat, after: nat, err: Option<IoError>)
    ensures before == 0 && after == Width && after > before
    ensures err == None
  {
    var s, _ := NewStore([], false);
    var _, _, _ := s.Append(HelloWorld, NoFault, 0);
    before := |s.file|;
    err := s.Close(Flushed, false);
    after := |s.file|;
  }

  /** Restart recovery: closing a store and opening a new one over the same
      file gives a store whose size is the old logical size and which reads
      every record appended before at the position it was appended at. */
  method Restart(s: Store) returns (t: Store?, err: Option<IoError>)
    requires s.Valid()
    modifies s
    ensures err == None && t != null && fresh(t) && t.Valid()
    ensures t.size == old(s.size) && t.file == old(s.Stream())
    ensures forall i :: 0 <= i < |old(s.records)| ==>
      ReadRecord(t.file, old(s.positions)[i]) == Success(old(s.records)[i])
  {
    err := s.Close(Flushed, false);
    t, err := NewStore(s.file, false);
    forall i | 0 <= i < |s.records|
      ensures ReadRecord(t.file, s.positions[i]) == Success(s.records[i])
    {
      ReadFramed(s.origin, s.records, i);
    }
  }
}
