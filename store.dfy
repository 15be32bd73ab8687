/** The record store of package `log`: an append-only, position-addressed
    byte log over one file, with a write buffer in front of the file.
    Each operation is one atomic step (the store's mutex serialises them). */
module Log {
  import opened Framing
  import opened Io

  /** How the buffered writer's write to the file ends when it is flushed:
      every buffered byte is written, or the file write fails after `written`
      bytes have reached the file. */
  datatype FlushOutcome = Flushed | FlushFails(written: nat)

  /** Which write into the buffered writer fails during an append, if any. */
  datatype WriteFault = NoFault | HeaderFault | PayloadFault

  /** How many of the buffered bytes `buffered` reach the file when flushed.
      `bufio.Writer.Flush` issues no write at all when nothing is buffered. */
  function FlushedPart(buffered: seq<byte>, outcome: FlushOutcome): (k: nat)
    ensures k <= |buffered|
    ensures outcome == Flushed ==> k == |buffered|
  {
    match outcome
    case Flushed => |buffered|
    case FlushFails(written) => Min(written, |buffered|)
  }

  /** The error that flushing `buffered` reports: a flush that reports no
      error has moved every buffered byte to the file. */
  function FlushError(buffered: seq<byte>, outcome: FlushOutcome): (err: Option<IoError>)
    ensures err == None ==> FlushedPart(buffered, outcome) == |buffered|
    ensures err == None <==> buffered == [] || outcome == Flushed
    ensures err != None ==> err == Some(FlushFailed)
  {
    if buffered == [] || outcome == Flushed then None else Some(FlushFailed)
  }

  /** The record that `store.Read` decodes at `pos` of the flushed file:
      the payload whose length the 8-byte header at `pos` gives, read from
      just after the header; either range running past the end of the file
      is a short read. */
  function ReadRecord(file: seq<byte>, pos: nat): (r: Result<seq<byte>>)
    ensures r.Failure? ==> r.error == EndOfFile
    ensures r.Failure? <==>
      (pos + LenWidth > |file| || pos + LenWidth + DecodeU64BE(file[pos..pos + LenWidth]) > |file|)
    ensures r.Success? ==>
      |r.value| == DecodeU64BE(file[pos..pos + LenWidth]) &&
      pos + LenWidth + |r.value| <= |file| &&
      file[pos..pos + LenWidth] == EncodeU64BE(|r.value|) &&
      r.value == file[pos + LenWidth..pos + LenWidth + |r.value|]
  {
    if pos + LenWidth > |file| then Failure(EndOfFile)
    else
      var len := DecodeU64BE(file[pos..pos + LenWidth]);
      U64Inverse(file[pos..pos + LenWidth]);
      assert file[pos..pos + LenWidth][..LenWidth] == file[pos..pos + LenWidth];
      if pos + LenWidth + len > |file| then Failure(EndOfFile)
      else Success(file[pos + LenWidth..pos + LenWidth + len])
  }

  /** `store.Read` returns `rec` at `pos` when the file holds the header
      of `rec` at `pos`, followed by `rec`. */
  lemma ReadRecordAt(file: seq<byte>, pos: nat, rec: seq<byte>)
    requires |rec| < TwoTo64
    requires pos + LenWidth + |rec| <= |file|
    requires file[pos..pos + LenWidth] == EncodeU64BE(|rec|)
    requires file[pos + LenWidth..pos + LenWidth + |rec|] == rec
    ensures ReadRecord(file, pos) == Success(rec)
  {
  }

  /** Where the i-th record lies in a stream of framed records: its 8-byte
      header at its position encodes the payload's length and the payload
      follows the header, inside the stream. */
  lemma RecordBytes(stream: seq<byte>, pos: nat, prefix: seq<byte>, recs: seq<seq<byte>>, i: nat)
    requires Encodable(recs) && i < |recs|
    requires stream == prefix + Frames(recs) && pos == Positions(|prefix|, recs)[i]
    ensures pos + LenWidth + |recs[i]| <= |stream|
    ensures stream[pos..pos + LenWidth] == EncodeU64BE(|recs[i]|)
    ensures stream[pos + LenWidth..pos + LenWidth + |recs[i]|] == recs[i]
  {
    var front, back := prefix + Frames(recs[..i]), Frames(recs[i + 1..]);
    FramesSplit(recs, i);
    Regroup(prefix, Frames(recs[..i]), Frame(recs[i]), back);
    PositionAt(|prefix|, recs, i);
    FrameInside(stream, front, recs[i], back);
  }

  /** A frame placed between `front` and `back` decodes in place. */
  lemma FrameInside(stream: seq<byte>, front: seq<byte>, rec: seq<byte>, back: seq<byte>)
    requires |rec| < TwoTo64
    requires stream == front + Frame(rec) + back
    ensures |front| + LenWidth + |rec| <= |stream|
    ensures stream[|front|..|front| + LenWidth] == EncodeU64BE(|rec|)
    ensures stream[|front| + LenWidth..|front| + LenWidth + |rec|] == rec
  {
    var frame := Frame(rec);
    var pos := |front|;
    SliceMiddle(front, frame, back);
    FrameHeader(rec);
    assert stream[pos..pos + LenWidth] == frame[..LenWidth];
    assert stream[pos + LenWidth..pos + LenWidth + |rec|] == frame[LenWidth..];
  }

  /** Reading a framed record in two positional reads, as a caller of
      `store.ReadAt` does: first its 8 header bytes, then as many bytes as
      the header says, right after it. */
  lemma HeaderThenPayload(stream: seq<byte>, pos: nat, prefix: seq<byte>, recs: seq<seq<byte>>, i: nat)
    requires Encodable(recs) && i < |recs|
    requires stream == prefix + Frames(recs) && pos == Positions(|prefix|, recs)[i]
    ensures PositionalRead(stream, LenWidth, pos) == Chunk(EncodeU64BE(|recs[i]|), None)
    ensures DecodeU64BE(PositionalRead(stream, LenWidth, pos).data) == |recs[i]|
    ensures PositionalRead(stream, |recs[i]|, pos + LenWidth) == Chunk(recs[i], None)
  {
    RecordBytes(stream, pos, prefix, recs, i);
    PositionalReadInside(stream, LenWidth, pos);
    PositionalReadInside(stream, |recs[i]|, pos + LenWidth);
  }

  /** Round trip: reading a stream of framed records at the position of the
      i-th record yields exactly the i-th payload. */
  lemma ReadFramed(prefix: seq<byte>, recs: seq<seq<byte>>, i: nat)
    requires Encodable(recs) && i < |recs|
    ensures ReadRecord(prefix + Frames(recs), Positions(|prefix|, recs)[i]) == Success(recs[i])
  {
    RecordBytes(prefix + Frames(recs), Positions(|prefix|, recs)[i], prefix, recs, i);
    ReadRecordAt(prefix + Frames(recs), Positions(|prefix|, recs)[i], recs[i]);
  }

  /** Appending to the file never changes a record that can already be read. */
  lemma ReadRecordStable(file: seq<byte>, more: seq<byte>, pos: nat)
    requires ReadRecord(file, pos).Success?
    ensures ReadRecord(file + more, pos) == ReadRecord(file, pos)
  {
    var len := DecodeU64BE(file[pos..pos + LenWidth]);
    assert (file + more)[pos..pos + LenWidth] == file[pos..pos + LenWidth];
    assert (file + more)[pos + LenWidth..pos + LenWidth + len] == file[pos + LenWidth..pos + LenWidth + len];
  }

  /** Writing `frame` into the buffer and then moving the first `k` pending
      bytes to the file extends file ++ buffer by exactly `frame`. */
  lemma SpillKeepsStream(file: seq<byte>, buffered: seq<byte>, frame: seq<byte>, k: nat)
    requires k <= |buffered| + |frame|
    ensures var pending := buffered + frame;
      (file + pending[..k]) + pending[k..] == (file + buffered) + frame
  {
    var pending := buffered + frame;
    assert pending[..k] + pending[k..] == pending;
  }

  /** Appending a record's frame to a stream of framed records gives the
      stream of the records with that one added. */
  lemma AppendKeepsFraming(origin: seq<byte>, recs: seq<seq<byte>>, stream: seq<byte>, p: seq<byte>)
    requires stream == origin + Frames(recs)
    ensures stream + Frame(p) == origin + Frames(recs + [p])
  {
    FramesSnoc(|origin|, recs, p);
  }

  /** The buffered writer taking `frame` in: the first `k` pending bytes go
      to the file and the rest stay buffered, so file ++ buffer grows by
      exactly the frame. */
  method Spill(file: seq<byte>, buffered: seq<byte>, frame: seq<byte>, k: nat) returns (file': seq<byte>, buf': seq<byte>)
    requires k <= |buffered| + |frame|
    ensures file' == file + (buffered + frame)[..k]
    ensures file' + buf' == (file + buffered) + frame
  {
    var pending := buffered + frame;
    SpillKeepsStream(file, buffered, frame, k);
    file', buf' := file + pending[..k], pending[k..];
  }

  /** One append keeps the store invariant: when file ++ buffer grows by a
      record's frame, it becomes the stream of the records with `p` added,
      its length grows by the frame's, and `p` gets the old end of the
      stream as its position. */
  lemma AppendKeepsValid(origin: seq<byte>, recs: seq<seq<byte>>, file: seq<byte>, buf: seq<byte>,
                         p: seq<byte>, file': seq<byte>, buf': seq<byte>)
    requires Encodable(recs) && |p| <= MaxPayload
    requires file + buf == origin + Frames(recs)
    requires file' + buf' == (file + buf) + Frame(p)
    ensures Encodable(recs + [p])
    ensures file' + buf' == origin + Frames(recs + [p])
    ensures |file'| + |buf'| == |file| + |buf| + LenWidth + |p|
    ensures Positions(|origin|, recs + [p]) == Positions(|origin|, recs) + [|file| + |buf|]
  {
    AppendKeepsFraming(origin, recs, file + buf, p);
    FramesSnoc(|origin|, recs, p);
    EncodableSnoc(recs, p);
  }

  /** A store over one backing file. */
  class Store {
    /** Bytes the backing file holds. */
    var file: seq<byte>
    /** Bytes the buffered writer holds, not yet written to the file. */
    var buf: seq<byte>
    /** Logical end of the stream: the offset of the next record's header. */
    var size: nat
    /** Whether the file handle has been released. */
    var closed: bool

    /** The file's contents when the store was opened over it. */
    ghost var origin: seq<byte>
    /** Payloads appended through this store, in order. */
    ghost var records: seq<seq<byte>>
    /** The position `Append` returned for each of them. */
    ghost var positions: seq<nat>

    /** The store invariant: `size` counts file and buffer, the logical
        stream is the original file followed by the appended frames, and
        every record sits at the offset just past the frames before it. */
    ghost predicate Valid()
      reads this
      ensures Valid() ==> |positions| == |records| && size >= |origin| + 8 * |records|
    {
      Encodable(records) &&
      size == |file| + |buf| &&
      file + buf == origin + Frames(records) &&
      positions == Positions(|origin|, records)
    }

    /** The logical stream: the file followed by what is still buffered. */
    function Stream(): (r: seq<byte>)
      reads this
      requires Valid()
      ensures |r| == size
      ensures r == origin + Frames(records)
    {
      file + buf
    }

    /** The store value `newStore` builds: `size` taken from the file's length,
        an empty buffer in front of the file. */
    constructor (f: seq<byte>)
      ensures Valid()
      ensures file == f && buf == [] && size == |f| && !closed
      ensures origin == f && records == [] && positions == []
    {
      file, buf, size, closed := f, [], |f|, false;
      origin, records, positions := f, [], [];
    }

    /** `store.Append`: frames `p` into the buffer and returns the number of
        bytes written and the position of the record's header. `fault` says
        which buffered write fails, if any; `spill` is how many pending bytes
        the buffered writer pushes to the file on its own. */
    method Append(p: seq<byte>, fault: WriteFault, spill: nat) returns (n: nat, pos: nat, err: Option<IoError>)
      requires Valid()
      requires |p| <= MaxPayload
      modifies this
      ensures Valid()
      ensures origin == old(origin) && closed == old(closed)
      ensures fault != NoFault ==> n == 0 && pos == 0 && err == Some(WriteFailed) && unchanged(this)
      ensures fault == NoFault ==>
        err == None && pos == old(size) && n == LenWidth + |p| && size == old(size) + n &&
        records == old(records) + [p] && positions == old(positions) + [pos] &&
        Stream() == old(Stream()) + Frame(p) &&
        file == old(file) + (old(buf) + Frame(p))[..Min(spill, |old(buf)| + n)]
    {
      pos := size;
      if fault == HeaderFault {
        return 0, 0, Some(WriteFailed);
      }
      var header := EncodeU64BE(|p|);
      if fault == PayloadFault {
        return 0, 0, Some(WriteFailed);
      }
      n := WriteFrame(header, p, spill);
      err := None;
    }

    /** The rest of `store.Append` once both writes into the buffered writer
        succeed: the header and the payload join the buffer, the first `spill`
        pending bytes move to the file, and `size` grows by the frame. */
    method WriteFrame(header: seq<byte>, p: seq<byte>, spill: nat) returns (n: nat)
      requires Valid()
      requires |p| <= MaxPayload && header == EncodeU64BE(|p|)
      modifies this
      ensures Valid()
      ensures origin == old(origin) && closed == old(closed)
      ensures n == LenWidth + |p| && size == old(size) + n
      ensures records == old(records) + [p] && positions == old(positions) + [old(size)]
      ensures Stream() == old(Stream()) + Frame(p)
      ensures file == old(file) + (old(buf) + Frame(p))[..Min(spill, |old(buf)| + n)]
    {
      FrameHeader(p);
      var f, b := Spill(file, buf, header + p, Min(spill, |buf| + |header + p|));
      AppendKeepsValid(origin, records, file, buf, p, f, b);
      var w := |p|;
      w := w + LenWidth;
      file, buf, size, records, positions := f, b, size + w, records + [p], positions + [size];
      n := w;
    }

    /** `bufio.Writer.Flush` on the store's buffer: moves the buffered bytes
        into the file, all of them unless the file write fails part-way. */
    method Flush(outcome: FlushOutcome) returns (err: Option<IoError>)
      requires Valid()
      modifies this
      ensures Valid()
      ensures size == old(size) && origin == old(origin) && closed == old(closed)
      ensures records == old(records) && positions == old(positions)
      ensures Stream() == old(Stream())
      ensures file == old(file) + old(buf)[..FlushedPart(old(buf), outcome)]
      ensures err == FlushError(old(buf), outcome)
      ensures err == None ==> buf == [] && file == old(Stream())
    {
      var k := FlushedPart(buf, outcome);
      err := FlushError(buf, outcome);
      file, buf := file + buf[..k], buf[k..];
    }

    /** `store.Read`: flushes, then reads the length header at `pos` and the
        payload after it. At the position of any record appended through this
        store it returns that record's payload. */
    method Read(pos: nat, outcome: FlushOutcome) returns (r: Result<seq<byte>>)
      requires Valid()
      modifies this
      ensures Valid()
      ensures size == old(size) && origin == old(origin) && closed == old(closed)
      ensures records == old(records) && positions == old(positions)
      ensures Stream() == old(Stream())
      ensures file == old(file) + old(buf)[..FlushedPart(old(buf), outcome)]
      ensures FlushError(old(buf), outcome) != None ==> r == Failure(FlushFailed)
      ensures FlushError(old(buf), outcome) == None ==>
        buf == [] && file == old(Stream()) && r == ReadRecord(file, pos)
      ensures FlushError(old(buf), outcome) == None ==>
        forall i :: 0 <= i < |records| && positions[i] == pos ==> r == Success(records[i])
    {
      var e := Flush(outcome);
      if e != None {
        return Failure(e.value);
      }
      forall i | 0 <= i < |records| && positions[i] == pos
        ensures ReadRecord(file, pos) == Success(records[i])
      {
        ReadFramed(origin, records, i);
      }
      var header := PositionalRead(file, LenWidth, pos);
      if header.err != None {
        return Failure(header.err.value);
      }
      var body := PositionalRead(file, DecodeU64BE(header.data), pos + LenWidth);
      if body.err != None {
        return Failure(body.err.value);
      }
      r := Success(body.data);
    }

    /** `store.ReadAt`: flushes, then fills `p` from the file at offset `off`
        as `File.ReadAt` does, without interpreting the framing. */
    method ReadAt(p: array<byte>, off: int, outcome: FlushOutcome) returns (n: nat, err: Option<IoError>)
      requires Valid()
      modifies this, p
      ensures Valid()
      ensures size == old(size) && origin == old(origin) && closed == old(closed)
      ensures records == old(records) && positions == old(positions)
      ensures Stream() == old(Stream())
      ensures file == old(file) + old(buf)[..FlushedPart(old(buf), outcome)]
      ensures FlushError(old(buf), outcome) != None ==>
        n == 0 && err == Some(FlushFailed) && p[..] == old(p[..])
      ensures FlushError(old(buf), outcome) == None ==>
        buf == [] && file == old(Stream()) &&
        var c := PositionalRead(file, p.Length, off);
        n == |c.data| && err == c.err && p[..n] == c.data && p[n..] == old(p[n..])
    {
      var e := Flush(outcome);
      if e != None {
        return 0, e;
      }
      var c := PositionalRead(file, p.Length, off);
      forall i | 0 <= i < |c.data| {
        p[i] := c.data[i];
      }
      n, err := |c.data|, c.err;
    }

    /** `store.Close`: flushes the buffer, then releases the file. A failed
        flush returns before the release; a release that reports an error
        still gives up the handle. */
    method Close(outcome: FlushOutcome, closeFails: bool) returns (err: Option<IoError>)
      requires Valid()
      modifies this
      ensures Valid()
      ensures size == old(size) && origin == old(origin)
      ensures records == old(records) && positions == old(positions)
      ensures Stream() == old(Stream())
      ensures file == old(file) + old(buf)[..FlushedPart(old(buf), outcome)]
      ensures FlushError(old(buf), outcome) != None ==>
        err == Some(FlushFailed) && closed == old(closed)
      ensures FlushError(old(buf), outcome) == None ==>
        buf == [] && file == old(Stream()) && |file| == old(|file| + |buf|) &&
        closed && err == (if closeFails then Some(CloseFailed) else None)
    {
      err := Flush(outcome);
      if err != None {
        return;
      }
      closed := true;
      if closeFails {
        err := Some(CloseFailed);
      }
    }
  }

  /** `newStore`: opens a store over a file holding `f`, taking `size` from
      the file's length, or fails when the file cannot be stat'ed. */
  method NewStore(f: seq<byte>, statFails: bool) returns (s: Store?, err: Option<IoError>)
    ensures statFails ==> s == null && err == Some(StatFailed)
    ensures !statFails ==>
      err == None && s != null && fresh(s) && s.Valid() &&
      s.file == f && s.buf == [] && s.size == |f| && !s.closed &&
      s.origin == f && s.records == []
  {
    if statFails {
      return null, Some(StatFailed);
    }
    s := new Store(f);
    err := None;
  }
}
