/** The I/O vocabulary the record store is written against: the error kinds
    it returns and the positional read of the backing file (`os.File.ReadAt`),
    which is the one primitive whose outcome depends only on the file's bytes. */
module Io {
  import opened Framing

  /** Why an operation of the store failed. */
  datatype IoError =
    | StatFailed      // os.Stat of the backing file
    | WriteFailed     // a write into the buffered writer
    | FlushFailed     // pushing buffered bytes to the file
    | CloseFailed     // releasing the file handle
    | NegativeOffset  // File.ReadAt at an offset below zero
    | EndOfFile       // File.ReadAt ran out of file before filling the buffer

  datatype Option<+T> = None | Some(value: T)

  datatype Result<+T> = Success(value: T) | Failure(error: IoError)

  /** What one positional read delivers: the bytes copied into the caller's
      buffer (their number is the `n` returned) and the error, if any. */
  datatype Chunk = Chunk(data: seq<byte>, err: Option<IoError>)

  function Min(a: nat, b: nat): nat
  {
    if a <= b then a else b
  }

  /** The bytes of `file` from `off` on, or none when `off` lies past its end. */
  function Tail(file: seq<byte>, off: nat): seq<byte>
  {
    if off <= |file| then file[off..] else []
  }

  /** `File.ReadAt(b, off)` with `len(b) == count` on a file holding `file`:
      it reads as many bytes as it can, up to `count`, and reports an error
      exactly when it delivers fewer than `count`. */
  function PositionalRead(file: seq<byte>, count: nat, off: int): (r: Chunk)
    ensures off < 0 ==> r == Chunk([], Some(NegativeOffset))
    ensures off >= 0 ==> |r.data| == Min(count, |Tail(file, off)|)
    ensures off >= 0 ==> r.data == Tail(file, off)[..|r.data|]
    ensures off >= 0 ==> (r.err == None <==> |r.data| == count)
    ensures off >= 0 && r.err != None ==> r.err == Some(EndOfFile)
  {
    if off < 0 then Chunk([], Some(NegativeOffset))
    else if count == 0 then Chunk([], None)
    else if off + count <= |file| then Chunk(file[off..off + count], None)
    else Chunk(Tail(file, off), Some(EndOfFile))
  }

  /** A read that fits inside the file delivers exactly the bytes at that range. */
  lemma PositionalReadInside(file: seq<byte>, count: nat, off: nat)
    requires off + count <= |file|
    ensures PositionalRead(file, count, off) == Chunk(file[off..off + count], None)
  {
    assert Tail(file, off)[..count] == file[off..off + count];
  }
}
