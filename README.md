# Record store of proglog, modelled in Dafny

This project models the record store of the `log` package
(`internal/log/store.go`). The store is an append-only byte log over one
file, addressed by position. Every record is framed as an 8-byte unsigned
big-endian length header followed by the payload bytes. Appends go into a
write buffer in front of the file. `size` counts buffered bytes too, so it
is always the offset where the next record's header will start. `Read`,
`ReadAt` and `Close` flush the buffer into the file before they read or
release it. A store opened over an existing file takes `size` from the
file's length, which is how the log picks up where it left off after a
restart.

Files and modules:

- `framing.dfy`, module `Framing`: bytes, the uint64 big-endian codec, the
  frame of one record, the stream of framed records (`Frames`) and the
  offsets at which the records begin (`Positions`), with their lemmas.
- `io.dfy`, module `Io`: the error kinds, `Option`/`Result`, and the
  positional read `os.File.ReadAt` as a function of the file's bytes.
- `store.dfy`, module `Log`: the `Store` class (fields `file`, `buf`,
  `size`, `closed`; ghost `origin`, `records`, `positions`), its methods,
  `NewStore`, the decoding read `ReadRecord` and the round-trip lemmas.
- `session.dfy`, module `Session`: the scenarios of `store_test.go` as
  methods with contracts, and a restart that closes and reopens a store.

The store's invariant `Valid()` says four things. Every appended record
fits the uint64 header. `size == |file| + |buf|`. The logical stream `file + buf` equals the file's original contents
followed by the frames of every record appended since. Each record's
position is the offset just past the frames before it.

I/O outcomes are parameters, not real I/O:

- `Append` takes a `WriteFault` (no fault, header write fails, payload
  write fails), and a `spill` count. `spill` is how many pending bytes the
  buffered writer pushes to the file by itself when its buffer fills.
- `Flush`, `Read`, `ReadAt` and `Close` take a `FlushOutcome`. Either every
  buffered byte is written, or the file write fails after some bytes. An
  empty buffer is never written and so never fails in this model. The error
  `bufio.Writer` keeps from an earlier failure is left out (see "## Left out").
- `Close` takes whether releasing the file handle fails.
- `NewStore` takes whether `os.Stat` fails.

`Append` requires the payload to be at most 2^63 - 1 bytes long. This is
the largest length a Go slice can have on a 64-bit platform. So
`uint64(len(p))` is always the exact length.

## Model

| member | source | states |
|---|---|---|
| `Framing.EncodeU64BE` | internal/log/store.go:56 | the header `binary.Write` emits for a uint64 is 8 bytes long and decodes back to the value |
| `Framing.DecodeU64BE` | internal/log/store.go:89 | `enc.Uint64` reads the first 8 bytes of a buffer, and gives a value below 2^64 |
| `Framing.DecodeBE` | internal/log/store.go:11 | a big-endian byte string of length k decodes to a value below 256^k |
| `Framing.EncodeBE` | internal/log/store.go:56 | `binary.Write` with the big-endian byte order writes exactly `width` bytes, the low-order base-256 digits of the value, most significant first |
| `Framing.DecodeEncode` | internal/log/store.go:11-16 | decoding a k-byte big-endian encoding gives back every value below 256^k |
| `Framing.EncodeDecode` | internal/log/store.go:11-16 | every byte string is the big-endian encoding of its decoded value, so the codec is a bijection |
| `Framing.U64Inverse` | internal/log/store.go:84-89 | any 8 header bytes are the encoding of the length read from them |
| `Framing.Frame` | internal/log/store.go:56-62 | a record's frame is 8 + len(p) bytes long and ends with the payload |
| `Framing.FrameHeader` | internal/log/store.go:56-62 | the frame starts with the uint64 big-endian length, which decodes to len(p) |
| `Framing.Frames` | internal/log/store.go:49-70 | the on-disk stream of the records appended in order is at least one 8-byte header per record long |
| `Framing.FramesAppend` | internal/log/store.go:49-70 | framing two runs of records one after the other gives the concatenation of their streams |
| `Framing.FramesSplit` | internal/log/store.go:49-70 | the stream is the frames before record i, then record i's frame, then the frames after it |
| `Framing.FramesSnoc` | internal/log/store.go:55-67 | one more append adds its frame to the stream and its start offset (the old end) to the positions |
| `Framing.Positions` | internal/log/store.go:55-67 | the offsets `Append` returns, one per record, starting at the base and advancing by each frame |
| `Framing.PositionAt` | internal/log/store.go:55-67 | record i begins just past the frames of records 0..i-1 |
| `Framing.PositionsFirst` | internal/log/store.go:55 | the first record appended to a stream starting at `base` gets position `base` |
| `Framing.PositionsStep` | internal/log/store.go:55-67 | each next record begins 8 + len(previous payload) bytes after the previous one |
| `Framing.PositionsDisjoint` | internal/log/store.go:55-67 | an earlier record's frame ends at or before every later record's position, so no two records overlap |
| `Io.PositionalRead` | internal/log/store.go:106 | `File.ReadAt` fails at a negative offset; otherwise it delivers the longest run of file bytes from the offset, up to the buffer's length, and reports an error exactly when that is short |
| `Io.PositionalReadInside` | internal/log/store.go:85-90 | a read that lies inside the file delivers exactly that range, without error |
| `Log.FlushedPart` | internal/log/store.go:79 | a flush moves at most the buffered bytes to the file, and all of them when the write succeeds |
| `Log.FlushError` | internal/log/store.go:79-81 | a flush that reports no error has moved every buffered byte to the file; the error, the flush failure, occurs exactly when a non-empty buffer's write fails |
| `Log.ReadRecord` | internal/log/store.go:84-94 | the read at pos fails with end-of-file exactly when the header or the payload it announces runs past the file; on success the header at pos encodes the payload's length and the payload is the bytes right after it |
| `Log.RecordBytes` | internal/log/store.go:56-62 | at record i's position the stream holds its encoded length, and then its payload |
| `Log.FrameInside` | internal/log/store.go:56-62 | a frame placed anywhere in a stream decodes in place |
| `Log.HeaderThenPayload` | internal/log/store_test.go:114-141 | reading 8 bytes at a record's position gives its header, which decodes to len(p); then reading that many bytes at pos + 8 gives p |
| `Log.ReadFramed` | internal/log/store.go:73-95 | round trip: decoding a stream of framed records at the i-th position yields exactly the i-th payload |
| `Log.ReadRecordStable` | internal/log/store.go:73-95 | bytes added to the file later never change a record that can already be read |
| `Log.SpillKeepsStream` | internal/log/store.go:56-62 | whatever prefix of the pending bytes the buffered writer pushes to the file by itself, file ++ buffer grows by exactly the frame |
| `Log.Spill` | internal/log/store.go:56-62 | the buffered writer moves the first k pending bytes to the file and keeps the rest, so file ++ buffer grows by exactly the frame |
| `Log.AppendKeepsFraming` | internal/log/store.go:56-67 | adding a record's frame to a framed stream gives the framed stream of the records plus that one |
| `Log.AppendKeepsValid` | internal/log/store.go:55-67 | once file ++ buffer grows by a record's frame it is the stream of the records plus p, 8 + len(p) bytes longer, and p's position is the old end of the stream |
| `Log.Store.Valid` | internal/log/store.go:20-25 | the invariant ties `size` to file ++ buffer, the stream to the original file plus the appended frames, and each record to its position; so there is one position per record and `size` is at least the original length plus 8 bytes per record |
| `Log.Store.Stream` | internal/log/store.go:20-25 | file followed by buffer is the logical stream: its length is `size`, and it is the original file then the appended frames |
| `Log.Store.constructor` | internal/log/store.go:39-43 | a new store has the file's length as `size` and an empty buffer, and satisfies the invariant |
| `Log.NewStore` | internal/log/store.go:28-44 | a failed `os.Stat` gives no store and the error; otherwise a store over the file with `size` equal to the file's length |
| `Log.Store.Append` | internal/log/store.go:49-70 | on success: `pos` is the old `size`, `n == 8 + len(p)`, `size` rises by n, the stream grows by exactly the frame, and the file keeps its old bytes as a prefix; on a failed write: `(0, 0, err)` and nothing changes |
| `Log.Store.WriteFrame` | internal/log/store.go:56-69 | after both buffered writes succeed: n == 8 + len(p), `size` rises by n, the record joins at the old `size`, the stream grows by exactly the frame and the file gains the spilled prefix |
| `Log.Store.Flush` | internal/log/store.go:79-81 | the file gains the flushed prefix of the buffer, file ++ buffer and `size` are unchanged, and an empty buffer is the result of every successful flush |
| `Log.Store.Read` | internal/log/store.go:73-95 | flushes first; a failed flush returns its error; otherwise the file is the old file ++ buffer and the result is the decoded record at pos, which is the payload appended at pos when pos is a returned position |
| `Log.Store.ReadAt` | internal/log/store.go:98-107 | flushes first; a failed flush returns `(0, err)` and leaves p alone; otherwise fills p as `File.ReadAt` does on the flushed file, with `size` unchanged |
| `Log.Store.Close` | internal/log/store.go:110-119 | a failed flush returns its error and keeps the file open; otherwise every buffered byte reaches the file (it grows by the buffered amount) and the file is released |
| `Session.ThreeLayout` | internal/log/store_test.go:57-70 | three "hello world" records begin at 0, 19 and 38 and end at 57 |
| `Session.TestAppend` | internal/log/store_test.go:52-74 | three appends to an empty store return positions 0, 19, 38 with pos + n equal to 19, 38, 57 |
| `Session.TestRead` | internal/log/store_test.go:76-103 | reading at 0, 19 and 38 returns "hello world" each time, with no explicit flush before |
| `Session.ReadHeaderThenPayload` | internal/log/store_test.go:105-150 | from any store whose stream holds the records, buffered or not, two `ReadAt` calls at a record's position give its length and then its payload, and leave the stream flushed to the file |
| `Session.ReadHeader` | internal/log/store_test.go:114-125 | an 8-byte `ReadAt` at a record's position flushes the stream to the file and returns the record's length |
| `Session.ReadPayload` | internal/log/store_test.go:126-146 | a `ReadAt` of len(p) bytes at the position plus 8 returns exactly the payload |
| `Session.AppendReadSession` | internal/log/store_test.go:27-50 | append three records, read them, read them in two steps, reopen the file: the reopened store has size 57 and reads the same payloads |
| `Session.CloseSession` | internal/log/store_test.go:152-196 | after one buffered append, `Close` makes the file grow from 0 to 19 bytes |
| `Session.Restart` | internal/log/store_test.go:43-49 | close, then reopen over the same file: the new store's size is the old logical size and every old position reads back its payload |

## Left out

- The mutex (`mu`): each method is one atomic step. This matches the store's lock, which covers every operation whole. So the concurrent-append property reduces to `PositionsDisjoint` over the sequential order.
- The buffered writer's capacity and its flushing policy: `Append` takes the number of bytes that spill to the file as a parameter instead.
- The sticky error of `bufio.Writer` (after a failed write or flush, later writes fail too): each call takes its own outcome.
- The causes of OS failures (stat, write, flush, close): they are parameters of the methods.
- `Log.Store.Append`: a failed write leaves the buffer and file untouched. The source may leave part of the header or payload buffered without advancing `size`. This behaviour is unresolved, and the model does not assert it.
- `Log.Store.Append`: `size` and `pos` are unbounded naturals. The uint64 wrap-around of `size`, `pos + lenWidth` in `Read`, and the `int64(pos)` conversion are not modelled.
- `Log.Store.Read`: a header giving a length too large to allocate makes `make` panic in the source. The model returns the short-read error for every length the file cannot hold.
- Using a store after `Close` is not guarded by the source. The model records the release in `closed` but does not stop later calls.
- `Log.Store.Close`: a failing `File.Close` still releases the handle and returns `CloseFailed`. This follows Go's `os.File.Close` on Linux.
- `Log.NewStore`: the handle's write offset is assumed to be the file's end: the file is opened with `O_APPEND`, or the handle is already positioned there, as it is for a fresh file and for a handle reused after a flush. The source does not seek: `bufio.NewWriter(f)` writes at the handle's current offset while `size` comes from `os.Stat`. So on a handle at offset 0 over a non-empty file, the source's next `Append` returns `pos == len(f)` but overwrites record 0. The model always adds written bytes at the end of `file`.
- `Log.NewStore`: the store is given the file's contents. Opening by name, and `os.Stat` seeing another path, are not modelled.
- `cmd/server/main.go` is process wiring for an HTTP server in a package that is not part of this model. It holds no store logic.
