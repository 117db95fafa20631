# iorw: detection buffer and prefixed writer, in Dafny

This project models two stateful byte-stream components of the Go package
`iorw` and proves properties of them.

- **Buffer** (`buffer.go`) is an append-only in-memory byte store. It has a
  read cursor and a closed flag, and every method runs under one mutex.
  `Write` appends a whole chunk. `Read` copies unread bytes into the caller's
  slice and moves the cursor past them. It returns `io.EOF` when nothing is
  unread, and fails once the buffer is closed. `Close`, `Closed` and
  `Contents` set, report and copy out the state. A detector goroutine
  started by `Detect` takes a snapshot of the unread tail under the lock. It
  searches that tail for a regular expression. After reporting a match it
  moves the cursor to the end of the match, unless a reader has already
  moved it further.
- **PrefixedWriter** (`writer.go`) forwards bytes to another `io.Writer`.
  It puts a fixed prefix in front of every byte that starts a line. Whether
  the next byte starts a line is carried from one call to the next.

Layout:

- `io.dfy` (module `Io`): bytes, the package's errors, Go's built-in `copy`,
  and `Sink`, an abstract `io.Writer`. A `Sink` may accept any leading part
  of what it is given. It must report an error when it accepts less than all
  of it.
- `buffer_spec.dfy` (module `BufferSpec`): the buffer's state as a value,
  with `Step` giving the effect of each state-changing operation. `Run`
  applies any sequence of operations. Because each method holds the lock for
  its whole body, every interleaving of callers and detector goroutines is
  such a sequence. The lemmas cover the cursor bound, monotonic cursor,
  append-only contents, closed gating and in-order delivery.
- `buffer.dfy` (module `Buffers`): class `Buffer` with fields `contents`,
  `readCursor` and `closed`, and the invariant `readCursor <= |contents|`.
  Each state-changing method states its new state and is proved to perform
  the matching `Step`. A detector's two critical sections are `Poll` (the
  locked snapshot and search) and `ApplyMatch` (the guarded update).
- `prefix_spec.dfy` (module `PrefixSpec`): `Prefixed(prefix, atStart, b)`
  gives the bytes emitted for `b` and the flag left afterwards. The lemmas
  relate it to an index-wise definition, a length formula, an inverse
  (`Strip`) and composition across calls.
- `writer.dfy` (module `Writers`): class `PrefixedWriter`. Its `Write`
  loop is proved to compute `Prefixed`.

Two behaviours of the source are worth knowing:

- A closed buffer's cursor is not frozen. The detector's cursor update
  (buffer.go:168-174) does not look at `closed`, so a detector that matched
  before `Close` can still move the cursor after it. `Step` allows this
  move, and `ClosedIsFinal` states that it is the only change possible on a
  closed buffer.
- `Read` tests `len(contents) <= readCursor` (buffer.go:76). Under the
  invariant, that holds exactly when the cursor sits at the end.

## Model

| member | source | states |
|---|---|---|
| `Buffers.Buffer.constructor` | buffer.go:33-37 | NewBuffer gives empty contents, cursor 0 and an open buffer. This is `BufferSpec.Empty`, and the invariant holds. |
| `Buffers.Buffer.Write` | buffer.go:54-65 | On an open buffer, contents become old contents + p. It returns len(p) and no error. On a closed buffer it returns 0 and ErrWriteClosedBuffer, and contents stay as they were. The cursor and the flag never change. This is `Step` on `WriteOp(p)`. |
| `Buffers.Buffer.Read` | buffer.go:68-84 | On a closed buffer: 0 and ErrReadClosedBuffer, nothing changes. On an open buffer with nothing unread: 0 and io.EOF, nothing changes. Otherwise it copies n = min(len(d), unread) bytes. Then d[..n] == contents[old cursor .. old cursor + n], the cursor moves by exactly n, and d[n..] is untouched. Contents never change, and the invariant is kept. This is `Step` on `ReadOp(len(d))`. |
| `Buffers.Buffer.Close` | buffer.go:87-94 | Sets closed and returns nil. Contents and cursor are unchanged. Closing a closed buffer changes nothing. |
| `Buffers.Buffer.Closed` | buffer.go:97-102 | Reports the closed flag and changes nothing. |
| `Buffers.Buffer.Contents` | buffer.go:105-113 | Returns a freshly allocated array equal to contents, whether or not the buffer is closed. It changes nothing. |
| `Buffers.Buffer.Snapshot` | buffer.go:160-163 | A detector's locked snapshot is the unread tail and the cursor it starts at. Cursor + len(tail) == len(contents). |
| `Buffers.Buffer.ApplyMatch` | buffer.go:168-174 | The match must lie within an earlier snapshot whose contents are a prefix of the current ones. The cursor becomes snapshot cursor + match end if that is not behind the current cursor, and stays otherwise. It never decreases, contents and flag are untouched, and the invariant is kept. `closed` is not consulted. |
| `Buffers.Poll` | buffer.go:160-163 | A detector's first critical section: the cursor it reports is the current cursor, and the match end is the search's result on the unread tail. A match found there ends within contents. Nothing changes. |
| `BufferSpec.Step` | buffer.go:54-174 | For every operation: contents only grow, the cursor never decreases, and a closed buffer stays closed with frozen contents. The invariant is kept for every enabled operation. A write is accepted exactly when the buffer is open, and then appends the whole chunk. A successful Read delivers exactly the bytes the cursor passed over, at most its capacity. EOF is returned only when the buffer is open and fully read, and then nothing changes. On a closed buffer, only a detector update changes anything. |
| `BufferSpec.Run` | buffer.go:54-174 | Over any sequence of operations, the final state evolves from the first: no cursor rollback, append-only contents, closed is permanent. If every detector update lies within the contents, the cursor bound holds at the end. |
| `BufferSpec.MatchStaysEnabled` | buffer.go:161-172 | A match found in the unread tail of a snapshot still lies within the contents after any operations in between. So the later cursor update keeps the bound. |
| `BufferSpec.RunAppend` | buffer.go:54-174 | Running one sequence of operations and then another is the same as running them joined. The final state threads through and the replies concatenate. The joined run is well formed exactly when both parts are. |
| `BufferSpec.DetectorUpdateAfterOthers` | buffer.go:160-174 | A detector snapshots at s and finds a match. Any operations then run before its update is applied. The update is enabled and keeps the cursor bound. The cursor ends at the later of the match end and wherever the other operations left it, so a Read that went past the match end turns the update into a no-op. Contents and flag are untouched by the update. |
| `BufferSpec.ContentsAreAcceptedWrites` | buffer.go:58-62 | After any sequence of operations, contents are the initial contents followed by the accepted chunks in order. Writes are all-or-nothing. |
| `BufferSpec.ReadsInOrder` | buffer.go:76-81 | Without detector updates, the bytes delivered by successive reads are exactly contents between the first and last cursor, in order, with no gap or repeat. This holds whatever writes come in between. |
| `BufferSpec.EOFMeansDrained` | buffer.go:76-78 | If the last operation of a sequence got io.EOF, the buffer is open and the cursor is at the end of contents. |
| `BufferSpec.WrittenBytesReadBack` | buffer.go:54-84 | Start from a new buffer and use no detector updates. Once a Read reports io.EOF, the reads have delivered exactly the accepted written bytes, in write order. |
| `BufferSpec.ClosedIsFinal` | buffer.go:58-94 | After Close, whatever follows: every Write and Read fails, nothing is delivered, and contents stay fixed. Without detector updates the state does not change at all. |
| `Io.Copy` | buffer.go:80 | Go's `copy` copies min(len(dst), len(src)) leading bytes and leaves the rest of dst alone. |
| `Io.Sink.Write` | writer.go:42-44 | The underlying io.Writer appends some leading part of its argument to what it has accepted. It reports an error whenever that part is short. The error it reports is recorded, call by call. |
| `Writers.PrefixedWriter.constructor` | writer.go:17-24 | NewPrefixedWriter stores the prefix and the writer and starts at the start of a line. |
| `Writers.PrefixedWriter.Write` | writer.go:26-47 | The underlying writer is called exactly once, and the error returned is the one it reported. The flag afterwards is `Prefixed(prefix, old flag, b).1`, even when the underlying write fails. If the writer reported no error, Write returns len(b), and the writer received exactly `Prefixed(prefix, old flag, b).0`. If it reported an error, Write returns 0 and that error, and the writer received at most a leading part of that output. |
| `PrefixSpec.Prefixed` | writer.go:30-40 | The bytes Write hands to the underlying writer for b, and the flag it leaves. The output is never shorter than b, and it begins with the prefix when b is non-empty and the flag was set. |
| `PrefixSpec.PrefixedIsPieces` | writer.go:32-38 | The output is, byte by byte, one copy of the prefix exactly when the byte starts a line, followed by the byte. A byte starts a line when it is first and the flag was set, or when the byte before it is '\n'. |
| `PrefixSpec.FinalFlag` | writer.go:30-40 | After a non-empty b the flag is true exactly when b's last byte is '\n'. For an empty b nothing is emitted and the flag is unchanged. |
| `PrefixSpec.PrefixedLength` | writer.go:32-40 | The output length is len(b) + k * len(prefix), where k counts the bytes that start a line. |
| `PrefixSpec.StripPrefixed` | writer.go:32-40 | Removing the inserted prefixes from the output gives back b exactly. |
| `PrefixSpec.PrefixedConcat` | writer.go:32-40 | Writing b1 then b2 emits the same bytes and leaves the same flag as writing b1 + b2 once. |
| `PrefixSpec.PrefixedSnoc` | writer.go:33-39 | One more byte emits the prefix if the flag is set, then the byte. The flag then becomes "that byte is '\n'". This is the loop's step. |

## Left out

- `Reader` (buffer.go:40-51): it runs `io.Copy` from a foreign reader and then `Close` on a background goroutine. That is concurrency plus an external source. Its effect is a sequence of `WriteOp`s followed by one `CloseOp`, which `Run` already covers.
- `Detect` apart from its snapshot and cursor update (buffer.go:134-159, 175-184): the `fmt.Sprintf` formatting and the regular-expression engine are left out. So is the panic of `regexp.MustCompile` on a malformed pattern. The ticker, the goroutine and the response channel are left out too. The search is the parameter `find` of `Poll`.
- `Buffers.Poll`: the detector's blocking send `response <- true` (buffer.go:166) between its two critical sections is not modelled. If no one ever receives the send, the goroutine never reaches the update. The model leaves it to the caller whether and when `ApplyMatch` follows `Poll`. `DetectorUpdateAfterOthers` covers what any operations run in that gap do to the update.
- `CancelDetects` (buffer.go:188-195): it closes a channel only to stop detector goroutines. It panics when no detector was started since the last cancellation, because it closes a nil channel. Cancellation and that panic are not modelled.
- The `sync.Mutex` in both types is not modelled. Each method is atomic, and interleavings are the sequences of `BufferSpec.Step`.
- `readCursor` is a `uint64` in the source and a `nat` here. It cannot wrap, since it never exceeds the length of contents.
- `Io.Sink.Write`: an underlying writer that breaks the io.Writer contract by returning a short count with a nil error is not modelled.
- files.go, copy.go, targz.go and closer.go are not part of this model: they are filesystem, archive and encoding glue over external libraries.
