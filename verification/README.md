# FileReader: a verified model of the logstash-forwarder tailer

This project models the file tailer of logstash-forwarder-java, the class
`FileReader`, in Dafny. One call of the tailer is a *cycle*, which works as follows:

- Every watched file is read from the offset committed by the previous cycle.
- Complete lines become events, up to a shared spool capacity.
- The events go to the protocol adapter in one call.
- Each file's offset is committed only if that call returns.

The model has five modules, one per part of the class:

- `Common`: bytes, the line-feed and carriage-return bytes, the `(char)`
  cast and `Option`.
- `Sniffer` (`isCompressedFile`): a file that starts with a ZIP, LZW, LZH
  or GZ signature is not read line by line; its offset jumps to its length.
- `LineScanner` (`readLine`): reads one line byte by byte. A line feed ends
  the line. Carriage returns directly before it are dropped, and a run of
  carriage returns followed by an ordinary byte leaves one `'\r'`. If the
  data ends before a line feed, there is no line. The scanner is compared
  with an independent reference decoding, `Decode`/`IsLineAt`.
- `LineReader` (`readLines`): reads at most a budget of lines from an offset
  and parks the offset right after the last line it read. Proved: the
  resumption round trip, that re-reading finds nothing, that appending
  extends a read, and that an unterminated fragment is never consumed.
- `Events` and `Cycle` (`addEvent`, `readFile`, `readFiles`): every file
  gets the spool capacity that the files before it left. At most one batch
  is sent, and the offsets are committed all or nothing.

How the model represents the environment:

- A file is an immutable byte sequence, and its offset is an index into it.
- The adapter is a boolean: it either accepts the batch or throws.
- The host name is a parameter.

The model follows the code where it differs from the design's intent. When
the adapter throws, the code skips `eventList.clear()`. The events of a
failed cycle therefore stay in the list and are sent again. This is modelled
as written in `Cycle.CycleAsWritten`, and the cycle-scoped list that the
design intends is modelled in `Cycle.Cycle` and `Cycle.ReadFiles`; see
"## Findings".

A re-run of a cycle that found no new data yields nothing only when the
previous cycle did not fill the spool. A full spool can leave complete
lines unread, so `Cycle.RerunIsIdle` assumes the first cycle's count was
below the spool size.

## Model

| member | source | states |
|---|---|---|
| `Sniffer.IsCompressedFile` | src/main/java/info/fetter/logstashforwarder/FileReader.java:97-116 | The sniffing loop answers true exactly when one of the four signatures is a prefix of the file. A signature longer than the file is skipped, not matched. |
| `Sniffer.ReadCount` | src/main/java/info/fetter/logstashforwarder/FileReader.java:101-106 | One read of `n` bytes from offset 0 returns exactly `n` only when the file holds at least `n` bytes (and is not empty); otherwise that signature is skipped. |
| `Sniffer.MagicBytes` | src/main/java/info/fetter/logstashforwarder/FileReader.java:38-42 | The compressed files are exactly those starting with 50 4B 03 04, 1F 9D, 1F A0 or 1F 8B 08, spelled out byte by byte, in both directions. |
| `Sniffer.ShortFileNotCompressed` | src/main/java/info/fetter/logstashforwarder/FileReader.java:100-110 | A file shorter than two bytes is never compressed, and a match depends only on the first bytes, so appending keeps it. |
| `LineScanner.ReadLine` | src/main/java/info/fetter/logstashforwarder/FileReader.java:142-162 | There is no line exactly when no line feed follows the offset. Otherwise the line ends at the first line feed, its text is the reference decoding of the bytes before it, and it contains no '\n'. |
| `LineScanner.ScanLineMatchesDecode` | src/main/java/info/fetter/logstashforwarder/FileReader.java:146-160 | Loop invariant of the byte loop: the buffer plus the pending-CR flag always equal the reference decoding of the bytes consumed so far. |
| `LineScanner.DecodeSnoc` | src/main/java/info/fetter/logstashforwarder/FileReader.java:150-158 | One more byte in a line body: a CR adds nothing yet, and any other byte releases one held '\r' (if the body ended in CR) before itself. |
| `LineScanner.DecodeHasNoLineFeed` | src/main/java/info/fetter/logstashforwarder/FileReader.java:148-149 | A body free of line-feed bytes decodes to text without '\n'. |
| `LineScanner.DecodePlainBytes` | src/main/java/info/fetter/logstashforwarder/FileReader.java:153-158 | Without carriage returns, every byte is kept unchanged, cast to a character, in order. |
| `LineScanner.TrailingCRsDropped` | src/main/java/info/fetter/logstashforwarder/FileReader.java:148-152 | Any run of CRs directly before the line feed contributes nothing to the line. |
| `LineScanner.CRRunCollapses` | src/main/java/info/fetter/logstashforwarder/FileReader.java:150-158 | A run of one or more CRs followed by an ordinary byte contributes exactly one '\r' before that byte. |
| `LineScanner.ReadLineStable` | src/main/java/info/fetter/logstashforwarder/FileReader.java:146-149 | Appending bytes to a file never changes a line that was already complete. |
| `LineScanner.CarriageReturnExample` | src/main/java/info/fetter/logstashforwarder/FileReader.java:142-162 | "a\r\r\rb\r\r\n" reads as "a\rb" and ends at offset 8. |
| `LineReader.ReadLines` | src/main/java/info/fetter/logstashforwarder/FileReader.java:118-140 | At most the budget's worth of lines (none for a budget of 0 or less). The lines are the consecutive complete lines from the offset. The pointer follows the last one, or stays at the offset. Fewer lines than the budget means no line feed is left. |
| `LineReader.ScanLinesContract` | src/main/java/info/fetter/logstashforwarder/FileReader.java:122-134 | The budgeted loop with its seek-back: the line read past the budget, or a missing line, leaves the offset after the last line that was read. |
| `LineReader.TilesOffsets` | src/main/java/info/fetter/logstashforwarder/FileReader.java:129-130 | Every event offset follows a line feed inside the file, and the offsets strictly increase. |
| `LineReader.PointerAtLineBoundary` | src/main/java/info/fetter/logstashforwarder/FileReader.java:120-139 | The returned pointer never moves backwards and is either the start offset or just after a line feed. |
| `LineReader.ReadLinesUnique` | src/main/java/info/fetter/logstashforwarder/FileReader.java:118-140 | Any run of consecutive lines that fits the budget and stops only at the budget or at the last line feed is exactly what the reader returns. |
| `LineReader.Resume` | src/main/java/info/fetter/logstashforwarder/FileReader.java:118-140 | Reading n lines and then m more from the returned pointer gives exactly the lines and pointer of reading n+m lines: nothing is lost or repeated. |
| `LineReader.RereadIsEmpty` | src/main/java/info/fetter/logstashforwarder/FileReader.java:118-140 | If a read stopped below its budget and nothing was appended, reading again from its pointer yields no line and the same pointer. |
| `LineReader.ScanResume` | src/main/java/info/fetter/logstashforwarder/FileReader.java:122-134 | The resumption round trip, proved on the loop itself by induction on the first budget. |
| `LineReader.ReadLinesAppend` | src/main/java/info/fetter/logstashforwarder/FileReader.java:118-140 | Appending to a file only adds lines after those already read: the earlier read is a prefix of the later one. |
| `LineReader.ScanAppend` | src/main/java/info/fetter/logstashforwarder/FileReader.java:122-134 | The append property, proved on the loop by induction over the lines read. |
| `LineReader.FragmentNotConsumed` | src/main/java/info/fetter/logstashforwarder/FileReader.java:129-139 | The pointer never passes a position after which no line feed occurs, so an unterminated fragment is re-read next time. |
| `LineReader.TailExample` | src/main/java/info/fetter/logstashforwarder/FileReader.java:118-162 | "foo\nbar\r\nbaz" with budget 2 yields foo@4 and bar@9 and parks at 9. Once "\n" is appended, the next read yields baz@13. |
| `Events.AddEvents` | src/main/java/info/fetter/logstashforwarder/FileReader.java:164-171 | Appends one event per line, in order, each carrying that line and its offset plus the file's path, tag fields and the host name; the list before is untouched. |
| `Cycle.ReadFileContract` | src/main/java/info/fetter/logstashforwarder/FileReader.java:80-95 | A compressed file yields no event and its pointer jumps to its length. Any other file yields at most `space` events carrying its next lines, the pointer after the last one, and it stops short only when the file holds no further line feed. |
| `Cycle.ScanWithinSpool` | src/main/java/info/fetter/logstashforwarder/FileReader.java:61-69 | The events of one cycle never exceed the spool size. |
| `Cycle.ScanPointer` | src/main/java/info/fetter/logstashforwarder/FileReader.java:67-69 | File i's new offset is the one its own read returned, with the capacity the earlier files left over. |
| `Cycle.PointerMapLast` | src/main/java/info/fetter/logstashforwarder/FileReader.java:66-93 | Under each path the map holds the offset of the last file with that path. |
| `Cycle.Gather` | src/main/java/info/fetter/logstashforwarder/FileReader.java:62-69 | The loop over the files computes exactly the pass's events and its offset map. |
| `Cycle.ReadFiles` | src/main/java/info/fetter/logstashforwarder/FileReader.java:61-78 | The cycle with its list scoped to the call: at most one batch, never empty and never over the spool size. Success holds exactly when nothing was sent or the adapter accepted. The returned count is the batch size, and on failure no state changes. |
| `Cycle.CycleContract` | src/main/java/info/fetter/logstashforwarder/FileReader.java:70-77 | With the cycle-scoped list, the one batch sent is exactly this cycle's events, so it fits the spool. Success holds exactly when nothing was sent or the adapter accepted, and a failure leaves every state as it was. |
| `Cycle.CommitAllOrNothing` | src/main/java/info/fetter/logstashforwarder/FileReader.java:70-76 | As written: the adapter is called once exactly when this cycle found events, with the whole list. If it throws, no pointer changes and the list keeps its events. If it returns, only pointers change, each (for distinct files) to its file's new offset, and the list is cleared. |
| `Cycle.ReadCaughtUp` | src/main/java/info/fetter/logstashforwarder/FileReader.java:80-95 | A file with no line feed after its pointer (or a compressed one at its length) yields no event and keeps its pointer. |
| `Cycle.ReadBelowBudget` | src/main/java/info/fetter/logstashforwarder/FileReader.java:118-140 | A file read to less than its budget is caught up at its new pointer. |
| `Cycle.ReadingCatchesUp` | src/main/java/info/fetter/logstashforwarder/FileReader.java:80-95 | The per-file read stops below budget only when caught up, and reads nothing from a caught-up file. |
| `Cycle.ScanBelowSpool` | src/main/java/info/fetter/logstashforwarder/FileReader.java:67-69 | A cycle that ends below the spool size leaves every file caught up at its new offset. |
| `Cycle.ScanCaughtUp` | src/main/java/info/fetter/logstashforwarder/FileReader.java:67-69 | A pass over caught-up files finds no event and moves no offset. |
| `Cycle.RerunIsIdle` | src/main/java/info/fetter/logstashforwarder/FileReader.java:61-78 | After a successful cycle that did not fill the spool, rerunning on unchanged files sends nothing, succeeds with count 0 and leaves every pointer where it is. |
| `Cycle.OneLineRead` | src/main/java/info/fetter/logstashforwarder/FileReader.java:80-95 | The file "a\n" read with a spool of one yields the one event for "a" at offset 2. |
| `Cycle.StaleEventsResent` | src/main/java/info/fetter/logstashforwarder/FileReader.java:70-76 | As written, a failed send followed by a successful cycle sends a batch of two identical events with a spool of one. The cycle-scoped list sends exactly the one event. |

## Left out

- I/O errors: an `IOException` in the sniffer, the line reader or `addEvent` is not modelled. In the source, an exception from `addEvent` after the offset has moved would skip that line without an event.
- Negative offsets: the stored pointer is a natural number. A negative pointer makes `seek` throw, which is one of the I/O error paths above.
- An offset past the end of the file is kept as is and simply yields no line.
- Logging and `printStackTrace`: they have no effect on the results.
- The host name lookup in the instance initializer is a parameter of the cycle. Its `RuntimeException` on an unknown host is left out.
- `getCanonicalPath`: a file's path is an opaque string. The same string keys the offset map, in place of the `File` object.
- The adapter is a boolean (accepts, or throws `AdapterException`). The network protocol behind it is left out.
- Event field encoding is left out: an event is a record with the tag fields, path, offset, line and host.
- The `int` event counter is unbounded; overflow would need more than 2^31 events in one cycle.
- Cycle.RerunIsIdle: requires distinct file paths and a first cycle below the spool size. When two states share a file, the map keeps only the last one's offset (`Cycle.PointerMapLast`).
- No character decoding: every byte becomes the character with the same code.
- The `RandomAccessFile` position, `seek` and `getFilePointer` are replaced by offsets into the byte sequence.

## Findings

| source | as written | input that shows it | evidently intended | confidence | as-written member | corrected member |
|---|---|---|---|---|---|---|
| src/main/java/info/fetter/logstashforwarder/FileReader.java:70-76 | When `sendEvents` throws, the exception skips `eventList.clear()`, so the events of the failed cycle stay in the reader's list and are sent again, before the same lines read again, by the next cycle that finds events. | Spool size 1 and one file "a\n" at offset 0. The first cycle's send throws. The next cycle sends the event for "a" twice, a batch of 2 with a spool of 1. | The event list is scoped to one cycle and cleared whatever the adapter does. Every batch is exactly that cycle's events and never exceeds the spool. | not executed | `Cycle.CycleAsWritten` (shown by `Cycle.StaleEventsResent`) | `Cycle.Cycle` / `Cycle.ReadFiles` (proved by `Cycle.CycleContract`) |
