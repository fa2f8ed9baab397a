# Line walkers of rust_cmus `src/file.rs`, in Dafny

This project models the two in-memory line walkers of `src/file.rs`:

- `buffer_for_each_line` walks a byte buffer front to back.
- `buffer_for_each_line_reverse` walks it back to front.

The forward walker cuts the buffer at LF (`'\n'`). It leaves the LF out of the line and also drops one CR (`'\r'`) right before the line end. The reverse walker leaves out only the delimiter at its cursor: an LF, or a CR followed by an LF when that LF is not at offset 1. After excluding the delimiter, the scan starts at the byte in front of it and never tests that byte. When the line at the cursor is empty, that byte is the LF that ends the line before it, so the walk delivers the line before together with its own LF and any CR before that LF, and never delivers the empty line. Each line goes to a callback, and the walk stops after the first line for which the callback returns `true`.

The buffer is a `seq<bv8>`. The callback is a pure function `stop: seq<bv8> -> bool`. Each walker is a method that mirrors the Rust loops index for index. It returns the list of lines it handed to the callback.

Files:

- `delivery.dfy` (module `Delivery`): lists, reversal, and `TakeThrough`. `TakeThrough(xs, stop)` is the prefix of `xs` up to and including the first item on which `stop` answers true. It is the reference for what a walk with early stop delivers.
- `linesplit.dfy` (module `LineSplit`): the line structure of a buffer.
  - `SpansIn` gives the spans (index pairs) of the lines of a region.
  - `Lines` gives their bytes.
  - This module holds the properties of the split: no LF inside a line, the line count, cutting a region at an LF, and the round trip with `JoinLines`.
- `forward.dfy` (module `ForwardWalker`): `buffer_for_each_line`, proved to deliver `TakeThrough(Lines(buf), stop)`.
- `reverse.dfy` (module `ReverseWalker`): `buffer_for_each_line_reverse` as written.
  - It is proved safe and terminating.
  - It is proved to deliver `TakeThrough(RevLines(buf), stop)`. `RevLines` is the walk described as a recursive function.
  - On "Plain" buffers, `RevLines` equals the forward lines reversed. A Plain buffer is non-empty, ends in LF, has no CR and has no empty line.
  - Counterexample lemmas show buffers where the two differ.
- `reverse_fixed.dfy` (module `ReverseWalkerFixed`): a corrected reverse walker. It is proved to deliver `TakeThrough(Reversed(Lines(buf)), stop)` on every buffer.

A stretch of bytes at the end of the buffer with no LF after it is delivered as a line: the inner scan sets `end` to the buffer size (src/file.rs:73-84), and the model delivers that final segment.

## Model

| member | source | states |
|---|---|---|
| Delivery.TakeThroughAppend | src/file.rs:86-88 | lines on which the callback answers false are all delivered, and what follows them is delivered as if the walk started there |
| Delivery.TakeThroughNeverStops | src/file.rs:86-88 | a callback that never answers true is given every line |
| Delivery.TakeThroughStops | src/file.rs:126-128 | the walk ends at the first line on which the callback answers true; that line is the last one delivered |
| Delivery.TakeThroughElems | src/file.rs:86-88 | a walk delivers no line that is not a line of the buffer, and no more lines than there are |
| LineSplit.NextLFSpec | src/file.rs:74-77 | the forward scan passes only bytes that are not LF and stops on an LF or at the end of the region |
| LineSplit.NextLFIs | src/file.rs:74-77 | any index with no LF before it and an LF (or the region end) at it is where the scan stops |
| LineSplit.LineIsSegment | src/file.rs:74-84 | the line at `pos` is the bytes up to the next LF or the buffer end with one trailing CR removed (the rule `ContentEnd` states), and the next line starts right after that LF |
| LineSplit.LinesHaveNoLF | src/file.rs:74-83 | no line contains an LF |
| LineSplit.LineCount | src/file.rs:73-84 | the number of lines is the number of LF bytes, plus one when the buffer is non-empty and does not end in LF |
| LineSplit.SpansCut | src/file.rs:73-84 | cutting a region right after an LF splits its lines into the lines before and the lines after the cut, unchanged |
| LineSplit.LastLine | src/file.rs:73-84 | the lines of a region are the lines before its last line start, followed by that last line with one CR before its end removed |
| LineSplit.JoinLinesOfLines | src/file.rs:75-84 | for a buffer with no CR that ends in LF, every line followed by an LF, joined, gives the buffer back |
| ForwardWalker.ScanToLF | src/file.rs:74-77 | the inner loop finds the first LF at or after `pos`, or the buffer end |
| ForwardWalker.ForEachLine | src/file.rs:66-92 | the walker delivers the lines of the buffer in order, up to and including the first one on which the callback answers true; none on an empty buffer; no delivered line contains an LF |
| ReverseWalker.LineStartSkipsNoLF | src/file.rs:112-115 | the backward scan passes no LF |
| ReverseWalker.ScanBack | src/file.rs:112-115 | the inner loop stops right after the nearest LF before the cursor, or at 0 |
| ReverseWalker.WalkStep | src/file.rs:104-122 | one turn excludes the delimiter at `end` as `DropDelimiter` says ("\r\n" only when `end > 1`, else "\n"), delivers the first line of the walk from `end`, and moves the cursor strictly backwards, with every index it reads inside the buffer |
| ReverseWalker.SpansFromSafe | src/file.rs:103-124 | from a cursor `end`, every line lies inside `buf[..end + 1]`, is non-empty, and ends before the byte in front of the previous line: lines come at strictly decreasing offsets and do not overlap |
| ReverseWalker.RevSpansSafe | src/file.rs:97-124 | the whole backward walk stays inside the buffer, moving strictly backwards without overlap |
| ReverseWalker.ForEachLineReverse | src/file.rs:94-130 | the walker delivers the lines of the backward walk up to and including the first one on which the callback answers true; nothing on a buffer of length 0 or 1; on a Plain buffer, exactly the forward lines in reverse order up to the stop |
| ReverseWalker.SpansFromPlain | src/file.rs:103-124 | on a Plain buffer, the walk from an LF at `end` visits the lines of `buf[..end + 1]` from last to first |
| ReverseWalker.ReverseMatchesForward | src/file.rs:94-130 | on a Plain buffer (such as "Hello\nworld\n"), the reverse lines are the forward lines in reverse order |
| ReverseWalker.SingleByteDropped | src/file.rs:98-103 | "x" delivers nothing backwards but "x" forwards |
| ReverseWalker.LeadingEmptyLineDropped | src/file.rs:103-122 | "\nx" delivers only "x" backwards; the empty first line is lost |
| ReverseWalker.LeadingCRLFKeepsCR | src/file.rs:105-110 | "\r\n" delivers "\r" backwards but an empty line forwards |
| ReverseWalker.EmptyLinesMerged | src/file.rs:104-118 | "\n\n" delivers one line holding an LF backwards but two empty lines forwards |
| ReverseWalker.EmptyLineJoinsPrevious | src/file.rs:104-118 | "a\n\nb" delivers "b" then "a\n" backwards but "a", "" and "b" forwards |
| ReverseWalker.EmptyLineKeepsCRLF | src/file.rs:104-118 | "a\r\n\r\n" delivers "a\r\n" backwards, with the CR and LF of the first line kept, but "a" and "" forwards |
| ReverseWalker.TrailingCRKept | src/file.rs:105-111 | "a\r" delivers "a\r" backwards but "a" forwards: a final CR with no LF after it is kept |
| ReverseWalker.HelloWorld | src/file.rs:185-204 | "Hello\nworld\n" is Plain; forwards it gives "Hello" then "world", backwards "world" then "Hello" |
| ReverseWalkerFixed.LastLineOf | src/file.rs:104-122 | a corrected turn cuts out the last line of the unwalked region, with "\r\n" or "\n" excluded wherever it stands, and leaves the region before that line |
| ReverseWalkerFixed.ForEachLineReverse | src/file.rs:94-130 | the corrected walker delivers the forward lines in reverse order, up to and including the first one on which the callback answers true, on every buffer; it delivers nothing on an empty buffer, only lines of the buffer, none with an LF, and no more lines than the buffer has |

## Left out

- `read_all` (src/file.rs:24-44): reads from a raw file descriptor through the operating system, which is I/O outside the model.
- `write_all` (src/file.rs:47-50): a wrapper over the standard library's writer, which is I/O.
- `mmap_file` (src/file.rs:53-64): maps a file into memory through an external crate, which is I/O.
- `file_for_each_line` (src/file.rs:132-145): its line splitting is done by the standard library's buffered reader, not by this repository.
- UTF-8 decoding and the panic of `unwrap` at src/file.rs:86 and src/file.rs:126: lines are kept as raw bytes and the callback receives them as bytes.
- The callback's side effects: it is a pure function of the line, so a callback that keeps state between lines is not modelled. Only its answer matters to the walkers.
- The variable `is_newline` in the reverse walker (src/file.rs:104-111) is set but never read, so it is not modelled.
- Machine integers: every index used to read the buffer is below its length. The cursors stay at or below the length plus one: the forward `end` reaches the length (src/file.rs:75-76) and `pos` reaches the length plus one (src/file.rs:84). So `usize` cannot wrap in either walker, and unbounded naturals are used.

## Findings

| source | as written | input that shows it | evidently intended | confidence | as-written member | corrected member |
|---|---|---|---|---|---|---|
| src/file.rs:98-103 | the cursor starts at `len - 1` and the loop runs only while `end > 0`, so `end == 0` means both "done" and "only byte 0 left" | "x" delivers nothing; "\nx" delivers only "x" | "x" delivers "x"; "\nx" delivers "x" then "" | high, not executed | ReverseWalker.SingleByteDropped | ReverseWalkerFixed.ForEachLineReverse |
| src/file.rs:105 | "\r\n" is excluded only when `end > 1`, so a CR at offset 0 before an LF at offset 1 stays in the line | "\r\n" delivers "\r" | "\r\n" delivers "" as the forward walker does | high, not executed | ReverseWalker.LeadingCRLFKeepsCR | ReverseWalkerFixed.ForEachLineReverse |
| src/file.rs:108-118 | after excluding the delimiter, the line is `buf[pos..end + 1]`, which always has at least one byte, so an empty line is never delivered and the LF in front of the empty line (the one that ends the line before it), with any CR before that LF, is delivered inside the line before it | "\n\n" delivers "\n"; "a\n\nb" delivers "b" then "a\n"; "a\r\n\r\n" delivers "a\r\n" (ReverseWalker.EmptyLineKeepsCRLF) | "\n\n" delivers "" twice; "a\n\nb" delivers "b", "" then "a"; "a\r\n\r\n" delivers "" then "a" | high, not executed | ReverseWalker.EmptyLineJoinsPrevious | ReverseWalkerFixed.ForEachLineReverse |
| src/file.rs:105-111 | only an LF at `end` triggers delimiter removal, so a CR at the buffer end with no LF after it stays in the line, while the forward walker drops it (src/file.rs:79-81) | "a\r" delivers "a\r" | "a\r" delivers "a" as the forward walker does | medium, not executed | ReverseWalker.TrailingCRKept | ReverseWalkerFixed.ForEachLineReverse |
