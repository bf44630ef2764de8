# jsoncomments: the comment-skipping reader

A Dafny model of `SkipCommentsReader` from the Go package `jsoncomments`. The
reader wraps a line source and yields the same text with every `#`-to-end-of-line
comment removed, so that annotated JSON can be handed to a JSON decoder.

A `#` only starts a comment outside a quoted string. Either `"` or `'` toggles
the "out of context" flag `ooc`, and the flag is carried from one line to the
next. Inside quotes, a backslash escapes the rune after it. Each kept line is
queued in a FIFO buffer followed by one newline, and `Read` serves callers from
that buffer.

The project is in three modules:

- `strip.dfy` (module `Strip`): the per-line scanner as pure functions.
  - `Step` and `FindFrom` give the meaning of `findRune`.
  - `StripLine` and `StripAll` strip one line, or a list of lines while threading
    the quote state through them.
  - Lemmas: the scan stops at the first marker, the quote state is a parity, the
    two quote kinds are interchangeable, and behaviour over quoted and unquoted
    spans.
- `reader.dfy` (module `Reader`): the reader itself, the class `SkipCommentsReader`.
  - Its fields are the buffer `buf`, the flags `eof` and `ooc`, and a model of the
    scanner: the input split into lines, `source`, plus the index of the next line
    to scan, `next`.
  - `FindRune`, `Load` and `Read` mirror the Go loops.
  - Each one is proved against a pure specification: `FindFrom`, `Fill` (what
    `load(n)` does) and `TopUp` (what `Read` does before it dequeues).
  - The class invariant `Valid` says that everything read so far, followed by the
    buffer, is exactly the stripped text of the lines scanned so far.
- `reader_test.dfy` (module `ReaderTest`): what the package's tests rely on.
  - Draining the reader with reads whose sizes cycle through any non-empty list
    of positive sizes yields `StripAll(false, lines).text`. The output therefore
    does not depend on how reads are chunked.
  - It also holds the canonical example and the mixed-quote behaviour.

## Model

| member | source | states |
|---|---|---|
| Strip.IsQuote | reader.go:15-20 | holds exactly for `"` and `'` |
| Strip.Step | reader.go:45-58 | the quote state flips exactly on an unescaped quote; a rune is escaped exactly when the previous rune was an unescaped backslash inside quotes, so outside quotes a backslash is ordinary and an escaped rune never toggles |
| Strip.FindFrom | reader.go:41-66 | the scan result is -1 or a position holding the sought rune at which the quote state is off |
| Strip.FindFirstMarker | reader.go:44-65 | the scan stops at the first position that is unquoted, unescaped and holds the rune; it returns -1 exactly when there is no such position; the quote state left behind is the one reached at the stop point or the end of the line |
| Strip.FindRuneParity | reader.go:41-57 | the quote state after a scan is the entry state XOR the parity of the unescaped quotes before the stop point |
| Strip.QuoteStateIsParity | reader.go:55-57 | after any prefix, the quote state is the entry state flipped once per unescaped quote |
| Strip.QuoteKindsInterchangeable | reader.go:15-20 | replacing one quote kind by the other anywhere in a line changes neither the stop position nor the final quote state, so `"` can close a string opened by `'` |
| Strip.InsideQuotes | reader.go:51-63 | inside quotes, a run with no quote and no backslash is passed over whole, `#` included |
| Strip.EscapeInsideQuotes | reader.go:46-53 | inside quotes, a backslash and the rune after it are passed over, and the scan stays inside quotes |
| Strip.OutsideQuotes | reader.go:51-63 | outside quotes, a run with no quote and no marker is passed over whole, backslashes included |
| Strip.StripLine | reader.go:76-79 | the kept text is a prefix of the line; when it is shorter, the cut is at a `#` and the quote state there is off |
| Strip.StripLineCutsAtFirstMarker | reader.go:76-79 | the line is cut exactly at its first marker and kept whole exactly when it has none |
| Strip.StripAll | reader.go:71-84 | each line cut at its first marker and followed by one newline, the quote state carried from line to line |
| Strip.StripAllAppend | reader.go:71-84 | stripping `a + b` is stripping `a`, then stripping `b` from the quote state `a` leaves |
| Strip.StripAllCommentFree | reader.go:75-80 | input without `#` comes out as its lines, each followed by one newline |
| Strip.StripAllBalanced | reader.go:75-80 | when every line keeps `kept[i]` and ends outside quotes, the output is the kept lines, each followed by a newline |
| Reader.Fill | reader.go:70-85 | `load(n)` takes at least one line when one is left, and stops with the whole buffer longer than `n` or with the lines exhausted |
| Reader.FillStrips | reader.go:71-84 | `load` only appends: the new buffer is the old one followed by the stripped text of exactly the lines it consumed, and the quote state is the one those lines leave |
| Reader.FillStopsFirst | reader.go:81-83 | `load` stops at the first line that makes the buffer longer than `n` |
| Reader.FillKeepsConsistent | reader.go:71-84 | `load` keeps the delivered text plus the buffer equal to the stripped text of the lines scanned so far |
| Reader.TopUp | reader.go:88-98 | `Read` tops up only when `eof` is unset and the buffer is shorter than the request, and then by at least one line while lines remain; with a request of one byte or more, an empty result means every line is scanned and the buffer is empty; either a line is scanned or the state is untouched |
| Reader.SkipCommentsReader.constructor | reader.go:33-38 | `NewSkipCommentsReader`: empty buffer, `eof` and `ooc` unset, no line scanned |
| Reader.SkipCommentsReader.FindRune | reader.go:41-66 | the returned position and the updated `ooc` are `FindFrom` of the line from the entry state |
| Reader.SkipCommentsReader.LoadLine | reader.go:72-80 | one loop round of `load`: the next line is scanned and appended, cut at its first marker, with one newline |
| Reader.SkipCommentsReader.Load | reader.go:70-85 | the new buffer, quote state and line position are `Fill` of the old ones; the reader stays valid |
| Reader.SkipCommentsReader.BufRead | reader.go:90-98 | `bytes.Buffer.Read`: returns the first `min(k, len)` queued runes in FIFO order and keeps the rest; reports end of data exactly when the buffer is empty and `k > 0` |
| Reader.SkipCommentsReader.Read | reader.go:88-99 | at most `k` runes from the front of the topped-up buffer, which shrinks by exactly that count; the reader stays valid; the end-of-data flag behaves as `bytes.Buffer.Read` does, and without `eof` it is returned for `k > 0` only when the source is drained |
| ReaderTest.ReadAll | reader_test.go:46-58 | reading until end of data, with read sizes cycling through any list of positive sizes, returns the stripped text of all lines |
| ReaderTest.CutAtPlainMarker | reader_test.go:16-18 | an unquoted `#` preceded only by plain runes cuts the line there |
| ReaderTest.KeepsKeyValueLine | reader_test.go:17 | a `#` inside a quoted value is kept and the line ends outside quotes |
| ReaderTest.KeepsEscapedQuoteLine | reader_test.go:19 | an escaped quote does not close the string, so the `#` after it is kept |
| ReaderTest.CanonicalLine | reader_test.go:15-28 | each line of the canonical input keeps exactly its expected text |
| ReaderTest.CanonicalStrip | reader_test.go:15-28 | the canonical input strips to the expected output, line by line |
| ReaderTest.SmallReader | reader_test.go:41-63 | reading the canonical input four runes at a time yields the expected output |
| ReaderTest.StripComments | reader_test.go:30-39 | reading it with 512-rune reads yields the same output |
| ReaderTest.ApostropheClosesString | reader.go:15-20 | in `"it's#fine"` the apostrophe closes the string, so the `#` after it starts a comment |

## Left out

- The `bufio.Scanner` internals are not modelled: how it splits lines, its dropping of a trailing `\r` and its 64 KiB token limit. The line source is the input already split into lines (`source`) plus a cursor (`next`).
- Scanner I/O errors are not modelled. `load` returns `scanner.Err()`, but `Read` drops that value, so the line source here never fails.
- UTF-8 is not modelled. The model works on runes (`char`), so a returned position is a rune index rather than a byte offset, and lengths count runes. Every rune the scanner reacts to is ASCII.
- The growth and allocation of `bytes.Buffer` are not modelled; `buf` is a sequence.
- `eof` is never set to true in `reader.go`. The field is kept and `Read`'s `eof` branch is modelled as written, but no method sets it. `ReadAll` assumes it is unset, as it is after `NewSkipCommentsReader`.
- `NewReader` is called by the tests but is not defined in `reader.go`. The scenarios construct a `SkipCommentsReader` directly, and `NewReader` is not part of this model.
- `bytes.Buffer.ReadFrom` grows its read size. `ReaderTest.StripComments` uses a fixed size of 512. `ReadAll` shows that the size makes no difference to the output.
- The expected output of the canonical example is stated as its kept lines, each followed by a newline (`Join(CanonicalKept())`), rather than as one string literal.
- `Read` can return fewer runes than requested while lines remain. `load(n)` receives the deficit `len(p) - buf.Len()`, but it compares the whole buffer length with that deficit. `Fill` and `TopUp` follow the code: `Read` promises at most `k` runes, not exactly `k`. A short read is allowed by `io.Reader` and loses no text, so this is not listed as a defect.
- Matching quote kinds is not modelled, because the source does not do it. The two kinds are interchangeable (`QuoteKindsInterchangeable`, `ApostropheClosesString`), and this is kept as the source behaves.
