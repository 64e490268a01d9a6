# LogInsight `File`: line index and range reader

LogInsight shows huge log files in a terminal UI. It works one screen of lines
at a time. Its `File` class opens a file once and, in one forward pass over
the bytes, records where every line starts, how many bytes it has (the `\n`
excluded) and how many characters it decodes to. From that index it works out
the size summary: the byte size, the number of lines and the longest line in
bytes and in characters. After that, `load_lines(start, count)` returns any run
of consecutive lines. It does this with a single positioned read of exactly
their byte span, which it then decodes and splits on `\n`.

The model has four modules:

- `Seqs` (`seqs.dfy`): counting, `find`, `split` and `join` on sequences, and the
  split/join round trips.
- `LineIndex` (`line_index.dfy`): the indexer. This is `_scan_line_positions`,
  as a recursive function and as the source's `while` loop. It also holds the
  independent definition of what a correct line index is, `IsLineIndex`, and
  the proofs that the scan builds one, that it is the only one, and what it
  adds up to.
- `LogFile` (`file.dfy`): a constructed `File` value, its accessors, and
  `load_lines`. `load_lines` is split into three layers:
  - `ReadRange`: the argument checks and the span arithmetic with the positioned read.
  - `LoadLineBytes`: the same at byte level, where the main theorem lives.
  - `LoadLines`: the function as written, which decodes and then splits.
- `FileCases` (`file_cases.dfy`): the unit tests' files, worked through the
  model with an ASCII decoder.

The file is an immutable `seq<bv8>`. `open`/`seek`/`tell`, the memory
mapping and `os.pread` become slicing. The decoder `_decode` (lossy UTF-8
followed by `expandtabs(4)`) is a function-typed value `Decoder` and is never
interpreted. Every character length is `|decode(line bytes)|`. The source keeps
three parallel lists (starts, byte lengths, character lengths). The model
keeps one sequence of `LineDescriptor(start, byteLength, charLength)`, so the
three lists always have the same length. The source raises exceptions. The
model returns `Result`, with `Err(InvalidStartLine)` and `Err(InvalidLineCount)`
for the two `ValueError`s and `Err(EndOfFile)` for the `EOFError`.

## Model

| member | source | states |
|---|---|---|
| Seqs.IndexOf | src/loginsight/file.py:156-160 | `find(b"\n", from)`: -1 exactly when no newline lies at or after `from`; otherwise the position of the first one at or after `from` |
| Seqs.Split | src/loginsight/file.py:126 | `split`: one more piece than there are delimiters, and no piece holds the delimiter |
| Seqs.SplitJoin | src/loginsight/file.py:126 | splitting delimiter-free pieces joined with the delimiter gives back exactly those pieces |
| Seqs.JoinSplit | src/loginsight/file.py:126 | joining the pieces of a split with the delimiter gives back the original sequence |
| Seqs.JoinCount | src/loginsight/file.py:116 | delimiter-free pieces joined hold exactly one delimiter per gap (the `number_of_lines - 1` newlines of the span) |
| Seqs.Prefix | src/loginsight/file.py:127 | `lines[0:n]`: the first `n` elements, or all of them when there are fewer |
| LineIndex.ScanLinePositions | src/loginsight/file.py:134-187 | the scan of an empty file records no lines; otherwise the lines recorded start at 0, are newline-free, are each followed by a newline and the next starts right after it, and the last ends at the end of the file; every character length is the decoded length |
| LineIndex.ScanFrom | src/loginsight/file.py:155-185 | the scan from any offset, which measures each line with its per-line step `Measure` (file.py:161-171, 175-185), records at least one line; the first starts at that offset and the last ends at the end of the file |
| LineIndex.ScanFromTiles | src/loginsight/file.py:155-185 | the scan from any offset tiles the rest of the file and records decoded character lengths |
| LineIndex.ScanLoop | src/loginsight/file.py:143-187 | the source's `while` loop over `find`, followed by the final line, builds exactly the index of the recursive scan |
| LineIndex.LineIndexIsScan | src/loginsight/file.py:155-180 | any line index of a file has the scan's number of lines, starts and byte lengths: the index is determined by the bytes |
| LineIndex.LineIndexUnique | src/loginsight/file.py:155-180 | two line indexes of the same file agree on every start and byte length |
| LineIndex.TrailingNewlineLastLine | src/loginsight/file.py:139-140 | a file ending in a newline has, after at least one other line, a last line that starts at the file size and has 0 bytes |
| LineIndex.TilingIsScan | src/loginsight/file.py:156-180 | a tiling from any offset has the lines the scan records from there |
| LineIndex.FirstLineEndsAtFirstNewline | src/loginsight/file.py:156-166 | a tiling has a single line exactly when no newline follows its start; otherwise its first line ends at the first newline |
| LineIndex.LineCountIsNewlinesPlusOne | src/loginsight/file.py:156-180 | a non-empty file has exactly one more line than newline bytes |
| LineIndex.ByteLengthsAddUpToSize | src/loginsight/file.py:161-179 | for a non-empty file, the byte lengths plus one newline between each pair of lines add up to the file size |
| LineIndex.FileSplitsIntoLines | src/loginsight/file.py:155-180 | splitting a non-empty file on newlines gives exactly the byte slices of its indexed lines |
| LineIndex.FileIsJoinedLines | src/loginsight/file.py:155-180 | the indexed lines joined with newlines are the whole file |
| LineIndex.SpanLength | src/loginsight/file.py:116-122 | lines `s .. s+n-1` end at the first one's start plus their byte lengths plus `n - 1` |
| LineIndex.SpanIsJoinedLines | src/loginsight/file.py:116-125 | the bytes from line `s`'s start to line `s+n-1`'s end are those lines joined with newlines |
| LogFile.Longest | src/loginsight/file.py:35-40 | `max(xs) if xs else 0`: at least every element, and one of them when there is any; 0 for none |
| LogFile.ValidFileIsTiled | src/loginsight/file.py:143-144 | a constructed file with lines is non-empty and its lines tile it |
| LogFile.Open | src/loginsight/file.py:16-95 | the constructor yields a valid file: its index is the file's line index and the size summary agrees with it. The accessors `SizeInBytes`, `NumberOfLines`, `NumberOfBytesInLongestLine` and `NumberOfCharactersInLongestLine` (`size_in_bytes`, `number_of_lines`, `number_of_*_in_longest_line`) report the file's size, 0 lines and both maxima 0 for an empty file, and newlines + 1 lines otherwise |
| LogFile.PositionedRead | src/loginsight/file.py:125 | `os.pread`: at most `n` bytes, each the file's byte at `offset + i`, fewer only when the file ends first, none from at or past its end |
| LogFile.ReadRange | src/loginsight/file.py:97-125 | `ValueError` for `start < 0`, then for `count < 1`, whatever the file; then `EOFError` exactly when `start + count` exceeds the line count; otherwise the read is the requested lines joined with newlines and ends at the last one's end |
| LogFile.ReadSpan | src/loginsight/file.py:116-125 | the span read from the first line's start is exactly `sum(lengths) + count - 1` bytes long, so it is never cut short; it is the requested lines joined with newlines, and stops just before the newline after the last requested line or at the end of the file |
| LogFile.SpanNewlines | src/loginsight/file.py:116-125 | the span read holds exactly `number_of_lines - 1` newlines, one between each pair of requested lines |
| LogFile.LoadLineBytes | src/loginsight/file.py:111-127 | `load_lines` at byte level: succeeds exactly on in-range requests, failing otherwise with the checks' error; on success exactly `count` pieces, piece `i` the indexed bytes of line `start + i` |
| LogFile.LoadLines | src/loginsight/file.py:97-127 | `load_lines` as written, for any decoder: the same errors in the same order, success exactly on in-range requests, at most `count` strings |
| LogFile.DecodeJoin | src/loginsight/file.py:126 | under the line-by-line decoding assumption, decoding lines joined with newlines is joining their decodings with `\n` |
| LogFile.DecodedSpanSplitsIntoLines | src/loginsight/file.py:125-126 | under that assumption, the decoded span split on `\n` is the decodings of the requested lines |
| LogFile.LoadLinesDecodesEachLine | src/loginsight/file.py:97-127 | under that assumption, an in-range `load_lines` returns exactly `count` strings: string `i` is the decoding of line `start + i`, and its length is the character length the index recorded |
| FileCases.AsciiDecodesLineByLine | src/loginsight/file.py:189-191 | byte-for-character decoding of ASCII text meets the line-by-line assumption, so the assumption can be met |
| FileCases.InvalidParameters | test/test_file.py:17-24 | `load_lines(-1, 1)` and `load_lines(1, 0)` are `ValueError`s on any file |
| FileCases.EmptyFile | test/test_file.py:27-37 | the empty file has size 0, 0 lines and both maxima 0; `load_lines(0, 1)` is `EOFError`, as is every request with `start >= 0` and `count >= 1` |
| FileCases.NoNewline | test/test_file.py:40-54 | `"foo"`: size 3, 1 line, maxima 3; every run loads as its text, and any run past the last line is `EOFError` |
| FileCases.SingleNewline | test/test_file.py:56-74 | `"\n"`: 2 empty lines, maxima 0; every run loads as its text, and any run past the last line is `EOFError` |
| FileCases.TrailingNewline | test/test_file.py:76-98 | `"foo\n"`: lines `foo` and empty, maxima 3; every run loads as its text, and any run past the last line is `EOFError` |
| FileCases.LeadingNewline | test/test_file.py:100-122 | `"\nfoo"`: lines empty and `foo`, maxima 3; every run loads as its text, and any run past the last line is `EOFError` |
| FileCases.TwoLines | test/test_file.py:124-146 | `"foo\nbar"`: lines `foo` and `bar`, maxima 3; every run loads as its text, and any run past the last line is `EOFError` |
| FileCases.TwoNewlines | test/test_file.py:148-185 | `"\n\n"`: 3 empty lines, maxima 0; every run loads as its text, and any run past the last line is `EOFError` |
| FileCases.SurroundedByNewlines | test/test_file.py:187-224 | `"\nfoo\n"`: lines empty, `foo`, empty, maxima 3; every run loads as its text, and any run past the last line is `EOFError` |
| FileCases.Observed | test/test_file.py:40-224 | with the ASCII decoder, a file that is newline-free texts joined with newlines has one line per text, the longest text's length as both maxima, and loads every run of lines as the run of decoded texts |

## Left out

- I/O: `open`, `seek`/`tell`, `mmap`, `fileno` and `os.pread` on a real descriptor are replaced by an immutable byte sequence. I/O errors, files that change while open, and closing the file are not modelled.
- `_decode` (`src/loginsight/file.py:189-191`) is uninterpreted. Lossy UTF-8 decoding and tab expansion to 4 columns are library behaviour.
- `test_file_with_multibyte_character` (`test/test_file.py:226-240`): its character-length and decoded-line assertions need real UTF-8 decoding, so they are not modelled. Its 2 lines and its 12-byte longest line are byte-level facts that hold for any decoder, but no lemma works through that file.
- `LogFile.LoadLines`: for an arbitrary decoder it states only the errors and the `1 .. count` bound. That `load_lines` returns exactly `count` strings, each the decoding of its line, is proved only under the explicit assumption `DecodesLineByLine` (`LogFile.LoadLinesDecodesEachLine`). Decoding a block and then splitting it on `\n` is not per-line decoding for every decoder.
- The `path` property and the `size` property's dataclass identity: the `Size` value is modelled as a datatype, and the path is not modelled.
- The three parallel lists are one sequence of line descriptors, so their equal lengths hold by construction.
- `FileCases.AsciiDecode` stands in for UTF-8 decoding of ASCII bytes. It is not the library decoder.
- `src/loginsight/lineview.py`, `src/loginsight/app.py` and `src/loginsight/cli.py` are UI and command-line glue, and are not part of this model.
- Background scanning and caching exist only as TODO comments in the source.
