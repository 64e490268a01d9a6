/**
  The `File` class of LogInsight: a file opened once, indexed once by
  `LineIndex`, then asked for arbitrary runs of consecutive lines.

  A `File` value is what the constructor leaves behind: the file's bytes
  (standing for the open handle), the decoder, the line index and the size
  summary. Reading a run of lines is a positioned read of one byte span,
  modelled on the bytes; the result or the error is a `Result`.
 */
module LogFile {
  import opened Seqs
  import opened LineIndex

  /** Length of the longest line, in bytes and in decoded characters. */
  datatype LineSize = LineSize(inBytes: nat, inCharacters: nat)

  /** The size summary the constructor computes. */
  datatype Size = Size(totalSizeInBytes: nat, numberOfLines: nat, sizeOfLongestLine: LineSize)

  /** Why `load_lines` refused a request: two `ValueError`s and the `EOFError`. */
  datatype Error =
    | InvalidStartLine(start: int)
    | InvalidLineCount(count: int)
    | EndOfFile

  datatype Result<T> = Ok(value: T) | Err(error: Error)

  datatype File = File(content: seq<byte>, decode: Decoder, lines: seq<LineDescriptor>, size: Size)
  {
    /** What construction guarantees: the index is the file's, and the summary agrees with it. */
    ghost predicate Valid()
    {
      && IsLineIndex(content, lines)
      && CharLengthsDecoded(content, lines, decode)
      && size.totalSizeInBytes == |content|
      && size.numberOfLines == |lines|
      && IsLongest(ByteLengths(lines), size.sizeOfLongestLine.inBytes)
      && IsLongest(CharLengths(lines), size.sizeOfLongestLine.inCharacters)
    }

    function SizeInBytes(): nat
    {
      size.totalSizeInBytes
    }

    function NumberOfLines(): nat
    {
      |lines|
    }

    function NumberOfBytesInLongestLine(): nat
    {
      size.sizeOfLongestLine.inBytes
    }

    function NumberOfCharactersInLongestLine(): nat
    {
      size.sizeOfLongestLine.inCharacters
    }
  }

  /** A valid file with lines is non-empty and its lines tile it. */
  lemma ValidFileIsTiled(f: File)
    requires f.Valid() && |f.lines| > 0
    ensures |f.content| > 0 && Tiles(f.content, 0, f.lines)
  {
  }

  /** `m` is the largest element of `s`, or 0 when `s` is empty. */
  ghost predicate IsLongest(s: seq<nat>, m: nat)
  {
    && (forall i :: 0 <= i < |s| ==> s[i] <= m)
    && (if |s| == 0 then m == 0 else m in s)
  }

  /** `max(s) if s else 0`. */
  function Longest(s: seq<nat>): (m: nat)
    ensures IsLongest(s, m)
  {
    if |s| == 0 then 0
    else
      var rest := Longest(s[1..]);
      assert forall i :: 1 <= i < |s| ==> s[i] == s[1..][i - 1];
      if |s| == 1 || s[0] >= rest then s[0] else rest
  }

  function ByteLengths(lines: seq<LineDescriptor>): (r: seq<nat>)
    ensures |r| == |lines| && forall i :: 0 <= i < |lines| ==> r[i] == lines[i].byteLength
  {
    seq(|lines|, i requires 0 <= i < |lines| => lines[i].byteLength)
  }

  function CharLengths(lines: seq<LineDescriptor>): (r: seq<nat>)
    ensures |r| == |lines| && forall i :: 0 <= i < |lines| ==> r[i] == lines[i].charLength
  {
    seq(|lines|, i requires 0 <= i < |lines| => lines[i].charLength)
  }

  /**
    The constructor: measure the file, scan it, and take the longest-line
    maxima, each 0 for an empty file.
   */
  function Open(content: seq<byte>, decode: Decoder): (f: File)
    ensures f.Valid() && f.content == content && f.decode == decode
    ensures f.SizeInBytes() == |content|
    ensures |content| == 0 ==>
      f.NumberOfLines() == 0 && f.NumberOfBytesInLongestLine() == 0 && f.NumberOfCharactersInLongestLine() == 0
    ensures |content| > 0 ==> f.NumberOfLines() == Count(content, LF) + 1
  {
    var lines := ScanLinePositions(content, decode);
    assert |content| > 0 ==> |lines| == Count(content, LF) + 1 by {
      if |content| > 0 {
        LineCountIsNewlinesPlusOne(content, lines);
      }
    }
    var longest := LineSize(Longest(ByteLengths(lines)), Longest(CharLengths(lines)));
    File(content, decode, lines, Size(|content|, |lines|, longest))
  }

  /**
    `os.pread(fd, n, offset)`: up to `n` bytes from `offset`, fewer when the
    file ends first, none from at or past its end.
   */
  function PositionedRead(content: seq<byte>, n: nat, offset: nat): (r: seq<byte>)
    ensures |r| <= n
    ensures offset >= |content| ==> r == []
    ensures offset < |content| ==> offset + |r| <= |content| && (|r| == n || offset + |r| == |content|)
    ensures forall i :: 0 <= i < |r| ==> r[i] == content[offset + i]
  {
    if offset >= |content| then []
    else if offset + n <= |content| then content[offset..offset + n]
    else content[offset..]
  }

  /** The request names `count >= 1` lines from `start >= 0`, all of them present. */
  predicate InRange(f: File, start: int, count: int)
  {
    0 <= start && 1 <= count && start + count <= |f.lines|
  }

  /**
    The checks and the read of `load_lines`: both argument checks first,
    then the end-of-file check, then one positioned read of the lines'
    lengths plus the newlines between them, from the first line's start.
    The span read is exactly the requested lines joined with newlines.
   */
  function ReadRange(f: File, start: int, count: int): (r: Result<seq<byte>>)
    requires f.Valid()
    ensures start < 0 ==> r == Err(InvalidStartLine(start))
    ensures 0 <= start && count < 1 ==> r == Err(InvalidLineCount(count))
    ensures 0 <= start && 1 <= count ==> (r == Err(EndOfFile) <==> start + count > f.NumberOfLines())
    ensures r.Ok? <==> InRange(f, start, count)
    ensures r.Ok? ==>
      && f.lines[start].start + |r.value| == f.lines[start + count - 1].End()
      && r.value == Join(Slices(f.content, f.lines[start..start + count]), LF)
  {
    if start < 0 then Err(InvalidStartLine(start))
    else if count < 1 then Err(InvalidLineCount(count))
    else if start + count > |f.lines| then Err(EndOfFile)
    else
      ValidFileIsTiled(f);
      Ok(ReadSpan(f.content, f.lines, start, count))
  }

  /**
    The span arithmetic of `load_lines`: the lengths of the requested lines
    plus one newline between each pair, read at the first line's start. The
    read is never cut short, is exactly the requested lines joined with
    newlines, and stops just before the newline after the last of them, or
    at the end of the file.
   */
  function ReadSpan(content: seq<byte>, lines: seq<LineDescriptor>, start: nat, count: nat): (raw: seq<byte>)
    requires Tiles(content, 0, lines)
    requires 1 <= count && start + count <= |lines|
    ensures |raw| == SumOfByteLengths(lines[start..start + count]) + count - 1
    ensures lines[start].start + |raw| == lines[start + count - 1].End()
    ensures raw == Join(Slices(content, lines[start..start + count]), LF)
    ensures
      var after := lines[start].start + |raw|;
      after == |content| || (after < |content| && content[after] == LF)
  {
    var numberOfNewlines := count - 1;
    var requested := SumOfByteLengths(lines[start..start + count]) + numberOfNewlines;
    var startAtByte := lines[start].start;
    SpanLength(content, lines, start, count);
    SpanIsJoinedLines(content, lines, start, count);
    var end := lines[start + count - 1].End();
    assert end < |content| ==> content[end] == LF by {
      if start + count < |lines| {
        assert content[end] == LF;
      }
    }
    PositionedRead(content, requested, startAtByte)
  }

  /**
    `load_lines` on bytes: the span split on newlines, first `count` pieces.
    Each piece is exactly the indexed bytes of the corresponding line.
   */
  function LoadLineBytes(f: File, start: int, count: int): (r: Result<seq<seq<byte>>>)
    requires f.Valid()
    ensures r.Ok? <==> InRange(f, start, count)
    ensures r.Err? ==> r.error == ReadRange(f, start, count).error
    ensures r.Ok? ==>
      && |r.value| == count
      && forall i :: 0 <= i < count ==> r.value[i] == Slice(f.content, f.lines[start + i])
  {
    match ReadRange(f, start, count)
    case Err(e) => Err(e)
    case Ok(raw) =>
      ValidFileIsTiled(f);
      SpanLoadsAsLines(f.content, f.lines, start, count);
      Ok(Prefix(Split(raw, LF), count))
  }

  /** The span read holds exactly the `count - 1` newlines between the requested lines. */
  lemma SpanNewlines(content: seq<byte>, lines: seq<LineDescriptor>, start: nat, count: nat)
    requires Tiles(content, 0, lines)
    requires 1 <= count && start + count <= |lines|
    ensures Count(ReadSpan(content, lines, start, count), LF) == count - 1
  {
    SpanPieces(content, lines, start, count);
    JoinCount(Slices(content, lines[start..start + count]), LF);
  }

  /** The first `count` pieces of the span of `count` lines, split on newlines, are those lines' bytes. */
  lemma SpanLoadsAsLines(content: seq<byte>, lines: seq<LineDescriptor>, start: nat, count: nat)
    requires Tiles(content, 0, lines)
    requires 1 <= count && start + count <= |lines|
    ensures InFile(content, lines[start..start + count])
    ensures
      var loaded := Prefix(Split(Join(Slices(content, lines[start..start + count]), LF), LF), count);
      |loaded| == count && forall i :: 0 <= i < count ==> loaded[i] == Slice(content, lines[start + i])
  {
    SpanSplitsIntoLines(content, lines, start, count);
    SpanPieces(content, lines, start, count);
  }

  /** The pieces of a span of lines are those lines' bytes, none holding a newline. */
  lemma SpanPieces(content: seq<byte>, lines: seq<LineDescriptor>, start: nat, count: nat)
    requires Tiles(content, 0, lines)
    requires 1 <= count && start + count <= |lines|
    ensures InFile(content, lines[start..start + count])
    ensures
      var pieces := Slices(content, lines[start..start + count]);
      forall i :: 0 <= i < count ==> pieces[i] == Slice(content, lines[start + i]) && LF !in pieces[i]
  {
    var span := lines[start..start + count];
    assert forall i :: 0 <= i < count ==> span[i] == lines[start + i];
  }

  /** Splitting a span of lines joined with newlines gives back the lines. */
  lemma SpanSplitsIntoLines(content: seq<byte>, lines: seq<LineDescriptor>, start: nat, count: nat)
    requires Tiles(content, 0, lines)
    requires 1 <= count && start + count <= |lines|
    ensures InFile(content, lines[start..start + count])
    ensures
      var pieces := Slices(content, lines[start..start + count]);
      Split(Join(pieces, LF), LF) == pieces
  {
    SpanPieces(content, lines, start, count);
    SplitJoin(Slices(content, lines[start..start + count]), LF);
  }

  /** The newline character the decoded span is split on. */
  const NewlineChar: char := '\n'

  /**
    `load_lines` as written: decode the span, split the text on `\n`, keep
    the first `count` pieces. Whatever the decoder, the errors are those of
    the checks, and at most `count` strings come back.
   */
  function LoadLines(f: File, start: int, count: int): (r: Result<seq<string>>)
    requires f.Valid()
    ensures start < 0 ==> r == Err(InvalidStartLine(start))
    ensures 0 <= start && count < 1 ==> r == Err(InvalidLineCount(count))
    ensures 0 <= start && 1 <= count ==> (r == Err(EndOfFile) <==> start + count > f.NumberOfLines())
    ensures r.Ok? <==> InRange(f, start, count)
    ensures r.Ok? ==> 1 <= |r.value| <= count
  {
    match ReadRange(f, start, count)
    case Err(e) => Err(e)
    case Ok(raw) => Ok(Prefix(Split(f.decode(raw), NewlineChar), count))
  }

  /**
    The decoder keeps lines apart: text without a newline byte decodes to
    text without `\n`, and a newline byte decodes to `\n` with each side
    decoded on its own. Lossy UTF-8 decoding followed by tab expansion has
    this shape, because the newline byte is never part of a multi-byte
    sequence and tab stops restart after every `\n`; here it is an
    assumption, not a proved fact.
   */
  ghost predicate DecodesLineByLine(decode: Decoder)
  {
    && (forall b: seq<byte> :: LF !in b ==> NewlineChar !in decode(b))
    && (forall a: seq<byte>, b: seq<byte> :: LF !in a ==>
          decode(a + [LF] + b) == decode(a) + [NewlineChar] + decode(b))
  }

  function DecodeEach(decode: Decoder, parts: seq<seq<byte>>): (r: seq<string>)
    ensures |r| == |parts| && forall i :: 0 <= i < |parts| ==> r[i] == decode(parts[i])
  {
    seq(|parts|, i requires 0 <= i < |parts| => decode(parts[i]))
  }

  /** Under that assumption, decoding joined lines is joining the decoded lines. */
  lemma {:induction false} DecodeJoin(decode: Decoder, parts: seq<seq<byte>>)
    requires DecodesLineByLine(decode)
    requires |parts| > 0 && forall i :: 0 <= i < |parts| ==> LF !in parts[i]
    ensures decode(Join(parts, LF)) == Join(DecodeEach(decode, parts), NewlineChar)
  {
    if |parts| > 1 {
      DecodeJoin(decode, parts[1..]);
      assert DecodeEach(decode, parts)[1..] == DecodeEach(decode, parts[1..]);
      assert LF !in parts[0];
    }
  }

  /** Under that assumption, the decoded span splits into the decoded requested lines. */
  lemma DecodedSpanSplitsIntoLines(content: seq<byte>, lines: seq<LineDescriptor>, decode: Decoder, start: nat, count: nat)
    requires Tiles(content, 0, lines) && DecodesLineByLine(decode)
    requires 1 <= count && start + count <= |lines|
    ensures Split(decode(ReadSpan(content, lines, start, count)), NewlineChar)
         == DecodeEach(decode, Slices(content, lines[start..start + count]))
  {
    SpanPieces(content, lines, start, count);
    var parts := Slices(content, lines[start..start + count]);
    DecodeJoin(decode, parts);
    SplitJoin(DecodeEach(decode, parts), NewlineChar);
  }

  /**
    Under that assumption, `load_lines` returns exactly `count` strings, the
    `i`-th being the decoded text of line `start + i`, as long as the index
    says it is.
   */
  lemma LoadLinesDecodesEachLine(f: File, start: int, count: int)
    requires f.Valid() && DecodesLineByLine(f.decode)
    requires InRange(f, start, count)
    ensures LoadLines(f, start, count).Ok?
    ensures |LoadLines(f, start, count).value| == count
    ensures forall i :: 0 <= i < count ==>
      && LoadLines(f, start, count).value[i] == f.decode(Slice(f.content, f.lines[start + i]))
      && |LoadLines(f, start, count).value[i]| == f.lines[start + i].charLength
  {
    ValidFileIsTiled(f);
    DecodedSpanSplitsIntoLines(f.content, f.lines, f.decode, start, count);
    var decoded := DecodeEach(f.decode, Slices(f.content, f.lines[start..start + count]));
    assert LoadLines(f, start, count).value == Prefix(decoded, count) == decoded;
  }
}
