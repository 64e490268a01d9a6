/**
  The indexer of `File`: one forward scan over the file's bytes that records,
  for every line, where it starts, how many bytes it has (its terminating
  newline excluded) and how many characters it decodes to.

  The file is an immutable byte sequence; the memory mapping and the
  seek/read pairs the scan uses to look at it become slicing. Decoding (lossy
  UTF-8 followed by tab expansion) is left uninterpreted: it is a parameter
  of type `Decoder`.
 */
module LineIndex {
  import opened Seqs

  type byte = bv8

  /** The line delimiter `\n`. */
  const LF: byte := 0x0A

  /** Bytes to text, as `File._decode` does it. */
  type Decoder = seq<byte> -> seq<char>

  /** What the index records about one line. */
  datatype LineDescriptor = LineDescriptor(start: nat, byteLength: nat, charLength: nat)
  {
    /** Offset just past the line's last byte: its newline, or the end of the file. */
    function End(): nat
    {
      start + byteLength
    }
  }

  /** The bytes of one indexed line. */
  function Slice(content: seq<byte>, line: LineDescriptor): seq<byte>
    requires line.End() <= |content|
  {
    content[line.start..line.End()]
  }

  /** Every line lies inside the file. */
  ghost predicate InFile(content: seq<byte>, lines: seq<LineDescriptor>)
  {
    forall i :: 0 <= i < |lines| ==> lines[i].End() <= |content|
  }

  /** No line holds a newline. */
  ghost predicate NewlineFree(content: seq<byte>, lines: seq<LineDescriptor>)
    requires InFile(content, lines)
  {
    forall i :: 0 <= i < |lines| ==> LF !in Slice(content, lines[i])
  }

  /** Every line but the last is followed by a newline, and the next line starts just after it. */
  ghost predicate Delimited(content: seq<byte>, lines: seq<LineDescriptor>)
  {
    forall i :: 0 <= i < |lines| - 1 ==>
      && lines[i].End() < |content|
      && content[lines[i].End()] == LF
      && lines[i + 1].start == lines[i].End() + 1
  }

  /**
    `lines` cut `content[from..]` into newline-free pieces: the first starts
    at `from`, each but the last is followed by a newline and the next one
    starts just after it, and the last ends at the end of the file.
   */
  ghost predicate Tiles(content: seq<byte>, from: nat, lines: seq<LineDescriptor>)
  {
    && |lines| > 0
    && lines[0].start == from
    && InFile(content, lines)
    && NewlineFree(content, lines)
    && Delimited(content, lines)
    && lines[|lines| - 1].End() == |content|
  }

  /**
    The index a file must have: none for an empty file, otherwise lines that
    tile the whole file from offset 0.
   */
  ghost predicate IsLineIndex(content: seq<byte>, lines: seq<LineDescriptor>)
  {
    if |content| == 0 then lines == [] else Tiles(content, 0, lines)
  }

  /** Every recorded character length is the length of the line's decoded text. */
  ghost predicate CharLengthsDecoded(content: seq<byte>, lines: seq<LineDescriptor>, decode: Decoder)
    requires InFile(content, lines)
  {
    forall i :: 0 <= i < |lines| ==>
      lines[i].charLength == |decode(Slice(content, lines[i]))|
  }

  /** A first line followed by its newline, in front of a tiling of the rest. */
  lemma TilesCons(content: seq<byte>, line: LineDescriptor, rest: seq<LineDescriptor>)
    requires line.End() < |content| && content[line.End()] == LF && LF !in Slice(content, line)
    requires Tiles(content, line.End() + 1, rest)
    ensures Tiles(content, line.start, [line] + rest)
  {
    var lines := [line] + rest;
    assert forall i :: 1 <= i < |lines| ==> lines[i] == rest[i - 1];
  }

  /** Dropping the first line of a tiling leaves a tiling from just after its newline. */
  lemma TilesTail(content: seq<byte>, from: nat, lines: seq<LineDescriptor>)
    requires Tiles(content, from, lines) && |lines| > 1
    ensures Tiles(content, lines[0].End() + 1, lines[1..])
  {
    var rest := lines[1..];
    assert forall i :: 0 <= i < |rest| ==> rest[i] == lines[i + 1];
  }

  lemma CharLengthsCons(content: seq<byte>, line: LineDescriptor, rest: seq<LineDescriptor>, decode: Decoder)
    requires line.End() <= |content| && line.charLength == |decode(Slice(content, line))|
    requires InFile(content, rest) && CharLengthsDecoded(content, rest, decode)
    ensures InFile(content, [line] + rest)
    ensures CharLengthsDecoded(content, [line] + rest, decode)
  {
    var lines := [line] + rest;
    assert forall i :: 1 <= i < |lines| ==> lines[i] == rest[i - 1];
  }

  /** Descriptor of the line `content[start..end]`: one step of the scan. */
  function Measure(content: seq<byte>, start: nat, end: nat, decode: Decoder): LineDescriptor
    requires start <= end <= |content|
  {
    LineDescriptor(start, end - start, |decode(content[start..end])|)
  }

  /**
    The scan loop from offset `from` on: find the next newline; if there is
    one, record the line before it and go on after it; if not, record the
    final line up to the end of the file. It records at least one line; the
    first starts at `from` and the last ends at the end of the file.
   */
  function ScanFrom(content: seq<byte>, from: nat, decode: Decoder): (lines: seq<LineDescriptor>)
    requires from <= |content|
    ensures |lines| > 0 && lines[0].start == from && lines[|lines| - 1].End() == |content|
    decreases |content| - from
  {
    var newline := IndexOf(content, LF, from);
    if newline == -1 then [Measure(content, from, |content|, decode)]
    else [Measure(content, from, newline, decode)] + ScanFrom(content, newline + 1, decode)
  }

  /** What the scan from `from` records tiles the rest of the file, with decoded character lengths. */
  lemma {:induction false} ScanFromTiles(content: seq<byte>, from: nat, decode: Decoder)
    requires from <= |content|
    ensures Tiles(content, from, ScanFrom(content, from, decode))
    ensures CharLengthsDecoded(content, ScanFrom(content, from, decode), decode)
    decreases |content| - from
  {
    var newline := IndexOf(content, LF, from);
    if newline == -1 {
      var line := Measure(content, from, |content|, decode);
      assert ScanFrom(content, from, decode) == [line];
      NoNewlineBetween(content, from, |content|);
    } else {
      var line := Measure(content, from, newline, decode);
      var rest := ScanFrom(content, newline + 1, decode);
      assert ScanFrom(content, from, decode) == [line] + rest;
      ScanFromTiles(content, newline + 1, decode);
      NoNewlineBetween(content, from, newline);
      TilesCons(content, line, rest);
      CharLengthsCons(content, line, rest, decode);
    }
  }

  lemma NoNewlineBetween(content: seq<byte>, a: nat, b: nat)
    requires a <= b <= |content|
    requires forall i :: a <= i < b ==> content[i] != LF
    ensures LF !in content[a..b]
  {
    assert forall k :: 0 <= k < b - a ==> content[a..b][k] == content[a + k];
  }

  /** The whole scan: no lines for an empty file, else the scan from offset 0. */
  function ScanLinePositions(content: seq<byte>, decode: Decoder): (lines: seq<LineDescriptor>)
    ensures IsLineIndex(content, lines)
    ensures CharLengthsDecoded(content, lines, decode)
  {
    if |content| == 0 then []
    else
      ScanFromTiles(content, 0, decode);
      ScanFrom(content, 0, decode)
  }

  /**
    The scan written as the source's loop: `previous` is the offset of the
    last newline found (-1 before the first), and each newline found appends
    the line before it. It computes the recursive scan, so the index it
    builds has every property of `ScanLinePositions`.
   */
  method ScanLoop(content: seq<byte>, decode: Decoder) returns (lines: seq<LineDescriptor>)
    ensures lines == ScanLinePositions(content, decode)
  {
    if |content| == 0 {
      return [];
    }
    lines := [];
    ghost var whole := ScanFrom(content, 0, decode);
    var start := 0;
    var newline := IndexOf(content, LF, 0);
    while newline != -1
      invariant 0 <= start <= |content|
      invariant newline == IndexOf(content, LF, start)
      invariant Scanned(content, decode, lines, start, whole)
      decreases |content| - start
    {
      ghost var done, from := lines, start;
      lines := lines + [Measure(content, start, newline, decode)];
      start := newline + 1;
      ScanLoopStep(content, decode, done, from, newline, whole, lines, start);
      newline := IndexOf(content, LF, start);
    }
    ScanLoopLast(content, decode, lines, start, whole);
    lines := lines + [Measure(content, start, |content|, decode)];
  }

  /** The lines found so far followed by the scan from `start` make up the whole scan. */
  ghost predicate Scanned(content: seq<byte>, decode: Decoder, lines: seq<LineDescriptor>, start: nat, whole: seq<LineDescriptor>)
    requires start <= |content|
  {
    lines + ScanFrom(content, start, decode) == whole
  }

  /** A newline found from `from` on moves the line before it from the scan still to do onto the lines found. */
  lemma ScanLoopStep(
    content: seq<byte>, decode: Decoder, lines: seq<LineDescriptor>, from: nat, newline: int, whole: seq<LineDescriptor>,
    lines': seq<LineDescriptor>, from': nat)
    requires from <= |content| && newline == IndexOf(content, LF, from) && newline != -1
    requires Scanned(content, decode, lines, from, whole)
    requires from' == newline + 1 && lines' == lines + [Measure(content, from, newline, decode)]
    ensures from' <= |content| && Scanned(content, decode, lines', from', whole)
  {
    var line := Measure(content, from, newline, decode);
    var rest := ScanFrom(content, newline + 1, decode);
    ScanFromStep(content, from, decode);
    MoveFirst(lines, line, rest, whole);
  }

  /** Moving the first element still to do onto the done part keeps the whole. */
  lemma MoveFirst<T>(done: seq<T>, x: T, todo: seq<T>, whole: seq<T>)
    requires done + ([x] + todo) == whole
    ensures (done + [x]) + todo == whole
  {
    assert done + ([x] + todo) == (done + [x]) + todo;
  }

  /** With no newline left, the last line completes the scan. */
  lemma ScanLoopLast(content: seq<byte>, decode: Decoder, lines: seq<LineDescriptor>, from: nat, whole: seq<LineDescriptor>)
    requires from <= |content| && IndexOf(content, LF, from) == -1
    requires Scanned(content, decode, lines, from, whole)
    ensures lines + [Measure(content, from, |content|, decode)] == whole
  {
    ScanFromStep(content, from, decode);
  }

  /** One step of the scan: the line up to the next newline, or the final line. */
  lemma ScanFromStep(content: seq<byte>, from: nat, decode: Decoder)
    requires from <= |content|
    ensures
      var newline := IndexOf(content, LF, from);
      if newline == -1 then
        ScanFrom(content, from, decode) == [Measure(content, from, |content|, decode)]
      else
        ScanFrom(content, from, decode)
          == [Measure(content, from, newline, decode)] + ScanFrom(content, newline + 1, decode)
  {
  }

  /** The pieces of the file the index cuts out, in file order. */
  function Slices(content: seq<byte>, lines: seq<LineDescriptor>): (pieces: seq<seq<byte>>)
    requires InFile(content, lines)
    ensures |pieces| == |lines|
    ensures forall i :: 0 <= i < |lines| ==> pieces[i] == Slice(content, lines[i])
  {
    seq(|lines|, i requires 0 <= i < |lines| => Slice(content, lines[i]))
  }

  /** Sum of the byte lengths of `lines`. */
  function SumOfByteLengths(lines: seq<LineDescriptor>): nat
  {
    if |lines| == 0 then 0 else lines[0].byteLength + SumOfByteLengths(lines[1..])
  }

  /**
    The span from the start of line `s` to the end of line `s + n - 1` is
    the `n` line lengths plus the `n - 1` newlines between them.
   */
  lemma {:induction false} SpanLength(content: seq<byte>, lines: seq<LineDescriptor>, s: nat, n: nat)
    requires Delimited(content, lines)
    requires 1 <= n && s + n <= |lines|
    ensures lines[s + n - 1].End() == lines[s].start + SumOfByteLengths(lines[s..s + n]) + n - 1
    decreases n
  {
    var part := lines[s..s + n];
    assert SumOfByteLengths(part) == lines[s].byteLength + SumOfByteLengths(part[1..]);
    if n > 1 {
      SpanLength(content, lines, s + 1, n - 1);
      assert part[1..] == lines[s + 1..s + n];
    }
  }

  /** The bytes of that span are the `n` lines joined with newlines. */
  lemma {:induction false} SpanIsJoinedLines(content: seq<byte>, lines: seq<LineDescriptor>, s: nat, n: nat)
    requires InFile(content, lines) && Delimited(content, lines)
    requires 1 <= n && s + n <= |lines|
    ensures lines[s].start <= lines[s + n - 1].End()
    ensures content[lines[s].start..lines[s + n - 1].End()] == Join(Slices(content, lines[s..s + n]), LF)
    decreases n
  {
    var part := lines[s..s + n];
    var pieces := Slices(content, part);
    if n == 1 {
      assert pieces == [Slice(content, lines[s])];
    } else {
      var tail := lines[s + 1..s + n];
      SpanIsJoinedLines(content, lines, s + 1, n - 1);
      var a, m, b := lines[s].start, lines[s].End(), lines[s + n - 1].End();
      assert content[m] == LF && lines[s + 1].start == m + 1;
      assert pieces[0] == content[a..m];
      assert pieces[1..] == Slices(content, tail);
      assert Join(pieces, LF) == content[a..m] + [LF] + content[m + 1..b];
      assert content[a..b] == content[a..m] + [LF] + content[m + 1..b];
    }
  }

  /** A tiling of a whole non-empty file: its lines joined with newlines are the file. */
  lemma FileIsJoinedLines(content: seq<byte>, lines: seq<LineDescriptor>)
    requires |content| > 0 && IsLineIndex(content, lines)
    ensures Join(Slices(content, lines), LF) == content
  {
    var n := |lines|;
    assert lines[0..n] == lines;
    SpanIsJoinedLines(content, lines, 0, n);
    var first, last := lines[0].start, lines[n - 1].End();
    assert first == 0 && last == |content|;
    assert content[first..last] == content;
  }

  /** Splitting a non-empty file on newlines gives exactly the lines of its index. */
  lemma FileSplitsIntoLines(content: seq<byte>, lines: seq<LineDescriptor>)
    requires |content| > 0 && IsLineIndex(content, lines)
    ensures Split(content, LF) == Slices(content, lines)
  {
    var pieces := Slices(content, lines);
    forall i | 0 <= i < |lines|
      ensures LF !in pieces[i]
    {
      assert pieces[i] == Slice(content, lines[i]);
    }
    FileIsJoinedLines(content, lines);
    SplitOfJoin(content, pieces, LF);
  }

  /** A non-empty file has one line more than it has newlines. */
  lemma LineCountIsNewlinesPlusOne(content: seq<byte>, lines: seq<LineDescriptor>)
    requires |content| > 0 && IsLineIndex(content, lines)
    ensures |lines| == Count(content, LF) + 1
  {
    FileSplitsIntoLines(content, lines);
  }

  /** The line lengths and the newlines between them add up to the file size. */
  lemma ByteLengthsAddUpToSize(content: seq<byte>, lines: seq<LineDescriptor>)
    requires |content| > 0 && IsLineIndex(content, lines)
    ensures SumOfByteLengths(lines) + |lines| - 1 == |content|
  {
    SpanLength(content, lines, 0, |lines|);
    assert lines[0..|lines|] == lines;
  }

  /**
    A tiling is determined by the file: the first line of a tiling from
    `from` ends at the first newline at or after `from`, or at the end of
    the file when there is none.
   */
  lemma {:induction false} FirstLineEndsAtFirstNewline(content: seq<byte>, from: nat, lines: seq<LineDescriptor>)
    requires Tiles(content, from, lines)
    ensures |lines| == 1 <==> IndexOf(content, LF, from) == -1
    ensures |lines| > 1 ==> lines[0].End() == IndexOf(content, LF, from)
  {
    var first := lines[0];
    assert forall i :: from <= i < first.End() ==> content[i] == Slice(content, first)[i - from];
    if |lines| > 1 {
      assert content[first.End()] == LF;
    } else {
      assert first.End() == |content|;
    }
  }

  /** `a` and `b` cut the same pieces: same number, same starts, same byte lengths. */
  ghost predicate SameCuts(a: seq<LineDescriptor>, b: seq<LineDescriptor>)
  {
    && |a| == |b|
    && forall i :: 0 <= i < |a| ==> a[i].start == b[i].start && a[i].byteLength == b[i].byteLength
  }

  /** Agreeing first lines in front of agreeing rests agree. */
  lemma SameCutsCons(a: seq<LineDescriptor>, first: LineDescriptor, rest: seq<LineDescriptor>)
    requires |a| > 0 && a[0].start == first.start && a[0].byteLength == first.byteLength
    requires SameCuts(a[1..], rest)
    ensures SameCuts(a, [first] + rest)
  {
    var b := [first] + rest;
    forall i | 1 <= i < |a|
      ensures a[i].start == b[i].start && a[i].byteLength == b[i].byteLength
    {
      assert a[i] == a[1..][i - 1] && b[i] == rest[i - 1];
    }
  }

  /**
    Any tiling of `content[from..]` has the lines the scan records: same
    number, same starts, same byte lengths.
   */
  lemma {:induction false} TilingIsScan(content: seq<byte>, from: nat, lines: seq<LineDescriptor>, decode: Decoder)
    requires Tiles(content, from, lines)
    ensures from <= |content|
    ensures SameCuts(lines, ScanFrom(content, from, decode))
    decreases |lines|
  {
    var newline := IndexOf(content, LF, from);
    FirstLineEndsAtFirstNewline(content, from, lines);
    ScanFromStep(content, from, decode);
    if |lines| > 1 {
      var next := newline + 1;
      TilesTail(content, from, lines);
      TilingIsScan(content, next, lines[1..], decode);
      SameCutsCons(lines, Measure(content, from, newline, decode), ScanFrom(content, next, decode));
    }
  }

  /** The index of a file is unique: any line index has the scan's starts and lengths. */
  lemma LineIndexIsScan(content: seq<byte>, lines: seq<LineDescriptor>, decode: Decoder)
    requires IsLineIndex(content, lines)
    ensures |lines| == |ScanLinePositions(content, decode)|
    ensures forall i :: 0 <= i < |lines| ==>
      lines[i].start == ScanLinePositions(content, decode)[i].start &&
      lines[i].byteLength == ScanLinePositions(content, decode)[i].byteLength
  {
    if |content| > 0 {
      TilingIsScan(content, 0, lines, decode);
      assert SameCuts(lines, ScanLinePositions(content, decode));
    }
  }

  /**
    A file ending in a newline has a last line that starts at the file size
    and is empty, after at least one other line.
   */
  lemma TrailingNewlineLastLine(content: seq<byte>, lines: seq<LineDescriptor>)
    requires |content| > 0 && content[|content| - 1] == LF && IsLineIndex(content, lines)
    ensures |lines| > 1
    ensures lines[|lines| - 1].start == |content| && lines[|lines| - 1].byteLength == 0
  {
    LastLineHoldsFinalByte(content, lines[|lines| - 1]);
  }

  /** A non-empty line running to the end of the file holds its final byte. */
  lemma LastLineHoldsFinalByte(content: seq<byte>, line: LineDescriptor)
    requires |content| > 0 && line.End() == |content|
    ensures line.byteLength > 0 ==> content[|content| - 1] in Slice(content, line)
  {
    if line.byteLength > 0 {
      assert Slice(content, line)[line.byteLength - 1] == content[|content| - 1];
    }
  }

  /** Two line indexes of the same file agree on every start and byte length. */
  lemma LineIndexUnique(content: seq<byte>, a: seq<LineDescriptor>, b: seq<LineDescriptor>)
    requires IsLineIndex(content, a) && IsLineIndex(content, b)
    ensures |a| == |b|
    ensures forall i :: 0 <= i < |a| ==> a[i].start == b[i].start && a[i].byteLength == b[i].byteLength
  {
    var decode: Decoder := _ => [];
    LineIndexIsScan(content, a, decode);
    LineIndexIsScan(content, b, decode);
  }
}
