/**
  The degenerate files the unit tests of `File` pin down, worked through the
  model with a concrete decoder. These test files are tab-free ASCII, where
  UTF-8 decoding followed by tab expansion maps each byte to the character
  with the same code, so `AsciiDecode` stands in for the real decoder here.
 */
module FileCases {
  import opened Seqs
  import opened LineIndex
  import opened LogFile

  /** Each byte to the character with the same code: UTF-8 decoding of ASCII text. */
  function AsciiDecode(b: seq<byte>): (s: string)
    ensures |s| == |b|
    ensures forall i :: 0 <= i < |b| ==> s[i] as int == b[i] as int
  {
    seq(|b|, i requires 0 <= i < |b| => (b[i] as int) as char)
  }

  /** The bytes of "foo" and of "bar". */
  const Foo: seq<byte> := [0x66, 0x6F, 0x6F]
  const Bar: seq<byte> := [0x62, 0x61, 0x72]

  /** The ASCII decoder meets the line-by-line assumption, so the assumption is not vacuous. */
  lemma AsciiDecodesLineByLine()
    ensures DecodesLineByLine(AsciiDecode)
  {
    forall b: seq<byte> | LF !in b
      ensures NewlineChar !in AsciiDecode(b)
    {
      var s := AsciiDecode(b);
      forall i | 0 <= i < |s|
        ensures s[i] != NewlineChar
      {
        assert b[i] != LF;
      }
    }
    forall a: seq<byte>, b: seq<byte> | LF !in a
      ensures AsciiDecode(a + [LF] + b) == AsciiDecode(a) + [NewlineChar] + AsciiDecode(b)
    {
    }
  }

  /** `test_invalid_parameters_of_lines`: the argument checks fire on any file. */
  lemma InvalidParameters(content: seq<byte>, decode: Decoder)
    ensures LoadLines(Open(content, decode), -1, 1) == Err(InvalidStartLine(-1))
    ensures LoadLines(Open(content, decode), 1, 0) == Err(InvalidLineCount(0))
  {
  }

  /** `test_empty_file`: no size, no lines, and every valid request is past the end. */
  lemma EmptyFile(decode: Decoder)
    ensures Open([], decode).SizeInBytes() == 0
    ensures Open([], decode).NumberOfLines() == 0
    ensures Open([], decode).NumberOfBytesInLongestLine() == 0
    ensures Open([], decode).NumberOfCharactersInLongestLine() == 0
    ensures LoadLines(Open([], decode), 0, 1) == Err(EndOfFile)
    ensures forall start, count :: 0 <= start && 1 <= count ==>
      LoadLines(Open([], decode), start, count) == Err(EndOfFile)
  {
  }

  /**
    `f` is a file of ASCII text whose bytes are the newline-free `texts`
    joined with newlines.
   */
  ghost predicate MadeOf(f: File, texts: seq<seq<byte>>)
  {
    && f.Valid() && f.decode == AsciiDecode
    && |texts| > 0 && (forall i :: 0 <= i < |texts| ==> LF !in texts[i])
    && f.content == Join(texts, LF) && |f.content| > 0
  }

  /**
    A file made of `texts` has one line per text, each the bytes of that
    text, and (ASCII text being one character per byte) as many characters
    as bytes.
   */
  lemma HasLines(f: File, texts: seq<seq<byte>>)
    requires MadeOf(f, texts)
    ensures |f.lines| == |texts|
    ensures forall i :: 0 <= i < |texts| ==>
      && Slice(f.content, f.lines[i]) == texts[i]
      && f.lines[i].byteLength == |texts[i]|
      && f.lines[i].charLength == |texts[i]|
  {
    ValidFileIsTiled(f);
    FileSplitsIntoLines(f.content, f.lines);
    SplitJoin(texts, LF);
    var pieces := Slices(f.content, f.lines);
    assert pieces == texts;
    forall i | 0 <= i < |texts|
      ensures Slice(f.content, f.lines[i]) == texts[i]
      ensures f.lines[i].byteLength == |texts[i]|
      ensures f.lines[i].charLength == |texts[i]|
    {
      assert pieces[i] == Slice(f.content, f.lines[i]);
      assert f.lines[i].charLength == |f.decode(Slice(f.content, f.lines[i]))|;
    }
  }

  /**
    A file made of `texts` has one line per text, and when text `k` is at
    least as long as every text, its length is both maxima.
   */
  lemma LongestLineIs(f: File, texts: seq<seq<byte>>, k: nat)
    requires MadeOf(f, texts) && k < |texts|
    requires forall i :: 0 <= i < |texts| ==> |texts[i]| <= |texts[k]|
    ensures f.NumberOfLines() == |texts|
    ensures f.NumberOfBytesInLongestLine() == |texts[k]|
    ensures f.NumberOfCharactersInLongestLine() == |texts[k]|
  {
    HasLines(f, texts);
    var bytes, chars := ByteLengths(f.lines), CharLengths(f.lines);
    var j :| 0 <= j < |bytes| && bytes[j] == f.NumberOfBytesInLongestLine();
    var l :| 0 <= l < |chars| && chars[l] == f.NumberOfCharactersInLongestLine();
    assert bytes[k] <= f.NumberOfBytesInLongestLine();
    assert chars[k] <= f.NumberOfCharactersInLongestLine();
  }

  /**
    On a file made of `texts`, whose ASCII decodings are `decoded`, a run of
    lines inside the file loads as the matching run of decoded texts and a
    run past the last line reports the end of the file.
   */
  lemma LoadsRuns(f: File, texts: seq<seq<byte>>, decoded: seq<string>, start: int, count: int)
    requires MadeOf(f, texts)
    requires |decoded| == |texts| && forall j :: 0 <= j < |texts| ==> AsciiDecode(texts[j]) == decoded[j]
    requires 0 <= start && 1 <= count
    ensures start + count <= |texts| ==> LoadLines(f, start, count) == Ok(decoded[start..start + count])
    ensures start + count > |texts| ==> LoadLines(f, start, count) == Err(EndOfFile)
  {
    HasLines(f, texts);
    if start + count <= |texts| {
      LoadsRun(f, texts, decoded, start, count);
    }
  }

  /** The in-file half of `LoadsRuns`. */
  lemma LoadsRun(f: File, texts: seq<seq<byte>>, decoded: seq<string>, start: nat, count: nat)
    requires MadeOf(f, texts)
    requires |decoded| == |texts| && forall j :: 0 <= j < |texts| ==> AsciiDecode(texts[j]) == decoded[j]
    requires 1 <= count && start + count <= |texts|
    ensures LoadLines(f, start, count) == Ok(decoded[start..start + count])
  {
    HasLines(f, texts);
    AsciiDecodesLineByLine();
    LoadLinesDecodesEachLine(f, start, count);
    var loaded := LoadLines(f, start, count).value;
    var expected := decoded[start..start + count];
    forall i | 0 <= i < count
      ensures loaded[i] == expected[i]
    {
      assert Slice(f.content, f.lines[start + i]) == texts[start + i];
    }
    assert loaded == expected;
  }

  lemma DecodeFooBar()
    ensures AsciiDecode([]) == ""
    ensures AsciiDecode(Foo) == "foo"
    ensures AsciiDecode(Bar) == "bar"
  {
    assert AsciiDecode(Foo)[0] == 'f' && AsciiDecode(Foo)[1] == 'o' && AsciiDecode(Foo)[2] == 'o';
    assert AsciiDecode(Bar)[0] == 'b' && AsciiDecode(Bar)[1] == 'a' && AsciiDecode(Bar)[2] == 'r';
  }

  /**
    What the tests observe of a file: its size, one line per entry of
    `lines`, the longest line `longest` bytes and characters long, and
    every run of lines loading as the matching run of `lines`, or as the
    end of the file once it runs past the last line.
   */
  ghost predicate Shows(f: File, size: nat, lines: seq<string>, longest: nat)
    requires f.Valid()
  {
    && f.SizeInBytes() == size
    && f.NumberOfLines() == |lines|
    && f.NumberOfBytesInLongestLine() == longest
    && f.NumberOfCharactersInLongestLine() == longest
    && forall start, count :: 0 <= start && 1 <= count ==>
         LoadLines(f, start, count) ==
           if start + count <= |lines| then Ok(lines[start..start + count]) else Err(EndOfFile)
  }

  /**
    `content` is the newline-free `texts` joined with newlines, `size` bytes
    long; their ASCII decodings are `decoded`, and text `k`, `longest` bytes
    long, is at least as long as every text.
   */
  ghost predicate Describes(content: seq<byte>, size: nat, texts: seq<seq<byte>>, decoded: seq<string>, k: nat, longest: nat)
  {
    && |texts| > 0 && (forall i :: 0 <= i < |texts| ==> LF !in texts[i])
    && Join(texts, LF) == content && |content| == size && size > 0
    && |decoded| == |texts| && (forall j :: 0 <= j < |texts| ==> AsciiDecode(texts[j]) == decoded[j])
    && k < |texts| && |texts[k]| == longest && (forall i :: 0 <= i < |texts| ==> |texts[i]| <= longest)
  }

  /** A file whose bytes `texts` describe shows exactly their decodings as its lines. */
  lemma Observed(f: File, size: nat, texts: seq<seq<byte>>, decoded: seq<string>, k: nat, longest: nat)
    requires f.Valid() && f.decode == AsciiDecode
    requires Describes(f.content, size, texts, decoded, k, longest)
    ensures Shows(f, size, decoded, longest)
  {
    assert MadeOf(f, texts);
    LongestLineIs(f, texts, k);
    forall start, count | 0 <= start && 1 <= count {
      LoadsRuns(f, texts, decoded, start, count);
    }
  }

  /**
    `test_file_with_non_newline_characters`: "foo" has 1 line, the longest 3 bytes and
    characters long; every run of them loads as its text, and a run past
    the last line reports the end of the file.
   */
  lemma NoNewline(f: File)
    requires f.Valid() && f.content == Foo && f.decode == AsciiDecode
    ensures Shows(f, 3, ["foo"], 3)
  {
    NoNewlineTexts();
    Observed(f, 3, [Foo], ["foo"], 0, 3);
  }

  lemma NoNewlineTexts()
    ensures Describes(Foo, 3, [Foo], ["foo"], 0, 3)
  {
    DecodeFooBar();
  }

  /**
    `test_file_with_single_newline_character`: "\\n" has 2 lines, the longest 0 bytes and
    characters long; every run of them loads as its text, and a run past
    the last line reports the end of the file.
   */
  lemma SingleNewline(f: File)
    requires f.Valid() && f.content == [LF] && f.decode == AsciiDecode
    ensures Shows(f, 1, ["", ""], 0)
  {
    SingleNewlineTexts();
    Observed(f, 1, [[], []], ["", ""], 0, 0);
  }

  lemma SingleNewlineTexts()
    ensures Describes([LF], 1, [[], []], ["", ""], 0, 0)
  {
    DecodeFooBar();
  }

  /**
    `test_file_with_two_lines_and_last_one_empty`: "foo\\n" has 2 lines, the longest 3 bytes and
    characters long; every run of them loads as its text, and a run past
    the last line reports the end of the file.
   */
  lemma TrailingNewline(f: File)
    requires f.Valid() && f.content == Foo + [LF] && f.decode == AsciiDecode
    ensures Shows(f, 4, ["foo", ""], 3)
  {
    TrailingNewlineTexts();
    Observed(f, 4, [Foo, []], ["foo", ""], 0, 3);
  }

  lemma TrailingNewlineTexts()
    ensures Describes(Foo + [LF], 4, [Foo, []], ["foo", ""], 0, 3)
  {
    DecodeFooBar();
  }

  /**
    `test_file_with_two_lines_and_first_one_empty`: "\\nfoo" has 2 lines, the longest 3 bytes and
    characters long; every run of them loads as its text, and a run past
    the last line reports the end of the file.
   */
  lemma LeadingNewline(f: File)
    requires f.Valid() && f.content == [LF] + Foo && f.decode == AsciiDecode
    ensures Shows(f, 4, ["", "foo"], 3)
  {
    LeadingNewlineTexts();
    Observed(f, 4, [[], Foo], ["", "foo"], 1, 3);
  }

  lemma LeadingNewlineTexts()
    ensures Describes([LF] + Foo, 4, [[], Foo], ["", "foo"], 1, 3)
  {
    DecodeFooBar();
  }

  /**
    `test_file_with_two_non_empty_lines`: "foo\\nbar" has 2 lines, the longest 3 bytes and
    characters long; every run of them loads as its text, and a run past
    the last line reports the end of the file.
   */
  lemma TwoLines(f: File)
    requires f.Valid() && f.content == Foo + [LF] + Bar && f.decode == AsciiDecode
    ensures Shows(f, 7, ["foo", "bar"], 3)
  {
    TwoLinesTexts();
    Observed(f, 7, [Foo, Bar], ["foo", "bar"], 0, 3);
  }

  lemma TwoLinesTexts()
    ensures Describes(Foo + [LF] + Bar, 7, [Foo, Bar], ["foo", "bar"], 0, 3)
  {
    DecodeFooBar();
  }

  /**
    `test_file_with_three_empty_lines`: "\\n\\n" has 3 lines, the longest 0 bytes and
    characters long; every run of them loads as its text, and a run past
    the last line reports the end of the file.
   */
  lemma TwoNewlines(f: File)
    requires f.Valid() && f.content == [LF, LF] && f.decode == AsciiDecode
    ensures Shows(f, 2, ["", "", ""], 0)
  {
    TwoNewlinesTexts();
    Observed(f, 2, [[], [], []], ["", "", ""], 0, 0);
  }

  lemma TwoNewlinesTexts()
    ensures Describes([LF, LF], 2, [[], [], []], ["", "", ""], 0, 0)
  {
    DecodeFooBar();
  }

  /**
    `test_file_with_three_lines_first_and_last_empty`: "\\nfoo\\n" has 3 lines, the longest 3 bytes and
    characters long; every run of them loads as its text, and a run past
    the last line reports the end of the file.
   */
  lemma SurroundedByNewlines(f: File)
    requires f.Valid() && f.content == [LF] + Foo + [LF] && f.decode == AsciiDecode
    ensures Shows(f, 5, ["", "foo", ""], 3)
  {
    SurroundedByNewlinesTexts();
    Observed(f, 5, [[], Foo, []], ["", "foo", ""], 1, 3);
  }

  lemma SurroundedByNewlinesTexts()
    ensures Describes([LF] + Foo + [LF], 5, [[], Foo, []], ["", "foo", ""], 1, 3)
  {
    DecodeFooBar();
    assert Join([[], Foo, []], LF) == [] + [LF] + Join([Foo, []], LF);
    assert Join([Foo, []], LF) == Foo + [LF] + [];
  }
}
