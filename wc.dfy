/** The counting utility (`wcr`): per input, the number of lines, words,
    bytes and characters, one formatted row per input that opens, and a
    total row when more than one input was named. */
module Wc {
  import opened Text
  import opened Reading
  import opened Streams
  import opened Sequences

  /** The counters of one input. */
  datatype FileInfo = FileInfo(numLines: nat, numWords: nat, numBytes: nat, numChars: nat)

  /** The resolved command line: the input names in order and the fields to show. */
  datatype Config = Config(files: seq<string>, lines: bool, words: bool, bytes: bool, chars: bool)

  /** The flag-default rule of `get_args`: when none of the four field flags
      was given, lines, words and bytes are shown; otherwise the flags are
      taken as given. */
  function Configure(files: seq<string>, lines: bool, words: bool, bytes: bool, chars: bool): (c: Config)
    ensures c.files == files && c.chars == chars
    ensures !(lines || words || bytes || chars) ==> c.lines && c.words && c.bytes
    ensures (lines || words || bytes || chars) ==> c.lines == lines && c.words == words && c.bytes == bytes
    ensures c.lines || c.words || c.bytes || c.chars
  {
    var flags := [lines, words, bytes, chars];
    var flags' := if !flags[0] && !flags[1] && !flags[2] && !flags[3] then flags[0 := true][1 := true][2 := true] else flags;
    Config(files, flags'[0], flags'[1], flags'[2], chars)
  }

  /** The four counts of a text, each by its own definition: records as
      `read_line` returns them, words as `split_whitespace` yields them,
      UTF-8 bytes and characters. */
  function Measure(text: string): (m: FileInfo)
    ensures text == [] <==> m.numLines == 0
    ensures text == [] ==> m == FileInfo(0, 0, 0, 0)
    ensures m.numChars <= m.numBytes <= 4 * m.numChars
  {
    FileInfo(|Records(text)|, |Words(text)|, Utf8Len(text), |text|)
  }

  /** `count`: reads record after record until the 0-byte read, adding up
      the counts record by record. `rest` is what the reader has not yet
      delivered. */
  method Count(text: string) returns (info: FileInfo)
    ensures info.numLines == |Records(text)|
    ensures info.numWords == |Words(text)|
    ensures info.numBytes == Utf8Len(text)
    ensures info.numChars == |text|
  {
    var numLines, numWords, numBytes, numChars := 0, 0, 0, 0;
    var rest := text;
    ghost var done: string := [];
    while true
      invariant done + rest == text
      invariant done == [] || rest == [] || EndsWithNewline(done)
      invariant numLines == |Records(done)|
      invariant numWords == |Words(done)|
      invariant numBytes == Utf8Len(done)
      invariant numChars == |done|
      decreases |rest|
    {
      var line := ReadLine(rest);
      var bytes := Utf8Len(line);
      if bytes == 0 {
        break;
      }
      CountStep(done, rest, line);
      numBytes := numBytes + bytes;
      numLines := numLines + 1;
      numWords := numWords + |Words(line)|;
      numChars := numChars + |line|;
      rest := rest[|line|..];
      done := done + line;
    }
    assert done == text;
    info := FileInfo(numLines, numWords, numBytes, numChars);
  }

  /** What one more record adds to each counter of `count`: what has been
      read so far, `done`, ends with a line feed, so the record starts a new
      line and no word runs across the cut. */
  lemma CountStep(done: string, rest: string, line: string)
    requires rest != [] && (done == [] || EndsWithNewline(done))
    requires line == ReadLine(rest)
    ensures line != [] && (done + line) + rest[|line|..] == done + rest
    ensures rest[|line|..] == [] || EndsWithNewline(done + line)
    ensures |Records(done + line)| == |Records(done)| + 1
    ensures |Words(done + line)| == |Words(done)| + |Words(line)|
    ensures Utf8Len(done + line) == Utf8Len(done) + Utf8Len(line)
  {
    NextRecord(done, rest, line);
    WordsAppend(done, line);
    Utf8LenAppend(done, line);
  }

  /** `format_field`: the value right-justified in eight columns when the
      field is shown, nothing otherwise. */
  function FormatField(value: nat, show: bool): string {
    if show then Justify(value, 8) else ""
  }

  /** A shown field is the decimal form of the value with spaces in front,
      eight characters or more in all; a hidden field is empty. */
  lemma FormatFieldShape(value: nat, show: bool)
    ensures !show ==> FormatField(value, show) == ""
    ensures show ==> |FormatField(value, show)| == (if |Decimal(value)| < 8 then 8 else |Decimal(value)|)
    ensures show ==> var digits := FormatField(value, show)[|FormatField(value, show)| - |Decimal(value)|..];
      IsDigits(digits) && DecimalValue(digits) == value
    ensures show ==> forall i :: 0 <= i < |FormatField(value, show)| - |Decimal(value)| ==> FormatField(value, show)[i] == ' '
  {
    JustifyShape(value, 8);
  }

  /** One output row: the shown fields in the order lines, words, bytes,
      characters, then the suffix and the line feed of `println!`. */
  function Row(c: Config, info: FileInfo, suffix: string): string {
    FormatField(info.numLines, c.lines) + FormatField(info.numWords, c.words)
    + FormatField(info.numBytes, c.bytes) + FormatField(info.numChars, c.chars) + suffix + "\n"
  }

  /** What follows the counts of an input: nothing for standard input, else a space and the name. */
  function NameSuffix(name: string): string {
    if name == "-" then "" else " " + name
  }

  /** What the first `n` inputs write while `run` loops over them: a row on
      standard output for each that opens, an error line on standard error
      for each that does not. */
  function FileRows(c: Config, outcomes: seq<OpenResult>, n: nat): seq<Emit>
    requires |outcomes| == |c.files| && n <= |outcomes|
  {
    if n == 0 then []
    else
      FileRows(c, outcomes, n - 1) +
      match outcomes[n - 1]
      case Opened(text) => [Stdout(Row(c, Measure(text), NameSuffix(c.files[n - 1])))]
      case OpenFailed(cause) => [Stderr(c.files[n - 1] + ": " + cause + "\n")]
  }

  /** The counts of the first `n` inputs that open, added field by field. */
  function Total(outcomes: seq<OpenResult>, n: nat): FileInfo
    requires n <= |outcomes|
  {
    if n == 0 then FileInfo(0, 0, 0, 0)
    else
      var t := Total(outcomes, n - 1);
      match outcomes[n - 1]
      case Opened(text) =>
        var m := Measure(text);
        FileInfo(t.numLines + m.numLines, t.numWords + m.numWords, t.numBytes + m.numBytes, t.numChars + m.numChars)
      case OpenFailed(_) => t
  }

  /** `run`: the input `c.files[i]` opens with outcome `outcomes[i]`. */
  method Run(c: Config, outcomes: seq<OpenResult>) returns (out: seq<Emit>)
    requires |outcomes| == |c.files|
    ensures out == FileRows(c, outcomes, |outcomes|) +
      (if |c.files| > 1 then [Stdout(Row(c, Total(outcomes, |outcomes|), " total"))] else [])
  {
    var totalLines: nat, totalWords: nat, totalBytes: nat, totalChars: nat := 0, 0, 0, 0;
    out := [];
    var i := 0;
    while i < |c.files|
      invariant i <= |c.files|
      invariant out == FileRows(c, outcomes, i)
      invariant Total(outcomes, i) == FileInfo(totalLines, totalWords, totalBytes, totalChars)
    {
      var filename := c.files[i];
      match outcomes[i] {
        case OpenFailed(e) =>
          out := out + [Stderr(filename + ": " + e + "\n")];
        case Opened(text) =>
          var count := Count(text);
          out := out + [Stdout(Row(c, count, NameSuffix(filename)))];
          totalLines := totalLines + count.numLines;
          totalWords := totalWords + count.numWords;
          totalBytes := totalBytes + count.numBytes;
          totalChars := totalChars + count.numChars;
      }
      i := i + 1;
    }
    if |c.files| > 1 {
      out := out + [Stdout(Row(c, FileInfo(totalLines, totalWords, totalBytes, totalChars), " total"))];
    }
  }

  /** The concatenation of the texts of the first `n` inputs that open. */
  function OpenedText(outcomes: seq<OpenResult>, n: nat): string
    requires n <= |outcomes|
  {
    if n == 0 then []
    else OpenedText(outcomes, n - 1) + match outcomes[n - 1] case Opened(text) => text case OpenFailed(_) => []
  }

  /** The total row adds up the inputs that open and nothing else: its bytes
      and characters are those of all their texts put together. */
  lemma {:induction false} TotalOfOpenedText(outcomes: seq<OpenResult>, n: nat)
    requires n <= |outcomes|
    ensures Total(outcomes, n).numBytes == Utf8Len(OpenedText(outcomes, n))
    ensures Total(outcomes, n).numChars == |OpenedText(outcomes, n)|
  {
    if n > 0 {
      TotalOfOpenedText(outcomes, n - 1);
      var before := OpenedText(outcomes, n - 1);
      match outcomes[n - 1]
      case Opened(text) =>
        assert OpenedText(outcomes, n) == before + text;
        assert Total(outcomes, n).numBytes == Total(outcomes, n - 1).numBytes + Utf8Len(text);
        assert Total(outcomes, n).numChars == Total(outcomes, n - 1).numChars + |text|;
        Utf8LenAppend(before, text);
      case OpenFailed(_) =>
        assert Total(outcomes, n) == Total(outcomes, n - 1);
        assert OpenedText(outcomes, n) == before + [];
        assert before + [] == before;
    }
  }

  /** Every input writes exactly one line, in argument order: its row when it
      opens, its error line when it does not. */
  lemma {:induction false} FileRowsAt(c: Config, outcomes: seq<OpenResult>, n: nat, i: nat)
    requires |outcomes| == |c.files| && i < n <= |outcomes|
    ensures |FileRows(c, outcomes, n)| == n
    ensures FileRows(c, outcomes, n)[i] ==
      match outcomes[i]
      case Opened(text) => Stdout(Row(c, Measure(text), NameSuffix(c.files[i])))
      case OpenFailed(cause) => Stderr(c.files[i] + ": " + cause + "\n")
    decreases n
  {
    FileRowsLength(c, outcomes, n - 1);
    if i < n - 1 {
      FileRowsAt(c, outcomes, n - 1, i);
    }
  }

  lemma {:induction false} FileRowsLength(c: Config, outcomes: seq<OpenResult>, n: nat)
    requires |outcomes| == |c.files| && n <= |outcomes|
    ensures |FileRows(c, outcomes, n)| == n
    decreases n
  {
    if n > 0 {
      FileRowsLength(c, outcomes, n - 1);
    }
  }

  /** The unit test of `format_field`. */
  lemma FormatFieldExamples()
    ensures FormatField(1, false) == ""
    ensures FormatField(3, true) == "       3"
    ensures FormatField(10, true) == "      10"
  {
    assert Decimal(3) == "3";
    assert PadLeft("3", 8) == "       3";
    assert Decimal(10) == "10";
    assert PadLeft("10", 8) == "      10";
  }

  /** The text of the unit test of `count`, written word by word:
      `"I don't want the world. I just want your half.\r\n"`. */
  const CountSample: string :=
    "I " + "don't " + "want " + "the " + "world. " + "I " + "just " + "want " + "your " + "half.\r\n"

  /** The unit test of `count`: one line, ten words, 48 bytes, 48 characters. */
  lemma CountExample()
    ensures Measure(CountSample) == FileInfo(1, 10, 48, 48)
  {
    CountSampleRecords();
    CountSampleWords();
    CountSampleBytes();
  }

  lemma CountSampleBytes()
    ensures Utf8Len(CountSample) == 48 && |CountSample| == 48
  {
    assert IsAscii("I ") && IsAscii("don't ") && IsAscii("want ") && IsAscii("the ") && IsAscii("world. ");
    assert IsAscii("just ") && IsAscii("your ") && IsAscii("half.\r\n");
    var p := "I " + "don't ";
    AsciiAppend("I ", "don't ");
    AsciiAppend(p, "want ");
    p := p + "want ";
    AsciiAppend(p, "the ");
    p := p + "the ";
    AsciiAppend(p, "world. ");
    p := p + "world. ";
    AsciiAppend(p, "I ");
    p := p + "I ";
    AsciiAppend(p, "just ");
    p := p + "just ";
    AsciiAppend(p, "want ");
    p := p + "want ";
    AsciiAppend(p, "your ");
    p := p + "your ";
    AsciiAppend(p, "half.\r\n");
    Utf8LenAscii(CountSample);
  }

  lemma CountSampleRecords()
    ensures Records(CountSample) == [CountSample]
  {
    var s := CountSample;
    assert IsRecord(s);
    ReadLineOfRecord(s, []);
    assert s + [] == s;
    assert s[|s|..] == [];
  }

  lemma CountSampleWords()
    ensures |Words(CountSample)| == 10
  {
    SampleWordFacts();
    SampleWordsTo9();
    var p9 := "I " + "don't " + "want " + "the " + "world. " + "I " + "just " + "want " + "your ";
    Words1(p9, "half.", "\r\n", "half.\r\n");
  }

  lemma SampleWordsTo4()
    ensures |Words("I " + "don't " + "want " + "the ")| == 4
  {
    SampleWordFacts();
    var p1 := "I ";
    WordsOfWordAndBlank("I", " ");
    var p2 := p1 + "don't ";
    Words1(p1, "don't", " ", "don't ");
    var p3 := p2 + "want ";
    Words1(p2, "want", " ", "want ");
    Words1(p3, "the", " ", "the ");
  }

  lemma SampleWordsTo7()
    ensures |Words("I " + "don't " + "want " + "the " + "world. " + "I " + "just ")| == 7
  {
    SampleWordFacts();
    SampleWordsTo4();
    var p4 := "I " + "don't " + "want " + "the ";
    var p5 := p4 + "world. ";
    Words1(p4, "world.", " ", "world. ");
    var p6 := p5 + "I ";
    Words1(p5, "I", " ", "I ");
    Words1(p6, "just", " ", "just ");
  }

  lemma SampleWordsTo9()
    ensures |Words("I " + "don't " + "want " + "the " + "world. " + "I " + "just " + "want " + "your ")| == 9
  {
    SampleWordFacts();
    SampleWordsTo7();
    var p7 := "I " + "don't " + "want " + "the " + "world. " + "I " + "just ";
    var p8 := p7 + "want ";
    Words1(p7, "want", " ", "want ");
    Words1(p8, "your", " ", "your ");
  }

  lemma SampleWordFacts()
    ensures IsWord("I") && IsWord("don't") && IsWord("want") && IsWord("the") && IsWord("world.")
    ensures IsWord("just") && IsWord("your") && IsWord("half.")
    ensures IsWhitespace(' ') && IsWhitespace('\r') && IsWhitespace('\n')
  {
  }

  /** Appending a word and whitespace adds that word. */
  lemma Words1(p: string, w: string, blank: string, chunk: string)
    requires p != [] && IsWhitespace(p[|p| - 1])
    requires IsWord(w) && blank != [] && (forall i :: 0 <= i < |blank| ==> IsWhitespace(blank[i]))
    requires chunk == w + blank
    ensures |Words(p + chunk)| == |Words(p)| + 1
    ensures IsWhitespace((p + chunk)[|p + chunk| - 1])
  {
    WordsOfWordAndBlank(w, blank);
    WordsAppend(p, chunk);
  }
}
