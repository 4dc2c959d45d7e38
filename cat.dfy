/** The numbering utility (`catr`): every line of every input that opens,
    in order, either as read or prefixed with a line number. */
module Cat {
  import opened Text
  import opened Reading
  import opened Streams
  import opened Sequences

  /** The resolved command line. The argument parser refuses `-n` together
      with `-b`; the model accepts both and follows the code. */
  datatype Config = Config(files: seq<string>, numberLines: bool, numberNonblankLines: bool)

  datatype Mode = Plain | NumberAll | NumberNonBlank

  /** The branch `run` takes for each line: `number_lines` is tested first,
      so it wins over `number_nonblank_lines`. */
  function ModeOf(c: Config): (m: Mode)
    ensures m == NumberAll <==> c.numberLines
    ensures m == NumberNonBlank <==> !c.numberLines && c.numberNonblankLines
  {
    if c.numberLines then NumberAll else if c.numberNonblankLines then NumberNonBlank else Plain
  }

  /** `println!("{:6}\t{}", num, line)`: the number right-aligned in six columns. */
  function NumberedLine(num: nat, line: string): string {
    Justify(num, 6) + "\t" + line + "\n"
  }

  /** Whether `line` gets a number: every line when numbering all, only a
      line that is not exactly empty when numbering non-blank lines. */
  predicate GetsNumber(mode: Mode, line: string) {
    mode == NumberAll || (mode == NumberNonBlank && line != [])
  }

  /** How many of the first `n` lines of `ls` get a number. */
  function NumberedCount(mode: Mode, ls: seq<string>, n: nat): nat
    requires n <= |ls|
  {
    if n == 0 then 0
    else NumberedCount(mode, ls, n - 1) + if GetsNumber(mode, ls[n - 1]) then 1 else 0
  }

  /** What one line prints as, given the number it gets if it gets one.
      Plain lines and blank lines are printed with `println!` as they are. */
  function Render(mode: Mode, line: string, num: nat): string {
    if GetsNumber(mode, line) then NumberedLine(num, line) else line + "\n"
  }

  /** The output of the first `n` lines `ls` of one input that opened; its
      counter starts at 1. */
  function FileOutput(mode: Mode, ls: seq<string>, n: nat): (out: seq<Emit>)
    requires n <= |ls|
    ensures |out| == n
  {
    if n == 0 then []
    else FileOutput(mode, ls, n - 1) + [Stdout(Render(mode, ls[n - 1], NumberedCount(mode, ls, n - 1) + 1))]
  }

  /** What one input writes: its lines when it opens, numbered with a
      counter that starts at 1, and an error line when it does not. */
  function InputOutput(c: Config, name: string, outcome: OpenResult): seq<Emit> {
    match outcome
    case Opened(text) => var ls := Lines(text); FileOutput(ModeOf(c), ls, |ls|)
    case OpenFailed(err) => [Stderr("Failed to open " + name + ": " + err + "\n")]
  }

  /** What each input writes on its own, in argument order. */
  function Inputs(c: Config, outcomes: seq<OpenResult>): (ps: seq<seq<Emit>>)
    requires |outcomes| == |c.files|
    ensures |ps| == |outcomes|
    ensures forall i :: 0 <= i < |ps| ==> ps[i] == InputOutput(c, c.files[i], outcomes[i])
  {
    seq(|outcomes|, i requires 0 <= i < |outcomes| => InputOutput(c, c.files[i], outcomes[i]))
  }

  /** What the first `n` inputs write: their outputs one after another. */
  function Output(c: Config, outcomes: seq<OpenResult>, n: nat): seq<Emit>
    requires |outcomes| == |c.files| && n <= |outcomes|
  {
    Flatten(Inputs(c, outcomes)[..n])
  }

  lemma OutputSnoc(c: Config, outcomes: seq<OpenResult>, i: nat)
    requires |outcomes| == |c.files| && i < |outcomes|
    ensures Output(c, outcomes, i + 1) == Output(c, outcomes, i) + InputOutput(c, c.files[i], outcomes[i])
  {
    var ps := Inputs(c, outcomes);
    assert ps[..i + 1] == ps[..i] + [ps[i]];
    FlattenSnoc(ps[..i], ps[i]);
  }

  /** The inner loop of `run` over the lines of one input, with its counter
      `num` starting at 1. */
  method NumberFile(c: Config, lines: seq<string>) returns (out: seq<Emit>)
    ensures out == FileOutput(ModeOf(c), lines, |lines|)
  {
    out := [];
    var num: nat := 1;
    var j := 0;
    ghost var mode := ModeOf(c);
    while j < |lines|
      invariant j <= |lines|
      invariant num == NumberedCount(mode, lines, j) + 1
      invariant out == FileOutput(mode, lines, j)
    {
      var l := lines[j];
      var printed: string;
      if c.numberLines {
        printed := NumberedLine(num, l);
        assert printed == Render(mode, l, NumberedCount(mode, lines, j) + 1);
        num := num + 1;
      } else if c.numberNonblankLines {
        if l == [] {
          printed := "\n";
          assert printed == Render(mode, l, NumberedCount(mode, lines, j) + 1);
        } else {
          printed := NumberedLine(num, l);
          assert printed == Render(mode, l, NumberedCount(mode, lines, j) + 1);
          num := num + 1;
        }
      } else {
        printed := l + "\n";
        assert printed == Render(mode, l, NumberedCount(mode, lines, j) + 1);
      }
      out := out + [Stdout(printed)];
      j := j + 1;
    }
  }

  /** `run`: the input `c.files[i]` opens with outcome `outcomes[i]`. */
  method Run(c: Config, outcomes: seq<OpenResult>) returns (out: seq<Emit>)
    requires |outcomes| == |c.files|
    ensures out == Output(c, outcomes, |outcomes|)
  {
    out := [];
    var i := 0;
    while i < |c.files|
      invariant i <= |c.files|
      invariant out == Output(c, outcomes, i)
    {
      var filename := c.files[i];
      match outcomes[i] {
        case OpenFailed(err) =>
          out := out + [Stderr("Failed to open " + filename + ": " + err + "\n")];
        case Opened(text) =>
          var printed := NumberFile(c, Lines(text));
          out := out + printed;
      }
      OutputSnoc(c, outcomes, i);
      i := i + 1;
    }
  }

  /** Each line writes exactly one chunk, in order: line `i` as `Render`
      makes it, with the number that follows those of the lines before it. */
  lemma {:induction false} FileOutputAt(mode: Mode, ls: seq<string>, n: nat, i: nat)
    requires i < n <= |ls|
    ensures FileOutput(mode, ls, n)[i] == Stdout(Render(mode, ls[i], NumberedCount(mode, ls, i) + 1))
    decreases n
  {
    var prev := FileOutput(mode, ls, n - 1);
    var x := Stdout(Render(mode, ls[n - 1], NumberedCount(mode, ls, n - 1) + 1));
    assert FileOutput(mode, ls, n) == prev + [x];
    AppendIndex(prev, x, i);
    if i < n - 1 {
      FileOutputAt(mode, ls, n - 1, i);
    }
  }

  /** Numbers go up by one per numbered line: a numbered line `i` gets a
      number below that of every later line, and no number is skipped. */
  lemma {:induction false} NumberedCountMonotone(mode: Mode, ls: seq<string>, i: nat, j: nat)
    requires i < j <= |ls|
    ensures NumberedCount(mode, ls, i) + (if GetsNumber(mode, ls[i]) then 1 else 0) <= NumberedCount(mode, ls, j)
    ensures NumberedCount(mode, ls, j) <= NumberedCount(mode, ls, i) + (j - i)
    decreases j
  {
    if j > i + 1 {
      NumberedCountMonotone(mode, ls, i, j - 1);
    }
  }

  /** With `-n`, every line is numbered: line `i` (from 0) gets number `i + 1`. */
  lemma {:induction false} NumberAllCount(ls: seq<string>, n: nat)
    requires n <= |ls|
    ensures NumberedCount(NumberAll, ls, n) == n
    decreases n
  {
    if n > 0 {
      NumberAllCount(ls, n - 1);
    }
  }

  lemma NumberAllLines(ls: seq<string>, i: nat)
    requires i < |ls|
    ensures FileOutput(NumberAll, ls, |ls|)[i] == Stdout(Justify(i + 1, 6) + "\t" + ls[i] + "\n")
  {
    FileOutputAt(NumberAll, ls, |ls|, i);
    NumberAllCount(ls, i);
  }

  /** With `-b`, an empty line is printed as a bare line feed and takes no
      number; any other line is numbered after the non-empty lines before it. */
  lemma NonBlankLines(ls: seq<string>, i: nat)
    requires i < |ls|
    ensures ls[i] == [] ==>
      FileOutput(NumberNonBlank, ls, |ls|)[i] == Stdout("\n")
      && NumberedCount(NumberNonBlank, ls, i + 1) == NumberedCount(NumberNonBlank, ls, i)
    ensures ls[i] != [] ==>
      FileOutput(NumberNonBlank, ls, |ls|)[i]
        == Stdout(Justify(NumberedCount(NumberNonBlank, ls, i) + 1, 6) + "\t" + ls[i] + "\n")
  {
    FileOutputAt(NumberNonBlank, ls, |ls|, i);
  }

  /** Without flags every line is echoed with a line feed. */
  lemma {:induction false} PlainOutput(ls: seq<string>, n: nat)
    requires n <= |ls|
    ensures StdoutText(FileOutput(Plain, ls, n)) == ConcatLines(ls[..n])
    decreases n
  {
    if n > 0 {
      PlainOutput(ls, n - 1);
      var line := ls[n - 1];
      assert StdoutText(FileOutput(Plain, ls, n)) == StdoutText(FileOutput(Plain, ls, n - 1)) + (line + "\n") by {
        var prev := FileOutput(Plain, ls, n - 1);
        var last := Stdout(line + "\n");
        assert FileOutput(Plain, ls, n) == prev + [last];
        StdoutTextOne(last);
        StdoutTextAppend(prev, [last]);
      }
      assert ConcatLines(ls[..n]) == ConcatLines(ls[..n - 1]) + (line + "\n") by {
        assert ls[..n] == ls[..n - 1] + [line];
        ConcatLinesSnoc(ls[..n - 1], line);
        Associative(ConcatLines(ls[..n - 1]), line, "\n");
      }
    } else {
      assert ls[..0] == [];
    }
  }

  /** Without flags an input is copied to standard output unchanged, when it
      ends with a line feed and has no `"\r\n"`. */
  lemma PlainEchoesText(text: string)
    requires text == [] || text[|text| - 1] == '\n'
    requires forall i :: 0 <= i < |text| - 1 ==> !(text[i] == '\r' && text[i + 1] == '\n')
    ensures StdoutText(FileOutput(Plain, Lines(text), |Lines(text)|)) == text
  {
    var ls := Lines(text);
    PlainOutput(ls, |ls|);
    assert ls[..|ls|] == ls;
    PlainRoundTrip(text);
  }

  /** The first numbered line of a file is numbered 1. */
  lemma FirstNumberIsOne(mode: Mode, ls: seq<string>)
    requires ls != [] && GetsNumber(mode, ls[0])
    ensures FileOutput(mode, ls, |ls|)[0] == Stdout(NumberedLine(1, ls[0]))
  {
    FileOutputAt(mode, ls, |ls|, 0);
  }

  /** The inputs write one after another, each what it writes on its own:
      the output of input `k` follows that of the inputs before it, whatever
      those were, so its numbering restarts at 1. */
  lemma InputSegment(c: Config, outcomes: seq<OpenResult>, k: nat)
    requires |outcomes| == |c.files| && k < |outcomes|
    ensures var start, end := |Output(c, outcomes, k)|, |Output(c, outcomes, k + 1)|;
      start <= end <= |Output(c, outcomes, |outcomes|)|
      && Output(c, outcomes, |outcomes|)[start..end] == InputOutput(c, c.files[k], outcomes[k])
  {
    var ps := Inputs(c, outcomes);
    FlattenSegment(ps, k);
    assert ps[..|outcomes|] == ps;
  }

  /** Every input that opens and has a numbered first line starts at 1, not
      where the previous input stopped. */
  lemma NumberingRestartsPerInput(c: Config, outcomes: seq<OpenResult>, k: nat)
    requires |outcomes| == |c.files| && k < |outcomes|
    requires outcomes[k].Opened? && Lines(outcomes[k].text) != []
    requires GetsNumber(ModeOf(c), Lines(outcomes[k].text)[0])
    ensures |Output(c, outcomes, k)| < |Output(c, outcomes, |outcomes|)|
    ensures Output(c, outcomes, |outcomes|)[|Output(c, outcomes, k)|]
      == Stdout(NumberedLine(1, Lines(outcomes[k].text)[0]))
  {
    var ls := Lines(outcomes[k].text);
    InputSegment(c, outcomes, k);
    FirstNumberIsOne(ModeOf(c), ls);
    var start := |Output(c, outcomes, k)|;
    var all := Output(c, outcomes, |outcomes|);
    assert all[start] == all[start..start + |ls|][0];
  }
}
