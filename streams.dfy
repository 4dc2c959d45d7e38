/** What the utilities see of the operating system: the outcome of opening a
    named input, and the writes they make to standard output and standard
    error, in the order they make them. */
module Streams {
  import opened Sequences

  /** Opening an input (`"-"` names standard input): on success, the whole
      decoded text that reading it delivers; on failure, the `Display` text
      of the error. */
  datatype OpenResult = Opened(text: string) | OpenFailed(cause: string)

  /** One write, with exactly the characters written (a `println!` includes
      its line feed). */
  datatype Emit = Stdout(text: string) | Stderr(text: string)

  /** Everything written to standard output, in order. */
  function StdoutText(out: seq<Emit>): string
    decreases |out|
  {
    if out == [] then []
    else StdoutText(out[..|out| - 1]) + match out[|out| - 1] case Stdout(t) => t case Stderr(_) => []
  }

  lemma {:induction false} StdoutTextAppend(a: seq<Emit>, b: seq<Emit>)
    ensures StdoutText(a + b) == StdoutText(a) + StdoutText(b)
    decreases |b|
  {
    if b == [] {
      assert a + b == a;
    } else {
      var init := b[..|b| - 1];
      var e := b[|b| - 1];
      AppendInit(a, b);
      StdoutTextAppend(a, init);
      var t := if e.Stdout? then e.text else [];
      assert StdoutText(a + b) == StdoutText(a + init) + t;
      assert StdoutText(b) == StdoutText(init) + t;
      Associative(StdoutText(a), StdoutText(init), t);
    }
  }

  lemma StdoutTextOne(e: Emit)
    ensures StdoutText([e]) == if e.Stdout? then e.text else []
  {
    assert [e][..0] == [];
  }
}
