/** The run-length utility (`uniqr`): reads its input record by record and
    writes the first record of every run of consecutive records that are
    equal once trailing whitespace is ignored, optionally with the length of
    the run. */
module Uniq {
  import opened Text
  import opened Reading
  import opened Streams
  import opened Sequences

  /** The resolved command line: the input name (`"-"` is standard input),
      the output file if one was named, and whether `-c` was given. */
  datatype Config = Config(inFile: string, outFile: Option<string>, count: bool)

  datatype Option<T> = None | Some(value: T)

  /** Creating the output file: success, or the `Display` text of the error. */
  datatype CreateResult = Created | CreateFailed(cause: string)

  /** Where the output goes. */
  datatype Dest = ToStdout | ToFile(path: string)

  /** What `run` does: the error it returns, or everything it writes to
      its destination. */
  datatype Outcome = Failed(message: string) | Wrote(dest: Dest, text: string)

  /** A run of records: the first record as read and how many records belong to it. */
  datatype Group = Group(text: string, count: nat)

  /** The closure `print`: nothing for a count of 0, otherwise the text,
      after the count right-justified in four columns and a space when `-c`
      was given. */
  function Print(showCount: bool, count: nat, text: string): string {
    if count == 0 then ""
    else if showCount then Justify(count, 4) + " " + text
    else text
  }

  /** The state `run` starts from: `previos` is `""` and `cnt` is 0. */
  const Sentinel: seq<Group> := [Group("", 0)]

  /** One record more: it joins the last group when the two agree after
      `trim_end`, and starts a new group of one otherwise. */
  function Step(gs: seq<Group>, r: string): (gs': seq<Group>)
    ensures |gs'| >= 1 && |gs| <= |gs'| <= |gs| + 1
  {
    if Joins(gs, r) then
      gs[..|gs| - 1] + [Group(gs[|gs| - 1].text, gs[|gs| - 1].count + 1)]
    else gs + [Group(r, 1)]
  }

  /** Whether record `r` belongs to the last group of `gs`. */
  predicate Joins(gs: seq<Group>, r: string) {
    gs != [] && TrimEnd(r) == TrimEnd(gs[|gs| - 1].text)
  }

  /** The groups after reading the records `rs`, starting from the groups `init`. */
  function Collapse(init: seq<Group>, rs: seq<string>): (gs: seq<Group>)
    ensures |gs| >= |init| && (init != [] || rs != [] ==> gs != [])
    decreases |rs|
  {
    if rs == [] then init else Step(Collapse(init, rs[..|rs| - 1]), rs[|rs| - 1])
  }

  /** The maximal runs of `rs`, starting from nothing: what `run` evidently
      means to compute. */
  function Runs(rs: seq<string>): seq<Group> {
    Collapse([], rs)
  }

  /** What printing the groups `gs` in order writes. */
  function Emitted(showCount: bool, gs: seq<Group>): string
    decreases |gs|
  {
    if gs == [] then []
    else Emitted(showCount, gs[..|gs| - 1]) + Print(showCount, gs[|gs| - 1].count, gs[|gs| - 1].text)
  }

  /** The loop of `run` and the final flush: reads record after record
      until the 0-byte read, printing the pending group whenever a record
      differs from `previos` after `trim_end`. */
  method Collapsed(text: string, showCount: bool) returns (out: string)
    ensures out == Emitted(showCount, Collapse(Sentinel, Records(text)))
  {
    out := [];
    var previous: string := "";
    var cnt: nat := 0;
    var rest := text;
    ghost var done: string := [];
    ghost var gs := Sentinel;
    while true
      invariant done + rest == text
      invariant done == [] || rest == [] || EndsWithNewline(done)
      invariant gs == Collapse(Sentinel, Records(done))
      invariant Pending(gs, previous, cnt)
      invariant out == Emitted(showCount, Flushed(gs))
      decreases |rest|
    {
      var line := ReadLine(rest);
      var bytes := Utf8Len(line);
      if bytes == 0 {
        break;
      }
      NextRecord(done, rest, line);
      CollapseSnoc(Sentinel, Records(done), line);
      if TrimEnd(line) != TrimEnd(previous) {
        StepStarts(gs, line, showCount);
        out := out + Print(showCount, cnt, previous);
        previous := line;
        cnt := 0;
      } else {
        StepJoins(gs, line);
      }
      cnt := cnt + 1;
      rest := rest[|line|..];
      done := done + line;
      gs := Step(gs, line);
    }
    assert done == text;
    EmittedSnoc(showCount, gs);
    out := out + Print(showCount, cnt, previous);
  }

  /** The loop with the evident intent: there is no pending group before
      the first record (`cnt` is 0), so the first record always starts one. */
  method CollapsedIntended(text: string, showCount: bool) returns (out: string)
    ensures out == Emitted(showCount, Runs(Records(text)))
  {
    out := [];
    var previous: string := "";
    var cnt: nat := 0;
    var rest := text;
    ghost var done: string := [];
    ghost var gs: seq<Group> := [];
    while true
      invariant done + rest == text
      invariant done == [] || rest == [] || EndsWithNewline(done)
      invariant gs == Collapse([], Records(done))
      invariant gs == [] <==> cnt == 0
      invariant gs == [] || Pending(gs, previous, cnt)
      invariant out == if gs == [] then [] else Emitted(showCount, Flushed(gs))
      decreases |rest|
    {
      var line := ReadLine(rest);
      var bytes := Utf8Len(line);
      if bytes == 0 {
        break;
      }
      NextRecord(done, rest, line);
      CollapseSnoc([], Records(done), line);
      if cnt == 0 || TrimEnd(line) != TrimEnd(previous) {
        if cnt == 0 {
          StepFirst(line);
        } else {
          StepStarts(gs, line, showCount);
        }
        out := out + Print(showCount, cnt, previous);
        previous := line;
        cnt := 0;
      } else {
        StepJoins(gs, line);
      }
      cnt := cnt + 1;
      rest := rest[|line|..];
      done := done + line;
      gs := Step(gs, line);
    }
    assert done == text;
    if gs != [] {
      EmittedSnoc(showCount, gs);
    }
    out := out + Print(showCount, cnt, previous);
  }

  lemma StepFirst(r: string)
    ensures Step([], r) == [Group(r, 1)] && Flushed(Step([], r)) == []
  {
  }

  /** The pending group of the loop is the last one. */
  predicate Pending(gs: seq<Group>, previous: string, cnt: nat) {
    gs != [] && gs[|gs| - 1] == Group(previous, cnt)
  }

  /** The groups already printed: all but the pending one. */
  function Flushed(gs: seq<Group>): seq<Group>
    requires gs != []
  {
    gs[..|gs| - 1]
  }

  /** `run`: `input` is the outcome of opening `c.inFile`; `create` is the
      outcome of creating `c.outFile` and is only looked at when one was
      named. The records are collapsed by the corrected loop
      `CollapsedIntended`; `Collapsed` is the loop as written. */
  method Run(c: Config, input: OpenResult, create: CreateResult) returns (r: Outcome)
    ensures input.OpenFailed? ==> r == Failed(c.inFile + ": " + input.cause)
    ensures input.Opened? && c.outFile.Some? && create.CreateFailed? ==> r == Failed(create.cause)
    ensures input.Opened? && c.outFile.None? ==>
      r == Wrote(ToStdout, Emitted(c.count, Runs(Records(input.text))))
    ensures input.Opened? && c.outFile.Some? && create.Created? ==>
      r == Wrote(ToFile(c.outFile.value), Emitted(c.count, Runs(Records(input.text))))
  {
    match input {
      case OpenFailed(e) =>
        return Failed(c.inFile + ": " + e);
      case Opened(text) =>
        var dest: Dest;
        match c.outFile {
          case Some(path) =>
            match create {
              case CreateFailed(e) =>
                return Failed(e);
              case Created =>
                dest := ToFile(path);
            }
          case None =>
            dest := ToStdout;
        }
        var written := CollapsedIntended(text, c.count);
        r := Wrote(dest, written);
    }
  }

  lemma CollapseSnoc(init: seq<Group>, rs: seq<string>, r: string)
    ensures Collapse(init, rs + [r]) == Step(Collapse(init, rs), r)
  {
    assert (rs + [r])[..|rs|] == rs;
  }

  /** A record that differs from the pending group starts a new one, and the
      pending group is printed. */
  lemma StepStarts(gs: seq<Group>, r: string, showCount: bool)
    requires gs != [] && TrimEnd(r) != TrimEnd(gs[|gs| - 1].text)
    ensures Step(gs, r) == gs + [Group(r, 1)]
    ensures Flushed(Step(gs, r)) == gs
    ensures Emitted(showCount, gs) == Emitted(showCount, Flushed(gs)) + Print(showCount, gs[|gs| - 1].count, gs[|gs| - 1].text)
  {
    EmittedSnoc(showCount, gs);
  }

  /** A record that agrees with the pending group joins it. */
  lemma StepJoins(gs: seq<Group>, r: string)
    requires gs != [] && TrimEnd(r) == TrimEnd(gs[|gs| - 1].text)
    ensures Step(gs, r) == Flushed(gs) + [Group(gs[|gs| - 1].text, gs[|gs| - 1].count + 1)]
    ensures Flushed(Step(gs, r)) == Flushed(gs)
  {
  }

  lemma EmittedSnoc(showCount: bool, gs: seq<Group>)
    requires gs != []
    ensures Emitted(showCount, gs) == Emitted(showCount, Flushed(gs)) + Print(showCount, gs[|gs| - 1].count, gs[|gs| - 1].text)
  {
  }

  /** The number of records the groups stand for. */
  function TotalCount(gs: seq<Group>): nat
    decreases |gs|
  {
    if gs == [] then 0 else TotalCount(gs[..|gs| - 1]) + gs[|gs| - 1].count
  }

  lemma StepCount(gs: seq<Group>, r: string)
    ensures TotalCount(Step(gs, r)) == TotalCount(gs) + 1
  {
    var gs' := Step(gs, r);
    if Joins(gs, r) {
      var m := |gs| - 1;
      assert gs'[..|gs'| - 1] == gs[..m];
      assert TotalCount(gs) == TotalCount(gs[..m]) + gs[m].count;
    } else {
      assert gs'[..|gs'| - 1] == gs;
    }
  }

  /** Every record read is counted in exactly one group. */
  lemma {:induction false} CollapseCount(init: seq<Group>, rs: seq<string>)
    ensures TotalCount(Collapse(init, rs)) == TotalCount(init) + |rs|
    decreases |rs|
  {
    if rs != [] {
      CollapseCount(init, rs[..|rs| - 1]);
      StepCount(Collapse(init, rs[..|rs| - 1]), rs[|rs| - 1]);
    }
  }

  /** The counts written add up to the number of records read, for the code
      as written and for the runs. */
  lemma CountsAddUp(rs: seq<string>)
    ensures TotalCount(Collapse(Sentinel, rs)) == |rs|
    ensures TotalCount(Runs(rs)) == |rs|
  {
    CollapseCount(Sentinel, rs);
    CollapseCount([], rs);
    assert Sentinel[..0] == [];
  }

  /** No two neighbouring groups agree after `trim_end`. */
  predicate NeighboursDiffer(gs: seq<Group>) {
    forall i :: 0 <= i < |gs| - 1 ==> TrimEnd(gs[i].text) != TrimEnd(gs[i + 1].text)
  }

  lemma StepNeighboursDiffer(gs: seq<Group>, r: string)
    requires NeighboursDiffer(gs)
    ensures NeighboursDiffer(Step(gs, r))
  {
    var gs' := Step(gs, r);
    if Joins(gs, r) {
      assert forall i :: 0 <= i < |gs| ==> TrimEnd(gs'[i].text) == TrimEnd(gs[i].text);
    } else {
      assert forall i :: 0 <= i < |gs| ==> gs'[i] == gs[i];
    }
  }

  /** Adjacent groups are never equal under the `trim_end` comparison. */
  lemma {:induction false} CollapseNeighboursDiffer(init: seq<Group>, rs: seq<string>)
    requires NeighboursDiffer(init)
    ensures NeighboursDiffer(Collapse(init, rs))
    decreases |rs|
  {
    if rs != [] {
      CollapseNeighboursDiffer(init, rs[..|rs| - 1]);
      StepNeighboursDiffer(Collapse(init, rs[..|rs| - 1]), rs[|rs| - 1]);
    }
  }

  lemma WrittenNeighboursDiffer(rs: seq<string>)
    ensures NeighboursDiffer(Collapse(Sentinel, rs))
    ensures NeighboursDiffer(Runs(rs))
  {
    CollapseNeighboursDiffer(Sentinel, rs);
    CollapseNeighboursDiffer([], rs);
  }

  /** The groups describe the records they were built from: the counts add up
      to the records read, each group is non-empty, and each group's text is
      the record at which its run starts. */
  predicate Describes(gs: seq<Group>, rs: seq<string>) {
    && TotalCount(gs) == |rs|
    && (forall k :: 0 <= k < |gs| ==> gs[k].count >= 1)
    && (forall k :: 0 <= k < |gs| ==> TotalCount(gs[..k]) < |rs| && gs[k].text == rs[TotalCount(gs[..k])])
  }

  lemma StepDescribes(gs: seq<Group>, rs: seq<string>, r: string)
    requires Describes(gs, rs)
    ensures Describes(Step(gs, r), rs + [r])
  {
    StepCount(gs, r);
    if Joins(gs, r) {
      JoinDescribes(gs, rs, r);
    } else {
      StartDescribes(gs, rs, r);
    }
  }

  lemma JoinDescribes(gs: seq<Group>, rs: seq<string>, r: string)
    requires Describes(gs, rs) && Joins(gs, r)
    requires TotalCount(Step(gs, r)) == |rs| + 1
    ensures Describes(Step(gs, r), rs + [r])
  {
    var gs' := Step(gs, r);
    forall k | 0 <= k < |gs'|
      ensures gs'[k].count >= 1
      ensures TotalCount(gs'[..k]) < |rs + [r]| && gs'[k].text == (rs + [r])[TotalCount(gs'[..k])]
    {
      DescribesAt(gs, rs, k);
      JoinKeeps(gs, r, k);
      AppendIndex(rs, r, TotalCount(gs[..k]));
    }
  }

  lemma StartDescribes(gs: seq<Group>, rs: seq<string>, r: string)
    requires Describes(gs, rs) && !Joins(gs, r)
    requires TotalCount(Step(gs, r)) == |rs| + 1
    ensures Describes(Step(gs, r), rs + [r])
  {
    var gs' := Step(gs, r);
    forall k | 0 <= k < |gs'|
      ensures gs'[k].count >= 1
      ensures TotalCount(gs'[..k]) < |rs + [r]| && gs'[k].text == (rs + [r])[TotalCount(gs'[..k])]
    {
      StartKeeps(gs, r, k);
      if k < |gs| {
        DescribesAt(gs, rs, k);
        AppendIndex(rs, r, TotalCount(gs[..k]));
      } else {
        assert TotalCount(gs) == |rs|;
        AppendIndex(rs, r, |rs|);
      }
    }
  }

  /** What `Describes` says about one group. */
  lemma DescribesAt(gs: seq<Group>, rs: seq<string>, k: nat)
    requires Describes(gs, rs) && k < |gs|
    ensures gs[k].count >= 1
    ensures TotalCount(gs[..k]) < |rs| && gs[k].text == rs[TotalCount(gs[..k])]
  {
  }

  /** A joining step keeps the groups, and the text of the last one. */
  lemma JoinKeeps(gs: seq<Group>, r: string, k: nat)
    requires Joins(gs, r) && k < |gs|
    ensures |Step(gs, r)| == |gs|
    ensures Step(gs, r)[..k] == gs[..k]
    ensures Step(gs, r)[k].text == gs[k].text && Step(gs, r)[k].count >= gs[k].count
  {
  }

  /** A starting step keeps the groups and adds one of `r` at the end. */
  lemma StartKeeps(gs: seq<Group>, r: string, k: nat)
    requires !Joins(gs, r) && k <= |gs|
    ensures |Step(gs, r)| == |gs| + 1
    ensures Step(gs, r)[..k] == gs[..k]
    ensures Step(gs, r)[k] == if k < |gs| then gs[k] else Group(r, 1)
  {
  }

  /** What `run` evidently means to compute: every group of `Runs` starts
      at a record, with that record as read as its text, and the groups stand
      for all the records. */
  lemma {:induction false} RunsDescribe(rs: seq<string>)
    ensures Describes(Runs(rs), rs)
    decreases |rs|
  {
    if rs != [] {
      var init := rs[..|rs| - 1];
      var r := rs[|rs| - 1];
      RunsDescribe(init);
      StepDescribes(Runs(init), init, r);
      SplitLast(rs);
      assert Runs(rs) == Step(Runs(init), r);
    }
  }

  /** `n` copies of `x`. */
  function Repeat(x: string, n: nat): seq<string>
    decreases n
  {
    if n == 0 then [] else Repeat(x, n - 1) + [x]
  }

  /** The record keys the groups stand for: each group's key, as many times
      as its count. */
  function Expand(gs: seq<Group>): seq<string>
    decreases |gs|
  {
    if gs == [] then [] else Expand(gs[..|gs| - 1]) + Repeat(TrimEnd(gs[|gs| - 1].text), gs[|gs| - 1].count)
  }

  /** The keys the comparison uses, record by record. */
  function Keys(rs: seq<string>): (ks: seq<string>)
    ensures |ks| == |rs|
    decreases |rs|
  {
    if rs == [] then [] else Keys(rs[..|rs| - 1]) + [TrimEnd(rs[|rs| - 1])]
  }

  lemma {:induction false} KeysAt(rs: seq<string>, i: nat)
    requires i < |rs|
    ensures Keys(rs)[i] == TrimEnd(rs[i])
    decreases |rs|
  {
    if i < |rs| - 1 {
      KeysAt(rs[..|rs| - 1], i);
    }
  }

  lemma StepExpand(gs: seq<Group>, r: string)
    ensures Expand(Step(gs, r)) == Expand(gs) + [TrimEnd(r)]
  {
    var gs' := Step(gs, r);
    if Joins(gs, r) {
      var last := gs[|gs| - 1];
      assert gs'[..|gs'| - 1] == gs[..|gs| - 1];
      Associative(Expand(gs[..|gs| - 1]), Repeat(TrimEnd(last.text), last.count), [TrimEnd(r)]);
      calc {
        Expand(gs');
        Expand(gs[..|gs| - 1]) + Repeat(TrimEnd(last.text), last.count + 1);
        Expand(gs[..|gs| - 1]) + (Repeat(TrimEnd(last.text), last.count) + [TrimEnd(r)]);
        (Expand(gs[..|gs| - 1]) + Repeat(TrimEnd(last.text), last.count)) + [TrimEnd(r)];
        Expand(gs) + [TrimEnd(r)];
      }
    } else {
      assert gs'[..|gs'| - 1] == gs;
      assert Repeat(TrimEnd(r), 1) == [TrimEnd(r)];
    }
  }

  /** Grouping loses no record: expanding the groups gives back the key of
      every record read, in order. */
  lemma {:induction false} CollapseExpand(init: seq<Group>, rs: seq<string>)
    ensures Expand(Collapse(init, rs)) == Expand(init) + Keys(rs)
    decreases |rs|
  {
    if rs != [] {
      var front := rs[..|rs| - 1];
      var k := TrimEnd(rs[|rs| - 1]);
      CollapseExpand(init, front);
      StepExpand(Collapse(init, front), rs[|rs| - 1]);
      assert Keys(rs) == Keys(front) + [k];
      Associative(Expand(init), Keys(front), [k]);
    }
  }

  lemma RunsExpand(rs: seq<string>)
    ensures Expand(Runs(rs)) == Keys(rs)
    ensures Expand(Collapse(Sentinel, rs)) == Keys(rs)
  {
    CollapseExpand([], rs);
    CollapseExpand(Sentinel, rs);
    assert Sentinel[..0] == [];
    assert Expand(Sentinel) == Expand([]) + Repeat("", 0);
  }

  /** Reading `a` and then `b` is reading `a + b`. */
  lemma {:induction false} CollapseAppend(init: seq<Group>, a: seq<string>, b: seq<string>)
    ensures Collapse(init, a + b) == Collapse(Collapse(init, a), b)
    decreases |b|
  {
    if b == [] {
      assert a + b == a;
    } else {
      var front := b[..|b| - 1];
      CollapseAppend(init, a, front);
      AppendInit(a, b);
    }
  }

  lemma CollapseOne(init: seq<Group>, r: string)
    ensures Collapse(init, [r]) == Step(init, r)
  {
    assert [r][..0] == [];
  }

  /** A step only looks at the last group. */
  lemma StepPrefix(p: seq<Group>, gs: seq<Group>, r: string)
    requires gs != []
    ensures Step(p + gs, r) == p + Step(gs, r)
  {
    assert (p + gs)[|p + gs| - 1] == gs[|gs| - 1];
    assert (p + gs)[..|p + gs| - 1] == p + gs[..|gs| - 1];
  }

  /** Groups before the last one are never touched again. */
  lemma {:induction false} CollapsePrefix(p: seq<Group>, g: Group, rs: seq<string>)
    ensures Collapse(p + [g], rs) == p + Collapse([g], rs)
    decreases |rs|
  {
    if rs != [] {
      var front := rs[..|rs| - 1];
      CollapsePrefix(p, g, front);
      StepPrefix(p, Collapse([g], front), rs[|rs| - 1]);
    }
  }

  /** How many records at the start of `rs` are blank after `trim_end`. */
  function LeadingBlank(rs: seq<string>): (k: nat)
    ensures k <= |rs|
    decreases |rs|
  {
    if rs == [] || TrimEnd(rs[0]) != [] then 0 else 1 + LeadingBlank(rs[1..])
  }

  lemma {:induction false} LeadingBlankShape(rs: seq<string>)
    ensures forall i :: 0 <= i < LeadingBlank(rs) ==> TrimEnd(rs[i]) == []
    ensures LeadingBlank(rs) < |rs| ==> TrimEnd(rs[LeadingBlank(rs)]) != []
    decreases |rs|
  {
    if rs != [] && TrimEnd(rs[0]) == [] {
      LeadingBlankShape(rs[1..]);
    }
  }

  /** Blank records at the start join the initial group of the code, whose
      text stays `""`. */
  lemma {:induction false} BlankPrefix(rs: seq<string>, k: nat)
    requires k <= |rs|
    requires forall i :: 0 <= i < k ==> TrimEnd(rs[i]) == []
    ensures Collapse(Sentinel, rs[..k]) == [Group("", k)]
    decreases k
  {
    if k > 0 {
      BlankPrefix(rs, k - 1);
      assert rs[..k][..k - 1] == rs[..k - 1];
      assert TrimEnd("") == "";
      assert Joins([Group("", k - 1)], rs[k - 1]);
    }
  }

  /** The code as written computes the runs, except that the records at the
      start that are blank after `trim_end` form a group with text `""`
      instead of their first record. */
  lemma SentinelCollapse(rs: seq<string>)
    ensures Collapse(Sentinel, rs) == [Group("", LeadingBlank(rs))] + Runs(rs[LeadingBlank(rs)..])
  {
    var k := LeadingBlank(rs);
    var g := Group("", k);
    LeadingBlankShape(rs);
    BlankPrefix(rs, k);
    SplitAt(rs, k);
    CollapseAppend(Sentinel, rs[..k], rs[k..]);
    var t := rs[k..];
    if t == [] {
      assert [g] + Runs(t) == [g];
    } else {
      AfterBlank(k, t);
    }
  }

  /** The runs of a non-empty sequence start with a group of its first record. */
  lemma RunsCons(t: seq<string>)
    requires t != []
    ensures Runs(t) == Collapse([Group(t[0], 1)], t[1..])
  {
    HeadTail(t);
    CollapseAppend([], [t[0]], t[1..]);
    CollapseOne([], t[0]);
    assert Step([], t[0]) == [Group(t[0], 1)];
  }

  /** Once a record that is not blank arrives, the blank group is closed and
      the runs of the rest follow it. */
  lemma AfterBlank(k: nat, t: seq<string>)
    requires t != [] && TrimEnd(t[0]) != []
    ensures Collapse([Group("", k)], t) == [Group("", k)] + Runs(t)
  {
    var g := Group("", k);
    assert TrimEnd("") == "";
    HeadTail(t);
    CollapseOne([g], t[0]);
    assert Step([g], t[0]) == [g] + [Group(t[0], 1)];
    CollapseAppend([g], [t[0]], t[1..]);
    CollapsePrefix([g], Group(t[0], 1), t[1..]);
    RunsCons(t);
  }

  lemma {:induction false} EmittedCons(showCount: bool, g: Group, gs: seq<Group>)
    ensures Emitted(showCount, [g] + gs) == Print(showCount, g.count, g.text) + Emitted(showCount, gs)
    decreases |gs|
  {
    if gs == [] {
      SingleGroup(showCount, g);
      assert [g] + gs == [g];
    } else {
      var s := [g] + gs;
      var front := Flushed(gs);
      var last := gs[|gs| - 1];
      EmittedCons(showCount, g, front);
      ConsLast(g, gs);
      EmittedSnoc(showCount, s);
      EmittedSnoc(showCount, gs);
      assert Flushed(s) == [g] + front;
      Associative(Print(showCount, g.count, g.text), Emitted(showCount, front), Print(showCount, last.count, last.text));
    }
  }

  lemma SingleGroup(showCount: bool, g: Group)
    ensures Emitted(showCount, [g]) == Print(showCount, g.count, g.text)
  {
    assert [g][..0] == [];
  }

  /** What the code writes: the leading blank group (nothing when there is
      none, and nothing without `-c`), then the runs of the other records. */
  lemma WrittenVersusRuns(showCount: bool, rs: seq<string>)
    ensures Emitted(showCount, Collapse(Sentinel, rs))
      == Print(showCount, LeadingBlank(rs), "") + Emitted(showCount, Runs(rs[LeadingBlank(rs)..]))
    ensures LeadingBlank(rs) == 0 ==> Emitted(showCount, Collapse(Sentinel, rs)) == Emitted(showCount, Runs(rs))
  {
    SentinelCollapse(rs);
    var k := LeadingBlank(rs);
    EmittedCons(showCount, Group("", k), Runs(rs[k..]));
    assert rs[0..] == rs;
  }

  /** The text of each group, in order. */
  function Texts(gs: seq<Group>): (ts: seq<string>)
    ensures |ts| == |gs|
  {
    seq(|gs|, k requires 0 <= k < |gs| => gs[k].text)
  }

  /** Without `-c`, groups that each stand for at least one record write
      their texts one after another. */
  lemma {:induction false} EmittedPlain(gs: seq<Group>)
    requires forall k :: 0 <= k < |gs| ==> gs[k].count >= 1
    ensures Emitted(false, gs) == Concat(Texts(gs))
    decreases |gs|
  {
    if gs != [] {
      HeadTail(gs);
      EmittedPlain(gs[1..]);
      EmittedCons(false, gs[0], gs[1..]);
      assert Texts(gs)[1..] == Texts(gs[1..]);
    }
  }

  /** Records that each differ from the next after `trim_end` are runs of one. */
  lemma {:induction false} RunsOfDistinct(ts: seq<string>)
    requires forall i :: 0 <= i < |ts| - 1 ==> TrimEnd(ts[i]) != TrimEnd(ts[i + 1])
    ensures Texts(Runs(ts)) == ts
    ensures forall k :: 0 <= k < |Runs(ts)| ==> Runs(ts)[k].count == 1
    decreases |ts|
  {
    if ts != [] {
      var init := ts[..|ts| - 1];
      var r := ts[|ts| - 1];
      RunsOfDistinct(init);
      var gs := Runs(init);
      CollapseSnoc([], init, r);
      SplitLast(ts);
      if gs != [] {
        assert gs[|gs| - 1].text == Texts(gs)[|gs| - 1] == ts[|ts| - 2];
      }
      assert !Joins(gs, r);
      assert Runs(ts) == gs + [Group(r, 1)];
      assert Texts(gs + [Group(r, 1)]) == init + [r];
    }
  }

  /** The first record of a run is a record, and ends with a line feed
      unless the run is the last one, when the records read are such. */
  lemma RunTextIsRecord(rs: seq<string>, k: nat)
    requires forall i :: 0 <= i < |rs| ==> IsRecord(rs[i])
    requires forall i :: 0 <= i < |rs| - 1 ==> EndsWithNewline(rs[i])
    requires k < |Runs(rs)|
    ensures IsRecord(Runs(rs)[k].text)
    ensures k < |Runs(rs)| - 1 ==> EndsWithNewline(Runs(rs)[k].text)
  {
    var gs := Runs(rs);
    RunsDescribe(rs);
    DescribesAt(gs, rs, k);
    if k < |gs| - 1 {
      DescribesAt(gs, rs, k + 1);
      assert gs[..k + 1][..k] == gs[..k];
    }
  }

  lemma RunsTextsAreRecords(rs: seq<string>)
    requires forall i :: 0 <= i < |rs| ==> IsRecord(rs[i])
    requires forall i :: 0 <= i < |rs| - 1 ==> EndsWithNewline(rs[i])
    ensures forall k :: 0 <= k < |Runs(rs)| ==> IsRecord(Texts(Runs(rs))[k])
    ensures forall k :: 0 <= k < |Runs(rs)| - 1 ==> EndsWithNewline(Texts(Runs(rs))[k])
  {
    forall k | 0 <= k < |Runs(rs)|
      ensures IsRecord(Texts(Runs(rs))[k]) && (k < |Runs(rs)| - 1 ==> EndsWithNewline(Texts(Runs(rs))[k]))
    {
      RunTextIsRecord(rs, k);
    }
  }

  /** Without `-c`, what the runs write reads back as the first record of
      each run, and collapsing that again writes it unchanged. */
  lemma RunsOutputRecords(rs: seq<string>)
    requires forall i :: 0 <= i < |rs| ==> IsRecord(rs[i])
    requires forall i :: 0 <= i < |rs| - 1 ==> EndsWithNewline(rs[i])
    ensures Records(Emitted(false, Runs(rs))) == Texts(Runs(rs))
    ensures Emitted(false, Runs(Records(Emitted(false, Runs(rs))))) == Emitted(false, Runs(rs))
  {
    var gs := Runs(rs);
    var ts := Texts(gs);
    assert Emitted(false, gs) == Concat(ts) by {
      RunsDescribe(rs);
      EmittedPlain(gs);
    }
    assert Records(Concat(ts)) == ts by {
      RunsTextsAreRecords(rs);
      RecordsOfConcat(ts);
    }
    assert Emitted(false, Runs(ts)) == Concat(ts) by {
      assert forall i :: 0 <= i < |ts| - 1 ==> TrimEnd(ts[i]) != TrimEnd(ts[i + 1]) by {
        WrittenNeighboursDiffer(rs);
      }
      RunsOfDistinct(ts);
      EmittedPlain(Runs(ts));
    }
  }

  /** Collapsing is idempotent without `-c`: the runs of what the corrected
      loop writes are what it wrote. */
  lemma RunsIdempotent(t: string)
    ensures var o := Emitted(false, Runs(Records(t)));
      Emitted(false, Runs(Records(o))) == o
  {
    RecordsPartition(t);
    RunsOutputRecords(Records(t));
  }

  /** Without `-c` the code writes the runs of the records after the
      leading blank ones. */
  lemma WrittenPlain(rs: seq<string>)
    ensures Emitted(false, Collapse(Sentinel, rs)) == Emitted(false, Runs(rs[LeadingBlank(rs)..]))
  {
    WrittenVersusRuns(false, rs);
    assert Print(false, LeadingBlank(rs), "") == "";
  }

  /** The runs after the leading blank records start with a record that is
      not blank. */
  lemma RunsAfterBlank(rs: seq<string>)
    ensures LeadingBlank(Texts(Runs(rs[LeadingBlank(rs)..]))) == 0
  {
    var k := LeadingBlank(rs);
    var rest := rs[k..];
    var ts := Texts(Runs(rest));
    if ts != [] {
      RunsDescribe(rest);
      DescribesAt(Runs(rest), rest, 0);
      assert Runs(rest)[..0] == [];
      assert ts[0] == rest[0] == rs[k];
      LeadingBlankShape(rs);
    }
  }

  /** What is left after some records is still a sequence of records. */
  lemma SuffixRecords(rs: seq<string>, k: nat)
    requires k <= |rs|
    requires forall i :: 0 <= i < |rs| ==> IsRecord(rs[i])
    requires forall i :: 0 <= i < |rs| - 1 ==> EndsWithNewline(rs[i])
    ensures forall i :: 0 <= i < |rs[k..]| ==> IsRecord(rs[k..][i])
    ensures forall i :: 0 <= i < |rs[k..]| - 1 ==> EndsWithNewline(rs[k..][i])
  {
    assert forall i :: 0 <= i < |rs[k..]| ==> rs[k..][i] == rs[k + i];
  }

  /** The code as written is idempotent without `-c` too: its output has no
      leading blank record, so the sentinel absorbs nothing the second time. */
  lemma CollapsedIdempotent(t: string)
    ensures var o := Emitted(false, Collapse(Sentinel, Records(t)));
      Emitted(false, Collapse(Sentinel, Records(o))) == o
  {
    var rs := Records(t);
    var rest := rs[LeadingBlank(rs)..];
    var o := Emitted(false, Collapse(Sentinel, rs));
    assert o == Emitted(false, Runs(rest)) by {
      WrittenPlain(rs);
    }
    assert Records(o) == Texts(Runs(rest)) && Emitted(false, Runs(Records(o))) == o by {
      RecordsPartition(t);
      SuffixRecords(rs, LeadingBlank(rs));
      RunsOutputRecords(rest);
    }
    assert LeadingBlank(Records(o)) == 0 by {
      RunsAfterBlank(rs);
    }
    WrittenVersusRuns(false, Records(o));
  }

  /** An empty input writes nothing: the final flush has a count of 0. */
  lemma EmptyInputWritesNothing(showCount: bool)
    ensures Emitted(showCount, Collapse(Sentinel, Records(""))) == ""
  {
    assert Sentinel[..0] == [];
  }

  /** A single record that is not blank is written once, by the final flush,
      whether or not it ends with a line feed. */
  lemma SingleRecord(showCount: bool, r: string)
    requires IsRecord(r) && TrimEnd(r) != []
    ensures Emitted(showCount, Collapse(Sentinel, Records(r))) == Print(showCount, 1, r)
  {
    RecordsOfRecord(r);
    CollapseOne(Sentinel, r);
    assert TrimEnd("") == "";
    var gs := Sentinel + [Group(r, 1)];
    assert Step(Sentinel, r) == gs;
    assert gs[..1] == Sentinel && Sentinel[..0] == [];
  }

  /** With `-c` a group is its count right-justified in four columns, a space
      and its text; without, its text alone; a count of 0 writes nothing. */
  lemma PrintShape(showCount: bool, count: nat, text: string)
    ensures count == 0 ==> Print(showCount, count, text) == ""
    ensures count > 0 && !showCount ==> Print(showCount, count, text) == text
    ensures count > 0 && showCount ==>
      var r, field := Print(showCount, count, text), Justify(count, 4);
      |field| >= 4 && |r| == |field| + 1 + |text| && r[..|field|] == field && r[|field|..] == " " + text
  {
    if count > 0 && showCount {
      var r := Print(showCount, count, text);
      var j := Justify(count, 4);
      assert r == j + (" " + text);
      assert r[..|j|] == j && r[|j|..] == " " + text;
    }
  }

  /** The input of the discrepancy: a blank line and then `a`. */
  const BlankThenA: string := "\n" + "a\n"

  lemma BlankThenARecords()
    ensures Records(BlankThenA) == ["\n", "a\n"]
  {
    var rs := ["\n", "a\n"];
    assert IsRecord(rs[0]) && IsRecord(rs[1]);
    assert Concat(rs) == BlankThenA by {
      assert Concat(rs[1..]) == "a\n" + Concat([]);
    }
    RecordsOfConcat(rs);
  }

  /** The code loses the leading blank line: without `-c` it writes only
      `"a\n"` for `"\na\n"`, and with `-c` the blank line's group is
      written as `"   1 "` with no line feed. The runs keep the blank line. */
  lemma LeadingBlankLineLost()
    ensures Emitted(false, Collapse(Sentinel, Records(BlankThenA))) == "a\n"
    ensures Emitted(true, Collapse(Sentinel, Records(BlankThenA))) == "   1 " + "   1 a\n"
    ensures Emitted(false, Runs(Records(BlankThenA))) == BlankThenA
  {
    BlankThenARecords();
    var rs := ["\n", "a\n"];
    BlankThenAKeys();
    WrittenVersusRuns(false, rs);
    WrittenVersusRuns(true, rs);
    OneRun(false);
    OneRun(true);
    OneCount();
    BlankThenARuns();
    EmittedCons(false, Group("\n", 1), [Group("a\n", 1)]);
    SingleGroup(false, Group("a\n", 1));
  }

  lemma BlankThenAKeys()
    ensures LeadingBlank(["\n", "a\n"]) == 1 && ["\n", "a\n"][1..] == ["a\n"]
  {
    var rs := ["\n", "a\n"];
    assert TrimEnd("\n") == "" && TrimEnd("a\n") == "a";
    assert rs[1..] == ["a\n"];
  }

  lemma OneCount()
    ensures Print(true, 1, "") == "   1 " && Print(true, 1, "a\n") == "   1 a\n"
  {
    assert Decimal(1) == "1";
    assert PadLeft("1", 4) == "   1";
  }

  lemma OneRun(showCount: bool)
    ensures Runs(["a\n"]) == [Group("a\n", 1)]
    ensures Emitted(showCount, Runs(["a\n"])) == Print(showCount, 1, "a\n")
  {
    CollapseOne([], "a\n");
    SingleGroup(showCount, Group("a\n", 1));
  }

  lemma BlankThenARuns()
    ensures Runs(["\n", "a\n"]) == [Group("\n", 1), Group("a\n", 1)]
  {
    assert TrimEnd("a\n") == "a" && TrimEnd("\n") == "";
    TwoRuns("\n", "a\n");
  }

  /** Two records that differ after `trim_end` are two runs of one. */
  lemma TwoRuns(x: string, y: string)
    requires TrimEnd(x) != TrimEnd(y)
    ensures Runs([x, y]) == [Group(x, 1), Group(y, 1)]
  {
    var rs := [x, y];
    RunsCons(rs);
    assert rs[1..] == [y];
    CollapseOne([Group(x, 1)], y);
  }
}
