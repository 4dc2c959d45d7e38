/** How the utilities cut their input into records: `BufRead::read_line`
    (the counting and run-length utilities) keeps the terminator, and
    `BufRead::lines` (the numbering utility) strips `"\n"` or `"\r\n"`.
    The input of one source is the whole decoded text it would deliver. */
module Reading {
  import opened Sequences

  /** A record as `read_line` delivers it: non-empty, with no line feed
      except possibly as its last character. */
  predicate IsRecord(r: string) {
    r != [] && forall j :: 0 <= j < |r| - 1 ==> r[j] != '\n'
  }

  predicate EndsWithNewline(s: string) {
    s != [] && s[|s| - 1] == '\n'
  }

  /** One call of `read_line` on what is left of the input: everything up to
      and including the first line feed, or all of it when there is none.
      An empty result means end of input (the 0-byte read). */
  function ReadLine(rest: string): (r: string)
    ensures |r| <= |rest| && r == rest[..|r|]
    ensures r == [] <==> rest == []
    decreases |rest|
  {
    if rest == [] then []
    else if rest[0] == '\n' then ['\n']
    else [rest[0]] + ReadLine(rest[1..])
  }

  /** `read_line` stops at the first line feed: what it returns has no line
      feed before its end, and ends with one unless it took all the rest. */
  lemma {:induction false} ReadLineShape(rest: string)
    ensures forall j :: 0 <= j < |ReadLine(rest)| - 1 ==> ReadLine(rest)[j] != '\n'
    ensures |ReadLine(rest)| == |rest| || EndsWithNewline(ReadLine(rest))
    decreases |rest|
  {
    if rest != [] && rest[0] != '\n' {
      ReadLineShape(rest[1..]);
      var r := ReadLine(rest);
      assert r == [rest[0]] + ReadLine(rest[1..]);
    }
  }

  /** The records that successive `read_line` calls return until end of input. */
  function Records(s: string): (rs: seq<string>)
    ensures s == [] <==> rs == []
    decreases |s|
  {
    if s == [] then [] else var r := ReadLine(s); [r] + Records(s[|r|..])
  }

  function Concat(rs: seq<string>): string
    decreases |rs|
  {
    if rs == [] then [] else rs[0] + Concat(rs[1..])
  }

  function NewlineCount(s: string): nat
    decreases |s|
  {
    if s == [] then 0 else (if s[0] == '\n' then 1 else 0) + NewlineCount(s[1..])
  }

  /** The records are a partition of the text: together they give it back,
      each is a record, and all but the last end with a line feed. */
  lemma {:induction false} RecordsPartition(s: string)
    ensures Concat(Records(s)) == s
    ensures forall i :: 0 <= i < |Records(s)| ==> IsRecord(Records(s)[i])
    ensures forall i :: 0 <= i < |Records(s)| - 1 ==> EndsWithNewline(Records(s)[i])
    decreases |s|
  {
    if s != [] {
      var r := ReadLine(s);
      var rest := s[|r|..];
      ReadLineShape(s);
      RecordsPartition(rest);
      var rs := Records(s);
      assert rs == [r] + Records(rest);
      assert rs[1..] == Records(rest);
      assert s == r + rest;
      if Records(rest) != [] {
        assert EndsWithNewline(r);
      }
    }
  }

  /** The number of records is the number of line feeds, plus one for a final
      record that has none. */
  lemma {:induction false} RecordsCount(s: string)
    ensures |Records(s)| == NewlineCount(s) + (if s != [] && s[|s| - 1] != '\n' then 1 else 0)
    decreases |s|
  {
    if s != [] {
      var r := ReadLine(s);
      var rest := s[|r|..];
      ReadLineShape(s);
      RecordsCount(rest);
      assert s == r + rest;
      NewlineCountAppend(r, rest);
      NewlineCountRecord(r);
      if rest == [] {
        assert s == r;
      } else {
        assert EndsWithNewline(r);
        assert s[|s| - 1] == rest[|rest| - 1];
      }
    }
  }

  /** A record holds one line feed when it ends with one, and none otherwise. */
  lemma {:induction false} NewlineCountRecord(r: string)
    requires forall j :: 0 <= j < |r| - 1 ==> r[j] != '\n'
    ensures NewlineCount(r) == if EndsWithNewline(r) then 1 else 0
    decreases |r|
  {
    if r != [] {
      NewlineCountRecord(r[1..]);
      if |r| > 1 {
        assert r[|r| - 1] == r[1..][|r| - 2];
      }
    }
  }

  lemma {:induction false} NewlineCountAppend(a: string, b: string)
    ensures NewlineCount(a + b) == NewlineCount(a) + NewlineCount(b)
    decreases |a|
  {
    if a == [] {
      assert a + b == b;
    } else {
      assert (a + b)[0] == a[0] && (a + b)[1..] == a[1..] + b;
      NewlineCountAppend(a[1..], b);
    }
  }

  /** `read_line` on a text that starts with a whole record returns that record. */
  lemma {:induction false} ReadLineOfRecord(r: string, rest: string)
    requires IsRecord(r)
    requires EndsWithNewline(r) || rest == []
    ensures ReadLine(r + rest) == r
    decreases |r|
  {
    var s := r + rest;
    if |r| == 1 {
      if r[0] != '\n' {
        assert s == r;
        assert ReadLine(s) == [s[0]] + ReadLine([]);
      }
    } else {
      assert s[0] == r[0] != '\n';
      assert s[1..] == r[1..] + rest;
      ReadLineOfRecord(r[1..], rest);
      assert r == [r[0]] + r[1..];
    }
  }

  /** Text that is cut right after a line feed splits into the records of
      its two parts. */
  lemma {:induction false} RecordsAppend(a: string, b: string)
    requires a == [] || EndsWithNewline(a)
    ensures Records(a + b) == Records(a) + Records(b)
    decreases |a|
  {
    if a == [] {
      assert a + b == b;
    } else {
      var r := ReadLine(a);
      var rest := a[|r|..];
      FirstRecordOfAppend(a, b);
      RecordsAppend(rest, b);
      Associative([r], Records(rest), Records(b));
      calc {
        Records(a + b);
        [r] + Records(rest + b);
        [r] + (Records(rest) + Records(b));
        Records(a) + Records(b);
      }
    }
  }

  /** Reading `a + b`, where `a` ends with a line feed, starts with the first
      record of `a`, and what is left still ends `a` with a line feed. */
  lemma FirstRecordOfAppend(a: string, b: string)
    requires EndsWithNewline(a)
    ensures ReadLine(a + b) == ReadLine(a)
    ensures (a + b)[|ReadLine(a)|..] == a[|ReadLine(a)|..] + b
    ensures a[|ReadLine(a)|..] == [] || EndsWithNewline(a[|ReadLine(a)|..])
  {
    var r := ReadLine(a);
    var rest := a[|r|..];
    assert IsRecord(r) && EndsWithNewline(r) by {
      ReadLineShape(a);
      if |r| == |a| {
        assert r == a;
      }
    }
    assert a + b == r + (rest + b) by {
      SplitAt(a, |r|);
      Associative(r, rest, b);
    }
    ReadLineOfRecord(r, rest + b);
    AppendSplit(r, rest + b, |r|);
    if rest != [] {
      assert rest[|rest| - 1] == a[|a| - 1];
    }
  }

  /** A single record read on its own is that one record. */
  lemma RecordsOfRecord(r: string)
    requires IsRecord(r)
    ensures Records(r) == [r]
  {
    ReadLineOfRecord(r, []);
    assert r + [] == r;
    assert r[|r|..] == [];
  }

  /** One step of a `read_line` loop: `done` is what earlier calls have
      returned, so the next call returns the next record, and what has been
      read afterwards again ends with a line feed unless the input is used up. */
  lemma NextRecord(done: string, rest: string, line: string)
    requires rest != [] && (done == [] || EndsWithNewline(done))
    requires line == ReadLine(rest)
    ensures line != [] && (done + line) + rest[|line|..] == done + rest
    ensures rest[|line|..] == [] || EndsWithNewline(done + line)
    ensures Records(done + line) == Records(done) + [line]
  {
    ReadLineShape(rest);
    assert IsRecord(line);
    assert rest[|line|..] == [] || EndsWithNewline(line);
    ReadLineSplits(done, rest, line);
    RecordsAppend(done, line);
    RecordsOfRecord(line);
  }

  lemma ReadLineSplits(done: string, rest: string, line: string)
    requires rest != [] && line == ReadLine(rest)
    ensures (done + line) + rest[|line|..] == done + rest
    ensures EndsWithNewline(line) ==> EndsWithNewline(done + line)
  {
    assert rest == line + rest[|line|..];
  }

  /** Splitting is the inverse of concatenation on any sequence of records of
      which all but the last end with a line feed. */
  lemma {:induction false} RecordsOfConcat(rs: seq<string>)
    requires forall i :: 0 <= i < |rs| ==> IsRecord(rs[i])
    requires forall i :: 0 <= i < |rs| - 1 ==> EndsWithNewline(rs[i])
    ensures Records(Concat(rs)) == rs
    decreases |rs|
  {
    if rs != [] {
      var rest := Concat(rs[1..]);
      assert rs[1..] == [] ==> rest == [];
      ReadLineOfRecord(rs[0], rest);
      RecordsOfConcat(rs[1..]);
      var s := rs[0] + rest;
      assert s[|rs[0]|..] == rest;
    }
  }

  /** What `lines()` keeps of a record: the record without its `"\n"`, and
      without a `"\r"` right before that `"\n"`. A final record that has no
      line feed is kept whole, even if it ends in `"\r"`. */
  function StripTerminator(r: string): string {
    if EndsWithNewline(r) then
      var t := r[..|r| - 1];
      if t != [] && t[|t| - 1] == '\r' then t[..|t| - 1] else t
    else r
  }

  /** The lines that `BufRead::lines` yields. */
  function Lines(s: string): (ls: seq<string>)
    ensures |ls| == |Records(s)|
  {
    var rs := Records(s);
    seq(|rs|, i requires 0 <= i < |rs| => StripTerminator(rs[i]))
  }

  /** The terminator `lines()` cuts off a record: `"\r\n"`, `"\n"`, or
      nothing for a final record without a line feed. */
  function Terminator(r: string): string {
    if !EndsWithNewline(r) then ""
    else if |r| >= 2 && r[|r| - 2] == '\r' then "\r\n"
    else "\n"
  }

  /** What `lines()` keeps of a record is a prefix of it with no line feed,
      and what it drops is the record's terminator. */
  lemma StripRecord(r: string)
    requires IsRecord(r)
    ensures |StripTerminator(r)| <= |r| && r == StripTerminator(r) + r[|StripTerminator(r)|..]
    ensures '\n' !in StripTerminator(r)
    ensures r[|StripTerminator(r)|..] == Terminator(r)
  {
    var t := StripTerminator(r);
    assert t == r[..|t|];
    if EndsWithNewline(r) {
      assert |t| < |r|;
    } else {
      assert t == r;
    }
    assert forall j :: 0 <= j < |t| ==> t[j] == r[j];
  }

  /** No line that `lines()` yields holds a line feed, and each is its record
      with the terminator cut off. */
  lemma LinesOfRecords(s: string)
    ensures forall i :: 0 <= i < |Lines(s)| ==> '\n' !in Lines(s)[i]
    ensures forall i :: 0 <= i < |Lines(s)| ==>
      Records(s)[i] == Lines(s)[i] + Records(s)[i][|Lines(s)[i]|..]
    ensures forall i :: 0 <= i < |Lines(s)| ==>
      Records(s)[i] == Lines(s)[i] + Terminator(Records(s)[i])
  {
    var ls, rs := Lines(s), Records(s);
    forall i | 0 <= i < |ls|
      ensures '\n' !in ls[i] && rs[i] == ls[i] + rs[i][|ls[i]|..] && rs[i] == ls[i] + Terminator(rs[i])
    {
      LineOfRecord(s, i);
    }
  }

  lemma LineOfRecord(s: string, i: nat)
    requires i < |Records(s)|
    ensures '\n' !in Lines(s)[i] && Records(s)[i] == Lines(s)[i] + Records(s)[i][|Lines(s)[i]|..]
    ensures Records(s)[i] == Lines(s)[i] + Terminator(Records(s)[i])
  {
    RecordsPartition(s);
    StripRecord(Records(s)[i]);
  }

  /** Printing every line that `lines()` yields followed by `"\n"` gives the
      text back, when it ends with a line feed and has no `"\r\n"`. */
  lemma PlainRoundTrip(s: string)
    requires s == [] || s[|s| - 1] == '\n'
    requires forall i :: 0 <= i < |s| - 1 ==> !(s[i] == '\r' && s[i + 1] == '\n')
    ensures ConcatLines(Lines(s)) == s
  {
    var rs, ls := Records(s), Lines(s);
    forall i | 0 <= i < |rs| ensures ls[i] + "\n" == rs[i] {
      LineAndNewline(s, i);
    }
    ConcatLinesOfRecords(rs, ls);
    RecordsPartition(s);
  }

  /** Under the conditions of `PlainRoundTrip`, line `i` and a line feed are record `i`. */
  lemma LineAndNewline(s: string, i: nat)
    requires s == [] || s[|s| - 1] == '\n'
    requires forall i :: 0 <= i < |s| - 1 ==> !(s[i] == '\r' && s[i + 1] == '\n')
    requires i < |Records(s)|
    ensures Lines(s)[i] + "\n" == Records(s)[i]
  {
    RecordEndsWithNewline(s, i);
    RecordNoCarriageReturn(s, i);
    StripNewline(Records(s)[i]);
  }

  /** A record that ends with `"\n"` and not with `"\r\n"` loses just its line feed. */
  lemma StripNewline(r: string)
    requires EndsWithNewline(r) && !(|r| >= 2 && r[|r| - 2] == '\r' && r[|r| - 1] == '\n')
    ensures StripTerminator(r) + "\n" == r
  {
    SplitLast(r);
  }

  /** Each line followed by a line feed, as `println!` writes it. */
  function ConcatLines(ls: seq<string>): string
    decreases |ls|
  {
    if ls == [] then [] else ls[0] + "\n" + ConcatLines(ls[1..])
  }

  lemma {:induction false} ConcatLinesSnoc(ls: seq<string>, l: string)
    ensures ConcatLines(ls + [l]) == ConcatLines(ls) + l + "\n"
    decreases |ls|
  {
    if ls == [] {
      assert ls + [l] == [l];
      assert ConcatLines([l]) == l + "\n" + ConcatLines([]);
    } else {
      assert (ls + [l])[0] == ls[0] && (ls + [l])[1..] == ls[1..] + [l];
      ConcatLinesSnoc(ls[1..], l);
    }
  }

  lemma {:induction false} ConcatLinesOfRecords(rs: seq<string>, ls: seq<string>)
    requires |rs| == |ls|
    requires forall i :: 0 <= i < |rs| ==> ls[i] + "\n" == rs[i]
    ensures ConcatLines(ls) == Concat(rs)
    decreases |rs|
  {
    if rs != [] {
      ConcatLinesOfRecords(rs[1..], ls[1..]);
    }
  }

  /** In a text that ends with a line feed, every record does. */
  lemma RecordEndsWithNewline(s: string, i: nat)
    requires s == [] || s[|s| - 1] == '\n'
    requires i < |Records(s)|
    ensures EndsWithNewline(Records(s)[i])
  {
    RecordsPartition(s);
    var rs := Records(s);
    if i == |rs| - 1 {
      ConcatLast(rs);
    }
  }

  /** The last character of a concatenation of records is the last character of its last record. */
  lemma {:induction false} ConcatLast(rs: seq<string>)
    requires rs != [] && rs[|rs| - 1] != []
    ensures Concat(rs) != [] && Concat(rs)[|Concat(rs)| - 1] == rs[|rs| - 1][|rs[|rs| - 1]| - 1]
    decreases |rs|
  {
    if |rs| > 1 {
      ConcatLast(rs[1..]);
    } else {
      assert Concat(rs) == rs[0] + Concat([]);
    }
  }

  /** Where the text has no `"\r\n"`, no record has `"\r"` before its line feed. */
  lemma RecordNoCarriageReturn(s: string, i: nat)
    requires forall k :: 0 <= k < |s| - 1 ==> !(s[k] == '\r' && s[k + 1] == '\n')
    requires i < |Records(s)|
    ensures var r := Records(s)[i]; !(|r| >= 2 && r[|r| - 2] == '\r' && r[|r| - 1] == '\n')
  {
    RecordsPartition(s);
    var rs := Records(s);
    var r := rs[i];
    var off := ConcatOffset(rs, i);
    if |r| >= 2 {
      var k := off + |r| - 2;
      assert s[k] == r[|r| - 2] && s[k + 1] == r[|r| - 1];
    }
  }

  /** Where record `i` sits in the concatenation. */
  lemma {:induction false} ConcatOffset(rs: seq<string>, i: nat) returns (off: nat)
    requires i < |rs|
    ensures off + |rs[i]| <= |Concat(rs)|
    ensures Concat(rs)[off..off + |rs[i]|] == rs[i]
    decreases |rs|
  {
    if i == 0 {
      off := 0;
      assert Concat(rs) == rs[0] + Concat(rs[1..]);
    } else {
      var o := ConcatOffset(rs[1..], i - 1);
      off := |rs[0]| + o;
      assert Concat(rs) == rs[0] + Concat(rs[1..]);
      assert Concat(rs)[off..off + |rs[i]|] == Concat(rs[1..])[o..o + |rs[i]|];
    }
  }
}
