/** Small facts about sequences that the proofs use as single steps. */
module Sequences {

  lemma AppendIndex<T>(s: seq<T>, x: T, i: nat)
    requires i <= |s|
    ensures (s + [x])[i] == if i < |s| then s[i] else x
  {
  }

  lemma SplitLast<T>(s: seq<T>)
    requires s != []
    ensures s[..|s| - 1] + [s[|s| - 1]] == s
  {
  }

  lemma Associative<T>(a: seq<T>, b: seq<T>, c: seq<T>)
    ensures (a + b) + c == a + (b + c)
  {
  }

  lemma ConsLast<T>(x: T, s: seq<T>)
    requires s != []
    ensures ([x] + s)[..|s|] == [x] + s[..|s| - 1] && ([x] + s)[|s|] == s[|s| - 1]
  {
  }

  lemma SplitAt<T>(s: seq<T>, k: nat)
    requires k <= |s|
    ensures s == s[..k] + s[k..]
  {
  }

  lemma HeadTail<T>(s: seq<T>)
    requires s != []
    ensures s == [s[0]] + s[1..]
  {
  }

  lemma AppendInit<T>(a: seq<T>, b: seq<T>)
    requires b != []
    ensures (a + b)[..|a + b| - 1] == a + b[..|b| - 1] && (a + b)[|a + b| - 1] == b[|b| - 1]
  {
  }

  lemma AppendSplit<T>(a: seq<T>, b: seq<T>, n: nat)
    requires n <= |a|
    ensures (a + b)[..n] == a[..n] && (a + b)[n..] == a[n..] + b
  {
  }

  /** A prefix of `prev` is a prefix of anything that extends `prev`. */
  lemma PrefixExtends<T>(upto: seq<T>, prev: seq<T>, more: seq<T>)
    requires |upto| <= |prev| && prev[..|upto|] == upto
    ensures |upto| <= |prev + more| && (prev + more)[..|upto|] == upto
  {
    AppendSplit(prev, more, |upto|);
  }

  /** The pieces `ps` one after another. */
  function Flatten<T>(ps: seq<seq<T>>): seq<T>
    decreases |ps|
  {
    if ps == [] then [] else Flatten(ps[..|ps| - 1]) + ps[|ps| - 1]
  }

  lemma FlattenSnoc<T>(ps: seq<seq<T>>, p: seq<T>)
    ensures Flatten(ps + [p]) == Flatten(ps) + p
  {
    assert (ps + [p])[..|ps|] == ps;
  }

  /** The pieces before `k` make a prefix of the whole. */
  lemma {:induction false} FlattenPrefix<T>(ps: seq<seq<T>>, k: nat)
    requires k <= |ps|
    ensures |Flatten(ps[..k])| <= |Flatten(ps)| && Flatten(ps)[..|Flatten(ps[..k])|] == Flatten(ps[..k])
    decreases |ps|
  {
    if k == |ps| {
      assert ps[..k] == ps;
    } else {
      var init := ps[..|ps| - 1];
      assert init[..k] == ps[..k];
      FlattenPrefix(init, k);
      PrefixExtends(Flatten(ps[..k]), Flatten(init), ps[|ps| - 1]);
    }
  }

  /** Piece `k` sits in the whole right after the pieces before it. */
  lemma FlattenSegment<T>(ps: seq<seq<T>>, k: nat)
    requires k < |ps|
    ensures var start, end := |Flatten(ps[..k])|, |Flatten(ps[..k + 1])|;
      start <= end <= |Flatten(ps)| && Flatten(ps)[start..end] == ps[k]
  {
    var before, upto := Flatten(ps[..k]), Flatten(ps[..k + 1]);
    assert ps[..k + 1] == ps[..k] + [ps[k]];
    FlattenSnoc(ps[..k], ps[k]);
    FlattenPrefix(ps, k + 1);
    var all := Flatten(ps);
    assert all[|before|..|upto|] == all[..|upto|][|before|..];
  }
}
