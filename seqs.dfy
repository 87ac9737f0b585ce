/**
 * Sequence helpers shared by the scripts' collections: a JavaScript `Set` or
 * `Map` read back in insertion order, and `Array.prototype.filter`.
 */
module Seqs {
  import opened Wrappers

  /** The elements of `s` in order of first appearance, each once: what adding
      them one by one to a `Set` and reading it back gives. */
  function Dedup<T(==, !new)>(s: seq<T>): (d: seq<T>)
    ensures forall x :: x in d <==> x in s
  {
    if s == [] then []
    else
      var d := Dedup(s[..|s| - 1]);
      assert s == s[..|s| - 1] + [s[|s| - 1]];
      if s[|s| - 1] in d then d else d + [s[|s| - 1]]
  }

  /** Adding one more element to a `Set`. */
  lemma DedupSnoc<T(!new)>(s: seq<T>, x: T)
    ensures Dedup(s + [x]) == if x in Dedup(s) then Dedup(s) else Dedup(s) + [x]
  {
    assert (s + [x])[..|s|] == s;
  }

  predicate NoDuplicates<T(==, !new)>(s: seq<T>)
  {
    forall i, j :: 0 <= i < j < |s| ==> s[i] != s[j]
  }

  /** The index of the first occurrence of `x` in `s`. */
  function FirstIndex<T(==, !new)>(s: seq<T>, x: T): (k: nat)
    requires x in s
    ensures k < |s| && s[k] == x && x !in s[..k]
  {
    if s[0] == x then 0
    else
      assert s[1..][FirstIndex(s[1..], x)] == x;
      assert s[..FirstIndex(s[1..], x) + 1] == [s[0]] + s[1..][..FirstIndex(s[1..], x)];
      FirstIndex(s[1..], x) + 1
  }

  /** Every element appears once, and in the order the elements first appear. */
  lemma {:induction false} DedupFirstSeen<T(!new)>(s: seq<T>)
    ensures NoDuplicates(Dedup(s))
    ensures forall i, j :: 0 <= i < j < |Dedup(s)| ==> FirstIndex(s, Dedup(s)[i]) < FirstIndex(s, Dedup(s)[j])
    decreases |s|
  {
    if s != [] {
      var init, x := s[..|s| - 1], s[|s| - 1];
      var d := Dedup(init);
      DedupFirstSeen(init);
      assert s == init + [x];
      forall y | y in init ensures FirstIndex(s, y) == FirstIndex(init, y) {
        var k := FirstIndex(init, y);
        assert s[..k] == init[..k];
        FirstIndexAt(s, y, k);
      }
      if x !in d {
        assert x !in init;
        assert s[..|s| - 1] == init;
        FirstIndexAt(s, x, |s| - 1);
        forall i | 0 <= i < |d| ensures FirstIndex(s, d[i]) < FirstIndex(s, x) {
          assert d[i] in init;
        }
      }
    }
  }

  lemma FirstIndexAt<T(!new)>(s: seq<T>, x: T, k: nat)
    requires k < |s| && s[k] == x && x !in s[..k]
    ensures FirstIndex(s, x) == k
  {
  }

  /** The first element of a non-empty sequence is the first one kept. */
  lemma {:induction false} DedupFront<T(!new)>(s: seq<T>)
    requires s != []
    ensures Dedup(s) != [] && Dedup(s)[0] == s[0]
    decreases |s|
  {
    if |s| > 1 {
      var init := s[..|s| - 1];
      DedupFront(init);
    }
  }

  /** `Array.prototype.filter`: the elements that satisfy `p`, in order. */
  function Filter<T(!new)>(s: seq<T>, p: T -> bool): (r: seq<T>)
    ensures |r| <= |s|
    ensures forall x :: x in r <==> x in s && p(x)
  {
    if s == [] then []
    else
      assert s == s[..|s| - 1] + [s[|s| - 1]];
      Filter(s[..|s| - 1], p) + (if p(s[|s| - 1]) then [s[|s| - 1]] else [])
  }

  /** Filtering distributes over concatenation, so it keeps the relative
      order of the elements it keeps. */
  lemma {:induction false} FilterAppend<T(!new)>(a: seq<T>, b: seq<T>, p: T -> bool)
    ensures Filter(a + b, p) == Filter(a, p) + Filter(b, p)
    decreases |b|
  {
    if b == [] {
      assert a + b == a;
    } else {
      var b' := b[..|b| - 1];
      assert (a + b)[..|a + b| - 1] == a + b';
      assert b[..|b| - 1] == b';
      FilterAppend(a, b', p);
    }
  }

  lemma FilterCons<T(!new)>(x: T, s: seq<T>, p: T -> bool)
    ensures Filter([x] + s, p) == (if p(x) then [x] else []) + Filter(s, p)
  {
    FilterAppend([x], s, p);
    FilterOne(x, p);
  }

  lemma FilterOne<T(!new)>(x: T, p: T -> bool)
    ensures Filter([x], p) == if p(x) then [x] else []
  {
    assert [x][..0] == [];
  }

  /** `xs.map(f)`. */
  function MapSeq<A, B>(xs: seq<A>, f: A --> B): (ys: seq<B>)
    requires forall x :: x in xs ==> f.requires(x)
    ensures |ys| == |xs|
  {
    if xs == [] then [] else MapSeq(xs[..|xs| - 1], f) + [f(xs[|xs| - 1])]
  }

  lemma {:induction false} MapSeqAt<A, B>(xs: seq<A>, f: A --> B, k: nat)
    requires forall x :: x in xs ==> f.requires(x)
    requires k < |xs|
    ensures MapSeq(xs, f)[k] == f(xs[k])
  {
    var n := |xs| - 1;
    if k < n {
      MapSeqAt(xs[..n], f, k);
    }
  }

  /** Mapping a prefix gives the prefix of the mapped sequence. */
  lemma {:induction false} MapSeqPrefix<A, B>(xs: seq<A>, f: A --> B, m: nat)
    requires forall x :: x in xs ==> f.requires(x)
    requires m <= |xs|
    ensures MapSeq(xs[..m], f) == MapSeq(xs, f)[..m]
    decreases |xs|
  {
    if m == |xs| {
      assert xs[..m] == xs;
    } else {
      var n := |xs| - 1;
      assert xs[..n][..m] == xs[..m];
      MapSeqPrefix(xs[..n], f, m);
    }
  }

  lemma MapSeqSnoc<A, B>(xs: seq<A>, f: A --> B, i: nat)
    requires forall x :: x in xs ==> f.requires(x)
    requires i < |xs|
    ensures MapSeq(xs[..i + 1], f) == MapSeq(xs[..i], f) + [f(xs[i])]
  {
    assert xs[..i + 1][..i] == xs[..i];
  }

  /** `f` applied to each item together with its position. */
  function MapIndexed<A, B>(xs: seq<A>, f: (A, nat) --> B): (ys: seq<B>)
    requires forall i :: 0 <= i < |xs| ==> f.requires(xs[i], i)
    ensures |ys| == |xs|
  {
    if xs == [] then [] else MapIndexed(xs[..|xs| - 1], f) + [f(xs[|xs| - 1], |xs| - 1)]
  }

  lemma {:induction false} MapIndexedAt<A, B>(xs: seq<A>, f: (A, nat) --> B, k: nat)
    requires forall i :: 0 <= i < |xs| ==> f.requires(xs[i], i)
    requires k < |xs|
    ensures MapIndexed(xs, f)[k] == f(xs[k], k)
  {
    var n := |xs| - 1;
    if k < n {
      assert forall i :: 0 <= i < n ==> xs[..n][i] == xs[i];
      MapIndexedAt(xs[..n], f, k);
    }
  }

  /** Mapping a prefix gives the prefix of the mapped sequence. */
  lemma {:induction false} MapIndexedPrefix<A, B>(xs: seq<A>, f: (A, nat) --> B, m: nat)
    requires forall i :: 0 <= i < |xs| ==> f.requires(xs[i], i)
    requires m <= |xs|
    ensures forall i :: 0 <= i < m ==> f.requires(xs[..m][i], i)
    ensures MapIndexed(xs[..m], f) == MapIndexed(xs, f)[..m]
    decreases |xs|
  {
    if m == |xs| {
      assert xs[..m] == xs;
    } else {
      var n := |xs| - 1;
      assert xs[..n][..m] == xs[..m];
      assert forall i :: 0 <= i < n ==> xs[..n][i] == xs[i];
      MapIndexedPrefix(xs[..n], f, m);
    }
  }

  lemma MapIndexedSnoc<A, B>(xs: seq<A>, f: (A, nat) --> B, i: nat)
    requires forall j :: 0 <= j < |xs| ==> f.requires(xs[j], j)
    requires i < |xs|
    ensures MapIndexed(xs[..i + 1], f) == MapIndexed(xs[..i], f) + [f(xs[i], i)]
  {
    assert xs[..i + 1][..i] == xs[..i];
  }

  /** The values of a loop that handles items in order and stops at the first
      one it fails on; `stopped` says whether it did. */
  datatype Run<T> = Run(values: seq<T>, stopped: bool)

  /** The values before the first `None`, and whether there is one. */
  function UpToNone<T>(xs: seq<Option<T>>): Run<T>
  {
    if xs == [] then Run([], false)
    else
      var before := UpToNone(xs[..|xs| - 1]);
      if before.stopped then before
      else match xs[|xs| - 1]
        case None => Run(before.values, true)
        case Some(v) => Run(before.values + [v], false)
  }

  /** The run keeps the values in order up to the first `None`, stops exactly
      when there is one, and then stops at it. */
  lemma {:induction false} UpToNoneShape<T>(xs: seq<Option<T>>)
    ensures var r := UpToNone(xs);
      && |r.values| <= |xs|
      && (forall k :: 0 <= k < |r.values| ==> xs[k] == Some(r.values[k]))
      && (r.stopped <==> exists k :: 0 <= k < |xs| && xs[k].None?)
      && (r.stopped ==> xs[|r.values|].None?)
      && (!r.stopped ==> |r.values| == |xs|)
  {
    if xs != [] {
      var n := |xs| - 1;
      UpToNoneShape(xs[..n]);
      assert forall k :: 0 <= k < n ==> xs[..n][k] == xs[k];
    }
  }

  /** Once the run has stopped, later items change nothing. */
  lemma {:induction false} UpToNoneAfterStop<T>(xs: seq<Option<T>>, m: nat)
    requires m <= |xs| && UpToNone(xs[..m]).stopped
    ensures UpToNone(xs) == UpToNone(xs[..m])
    decreases |xs|
  {
    if m == |xs| {
      assert xs[..m] == xs;
    } else {
      var n := |xs| - 1;
      assert xs[..n][..m] == xs[..m];
      UpToNoneAfterStop(xs[..n], m);
    }
  }

  /** A run that has not stopped takes the next item. */
  lemma UpToNoneSnoc<T>(xs: seq<Option<T>>, x: Option<T>)
    requires !UpToNone(xs).stopped
    ensures UpToNone(xs + [x]) == match x
      case None => Run(UpToNone(xs).values, true)
      case Some(v) => Run(UpToNone(xs).values + [v], false)
  {
    assert (xs + [x])[..|xs|] == xs;
  }

  /** A run that has not stopped before a `None` stops at it. */
  lemma UpToNoneStopsAt<T>(xs: seq<Option<T>>, i: nat)
    requires i < |xs| && !UpToNone(xs[..i]).stopped && xs[i].None?
    ensures UpToNone(xs) == Run(UpToNone(xs[..i]).values, true)
  {
    assert xs[..i + 1] == xs[..i] + [xs[i]];
    UpToNoneSnoc(xs[..i], xs[i]);
    UpToNoneAfterStop(xs, i + 1);
  }
}
