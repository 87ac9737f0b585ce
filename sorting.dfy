/**
 * `Array.prototype.sort` with a consistent comparator. The scripts only ever
 * ask whether the comparator is negative, written `lt(a, b)` here; the engine's
 * sort is stable, so its result is the one insertion sort produces.
 */
module Sorting {

  /** `lt` never relates an element to itself and is transitive. */
  ghost predicate StrictOrder<T(!new)>(lt: (T, T) -> bool)
  {
    && (forall a :: !lt(a, a))
    && (forall a, b, c :: lt(a, b) && lt(b, c) ==> lt(a, c))
  }

  /** Neither element is strictly before the other. */
  predicate Equivalent<T>(lt: (T, T) -> bool, a: T, b: T)
  {
    !lt(a, b) && !lt(b, a)
  }

  /** A strict order whose "neither is before the other" is an equivalence:
      what ECMAScript calls a consistent comparator. */
  ghost predicate StrictWeakOrder<T(!new)>(lt: (T, T) -> bool)
  {
    && StrictOrder(lt)
    && (forall a, b, c :: Equivalent(lt, a, b) && Equivalent(lt, b, c) ==> Equivalent(lt, a, c))
  }

  /** No element is strictly before an element that precedes it. */
  predicate Sorted<T>(s: seq<T>, lt: (T, T) -> bool)
  {
    forall i, j :: 0 <= i < j < |s| ==> !lt(s[j], s[i])
  }

  /** Inserts `x` in front of the first element it is strictly before. */
  function Insert<T>(x: T, s: seq<T>, lt: (T, T) -> bool): (r: seq<T>)
    ensures |r| == |s| + 1
    ensures multiset(r) == multiset(s) + multiset{x}
  {
    if s == [] then [x]
    else if lt(x, s[0]) then [x] + s
    else
      assert s == [s[0]] + s[1..];
      [s[0]] + Insert(x, s[1..], lt)
  }

  /** The stable sort of `s`: each element, in input order, is inserted after the
      elements already placed that it is not strictly before. */
  function SortBy<T>(s: seq<T>, lt: (T, T) -> bool): (r: seq<T>)
    ensures |r| == |s|
    ensures multiset(r) == multiset(s)
  {
    if s == [] then []
    else
      assert s == s[..|s| - 1] + [s[|s| - 1]];
      Insert(s[|s| - 1], SortBy(s[..|s| - 1], lt), lt)
  }

  lemma {:induction false} InsertSorted<T(!new)>(x: T, s: seq<T>, lt: (T, T) -> bool)
    requires StrictOrder(lt)
    requires Sorted(s, lt)
    ensures Sorted(Insert(x, s, lt), lt)
    decreases |s|
  {
    if s == [] {
    } else if lt(x, s[0]) {
    } else {
      InsertSorted(x, s[1..], lt);
      var rest := Insert(x, s[1..], lt);
      var r := [s[0]] + rest;
      forall j | 0 < j < |r| ensures !lt(r[j], s[0]) {
        assert r[j] in multiset(rest);
        assert r[j] in multiset(s[1..]) || r[j] == x;
        if r[j] != x {
          var k :| 0 <= k < |s[1..]| && s[1..][k] == r[j];
          assert s[k + 1] == r[j];
        }
      }
    }
  }

  /** The result of `SortBy` is sorted. */
  lemma {:induction false} SortBySorted<T(!new)>(s: seq<T>, lt: (T, T) -> bool)
    requires StrictOrder(lt)
    ensures Sorted(SortBy(s, lt), lt)
    decreases |s|
  {
    if s != [] {
      SortBySorted(s[..|s| - 1], lt);
      InsertSorted(s[|s| - 1], SortBy(s[..|s| - 1], lt), lt);
    }
  }

  // ----- Stability -----

  /** The elements of `s` equivalent to `y`, in order. */
  function EquivalentTo<T>(s: seq<T>, y: T, lt: (T, T) -> bool): (r: seq<T>)
    ensures |r| <= |s|
  {
    if s == [] then []
    else (if Equivalent(lt, s[0], y) then [s[0]] else []) + EquivalentTo(s[1..], y, lt)
  }

  lemma {:induction false} EquivalentToAppend<T>(a: seq<T>, b: seq<T>, y: T, lt: (T, T) -> bool)
    ensures EquivalentTo(a + b, y, lt) == EquivalentTo(a, y, lt) + EquivalentTo(b, y, lt)
    decreases |a|
  {
    if a == [] {
      assert a + b == b;
    } else {
      var ab := a + b;
      var h := if Equivalent(lt, a[0], y) then [a[0]] else [];
      assert ab[0] == a[0];
      assert ab[1..] == a[1..] + b;
      assert EquivalentTo(ab, y, lt) == h + EquivalentTo(a[1..] + b, y, lt);
      assert EquivalentTo(a, y, lt) == h + EquivalentTo(a[1..], y, lt);
      EquivalentToAppend(a[1..], b, y, lt);
      assert h + (EquivalentTo(a[1..], y, lt) + EquivalentTo(b, y, lt))
          == (h + EquivalentTo(a[1..], y, lt)) + EquivalentTo(b, y, lt);
    }
  }

  /** In a weak order, whatever is strictly between-or-beside: if `a` is before `c`,
      then any `b` is after `a` or before `c`. */
  lemma WeakOrderSplit<T(!new)>(lt: (T, T) -> bool, a: T, b: T, c: T)
    requires StrictWeakOrder(lt)
    requires lt(a, c)
    ensures lt(a, b) || lt(b, c)
  {
    assert Equivalent(lt, a, b) && Equivalent(lt, b, c) ==> Equivalent(lt, a, c);
  }

  /** Nothing in a sorted list whose head comes after `x` is equivalent to `x`. */
  lemma {:induction false} NoneEquivalentAfter<T(!new)>(x: T, s: seq<T>, y: T, lt: (T, T) -> bool)
    requires StrictWeakOrder(lt)
    requires Sorted(s, lt) && s != [] && lt(x, s[0])
    requires Equivalent(lt, x, y)
    ensures EquivalentTo(s, y, lt) == []
  {
    forall k | 0 <= k < |s| ensures !Equivalent(lt, s[k], y) {
      if k > 0 {
        WeakOrderSplit(lt, x, s[k], s[0]);
      }
      assert lt(x, s[k]);
      assert Equivalent(lt, s[k], y) && Equivalent(lt, y, x) ==> Equivalent(lt, s[k], x);
    }
    NoneEquivalent(s, y, lt);
  }

  /** Inserting `x` keeps the order of the elements equivalent to any `y`, and places `x`
      after those of them already in the list. */
  lemma {:induction false} InsertStable<T(!new)>(x: T, s: seq<T>, y: T, lt: (T, T) -> bool)
    requires StrictWeakOrder(lt)
    requires Sorted(s, lt)
    ensures EquivalentTo(Insert(x, s, lt), y, lt)
         == EquivalentTo(s, y, lt) + (if Equivalent(lt, x, y) then [x] else [])
    decreases |s|
  {
    if s == [] {
      assert EquivalentTo(Insert(x, s, lt), y, lt) == if Equivalent(lt, x, y) then [x] else [];
    } else if lt(x, s[0]) {
      InsertStableFront(x, s, y, lt);
    } else {
      var rest := s[1..];
      assert Sorted(rest, lt);
      InsertStable(x, rest, y, lt);
      InsertStableStep(x, s, y, lt);
    }
  }

  lemma InsertStableFront<T(!new)>(x: T, s: seq<T>, y: T, lt: (T, T) -> bool)
    requires StrictWeakOrder(lt)
    requires Sorted(s, lt) && s != [] && lt(x, s[0])
    ensures EquivalentTo(Insert(x, s, lt), y, lt)
         == EquivalentTo(s, y, lt) + (if Equivalent(lt, x, y) then [x] else [])
  {
    var tail: seq<T> := if Equivalent(lt, x, y) then [x] else [];
    var r := Insert(x, s, lt);
    assert r == [x] + s;
    assert r[1..] == s;
    assert EquivalentTo(r, y, lt) == tail + EquivalentTo(s, y, lt);
    if Equivalent(lt, x, y) {
      NoneEquivalentAfter(x, s, y, lt);
      assert tail + [] == [] + tail;
    } else {
      assert [] + EquivalentTo(s, y, lt) == EquivalentTo(s, y, lt) + [];
    }
  }

  lemma InsertStableStep<T>(x: T, s: seq<T>, y: T, lt: (T, T) -> bool)
    requires s != [] && !lt(x, s[0])
    requires EquivalentTo(Insert(x, s[1..], lt), y, lt)
          == EquivalentTo(s[1..], y, lt) + (if Equivalent(lt, x, y) then [x] else [])
    ensures EquivalentTo(Insert(x, s, lt), y, lt)
         == EquivalentTo(s, y, lt) + (if Equivalent(lt, x, y) then [x] else [])
  {
    var tail: seq<T> := if Equivalent(lt, x, y) then [x] else [];
    var rest := s[1..];
    var head: seq<T> := if Equivalent(lt, s[0], y) then [s[0]] else [];
    var r := Insert(x, s, lt);
    assert r == [s[0]] + Insert(x, rest, lt);
    assert r[1..] == Insert(x, rest, lt);
    assert EquivalentTo(r, y, lt) == head + EquivalentTo(Insert(x, rest, lt), y, lt);
    assert EquivalentTo(s, y, lt) == head + EquivalentTo(rest, y, lt);
    var e := EquivalentTo(rest, y, lt);
    AppendAssoc(head, e, tail);
  }

  lemma AppendAssoc<T>(a: seq<T>, b: seq<T>, c: seq<T>)
    ensures a + (b + c) == (a + b) + c
  {
  }

  lemma {:induction false} NoneEquivalent<T>(s: seq<T>, y: T, lt: (T, T) -> bool)
    requires forall k :: 0 <= k < |s| ==> !Equivalent(lt, s[k], y)
    ensures EquivalentTo(s, y, lt) == []
    decreases |s|
  {
    if s != [] {
      NoneEquivalent(s[1..], y, lt);
    }
  }

  /** `SortBy` is stable: the elements equivalent to any `y` keep their input order. */
  lemma {:induction false} SortByStable<T(!new)>(s: seq<T>, y: T, lt: (T, T) -> bool)
    requires StrictWeakOrder(lt)
    ensures EquivalentTo(SortBy(s, lt), y, lt) == EquivalentTo(s, y, lt)
    decreases |s|
  {
    if s != [] {
      var init, x := s[..|s| - 1], s[|s| - 1];
      assert SortBy(s, lt) == Insert(x, SortBy(init, lt), lt);
      SortByStable(init, y, lt);
      SortBySorted(init, lt);
      InsertStable(x, SortBy(init, lt), y, lt);
      SplitLast(s);
      EquivalentToAppend(init, [x], y, lt);
      assert EquivalentTo([x], y, lt) == if Equivalent(lt, x, y) then [x] else [];
    }
  }

  /** A non-empty list is its front followed by its last element. */
  lemma SplitLast<T>(s: seq<T>)
    requires s != []
    ensures s == s[..|s| - 1] + [s[|s| - 1]]
  {
  }

  // ----- Sums -----

  /** The sum of `w` over the elements of `s`. */
  function SumOf<T>(s: seq<T>, w: T -> int): int
  {
    if s == [] then 0 else w(s[0]) + SumOf(s[1..], w)
  }

  lemma {:induction false} SumOfAppend<T>(a: seq<T>, b: seq<T>, w: T -> int)
    ensures SumOf(a + b, w) == SumOf(a, w) + SumOf(b, w)
    decreases |a|
  {
    if a == [] {
      assert a + b == b;
    } else {
      var ab := a + b;
      assert ab[0] == a[0];
      assert ab[1..] == a[1..] + b;
      SumOfAppend(a[1..], b, w);
    }
  }

  lemma {:induction false} SumOfInsert<T>(x: T, s: seq<T>, lt: (T, T) -> bool, w: T -> int)
    ensures SumOf(Insert(x, s, lt), w) == SumOf(s, w) + w(x)
    decreases |s|
  {
    if s != [] && !lt(x, s[0]) {
      SumOfInsert(x, s[1..], lt, w);
      assert Insert(x, s, lt)[1..] == Insert(x, s[1..], lt);
    } else if s != [] {
      assert Insert(x, s, lt)[1..] == s;
    }
  }

  /** Sorting does not change a sum over the elements. */
  lemma {:induction false} SumOfSortBy<T>(s: seq<T>, lt: (T, T) -> bool, w: T -> int)
    ensures SumOf(SortBy(s, lt), w) == SumOf(s, w)
    decreases |s|
  {
    if s != [] {
      var init, x := s[..|s| - 1], s[|s| - 1];
      assert SortBy(s, lt) == Insert(x, SortBy(init, lt), lt);
      SumOfSortBy(init, lt, w);
      SumOfInsert(x, SortBy(init, lt), lt, w);
      SplitLast(s);
      SumOfAppend(init, [x], w);
      assert SumOf([x], w) == w(x);
    }
  }

  /** Three items given in reverse order come out the other way round. */
  lemma SortReversedThree<T>(x: T, y: T, z: T, lt: (T, T) -> bool)
    requires lt(y, x) && lt(z, y)
    ensures SortBy([x, y, z], lt) == [z, y, x]
  {
    assert [x, y, z][..2] == [x, y];
    assert [x, y][..1] == [x];
    assert SortBy([x], lt) == [x];
    assert SortBy([x, y], lt) == [y, x];
  }
}
