/** What ordered insertion by a comparator builds, on sequences: the sorted list and the n-ary
    tree insert on opposite sides of equal elements. */
module Ordering {
  import opened Common

  /** `cmp` orders the elements of `s` like C comparators do: its sign flips with its arguments,
      and "not greater" is transitive. Elements may compare equal without being the same. */
  ghost predicate Ordered<T>(s: set<T>, cmp: (T, T) -> int) {
    && (forall a, b :: a in s && b in s ==> (cmp(a, b) < 0 <==> cmp(b, a) > 0))
    && (forall a, b, d :: a in s && b in s && d in s && cmp(a, b) <= 0 && cmp(b, d) <= 0 ==> cmp(a, d) <= 0)
  }

  ghost predicate Sorted<T>(s: seq<T>, cmp: (T, T) -> int) {
    forall i, j :: 0 <= i < j < |s| ==> cmp(s[i], s[j]) <= 0
  }

  /** How many elements a walk passes before the first that fails `keep`. */
  function Span<T>(s: seq<T>, keep: T -> bool): (k: nat)
    ensures k <= |s|
    ensures forall i :: 0 <= i < k ==> keep(s[i])
    ensures k < |s| ==> !keep(s[k])
  {
    if s == [] || !keep(s[0]) then 0 else 1 + Span(s[1..], keep)
  }

  lemma SpanUnique<T>(s: seq<T>, keep: T -> bool, k: nat)
    requires k <= |s| && (forall i :: 0 <= i < k ==> keep(s[i])) && (k < |s| ==> !keep(s[k]))
    ensures Span(s, keep) == k
  {
  }

  function InsertAt<T>(s: seq<T>, k: nat, x: T): seq<T>
    requires k <= |s|
  {
    s[..k] + [x] + s[k..]
  }

  /** The list's place for `x`: the walk stops before the elements equal to it. */
  function InsertBefore<T>(s: seq<T>, x: T, cmp: (T, T) -> int): seq<T> {
    InsertAt(s, Span(s, w => cmp(w, x) < 0), x)
  }

  /** The tree's place for `x`: the walk goes past the elements equal to it. */
  function InsertAfter<T>(s: seq<T>, x: T, cmp: (T, T) -> int): seq<T> {
    InsertAt(s, Span(s, w => cmp(w, x) <= 0), x)
  }

  /** `s` without the first `x`, if it has one. */
  function Without<T(==)>(s: seq<T>, x: T): seq<T> {
    var k := Span(s, w => w != x);
    if k < |s| then s[..k] + s[k + 1..] else s
  }

  function BuildBefore<T>(xs: seq<T>, cmp: (T, T) -> int): seq<T> {
    if xs == [] then [] else InsertBefore(BuildBefore(xs[..|xs| - 1], cmp), xs[|xs| - 1], cmp)
  }

  function BuildAfter<T>(xs: seq<T>, cmp: (T, T) -> int): seq<T> {
    if xs == [] then [] else InsertAfter(BuildAfter(xs[..|xs| - 1], cmp), xs[|xs| - 1], cmp)
  }

  /** The elements of `s` that compare equal to `y`, in their order. */
  function EqualTo<T>(s: seq<T>, y: T, cmp: (T, T) -> int): seq<T> {
    if s == [] then [] else (if cmp(s[0], y) == 0 then [s[0]] else []) + EqualTo(s[1..], y, cmp)
  }

  lemma InsertAtIndex<T>(s: seq<T>, k: nat, x: T)
    requires k <= |s|
    ensures |InsertAt(s, k, x)| == |s| + 1
    ensures forall j {:trigger InsertAt(s, k, x)[j]} :: 0 <= j < k ==> InsertAt(s, k, x)[j] == s[j]
    ensures InsertAt(s, k, x)[k] == x
    ensures forall j {:trigger InsertAt(s, k, x)[j]} :: k < j <= |s| ==> InsertAt(s, k, x)[j] == s[j - 1]
  {
  }

  lemma InsertBeforeAt<T>(s: seq<T>, x: T, cmp: (T, T) -> int, k: nat)
    requires k <= |s| && (forall i :: 0 <= i < k ==> cmp(s[i], x) < 0) && (k < |s| ==> cmp(s[k], x) >= 0)
    ensures InsertBefore(s, x, cmp) == InsertAt(s, k, x)
  {
    SpanUnique(s, w => cmp(w, x) < 0, k);
  }

  lemma InsertAfterAt<T>(s: seq<T>, x: T, cmp: (T, T) -> int, k: nat)
    requires k <= |s| && (forall i :: 0 <= i < k ==> cmp(s[i], x) <= 0) && (k < |s| ==> cmp(s[k], x) > 0)
    ensures InsertAfter(s, x, cmp) == InsertAt(s, k, x)
  {
    SpanUnique(s, w => cmp(w, x) <= 0, k);
  }

  lemma WithoutAt<T>(s: seq<T>, x: T, k: nat)
    requires k <= |s| && (forall i :: 0 <= i < k ==> s[i] != x) && (k < |s| ==> s[k] == x)
    ensures Without(s, x) == if k < |s| then s[..k] + s[k + 1..] else s
  {
    SpanUnique(s, w => w != x, k);
  }

  // ----- EqualTo -----

  lemma EqualToNil<T>(y: T, cmp: (T, T) -> int)
    ensures EqualTo([], y, cmp) == []
  {
  }

  lemma EqualToCons<T>(s: seq<T>, y: T, cmp: (T, T) -> int)
    requires s != []
    ensures EqualTo(s, y, cmp) == (if cmp(s[0], y) == 0 then [s[0]] else []) + EqualTo(s[1..], y, cmp)
  {
  }

  lemma {:induction false} EqualToConcat<T>(a: seq<T>, b: seq<T>, y: T, cmp: (T, T) -> int)
    ensures EqualTo(a + b, y, cmp) == EqualTo(a, y, cmp) + EqualTo(b, y, cmp)
    decreases |a|
  {
    hide EqualTo;
    EqualToNil(y, cmp);
    if a == [] {
      assert a + b == b;
      assert [] + EqualTo(b, y, cmp) == EqualTo(b, y, cmp);
    } else {
      assert (a + b)[1..] == a[1..] + b;
      EqualToConcat(a[1..], b, y, cmp);
      EqualToCons(a, y, cmp);
      EqualToCons(a + b, y, cmp);
      var head := if cmp(a[0], y) == 0 then [a[0]] else [];
      assert head + (EqualTo(a[1..], y, cmp) + EqualTo(b, y, cmp))
             == (head + EqualTo(a[1..], y, cmp)) + EqualTo(b, y, cmp);
    }
  }

  lemma EqualToSnoc<T>(s: seq<T>, x: T, y: T, cmp: (T, T) -> int)
    ensures EqualTo(s + [x], y, cmp) == EqualTo(s, y, cmp) + (if cmp(x, y) == 0 then [x] else [])
  {
    hide EqualTo;
    EqualToConcat(s, [x], y, cmp);
    EqualToCons([x], y, cmp);
    EqualToNil(y, cmp);
    assert [x][1..] == [];
  }

  lemma {:induction false} EqualToNone<T>(s: seq<T>, y: T, cmp: (T, T) -> int)
    requires forall i :: 0 <= i < |s| ==> cmp(s[i], y) != 0
    ensures EqualTo(s, y, cmp) == []
  {
    if s != [] {
      EqualToNone(s[1..], y, cmp);
    }
  }

  lemma EqualToInsert<T>(s: seq<T>, k: nat, x: T, y: T, cmp: (T, T) -> int)
    requires k <= |s|
    ensures EqualTo(InsertAt(s, k, x), y, cmp)
            == EqualTo(s[..k], y, cmp) + (if cmp(x, y) == 0 then [x] else []) + EqualTo(s[k..], y, cmp)
    ensures EqualTo(s, y, cmp) == EqualTo(s[..k], y, cmp) + EqualTo(s[k..], y, cmp)
  {
    hide EqualTo;
    EqualToConcat(s[..k] + [x], s[k..], y, cmp);
    EqualToSnoc(s[..k], x, y, cmp);
    EqualToConcat(s[..k], s[k..], y, cmp);
    assert s == s[..k] + s[k..];
  }

  // ----- one insertion -----

  ghost predicate Within<T>(s: seq<T>, all: set<T>) {
    forall i :: 0 <= i < |s| ==> s[i] in all
  }

  /** Inserting where everything before is not greater and everything from there on not smaller
      keeps a sorted sequence sorted. */
  lemma InsertSorted<T>(s: seq<T>, k: nat, x: T, cmp: (T, T) -> int)
    requires Sorted(s, cmp) && k <= |s|
    requires forall i :: 0 <= i < k ==> cmp(s[i], x) <= 0
    requires forall i :: k <= i < |s| ==> cmp(x, s[i]) <= 0
    ensures Sorted(InsertAt(s, k, x), cmp)
  {
    hide InsertAt;
    InsertAtIndex(s, k, x);
    var r := InsertAt(s, k, x);
    forall i, j | 0 <= i < j < |r|
      ensures cmp(r[i], r[j]) <= 0
    {
    }
  }

  lemma InsertMultiset<T>(s: seq<T>, k: nat, x: T)
    requires k <= |s|
    ensures multiset(InsertAt(s, k, x)) == multiset(s) + multiset{x}
  {
    assert s == s[..k] + s[k..];
  }

  lemma GreaterStays<T>(a: T, b: T, x: T, cmp: (T, T) -> int, all: set<T>)
    requires Ordered(all, cmp) && a in all && b in all && x in all
    requires cmp(a, b) <= 0 && cmp(a, x) > 0
    ensures cmp(b, x) > 0
  {
  }

  lemma TieTransitive<T>(w: T, x: T, y: T, cmp: (T, T) -> int, all: set<T>)
    requires Ordered(all, cmp) && w in all && x in all && y in all && cmp(x, y) == 0
    ensures cmp(w, y) == 0 ==> cmp(w, x) <= 0 && cmp(x, w) <= 0
  {
  }

  /** Where the list's walk stops: strictly smaller before, not smaller after. */
  lemma StopsBefore<T>(s: seq<T>, x: T, cmp: (T, T) -> int, all: set<T>) returns (k: nat)
    requires Ordered(all, cmp) && Within(s, all) && x in all && Sorted(s, cmp)
    ensures k <= |s| && InsertBefore(s, x, cmp) == InsertAt(s, k, x)
    ensures forall i :: 0 <= i < k ==> cmp(s[i], x) < 0
    ensures forall i :: k <= i < |s| ==> cmp(x, s[i]) <= 0
  {
    k := Span(s, w => cmp(w, x) < 0);
    hide Span, InsertAt;
    forall i | k <= i < |s|
      ensures cmp(x, s[i]) <= 0
    {
      assert cmp(x, s[k]) <= 0;
      assert i > k ==> cmp(s[k], s[i]) <= 0;
    }
  }

  /** Where the tree's walk stops: not greater before, strictly greater after. */
  lemma StopsAfter<T>(s: seq<T>, x: T, cmp: (T, T) -> int, all: set<T>) returns (k: nat)
    requires Ordered(all, cmp) && Within(s, all) && x in all && Sorted(s, cmp)
    ensures k <= |s| && InsertAfter(s, x, cmp) == InsertAt(s, k, x)
    ensures forall i :: 0 <= i < k ==> cmp(s[i], x) <= 0
    ensures forall i :: k <= i < |s| ==> cmp(x, s[i]) < 0
  {
    k := Span(s, w => cmp(w, x) <= 0);
    hide Span, InsertAt;
    forall i | k <= i < |s|
      ensures cmp(x, s[i]) < 0
    {
      assert cmp(s[k], x) > 0;
      if i > k {
        GreaterStays(s[k], s[i], x, cmp, all);
      }
    }
  }

  lemma NoTies<T>(part: seq<T>, x: T, y: T, cmp: (T, T) -> int, all: set<T>)
    requires Ordered(all, cmp) && Within(part, all) && x in all && y in all && cmp(x, y) == 0
    requires forall i :: 0 <= i < |part| ==> cmp(part[i], x) < 0 || cmp(x, part[i]) < 0
    ensures EqualTo(part, y, cmp) == []
  {
    forall i | 0 <= i < |part|
      ensures cmp(part[i], y) != 0
    {
      TieTransitive(part[i], x, y, cmp, all);
    }
    EqualToNone(part, y, cmp);
  }

  /** The list's insertion keeps order, and puts `x` before the elements equal to it. */
  lemma InsertBeforeFacts<T>(s: seq<T>, x: T, y: T, cmp: (T, T) -> int, all: set<T>)
    requires Ordered(all, cmp) && Within(s, all) && x in all && y in all && Sorted(s, cmp)
    ensures Sorted(InsertBefore(s, x, cmp), cmp)
    ensures multiset(InsertBefore(s, x, cmp)) == multiset(s) + multiset{x}
    ensures EqualTo(InsertBefore(s, x, cmp), y, cmp)
            == (if cmp(x, y) == 0 then [x] else []) + EqualTo(s, y, cmp)
  {
    hide EqualTo, InsertBefore, InsertAt, Sorted, Ordered;
    var k := StopsBefore(s, x, cmp, all);
    InsertSorted(s, k, x, cmp);
    InsertMultiset(s, k, x);
    EqualToInsert(s, k, x, y, cmp);
    if cmp(x, y) == 0 {
      NoTies(s[..k], x, y, cmp, all);
    }
  }

  /** The tree's insertion keeps order, and puts `x` after the elements equal to it. */
  lemma InsertAfterFacts<T>(s: seq<T>, x: T, y: T, cmp: (T, T) -> int, all: set<T>)
    requires Ordered(all, cmp) && Within(s, all) && x in all && y in all && Sorted(s, cmp)
    ensures Sorted(InsertAfter(s, x, cmp), cmp)
    ensures multiset(InsertAfter(s, x, cmp)) == multiset(s) + multiset{x}
    ensures EqualTo(InsertAfter(s, x, cmp), y, cmp)
            == EqualTo(s, y, cmp) + (if cmp(x, y) == 0 then [x] else [])
  {
    hide EqualTo, InsertAfter, InsertAt, Sorted, Ordered;
    var k := StopsAfter(s, x, cmp, all);
    forall i | k <= i < |s|
      ensures cmp(x, s[i]) <= 0
    {
    }
    InsertSorted(s, k, x, cmp);
    InsertMultiset(s, k, x);
    EqualToInsert(s, k, x, y, cmp);
    if cmp(x, y) == 0 {
      NoTies(s[k..], x, y, cmp, all);
    }
  }

  // ----- whole builds -----

  lemma EmptySorted<T>(cmp: (T, T) -> int)
    ensures Sorted([], cmp)
  {
  }

  lemma InsertWithin<T>(s: seq<T>, x: T, cmp: (T, T) -> int, all: set<T>)
    requires Within(s, all) && x in all
    ensures Within(InsertBefore(s, x, cmp), all) && Within(InsertAfter(s, x, cmp), all)
  {
    hide Span;
  }

  lemma WithoutWithin<T>(s: seq<T>, x: T, all: set<T>)
    requires Within(s, all)
    ensures Within(Without(s, x), all)
  {
    hide Span;
  }

  lemma {:induction false} BuildWithin<T>(xs: seq<T>, cmp: (T, T) -> int, all: set<T>)
    requires Within(xs, all)
    ensures Within(BuildBefore(xs, cmp), all) && Within(BuildAfter(xs, cmp), all)
    decreases |xs|
  {
    hide InsertBefore, InsertAfter;
    if xs != [] {
      var n := |xs| - 1;
      BuildWithin(xs[..n], cmp, all);
      InsertWithin(BuildBefore(xs[..n], cmp), xs[n], cmp, all);
      InsertWithin(BuildAfter(xs[..n], cmp), xs[n], cmp, all);
    }
  }

  lemma {:induction false} BuildLength<T>(xs: seq<T>, cmp: (T, T) -> int)
    ensures |BuildAfter(xs, cmp)| == |xs| == |BuildBefore(xs, cmp)|
    decreases |xs|
  {
    if xs != [] {
      BuildLength(xs[..|xs| - 1], cmp);
    }
  }

  /** Inserting any elements one by one with the tree's rule gives their stable sort: sorted, the
      same elements, and equal elements in the order they came. */
  lemma {:induction false} BuildAfterIsStable<T>(xs: seq<T>, y: T, cmp: (T, T) -> int, all: set<T>)
    requires Ordered(all, cmp) && Within(xs, all) && y in all
    ensures Sorted(BuildAfter(xs, cmp), cmp)
    ensures multiset(BuildAfter(xs, cmp)) == multiset(xs)
    ensures EqualTo(BuildAfter(xs, cmp), y, cmp) == EqualTo(xs, y, cmp)
    decreases |xs|
  {
    hide EqualTo, InsertAfter, Sorted, Ordered;
    if xs == [] {
      EqualToNil(y, cmp);
      EmptySorted(cmp);
    } else {
      var n := |xs| - 1;
      BuildAfterIsStable(xs[..n], y, cmp, all);
      BuildWithin(xs[..n], cmp, all);
      InsertAfterFacts(BuildAfter(xs[..n], cmp), xs[n], y, cmp, all);
      assert xs == xs[..n] + [xs[n]];
      EqualToSnoc(xs[..n], xs[n], y, cmp);
    }
  }

  /** Inserting any elements one by one with the list's rule sorts them too, but equal elements
      end up in the opposite order to the one they came in. */
  lemma {:induction false} BuildBeforeReversesTies<T>(xs: seq<T>, y: T, cmp: (T, T) -> int, all: set<T>)
    requires Ordered(all, cmp) && Within(xs, all) && y in all
    ensures Sorted(BuildBefore(xs, cmp), cmp)
    ensures multiset(BuildBefore(xs, cmp)) == multiset(xs)
    ensures EqualTo(BuildBefore(xs, cmp), y, cmp) == Reversed(EqualTo(xs, y, cmp))
    decreases |xs|
  {
    hide EqualTo, InsertBefore, Sorted, Ordered;
    if xs == [] {
      EqualToNil(y, cmp);
      EmptySorted(cmp);
    } else {
      var n := |xs| - 1;
      BuildBeforeReversesTies(xs[..n], y, cmp, all);
      BuildWithin(xs[..n], cmp, all);
      InsertBeforeFacts(BuildBefore(xs[..n], cmp), xs[n], y, cmp, all);
      assert xs == xs[..n] + [xs[n]];
      EqualToSnoc(xs[..n], xs[n], y, cmp);
      var ties := EqualTo(xs[..n], y, cmp);
      if cmp(xs[n], y) == 0 {
        ReversedSnoc(ties, xs[n]);
      } else {
        assert ties + [] == ties;
      }
    }
  }

  lemma EqualToFirst<T>(s: seq<T>, y: T, cmp: (T, T) -> int)
    requires s != [] && cmp(s[0], y) == 0
    ensures EqualTo(s, y, cmp) != [] && EqualTo(s, y, cmp)[0] == s[0]
  {
  }

  lemma {:induction false} EqualToMember<T>(s: seq<T>, y: T, cmp: (T, T) -> int) returns (i: nat)
    requires EqualTo(s, y, cmp) != []
    ensures i < |s| && cmp(s[i], y) == 0
    decreases |s|
  {
    if cmp(s[0], y) == 0 {
      i := 0;
    } else {
      i := EqualToMember(s[1..], y, cmp);
      i := i + 1;
    }
  }

  lemma SameHead<T>(s: seq<T>, t: seq<T>, cmp: (T, T) -> int, all: set<T>)
    requires Ordered(all, cmp) && Within(s, all) && Within(t, all) && Sorted(s, cmp) && Sorted(t, cmp)
    requires s != [] && t != []
    requires forall y :: y in all ==> EqualTo(s, y, cmp) == EqualTo(t, y, cmp)
    ensures s[0] == t[0]
  {
    EqualToFirst(s, s[0], cmp);
    EqualToFirst(t, t[0], cmp);
    var i := EqualToMember(t, s[0], cmp);
    var j := EqualToMember(s, t[0], cmp);
    assert cmp(t[0], t[i]) <= 0 && cmp(s[0], s[j]) <= 0;
    assert cmp(t[0], s[0]) <= 0 && cmp(s[0], t[0]) <= 0;
    EqualToFirst(t, s[0], cmp);
  }

  lemma TailOf<T>(s: seq<T>, y: T, cmp: (T, T) -> int)
    requires s != []
    ensures EqualTo(s[1..], y, cmp)
            == if cmp(s[0], y) == 0 then EqualTo(s, y, cmp)[1..] else EqualTo(s, y, cmp)
  {
  }

  /** A sorted sequence is determined by its runs of equal elements: there is only one stable sort. */
  lemma {:induction false} SortedByClasses<T>(s: seq<T>, t: seq<T>, cmp: (T, T) -> int, all: set<T>)
    requires Ordered(all, cmp) && Within(s, all) && Within(t, all) && Sorted(s, cmp) && Sorted(t, cmp)
    requires forall y :: y in all ==> EqualTo(s, y, cmp) == EqualTo(t, y, cmp)
    ensures s == t
    decreases |s|
  {
    if s == [] || t == [] {
      if s != [] {
        EqualToFirst(s, s[0], cmp);
      }
      if t != [] {
        EqualToFirst(t, t[0], cmp);
      }
    } else {
      SameHead(s, t, cmp, all);
      forall y | y in all
        ensures EqualTo(s[1..], y, cmp) == EqualTo(t[1..], y, cmp)
      {
        assert EqualTo(s, y, cmp) == EqualTo(t, y, cmp);
        TailOf(s, y, cmp);
        TailOf(t, y, cmp);
      }
      SortedByClasses(s[1..], t[1..], cmp, all);
      assert s == [s[0]] + s[1..] && t == [t[0]] + t[1..];
    }
  }

  lemma BuildSorted<T>(xs: seq<T>, cmp: (T, T) -> int, all: set<T>)
    requires Ordered(all, cmp) && Within(xs, all)
    ensures Sorted(BuildAfter(xs, cmp), cmp)
  {
    if xs != [] {
      BuildAfterIsStable(xs, xs[0], cmp, all);
    }
  }

  /** A sequence is sorted with equal elements in order of arrival only if the tree's rule builds it. */
  lemma OnlyStableSort<T>(xs: seq<T>, t: seq<T>, cmp: (T, T) -> int, all: set<T>)
    requires Ordered(all, cmp) && Within(xs, all) && Within(t, all)
    ensures Sorted(t, cmp) && (forall y :: y in all ==> EqualTo(t, y, cmp) == EqualTo(xs, y, cmp))
            <==> t == BuildAfter(xs, cmp)
  {
    hide EqualTo, BuildAfter, Sorted, Ordered;
    BuildWithin(xs, cmp, all);
    BuildSorted(xs, cmp, all);
    forall y | y in all
      ensures EqualTo(BuildAfter(xs, cmp), y, cmp) == EqualTo(xs, y, cmp)
    {
      BuildAfterIsStable(xs, y, cmp, all);
    }
    if Sorted(t, cmp) && forall y :: y in all ==> EqualTo(t, y, cmp) == EqualTo(xs, y, cmp) {
      SortedByClasses(t, BuildAfter(xs, cmp), cmp, all);
    }
  }

  // ----- undoing an insertion -----

  /** Removing an element that was absent before restores the sequence, wherever it was put. */
  lemma WithoutInserted<T>(s: seq<T>, k: nat, x: T)
    requires k <= |s| && x !in s
    ensures Without(InsertAt(s, k, x), x) == s
  {
    var r := InsertAt(s, k, x);
    assert forall i :: 0 <= i < k ==> r[i] == s[i];
    WithoutAt(r, x, k);
    assert r[..k] == s[..k] && r[k + 1..] == s[k..];
    assert s == s[..k] + s[k..];
  }

  /** Removing what an ordered insertion just put in restores the sequence. */
  lemma WithoutUndoesInsert<T>(s: seq<T>, x: T, cmp: (T, T) -> int)
    requires x !in s
    ensures Without(InsertBefore(s, x, cmp), x) == s
    ensures Without(InsertAfter(s, x, cmp), x) == s
  {
    WithoutInserted(s, Span(s, w => cmp(w, x) < 0), x);
    WithoutInserted(s, Span(s, w => cmp(w, x) <= 0), x);
  }
}
