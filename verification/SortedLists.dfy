/**
 Stable sorting and merging of lists, as std::stable_sort, std::inplace_merge and insertion at
 std::upper_bound do it. Every order here is a strict weak order `lt`; elements neither of which is
 `lt` the other are ties.
 */
module SortedLists {
  import opened Prelude

  ghost predicate StrictWeakOrder<T(!new)>(lt: (T, T) -> bool) {
    && (forall a, b :: lt(a, b) ==> !lt(b, a))
    && (forall a, b, c :: lt(a, c) ==> lt(a, b) || lt(b, c))
  }

  ghost predicate NoDup<T>(s: seq<T>) {
    forall i, j :: 0 <= i < j < |s| ==> s[i] != s[j]
  }

  ghost predicate Sorted<T>(lt: (T, T) -> bool, s: seq<T>) {
    forall i, j :: 0 <= i < j < |s| ==> !lt(s[j], s[i])
  }

  /** Later elements that tie with an earlier one are also `tie`-after it. */
  ghost predicate TiesOrdered<T>(lt: (T, T) -> bool, tie: (T, T) -> bool, s: seq<T>) {
    forall i, j :: 0 <= i < j < |s| && !lt(s[i], s[j]) ==> tie(s[i], s[j])
  }

  /** The stable merge: an element of `b` goes first only when it is strictly below the head of `a`. */
  function Merge<T>(lt: (T, T) -> bool, a: seq<T>, b: seq<T>): (r: seq<T>)
    decreases |a| + |b|
  {
    if a == [] then b
    else if b == [] then a
    else if lt(b[0], a[0]) then [b[0]] + Merge(lt, a, b[1..])
    else [a[0]] + Merge(lt, a[1..], b)
  }

  /** The stable sort: each element is merged after the ties before it. */
  function StableSort<T>(lt: (T, T) -> bool, s: seq<T>): (r: seq<T>) {
    if s == [] then [] else Merge(lt, StableSort(lt, s[..|s| - 1]), [s[|s| - 1]])
  }

  /** std::upper_bound by partition: how many leading elements `x` is not below. */
  function UpperBound<T>(lt: (T, T) -> bool, s: seq<T>, x: T): (j: nat)
    ensures j <= |s|
    ensures forall i :: 0 <= i < j ==> !lt(x, s[i])
    ensures j < |s| ==> lt(x, s[j])
  {
    if s == [] || lt(x, s[0]) then 0
    else
      assert forall i :: 0 < i < |s| ==> s[i] == s[1..][i - 1];
      1 + UpperBound(lt, s[1..], x)
  }

  /** std::lower_bound by partition: how many leading elements are below `x`. */
  function LowerBound<T>(lt: (T, T) -> bool, s: seq<T>, x: T): (j: nat)
    ensures j <= |s|
    ensures forall i :: 0 <= i < j ==> lt(s[i], x)
    ensures j < |s| ==> !lt(s[j], x)
  {
    if s == [] || !lt(s[0], x) then 0
    else
      assert forall i :: 0 < i < |s| ==> s[i] == s[1..][i - 1];
      1 + LowerBound(lt, s[1..], x)
  }

  lemma ConsMultiset<T>(x: T, s: seq<T>)
    ensures multiset([x] + s) == multiset{x} + multiset(s)
  {
  }

  lemma HeadMultiset<T>(s: seq<T>)
    requires s != []
    ensures multiset(s) == multiset{s[0]} + multiset(s[1..])
  {
    assert s == [s[0]] + s[1..];
  }

  lemma {:induction false} MergeMultiset<T>(lt: (T, T) -> bool, a: seq<T>, b: seq<T>)
    ensures multiset(Merge(lt, a, b)) == multiset(a) + multiset(b)
    decreases |a| + |b|
  {
    if a == [] || b == [] {
    } else if lt(b[0], a[0]) {
      MergeMultiset(lt, a, b[1..]);
      ConsMultiset(b[0], Merge(lt, a, b[1..]));
      HeadMultiset(b);
    } else {
      MergeMultiset(lt, a[1..], b);
      ConsMultiset(a[0], Merge(lt, a[1..], b));
      HeadMultiset(a);
    }
  }

  lemma MergeElements<T>(lt: (T, T) -> bool, a: seq<T>, b: seq<T>)
    ensures multiset(Merge(lt, a, b)) == multiset(a) + multiset(b)
    ensures |Merge(lt, a, b)| == |a| + |b|
    ensures forall x :: x in Merge(lt, a, b) <==> x in a || x in b
  {
    MergeMultiset(lt, a, b);
    var r := Merge(lt, a, b);
    assert |r| == |multiset(r)| == |a| + |b|;
    forall x ensures x in r <==> x in a || x in b {
      assert x in r <==> x in multiset(r);
      assert x in a <==> x in multiset(a);
      assert x in b <==> x in multiset(b);
    }
  }

  lemma NoDupIsMultiplicityOne<T>(s: seq<T>)
    ensures NoDup(s) <==> forall x :: multiset(s)[x] <= 1
  {
    if s != [] {
      var n := |s| - 1;
      NoDupIsMultiplicityOne(s[..n]);
      assert s == s[..n] + [s[n]];
      assert multiset(s) == multiset(s[..n]) + multiset{s[n]};
      if NoDup(s) {
        assert NoDup(s[..n]);
        assert s[n] !in s[..n];
        assert s[n] !in multiset(s[..n]);
      } else if NoDup(s[..n]) {
        var i, j :| 0 <= i < j < |s| && s[i] == s[j];
        assert j == n;
        assert s[..n][i] in multiset(s[..n]);
        assert multiset(s)[s[n]] > 1;
      } else {
        var x :| multiset(s[..n])[x] > 1;
        assert multiset(s)[x] > 1;
      }
    }
  }

  lemma MergeNoDup<T>(lt: (T, T) -> bool, a: seq<T>, b: seq<T>)
    requires NoDup(a) && NoDup(b)
    requires forall x :: x in a ==> x !in b
    ensures NoDup(Merge(lt, a, b))
  {
    MergeElements(lt, a, b);
    NoDupIsMultiplicityOne(a);
    NoDupIsMultiplicityOne(b);
    NoDupIsMultiplicityOne(Merge(lt, a, b));
    forall x ensures multiset(Merge(lt, a, b))[x] <= 1 {
      if x in multiset(a) { assert x in a; }
    }
  }

  lemma SortedCons<T>(lt: (T, T) -> bool, x: T, s: seq<T>)
    requires Sorted(lt, s)
    requires forall y :: y in s ==> !lt(y, x)
    ensures Sorted(lt, [x] + s)
  {
    var r := [x] + s;
    forall i, j | 0 <= i < j < |r| ensures !lt(r[j], r[i]) {
      assert r[j] == s[j - 1];
    }
  }

  lemma {:induction false} MergeSorted<T(!new)>(lt: (T, T) -> bool, a: seq<T>, b: seq<T>)
    requires StrictWeakOrder(lt) && Sorted(lt, a) && Sorted(lt, b)
    ensures Sorted(lt, Merge(lt, a, b))
    decreases |a| + |b|
  {
    if a == [] || b == [] {
    } else if lt(b[0], a[0]) {
      MergeSorted(lt, a, b[1..]);
      MergeElements(lt, a, b[1..]);
      SortedCons(lt, b[0], Merge(lt, a, b[1..]));
    } else {
      MergeSorted(lt, a[1..], b);
      MergeElements(lt, a[1..], b);
      SortedCons(lt, a[0], Merge(lt, a[1..], b));
    }
  }

  lemma TiesOrderedCons<T>(lt: (T, T) -> bool, tie: (T, T) -> bool, x: T, s: seq<T>)
    requires TiesOrdered(lt, tie, s)
    requires forall y :: y in s && !lt(x, y) ==> tie(x, y)
    ensures TiesOrdered(lt, tie, [x] + s)
  {
    var r := [x] + s;
    forall i, j | 0 <= i < j < |r| && !lt(r[i], r[j]) ensures tie(r[i], r[j]) {
      assert r[j] == s[j - 1];
    }
  }

  /** Stability: merging a later batch keeps ties in the order they were added. */
  lemma {:induction false} MergeTies<T(!new)>(lt: (T, T) -> bool, tie: (T, T) -> bool, a: seq<T>, b: seq<T>)
    requires StrictWeakOrder(lt) && Sorted(lt, a) && Sorted(lt, b)
    requires TiesOrdered(lt, tie, a) && TiesOrdered(lt, tie, b)
    requires forall x, y :: x in a && y in b && !lt(x, y) && !lt(y, x) ==> tie(x, y)
    ensures TiesOrdered(lt, tie, Merge(lt, a, b))
    decreases |a| + |b|
  {
    if a == [] || b == [] {
    } else if lt(b[0], a[0]) {
      MergeTies(lt, tie, a, b[1..]);
      MergeElements(lt, a, b[1..]);
      TiesOrderedCons(lt, tie, b[0], Merge(lt, a, b[1..]));
    } else {
      MergeTies(lt, tie, a[1..], b);
      MergeElements(lt, a[1..], b);
      TiesOrderedCons(lt, tie, a[0], Merge(lt, a[1..], b));
    }
  }

  /** Merging three batches in either grouping gives the same list: what makes one bulk merge equal to many small ones. */
  lemma {:induction false} MergeAssociative<T(!new)>(lt: (T, T) -> bool, a: seq<T>, b: seq<T>, c: seq<T>)
    requires StrictWeakOrder(lt)
    ensures Merge(lt, Merge(lt, a, b), c) == Merge(lt, a, Merge(lt, b, c))
    decreases |a| + |b| + |c|
  {
    if a == [] || b == [] || c == [] {
    } else if lt(c[0], b[0]) {
      if lt(b[0], a[0]) {
        MergeAssociative(lt, a, b, c[1..]);
      } else if lt(c[0], a[0]) {
        MergeAssociative(lt, a, b, c[1..]);
      } else {
        MergeAssociative(lt, a[1..], b, c);
      }
    } else if lt(b[0], a[0]) {
      MergeAssociative(lt, a, b[1..], c);
      assert Merge(lt, a, b) == [b[0]] + Merge(lt, a, b[1..]);
      assert Merge(lt, b, c) == [b[0]] + Merge(lt, b[1..], c);
    } else {
      MergeAssociative(lt, a[1..], b, c);
      assert Merge(lt, a, b) == [a[0]] + Merge(lt, a[1..], b);
    }
  }

  /** Two orders that agree on the elements at hand merge alike. */
  lemma {:induction false} MergeAgrees<T>(lt: (T, T) -> bool, lt': (T, T) -> bool, a: seq<T>, b: seq<T>)
    requires forall x, y :: x in b && y in a ==> lt(x, y) == lt'(x, y)
    ensures Merge(lt, a, b) == Merge(lt', a, b)
    decreases |a| + |b|
  {
    if a == [] || b == [] {
    } else if lt(b[0], a[0]) {
      MergeAgrees(lt, lt', a, b[1..]);
    } else {
      MergeAgrees(lt, lt', a[1..], b);
    }
  }

  /** Inserting one element at its upper bound is merging a batch of one. */
  lemma {:induction false} InsertIsMerge<T(!new)>(lt: (T, T) -> bool, s: seq<T>, x: T)
    ensures var j := UpperBound(lt, s, x); s[..j] + [x] + s[j..] == Merge(lt, s, [x])
  {
    if s != [] && !lt(x, s[0]) {
      InsertIsMerge(lt, s[1..], x);
      var j := UpperBound(lt, s[1..], x);
      assert s[..j + 1] + [x] + s[j + 1..] == [s[0]] + (s[1..][..j] + [x] + s[1..][j..]);
    } else if s != [] {
      assert Merge(lt, s, [x]) == [x] + Merge(lt, s, [x][1..]);
    }
  }

  /** The common case: an element below nothing goes on the end. */
  lemma {:induction false} AppendIsMerge<T(!new)>(lt: (T, T) -> bool, s: seq<T>, x: T)
    requires StrictWeakOrder(lt) && Sorted(lt, s)
    requires s == [] || !lt(x, s[|s| - 1])
    ensures s + [x] == Merge(lt, s, [x])
  {
    if s != [] {
      if |s| > 1 { assert s[|s| - 1] == s[1..][|s| - 2]; }
      AppendIsMerge(lt, s[1..], x);
      assert s + [x] == [s[0]] + (s[1..] + [x]);
    }
  }

  lemma AppendElements<T>(s: seq<T>, x: T)
    ensures multiset(s + [x]) == multiset(s) + multiset([x])
    ensures forall y :: y in s + [x] <==> y in s || y in [x]
  {
  }

  lemma {:induction false} StableSortElements<T>(lt: (T, T) -> bool, s: seq<T>)
    ensures multiset(StableSort(lt, s)) == multiset(s)
    ensures forall x :: x in StableSort(lt, s) <==> x in s
  {
    if s != [] {
      var n := |s| - 1;
      StableSortElements(lt, s[..n]);
      MergeElements(lt, StableSort(lt, s[..n]), [s[n]]);
      AppendElements(s[..n], s[n]);
      assert s == s[..n] + [s[n]];
    }
  }

  lemma {:induction false} StableSortSorted<T(!new)>(lt: (T, T) -> bool, s: seq<T>)
    requires StrictWeakOrder(lt)
    ensures Sorted(lt, StableSort(lt, s))
  {
    if s != [] {
      var n := |s| - 1;
      StableSortSorted(lt, s[..n]);
      MergeSorted(lt, StableSort(lt, s[..n]), [s[n]]);
    }
  }

  lemma NonEmptyHasElement<T>(s: seq<T>)
    ensures s != [] ==> exists x :: x in s
  {
    if s != [] { assert s[0] in s; }
  }

  /** Strictly ascending lists with the same elements are the same list. */
  lemma {:induction false} AscendingDetermined<T(!new)>(lt: (T, T) -> bool, s: seq<T>, t: seq<T>)
    requires forall a, b :: lt(a, b) ==> !lt(b, a)
    requires forall i, j :: 0 <= i < j < |s| ==> lt(s[i], s[j])
    requires forall i, j :: 0 <= i < j < |t| ==> lt(t[i], t[j])
    requires forall x :: x in s <==> x in t
    ensures s == t
  {
    if s == [] {
      NonEmptyHasElement(t);
    } else {
      assert s[0] in s && s[0] in t;
      assert t[0] in t && t[0] in s;
      assert s[0] == t[0];
      forall x ensures x in s[1..] <==> x in t[1..] {
        if x in s[1..] {
          var i :| 0 < i < |s| && s[i] == x;
          assert x in s && lt(s[0], x);
          assert x in t;
        }
        if x in t[1..] {
          var i :| 0 < i < |t| && t[i] == x;
          assert x in t && lt(t[0], x);
          assert x in s;
        }
      }
      AscendingDetermined(lt, s[1..], t[1..]);
    }
  }

  /** Inserting an absent element keeps a sorted list sorted and without repeats, and adds just that element. */
  lemma InsertKeeps<T(!new)>(lt: (T, T) -> bool, s: seq<T>, x: T)
    requires StrictWeakOrder(lt) && Sorted(lt, s) && NoDup(s) && x !in s
    ensures Sorted(lt, Merge(lt, s, [x])) && NoDup(Merge(lt, s, [x]))
    ensures forall y :: y in Merge(lt, s, [x]) <==> y in s || y == x
  {
    MergeElements(lt, s, [x]);
    MergeSorted(lt, s, [x]);
    MergeNoDup(lt, s, [x]);
  }

  // ---------------------------------------------------------------- filtering and renumbering

  /** Drops the elements `f` gives nothing for and replaces the others by what it gives. */
  function FilterMap<T, U>(f: T -> Option<U>, s: seq<T>): (r: seq<U>) {
    if s == [] then []
    else
      var rest := FilterMap(f, s[..|s| - 1]);
      match f(s[|s| - 1])
      case None => rest
      case Some(y) => rest + [y]
  }

  ghost predicate Pairwise<T>(rel: (T, T) -> bool, s: seq<T>) {
    forall i, j :: 0 <= i < j < |s| ==> rel(s[i], s[j])
  }

  lemma {:induction false} FilterMapElements<T, U>(f: T -> Option<U>, s: seq<T>)
    ensures forall y :: y in FilterMap(f, s) ==> exists i :: 0 <= i < |s| && f(s[i]) == Some(y)
    ensures forall i :: 0 <= i < |s| && f(s[i]).Some? ==> f(s[i]).value in FilterMap(f, s)
  {
    if s != [] {
      var n := |s| - 1;
      FilterMapElements(f, s[..n]);
      assert forall i :: 0 <= i < n ==> s[..n][i] == s[i];
      forall y | y in FilterMap(f, s) ensures exists i :: 0 <= i < |s| && f(s[i]) == Some(y) {
        if y in FilterMap(f, s[..n]) {
          var i :| 0 <= i < n && f(s[..n][i]) == Some(y);
          assert f(s[i]) == Some(y);
        }
      }
    }
  }

  /** A relation between earlier and later elements that `f` carries over holds after filtering. */
  lemma {:induction false} FilterMapPairwise<T, U>(f: T -> Option<U>, rel: (T, T) -> bool, rel': (U, U) -> bool, s: seq<T>)
    requires Pairwise(rel, s)
    requires forall x, y :: x in s && y in s && f(x).Some? && f(y).Some? && rel(x, y) ==> rel'(f(x).value, f(y).value)
    ensures Pairwise(rel', FilterMap(f, s))
  {
    if s != [] {
      var n := |s| - 1;
      FilterMapPairwise(f, rel, rel', s[..n]);
      FilterMapElements(f, s[..n]);
      var r := FilterMap(f, s);
      var rest := FilterMap(f, s[..n]);
      if f(s[n]).Some? {
        forall i | 0 <= i < |rest| ensures rel'(rest[i], f(s[n]).value) {
          var y := rest[i];
          assert y in rest;
          var j :| 0 <= j < n && f(s[..n][j]) == Some(y);
          assert rel(s[j], s[n]);
        }
      }
    }
  }

  /** What is kept is related earlier to later, seen before filtering. */
  ghost predicate KeptPairwise<T, U>(f: T -> Option<U>, rel: (U, U) -> bool, s: seq<T>) {
    forall i, j :: 0 <= i < j < |s| && f(s[i]).Some? && f(s[j]).Some? ==> rel(f(s[i]).value, f(s[j]).value)
  }

  lemma {:induction false} FilterMapKeepsPairs<T, U>(f: T -> Option<U>, rel: (U, U) -> bool, s: seq<T>)
    requires KeptPairwise(f, rel, s)
    ensures Pairwise(rel, FilterMap(f, s))
  {
    if s != [] {
      var n := |s| - 1;
      var rest := FilterMap(f, s[..n]);
      FilterMapKeepsPairs(f, rel, s[..n]);
      FilterMapElements(f, s[..n]);
      if f(s[n]).Some? {
        forall i | 0 <= i < |rest| ensures rel(rest[i], f(s[n]).value) {
          assert rest[i] in rest;
          var j :| 0 <= j < n && f(s[..n][j]) == Some(rest[i]);
          assert s[..n][j] == s[j];
        }
      }
    }
  }

  lemma {:induction false} FilterMapHasPairs<T, U>(f: T -> Option<U>, rel: (U, U) -> bool, s: seq<T>)
    requires Pairwise(rel, FilterMap(f, s))
    ensures KeptPairwise(f, rel, s)
  {
    if s != [] {
      var n := |s| - 1;
      var rest, r := FilterMap(f, s[..n]), FilterMap(f, s);
      assert forall i :: 0 <= i < |rest| ==> r[i] == rest[i];
      FilterMapHasPairs(f, rel, s[..n]);
      FilterMapElements(f, s[..n]);
      forall i, j | 0 <= i < j < |s| && f(s[i]).Some? && f(s[j]).Some? ensures rel(f(s[i]).value, f(s[j]).value) {
        assert s[..n][i] == s[i];
        if j < n {
          assert s[..n][j] == s[j];
        } else {
          assert f(s[i]).value in rest;
          var k :| 0 <= k < |rest| && rest[k] == f(s[i]).value;
          assert r[|rest|] == f(s[n]).value;
        }
      }
    }
  }

  /** Filtering leaves every pair related exactly when every kept pair was. */
  lemma FilterMapPairs<T, U>(f: T -> Option<U>, rel: (U, U) -> bool, s: seq<T>)
    ensures Pairwise(rel, FilterMap(f, s)) <==> KeptPairwise(f, rel, s)
  {
    if KeptPairwise(f, rel, s) {
      FilterMapKeepsPairs(f, rel, s);
    }
    if Pairwise(rel, FilterMap(f, s)) {
      FilterMapHasPairs(f, rel, s);
    }
  }

  // ---------------------------------------------------------------- sorting and mapping

  function Map<T, U>(f: T -> U, s: seq<T>): (r: seq<U>)
    ensures |r| == |s|
    ensures forall i :: 0 <= i < |s| ==> r[i] == f(s[i])
  {
    seq(|s|, i requires 0 <= i < |s| => f(s[i]))
  }

  lemma MapCons<T, U>(f: T -> U, x: T, s: seq<T>)
    ensures Map(f, [x] + s) == [f(x)] + Map(f, s)
  {
  }

  lemma MapTail<T, U>(f: T -> U, s: seq<T>)
    requires s != []
    ensures Map(f, s) != [] && Map(f, s)[0] == f(s[0]) && Map(f, s)[1..] == Map(f, s[1..])
  {
  }

  lemma {:induction false} MergeMap<T, U>(lt: (T, T) -> bool, lt': (U, U) -> bool, f: T -> U, a: seq<T>, b: seq<T>)
    requires forall x, y :: lt(x, y) == lt'(f(x), f(y))
    ensures Map(f, Merge(lt, a, b)) == Merge(lt', Map(f, a), Map(f, b))
    decreases |a| + |b|
  {
    if a == [] || b == [] {
    } else {
      MapTail(f, a);
      MapTail(f, b);
      if lt(b[0], a[0]) {
        MergeMap(lt, lt', f, a, b[1..]);
        MapCons(f, b[0], Merge(lt, a, b[1..]));
      } else {
        MergeMap(lt, lt', f, a[1..], b);
        MapCons(f, a[0], Merge(lt, a[1..], b));
      }
    }
  }

  lemma {:induction false} StableSortMap<T, U>(lt: (T, T) -> bool, lt': (U, U) -> bool, f: T -> U, s: seq<T>)
    requires forall x, y :: lt(x, y) == lt'(f(x), f(y))
    ensures Map(f, StableSort(lt, s)) == StableSort(lt', Map(f, s))
  {
    if s != [] {
      var n := |s| - 1;
      StableSortMap(lt, lt', f, s[..n]);
      MergeMap(lt, lt', f, StableSort(lt, s[..n]), [s[n]]);
      assert Map(f, s)[..n] == Map(f, s[..n]);
      assert Map(f, [s[n]]) == [f(s[n])];
    }
  }

  // ---------------------------------------------------------------- how many

  function Elements<T>(s: seq<T>): set<T> {
    set x | x in s
  }

  lemma {:induction false} DistinctCount<T>(s: seq<T>)
    requires NoDup(s)
    ensures |Elements(s)| == |s|
  {
    if s != [] {
      var n := |s| - 1;
      DistinctCount(s[..n]);
      assert s == s[..n] + [s[n]];
      assert Elements(s) == Elements(s[..n]) + {s[n]};
    }
  }

  /** A list without repeats is no longer than a list that holds all it holds. */
  lemma SubsetSize<T>(a: set<T>, b: set<T>)
    requires a <= b
    ensures |a| <= |b|
  {
    assert b == a + (b - a);
  }

  lemma NoLonger<T>(s: seq<T>, t: seq<T>)
    requires NoDup(s) && NoDup(t) && forall x :: x in s ==> x in t
    ensures |s| <= |t|
  {
    DistinctCount(s);
    DistinctCount(t);
    assert Elements(t) == Elements(s) + (Elements(t) - Elements(s));
  }
}
