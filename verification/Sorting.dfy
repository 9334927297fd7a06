/** Rearranging a sequence: the library sort, and what two sequences with the same elements share. */
module Sorting {
  /** Nothing comes before itself, and "not before" is transitive: ties are allowed. */
  ghost predicate IsOrder<T(!new)>(before: (T, T) -> bool) {
    && (forall a, b :: before(a, b) ==> !before(b, a))
    && (forall a, b, c {:trigger before(b, a), before(c, b)} :: !before(b, a) && !before(c, b) ==> !before(c, a))
  }

  ghost predicate SortedBy<T>(xs: seq<T>, before: (T, T) -> bool) {
    forall i, j :: 0 <= i < j < |xs| ==> !before(xs[j], xs[i])
  }

  /** What `std::sort` promises: a rearrangement with nothing out of place. The order of elements
      that tie is left open. */
  ghost predicate SortOf<T>(sorted: seq<T>, xs: seq<T>, before: (T, T) -> bool) {
    SortedBy(sorted, before) && multiset(sorted) == multiset(xs)
  }

  method Sort<T(!new)>(xs: seq<T>, before: (T, T) -> bool) returns (sorted: seq<T>)
    requires IsOrder(before)
    ensures SortOf(sorted, xs, before)
  {
    sorted := [];
    for i := 0 to |xs|
      invariant SortOf(sorted, xs[..i], before)
    {
      sorted := InsertSorted(sorted, xs[i], before);
      assert xs[..i + 1] == xs[..i] + [xs[i]];
    }
    assert xs[..|xs|] == xs;
  }

  method InsertSorted<T(!new)>(sorted: seq<T>, x: T, before: (T, T) -> bool) returns (longer: seq<T>)
    requires IsOrder(before) && SortedBy(sorted, before)
    ensures SortOf(longer, sorted + [x], before)
  {
    hide IsOrder, SortedBy;
    var k := |sorted|;
    while k > 0 && before(x, sorted[k - 1])
      invariant 0 <= k <= |sorted|
      invariant forall i :: k <= i < |sorted| ==> before(x, sorted[i])
    {
      k := k - 1;
    }
    longer := sorted[..k] + [x] + sorted[k..];
    InsertionKeepsOrder(sorted, x, k, before);
    InsertionAddsOne(sorted, x, k);
  }

  lemma {:induction false} InsertionKeepsOrder<T(!new)>(sorted: seq<T>, x: T, k: nat, before: (T, T) -> bool)
    requires IsOrder(before) && SortedBy(sorted, before) && k <= |sorted|
    requires forall i :: k <= i < |sorted| ==> before(x, sorted[i])
    requires k > 0 ==> !before(x, sorted[k - 1])
    ensures SortedBy(sorted[..k] + [x] + sorted[k..], before)
  {
    forall i | 0 <= i < k ensures !before(x, sorted[i]) {
      assert i < k - 1 ==> !before(sorted[k - 1], sorted[i]);
    }
  }

  lemma InsertionAddsOne<T>(sorted: seq<T>, x: T, k: nat)
    requires k <= |sorted|
    ensures multiset(sorted[..k] + [x] + sorted[k..]) == multiset(sorted + [x])
  {
    assert sorted == sorted[..k] + sorted[k..];
  }

  ghost predicate Increasing<T>(xs: seq<T>, before: (T, T) -> bool) {
    forall i, j :: 0 <= i < j < |xs| ==> before(xs[i], xs[j])
  }

  lemma {:induction false} SameHead<T>(xs: seq<T>, sorted: seq<T>, before: (T, T) -> bool)
    requires Increasing(xs, before) && SortOf(sorted, xs, before)
    requires |xs| > 0 && |sorted| > 0
    ensures sorted[0] == xs[0]
  {
    SameMembers(sorted, xs, xs[0]);
    SameMembers(sorted, xs, sorted[0]);
    var i :| 0 <= i < |sorted| && sorted[i] == xs[0];
    var j :| 0 <= j < |xs| && xs[j] == sorted[0];
  }

  /** Without ties there is one sorted arrangement. */
  lemma {:induction false} SortIsDetermined<T>(xs: seq<T>, sorted: seq<T>, before: (T, T) -> bool)
    requires Increasing(xs, before) && SortOf(sorted, xs, before)
    ensures sorted == xs
    decreases |xs|
  {
    SameLength(xs, sorted);
    if |xs| > 0 {
      SameHead(xs, sorted, before);
      SameTails(xs, sorted);
      SortIsDetermined(xs[1..], sorted[1..], before);
    }
  }

  // ---------- Arrangements the sort may return ----------

  /** Where an element goes when it is placed in front of everything it ties with. */
  lemma {:induction false} FrontPlace<T(!new)>(sorted: seq<T>, x: T, before: (T, T) -> bool) returns (k: nat)
    requires IsOrder(before) && SortedBy(sorted, before)
    ensures k <= |sorted| && SortedBy(sorted[..k] + [x] + sorted[k..], before)
    ensures forall i :: 0 <= i < k ==> before(sorted[i], x)
    ensures forall i :: k <= i < |sorted| ==> !before(sorted[i], x)
  {
    k := 0;
    while k < |sorted| && before(sorted[k], x)
      invariant k <= |sorted| && forall i :: 0 <= i < k ==> before(sorted[i], x)
    {
      k := k + 1;
    }
    forall i | k <= i < |sorted| ensures !before(sorted[i], x) {
      assert i > k ==> !before(sorted[i], sorted[k]);
    }
  }

  /** Where an element goes when it is placed behind everything it ties with. */
  lemma {:induction false} BackPlace<T(!new)>(sorted: seq<T>, x: T, before: (T, T) -> bool) returns (k: nat)
    requires IsOrder(before) && SortedBy(sorted, before)
    ensures k <= |sorted| && SortedBy(sorted[..k] + [x] + sorted[k..], before)
    ensures forall i :: k <= i < |sorted| ==> before(x, sorted[i])
  {
    k := |sorted|;
    while k > 0 && before(x, sorted[k - 1])
      invariant k <= |sorted| && forall i :: k <= i < |sorted| ==> before(x, sorted[i])
    {
      k := k - 1;
    }
    InsertionKeepsOrder(sorted, x, k, before);
  }

  lemma {:induction false} Arrangement<T(!new)>(xs: seq<T>, before: (T, T) -> bool) returns (sorted: seq<T>)
    requires IsOrder(before)
    ensures SortOf(sorted, xs, before)
    decreases |xs|
  {
    if |xs| == 0 {
      sorted := [];
    } else {
      var x := xs[|xs| - 1];
      var rest := Arrangement(xs[..|xs| - 1], before);
      hide IsOrder, SortedBy;
      var k := FrontPlace(rest, x, before);
      InsertionAddsOne(rest, x, k);
      sorted := rest[..k] + [x] + rest[k..];
      assert xs == xs[..|xs| - 1] + [x];
    }
  }

  // ---------- Same elements ----------

  lemma SameMembers<T>(xs: seq<T>, ys: seq<T>, e: T)
    requires multiset(xs) == multiset(ys)
    ensures e in xs <==> e in ys
  {
    assert e in xs <==> e in multiset(xs);
    assert e in ys <==> e in multiset(ys);
  }

  lemma SameLength<T>(xs: seq<T>, ys: seq<T>)
    requires multiset(xs) == multiset(ys)
    ensures |xs| == |ys|
  {
    assert |xs| == |multiset(xs)| && |ys| == |multiset(ys)|;
  }

  lemma SameTails<T>(xs: seq<T>, ys: seq<T>)
    requires multiset(xs) == multiset(ys) && |xs| > 0 && |ys| > 0 && xs[0] == ys[0]
    ensures multiset(xs[1..]) == multiset(ys[1..])
    ensures xs[1..] == ys[1..] ==> xs == ys
  {
    assert xs == [xs[0]] + xs[1..] && ys == [ys[0]] + ys[1..];
    assert multiset(xs[1..]) == multiset(xs) - multiset{xs[0]};
    assert multiset(ys[1..]) == multiset(ys) - multiset{ys[0]};
  }

  /** Taking one occurrence of an element out of both. */
  lemma SameWithout<T>(xs: seq<T>, ys: seq<T>, i: nat, j: nat)
    requires multiset(xs) == multiset(ys) && i < |xs| && j < |ys| && xs[i] == ys[j]
    ensures multiset(xs[..i] + xs[i + 1..]) == multiset(ys[..j] + ys[j + 1..])
  {
    Without(xs, i);
    Without(ys, j);
  }

  lemma Without<T>(xs: seq<T>, i: nat)
    requires i < |xs|
    ensures multiset(xs[..i] + xs[i + 1..]) == multiset(xs) - multiset{xs[i]}
  {
    assert xs == xs[..i] + [xs[i]] + xs[i + 1..];
  }

  lemma Overwritten<T>(xs: seq<T>, k: nat, x: T)
    requires k < |xs|
    ensures multiset(xs[k := x]) == multiset(xs) - multiset{xs[k]} + multiset{x}
  {
    assert xs == xs[..k] + [xs[k]] + xs[k + 1..];
    assert xs[k := x] == xs[..k] + [x] + xs[k + 1..];
  }
}
