// Samples kept sorted, and what the k-th of them is.
module OrderStatistics {
  predicate Sorted(s: seq<real>) {
    forall i, j | 0 <= i < j < |s| :: s[i] <= s[j]
  }

  // Where a sample goes: after those it is not less than.
  function Place(s: seq<real>, x: real): (k: nat)
    ensures k <= |s|
  {
    if s == [] || x < s[0] then 0 else 1 + Place(s[1..], x)
  }

  function Insert(s: seq<real>, x: real): (r: seq<real>) {
    s[..Place(s, x)] + [x] + s[Place(s, x)..]
  }

  lemma {:induction false} PlaceIs(s: seq<real>, x: real, k: nat)
    requires k <= |s| && (forall i | 0 <= i < k :: s[i] <= x) && (k < |s| ==> x < s[k])
    ensures Place(s, x) == k
  {
    if k > 0 {
      PlaceIs(s[1..], x, k - 1);
    }
  }

  lemma {:induction false} PlaceSplits(s: seq<real>, x: real)
    requires Sorted(s)
    ensures forall i | 0 <= i < |s| :: s[i] <= x <==> i < Place(s, x)
  {
    if s != [] && s[0] <= x {
      PlaceSplits(s[1..], x);
      forall i | 0 <= i < |s| ensures s[i] <= x <==> i < Place(s, x) {
        assert i > 0 ==> s[i] == s[1..][i - 1];
      }
    }
  }

  lemma InsertSorts(s: seq<real>, x: real)
    requires Sorted(s)
    ensures Sorted(Insert(s, x)) && multiset(Insert(s, x)) == multiset(s) + multiset{x}
  {
    InsertKeepsOrder(s, x);
    InsertAddsOne(s, x, Place(s, x));
  }

  lemma InsertAddsOne(s: seq<real>, x: real, k: nat)
    requires k <= |s|
    ensures multiset(s[..k] + [x] + s[k..]) == multiset(s) + multiset{x}
  {
    var front, back := s[..k], s[k..];
    assert s == front + back;
    assert multiset(front + [x] + back) == multiset(front) + multiset{x} + multiset(back);
  }

  lemma InsertKeepsOrder(s: seq<real>, x: real)
    requires Sorted(s)
    ensures Sorted(Insert(s, x))
  {
    PlaceSplits(s, x);
    var k, r := Place(s, x), Insert(s, x);
    forall i, j | 0 <= i < j < |r| ensures r[i] <= r[j] {
      InsertedAt(s, x, k, r, i);
      InsertedAt(s, x, k, r, j);
    }
  }

  lemma InsertedAt(s: seq<real>, x: real, k: nat, r: seq<real>, i: nat)
    requires k <= |s| && r == s[..k] + [x] + s[k..] && i < |r|
    ensures r[i] == if i < k then s[i] else if i == k then x else s[i - 1]
  {
  }

  // Insertion below the middle of a sorted sequence goes into its left part, otherwise
  // into its right part.
  lemma InsertDescends(left: seq<real>, v: real, right: seq<real>, x: real)
    requires Sorted(left + [v] + right)
    ensures Insert(left + [v] + right, x) ==
            if x < v then Insert(left, x) + [v] + right else left + [v] + Insert(right, x)
  {
    if x < v {
      PlaceLeft(left, v, right, x);
      InsertInLeft(left, v, right, x, Place(left, x));
    } else {
      PlaceRight(left, v, right, x);
      InsertInRight(left, v, right, x, Place(right, x));
    }
  }

  lemma InsertInLeft(left: seq<real>, v: real, right: seq<real>, x: real, k: nat)
    requires k <= |left|
    ensures var s := left + [v] + right; s[..k] + [x] + s[k..] == left[..k] + [x] + left[k..] + [v] + right
  {
    var s := left + [v] + right;
    assert s[..k] == left[..k] && s[k..] == left[k..] + [v] + right;
  }

  lemma InsertInRight(left: seq<real>, v: real, right: seq<real>, x: real, k: nat)
    requires k <= |right|
    ensures var s, n := left + [v] + right, |left| + 1 + k;
            s[..n] + [x] + s[n..] == left + [v] + (right[..k] + [x] + right[k..])
  {
    var s, n := left + [v] + right, |left| + 1 + k;
    assert s[..n] == left + [v] + right[..k] && s[n..] == right[k..];
  }

  lemma PlaceLeft(left: seq<real>, v: real, right: seq<real>, x: real)
    requires Sorted(left + [v] + right) && x < v
    ensures Place(left + [v] + right, x) == Place(left, x)
  {
    var s := left + [v] + right;
    PartsSorted(left, v, right);
    PlaceSplits(left, x);
    var k := Place(left, x);
    forall i | 0 <= i < k ensures s[i] <= x {
      assert s[i] == left[i];
    }
    assert s[k] == if k < |left| then left[k] else v;
    PlaceIs(s, x, k);
  }

  lemma PartsSorted(left: seq<real>, v: real, right: seq<real>)
    requires Sorted(left + [v] + right)
    ensures Sorted(left) && Sorted(right) && (forall i | 0 <= i < |left| :: left[i] <= v)
  {
    var s := left + [v] + right;
    assert forall i | 0 <= i < |left| :: left[i] == s[i];
    assert forall i | 0 <= i < |right| :: right[i] == s[|left| + 1 + i];
    assert s[|left|] == v;
  }

  lemma PlaceRight(left: seq<real>, v: real, right: seq<real>, x: real)
    requires Sorted(left + [v] + right) && v <= x
    ensures Place(left + [v] + right, x) == |left| + 1 + Place(right, x)
  {
    var s := left + [v] + right;
    PartsSorted(left, v, right);
    PlaceSplits(right, x);
    var k := |left| + 1 + Place(right, x);
    forall i | 0 <= i < k ensures s[i] <= x {
      assert s[i] == if i < |left| then left[i] else if i == |left| then v else right[i - |left| - 1];
    }
    PlaceIs(s, x, k);
  }

  // All samples of a run, in the order they came.
  function InOrder(xs: seq<real>): (s: seq<real>) {
    if xs == [] then [] else Insert(InOrder(xs[..|xs| - 1]), xs[|xs| - 1])
  }

  lemma {:induction false} InOrderSorts(xs: seq<real>)
    ensures Sorted(InOrder(xs)) && multiset(InOrder(xs)) == multiset(xs) && |InOrder(xs)| == |xs|
  {
    if xs != [] {
      InOrderSorts(xs[..|xs| - 1]);
      InsertSorts(InOrder(xs[..|xs| - 1]), xs[|xs| - 1]);
      assert xs == xs[..|xs| - 1] + [xs[|xs| - 1]];
    }
  }

  function Below(xs: seq<real>, v: real): (n: nat) {
    if xs == [] then 0 else Below(xs[..|xs| - 1], v) + if xs[|xs| - 1] < v then 1 else 0
  }

  function AtMost(xs: seq<real>, v: real): (n: nat) {
    if xs == [] then 0 else AtMost(xs[..|xs| - 1], v) + if xs[|xs| - 1] <= v then 1 else 0
  }

  lemma {:induction false} CountAppend(xs: seq<real>, ys: seq<real>, v: real)
    ensures Below(xs + ys, v) == Below(xs, v) + Below(ys, v) && AtMost(xs + ys, v) == AtMost(xs, v) + AtMost(ys, v)
  {
    if ys == [] {
      assert xs + ys == xs;
    } else {
      assert (xs + ys)[..|xs + ys| - 1] == xs + ys[..|ys| - 1];
      CountAppend(xs, ys[..|ys| - 1], v);
    }
  }

  // Sorting does not change the counts.
  lemma {:induction false} CountsKept(xs: seq<real>, v: real)
    ensures Below(InOrder(xs), v) == Below(xs, v) && AtMost(InOrder(xs), v) == AtMost(xs, v)
  {
    if xs != [] {
      var n := |xs| - 1;
      var s, x := InOrder(xs[..n]), xs[n];
      var k := Place(s, x);
      CountsKept(xs[..n], v);
      CountAppend(s[..k] + [x], s[k..], v);
      CountAppend(s[..k], [x], v);
      CountAppend(s[..k], s[k..], v);
      assert s == s[..k] + s[k..] && [x][..0] == [];
    }
  }

  lemma {:induction false} CountsInSorted(s: seq<real>, k: nat, n: nat)
    requires Sorted(s) && k < |s| && n <= |s|
    ensures Below(s[..n], s[k]) <= k && (k < n ==> k < AtMost(s[..n], s[k])) && (n <= k ==> n <= AtMost(s[..n], s[k]))
  {
    if n > 0 {
      CountsInSorted(s, k, n - 1);
      assert s[..n][..n - 1] == s[..n - 1];
      if n - 1 < k {
        BelowAtMostLength(s[..n], s[k]);
      }
    }
  }

  lemma {:induction false} BelowAtMostLength(s: seq<real>, v: real)
    ensures Below(s, v) <= |s|
  {
    if s != [] {
      BelowAtMostLength(s[..|s| - 1], v);
    }
  }

  lemma {:induction false} AtMostLength(xs: seq<real>, v: real)
    ensures AtMost(xs, v) <= |xs|
  {
    if xs != [] {
      AtMostLength(xs[..|xs| - 1], v);
    }
  }

  // The k-th of the sorted samples is the k-th order statistic of the run: at most k
  // samples are less, and more than k are no greater.
  lemma OrderStatistic(xs: seq<real>, k: nat)
    requires k < |xs|
    ensures |InOrder(xs)| == |xs|
    ensures Below(xs, InOrder(xs)[k]) <= k < AtMost(xs, InOrder(xs)[k])
  {
    InOrderSorts(xs);
    CountsKept(xs, InOrder(xs)[k]);
    CountsInSorted(InOrder(xs), k, |xs|);
    assert InOrder(xs)[..|xs|] == InOrder(xs);
  }
}
