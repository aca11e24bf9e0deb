/** The orderings the index sorts and selects by.

    Every comparator of the implementation compares one to three real keys
    lexicographically (a key, then a tie-breaking key, then another).  A
    `Rank` holds such keys; `CompareRanks` is the comparator on it, in the
    sign convention of `Double.compare`.  `SortBy` is the stable list sort and
    `FirstMin` is `Collections.min`, both driven by a rank per element. */
module Ordering {

  /** Up to three keys, compared in order; unused keys are 0. */
  datatype Rank = Rank(first: real, second: real, third: real)

  /** Strict lexicographic order on ranks. */
  predicate Precedes(a: Rank, b: Rank) {
    || a.first < b.first
    || (a.first == b.first && a.second < b.second)
    || (a.first == b.first && a.second == b.second && a.third < b.third)
  }

  predicate NotAfter(a: Rank, b: Rank) {
    !Precedes(b, a)
  }

  /** `Double.compare` on exact reals. */
  function CompareReal(x: real, y: real): (r: int)
    ensures -1 <= r <= 1
    ensures r < 0 <==> x < y
    ensures r > 0 <==> y < x
  {
    if x < y then -1 else if x > y then 1 else 0
  }

  /** Compare the first keys, and on equality the next ones. */
  function CompareRanks(a: Rank, b: Rank): (r: int)
    ensures r < 0 <==> Precedes(a, b)
    ensures r > 0 <==> Precedes(b, a)
    ensures r == 0 <==> a == b
  {
    if a.first != b.first then CompareReal(a.first, b.first)
    else if a.second != b.second then CompareReal(a.second, b.second)
    else CompareReal(a.third, b.third)
  }

  /** The comparator is antisymmetric: swapping the arguments flips the sign. */
  lemma CompareRanksAntisymmetric(a: Rank, b: Rank)
    ensures CompareRanks(a, b) == -CompareRanks(b, a)
  {
  }

  /** `NotAfter` is a total preorder. */
  lemma NotAfterTotalPreorder(a: Rank, b: Rank, c: Rank)
    ensures NotAfter(a, a)
    ensures NotAfter(a, b) || NotAfter(b, a)
    ensures NotAfter(a, b) && NotAfter(b, c) ==> NotAfter(a, c)
    ensures Precedes(a, b) && NotAfter(b, c) ==> Precedes(a, c)
  {
  }

  predicate SortedBy<T>(xs: seq<T>, key: T -> Rank) {
    forall i, j | 0 <= i < j < |xs| :: NotAfter(key(xs[i]), key(xs[j]))
  }

  /** Insert `x` before the first element that does not rank below it. */
  function InsertInOrder<T>(x: T, ys: seq<T>, key: T -> Rank): (r: seq<T>)
    requires SortedBy(ys, key)
    ensures |r| == |ys| + 1
    ensures multiset(r) == multiset(ys) + multiset{x}
    ensures SortedBy(r, key)
  {
    if |ys| == 0 || NotAfter(key(x), key(ys[0])) then
      [x] + ys
    else
      var rest := InsertInOrder(x, ys[1..], key);
      assert ys == [ys[0]] + ys[1..];
      forall k | 0 <= k < |rest| ensures NotAfter(key(ys[0]), key(rest[k])) {
        assert rest[k] in multiset(rest);
        if rest[k] != x {
          assert rest[k] in multiset(ys[1..]);
          var m :| 0 <= m < |ys[1..]| && ys[1..][m] == rest[k];
          assert ys[m + 1] == rest[k];
        }
      }
      [ys[0]] + rest
  }

  /** A stable sort of `xs` by ascending rank. */
  function SortBy<T>(xs: seq<T>, key: T -> Rank): (r: seq<T>)
    ensures |r| == |xs|
    ensures multiset(r) == multiset(xs)
    ensures SortedBy(r, key)
  {
    if |xs| == 0 then []
    else
      assert xs == [xs[0]] + xs[1..];
      InsertInOrder(xs[0], SortBy(xs[1..], key), key)
  }

  /** The elements of `xs` whose rank is `k`, in their order in `xs`. */
  function WithRank<T>(xs: seq<T>, key: T -> Rank, k: Rank): seq<T> {
    if |xs| == 0 then []
    else (if key(xs[0]) == k then [xs[0]] else []) + WithRank(xs[1..], key, k)
  }

  /** Inserting `x` puts it before every element of its own rank. */
  lemma {:induction false} InsertInOrderKeepsTies<T>(x: T, ys: seq<T>, key: T -> Rank, k: Rank)
    requires SortedBy(ys, key)
    ensures WithRank(InsertInOrder(x, ys, key), key, k) ==
            (if key(x) == k then [x] else []) + WithRank(ys, key, k)
  {
    var r := InsertInOrder(x, ys, key);
    if |ys| == 0 || NotAfter(key(x), key(ys[0])) {
      assert r == [x] + ys;
      assert r[1..] == ys;
    } else {
      var rest := InsertInOrder(x, ys[1..], key);
      assert r == [ys[0]] + rest;
      assert r[1..] == rest;
      InsertInOrderKeepsTies(x, ys[1..], key, k);
      assert key(x) != key(ys[0]);
    }
  }

  /** Stability: sorting keeps the elements of each rank in their input
      order. */
  lemma {:induction false} SortByKeepsTies<T>(xs: seq<T>, key: T -> Rank, k: Rank)
    ensures WithRank(SortBy(xs, key), key, k) == WithRank(xs, key, k)
  {
    if |xs| > 0 {
      SortByKeepsTies(xs[1..], key, k);
      InsertInOrderKeepsTies(xs[0], SortBy(xs[1..], key), key, k);
    }
  }

  /** Positions listed in increasing order. */
  predicate Increasing(xs: seq<nat>) {
    forall i, j | 0 <= i < j < |xs| :: xs[i] < xs[j]
  }

  /** Of two positions of equal rank, the smaller comes first. */
  predicate StableBy(xs: seq<nat>, key: nat -> Rank) {
    forall i, j | 0 <= i < j < |xs| && key(xs[i]) == key(xs[j]) :: xs[i] < xs[j]
  }

  lemma {:induction false} InsertInOrderStable(x: nat, ys: seq<nat>, key: nat -> Rank)
    requires SortedBy(ys, key) && StableBy(ys, key)
    requires forall k | 0 <= k < |ys| :: x < ys[k]
    ensures StableBy(InsertInOrder(x, ys, key), key)
  {
    var r := InsertInOrder(x, ys, key);
    if |ys| == 0 || NotAfter(key(x), key(ys[0])) {
      assert r == [x] + ys;
      ConsStable(x, ys, key);
    } else {
      var tail := ys[1..];
      var rest := InsertInOrder(x, tail, key);
      assert r == [ys[0]] + rest;
      InsertInOrderStable(x, tail, key);
      forall j | 0 <= j < |rest| ensures key(ys[0]) == key(rest[j]) ==> ys[0] < rest[j] {
        assert rest[j] in multiset(rest);
        if rest[j] != x {
          assert rest[j] in multiset(tail);
          var m :| 0 <= m < |tail| && tail[m] == rest[j];
          assert ys[m + 1] == rest[j];
        }
      }
      ConsStable(ys[0], rest, key);
    }
  }

  /** A position put in front of a stable list keeps it stable when it comes
      before every position of its rank there. */
  lemma ConsStable(h: nat, rest: seq<nat>, key: nat -> Rank)
    requires StableBy(rest, key)
    requires forall j | 0 <= j < |rest| :: key(h) == key(rest[j]) ==> h < rest[j]
    ensures StableBy([h] + rest, key)
  {
    var r := [h] + rest;
    forall i, j | 0 <= i < j < |r| && key(r[i]) == key(r[j]) ensures r[i] < r[j] {
      assert r[j] == rest[j - 1];
      if i > 0 {
        assert r[i] == rest[i - 1];
      }
    }
  }

  /** Stability on positions: sorting positions listed in increasing order
      keeps the positions of equal rank in increasing order. */
  lemma {:induction false} SortByStable(xs: seq<nat>, key: nat -> Rank)
    requires Increasing(xs)
    ensures StableBy(SortBy(xs, key), key)
  {
    if |xs| > 0 {
      var tail := xs[1..];
      SortByStable(tail, key);
      var sorted := SortBy(tail, key);
      forall k | 0 <= k < |sorted| ensures xs[0] < sorted[k] {
        assert sorted[k] in multiset(tail);
        var m :| 0 <= m < |tail| && tail[m] == sorted[k];
        assert xs[m + 1] == sorted[k];
      }
      InsertInOrderStable(xs[0], sorted, key);
    }
  }

  /** Cutting a sorted, stable list of positions: the prefix stays sorted,
      stable and free of repeats, and every position in it ranks no later
      than every position after the cut, and lies before it on a tie. */
  lemma StableCut(xs: seq<nat>, key: nat -> Rank, n: nat)
    requires SortedBy(xs, key) && StableBy(xs, key) && n <= |xs|
    ensures SortedBy(xs[..n], key) && StableBy(xs[..n], key)
    ensures forall i, j | 0 <= i < j < n :: xs[..n][i] != xs[..n][j]
    ensures forall a, b | a in xs[..n] && b in xs[n..] :: NotAfter(key(a), key(b)) && (key(a) == key(b) ==> a < b)
  {
    forall a, b | a in xs[..n] && b in xs[n..] ensures NotAfter(key(a), key(b)) && (key(a) == key(b) ==> a < b) {
      var i :| 0 <= i < n && xs[..n][i] == a;
      var j :| 0 <= j < |xs| - n && xs[n..][j] == b;
      assert xs[i] == a && xs[n + j] == b;
    }
  }

  /** `Collections.min`: scan left to right and keep the candidate unless a
      later element ranks strictly before it, so the first minimum wins. */
  function FirstMin<T>(xs: seq<T>, key: T -> Rank): (i: nat)
    requires |xs| > 0
    ensures i < |xs|
    ensures forall k | 0 <= k < |xs| :: NotAfter(key(xs[i]), key(xs[k]))
    ensures forall k | 0 <= k < i :: Precedes(key(xs[i]), key(xs[k]))
  {
    if |xs| == 1 then 0
    else
      var init := xs[..|xs| - 1];
      var j := FirstMin(init, key);
      assert forall k | 0 <= k < |init| :: init[k] == xs[k];
      if Precedes(key(xs[|xs| - 1]), key(xs[j])) then |xs| - 1 else j
  }

  /** Every element of a sorted list's prefix ranks no later than every element
      of the remaining suffix. */
  lemma SortedSplit<T>(xs: seq<T>, key: T -> Rank, n: nat)
    requires SortedBy(xs, key) && n <= |xs|
    ensures forall a, b | a in xs[..n] && b in xs[n..] :: NotAfter(key(a), key(b))
  {
    forall a, b | a in xs[..n] && b in xs[n..] ensures NotAfter(key(a), key(b)) {
      var i :| 0 <= i < n && xs[..n][i] == a;
      var j :| 0 <= j < |xs| - n && xs[n..][j] == b;
      assert xs[i] == a && xs[n + j] == b;
    }
  }
}
