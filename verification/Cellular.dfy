/** Cellular noise keeps the few smallest of the distances it meets by max/min updates in place. */
module Cellular {

  function Min(a: real, b: real): real { if a <= b then a else b }
  function Max(a: real, b: real): real { if a <= b then b else a }

  const CELLULAR_INDEX_MAX := 3
  const SENTINEL := 999999.0

  ghost predicate Sorted(s: seq<real>) {
    forall i, j :: 0 <= i < j < |s| ==> s[i] <= s[j]
  }

  /** Inserts into a sorted sequence. */
  function Insert(s: seq<real>, d: real): (r: seq<real>)
    ensures |r| == |s| + 1
  {
    if s == [] then [d]
    else if s[|s| - 1] <= d then s + [d]
    else Insert(s[..|s| - 1], d) + [s[|s| - 1]]
  }

  lemma {:induction false} InsertSorted(s: seq<real>, d: real)
    requires Sorted(s)
    ensures Sorted(Insert(s, d)) && forall x :: x in Insert(s, d) ==> x in s || x == d
    decreases |s|
  {
    if s != [] && s[|s| - 1] > d {
      var n := |s| - 1;
      InsertSorted(s[..n], d);
      SortedAppend(Insert(s[..n], d), s[n]);
    } else {
      assert Insert(s, d) == s + [d];
      SortedAppend(s, d);
    }
  }

  lemma SortedAppend(s: seq<real>, e: real)
    requires Sorted(s) && forall x :: x in s ==> x <= e
    ensures Sorted(s + [e])
  {
    forall i, j | 0 <= i < j < |s| + 1
      ensures (s + [e])[i] <= (s + [e])[j]
    {
      assert s[i] in s;
    }
  }

  lemma {:induction false} InsertBag(s: seq<real>, d: real)
    ensures multiset(Insert(s, d)) == multiset(s) + multiset{d}
    decreases |s|
  {
    if s != [] && s[|s| - 1] > d {
      InsertBag(s[..|s| - 1], d);
      assert s == s[..|s| - 1] + [s[|s| - 1]];
    }
  }

  /** Insertion keeps the order and adds one element to the bag. */
  lemma InsertIs(s: seq<real>, d: real)
    requires Sorted(s)
    ensures Sorted(Insert(s, d)) && multiset(Insert(s, d)) == multiset(s) + multiset{d}
  {
    hide Insert, Sorted;
    InsertSorted(s, d);
    InsertBag(s, d);
  }

  /** The update loop gives every position the larger of its left neighbour and the smaller of itself and
      the new value; for a sorted sequence that is insertion without the largest. */
  lemma {:induction false} ShuffleIsInsert(s: seq<real>, d: real, i: nat)
    requires Sorted(s) && i < |s|
    ensures Insert(s, d)[i] == if i == 0 then Min(s[0], d) else Max(Min(s[i], d), s[i - 1])
    decreases |s|
  {
    var n := |s| - 1;
    if s[n] <= d {
    } else if i < n {
      ShuffleIsInsert(s[..n], d, i);
    } else {
      InsertEnd(s[..n], d, s[n]);
    }
  }

  /** The last element after an insertion is the larger of the new value and the old last one. */
  lemma InsertEnd(s: seq<real>, d: real, bound: real)
    requires Sorted(s) && (forall x :: x in s ==> x <= bound) && d < bound
    ensures Insert(s, d)[|s|] == if s == [] then d else Max(d, s[|s| - 1])
  {
  }

  /** One distance: the code's loop over the positions, from the top index down. */
  method Update(distance: array<real>, index1: nat, newDistance: real)
    requires index1 < distance.Length && Sorted(distance[..index1 + 1])
    modifies distance
    ensures distance[..index1 + 1] == Insert(old(distance[..index1 + 1]), newDistance)[..index1 + 1]
    ensures forall k :: index1 < k < distance.Length ==> distance[k] == old(distance[k])
  {
    ghost var s := distance[..index1 + 1];
    var i := index1;
    while i > 0
      invariant 0 <= i <= index1
      invariant forall k :: 0 <= k <= i ==> distance[k] == s[k]
      invariant forall k :: i < k <= index1 ==> distance[k] == Max(Min(s[k], newDistance), s[k - 1])
      invariant forall k :: index1 < k < distance.Length ==> distance[k] == old(distance[k])
    {
      distance[i] := Max(Min(distance[i], newDistance), distance[i - 1]);
      i := i - 1;
    }
    distance[0] := Min(distance[0], newDistance);
    forall k | 0 <= k <= index1
      ensures distance[k] == Insert(s, newDistance)[k]
    {
      ShuffleIsInsert(s, newDistance, k);
    }
  }

  // ----- over a whole stream -----

  /** All values of the stream, sorted, behind `start` sorted ones. */
  function SortedWith(start: seq<real>, stream: seq<real>): (r: seq<real>)
    ensures |r| == |start| + |stream|
  {
    if stream == [] then start
    else Insert(SortedWith(start, stream[..|stream| - 1]), stream[|stream| - 1])
  }

  lemma {:induction false} SortedWithIs(start: seq<real>, stream: seq<real>)
    requires Sorted(start)
    ensures Sorted(SortedWith(start, stream))
    ensures multiset(SortedWith(start, stream)) == multiset(start) + multiset(stream)
    decreases |stream|
  {
    if stream != [] {
      var n := |stream| - 1;
      SortedWithIs(start, stream[..n]);
      InsertIs(SortedWith(start, stream[..n]), stream[n]);
      assert stream == stream[..n] + [stream[n]];
    } else {
      assert multiset(stream) == multiset{};
    }
  }

  /** Dropping the largest before the next insertion changes nothing among the first `k`. */
  lemma {:induction false} InsertPrefix(s: seq<real>, d: real, k: nat)
    requires Sorted(s) && k <= |s|
    ensures Insert(s[..k], d)[..k] == Insert(s, d)[..k]
  {
    forall i | 0 <= i < k
      ensures Insert(s[..k], d)[i] == Insert(s, d)[i]
    {
      ShuffleIsInsert(s, d, i);
      ShuffleIsInsert(s[..k], d, i);
    }
  }

  /** The `k` smallest of a bag: sorted, taken from the bag, and nothing left in the bag is smaller. */
  ghost predicate SmallestOf(r: seq<real>, bag: multiset<real>, k: nat) {
    && |r| == k && Sorted(r) && multiset(r) <= bag
    && forall x, y :: x in bag - multiset(r) && y in r ==> y <= x
  }

  lemma PrefixIsSmallest(s: seq<real>, k: nat)
    requires Sorted(s) && k <= |s|
    ensures SmallestOf(s[..k], multiset(s), k)
  {
    SplitBag(s, k);
    forall x, y | x in s[k..] && y in s[..k]
      ensures y <= x
    {
      var i :| 0 <= i < k && s[i] == y;
      var j :| k <= j < |s| && s[j] == x;
    }
  }

  lemma SplitBag(s: seq<real>, k: nat)
    requires k <= |s|
    ensures multiset(s[..k]) <= multiset(s) && multiset(s) - multiset(s[..k]) == multiset(s[k..])
  {
    assert s == s[..k] + s[k..];
  }

  lemma SortedPrefix(r: seq<real>, n: nat)
    requires Sorted(r) && n <= |r|
    ensures Sorted(r[..n])
  {
  }

  ghost function Sentinels(k: nat): (s: seq<real>)
    ensures |s| == k && Sorted(s)
  {
    seq(k, _ => SENTINEL)
  }

  /** The 27 neighbour cells in the order of the code. */
  ghost function Neighbour(r: (int, int, int), i: int): (int, int, int) {
    (r.0 - 1 + i / 9, r.1 - 1 + i / 3 % 3, r.2 - 1 + i % 3)
  }

  ghost function Stream(f: (int, int, int) -> real, r: (int, int, int), n: nat): (s: seq<real>)
    ensures |s| == n
  {
    seq(n, i => f(Neighbour(r, i).0, Neighbour(r, i).1, Neighbour(r, i).2))
  }

  /** Distances kept after the 27 cells around the point: the `index1 + 1` smallest of them and the initial
      sentinels, in order, and of them alone if none is above 999999.  `f` is the distance to the
      feature point of a cell, by any of the metrics. */
  method KeepSmallest(f: (int, int, int) -> real, xr: int, yr: int, zr: int, index1: nat)
    returns (distance: array<real>)
    requires index1 <= CELLULAR_INDEX_MAX
    ensures fresh(distance) && distance.Length == 4
    ensures forall k :: index1 < k < distance.Length ==> distance[k] == SENTINEL
    ensures SmallestOf(distance[..index1 + 1],
                       multiset(Sentinels(index1 + 1)) + multiset(Stream(f, (xr, yr, zr), 27)), index1 + 1)
    ensures UpTo(Stream(f, (xr, yr, zr), 27), 999999.0) ==>
      SmallestOf(distance[..index1 + 1], multiset(Stream(f, (xr, yr, zr), 27)), index1 + 1)
  {
    hide Kept, Stream, SmallestOf, Sorted, Insert;
    distance := new real[CELLULAR_INDEX_MAX + 1](_ => SENTINEL);
    ghost var k, r := index1 + 1, (xr, yr, zr);
    ghost var start := Sentinels(k);
    assert distance[..k] == start;
    KeptStart(start, Stream(f, r, 0));
    var xi := xr - 1;
    while xi <= xr + 1
      invariant xr - 1 <= xi <= xr + 2
      invariant forall j :: k <= j < distance.Length ==> distance[j] == SENTINEL
      invariant Kept(distance[..k], start, Stream(f, r, 9 * (xi - (xr - 1))))
    {
      var yi := yr - 1;
      while yi <= yr + 1
        invariant yr - 1 <= yi <= yr + 2
        invariant forall j :: k <= j < distance.Length ==> distance[j] == SENTINEL
        invariant Kept(distance[..k], start, Stream(f, r, 9 * (xi - (xr - 1)) + 3 * (yi - (yr - 1))))
      {
        var zi := zr - 1;
        while zi <= zr + 1
          invariant zr - 1 <= zi <= zr + 2
          invariant forall j :: k <= j < distance.Length ==> distance[j] == SENTINEL
          invariant Kept(distance[..k], start, Stream(f, r, 9 * (xi - (xr - 1)) + 3 * (yi - (yr - 1)) + zi - (zr - 1)))
        {
          ghost var n := 9 * (xi - (xr - 1)) + 3 * (yi - (yr - 1)) + zi - (zr - 1);
          NeighbourAt(r, xi, yi, zi, n);
          KeptNext(distance[..k], start, f, r, n);
          Update(distance, index1, f(xi, yi, zi));
          zi := zi + 1;
        }
        yi := yi + 1;
      }
      xi := xi + 1;
    }
    KeptIsSmallest(distance[..k], start, Stream(f, r, 27));
    if UpTo(Stream(f, r, 27), 999999.0) {
      SentinelsAre(k);
      KeptWithoutSentinels(distance[..k], start, Stream(f, r, 27), 999999.0);
    }
  }

  lemma NeighbourAt(r: (int, int, int), xi: int, yi: int, zi: int, n: int)
    requires r.0 - 1 <= xi <= r.0 + 1 && r.1 - 1 <= yi <= r.1 + 1 && r.2 - 1 <= zi <= r.2 + 1
    requires n == 9 * (xi - (r.0 - 1)) + 3 * (yi - (r.1 - 1)) + zi - (r.2 - 1)
    ensures Neighbour(r, n) == (xi, yi, zi)
  {
  }

  /** What the first positions hold after part of the stream. */
  ghost predicate Kept(s: seq<real>, start: seq<real>, stream: seq<real>) {
    |s| == |start| && Sorted(s) && Sorted(start) && s == SortedWith(start, stream)[..|start|]
  }

  lemma KeptStart(start: seq<real>, stream: seq<real>)
    requires Sorted(start) && stream == []
    ensures Kept(start, start, stream)
  {
  }

  lemma KeptNext(s: seq<real>, start: seq<real>, f: (int, int, int) -> real, r: (int, int, int), n: nat)
    requires Kept(s, start, Stream(f, r, n))
    ensures var c := Neighbour(r, n);
      Sorted(s) && Kept(Insert(s, f(c.0, c.1, c.2))[..|s|], start, Stream(f, r, n + 1))
  {
    var c := Neighbour(r, n);
    var d := f(c.0, c.1, c.2);
    var all := SortedWith(start, Stream(f, r, n));
    SortedWithIs(start, Stream(f, r, n));
    StreamNext(start, f, r, n);
    hide Stream, Insert, Neighbour, SortedWith;
    InsertPrefix(all, d, |s|);
    InsertIs(s, d);
    SortedPrefix(Insert(s, d), |s|);
  }

  lemma StreamNext(start: seq<real>, f: (int, int, int) -> real, r: (int, int, int), n: nat)
    ensures var c := Neighbour(r, n);
      SortedWith(start, Stream(f, r, n + 1)) == Insert(SortedWith(start, Stream(f, r, n)), f(c.0, c.1, c.2))
  {
    var c := Neighbour(r, n);
    assert Stream(f, r, n + 1)[..n] == Stream(f, r, n);
    assert Stream(f, r, n + 1)[n] == f(c.0, c.1, c.2);
  }

  lemma KeptIsSmallest(s: seq<real>, start: seq<real>, stream: seq<real>)
    requires Kept(s, start, stream)
    ensures SmallestOf(s, multiset(start) + multiset(stream), |s|)
  {
    hide SmallestOf, SortedWith;
    SortedWithIs(start, stream);
    PrefixIsSmallest(SortedWith(start, stream), |start|);
  }

  // ----- without the sentinels -----

  ghost predicate AllAre(s: seq<real>, v: real) { forall i :: 0 <= i < |s| ==> s[i] == v }

  ghost predicate UpTo(s: seq<real>, v: real) { forall i :: 0 <= i < |s| ==> s[i] <= v }

  /** A value up to the last ones, which are all equal, goes in front of them. */
  lemma {:induction false} InsertBefore(s: seq<real>, start: seq<real>, d: real, top: real)
    requires d <= top && UpTo(s, top) && AllAre(start, top)
    ensures Insert(s + start, d) == Insert(s, d) + start
    decreases |start|
  {
    var n, all := |start| - 1, s + start;
    if start == [] {
      assert all == s && Insert(s, d) + start == Insert(s, d);
    } else if d < top {
      assert all[|all| - 1] == start[n] && all[..|all| - 1] == s + start[..n];
      InsertBefore(s, start[..n], d, top);
      assert (Insert(s, d) + start[..n]) + [start[n]] == Insert(s, d) + start;
    } else {
      assert all[|all| - 1] == start[n];
      assert all + [top] == (s + [top]) + start;
    }
  }

  /** Values up to the sentinel all come before the sentinels. */
  lemma {:induction false} SentinelsLast(start: seq<real>, stream: seq<real>, top: real)
    requires AllAre(start, top) && UpTo(stream, top)
    ensures SortedWith(start, stream) == SortedWith([], stream) + start
    ensures UpTo(SortedWith([], stream), top)
    decreases |stream|
  {
    if stream != [] {
      var n := |stream| - 1;
      SentinelsLast(start, stream[..n], top);
      InsertBefore(SortedWith([], stream[..n]), start, stream[n], top);
      InsertUpTo(SortedWith([], stream[..n]), stream[n], top);
    } else {
      assert [] + start == start;
    }
  }

  lemma {:induction false} InsertUpTo(s: seq<real>, d: real, top: real)
    requires UpTo(s, top) && d <= top
    ensures UpTo(Insert(s, d), top)
    decreases |s|
  {
    if s != [] && s[|s| - 1] > d {
      InsertUpTo(s[..|s| - 1], d, top);
    }
  }

  /** As soon as there are enough distances up to the sentinel, no sentinel is kept. */
  lemma KeptWithoutSentinels(s: seq<real>, start: seq<real>, stream: seq<real>, top: real)
    requires Kept(s, start, stream) && |start| <= |stream| && AllAre(start, top) && UpTo(stream, top)
    ensures SmallestOf(s, multiset(stream), |s|)
  {
    hide SmallestOf, SortedWith;
    SentinelsLast(start, stream, top);
    SortedWithIs([], stream);
    assert s == SortedWith([], stream)[..|s|];
    assert multiset([]) + multiset(stream) == multiset(stream);
    PrefixIsSmallest(SortedWith([], stream), |s|);
  }

  lemma SentinelsAre(k: nat)
    ensures AllAre(Sentinels(k), 999999.0)
  {
  }
}
