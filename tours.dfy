/**
 * Distance matrices, closed tours and their lengths (compute_permutation_distance),
 * plus the open-path cost that the Held-Karp recurrence minimises.
 */
module Tours {

  /** d[i][j] is the cost of travelling directly from node i to node j. */
  type Matrix = seq<seq<int>>

  /** An n-by-n table, n == |d|. */
  predicate IsSquare(d: Matrix) {
    forall i :: 0 <= i < |d| ==> |d[i]| == |d|
  }

  /** Every entry of p is a node of an n-node graph. */
  predicate NodesIn(p: seq<nat>, n: nat) {
    forall k :: 0 <= k < |p| ==> p[k] < n
  }

  /** The node list `range(lo, hi)`. */
  function Range(lo: nat, hi: nat): (r: seq<nat>)
    decreases hi - lo
    ensures |r| == if lo <= hi then hi - lo else 0
    ensures forall k :: 0 <= k < |r| ==> r[k] == lo + k
  {
    if lo >= hi then [] else [lo] + Range(lo + 1, hi)
  }

  /** The node set `frozenset(range(lo, hi))`. */
  function RangeSet(lo: nat, hi: nat): set<nat> {
    set j | j in Range(lo, hi)
  }

  /** A tour of an n-node graph: a permutation of range(0, n) that starts at node 0. */
  predicate IsTour(p: seq<nat>, n: nat) {
    |p| == n && n >= 1 && p[0] == 0 && NodesIn(p, n) && multiset(p) == multiset(Range(0, n))
  }

  /** `permutation[1:] + permutation[:1]`: every node paired with its successor on the cycle. */
  function Rotated(p: seq<nat>): (r: seq<nat>)
    ensures |r| == |p|
    ensures forall k :: 0 <= k < |p| ==> r[k] == p[(k + 1) % |p|]
  {
    if p == [] then [] else p[1..] + p[..1]
  }

  /** The sum of d[a[k]][b[k]] over all positions k. */
  function EdgeSum(d: Matrix, a: seq<nat>, b: seq<nat>): int
    requires IsSquare(d) && |a| == |b| && NodesIn(a, |d|) && NodesIn(b, |d|)
  {
    if a == [] then 0 else d[a[0]][b[0]] + EdgeSum(d, a[1..], b[1..])
  }

  /** compute_permutation_distance: the length of the closed tour p. */
  function TourCost(d: Matrix, p: seq<nat>): int
    requires IsSquare(d) && NodesIn(p, |d|)
  {
    EdgeSum(d, p, Rotated(p))
  }

  /** The reference definition of a closed tour's length:
      the sum over i in [from, |p|) of d[p[i]][p[(i + 1) mod |p|]]. */
  function CycleSum(d: Matrix, p: seq<nat>, from: nat): int
    requires IsSquare(d) && NodesIn(p, |d|) && from <= |p|
    decreases |p| - from
  {
    if from == |p| then 0 else d[p[from]][p[(from + 1) % |p|]] + CycleSum(d, p, from + 1)
  }

  lemma {:induction false} EdgeSumSuffix(d: Matrix, p: seq<nat>, from: nat)
    requires IsSquare(d) && NodesIn(p, |d|) && from <= |p|
    ensures EdgeSum(d, p[from..], Rotated(p)[from..]) == CycleSum(d, p, from)
    decreases |p| - from
  {
    if from < |p| {
      var r := Rotated(p);
      assert p[from..][1..] == p[from + 1..];
      assert r[from..][1..] == r[from + 1..];
      EdgeSumSuffix(d, p, from + 1);
    }
  }

  /** The tour length includes the closing edge from the last node back to the first. */
  lemma {:induction false} TourCostIsCycleSum(d: Matrix, p: seq<nat>)
    requires IsSquare(d) && NodesIn(p, |d|)
    ensures TourCost(d, p) == CycleSum(d, p, 0)
    ensures |p| == 1 ==> TourCost(d, p) == d[p[0]][p[0]]
  {
    EdgeSumSuffix(d, p, 0);
    assert p[0..] == p;
    assert Rotated(p)[0..] == Rotated(p);
  }

  /** The cost of leaving node `from`, visiting q in order, and returning to node 0. */
  function PathCost(d: Matrix, from: nat, q: seq<nat>): int
    requires IsSquare(d) && from < |d| && NodesIn(q, |d|)
    decreases q
  {
    if q == [] then d[from][0] else d[from][q[0]] + PathCost(d, q[0], q[1..])
  }

  lemma {:induction false} EdgeSumIsPathCost(d: Matrix, from: nat, q: seq<nat>)
    requires IsSquare(d) && from < |d| && NodesIn(q, |d|)
    ensures EdgeSum(d, [from] + q, q + [0]) == PathCost(d, from, q)
    decreases q
  {
    if q != [] {
      assert ([from] + q)[1..] == [q[0]] + q[1..];
      assert (q + [0])[1..] == q[1..] + [0];
      EdgeSumIsPathCost(d, q[0], q[1..]);
    }
  }

  /** The length of the tour [0] + q is the cost of the open path from 0 through q back to 0. */
  lemma TourCostFromOrigin(d: Matrix, q: seq<nat>)
    requires IsSquare(d) && |d| >= 1 && NodesIn(q, |d|)
    ensures NodesIn([0] + q, |d|)
    ensures TourCost(d, [0] + q) == PathCost(d, 0, q)
  {
    var p := [0] + q;
    assert Rotated(p) == q + [0] by {
      assert p[1..] == q;
    }
    EdgeSumIsPathCost(d, 0, q);
  }

  /** Raising matrix entries never lowers a path's cost. */
  lemma {:induction false} PathCostMonotone(d: Matrix, e: Matrix, from: nat, q: seq<nat>)
    requires IsSquare(d) && IsSquare(e) && |d| == |e| && from < |d| && NodesIn(q, |d|)
    requires forall i, j :: 0 <= i < |d| && 0 <= j < |d| ==> d[i][j] <= e[i][j]
    ensures PathCost(d, from, q) <= PathCost(e, from, q)
    decreases q
  {
    if q != [] {
      PathCostMonotone(d, e, q[0], q[1..]);
    }
  }

  // ---------------------------------------------------------------------------
  // Multiset facts used to move between permutations as sequences and node sets.

  lemma SetMultisetRemove(s: set<nat>, x: nat)
    requires x in s
    ensures multiset(s - {x}) == multiset(s) - multiset{x}
  {
  }

  lemma MultisetAddFresh(s: set<nat>, x: nat)
    requires x !in s
    ensures multiset({x} + s) == multiset{x} + multiset(s)
  {
  }

  lemma {:induction false} RangeMultiset(lo: nat, hi: nat)
    ensures multiset(Range(lo, hi)) == multiset(RangeSet(lo, hi))
    decreases hi - lo
  {
    if lo < hi {
      RangeMultiset(lo + 1, hi);
      assert RangeSet(lo, hi) == {lo} + RangeSet(lo + 1, hi);
      MultisetAddFresh(RangeSet(lo + 1, hi), lo);
    } else {
      assert RangeSet(lo, hi) == {};
    }
  }

  /** A rearrangement of range(lo, hi) holds only nodes in [lo, hi). */
  lemma AnagramOfRangeIsBounded(q: seq<nat>, lo: nat, hi: nat)
    requires multiset(q) == multiset(Range(lo, hi))
    ensures forall k :: 0 <= k < |q| ==> lo <= q[k] < hi
  {
    forall k | 0 <= k < |q| ensures lo <= q[k] < hi {
      assert q[k] in multiset(q);
      assert q[k] in Range(lo, hi);
    }
  }

  lemma RangeFromOrigin(n: nat)
    requires n >= 1
    ensures multiset(Range(0, n)) == multiset{0} + multiset(Range(1, n))
  {
  }

  /** [0] followed by a rearrangement of range(1, n) is a tour. */
  lemma OriginPlusAnagramIsTour(q: seq<nat>, n: nat)
    requires n >= 1 && multiset(q) == multiset(Range(1, n))
    ensures IsTour([0] + q, n)
  {
    var p := [0] + q;
    RangeFromOrigin(n);
    assert multiset(p) == multiset{0} + multiset(q);
    AnagramOfRangeIsBounded(q, 1, n);
    forall k | 0 <= k < |p| ensures p[k] < n {
      if k > 0 { assert p[k] == q[k - 1]; }
    }
    assert |q| == |multiset(q)| == |multiset(Range(1, n))| == |Range(1, n)|;
  }

  /** [0] + q is a tour exactly when q is a rearrangement of range(1, n). */
  lemma TourIsOriginPlusAnagram(q: seq<nat>, n: nat)
    requires n >= 1
    ensures IsTour([0] + q, n) <==> multiset(q) == multiset(Range(1, n))
  {
    if multiset(q) == multiset(Range(1, n)) {
      OriginPlusAnagramIsTour(q, n);
    }
    var p := [0] + q;
    if IsTour(p, n) {
      RangeFromOrigin(n);
      assert multiset(p) == multiset{0} + multiset(q);
      assert multiset(q) == multiset(p) - multiset{0};
    }
  }
}
