/**
 * Worked instances: one city, two cities, and the four-city matrix whose shortest
 * tour has length 80.
 */
module Scenarios {
  import opened Tours
  import opened FirstMin
  import opened HeldKarp
  import BruteForce

  /** From a one-node remaining set the only move is to that node and then home. */
  lemma DistSingle(d: Matrix, i: nat, k: nat)
    requires WfState(d, i, {k})
    ensures Dist(d, i, {k}) == d[i][k] + d[k][0]
    ensures NextHop(d, i, {k}) == k
  {
    assert {k} - {k} == {};
    DistByWitness(d, i, {k}, k, d[i][k] + d[k][0]);
  }

  /** From a one-node remaining set the replay visits that node. */
  lemma PathSingle(d: Matrix, i: nat, k: nat)
    requires WfState(d, i, {k})
    ensures OptimalPath(d, i, {k}) == [k]
  {
  }

  /** From {j, k}, going to j first costs d[i][j] + d[j][k] + d[k][0]. */
  lemma PairStep(d: Matrix, i: nat, j: nat, k: nat)
    requires WfState(d, i, {j, k}) && j != k
    ensures Step(d, i, {j, k}, j) == d[i][j] + d[j][k] + d[k][0]
  {
    assert {j, k} - {j} == {k};
    DistSingle(d, j, k);
  }

  /** From a two-node remaining set {j, k}, j < k, the cheaper order wins; on a tie, j. */
  lemma DistPair(d: Matrix, i: nat, j: nat, k: nat)
    requires WfState(d, i, {j, k}) && j < k
    ensures var viaJ := d[i][j] + d[j][k] + d[k][0];
            var viaK := d[i][k] + d[k][j] + d[j][0];
            && Dist(d, i, {j, k}) == (if viaK < viaJ then viaK else viaJ)
            && NextHop(d, i, {j, k}) == (if viaK < viaJ then k else j)
  {
    var viaJ := d[i][j] + d[j][k] + d[k][0];
    var viaK := d[i][k] + d[k][j] + d[j][0];
    var both: set<nat> := {j, k};
    PairStep(d, i, j, k);
    assert {k, j} == both;
    PairStep(d, i, k, j);
    var h := if viaK < viaJ then k else j;
    var v := if viaK < viaJ then viaK else viaJ;
    forall m | m in both ensures v <= Step(d, i, both, m) {
      assert m == j || m == k;
    }
    DistByWitness(d, i, both, h, v);
    NextHopByWitness(d, i, both, h);
  }

  /** From {j, k}, j < k, the replay visits the cheaper order; on a tie, j first. */
  lemma PathPair(d: Matrix, i: nat, j: nat, k: nat)
    requires WfState(d, i, {j, k}) && j < k
    ensures var viaJ := d[i][j] + d[j][k] + d[k][0];
            var viaK := d[i][k] + d[k][j] + d[j][0];
            OptimalPath(d, i, {j, k}) == (if viaK < viaJ then [k, j] else [j, k])
  {
    DistPair(d, i, j, k);
    var viaJ := d[i][j] + d[j][k] + d[k][0];
    var viaK := d[i][k] + d[k][j] + d[j][0];
    if viaK < viaJ {
      assert {j, k} - {k} == {j};
      PathSingle(d, k, j);
    } else {
      assert {j, k} - {j} == {k};
      PathSingle(d, j, k);
    }
  }

  /** The replay from (i, N) takes the recorded next hop h and continues from (h, N - {h}). */
  lemma PathVia(d: Matrix, i: nat, s: set<nat>, h: nat, rest: set<nat>)
    requires WfState(d, i, s) && s != {} && NextHop(d, i, s) == h && s - {h} == rest
    ensures WfState(d, h, rest)
    ensures OptimalPath(d, i, s) == [h] + OptimalPath(d, h, rest)
  {
  }

  /** One city: the tour is [0] and its length is d[0][0], for both solvers. */
  lemma OneCity(d: Matrix)
    requires IsSquare(d) && |d| == 1
    ensures AllButOrigin(1) == {}
    ensures Dist(d, 0, AllButOrigin(1)) == d[0][0]
    ensures OptimalPath(d, 0, AllButOrigin(1)) == []
    ensures BruteForce.Candidates(d) == [([0], d[0][0])]
  {
    assert Range(1, 1) == [];
    assert BruteForce.Orderings(1) == [[]];
    TourCostIsCycleSum(d, [0]);
    var c := BruteForce.Candidates(d);
    assert |c| == 1;
    assert c[0] == ([0] + [], TourCost(d, [0] + []));
    assert [0] + [] == [0];
  }

  const TwoCities: Matrix := [[0, 5], [5, 0]]

  /** Two cities 5 apart: tour [0, 1] of length 10. */
  lemma TwoCitiesTour()
    ensures AllButOrigin(2) == {1}
    ensures Dist(TwoCities, 0, AllButOrigin(2)) == 10
    ensures [0] + OptimalPath(TwoCities, 0, AllButOrigin(2)) == [0, 1]
  {
  }

  const FourCities: Matrix :=
    [[0, 10, 15, 20],
     [10, 0, 35, 25],
     [15, 35, 0, 30],
     [20, 25, 30, 0]]

  /** After 0 -> 1 the best finish is 1 -> 3 -> 2 -> 0, of length 70. */
  lemma FourCitiesFromOne(d: Matrix)
    requires d == FourCities
    ensures WfState(d, 1, {2, 3})
    ensures Dist(d, 1, {2, 3}) == 70 && NextHop(d, 1, {2, 3}) == 3
  {
    DistPair(d, 1, 2, 3);
  }

  /** After 0 -> 2 the best finish is 2 -> 3 -> 1 -> 0, of length 65. */
  lemma FourCitiesFromTwo(d: Matrix)
    requires d == FourCities
    ensures WfState(d, 2, {1, 3})
    ensures Dist(d, 2, {1, 3}) == 65
  {
    DistPair(d, 2, 1, 3);
  }

  /** After 0 -> 3 the best finish is 3 -> 1 -> 2 -> 0, of length 75. */
  lemma FourCitiesFromThree(d: Matrix)
    requires d == FourCities
    ensures WfState(d, 3, {1, 2})
    ensures Dist(d, 3, {1, 2}) == 75
  {
    DistPair(d, 3, 1, 2);
  }

  /** Leaving 0 for node 1 first costs 10 + dist(1, {2, 3}) = 80. */
  lemma FourCitiesViaOne(d: Matrix)
    requires d == FourCities
    ensures WfState(d, 0, {1, 2, 3})
    ensures Step(d, 0, {1, 2, 3}, 1) == 80
  {
    assert {1, 2, 3} - {1} == {2, 3};
    FourCitiesFromOne(d);
  }

  /** Leaving 0 for node 2 first costs 15 + dist(2, {1, 3}) = 80. */
  lemma FourCitiesViaTwo(d: Matrix)
    requires d == FourCities
    ensures WfState(d, 0, {1, 2, 3})
    ensures Step(d, 0, {1, 2, 3}, 2) == 80
  {
    assert {1, 2, 3} - {2} == {1, 3};
    FourCitiesFromTwo(d);
  }

  /** Leaving 0 for node 3 first costs 20 + dist(3, {1, 2}) = 95. */
  lemma FourCitiesViaThree(d: Matrix)
    requires d == FourCities
    ensures WfState(d, 0, {1, 2, 3})
    ensures Step(d, 0, {1, 2, 3}, 3) == 95
  {
    assert {1, 2, 3} - {3} == {1, 2};
    FourCitiesFromThree(d);
  }

  /** From {a, b, c}, a < b < c: when going to a first is no worse than the other
      two choices, dist is that cost and the recorded next hop is a. */
  lemma FirstOfThree(d: Matrix, i: nat, a: nat, b: nat, c: nat, v: int)
    requires WfState(d, i, {a, b, c}) && a < b < c
    requires Step(d, i, {a, b, c}, a) == v
    requires v <= Step(d, i, {a, b, c}, b) && v <= Step(d, i, {a, b, c}, c)
    ensures Dist(d, i, {a, b, c}) == v && NextHop(d, i, {a, b, c}) == a
  {
    var s: set<nat> := {a, b, c};
    forall m | m in s ensures v <= Step(d, i, s, m) {
      assert m == a || m == b || m == c;
    }
    DistByWitness(d, i, s, a, v);
    NextHopByWitness(d, i, s, a);
  }

  /** The four-city matrix: length 80, reached first through node 1 (tie with node 2). */
  lemma FourCitiesOptimum(d: Matrix)
    requires d == FourCities
    ensures WfState(d, 0, {1, 2, 3})
    ensures Dist(d, 0, {1, 2, 3}) == 80
    ensures NextHop(d, 0, {1, 2, 3}) == 1
    ensures Step(d, 0, {1, 2, 3}, 2) == 80
  {
    FourCitiesViaOne(d);
    FourCitiesViaTwo(d);
    FourCitiesViaThree(d);
    FirstOfThree(d, 0, 1, 2, 3, 80);
  }

  /** From {a, b, c}, a < b < c: when the next hop is a and from a the order c, b is
      strictly cheaper than b, c, the replay visits a, c, b. */
  lemma PathOfThree(d: Matrix, i: nat, a: nat, b: nat, c: nat)
    requires WfState(d, i, {a, b, c}) && a < b < c && NextHop(d, i, {a, b, c}) == a
    requires d[a][c] + d[c][b] + d[b][0] < d[a][b] + d[b][c] + d[c][0]
    ensures OptimalPath(d, i, {a, b, c}) == [a, c, b]
  {
    PathVia(d, i, {a, b, c}, a, {b, c});
    PathPair(d, a, b, c);
  }

  /** Replaying the four-city memo gives the tour [0, 1, 3, 2]. */
  lemma FourCitiesPath(d: Matrix)
    requires d == FourCities
    ensures WfState(d, 0, {1, 2, 3})
    ensures OptimalPath(d, 0, {1, 2, 3}) == [1, 3, 2]
  {
    FourCitiesOptimum(d);
    PathOfThree(d, 0, 1, 2, 3);
  }

  /** frozenset(range(1, 4)) is {1, 2, 3}. */
  lemma FourCitiesStart()
    ensures AllButOrigin(4) == {1, 2, 3}
  {
  }

  /** The four-city matrix: brute force finds length 80 as well. */
  lemma FourCitiesBruteForce(d: Matrix)
    requires d == FourCities
    ensures MinByCost(BruteForce.Candidates(d)).1 == 80
  {
    FourCitiesStart();
    FourCitiesOptimum(d);
    HeldKarpMatchesBruteForce(d);
  }
}
