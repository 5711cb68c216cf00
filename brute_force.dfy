/**
 * solve_tsp_brute_force: node 0 is fixed first and every ordering of the other
 * nodes is tried; the first strictly cheaper tour seen is kept.
 */
module BruteForce {
  import opened Tours
  import opened Perms
  import opened FirstMin

  /** The orderings of nodes 1..n-1 in the order the solver visits them. */
  function Orderings(n: nat): (r: seq<seq<nat>>)
    ensures |r| > 0
  {
    Permutations(Range(1, n))
  }

  /** Every candidate [0] + ordering, paired with its tour length, in visiting order. */
  function Candidates(d: Matrix): (r: seq<(seq<nat>, int)>)
    requires IsSquare(d) && |d| >= 1
    ensures |r| == |Orderings(|d|)| > 0
    ensures forall k :: 0 <= k < |r| ==>
              r[k].0 == [0] + Orderings(|d|)[k] && NodesIn(r[k].0, |d|) && r[k].1 == TourCost(d, r[k].0)
  {
    var ps := Orderings(|d|);
    CandidatesAreTours(|d|);
    PermutationsCount(Range(1, |d|));
    seq(|ps|, k requires 0 <= k < |ps| => ([0] + ps[k], TourCost(d, [0] + ps[k])))
  }

  /** Every candidate the solver evaluates is a tour: [0] followed by a permutation of 1..n-1. */
  lemma CandidatesAreTours(n: nat)
    requires n >= 1
    ensures forall k :: 0 <= k < |Orderings(n)| ==> IsTour([0] + Orderings(n)[k], n)
  {
    forall k | 0 <= k < |Orderings(n)| ensures IsTour([0] + Orderings(n)[k], n) {
      PermutationsAreAnagrams(Range(1, n), k);
      TourIsOriginPlusAnagram(Orderings(n)[k], n);
    }
  }

  /** Every tour of the n nodes is among the candidates. */
  lemma EveryTourIsCandidate(d: Matrix, p: seq<nat>)
    requires IsSquare(d) && |d| >= 1 && IsTour(p, |d|)
    ensures exists k :: 0 <= k < |Candidates(d)| && Candidates(d)[k].0 == p
  {
    var n := |d|;
    assert p == [0] + p[1..];
    TourIsOriginPlusAnagram(p[1..], n);
    PermutationsComplete(Range(1, n), p[1..]);
    var k :| 0 <= k < |Orderings(n)| && Orderings(n)[k] == p[1..];
    assert Candidates(d)[k].0 == p;
  }

  /** The first cheapest candidate is a tour, its cost is its length, and no tour is shorter. */
  lemma BestCandidateIsOptimal(d: Matrix)
    requires IsSquare(d) && |d| >= 1
    ensures IsTour(MinByCost(Candidates(d)).0, |d|)
    ensures MinByCost(Candidates(d)).1 == TourCost(d, MinByCost(Candidates(d)).0)
    ensures forall p :: IsTour(p, |d|) ==> MinByCost(Candidates(d)).1 <= TourCost(d, p)
  {
    CandidatesAreTours(|d|);
    forall p | IsTour(p, |d|) ensures MinByCost(Candidates(d)).1 <= TourCost(d, p) {
      EveryTourIsCandidate(d, p);
    }
  }

  /** solve_tsp_brute_force. The infinity sentinel is `None`; with at least one
      candidate for every n >= 1, a tour is always found. */
  method SolveBruteForce(d: Matrix) returns (tour: seq<nat>, cost: int)
    requires IsSquare(d) && |d| >= 1
    ensures (tour, cost) == MinByCost(Candidates(d))
    ensures IsTour(tour, |d|) && cost == TourCost(d, tour)
    ensures forall p :: IsTour(p, |d|) ==> cost <= TourCost(d, p)
  {
    var points := Orderings(|d|);
    ghost var cands := Candidates(d);
    var best: Option<(seq<nat>, int)> := None;
    ghost var bi := 0;
    var i := 0;
    while i < |points|
      invariant 0 <= i <= |points|
      invariant best.None? <==> i == 0
      invariant best.Some? ==> bi == FirstMinIndex(cands[..i]) && best.value == cands[bi]
    {
      var permutation := [0] + points[i];
      var distance := TourCost(d, permutation);
      FirstMinIndexExtend(cands, i);
      if best.None? || distance < best.value.1 {
        best := Some((permutation, distance));
        bi := i;
      }
      i := i + 1;
    }
    assert cands[..i] == cands;
    tour, cost := best.value.0, best.value.1;
    BestCandidateIsOptimal(d);
  }

  datatype Option<T> = None | Some(value: T)
}
