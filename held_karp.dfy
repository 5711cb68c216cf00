/**
 * solve_tsp_dynamic_programming: the Held-Karp recurrence over (current node,
 * remaining nodes) states, the next-hop table it records, and the replay of that
 * table into a tour.
 *
 * The recurrence is specified by the functions Dist, NextHop and OptimalPath; the
 * class Solver holds the memo tables and its method DistMemo is the memoised `dist`.
 */
module HeldKarp {
  import opened Tours
  import opened FirstMin
  import BruteForce

  /** A state whose current node and remaining nodes are all nodes of d. */
  predicate WfState(d: Matrix, ni: nat, remaining: set<nat>) {
    IsSquare(d) && ni < |d| && forall j :: j in remaining ==> j < |d|
  }

  /** The remaining set the solver starts from: frozenset(range(1, n)). */
  function AllButOrigin(n: nat): set<nat> {
    RangeSet(1, n)
  }

  /** The nodes of s below k, in ascending order: the order in which the model
      iterates over a remaining set. */
  function Ascending(s: set<nat>, k: nat): (r: seq<nat>)
    ensures forall j :: j in r <==> j in s && j < k
    ensures forall a :: 0 <= a < |r| ==> r[a] < k
    ensures forall a, b :: 0 <= a < b < |r| ==> r[a] < r[b]
  {
    if k == 0 then []
    else
      var r0 := Ascending(s, k - 1);
      if k - 1 in s then
        var r := r0 + [k - 1];
        assert forall a :: 0 <= a < |r0| ==> r[a] == r0[a];
        r
      else r0
  }

  /** dist(ni, N): the cheapest way to leave ni, visit every node of N once, and return to 0. */
  function Dist(d: Matrix, ni: nat, remaining: set<nat>): int
    requires WfState(d, ni, remaining)
    decreases remaining, 2
  {
    if remaining == {} then d[ni][0]
    else
      MinByCost(Costs(d, ni, remaining)).1
  }

  /** The cost of going from ni to nj first and then finishing optimally. */
  function Step(d: Matrix, ni: nat, remaining: set<nat>, nj: nat): int
    requires WfState(d, ni, remaining) && nj in remaining
    decreases remaining, 0
  {
    d[ni][nj] + Dist(d, nj, remaining - {nj})
  }

  /** The `costs` list of dist(ni, N): one (nj, cost) pair per nj of N, in ascending order of nj. */
  function Costs(d: Matrix, ni: nat, remaining: set<nat>): (r: seq<(nat, int)>)
    requires WfState(d, ni, remaining)
    ensures remaining != {} ==> |r| > 0
    decreases remaining, 1
  {
    var js := Ascending(remaining, |d|);
    assert remaining != {} ==> |js| > 0 by {
      if remaining != {} {
        var x :| x in remaining;
        assert x in js;
      }
    }
    seq(|js|, k requires 0 <= k < |js| => (js[k], Step(d, ni, remaining, js[k])))
  }

  /** memo[(ni, N)]: the minimising next node that dist(ni, N) records. */
  function NextHop(d: Matrix, ni: nat, remaining: set<nat>): (h: nat)
    requires WfState(d, ni, remaining) && remaining != {}
    ensures h in remaining
  {
    var js := Ascending(remaining, |d|);
    var k := FirstMinIndex(Costs(d, ni, remaining));
    assert Costs(d, ni, remaining)[k].0 == js[k];
    MinByCost(Costs(d, ni, remaining)).0
  }

  /** The Held-Karp recurrence: the base case returns straight to 0; otherwise the
      recorded next hop is a node of the remaining set whose term is exactly the
      returned minimum, no term is smaller, and every smaller node id gives a
      strictly larger term (ties go to the first node in ascending order). */
  lemma DistRecurrence(d: Matrix, ni: nat, remaining: set<nat>)
    requires WfState(d, ni, remaining)
    ensures remaining == {} ==> Dist(d, ni, remaining) == d[ni][0]
    ensures remaining != {} ==>
              var h := NextHop(d, ni, remaining);
              && Dist(d, ni, remaining) == Step(d, ni, remaining, h)
              && (forall j :: j in remaining ==> Dist(d, ni, remaining) <= Step(d, ni, remaining, j))
              && (forall j :: j in remaining && j < h ==> Dist(d, ni, remaining) < Step(d, ni, remaining, j))
  {
    if remaining != {} {
      var js := Ascending(remaining, |d|);
      var cs := Costs(d, ni, remaining);
      var m := FirstMinIndex(cs);
      var h := NextHop(d, ni, remaining);
      assert h == js[m];
      forall j | j in remaining ensures Dist(d, ni, remaining) <= Step(d, ni, remaining, j) {
        var k :| 0 <= k < |js| && js[k] == j;
        assert cs[k].1 == Step(d, ni, remaining, j);
      }
      forall j | j in remaining && j < h ensures Dist(d, ni, remaining) < Step(d, ni, remaining, j) {
        var k :| 0 <= k < |js| && js[k] == j;
        assert k < m;
        assert cs[k].1 == Step(d, ni, remaining, j);
      }
    }
  }

  /** Dist is determined by the recurrence: a value attained by some remaining node
      and undercut by none is Dist. */
  lemma DistByWitness(d: Matrix, ni: nat, remaining: set<nat>, j: nat, v: int)
    requires WfState(d, ni, remaining) && j in remaining && Step(d, ni, remaining, j) == v
    requires forall k :: k in remaining ==> v <= Step(d, ni, remaining, k)
    ensures Dist(d, ni, remaining) == v
  {
    DistRecurrence(d, ni, remaining);
  }

  /** NextHop is determined by the recurrence: it is the smallest remaining node whose
      term attains Dist. */
  lemma NextHopByWitness(d: Matrix, ni: nat, remaining: set<nat>, j: nat)
    requires WfState(d, ni, remaining) && j in remaining
    requires Step(d, ni, remaining, j) == Dist(d, ni, remaining)
    requires forall k :: k in remaining && k < j ==> Dist(d, ni, remaining) < Step(d, ni, remaining, k)
    ensures NextHop(d, ni, remaining) == j
  {
    DistRecurrence(d, ni, remaining);
  }

  /** The tour suffix that replaying memo from (ni, N) produces. */
  function OptimalPath(d: Matrix, ni: nat, remaining: set<nat>): (r: seq<nat>)
    requires WfState(d, ni, remaining)
    ensures |r| == |remaining|
    decreases remaining
  {
    if remaining == {} then []
    else
      var h := NextHop(d, ni, remaining);
      [h] + OptimalPath(d, h, remaining - {h})
  }

  /** The replayed path visits exactly the remaining nodes, once each. */
  lemma {:induction false} OptimalPathIsOrdering(d: Matrix, ni: nat, remaining: set<nat>)
    requires WfState(d, ni, remaining)
    ensures NodesIn(OptimalPath(d, ni, remaining), |d|)
    ensures multiset(OptimalPath(d, ni, remaining)) == multiset(remaining)
    decreases remaining
  {
    if remaining != {} {
      var h := NextHop(d, ni, remaining);
      var rest := OptimalPath(d, h, remaining - {h});
      var p := [h] + rest;
      assert OptimalPath(d, ni, remaining) == p;
      OptimalPathIsOrdering(d, h, remaining - {h});
      SetMultisetRemove(remaining, h);
      assert multiset(p) == multiset{h} + multiset(rest);
      forall k | 0 <= k < |p| ensures p[k] < |d| {
        if k > 0 { assert p[k] == rest[k - 1]; }
      }
    }
  }

  /** Dist is attained: the replayed path costs exactly Dist. */
  lemma {:induction false} OptimalPathAttainsDist(d: Matrix, ni: nat, remaining: set<nat>)
    requires WfState(d, ni, remaining)
    ensures NodesIn(OptimalPath(d, ni, remaining), |d|)
    ensures PathCost(d, ni, OptimalPath(d, ni, remaining)) == Dist(d, ni, remaining)
    decreases remaining
  {
    OptimalPathIsOrdering(d, ni, remaining);
    if remaining != {} {
      var h := NextHop(d, ni, remaining);
      var rest := OptimalPath(d, h, remaining - {h});
      OptimalPathAttainsDist(d, h, remaining - {h});
      DistRecurrence(d, ni, remaining);
      assert OptimalPath(d, ni, remaining) == [h] + rest;
      assert ([h] + rest)[1..] == rest;
    }
  }

  /** Dist is a lower bound: no ordering of the remaining nodes is cheaper. */
  lemma {:induction false} DistIsLowerBound(d: Matrix, ni: nat, remaining: set<nat>, q: seq<nat>)
    requires WfState(d, ni, remaining) && NodesIn(q, |d|) && multiset(q) == multiset(remaining)
    ensures Dist(d, ni, remaining) <= PathCost(d, ni, q)
    decreases remaining
  {
    if remaining == {} {
      assert |q| == |multiset(q)| == 0;
    } else {
      assert |q| == |multiset(q)| > 0;
      var j := q[0];
      assert j in multiset(q);
      SetMultisetRemove(remaining, j);
      assert q == [j] + q[1..];
      assert multiset(q[1..]) == multiset(q) - multiset{j} == multiset(remaining - {j});
      DistIsLowerBound(d, j, remaining - {j}, q[1..]);
      DistRecurrence(d, ni, remaining);
    }
  }

  /** dist(0, {1..n-1}) is the length of a shortest tour. */
  lemma HeldKarpIsOptimal(d: Matrix)
    requires IsSquare(d) && |d| >= 1
    ensures IsTour([0] + OptimalPath(d, 0, AllButOrigin(|d|)), |d|)
    ensures TourCost(d, [0] + OptimalPath(d, 0, AllButOrigin(|d|))) == Dist(d, 0, AllButOrigin(|d|))
    ensures forall p :: IsTour(p, |d|) ==> Dist(d, 0, AllButOrigin(|d|)) <= TourCost(d, p)
  {
    var n := |d|;
    var full := AllButOrigin(n);
    RangeMultiset(1, n);
    assert WfState(d, 0, full) by {
      AnagramOfRangeIsBounded(Range(1, n), 1, n);
    }
    var q := OptimalPath(d, 0, full);
    OptimalPathIsOrdering(d, 0, full);
    OptimalPathAttainsDist(d, 0, full);
    TourIsOriginPlusAnagram(q, n);
    TourCostFromOrigin(d, q);
    forall p | IsTour(p, n) ensures Dist(d, 0, full) <= TourCost(d, p) {
      assert p == [0] + p[1..];
      TourIsOriginPlusAnagram(p[1..], n);
      AnagramOfRangeIsBounded(p[1..], 1, n);
      DistIsLowerBound(d, 0, full, p[1..]);
      TourCostFromOrigin(d, p[1..]);
    }
  }

  /** The Held-Karp optimum equals the brute-force minimum on the same matrix. */
  lemma HeldKarpMatchesBruteForce(d: Matrix)
    requires IsSquare(d) && |d| >= 1
    ensures Dist(d, 0, AllButOrigin(|d|)) == MinByCost(BruteForce.Candidates(d)).1
  {
    var full := AllButOrigin(|d|);
    HeldKarpIsOptimal(d);
    BruteForce.BestCandidateIsOptimal(d);
    var p := [0] + OptimalPath(d, 0, full);
    var b := MinByCost(BruteForce.Candidates(d));
    assert Dist(d, 0, full) <= TourCost(d, b.0);
    assert b.1 <= TourCost(d, p);
  }

  /** Raising matrix entries never lowers the optimal tour length. */
  lemma OptimumMonotone(d: Matrix, e: Matrix)
    requires IsSquare(d) && IsSquare(e) && |d| == |e| >= 1
    requires forall i, j :: 0 <= i < |d| && 0 <= j < |d| ==> d[i][j] <= e[i][j]
    ensures Dist(d, 0, AllButOrigin(|d|)) <= Dist(e, 0, AllButOrigin(|e|))
  {
    var full := AllButOrigin(|d|);
    assert WfState(e, 0, full) && WfState(d, 0, full) by {
      RangeMultiset(1, |d|);
      AnagramOfRangeIsBounded(Range(1, |d|), 1, |d|);
    }
    var q := OptimalPath(e, 0, full);
    OptimalPathIsOrdering(e, 0, full);
    OptimalPathAttainsDist(e, 0, full);
    PathCostMonotone(d, e, 0, q);
    DistIsLowerBound(d, 0, full, q);
  }

  type Memo = map<(nat, set<nat>), nat>
  type Cache = map<(nat, set<nat>), int>

  /** Every cached cost is the recurrence's value, and every cached non-empty
      state has its next hop recorded. */
  ghost predicate CacheValid(d: Matrix, cache: Cache, memo: Memo) {
    forall key :: key in cache ==>
      && WfState(d, key.0, key.1)
      && cache[key] == Dist(d, key.0, key.1)
      && (key.1 != {} ==> key in memo)
  }

  /** Every recorded next hop is the recurrence's argmin, and the state it leads
      to is recorded too, unless that state's remaining set is empty. */
  ghost predicate MemoValid(d: Matrix, memo: Memo) {
    forall key {:trigger memo[key]} :: key in memo ==>
      && WfState(d, key.0, key.1)
      && key.1 != {}
      && memo[key] == NextHop(d, key.0, key.1)
      && (key.1 - {memo[key]} != {} ==> (memo[key], key.1 - {memo[key]}) in memo)
  }

  /** Recording the argmin of a state whose successor state is already recorded keeps memo valid. */
  lemma MemoRecord(d: Matrix, memo: Memo, ni: nat, remaining: set<nat>, h: nat)
    requires MemoValid(d, memo) && WfState(d, ni, remaining) && remaining != {}
    requires h == NextHop(d, ni, remaining)
    requires remaining - {h} != {} ==> (h, remaining - {h}) in memo
    ensures MemoValid(d, memo[(ni, remaining) := h])
  {
    var memo' := memo[(ni, remaining) := h];
    forall key | key in memo'
      ensures WfState(d, key.0, key.1) && key.1 != {} && memo'[key] == NextHop(d, key.0, key.1)
      ensures key.1 - {memo'[key]} != {} ==> (memo'[key], key.1 - {memo'[key]}) in memo'
    {
      if key != (ni, remaining) {
        assert memo'[key] == memo[key];
      }
    }
  }

  /** Caching the recurrence's value of a state whose next hop is recorded keeps the cache valid. */
  lemma CacheRecord(d: Matrix, cache: Cache, memo: Memo, ni: nat, remaining: set<nat>, c: int)
    requires CacheValid(d, cache, memo) && WfState(d, ni, remaining)
    requires c == Dist(d, ni, remaining)
    requires remaining != {} ==> (ni, remaining) in memo
    ensures CacheValid(d, cache[(ni, remaining) := c], memo)
  {
  }

  /** Every recorded hop lies in its state's remaining set, and the state it leads
      to is recorded unless nothing remains: the replay never misses a key. */
  ghost predicate MemoClosed(memo: Memo) {
    forall key {:trigger memo[key]} :: key in memo ==>
      && memo[key] in key.1
      && (key.1 - {memo[key]} != {} ==> (memo[key], key.1 - {memo[key]}) in memo)
  }

  /** The node sequence that replaying memo from (ni, N) appends. It stops at a
      missing key (a KeyError in Python) or at a recorded hop outside N (where
      Python's loop would not shrink N); neither happens under MemoClosed. */
  function Replay(memo: Memo, ni: nat, remaining: set<nat>): (r: seq<nat>)
    ensures |r| <= |remaining|
    ensures forall k :: 0 <= k < |r| ==> r[k] in remaining
    decreases remaining
  {
    if remaining == {} || (ni, remaining) !in memo || memo[(ni, remaining)] !in remaining then []
    else
      var h := memo[(ni, remaining)];
      [h] + Replay(memo, h, remaining - {h})
  }

  lemma MemoValidIsClosed(d: Matrix, memo: Memo)
    requires MemoValid(d, memo)
    ensures MemoClosed(memo)
  {
  }

  /** Replaying a valid memo yields exactly the optimal path of the recurrence. */
  lemma {:induction false} ReplayIsOptimalPath(d: Matrix, memo: Memo, ni: nat, remaining: set<nat>)
    requires MemoValid(d, memo) && WfState(d, ni, remaining)
    requires remaining != {} ==> (ni, remaining) in memo
    ensures Replay(memo, ni, remaining) == OptimalPath(d, ni, remaining)
    decreases remaining
  {
    if remaining != {} {
      var h := memo[(ni, remaining)];
      assert h == NextHop(d, ni, remaining);
      ReplayIsOptimalPath(d, memo, h, remaining - {h});
    }
  }

  /** The cache stays valid while memo only gains entries. */
  lemma CacheValidGrow(d: Matrix, cache: Cache, memo: Memo, memo': Memo)
    requires CacheValid(d, cache, memo) && memo.Keys <= memo'.Keys
    ensures CacheValid(d, cache, memo')
  {
  }

  /** For every node nj of js, the state (nj, N - {nj}) is recorded unless it is empty. */
  ghost predicate SuccessorsRecorded(memo: Memo, remaining: set<nat>, js: seq<nat>) {
    forall k :: 0 <= k < |js| && remaining - {js[k]} != {} ==> (js[k], remaining - {js[k]}) in memo
  }

  /** Recording one more successor state, while keeping the earlier ones, extends SuccessorsRecorded. */
  lemma SuccessorsRecordedExtend(memo: Memo, memo': Memo, remaining: set<nat>, js: seq<nat>, nj: nat)
    requires SuccessorsRecorded(memo, remaining, js) && memo.Keys <= memo'.Keys
    requires remaining - {nj} != {} ==> (nj, remaining - {nj}) in memo'
    ensures SuccessorsRecorded(memo', remaining, js + [nj])
  {
  }

  /** The state of one solve_tsp_dynamic_programming call: the matrix, the `memo`
      next-hop table, and the cost cache that `lru_cache` keeps for `dist`. */
  class Solver {
    const d: Matrix
    var memo: Memo
    var cache: Cache

    ghost predicate Valid()
      reads this
    {
      IsSquare(d) && CacheValid(d, cache, memo) && MemoValid(d, memo) && memo.Keys <= cache.Keys
    }

    constructor (d: Matrix)
      requires IsSquare(d)
      ensures Valid() && this.d == d
      ensures memo == map[] && cache == map[]
    {
      this.d := d;
      memo := map[];
      cache := map[];
    }

    /** dist(ni, N), memoised: returns the recurrence's value, records the argmin
        for every non-empty state it evaluates, never drops a recorded entry, and
        adds only states (nj, S) with S a subset of N. */
    method DistMemo(ni: nat, remaining: set<nat>) returns (c: int)
      requires Valid() && WfState(d, ni, remaining)
      modifies this
      ensures Valid()
      ensures c == Dist(d, ni, remaining)
      ensures remaining != {} ==> (ni, remaining) in memo
      ensures (ni, remaining) in cache
      ensures old(memo).Keys <= memo.Keys && old(cache).Keys <= cache.Keys
      ensures forall key :: key in cache && key !in old(cache) ==> key.1 <= remaining
      ensures forall key :: key in memo && key !in old(memo) ==> key.1 <= remaining
      decreases remaining, 1
    {
      if (ni, remaining) in cache {
        return cache[(ni, remaining)];
      }
      if remaining == {} {
        c := d[ni][0];
        CacheRecord(d, cache, memo, ni, remaining, c);
        cache := cache[(ni, remaining) := c];
        return;
      }
      var costs := EvalCosts(ni, remaining);
      c := Record(ni, remaining, costs);
    }

    /** The `costs` list of dist(ni, N): one recursive dist call per remaining node,
        in ascending order; afterwards every successor state is recorded. */
    method EvalCosts(ni: nat, remaining: set<nat>) returns (costs: seq<(nat, int)>)
      requires Valid() && WfState(d, ni, remaining)
      modifies this
      ensures Valid()
      ensures costs == Costs(d, ni, remaining)
      ensures SuccessorsRecorded(memo, remaining, Ascending(remaining, |d|))
      ensures old(memo).Keys <= memo.Keys && old(cache).Keys <= cache.Keys
      ensures forall key :: key in cache && key !in old(cache) ==> key.1 < remaining
      ensures forall key :: key in memo && key !in old(memo) ==> key.1 < remaining
      decreases remaining, 0
    {
      var js := Ascending(remaining, |d|);
      costs := [];
      var i := 0;
      while i < |js|
        invariant 0 <= i <= |js|
        invariant Valid()
        invariant costs == Costs(d, ni, remaining)[..i]
        invariant SuccessorsRecorded(memo, remaining, js[..i])
        invariant old(memo).Keys <= memo.Keys && old(cache).Keys <= cache.Keys
        invariant forall key :: key in cache && key !in old(cache) ==> key.1 < remaining
        invariant forall key :: key in memo && key !in old(memo) ==> key.1 < remaining
      {
        var nj := js[i];
        ghost var before := memo;
        var sub := DistMemo(nj, remaining - {nj});
        SuccessorsRecordedExtend(before, memo, remaining, js[..i], nj);
        assert js[..i + 1] == js[..i] + [nj];
        ghost var all := Costs(d, ni, remaining);
        assert all[i] == (nj, d[ni][nj] + sub);
        assert all[..i + 1] == all[..i] + [all[i]];
        costs := costs + [(nj, d[ni][nj] + sub)];
        i := i + 1;
      }
      assert js[..i] == js;
    }

    /** The end of dist(ni, N): take the first minimal pair of costs, record its node
        in memo and its cost in the cache, and return the cost. */
    method Record(ni: nat, remaining: set<nat>, costs: seq<(nat, int)>) returns (c: int)
      requires Valid() && WfState(d, ni, remaining) && remaining != {}
      requires costs == Costs(d, ni, remaining)
      requires SuccessorsRecorded(memo, remaining, Ascending(remaining, |d|))
      requires (ni, remaining) !in memo && (ni, remaining) !in cache
      modifies this
      ensures Valid()
      ensures c == Dist(d, ni, remaining)
      ensures memo == old(memo)[(ni, remaining) := NextHop(d, ni, remaining)]
      ensures cache == old(cache)[(ni, remaining) := c]
    {
      ghost var js := Ascending(remaining, |d|);
      var best := MinByCost(costs);
      ghost var m := FirstMinIndex(costs);
      assert |costs| == |js| && m < |js|;
      assert best.0 == js[m] == NextHop(d, ni, remaining);
      assert remaining - {js[m]} != {} ==> (js[m], remaining - {js[m]}) in memo;
      MemoRecord(d, memo, ni, remaining, best.0);
      CacheValidGrow(d, cache, memo, memo[(ni, remaining) := best.0]);
      memo := memo[(ni, remaining) := best.0];
      CacheRecord(d, cache, memo, ni, remaining, best.1);
      cache := cache[(ni, remaining) := best.1];
      c := best.1;
    }
  }

  /** Step 2 of solve_tsp_dynamic_programming: starting from node 0 and the full
      remaining set, repeatedly look up the recorded next hop, append it, and remove it.
      Every lookup finds its key, and the loop runs once per remaining node. */
  method ReplayMemo(memo: Memo, full: set<nat>) returns (tour: seq<nat>)
    requires MemoClosed(memo)
    requires full != {} ==> (0, full) in memo
    ensures tour == [0] + Replay(memo, 0, full)
    ensures |tour| == |full| + 1
  {
    var ni := 0;
    tour := [0];
    var remaining := full;
    while remaining != {}
      invariant remaining != {} ==> (ni, remaining) in memo
      invariant tour + Replay(memo, ni, remaining) == [0] + Replay(memo, 0, full)
      invariant |tour| + |remaining| == |full| + 1
      decreases remaining
    {
      ghost var path := Replay(memo, ni, remaining);
      ni := memo[(ni, remaining)];
      assert path == [ni] + Replay(memo, ni, remaining - {ni});
      tour := tour + [ni];
      remaining := remaining - {ni};
    }
  }

  /** solve_tsp_dynamic_programming: evaluate dist(0, {1..n-1}), then replay memo. */
  method SolveDynamicProgramming(d: Matrix) returns (tour: seq<nat>, cost: int)
    requires IsSquare(d) && |d| >= 1
    ensures cost == Dist(d, 0, AllButOrigin(|d|))
    ensures tour == [0] + OptimalPath(d, 0, AllButOrigin(|d|))
    ensures IsTour(tour, |d|) && cost == TourCost(d, tour)
    ensures forall p :: IsTour(p, |d|) ==> cost <= TourCost(d, p)
  {
    var full := AllButOrigin(|d|);
    var solver := new Solver(d);
    cost := solver.DistMemo(0, full);
    MemoValidIsClosed(d, solver.memo);
    tour := ReplayMemo(solver.memo, full);
    ReplayIsOptimalPath(d, solver.memo, 0, full);
    HeldKarpIsOptimal(d);
  }
}
