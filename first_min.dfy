/**
 * Python's `min(pairs, key=lambda x: x[1])`: a left-to-right scan that replaces its
 * current choice only by a strictly smaller key, so the first minimal pair wins.
 */
module FirstMin {

  /** The position of the first pair whose key is minimal. */
  function FirstMinIndex<T>(xs: seq<(T, int)>): (k: nat)
    requires |xs| > 0
    ensures k < |xs|
    ensures forall j :: 0 <= j < |xs| ==> xs[k].1 <= xs[j].1
    ensures forall j :: 0 <= j < k ==> xs[k].1 < xs[j].1
  {
    if |xs| == 1 then 0
    else
      var m := FirstMinIndex(xs[..|xs| - 1]);
      if xs[|xs| - 1].1 < xs[m].1 then |xs| - 1 else m
  }

  /** The first pair whose key is minimal. */
  function MinByCost<T>(xs: seq<(T, int)>): (r: (T, int))
    requires |xs| > 0
    ensures r in xs
    ensures forall j :: 0 <= j < |xs| ==> r.1 <= xs[j].1
  {
    xs[FirstMinIndex(xs)]
  }

  /** Extending the scanned prefix by one pair switches to that pair exactly when
      its key is strictly smaller than the current minimum. */
  lemma FirstMinIndexExtend<T>(xs: seq<(T, int)>, i: nat)
    requires i < |xs|
    ensures i == 0 ==> FirstMinIndex(xs[..i + 1]) == 0
    ensures i > 0 ==> FirstMinIndex(xs[..i + 1]) ==
                        (if xs[i].1 < xs[FirstMinIndex(xs[..i])].1 then i else FirstMinIndex(xs[..i]))
  {
  }
}
