/**
 * The enumeration `itertools.permutations`: all orderings of a sequence, in the
 * order Python yields them (first by the position of the leading element, then
 * recursively by the orderings of the rest).
 */
module Perms {

  /** s without its element at position i. */
  function Remove<T>(s: seq<T>, i: nat): (r: seq<T>)
    requires i < |s|
    ensures |r| == |s| - 1
  {
    s[..i] + s[i + 1..]
  }

  /** [x] + p for every p of ps, in order. */
  function Prepend<T>(x: T, ps: seq<seq<T>>): (r: seq<seq<T>>)
    ensures |r| == |ps|
    ensures forall k :: 0 <= k < |ps| ==> r[k] == [x] + ps[k]
  {
    seq(|ps|, k requires 0 <= k < |ps| => [x] + ps[k])
  }

  /** All orderings of s. */
  function Permutations<T>(s: seq<T>): (r: seq<seq<T>>)
    ensures |r| > 0
    decreases |s|, 1, 0
  {
    if |s| == 0 then [[]] else PermutationsFrom(s, 0)
  }

  /** The orderings of s whose first element is taken from a position i or later. */
  function PermutationsFrom<T>(s: seq<T>, i: nat): (r: seq<seq<T>>)
    requires i <= |s|
    ensures i < |s| ==> |r| > 0
    decreases |s|, 0, |s| - i
  {
    if i == |s| then [] else Prepend(s[i], Permutations(Remove(s, i))) + PermutationsFrom(s, i + 1)
  }

  lemma SeqMultisetRemove<T>(s: seq<T>, i: nat)
    requires i < |s|
    ensures multiset(s) == multiset{s[i]} + multiset(Remove(s, i))
  {
    assert s == s[..i] + [s[i]] + s[i + 1..];
  }

  /** Every ordering enumerated is a rearrangement of s. */
  lemma {:induction false} PermutationsAreAnagrams<T>(s: seq<T>, k: nat)
    requires k < |Permutations(s)|
    ensures multiset(Permutations(s)[k]) == multiset(s)
    decreases |s|, 1, 0
  {
    if |s| > 0 {
      PermutationsFromAreAnagrams(s, 0, k);
    }
  }

  lemma {:induction false} PermutationsFromAreAnagrams<T>(s: seq<T>, i: nat, k: nat)
    requires i <= |s| && k < |PermutationsFrom(s, i)|
    ensures multiset(PermutationsFrom(s, i)[k]) == multiset(s)
    decreases |s|, 0, |s| - i
  {
    var head := Prepend(s[i], Permutations(Remove(s, i)));
    if k < |head| {
      PermutationsAreAnagrams(Remove(s, i), k);
      SeqMultisetRemove(s, i);
    } else {
      PermutationsFromAreAnagrams(s, i + 1, k - |head|);
    }
  }

  lemma {:induction false} PermutationsFromContains<T>(s: seq<T>, i: nat, j: nat, k: nat)
    requires i <= j < |s| && k < |Permutations(Remove(s, j))|
    ensures [s[j]] + Permutations(Remove(s, j))[k] in PermutationsFrom(s, i)
    decreases j - i
  {
    var head := Prepend(s[i], Permutations(Remove(s, i)));
    if i == j {
      assert head[k] in head;
    } else {
      PermutationsFromContains(s, i + 1, j, k);
    }
  }

  /** Every rearrangement of s is enumerated. */
  lemma {:induction false} PermutationsComplete<T>(s: seq<T>, q: seq<T>)
    requires multiset(q) == multiset(s)
    ensures q in Permutations(s)
    decreases |s|
  {
    if |s| == 0 {
      assert |q| == |multiset(q)| == 0;
    } else {
      assert |q| == |multiset(q)| == |s|;
      assert q[0] in multiset(s);
      var j :| 0 <= j < |s| && s[j] == q[0];
      SeqMultisetRemove(s, j);
      assert q == [q[0]] + q[1..];
      assert multiset(q[1..]) == multiset(q) - multiset{q[0]} == multiset(Remove(s, j));
      PermutationsComplete(Remove(s, j), q[1..]);
      var k :| 0 <= k < |Permutations(Remove(s, j))| && Permutations(Remove(s, j))[k] == q[1..];
      PermutationsFromContains(s, 0, j, k);
    }
  }

  function Factorial(n: nat): (r: nat)
    ensures r >= 1
  {
    if n == 0 then 1 else n * Factorial(n - 1)
  }

  /** There are |s|! orderings of s. */
  lemma {:induction false} PermutationsCount<T>(s: seq<T>)
    ensures |Permutations(s)| == Factorial(|s|)
    decreases |s|, 1, 0
  {
    if |s| > 0 {
      PermutationsFromCount(s, 0);
    }
  }

  lemma {:induction false} PermutationsFromCount<T>(s: seq<T>, i: nat)
    requires i <= |s| && |s| > 0
    ensures |PermutationsFrom(s, i)| == (|s| - i) * Factorial(|s| - 1)
    decreases |s|, 0, |s| - i
  {
    if i < |s| {
      PermutationsCount(Remove(s, i));
      PermutationsFromCount(s, i + 1);
      assert (|s| - i) * Factorial(|s| - 1) == Factorial(|s| - 1) + (|s| - i - 1) * Factorial(|s| - 1);
    }
  }
}
