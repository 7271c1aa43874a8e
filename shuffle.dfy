// Fisher-Yates shuffle on a copy (script.js `shuffle`). The random index drawn
// at step i is a parameter: `draws[i]` is the `j` with 0 <= j <= i.

module Shuffle {
  import opened Common

  /** The draws a run of the shuffle over `n` elements may make: draws[i] <= i. */
  predicate ValidDraws(draws: seq<nat>, n: nat) {
    |draws| == n && forall i :: 0 <= i < n ==> draws[i] <= i
  }

  function SwapAt<T>(s: seq<T>, i: nat, j: nat): (r: seq<T>)
    requires i < |s| && j < |s|
    ensures |r| == |s| && r[i] == s[j] && r[j] == s[i]
    ensures forall k :: 0 <= k < |s| && k != i && k != j ==> r[k] == s[k]
  {
    s[i := s[j]][j := s[i]]
  }

  /** The steps i = k-1, k-2, ..., 1 of the shuffle, each swapping
      positions i and draws[i]; the result is a rearrangement of `s`. */
  function FisherYates<T>(s: seq<T>, draws: seq<nat>, k: nat): (r: seq<T>)
    requires k <= |s| && ValidDraws(draws, |s|)
    ensures |r| == |s| && multiset(r) == multiset(s)
    decreases k
  {
    if k <= 1 then s
    else FisherYates(SwapAt(s, k - 1, draws[k - 1]), draws, k - 1)
  }

  /** The whole shuffle of `s` under the given draws (one draw per position). */
  function Shuffled<T>(s: seq<T>, draws: seq<nat>): (r: seq<T>)
    requires ValidDraws(draws, |s|)
    ensures |r| == |s| && multiset(r) == multiset(s)
  {
    FisherYates(s, draws, |draws|)
  }

  /** Shuffles a copy of `a` in place and returns it; `a` itself is a value and
      stays as it was. */
  method Shuffle<T>(a: seq<T>, draws: seq<nat>) returns (r: seq<T>)
    requires ValidDraws(draws, |a|)
    ensures r == Shuffled(a, draws)
    ensures |r| == |a| && multiset(r) == multiset(a)
  {
    var arr := new T[|a|](i requires 0 <= i < |a| => a[i]);
    assert arr[..] == a;
    ghost var target := Shuffled(a, draws);
    var i := |a| - 1;
    while i > 0
      invariant -1 <= i < |a|
      invariant |a| > 0 ==> 0 <= i
      invariant FisherYates(arr[..], draws, i + 1) == target
    {
      ghost var before := arr[..];
      Swap(arr, i, draws[i]);
      FisherYatesStep(before, draws, i);
      i := i - 1;
    }
    r := arr[..];
  }

  /** One step of the shuffle in place: exchange positions i and j. */
  method Swap<T>(arr: array<T>, i: nat, j: nat)
    requires i < arr.Length && j < arr.Length
    modifies arr
    ensures arr[..] == SwapAt(old(arr[..]), i, j)
  {
    arr[i], arr[j] := arr[j], arr[i];
  }

  /** Step i of the shuffle swaps positions i and draws[i], then runs the
      steps below i. */
  lemma FisherYatesStep<T>(s: seq<T>, draws: seq<nat>, i: nat)
    requires 0 < i < |s| && ValidDraws(draws, |s|)
    ensures FisherYates(s, draws, i + 1) == FisherYates(SwapAt(s, i, draws[i]), draws, i)
  {
  }

  /** Shuffling a sequence without repeats gives a sequence without repeats. */
  lemma ShuffledDistinct<T>(s: seq<T>, draws: seq<nat>)
    requires ValidDraws(draws, |s|) && Distinct(s)
    ensures Distinct(Shuffled(s, draws))
  {
    DistinctPermutation(s, Shuffled(s, draws));
  }
}
