/** The shuffle of SortTBSPixels: an identity permutation scrambled by
    random swaps, with rand() modelled as a stream of draws. */
module Shuffle {
  /** The identity permutation [0, 1, ..., n-1]. */
  function Range(n: nat): (s: seq<nat>)
    ensures |s| == n
  {
    seq(n, i => i)
  }

  /** The permutation array after the first `steps` random swaps of
      SortTBSPixels; swap i uses draws t + 2i and t + 2i + 1. */
  function Shuffled(n: nat, rand: nat -> nat, t: nat, steps: nat): (p: seq<nat>)
    requires steps <= n
    ensures |p| == n
    decreases steps
  {
    if steps == 0 then Range(n)
    else
      var p := Shuffled(n, rand, t, steps - 1);
      var i1 := Pick(rand, t + 2 * (steps - 1), n);
      var i2 := Pick(rand, t + 2 * (steps - 1) + 1, n);
      Swap(p, i1, i2)
  }

  /** The value of rand() % n when rand() returns the draw numbered c. */
  function Pick(rand: nat -> nat, c: nat, n: nat): (i: nat)
    requires n > 0
    ensures i < n
  {
    rand(c) % n
  }

  /** The sequence with entries i and j exchanged, as the three-assignment swap does. */
  function Swap(p: seq<nat>, i: nat, j: nat): (q: seq<nat>)
    requires i < |p| && j < |p|
    ensures |q| == |p|
  {
    seq(|p|, k requires 0 <= k < |p| => if k == i then p[j] else if k == j then p[i] else p[k])
  }

  /** The random swaps keep a permutation of 0..n-1. */
  lemma {:induction false} ShuffledIsPermutation(n: nat, rand: nat -> nat, t: nat, steps: nat)
    requires steps <= n
    ensures multiset(Shuffled(n, rand, t, steps)) == multiset(Range(n))
    decreases steps
  {
    if steps > 0 {
      StepPreservesMultiset(n, rand, t, steps);
      ShuffledIsPermutation(n, rand, t, steps - 1);
    }
  }

  /** One swap of the shuffle keeps the multiset of entries. */
  lemma StepPreservesMultiset(n: nat, rand: nat -> nat, t: nat, steps: nat)
    requires 0 < steps <= n
    ensures multiset(Shuffled(n, rand, t, steps)) == multiset(Shuffled(n, rand, t, steps - 1))
  {
    ShuffledStep(n, rand, t, steps);
    SwapPreservesMultiset(Shuffled(n, rand, t, steps - 1), Pick(rand, t + 2 * (steps - 1), n), Pick(rand, t + 2 * (steps - 1) + 1, n));
  }

  /** One more step of the shuffle swaps two entries of the previous permutation. */
  lemma ShuffledStep(n: nat, rand: nat -> nat, t: nat, steps: nat)
    requires 0 < steps <= n
    ensures Shuffled(n, rand, t, steps)
         == Swap(Shuffled(n, rand, t, steps - 1), Pick(rand, t + 2 * (steps - 1), n), Pick(rand, t + 2 * (steps - 1) + 1, n))
  {
  }

  lemma SwapPreservesMultiset(p: seq<nat>, i: nat, j: nat)
    requires i < |p| && j < |p|
    ensures multiset(Swap(p, i, j)) == multiset(p)
  {
    assert Swap(p, i, j) == p[i := p[j]][j := p[i]];
  }

  /** The permutation array of SortTBSPixels: the identity on 0..sz-1,
      then sz swaps of two entries picked by rand() % sz. */
  method ShufflePermutation(sz: nat, rand: nat -> nat, t: nat) returns (permutation: array<nat>)
    ensures fresh(permutation)
    ensures permutation[..] == Shuffled(sz, rand, t, sz)
  {
    permutation := Identity(sz);
    for i := 0 to sz
      invariant permutation[..] == Shuffled(sz, rand, t, i)
    {
      var i1 := Pick(rand, t + 2 * i, sz);
      var i2 := Pick(rand, t + 2 * i + 1, sz);
      ShuffledStep(sz, rand, t, i + 1);
      SwapEntries(permutation, i1, i2);
    }
  }

  /** The first loop of SortTBSPixels: permutation[i] = i for every i. */
  method Identity(sz: nat) returns (a: array<nat>)
    ensures fresh(a)
    ensures a[..] == Range(sz)
  {
    a := new nat[sz];
    for i := 0 to sz
      invariant forall k :: 0 <= k < i ==> a[k] == k
    {
      a[i] := i;
    }
  }

  /** The temporary-variable swap of two entries of the permutation array. */
  method SwapEntries(a: array<nat>, i: nat, j: nat)
    requires i < a.Length && j < a.Length
    modifies a
    ensures a[..] == Swap(old(a[..]), i, j)
  {
    var tmp := a[i];
    a[i] := a[j];
    a[j] := tmp;
    assert forall k :: 0 <= k < a.Length ==> a[k] == Swap(old(a[..]), i, j)[k];
  }

}
