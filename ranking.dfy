/** Ordering and sorting of the to-be-synthesized pixels
    (CompareTBSPixels and SortTBSPixels in texture_synthesis.c). */
module Ranking {
  import opened Images
  import opened SynthesisTypes
  import opened Shuffle

  /** The intended order: more set neighbours first, then lower row, then
      lower column, then the larger tag. */
  predicate Precedes(p: TBSPixel, q: TBSPixel)
  {
    || p.neighborCount > q.neighborCount
    || (p.neighborCount == q.neighborCount && p.idx.y < q.idx.y)
    || (p.neighborCount == q.neighborCount && p.idx.y == q.idx.y && p.idx.x < q.idx.x)
    || (p.neighborCount == q.neighborCount && p.idx.y == q.idx.y && p.idx.x == q.idx.x && p.r > q.r)
  }

  /** CompareTBSPixels: a negative result puts p1 first, a positive one p2.
      The differences are taken on unbounded integers. */
  function CompareTBSPixels(p1: TBSPixel, p2: TBSPixel): (d: int)
    ensures d < 0 <==> Precedes(p1, p2)
    ensures d > 0 <==> Precedes(p2, p1)
    ensures d == 0 <==> p1 == p2
  {
    var dn := p1.neighborCount - p2.neighborCount;
    if dn != 0 then -dn
    else
      var dy := p1.idx.y - p2.idx.y;
      if dy != 0 then dy
      else
        var dx := p1.idx.x - p2.idx.x;
        if dx != 0 then dx
        else p2.r - p1.r
  }

  /** Swapping the arguments negates the comparison. */
  lemma CompareAntisymmetric(p1: TBSPixel, p2: TBSPixel)
    ensures CompareTBSPixels(p1, p2) == -CompareTBSPixels(p2, p1)
  {
  }

  /** p1 may stand before p2 in a sorted array: p2 does not precede p1. */
  predicate Le(p1: TBSPixel, p2: TBSPixel)
  {
    !Precedes(p2, p1)
  }

  /** Le is exactly "CompareTBSPixels(p1, p2) <= 0". */
  lemma LeIsCompareAtMostZero(p1: TBSPixel, p2: TBSPixel)
    ensures Le(p1, p2) <==> CompareTBSPixels(p1, p2) <= 0
  {
  }

  /** Sorted under CompareTBSPixels. */
  predicate Sorted(s: seq<TBSPixel>)
  {
    forall i, j :: 0 <= i < j < |s| ==> Le(s[i], s[j])
  }

  /** The ranking key without the tag: more set neighbours first, then
      row-major position. */
  predicate KeyLe(p: TBSPixel, q: TBSPixel)
  {
    || p.neighborCount > q.neighborCount
    || (p.neighborCount == q.neighborCount && p.idx.y < q.idx.y)
    || (p.neighborCount == q.neighborCount && p.idx.y == q.idx.y && p.idx.x <= q.idx.x)
  }

  /** The comparator refines the tag-free key. */
  lemma LeImpliesKeyLe(p: TBSPixel, q: TBSPixel)
    requires Le(p, q)
    ensures KeyLe(p, q)
  {
  }

  /** The candidate the ranking puts first, by the tag-free key: most set
      neighbours, then lowest row, then lowest column. */
  function Best(s: seq<TBSPixel>): (b: TBSPixel)
    requires |s| > 0
    ensures b in s
    ensures forall q :: q in s ==> KeyLe(b, q)
  {
    if |s| == 1 then s[0]
    else
      var b := Best(s[1..]);
      assert forall q :: q in s ==> q == s[0] || q in s[1..];
      if KeyLe(s[0], b) then s[0] else b
  }

  /** Best depends only on the positions and neighbour counts: two
      sequences that agree on those, element by element, have Bests that
      agree on them too. */
  lemma BestSameKeys(s: seq<TBSPixel>, u: seq<TBSPixel>)
    requires |s| == |u| > 0
    requires forall k :: 0 <= k < |s| ==> s[k].idx == u[k].idx && s[k].neighborCount == u[k].neighborCount
    ensures Best(s).idx == Best(u).idx && Best(s).neighborCount == Best(u).neighborCount
  {
    var b, c := Best(s), Best(u);
    var i :| 0 <= i < |s| && s[i] == b;
    var j :| 0 <= j < |u| && u[j] == c;
    assert KeyLe(b, s[j]) && KeyLe(c, u[i]);
  }

  /** Whatever tags the shuffle hands out, the head of the sorted array has
      the position and neighbour count of Best: the tag never decides which
      pixel is synthesized next. */
  lemma SortedHeadIsBest(a: seq<TBSPixel>, s: seq<TBSPixel>, tags: seq<nat>)
    requires |tags| == |s| && |s| > 0
    requires Sorted(a) && multiset(a) == multiset(Retag(s, tags))
    ensures |a| > 0
    ensures a[0].idx == Best(s).idx && a[0].neighborCount == Best(s).neighborCount
  {
    var u := Retag(s, tags);
    assert |a| == |multiset(a)| == |u|;
    assert a[0] in multiset(u);
    var k :| 0 <= k < |u| && u[k] == a[0];
    assert s[k] in s;
    var b := Best(s);
    var m :| 0 <= m < |s| && s[m] == b;
    assert u[m] in multiset(a);
    var j :| 0 <= j < |a| && a[j] == u[m];
    if j > 0 {
      assert Le(a[0], a[j]);
    }
  }

  /** The tags of a sequence of candidates. */
  function Tags(s: seq<TBSPixel>): (t: seq<nat>)
    ensures |t| == |s| && forall i :: 0 <= i < |s| ==> t[i] == s[i].r
  {
    seq(|s|, i requires 0 <= i < |s| => s[i].r)
  }

  /** The candidates with their tags replaced, element by element. */
  function Retag(s: seq<TBSPixel>, tags: seq<nat>): (u: seq<TBSPixel>)
    requires |tags| == |s|
    ensures |u| == |s|
    ensures forall i :: 0 <= i < |s| ==> u[i] == s[i].(r := tags[i])
  {
    seq(|s|, i requires 0 <= i < |s| => s[i].(r := tags[i]))
  }

  lemma TagsAppend(s: seq<TBSPixel>, u: seq<TBSPixel>)
    ensures Tags(s + u) == Tags(s) + Tags(u)
  {
  }

  /** Rearranging candidates rearranges their tags the same way. */
  lemma {:induction false} MultisetTags(a: seq<TBSPixel>, b: seq<TBSPixel>)
    requires multiset(a) == multiset(b)
    ensures multiset(Tags(a)) == multiset(Tags(b))
    decreases |a|
  {
    if |a| == 0 {
      assert |b| == |multiset(b)| == 0;
    } else {
      var x := a[0];
      assert x in multiset(b);
      var j :| 0 <= j < |b| && b[j] == x;
      var b1, b2 := b[..j], b[j + 1..];
      assert b == b1 + [x] + b2;
      var b' := b1 + b2;
      assert a == [x] + a[1..];
      calc {
        multiset(a[1..]);
        multiset(a) - multiset{x};
        multiset(b) - multiset{x};
        { assert multiset(b) == multiset(b1) + multiset{x} + multiset(b2); }
        multiset(b');
      }
      MultisetTags(a[1..], b');
      TagsAppend([x], a[1..]);
      TagsAppend(b1 + [x], b2);
      TagsAppend(b1, [x]);
      TagsAppend(b1, b2);
    }
  }

  /** After SortTBSPixels the tags are a permutation of 0..sz-1. */
  lemma SortedTagsArePermutation(a: seq<TBSPixel>, s: seq<TBSPixel>, n: nat, rand: nat -> nat, t: nat)
    requires |s| == n
    requires multiset(a) == multiset(Retag(s, Shuffled(n, rand, t, n)))
    ensures multiset(Tags(a)) == multiset(Range(n))
  {
    MultisetTags(a, Retag(s, Shuffled(n, rand, t, n)));
    assert Tags(Retag(s, Shuffled(n, rand, t, n))) == Shuffled(n, rand, t, n);
    ShuffledIsPermutation(n, rand, t, n);
  }

  /** SortTBSPixels: tags every candidate with a shuffled index, then sorts
      the first sz elements by CompareTBSPixels. Always succeeds. */
  method SortTBSPixels(tbsPixels: array<TBSPixel>, sz: nat, rand: nat -> nat, t: nat) returns (status: int)
    requires sz <= tbsPixels.Length
    modifies tbsPixels
    ensures status == 0
    ensures Sorted(tbsPixels[..sz])
    ensures multiset(tbsPixels[..sz]) == multiset(Retag(old(tbsPixels[..sz]), Shuffled(sz, rand, t, sz)))
    ensures tbsPixels[sz..] == old(tbsPixels[sz..])
  {
    var permutation := ShufflePermutation(sz, rand, t);
    ghost var tagged := Retag(tbsPixels[..sz], permutation[..]);
    for i := 0 to sz
      invariant forall k :: 0 <= k < i ==> tbsPixels[k] == tagged[k]
      invariant forall k :: i <= k < tbsPixels.Length ==> tbsPixels[k] == old(tbsPixels[k])
      modifies tbsPixels
    {
      tbsPixels[i] := tbsPixels[i].(r := permutation[i]);
    }
    assert tbsPixels[..sz] == tagged;
    assert tbsPixels[sz..] == old(tbsPixels[sz..]);
    Qsort(tbsPixels, sz);
    status := 0;
  }

  /** The call qsort(tbsPixels, sz, sizeof(TBSPixel), CompareTBSPixels):
      sorts a[..n] in place and leaves the rest of the array alone. */
  method Qsort(a: array<TBSPixel>, n: nat)
    requires n <= a.Length
    modifies a
    ensures Sorted(a[..n])
    ensures multiset(a[..n]) == multiset(old(a[..n]))
    ensures a[n..] == old(a[n..])
  {
    for i := 0 to n
      invariant Sorted(a[..i])
      invariant multiset(a[..n]) == multiset(old(a[..n]))
      invariant a[n..] == old(a[n..])
    {
      Insert(a, i, n);
    }
  }

  /** Moves a[i] down into the sorted prefix a[..i]. */
  method Insert(a: array<TBSPixel>, i: nat, n: nat)
    requires i < n <= a.Length
    requires Sorted(a[..i])
    modifies a
    ensures Sorted(a[..i + 1])
    ensures multiset(a[..n]) == multiset(old(a[..n]))
    ensures a[n..] == old(a[n..])
  {
    var j := i;
    while j > 0 && CompareTBSPixels(a[j - 1], a[j]) > 0
      invariant 0 <= j <= i
      invariant forall p, q :: 0 <= p < q <= i && p != j && q != j ==> Le(a[p], a[q])
      invariant forall q :: j < q <= i ==> Le(a[j], a[q])
      invariant multiset(a[..n]) == multiset(old(a[..n]))
      invariant a[n..] == old(a[n..])
    {
      SwapAdjacent(a, j - 1, n);
      j := j - 1;
    }
    InsertedInPlace(a, i, j);
  }

  /** Once the moving element is no smaller than its left neighbour, the
      prefix a[..i + 1] is sorted. */
  lemma InsertedInPlace(a: array<TBSPixel>, i: nat, j: nat)
    requires j <= i < a.Length
    requires forall p, q :: 0 <= p < q <= i && p != j && q != j ==> Le(a[p], a[q])
    requires forall q :: j < q <= i ==> Le(a[j], a[q])
    requires j > 0 ==> Le(a[j - 1], a[j])
    ensures Sorted(a[..i + 1])
  {
    forall p | 0 <= p < j
      ensures Le(a[p], a[j])
    {
      assert Le(a[p], a[j - 1]);
    }
  }

  /** Exchanges a[i] and a[i + 1] inside the prefix a[..n]. */
  method SwapAdjacent(a: array<TBSPixel>, i: nat, n: nat)
    requires i + 1 < n <= a.Length
    modifies a
    ensures a[i] == old(a[i + 1]) && a[i + 1] == old(a[i])
    ensures forall k :: 0 <= k < n && k != i && k != i + 1 ==> a[k] == old(a[k])
    ensures multiset(a[..n]) == multiset(old(a[..n]))
    ensures a[n..] == old(a[n..])
  {
    a[i], a[i + 1] := a[i + 1], a[i];
    assert a[..n] == old(a[..n])[i := old(a[i + 1])][i + 1 := old(a[i])];
  }
}
