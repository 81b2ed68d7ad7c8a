/** synthesizeTexture and SynthesizeFromExemplar: while the canvas has
    frontier pixels, rank them, synthesize the best one and look again.
    The C code draws every random number from one rand() stream; here that
    stream is the function rand, and t is the number of values drawn so far. */
module Texture {
  import opened Wrappers
  import opened Images
  import opened SynthesisTypes
  import opened Shuffle
  import opened Ranking
  import opened Frontiers
  import opened Windows
  import opened Seeding
  import opened Matching

  /** How a run ends: with no frontier pixel left, or where the C code
      takes rand() % 0 because no exemplar position matches the target. */
  datatype Outcome = Completed | NoMatchCandidate

  /** The number of unset pixels of a canvas. */
  function Unset(s: seq<Pixel>): nat
  {
    if |s| == 0 then 0 else Unset(s[..|s| - 1]) + (if s[|s| - 1].a != SET then 1 else 0)
  }

  /** Setting one unset pixel, and nothing else, leaves one unset pixel fewer. */
  lemma {:induction false} UnsetShrinks(s: seq<Pixel>, u: seq<Pixel>, k: nat)
    requires |u| == |s| && k < |s| && s[k].a != SET && u[k].a == SET
    requires forall j :: 0 <= j < |s| && j != k ==> u[j] == s[j]
    ensures Unset(u) == Unset(s) - 1
  {
    var m := |s| - 1;
    if k == m {
      assert u[..m] == s[..m];
    } else {
      UnsetShrinks(s[..m], u[..m], k);
    }
  }

  /** The pixel synthesizeTexture synthesizes next: the head of the sorted
      frontier. It is an unset pixel of the canvas with a set neighbour. */
  function Target(s: seq<Pixel>, w: nat, h: nat): (p: PixelIndex)
    requires |s| == w * h && |Frontier(s, w, h)| > 0
    ensures p.x < w && p.y < h && OnFrontier(s, w, h, p.x, p.y)
    ensures s[Offset(p, w, h)].a != SET
  {
    FrontierCharacterized(s, w, h);
    var b := Best(Frontier(s, w, h));
    assert IsCandidate(s, w, h, b);
    b.idx
  }

  /** No frontier pixel comes before the target: none has more set
      neighbours, and among those with as many the target is first in
      row-major order. */
  lemma TargetIsBest(s: seq<Pixel>, w: nat, h: nat, x: nat, y: nat)
    requires |s| == w * h && |Frontier(s, w, h)| > 0 && OnFrontier(s, w, h, x, y)
    ensures var p := Target(s, w, h);
      || NeighborsAt(s, w, h, p.x, p.y) > NeighborsAt(s, w, h, x, y)
      || (NeighborsAt(s, w, h, p.x, p.y) == NeighborsAt(s, w, h, x, y)
          && (p.y < y || (p.y == y && p.x <= x)))
  {
    FrontierCharacterized(s, w, h);
    var F := Frontier(s, w, h);
    var b := Best(F);
    assert IsCandidate(s, w, h, b);
    assert Cand(s, w, h, x, y) in F;
    assert KeyLe(b, Cand(s, w, h, x, y));
  }

  /** One round of synthesizeTexture on canvas s with the random stream at
      t, when the frontier F is not empty: the target painted by
      synthesizePixel with the value drawn after the |F| tags of
      findTBSPixel and the 2|F| draws of SortTBSPixels, or None when there
      is no candidate to choose from. */
  function Step(s: seq<Pixel>, exW: nat, exH: nat, synW: nat, synH: nat, r: nat, weight: (int, int) -> real,
                rand: nat -> nat, t: nat): (u: Option<seq<Pixel>>)
    requires Layout(s, exW, exH, synW, synH) && |Frontier(s, synW, synH)| > 0
    ensures u.Some? ==> |u.value| == |s| && Unset(u.value) < Unset(s)
  {
    var target := Target(s, synW, synH);
    var draw := rand(t + 3 * |Frontier(s, synW, synH)|);
    PaintChangesOnlyTarget(s, exW, exH, synW, synH, r, weight, target, draw);
    var u := Paint(s, exW, exH, synW, synH, r, weight, target, draw);
    if u.Some? then UnsetShrinks(s, u.value, Offset(target, synW, synH)); u else u
  }

  /** A successful round sets the target, which was unset, and changes no
      other pixel. */
  lemma StepChanges(s: seq<Pixel>, exW: nat, exH: nat, synW: nat, synH: nat, r: nat, weight: (int, int) -> real,
                    rand: nat -> nat, t: nat, u: seq<Pixel>)
    requires Layout(s, exW, exH, synW, synH) && |Frontier(s, synW, synH)| > 0
    requires Step(s, exW, exH, synW, synH, r, weight, rand, t) == Some(u)
    ensures |u| == |s| && u[Offset(Target(s, synW, synH), synW, synH)].a == SET
    ensures forall k :: 0 <= k < |s| && k != Offset(Target(s, synW, synH), synW, synH) ==> u[k] == s[k]
  {
    var target := Target(s, synW, synH);
    var draw := rand(t + 3 * |Frontier(s, synW, synH)|);
    PaintChangesOnlyTarget(s, exW, exH, synW, synH, r, weight, target, draw);
  }

  /** A round on a frontier of n pixels paints the target with the value
      drawn after the 3n values of findTBSPixel and SortTBSPixels. */
  lemma StepPaints(s: seq<Pixel>, exW: nat, exH: nat, synW: nat, synH: nat, r: nat, weight: (int, int) -> real,
                   rand: nat -> nat, t: nat, n: nat)
    requires Layout(s, exW, exH, synW, synH) && |Frontier(s, synW, synH)| == n > 0
    ensures Step(s, exW, exH, synW, synH, r, weight, rand, t)
      == Paint(s, exW, exH, synW, synH, r, weight, Target(s, synW, synH), rand(t + 3 * n))
  {
  }

  /** The whole run of synthesizeTexture from canvas s with the random
      stream at t: its outcome and the canvas it leaves. */
  function Run(s: seq<Pixel>, exW: nat, exH: nat, synW: nat, synH: nat, r: nat, weight: (int, int) -> real,
               rand: nat -> nat, t: nat): (res: (Outcome, seq<Pixel>))
    requires Layout(s, exW, exH, synW, synH)
    ensures |res.1| == |s|
    decreases Unset(s), 1
  {
    if |Frontier(s, synW, synH)| == 0 then (Completed, s)
    else RunAfter(s, exW, exH, synW, synH, r, weight, rand, t)
  }

  /** The run from a canvas whose frontier F is not empty: one round, then
      the rest of the run with the random stream 3|F| + 1 values on. */
  function RunAfter(s: seq<Pixel>, exW: nat, exH: nat, synW: nat, synH: nat, r: nat, weight: (int, int) -> real,
                    rand: nat -> nat, t: nat): (res: (Outcome, seq<Pixel>))
    requires Layout(s, exW, exH, synW, synH) && |Frontier(s, synW, synH)| > 0
    ensures |res.1| == |s|
    decreases Unset(s), 0
  {
    match Step(s, exW, exH, synW, synH, r, weight, rand, t)
    case None => (NoMatchCandidate, s)
    case Some(u) => Run(u, exW, exH, synW, synH, r, weight, rand, t + 3 * |Frontier(s, synW, synH)| + 1)
  }

  /** A successful round hands the rest of the run to the next round, with
      the random stream 3|F| + 1 values on. */
  lemma RunUnfolds(s: seq<Pixel>, u: seq<Pixel>, exW: nat, exH: nat, synW: nat, synH: nat, r: nat,
                   weight: (int, int) -> real, rand: nat -> nat, t: nat, n: nat, next: nat)
    requires Layout(s, exW, exH, synW, synH) && |Frontier(s, synW, synH)| == n > 0
    requires Step(s, exW, exH, synW, synH, r, weight, rand, t) == Some(u) && next == t + 3 * n + 1
    ensures Layout(u, exW, exH, synW, synH)
    ensures Run(s, exW, exH, synW, synH, r, weight, rand, t) == Run(u, exW, exH, synW, synH, r, weight, rand, next)
  {
    RoundHandsOn(s, u, exW, exH, synW, synH, r, weight, rand, t, next, Run(u, exW, exH, synW, synH, r, weight, rand, next));
  }

  lemma RoundHandsOn(s: seq<Pixel>, u: seq<Pixel>, exW: nat, exH: nat, synW: nat, synH: nat, r: nat,
                     weight: (int, int) -> real, rand: nat -> nat, t: nat, next: nat, rest: (Outcome, seq<Pixel>))
    requires Layout(s, exW, exH, synW, synH) && |Frontier(s, synW, synH)| > 0
    requires Step(s, exW, exH, synW, synH, r, weight, rand, t) == Some(u) && next == t + 3 * |Frontier(s, synW, synH)| + 1
    requires Layout(u, exW, exH, synW, synH) && rest == Run(u, exW, exH, synW, synH, r, weight, rand, next)
    ensures Run(s, exW, exH, synW, synH, r, weight, rand, t) == rest
  {
    EntersRound(s, exW, exH, synW, synH, r, weight, rand, t);
  }

  lemma EntersRound(s: seq<Pixel>, exW: nat, exH: nat, synW: nat, synH: nat, r: nat,
                     weight: (int, int) -> real, rand: nat -> nat, t: nat)
    requires Layout(s, exW, exH, synW, synH) && |Frontier(s, synW, synH)| > 0
    ensures Run(s, exW, exH, synW, synH, r, weight, rand, t) == RunAfter(s, exW, exH, synW, synH, r, weight, rand, t)
  {
  }

  /** A round that finds no candidate ends the run, leaving the canvas as it was. */
  lemma RunNoCandidate(s: seq<Pixel>, exW: nat, exH: nat, synW: nat, synH: nat, r: nat,
                       weight: (int, int) -> real, rand: nat -> nat, t: nat)
    requires Layout(s, exW, exH, synW, synH) && |Frontier(s, synW, synH)| > 0
    requires Step(s, exW, exH, synW, synH, r, weight, rand, t) == None
    ensures Run(s, exW, exH, synW, synH, r, weight, rand, t) == (NoMatchCandidate, s)
  {
  }

  /** The body of synthesizeTexture's loop: sort the frontier array, whose
      first n entries are the frontier of the canvas tagged from t on, and
      synthesize its head. */
  method Round(synthesized: Image, tbsPixelArr: array<TBSPixel>, n: nat, exW: nat, exH: nat, synW: nat, synH: nat,
               r: nat, weight: (int, int) -> real, rand: nat -> nat, t: nat) returns (ok: bool)
    requires synthesized.Valid() && synthesized.width == synW && synthesized.height == synH
    requires Layout(synthesized.pixels[..], exW, exH, synW, synH)
    requires 0 < n <= tbsPixelArr.Length
    requires tbsPixelArr[..n] == WithTags(Frontier(synthesized.pixels[..], synW, synH), rand, t)
    modifies tbsPixelArr, synthesized.pixels
    ensures |Frontier(old(synthesized.pixels[..]), synW, synH)| == n
    ensures ok == Step(old(synthesized.pixels[..]), exW, exH, synW, synH, r, weight, rand, t).Some?
    ensures ok ==> synthesized.pixels[..] == Step(old(synthesized.pixels[..]), exW, exH, synW, synH, r, weight, rand, t).value
    ensures !ok ==> synthesized.pixels[..] == old(synthesized.pixels[..])
  {
    ghost var s := synthesized.pixels[..];
    ghost var target := Target(s, synW, synH);
    StepPaints(s, exW, exH, synW, synH, r, weight, rand, t, n);
    SortFrontier(tbsPixelArr, n, s, synW, synH, rand, t);
    assert tbsPixelArr[0].idx == target;
    ok := SynthesizePixel(tbsPixelArr, synthesized, exW, exH, synW, synH, r, weight, rand(t + 3 * n));
  }

  /** The SortTBSPixels call of synthesizeTexture on the frontier array of
      canvas s: its head is then the target. */
  method SortFrontier(tbsPixelArr: array<TBSPixel>, n: nat, ghost s: seq<Pixel>, w: nat, h: nat, rand: nat -> nat, t: nat)
    requires |s| == w * h && 0 < n <= tbsPixelArr.Length
    requires tbsPixelArr[..n] == WithTags(Frontier(s, w, h), rand, t)
    modifies tbsPixelArr
    ensures tbsPixelArr[0].idx == Target(s, w, h)
  {
    ghost var tagged := tbsPixelArr[..n];
    var status := SortTBSPixels(tbsPixelArr, n, rand, t + n);
    HeadIsTarget(tbsPixelArr[..n], tagged, s, w, h, rand, t, n);
  }

  /** synthesizeTexture: while findTBSPixel finds frontier pixels, sort
      them, synthesize the first one and search again. It returns at the
      first round without a match candidate, where the C code divides by
      zero. */
  method SynthesizeTexture(synthesized: Image, exW: nat, exH: nat, synW: nat, synH: nat, r: nat,
                           weight: (int, int) -> real, rand: nat -> nat, t: nat) returns (outcome: Outcome)
    requires synthesized.Valid() && synthesized.width == synW && synthesized.height == synH
    requires Layout(synthesized.pixels[..], exW, exH, synW, synH)
    modifies synthesized.pixels
    ensures (outcome, synthesized.pixels[..]) == Run(old(synthesized.pixels[..]), exW, exH, synW, synH, r, weight, rand, t)
  {
    ghost var result := Run(synthesized.pixels[..], exW, exH, synW, synH, r, weight, rand, t);
    var cursor: nat := t;
    var tbsPixelArr: array<TBSPixel>, numTbsPixels: nat := FindTBSPixel(synthesized, synW, synH, rand, cursor);
    while numTbsPixels > 0
      invariant Layout(synthesized.pixels[..], exW, exH, synW, synH)
      invariant fresh(tbsPixelArr) && numTbsPixels <= tbsPixelArr.Length
      invariant tbsPixelArr[..numTbsPixels] == WithTags(Frontier(synthesized.pixels[..], synW, synH), rand, cursor)
      invariant Run(synthesized.pixels[..], exW, exH, synW, synH, r, weight, rand, cursor) == result
      decreases Unset(synthesized.pixels[..])
    {
      ghost var before := synthesized.pixels[..];
      var ok := Round(synthesized, tbsPixelArr, numTbsPixels, exW, exH, synW, synH, r, weight, rand, cursor);
      if !ok {
        return NoMatchCandidate;
      }
      var next := cursor + 3 * numTbsPixels + 1;
      ghost var after := synthesized.pixels[..];
      RunUnfolds(before, after, exW, exH, synW, synH, r, weight, rand, cursor, numTbsPixels, next);
      cursor := next;
      tbsPixelArr, numTbsPixels := FindTBSPixel(synthesized, synW, synH, rand, cursor);
      assert synthesized.pixels[..] == after;
    }
    outcome := Completed;
  }
  /** After SortTBSPixels, the head of the frontier array is the target. */
  lemma HeadIsTarget(a: seq<TBSPixel>, tagged: seq<TBSPixel>, s: seq<Pixel>, w: nat, h: nat, rand: nat -> nat, t: nat, n: nat)
    requires |s| == w * h
    requires tagged == WithTags(Frontier(s, w, h), rand, t)
    requires |tagged| == n > 0
    requires Sorted(a)
    requires multiset(a) == multiset(Retag(tagged, Shuffled(n, rand, t + n, n)))
    ensures |a| > 0 && a[0].idx == Target(s, w, h)
  {
    var F := Frontier(s, w, h);
    SortedHeadIsBest(a, tagged, Shuffled(n, rand, t + n, n));
    BestSameKeys(tagged, F);
  }

  /** Every pixel of the canvas is set. */
  predicate AllSet(s: seq<Pixel>)
  {
    forall k :: 0 <= k < |s| ==> s[k].a == SET
  }

  /** No pixel of the canvas is set. */
  predicate NoneSet(s: seq<Pixel>)
  {
    forall k :: 0 <= k < |s| ==> s[k].a != SET
  }

  /** Between a set and an unset offset there are two consecutive offsets,
      the first in the state of lo and the second not. */
  lemma {:induction false} Crossing(s: seq<Pixel>, lo: nat, hi: nat) returns (k: nat)
    requires lo < hi < |s| && (s[lo].a == SET) != (s[hi].a == SET)
    ensures lo <= k < hi && (s[k].a == SET) == (s[lo].a == SET) && (s[k + 1].a == SET) != (s[lo].a == SET)
    decreases hi - lo
  {
    if (s[lo + 1].a == SET) != (s[lo].a == SET) {
      k := lo;
    } else {
      k := Crossing(s, lo + 1, hi);
    }
  }

  /** An unset pixel with a set pixel among its eight true neighbours is on the frontier. */
  lemma FromNeighbour(s: seq<Pixel>, w: nat, h: nat, x: nat, y: nat, nx: int, ny: int)
    requires |s| == w * h && x < w && y < h && SetAt(s, w, h, x, y) == 0
    requires x - 1 <= nx <= x + 1 && y - 1 <= ny <= y + 1 && (nx != x || ny != y)
    requires SetAt(s, w, h, nx, ny) == 1
    ensures |Frontier(s, w, h)| > 0
  {
    assert TrueNeighborCount(s, w, h, x, y) >= 1;
    NeighborCountAtLeastTrue(s, w, h, x, y);
    FlatIndexBounds(x, y, w, h);
    assert OnFrontier(s, w, h, x, y);
    FrontierCharacterized(s, w, h);
    assert Cand(s, w, h, x, y) in Frontier(s, w, h);
  }

  /** Two pixels side by side in a row, one set and the other not: the
      frontier is not empty. */
  lemma AdjacentInRow(s: seq<Pixel>, w: nat, h: nat, k: nat)
    requires |s| == w * h && k + 1 < |s| && (k + 1) % w != 0 && (s[k].a == SET) != (s[k + 1].a == SET)
    ensures |Frontier(s, w, h)| > 0
  {
    var x, y := k % w, k / w;
    assert k == y * w + x;
    FlatIndexBounds(x, y, w, h);
    RightGuard(w, x, y);
    assert SetAt(s, w, h, x, y) == (if s[k].a == SET then 1 else 0);
    assert SetAt(s, w, h, x + 1, y) == (if s[k + 1].a == SET then 1 else 0);
    Neighbours(s, w, h, x, y, x + 1, y);
  }

  /** Two pixels one above the other, one set and the other not: the
      frontier is not empty. */
  lemma AdjacentInColumn(s: seq<Pixel>, w: nat, h: nat, k: nat)
    requires |s| == w * h && k + w < |s| && (s[k].a == SET) != (s[k + w].a == SET)
    ensures |Frontier(s, w, h)| > 0
  {
    var x, y := k % w, k / w;
    assert k == y * w + x;
    RowOffsets(w, y);
    assert k + w == (y + 1) * w + x;
    FlatIndexBounds(x, y + 1, w, h);
    assert SetAt(s, w, h, x, y) == (if s[k].a == SET then 1 else 0);
    assert SetAt(s, w, h, x, y + 1) == (if s[k + w].a == SET then 1 else 0);
    Neighbours(s, w, h, x, y, x, y + 1);
  }

  /** Two neighbouring positions, one set and the other not: the frontier
      is not empty. */
  lemma Neighbours(s: seq<Pixel>, w: nat, h: nat, x: nat, y: nat, nx: nat, ny: nat)
    requires |s| == w * h && x < w && y < h && nx < w && ny < h
    requires x - 1 <= nx <= x + 1 && y - 1 <= ny <= y + 1 && (nx != x || ny != y)
    requires SetAt(s, w, h, x, y) != SetAt(s, w, h, nx, ny)
    ensures |Frontier(s, w, h)| > 0
  {
    if SetAt(s, w, h, x, y) == 0 {
      FromNeighbour(s, w, h, x, y, nx, ny);
    } else {
      FromNeighbour(s, w, h, nx, ny, x, y);
    }
  }

  /** A canvas with a set and an unset pixel has a frontier pixel: an unset
      pixel with a set neighbour. */
  lemma FrontierNonEmpty(s: seq<Pixel>, w: nat, h: nat, p: nat, q: nat)
    requires |s| == w * h && p < |s| && q < |s| && s[p].a == SET && s[q].a != SET
    ensures |Frontier(s, w, h)| > 0
  {
    var lo, hi := if p < q then p else q, if p < q then q else p;
    var k := Crossing(s, lo, hi);
    if (k + 1) % w != 0 {
      AdjacentInRow(s, w, h, k);
    } else {
      // k ends a row and k + 1 starts row y; k + w ends row y.
      var y := (k + 1) / w;
      assert k + 1 == y * w;
      FlatIndexBounds(0, y, w, h);
      FlatIndexBounds(w - 1, y, w, h);
      if (s[k + w].a == SET) != (s[k].a == SET) {
        AdjacentInColumn(s, w, h, k);
      } else {
        var j := Crossing(s, k + 1, k + w);
        FlatIndexDivMod(j + 1 - y * w, y, w);
        AdjacentInRow(s, w, h, j);
      }
    }
  }

  /** How a run goes on from canvas s: it stops there, Completed when the
      frontier is empty and NoMatchCandidate otherwise, or one round paints
      an unset pixel, keeps every set one, and the run continues from the
      new canvas u with the random stream at next. */
  lemma Advance(s: seq<Pixel>, exW: nat, exH: nat, synW: nat, synH: nat, r: nat,
                weight: (int, int) -> real, rand: nat -> nat, t: nat) returns (more: bool, u: seq<Pixel>, next: nat)
    requires Layout(s, exW, exH, synW, synH)
    ensures !more ==>
      Run(s, exW, exH, synW, synH, r, weight, rand, t)
      == (if |Frontier(s, synW, synH)| == 0 then Completed else NoMatchCandidate, s)
    ensures more ==> Layout(u, exW, exH, synW, synH) && Unset(u) < Unset(s)
    ensures more ==> forall k :: 0 <= k < |s| && s[k].a == SET ==> u[k] == s[k]
    ensures more ==> Run(s, exW, exH, synW, synH, r, weight, rand, t) == Run(u, exW, exH, synW, synH, r, weight, rand, next)
  {
    var n := |Frontier(s, synW, synH)|;
    more, u, next := false, s, t;
    if n > 0 {
      var o := Step(s, exW, exH, synW, synH, r, weight, rand, t);
      if o.Some? {
        more, u, next := true, o.value, t + 3 * n + 1;
        RunUnfolds(s, u, exW, exH, synW, synH, r, weight, rand, t, n, next);
      } else {
        RunNoCandidate(s, exW, exH, synW, synH, r, weight, rand, t);
      }
    }
  }

  /** A run ends Completed exactly when the canvas it leaves has no
      frontier pixel; it ends NoMatchCandidate on a canvas that still has one. */
  lemma {:induction false} RunStopsAtFrontier(s: seq<Pixel>, exW: nat, exH: nat, synW: nat, synH: nat, r: nat,
                                              weight: (int, int) -> real, rand: nat -> nat, t: nat)
    requires Layout(s, exW, exH, synW, synH)
    ensures Run(s, exW, exH, synW, synH, r, weight, rand, t).0 == Completed
        <==> |Frontier(Run(s, exW, exH, synW, synH, r, weight, rand, t).1, synW, synH)| == 0
    decreases Unset(s)
  {
    var more, u, next := Advance(s, exW, exH, synW, synH, r, weight, rand, t);
    if more {
      RunStopsAtFrontier(u, exW, exH, synW, synH, r, weight, rand, next);
    }
  }

  /** A run never changes a pixel that is already set: the seeded exemplar
      and every pixel synthesized earlier keep their colour. */
  lemma {:induction false} RunKeepsSet(s: seq<Pixel>, exW: nat, exH: nat, synW: nat, synH: nat, r: nat,
                                       weight: (int, int) -> real, rand: nat -> nat, t: nat, k: nat)
    requires Layout(s, exW, exH, synW, synH) && k < |s| && s[k].a == SET
    ensures Run(s, exW, exH, synW, synH, r, weight, rand, t).1[k] == s[k]
    decreases Unset(s)
  {
    var more, u, next := Advance(s, exW, exH, synW, synH, r, weight, rand, t);
    if more {
      RunKeepsSet(u, exW, exH, synW, synH, r, weight, rand, next, k);
    }
  }

  /** A run that starts with at least one set pixel and ends Completed
      leaves every pixel of the canvas set. */
  lemma {:induction false} RunFillsCanvas(s: seq<Pixel>, exW: nat, exH: nat, synW: nat, synH: nat, r: nat,
                                          weight: (int, int) -> real, rand: nat -> nat, t: nat, p: nat)
    requires Layout(s, exW, exH, synW, synH) && p < |s| && s[p].a == SET
    requires Run(s, exW, exH, synW, synH, r, weight, rand, t).0 == Completed
    ensures AllSet(Run(s, exW, exH, synW, synH, r, weight, rand, t).1)
    decreases Unset(s)
  {
    var more, u, next := Advance(s, exW, exH, synW, synH, r, weight, rand, t);
    if more {
      RunFillsCanvas(u, exW, exH, synW, synH, r, weight, rand, next, p);
    } else {
      forall q | 0 <= q < |s|
        ensures s[q].a == SET
      {
        if s[q].a != SET {
          FrontierNonEmpty(s, synW, synH, p, q);
        }
      }
    }
  }

  /** The seeded canvas fits the engine's layout: outW x outH pixels with
      the exemplar's rows inside it. */
  lemma SeededLayout(ex: seq<Pixel>, exW: nat, exH: nat, outW: nat, outH: nat, verbose: bool)
    requires |ex| == exW * exH && exW <= outW && exH <= outH
    ensures Layout(Seeded(ex, exW, exH, outW, outH, verbose), exW, exH, outW, outH)
  {
    MulMonotone(exH, outH, outW);
  }

  /** The synthesized texture keeps the exemplar in its top-left corner,
      whatever happens in the run. */
  lemma ExemplarKept(ex: seq<Pixel>, exW: nat, exH: nat, outW: nat, outH: nat, verbose: bool, r: nat,
                     weight: (int, int) -> real, rand: nat -> nat, t: nat, x: nat, y: nat)
    requires |ex| == exW * exH && exW <= outW && exH <= outH && x < exW && y < exH
    ensures (SeededLayout(ex, exW, exH, outW, outH, verbose);
      y * exW + x < |ex| && y * outW + x < outW * outH
      && Run(Seeded(ex, exW, exH, outW, outH, verbose), exW, exH, outW, outH, r, weight, rand, t).1[y * outW + x]
         == Painted(ex[y * exW + x]))
  {
    SeededLayout(ex, exW, exH, outW, outH, verbose);
    SeededAt(ex, exW, exH, outW, outH, verbose, x, y);
    RunKeepsSet(Seeded(ex, exW, exH, outW, outH, verbose), exW, exH, outW, outH, r, weight, rand, t, y * outW + x);
  }

  /** With a non-empty exemplar, a run from the seeded canvas that ends
      Completed leaves no pixel of the output unset. */
  lemma SynthesisFillsOutput(ex: seq<Pixel>, exW: nat, exH: nat, outW: nat, outH: nat, verbose: bool, r: nat,
                             weight: (int, int) -> real, rand: nat -> nat, t: nat)
    requires |ex| == exW * exH && 0 < exW <= outW && 0 < exH <= outH
    requires (SeededLayout(ex, exW, exH, outW, outH, verbose);
      Run(Seeded(ex, exW, exH, outW, outH, verbose), exW, exH, outW, outH, r, weight, rand, t).0 == Completed)
    ensures (SeededLayout(ex, exW, exH, outW, outH, verbose);
      AllSet(Run(Seeded(ex, exW, exH, outW, outH, verbose), exW, exH, outW, outH, r, weight, rand, t).1))
  {
    var s := Seeded(ex, exW, exH, outW, outH, verbose);
    SeededLayout(ex, exW, exH, outW, outH, verbose);
    SeededAt(ex, exW, exH, outW, outH, verbose, 0, 0);
    RunFillsCanvas(s, exW, exH, outW, outH, r, weight, rand, t, 0);
  }

  /** SynthesizeFromExemplar: allocate the outW x outH canvas, seed it with
      the exemplar and run synthesizeTexture on it. The outcome reports a
      run that stopped where the C code would divide by zero. */
  method SynthesizeFromExemplar(exemplar: Image, outW: nat, outH: nat, r: nat, verbose: bool,
                                weight: (int, int) -> real, rand: nat -> nat, t: nat)
    returns (synthesized: Image, outcome: Outcome)
    requires exemplar.Valid() && exemplar.width <= outW && exemplar.height <= outH
    ensures fresh(synthesized) && synthesized.Valid() && synthesized.width == outW && synthesized.height == outH
    ensures (SeededLayout(exemplar.pixels[..], exemplar.width, exemplar.height, outW, outH, verbose);
      (outcome, synthesized.pixels[..])
      == Run(Seeded(exemplar.pixels[..], exemplar.width, exemplar.height, outW, outH, verbose),
             exemplar.width, exemplar.height, outW, outH, r, weight, rand, t))
  {
    synthesized := Seed(exemplar, outW, outH, verbose);
    SeededLayout(exemplar.pixels[..], exemplar.width, exemplar.height, outW, outH, verbose);
    outcome := SynthesizeTexture(synthesized, exemplar.width, exemplar.height, outW, outH, r, weight, rand, t);
  }
}
