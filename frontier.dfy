/** The frontier scan of texture_synthesis.c: checkIndexInBound,
    findNumNeigbhors and findTBSPixel over a canvas of width w and height h
    whose pixels are given row by row. */
module Frontiers {
  import opened Images
  import opened SynthesisTypes

  /** checkIndexInBound: 1 when the flat index addresses a pixel of a w x h canvas. */
  function CheckIndexInBound(index: int, w: nat, h: nat): (r: int)
    ensures r == 0 || r == 1
    ensures r == 1 <==> 0 <= index < w * h
  {
    if index >= 0 && index <= w * h - 1 then 1 else 0
  }

  /** One probe of findNumNeigbhors: 1 when flat index k is in bounds and set. */
  function Probe(s: seq<Pixel>, w: nat, h: nat, k: int): (c: nat)
    requires |s| == w * h
    ensures c <= 1
    ensures c == 1 <==> 0 <= k < |s| && s[k].a == SET
  {
    if CheckIndexInBound(k, w, h) == 1 && s[k].a == SET then 1 else 0
  }

  /** findNumNeigbhors: the eight probes around flat index `index`, the
      right-hand ones (Right, NE, SE) guarded against the end of the row,
      the left-hand ones (Left, NW, SW) not. */
  function FindNumNeighbors(s: seq<Pixel>, index: int, w: nat, h: nat): (count: nat)
    requires w > 0 && |s| == w * h && 0 <= index < |s|
    ensures count <= 8
  {
    var notLastColumn := (index + 1) % w != 0;
    var up := Probe(s, w, h, index - w);
    var down := Probe(s, w, h, index + w);
    var left := Probe(s, w, h, index - 1);
    var right := if notLastColumn then Probe(s, w, h, index + 1) else 0;
    var ne := if notLastColumn then Probe(s, w, h, index - w + 1) else 0;
    var nw := Probe(s, w, h, index - w - 1);
    var se := if notLastColumn then Probe(s, w, h, index + w + 1) else 0;
    var sw := Probe(s, w, h, index + w - 1);
    up + down + left + right + ne + nw + se + sw
  }

  /** findNumNeigbhors called, as findTBSPixel does, at the offset of (x, y). */
  function NeighborsAt(s: seq<Pixel>, w: nat, h: nat, x: nat, y: nat): (count: nat)
    requires |s| == w * h && x < w && y < h
  {
    FlatIndexBounds(x, y, w, h);
    FindNumNeighbors(s, y * w + x, w, h)
  }

  /** 1 when (x, y) is a position of the canvas whose pixel is set. */
  function SetAt(s: seq<Pixel>, w: nat, h: nat, x: int, y: int): (c: nat)
    requires |s| == w * h
    ensures c <= 1
  {
    if 0 <= x < w && 0 <= y < h then
      FlatIndexBounds(x, y, w, h);
      if s[y * w + x].a == SET then 1 else 0
    else 0
  }

  /** The number of set pixels among the (up to eight) true neighbours of (x, y). */
  function TrueNeighborCount(s: seq<Pixel>, w: nat, h: nat, x: int, y: int): (c: nat)
    requires |s| == w * h
    ensures c <= 8
  {
    SetAt(s, w, h, x - 1, y - 1) + SetAt(s, w, h, x, y - 1) + SetAt(s, w, h, x + 1, y - 1)
    + SetAt(s, w, h, x - 1, y) + SetAt(s, w, h, x + 1, y)
    + SetAt(s, w, h, x - 1, y + 1) + SetAt(s, w, h, x, y + 1) + SetAt(s, w, h, x + 1, y + 1)
  }

  /** What the unguarded Left, NW and SW probes see from column 0: the last
      column of the previous row, of the row before that, and of the same row. */
  function WrapCount(s: seq<Pixel>, w: nat, h: nat, y: int): (c: nat)
    requires |s| == w * h
    ensures c <= 3
  {
    SetAt(s, w, h, w - 1, y - 1) + SetAt(s, w, h, w - 1, y - 2) + SetAt(s, w, h, w - 1, y)
  }

  /** A probe at a flat index that is the row-major offset of (x, y), with x
      a valid column, looks at exactly the pixel (x, y). */
  lemma ProbeIsSetAt(s: seq<Pixel>, w: nat, h: nat, x: int, y: int, k: int)
    requires |s| == w * h && 0 <= x < w && k == y * w + x
    ensures Probe(s, w, h, k) == SetAt(s, w, h, x, y)
  {
    FlatIndexBounds(x, y, w, h);
  }

  /** The row-end guard of the Right, NE and SE probes holds exactly when
      the pixel is not in the last column. */
  lemma RightGuard(w: nat, x: nat, y: nat)
    requires x < w
    ensures ((y * w + x + 1) % w != 0) <==> x + 1 < w
  {
    if x + 1 < w {
      FlatIndexDivMod(x + 1, y, w);
    } else {
      assert y * w + x + 1 == (y + 1) * w + 0;
      FlatIndexDivMod(0, y + 1, w);
    }
  }

  /** The row offsets of the rows above and below. */
  lemma RowOffsets(w: nat, y: int)
    ensures (y - 1) * w == y * w - w && (y + 1) * w == y * w + w
    ensures (y - 2) * w == y * w - w - w
  {
  }

  /** The Up and Down probes see the pixels straight above and below. */
  lemma MiddleProbes(s: seq<Pixel>, w: nat, h: nat, x: nat, y: nat, index: int)
    requires |s| == w * h && x < w && y < h && index == y * w + x
    ensures Probe(s, w, h, index - w) + Probe(s, w, h, index + w)
      == SetAt(s, w, h, x, y - 1) + SetAt(s, w, h, x, y + 1)
  {
    RowOffsets(w, y);
    ProbeIsSetAt(s, w, h, x, y - 1, index - w);
    ProbeIsSetAt(s, w, h, x, y + 1, index + w);
  }

  /** The guarded Right, NE and SE probes see the true right-hand neighbours. */
  lemma RightProbes(s: seq<Pixel>, w: nat, h: nat, x: nat, y: nat, index: int)
    requires |s| == w * h && x < w && y < h && index == y * w + x
    ensures (if (index + 1) % w != 0
             then Probe(s, w, h, index + 1) + Probe(s, w, h, index - w + 1) + Probe(s, w, h, index + w + 1)
             else 0)
      == SetAt(s, w, h, x + 1, y) + SetAt(s, w, h, x + 1, y - 1) + SetAt(s, w, h, x + 1, y + 1)
  {
    RightGuard(w, x, y);
    if x + 1 < w {
      RowOffsets(w, y);
      ProbeIsSetAt(s, w, h, x + 1, y, index + 1);
      ProbeIsSetAt(s, w, h, x + 1, y - 1, index - w + 1);
      ProbeIsSetAt(s, w, h, x + 1, y + 1, index + w + 1);
    }
  }

  /** The unguarded Left, NW and SW probes see the true left-hand
      neighbours, except in column 0, where they see the wrapped pixels. */
  lemma LeftProbes(s: seq<Pixel>, w: nat, h: nat, x: nat, y: nat, index: int)
    requires |s| == w * h && x < w && y < h && index == y * w + x
    ensures Probe(s, w, h, index - 1) + Probe(s, w, h, index - w - 1) + Probe(s, w, h, index + w - 1)
      == SetAt(s, w, h, x - 1, y) + SetAt(s, w, h, x - 1, y - 1) + SetAt(s, w, h, x - 1, y + 1)
         + (if x == 0 then WrapCount(s, w, h, y) else 0)
  {
    RowOffsets(w, y);
    if x > 0 {
      ProbeIsSetAt(s, w, h, x - 1, y, index - 1);
      ProbeIsSetAt(s, w, h, x - 1, y - 1, index - w - 1);
      ProbeIsSetAt(s, w, h, x - 1, y + 1, index + w - 1);
    } else {
      ProbeIsSetAt(s, w, h, w - 1, y - 1, index - 1);
      ProbeIsSetAt(s, w, h, w - 1, y - 2, index - w - 1);
      ProbeIsSetAt(s, w, h, w - 1, y, index + w - 1);
    }
  }

  /** The count of findNumNeigbhors at (x, y): the true number of set
      neighbours, plus, in column 0 only, the three wrapped probes. */
  lemma NeighborCountExact(s: seq<Pixel>, w: nat, h: nat, x: nat, y: nat)
    requires |s| == w * h && x < w && y < h
    ensures NeighborsAt(s, w, h, x, y)
      == TrueNeighborCount(s, w, h, x, y) + (if x == 0 then WrapCount(s, w, h, y) else 0)
  {
    FlatIndexBounds(x, y, w, h);
    var index := y * w + x;
    MiddleProbes(s, w, h, x, y, index);
    RightProbes(s, w, h, x, y, index);
    LeftProbes(s, w, h, x, y, index);
  }

  /** The count is never below the true number of set neighbours. */
  lemma NeighborCountAtLeastTrue(s: seq<Pixel>, w: nat, h: nat, x: nat, y: nat)
    requires |s| == w * h && x < w && y < h
    ensures NeighborsAt(s, w, h, x, y) >= TrueNeighborCount(s, w, h, x, y)
  {
    NeighborCountExact(s, w, h, x, y);
  }

  /** (x, y) belongs to the frontier: it is unset and findNumNeigbhors finds
      at least one set pixel around it. */
  predicate OnFrontier(s: seq<Pixel>, w: nat, h: nat, x: nat, y: nat)
    requires |s| == w * h
  {
    x < w && y < h &&
    (FlatIndexBounds(x, y, w, h);
     s[y * w + x].a != SET && NeighborsAt(s, w, h, x, y) != 0)
  }

  /** The candidate findTBSPixel records for a frontier position, before its tag is drawn. */
  function Cand(s: seq<Pixel>, w: nat, h: nat, x: nat, y: nat): TBSPixel
    requires |s| == w * h && x < w && y < h
  {
    TBSPixel(PixelIndex(x, y), NeighborsAt(s, w, h, x, y), 0)
  }

  /** A candidate that describes a frontier position with its count. */
  predicate IsCandidate(s: seq<Pixel>, w: nat, h: nat, c: TBSPixel)
    requires |s| == w * h
  {
    OnFrontier(s, w, h, c.idx.x, c.idx.y) && c == Cand(s, w, h, c.idx.x, c.idx.y)
  }

  /** What findTBSPixel acts on at (x, y): the neighbour count of an unset
      pixel, and 0 for a set one (whose neighbours it never counts). */
  function FrontierCount(s: seq<Pixel>, w: nat, h: nat, x: nat, y: nat): nat
    requires |s| == w * h && x < w && y < h
  {
    FlatIndexBounds(x, y, w, h);
    if s[y * w + x].a != SET then NeighborsAt(s, w, h, x, y) else 0
  }

  /** A grid of h rows of w entries each. */
  predicate IsGrid(c: seq<seq<nat>>, w: nat, h: nat)
  {
    |c| == h && forall y :: 0 <= y < h ==> |c[y]| == w
  }

  /** FrontierCount at every position of the canvas, row by row. */
  function Counts(s: seq<Pixel>, w: nat, h: nat): (c: seq<seq<nat>>)
    requires |s| == w * h
    ensures IsGrid(c, w, h)
  {
    seq(h, y requires 0 <= y < h => seq(w, x requires 0 <= x < w => FrontierCount(s, w, h, x, y)))
  }

  /** The entry of the counts at (x, y) is FrontierCount there. */
  lemma CountsAt(s: seq<Pixel>, w: nat, h: nat, x: nat, y: nat)
    requires |s| == w * h && x < w && y < h
    ensures Counts(s, w, h)[y][x] == FrontierCount(s, w, h, x, y)
  {
  }

  /** The counts of a canvas are non-zero exactly on the frontier, where
      they are the neighbour counts. */
  lemma CountsOnFrontier(s: seq<Pixel>, w: nat, h: nat, x: nat, y: nat)
    requires |s| == w * h && x < w && y < h
    ensures Counts(s, w, h)[y][x] != 0 <==> OnFrontier(s, w, h, x, y)
    ensures OnFrontier(s, w, h, x, y) ==> Counts(s, w, h)[y][x] == NeighborsAt(s, w, h, x, y)
  {
    CountsAt(s, w, h, x, y);
  }

  /** What findTBSPixel records for (x, y), given the counts: a candidate
      with tag 0 when the count is non-zero, nothing otherwise. */
  function Emit(c: seq<seq<nat>>, w: nat, h: nat, x: nat, y: nat): (e: seq<TBSPixel>)
    requires IsGrid(c, w, h) && x < w && y < h
    ensures |e| <= 1
  {
    if c[y][x] != 0 then [TBSPixel(PixelIndex(x, y), c[y][x], 0)] else []
  }

  /** The records of the first n columns of row y, left to right. */
  function ScanRow(c: seq<seq<nat>>, w: nat, h: nat, y: nat, n: nat): (R: seq<TBSPixel>)
    requires IsGrid(c, w, h) && y < h && n <= w
    ensures |R| <= n
  {
    if n == 0 then [] else ScanRow(c, w, h, y, n - 1) + Emit(c, w, h, n - 1, y)
  }

  /** The records of the first m rows, row by row. */
  function ScanRows(c: seq<seq<nat>>, w: nat, h: nat, m: nat): seq<TBSPixel>
    requires IsGrid(c, w, h) && m <= h
  {
    if m == 0 then [] else ScanRows(c, w, h, m - 1) + ScanRow(c, w, h, m - 1, w)
  }

  /** The frontier of the canvas, in row-major order, with tags 0. */
  function Frontier(s: seq<Pixel>, w: nat, h: nat): seq<TBSPixel>
    requires |s| == w * h
  {
    ScanRows(Counts(s, w, h), w, h, h)
  }

  /** p comes strictly before q in row-major order. */
  predicate RowMajorBefore(p: PixelIndex, q: PixelIndex)
  {
    p.y < q.y || (p.y == q.y && p.x < q.x)
  }

  /** The records' positions strictly increase in row-major order. */
  predicate RowMajorSorted(F: seq<TBSPixel>)
  {
    forall i, j :: 0 <= i < j < |F| ==> RowMajorBefore(F[i].idx, F[j].idx)
  }

  /** e is the record of an in-bounds position with a non-zero count. */
  predicate Recorded(c: seq<seq<nat>>, w: nat, h: nat, e: TBSPixel)
    requires IsGrid(c, w, h)
  {
    e.idx.x < w && e.idx.y < h && c[e.idx.y][e.idx.x] != 0
    && e == TBSPixel(e.idx, c[e.idx.y][e.idx.x], 0)
  }

  /** A scanned row holds records of row y left of column n, left to right. */
  lemma {:induction false} ScanRowSound(c: seq<seq<nat>>, w: nat, h: nat, y: nat, n: nat)
    requires IsGrid(c, w, h) && y < h && n <= w
    ensures forall k :: 0 <= k < |ScanRow(c, w, h, y, n)| ==>
      ScanRow(c, w, h, y, n)[k].idx.y == y && ScanRow(c, w, h, y, n)[k].idx.x < n
      && Recorded(c, w, h, ScanRow(c, w, h, y, n)[k])
    ensures RowMajorSorted(ScanRow(c, w, h, y, n))
  {
    if n > 0 {
      ScanRowSound(c, w, h, y, n - 1);
      var P := ScanRow(c, w, h, y, n - 1);
      var E := Emit(c, w, h, n - 1, y);
      var R := P + E;
      assert R == ScanRow(c, w, h, y, n);
      forall i, j | 0 <= i < j < |R|
        ensures RowMajorBefore(R[i].idx, R[j].idx)
      {
        assert R[i] == P[i];
        if j < |P| {
          assert R[j] == P[j];
        } else {
          assert R[j] == E[0];
        }
      }
    }
  }

  /** The first m scanned rows hold records above row m, in row-major order. */
  lemma {:induction false} ScanRowsSound(c: seq<seq<nat>>, w: nat, h: nat, m: nat)
    requires IsGrid(c, w, h) && m <= h
    ensures forall k :: 0 <= k < |ScanRows(c, w, h, m)| ==>
      ScanRows(c, w, h, m)[k].idx.y < m && Recorded(c, w, h, ScanRows(c, w, h, m)[k])
    ensures RowMajorSorted(ScanRows(c, w, h, m))
  {
    if m > 0 {
      ScanRowsSound(c, w, h, m - 1);
      ScanRowSound(c, w, h, m - 1, w);
      var P := ScanRows(c, w, h, m - 1);
      var R := ScanRow(c, w, h, m - 1, w);
      var F := P + R;
      assert F == ScanRows(c, w, h, m);
      forall i, j | 0 <= i < j < |F|
        ensures RowMajorBefore(F[i].idx, F[j].idx)
      {
        if j < |P| {
          assert F[i] == P[i] && F[j] == P[j];
        } else if i >= |P| {
          assert F[i] == R[i - |P|] && F[j] == R[j - |P|];
        } else {
          assert F[i] == P[i] && F[j] == R[j - |P|];
        }
      }
    }
  }

  /** A position of row y left of column n with a non-zero count is recorded. */
  lemma {:induction false} ScanRowComplete(c: seq<seq<nat>>, w: nat, h: nat, y: nat, n: nat, x: nat)
    requires IsGrid(c, w, h) && y < h && x < n <= w && c[y][x] != 0
    ensures TBSPixel(PixelIndex(x, y), c[y][x], 0) in ScanRow(c, w, h, y, n)
  {
    var P := ScanRow(c, w, h, y, n - 1);
    var E := Emit(c, w, h, n - 1, y);
    assert ScanRow(c, w, h, y, n) == P + E;
    if x < n - 1 {
      ScanRowComplete(c, w, h, y, n - 1, x);
    } else {
      assert E == [TBSPixel(PixelIndex(x, y), c[y][x], 0)];
    }
  }

  /** A position above row m with a non-zero count is recorded. */
  lemma ScanRowsComplete(c: seq<seq<nat>>, w: nat, h: nat, m: nat, x: nat, y: nat)
    requires IsGrid(c, w, h) && y < m <= h && x < w && c[y][x] != 0
    ensures TBSPixel(PixelIndex(x, y), c[y][x], 0) in ScanRows(c, w, h, m)
  {
    var k := ScanRowsIndex(c, w, h, m, x, y);
  }

  /** Where in the first m scanned rows the record of (x, y) sits. */
  lemma {:induction false} ScanRowsIndex(c: seq<seq<nat>>, w: nat, h: nat, m: nat, x: nat, y: nat) returns (k: nat)
    requires IsGrid(c, w, h) && y < m <= h && x < w && c[y][x] != 0
    ensures k < |ScanRows(c, w, h, m)| && ScanRows(c, w, h, m)[k] == TBSPixel(PixelIndex(x, y), c[y][x], 0)
  {
    var P := ScanRows(c, w, h, m - 1);
    var R := ScanRow(c, w, h, m - 1, w);
    assert ScanRows(c, w, h, m) == P + R;
    if y < m - 1 {
      k := ScanRowsIndex(c, w, h, m - 1, x, y);
      assert (P + R)[k] == P[k];
    } else {
      ScanRowComplete(c, w, h, y, w, x);
      var j :| 0 <= j < |R| && R[j] == TBSPixel(PixelIndex(x, y), c[y][x], 0);
      k := |P| + j;
      assert (P + R)[k] == R[j];
    }
  }

  /** The first m scanned rows hold at most m * w records. */
  lemma {:induction false} ScanRowsSize(c: seq<seq<nat>>, w: nat, h: nat, m: nat)
    requires IsGrid(c, w, h) && m <= h
    ensures |ScanRows(c, w, h, m)| <= m * w
  {
    if m > 0 {
      ScanRowsSize(c, w, h, m - 1);
      assert (m - 1) * w + w == m * w;
    }
  }

  /** findTBSPixel's result, described: exactly the frontier positions,
      each with its neighbour count and tag 0, in strictly increasing
      row-major order, and no more than w * h of them. */
  lemma FrontierCharacterized(s: seq<Pixel>, w: nat, h: nat)
    requires |s| == w * h
    ensures forall k :: 0 <= k < |Frontier(s, w, h)| ==> IsCandidate(s, w, h, Frontier(s, w, h)[k])
    ensures forall x, y :: OnFrontier(s, w, h, x, y) ==> Cand(s, w, h, x, y) in Frontier(s, w, h)
    ensures RowMajorSorted(Frontier(s, w, h))
    ensures |Frontier(s, w, h)| <= w * h
  {
    var c := Counts(s, w, h);
    var F := Frontier(s, w, h);
    ScanRowsSound(c, w, h, h);
    ScanRowsSize(c, w, h, h);
    forall k | 0 <= k < |F|
      ensures IsCandidate(s, w, h, F[k])
    {
      assert Recorded(c, w, h, F[k]);
      CountsOnFrontier(s, w, h, F[k].idx.x, F[k].idx.y);
    }
    forall x, y | OnFrontier(s, w, h, x, y)
      ensures Cand(s, w, h, x, y) in F
    {
      CountsOnFrontier(s, w, h, x, y);
      ScanRowsComplete(c, w, h, h, x, y);
    }
  }

  /** The candidates with the tags rand(t), rand(t + 1), ... in order. */
  function WithTags(F: seq<TBSPixel>, rand: nat -> nat, t: nat): (G: seq<TBSPixel>)
    ensures |G| == |F|
    ensures forall k :: 0 <= k < |F| ==> G[k] == F[k].(r := rand(t + k))
  {
    seq(|F|, k requires 0 <= k < |F| => F[k].(r := rand(t + k)))
  }

  /** Before row i of h, the scan has left room for a whole row more. */
  lemma ScanRowsRoom(c: seq<seq<nat>>, w: nat, h: nat, i: nat)
    requires IsGrid(c, w, h) && i < h
    ensures |ScanRows(c, w, h, i)| + w <= w * h
  {
    ScanRowsSize(c, w, h, i);
    MulMonotone(i + 1, h, w);
    assert (i + 1) * w == i * w + w;
  }

  /** Scanning one more column of row y appends what the scan emits there. */
  lemma ScanStep(c: seq<seq<nat>>, w: nat, h: nat, done: seq<TBSPixel>, y: nat, n: nat)
    requires IsGrid(c, w, h) && y < h && n < w
    ensures done + ScanRow(c, w, h, y, n + 1) == (done + ScanRow(c, w, h, y, n)) + Emit(c, w, h, n, y)
  {
  }

  /** Tagging one more candidate draws the next tag. */
  lemma WithTagsSnoc(F: seq<TBSPixel>, e: TBSPixel, rand: nat -> nat, t: nat)
    ensures WithTags(F + [e], rand, t) == WithTags(F, rand, t) + [e.(r := rand(t + |F|))]
  {
    assert forall k :: 0 <= k < |F| ==> (F + [e])[k] == F[k];
  }

  /** findTBSPixel: scans the canvas row by row and records every unset
      pixel with a non-zero neighbour count, drawing one random tag for
      each recorded pixel. */
  method FindTBSPixel(synthesized: Image, w: nat, h: nat, rand: nat -> nat, t: nat) returns (arr: array<TBSPixel>, size: nat)
    requires synthesized.Valid() && synthesized.width == w && synthesized.height == h
    ensures fresh(arr) && arr.Length == w * h && size <= arr.Length
    ensures arr[..size] == WithTags(Frontier(synthesized.pixels[..], w, h), rand, t)
  {
    ghost var c := Counts(synthesized.pixels[..], w, h);
    arr := new TBSPixel[w * h];
    var counter: nat := 0;
    for i := 0 to h
      invariant counter <= arr.Length
      invariant arr[..counter] == WithTags(ScanRows(c, w, h, i), rand, t)
    {
      ScanRowsRoom(c, w, h, i);
      counter := VisitRow(synthesized, w, h, rand, t, arr, counter, i, c, ScanRows(c, w, h, i));
    }
    size := counter;
  }

  /** The inner loop of findTBSPixel over row i: the records so far, done,
      grow by the scan of the whole row. */
  method VisitRow(synthesized: Image, w: nat, h: nat, rand: nat -> nat, t: nat,
                  arr: array<TBSPixel>, counter: nat, i: nat,
                  ghost c: seq<seq<nat>>, ghost done: seq<TBSPixel>)
    returns (counter': nat)
    requires synthesized.Valid() && synthesized.width == w && synthesized.height == h
    requires i < h && |done| + w <= arr.Length && counter <= arr.Length
    requires c == Counts(synthesized.pixels[..], w, h)
    requires arr[..counter] == WithTags(done, rand, t)
    modifies arr
    ensures counter' <= arr.Length
    ensures arr[..counter'] == WithTags(done + ScanRow(c, w, h, i, w), rand, t)
  {
    counter' := counter;
    assert done + ScanRow(c, w, h, i, 0) == done;
    for j := 0 to w
      invariant counter' <= arr.Length
      invariant arr[..counter'] == WithTags(done + ScanRow(c, w, h, i, j), rand, t)
    {
      ghost var before := done + ScanRow(c, w, h, i, j);
      CountsAt(synthesized.pixels[..], w, h, j, i);
      counter' := VisitPixel(synthesized, w, h, rand, t, arr, counter', i, j, c, before);
      ScanStep(c, w, h, done, i, j);
    }
  }

  /** The body of findTBSPixel's inner loop at row i, column j: an unset
      pixel gets its position written at arr[counter], and is kept, with its
      neighbour count and a fresh tag, only when that count is non-zero.
      The records so far, F, grow by what the scan emits at (j, i). */
  method VisitPixel(synthesized: Image, w: nat, h: nat, rand: nat -> nat, t: nat,
                    arr: array<TBSPixel>, counter: nat, i: nat, j: nat,
                    ghost c: seq<seq<nat>>, ghost F: seq<TBSPixel>)
    returns (counter': nat)
    requires synthesized.Valid() && synthesized.width == w && synthesized.height == h
    requires i < h && j < w && counter < arr.Length
    requires IsGrid(c, w, h) && c[i][j] == FrontierCount(synthesized.pixels[..], w, h, j, i)
    requires arr[..counter] == WithTags(F, rand, t)
    modifies arr
    ensures counter <= counter' <= counter + 1
    ensures arr[..counter'] == WithTags(F + Emit(c, w, h, j, i), rand, t)
  {
    FlatIndexBounds(j, i, w, h);
    ghost var e := Emit(c, w, h, j, i);
    ghost var prefix := arr[..counter];
    counter' := counter;
    if synthesized.pixels[i * w + j].a != SET {
      arr[counter] := arr[counter].(idx := PixelIndex(j, i));
      var neighborCount := FindNumNeighbors(synthesized.pixels[..], i * w + j, w, h);
      assert neighborCount == c[i][j];
      if neighborCount != 0 {
        arr[counter] := arr[counter].(neighborCount := neighborCount, r := rand(t + counter));
        counter' := counter + 1;
        assert e == [TBSPixel(PixelIndex(j, i), neighborCount, 0)];
        assert arr[..counter'] == prefix + [arr[counter]];
        WithTagsSnoc(F, e[0], rand, t);
      } else {
        assert arr[..counter'] == prefix;
        assert F + e == F;
      }
    } else {
      assert F + e == F;
    }
  }
}
