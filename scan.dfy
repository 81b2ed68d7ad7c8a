/** The row-major scan of synthesizePixel over the exemplar, written for
    any entry function: E(i, j) is what the scan records at position
    (j, i), nothing or one record. */
module Scans {
  import opened Images
  import opened SynthesisTypes

  /** The entries of the first n positions of row i, left to right. */
  function RowScan(E: (nat, nat) -> seq<EXPPixel>, i: nat, n: nat): seq<EXPPixel>
  {
    if n == 0 then [] else RowScan(E, i, n - 1) + E(i, n - 1)
  }

  /** The entries of the first m rows of width w, row by row. */
  function GridScan(E: (nat, nat) -> seq<EXPPixel>, w: nat, m: nat): seq<EXPPixel>
  {
    if m == 0 then [] else GridScan(E, w, m - 1) + RowScan(E, m - 1, w)
  }

  /** Every entry recorded at (j, i) carries the position (j, i). */
  ghost predicate Tagged(E: (nat, nat) -> seq<EXPPixel>)
  {
    forall i: nat, j: nat, k :: 0 <= k < |E(i, j)| ==> E(i, j)[k].idx == PixelIndex(j, i)
  }

  /** No position records more than one entry. */
  ghost predicate AtMostOne(E: (nat, nat) -> seq<EXPPixel>)
  {
    forall i: nat, j: nat :: |E(i, j)| <= 1
  }

  /** Each record of a row prefix was recorded at its own position, in row
      i and left of column n. */
  lemma {:induction false} RowScanSound(E: (nat, nat) -> seq<EXPPixel>, i: nat, n: nat)
    requires Tagged(E)
    ensures forall k :: 0 <= k < |RowScan(E, i, n)| ==>
      RowScan(E, i, n)[k].idx.y == i && RowScan(E, i, n)[k].idx.x < n
      && RowScan(E, i, n)[k] in E(i, RowScan(E, i, n)[k].idx.x)
  {
    if n > 0 {
      RowScanSound(E, i, n - 1);
      var P: seq<EXPPixel>, R: seq<EXPPixel> := RowScan(E, i, n - 1), E(i, n - 1);
      assert RowScan(E, i, n) == P + R;
      forall k | |P| <= k < |P| + |R|
        ensures (P + R)[k].idx == PixelIndex(n - 1, i) && (P + R)[k] in R
      {
        assert (P + R)[k] == R[k - |P|];
      }
    }
  }

  /** Each record of the first m rows was recorded at its own position,
      inside those rows and left of column w. */
  lemma {:induction false} GridScanSound(E: (nat, nat) -> seq<EXPPixel>, w: nat, m: nat)
    requires Tagged(E)
    ensures forall k :: 0 <= k < |GridScan(E, w, m)| ==>
      GridScan(E, w, m)[k].idx.y < m && GridScan(E, w, m)[k].idx.x < w
      && GridScan(E, w, m)[k] in E(GridScan(E, w, m)[k].idx.y, GridScan(E, w, m)[k].idx.x)
  {
    if m > 0 {
      GridScanSound(E, w, m - 1);
      RowScanSound(E, m - 1, w);
      var P, R := GridScan(E, w, m - 1), RowScan(E, m - 1, w);
      assert GridScan(E, w, m) == P + R;
      forall k | |P| <= k < |P| + |R|
        ensures (P + R)[k] == R[k - |P|]
      {
      }
    }
  }

  /** An entry recorded in row i left of column n is in the row prefix. */
  lemma {:induction false} RowScanComplete(E: (nat, nat) -> seq<EXPPixel>, i: nat, n: nat, j: nat, e: EXPPixel)
    requires j < n && e in E(i, j)
    ensures e in RowScan(E, i, n)
  {
    var P, R := RowScan(E, i, n - 1), E(i, n - 1);
    assert RowScan(E, i, n) == P + R;
    if j < n - 1 {
      RowScanComplete(E, i, n - 1, j, e);
    }
  }

  /** An entry recorded in the first m rows, left of column w, is in the scan. */
  lemma {:induction false} GridScanComplete(E: (nat, nat) -> seq<EXPPixel>, w: nat, m: nat, i: nat, j: nat, e: EXPPixel)
    requires i < m && j < w && e in E(i, j)
    ensures e in GridScan(E, w, m)
  {
    var P, R := GridScan(E, w, m - 1), RowScan(E, m - 1, w);
    assert GridScan(E, w, m) == P + R;
    if i < m - 1 {
      GridScanComplete(E, w, m - 1, i, j, e);
    } else {
      RowScanComplete(E, i, w, j, e);
    }
  }

  /** A row prefix of n positions holds at most n records. */
  lemma {:induction false} RowScanSize(E: (nat, nat) -> seq<EXPPixel>, i: nat, n: nat)
    requires AtMostOne(E)
    ensures |RowScan(E, i, n)| <= n
  {
    if n > 0 {
      RowScanSize(E, i, n - 1);
      assert |E(i, n - 1)| <= 1;
    }
  }

  /** The first m rows of width w hold at most m * w records. */
  lemma {:induction false} GridScanSize(E: (nat, nat) -> seq<EXPPixel>, w: nat, m: nat)
    requires AtMostOne(E)
    ensures |GridScan(E, w, m)| <= m * w
  {
    if m > 0 {
      GridScanSize(E, w, m - 1);
      RowScanSize(E, m - 1, w);
      MulSucc(m - 1, w);
    }
  }

  lemma MulSucc(m: nat, w: nat)
    ensures (m + 1) * w == m * w + w
  {
  }

  /** Before row m of h there is room for a whole row more in an h * w buffer. */
  lemma GridScanRoom(E: (nat, nat) -> seq<EXPPixel>, w: nat, h: nat, m: nat)
    requires AtMostOne(E) && m < h
    ensures |GridScan(E, w, m)| + w <= h * w
  {
    GridScanSize(E, w, m);
    MulSucc(m, w);
    MulMonotone(m + 1, h, w);
  }

  /** Scanning one more position appends its entries. */
  lemma RowScanStep(E: (nat, nat) -> seq<EXPPixel>, i: nat, j: nat, done: seq<EXPPixel>)
    ensures done + RowScan(E, i, j + 1) == (done + RowScan(E, i, j)) + E(i, j)
  {
  }
}
