/** The square windows of synthesizePixel (createPixelWindow), the test
    that an exemplar window covers the target window, and the Gaussian
    score of findGaussScore. A window cell is the offset of a canvas pixel
    in the pixel buffer, or None where the C code stores a NULL pointer. */
module Windows {
  import opened Wrappers
  import opened Images

  /** The number of cells along each side of a window of radius r. */
  function Side(r: nat): (n: nat)
    ensures n % 2 == 1 && n > r
  {
    2 * r + 1
  }

  /** n rows of n cells each. */
  predicate IsSquare(W: seq<seq<Option<nat>>>, n: nat)
  {
    |W| == n && forall i :: 0 <= i < n ==> |W[i]| == n
  }

  /** Every cell of W that is present addresses a pixel of a buffer of length len. */
  predicate RefersWithin(W: seq<seq<Option<nat>>>, len: nat)
  {
    forall i, j :: 0 <= i < |W| && 0 <= j < |W[i]| && W[i][j].Some? ==> W[i][j].value < len
  }

  /** The cell createPixelWindow stores for canvas position (x, y): the offset
      y * synWidth + x when (x, y) lies in [0, width) x [0, height) and that
      pixel's alpha is not 0, None otherwise. */
  function Cell(s: seq<Pixel>, width: nat, height: nat, synWidth: nat, y: int, x: int): (c: Option<nat>)
    requires width <= synWidth && height * synWidth <= |s|
    ensures c.Some? ==> c.value < |s|
  {
    if 0 <= y < height && 0 <= x < width then
      FlatIndexBounds(x, y, synWidth, height);
      if s[y * synWidth + x].a == 0 then None else Some(y * synWidth + x)
    else
      None
  }

  /** The window of radius r centred on (cx, cy): cell (i, j) looks at the
      position (cx - r + j, cy - r + i). */
  function Window(s: seq<Pixel>, width: nat, height: nat, synWidth: nat, r: nat, cy: int, cx: int): (W: seq<seq<Option<nat>>>)
    requires width <= synWidth && height * synWidth <= |s|
    ensures IsSquare(W, Side(r)) && RefersWithin(W, |s|)
  {
    var W := seq(Side(r), i => seq(Side(r), j => Cell(s, width, height, synWidth, cy - r + i, cx - r + j)));
    assert forall i, j :: 0 <= i < Side(r) && 0 <= j < Side(r) ==>
      W[i][j] == Cell(s, width, height, synWidth, cy - r + i, cx - r + j);
    W
  }

  /** A window cell is present exactly when its position lies inside the
      bounds given and the pixel there has a non-zero alpha; a present cell
      refers to that position's row-major offset. */
  lemma WindowCell(s: seq<Pixel>, width: nat, height: nat, synWidth: nat, r: nat, cy: int, cx: int, i: nat, j: nat)
    requires width <= synWidth && height * synWidth <= |s|
    requires i < Side(r) && j < Side(r)
    ensures 0 <= cy - r + i < height && 0 <= cx - r + j < width ==>
      0 <= (cy - r + i) * synWidth + (cx - r + j) < |s|
    ensures Window(s, width, height, synWidth, r, cy, cx)[i][j].Some?
      <==> 0 <= cy - r + i < height && 0 <= cx - r + j < width
           && s[(cy - r + i) * synWidth + (cx - r + j)].a != 0
    ensures Window(s, width, height, synWidth, r, cy, cx)[i][j].Some?
      ==> Window(s, width, height, synWidth, r, cy, cx)[i][j].value == (cy - r + i) * synWidth + (cx - r + j)
  {
    var y, x := cy - r + i, cx - r + j;
    assert Window(s, width, height, synWidth, r, cy, cx)[i][j] == Cell(s, width, height, synWidth, y, x);
    if 0 <= y < height && 0 <= x < width {
      FlatIndexBounds(x, y, synWidth, height);
    }
  }

  /** The cells of a two-dimensional array of window cells, row by row. */
  function Contents(a: array2<Option<nat>>): (W: seq<seq<Option<nat>>>)
    reads a
    ensures |W| == a.Length0 && forall i :: 0 <= i < a.Length0 ==> |W[i]| == a.Length1
  {
    seq(a.Length0, i requires 0 <= i < a.Length0 reads a =>
      seq(a.Length1, j requires 0 <= j < a.Length1 reads a => a[i, j]))
  }

  /** createPixelWindow: fills the window around (cx, cy), looking only at
      positions inside [0, width) x [0, height) of a canvas whose rows are
      synWidth pixels long. */
  method CreatePixelWindow(window: array2<Option<nat>>, synthesized: Image, width: nat, height: nat,
                           synWidth: nat, r: nat, cy: int, cx: int)
    requires window.Length0 == Side(r) && window.Length1 == Side(r)
    requires width <= synWidth && height * synWidth <= synthesized.pixels.Length
    modifies window
    ensures Contents(window) == Window(synthesized.pixels[..], width, height, synWidth, r, cy, cx)
  {
    ghost var s := synthesized.pixels[..];
    for i := 0 to Side(r)
      invariant forall i', j' :: 0 <= i' < i && 0 <= j' < Side(r) ==>
        window[i', j'] == Cell(s, width, height, synWidth, cy - r + i', cx - r + j')
    {
      for j := 0 to Side(r)
        invariant forall i', j' :: 0 <= i' < i && 0 <= j' < Side(r) ==>
          window[i', j'] == Cell(s, width, height, synWidth, cy - r + i', cx - r + j')
        invariant forall j' :: 0 <= j' < j ==>
          window[i, j'] == Cell(s, width, height, synWidth, cy - r + i, cx - r + j')
      {
        var y := cy - r + i;
        var x := cx - r + j;
        if (y >= 0 && y < height) && (x >= 0 && x < width) {
          FlatIndexBounds(x, y, synWidth, height);
          window[i, j] := Some(y * synWidth + x);
          if synthesized.pixels[window[i, j].value].a == 0 {
            window[i, j] := None;
          }
        } else {
          window[i, j] := None;
        }
      }
    }
    WindowOfCells(window, s, width, height, synWidth, r, cy, cx);
  }

  /** A square array whose every cell is the Cell of its position holds the Window. */
  lemma WindowOfCells(window: array2<Option<nat>>, s: seq<Pixel>, width: nat, height: nat,
                      synWidth: nat, r: nat, cy: int, cx: int)
    requires window.Length0 == Side(r) && window.Length1 == Side(r)
    requires width <= synWidth && height * synWidth <= |s|
    requires forall i, j :: 0 <= i < Side(r) && 0 <= j < Side(r) ==>
      window[i, j] == Cell(s, width, height, synWidth, cy - r + i, cx - r + j)
    ensures Contents(window) == Window(s, width, height, synWidth, r, cy, cx)
  {
    var C, W := Contents(window), Window(s, width, height, synWidth, r, cy, cx);
    forall i | 0 <= i < Side(r)
      ensures C[i] == W[i]
    {
      assert forall j :: 0 <= j < Side(r) ==> C[i][j] == W[i][j];
    }
  }

  /** The compatibility test of synthesizePixel: every cell present in the
      target window is present in the exemplar window. Cells present only
      in the exemplar window do not matter. */
  predicate Compatible(tw: seq<seq<Option<nat>>>, ew: seq<seq<Option<nat>>>)
  {
    forall i, j :: 0 <= i < |tw| && 0 <= j < |tw[i]| && tw[i][j].Some? ==>
      i < |ew| && j < |ew[i]| && ew[i][j].Some?
  }

  /** The loop of synthesizePixel that counts the cells absent from the
      exemplar window but present in the target window. */
  method CountMissing(expWindow: array2<Option<nat>>, tbsWindow: array2<Option<nat>>, n: nat) returns (different: nat)
    requires expWindow.Length0 == n && expWindow.Length1 == n
    requires tbsWindow.Length0 == n && tbsWindow.Length1 == n
    ensures different == 0 <==> Compatible(Contents(tbsWindow), Contents(expWindow))
  {
    different := 0;
    for h := 0 to n
      invariant different == 0 <==>
        forall i, j :: 0 <= i < h && 0 <= j < n && tbsWindow[i, j].Some? ==> expWindow[i, j].Some?
    {
      for k := 0 to n
        invariant different == 0 <==>
          (forall i, j :: 0 <= i < h && 0 <= j < n && tbsWindow[i, j].Some? ==> expWindow[i, j].Some?)
          && (forall j :: 0 <= j < k && tbsWindow[h, j].Some? ==> expWindow[h, j].Some?)
      {
        if expWindow[h, k] == None && tbsWindow[h, k] != None {
          different := different + 1;
        }
      }
    }
    ghost var T, E := Contents(tbsWindow), Contents(expWindow);
    assert forall i, j :: 0 <= i < n && 0 <= j < n ==> T[i][j] == tbsWindow[i, j] && E[i][j] == expWindow[i, j];
  }

  /** The Gaussian weights are strictly positive, as exp(...) is. */
  ghost predicate PositiveWeights(weight: (int, int) -> real)
  {
    forall dy, dx :: weight(dy, dx) > 0.0
  }

  /** Both windows are n x n and refer to pixels of s. */
  predicate Comparable(s: seq<Pixel>, tw: seq<seq<Option<nat>>>, ew: seq<seq<Option<nat>>>, n: nat)
  {
    IsSquare(tw, n) && IsSquare(ew, n) && RefersWithin(tw, |s|) && RefersWithin(ew, |s|)
  }

  /** The term of findGaussScore for cell (i, j): the weight of the offset
      from the centre times the colour distance, when both cells are present. */
  function CellScore(s: seq<Pixel>, tw: seq<seq<Option<nat>>>, ew: seq<seq<Option<nat>>>, r: nat,
                     weight: (int, int) -> real, i: nat, j: nat): real
    requires Comparable(s, tw, ew, Side(r)) && i < Side(r) && j < Side(r)
  {
    if tw[i][j].Some? && ew[i][j].Some? then
      weight(i - r, j - r) * PixelSquaredDifference(s[tw[i][j].value], s[ew[i][j].value]) as real
    else 0.0
  }

  /** The terms of the first n cells of row i. */
  function ScoreRow(s: seq<Pixel>, tw: seq<seq<Option<nat>>>, ew: seq<seq<Option<nat>>>, r: nat,
                    weight: (int, int) -> real, i: nat, n: nat): real
    requires Comparable(s, tw, ew, Side(r)) && i < Side(r) && n <= Side(r)
  {
    if n == 0 then 0.0 else ScoreRow(s, tw, ew, r, weight, i, n - 1) + CellScore(s, tw, ew, r, weight, i, n - 1)
  }

  /** The terms of the first m rows. */
  function ScoreRows(s: seq<Pixel>, tw: seq<seq<Option<nat>>>, ew: seq<seq<Option<nat>>>, r: nat,
                     weight: (int, int) -> real, m: nat): real
    requires Comparable(s, tw, ew, Side(r)) && m <= Side(r)
  {
    if m == 0 then 0.0 else ScoreRows(s, tw, ew, r, weight, m - 1) + ScoreRow(s, tw, ew, r, weight, m - 1, Side(r))
  }

  /** findGaussScore: the weighted sum, over the cells present in both
      windows, of the squared colour distance between the pixels they refer to. */
  function GaussScore(s: seq<Pixel>, tw: seq<seq<Option<nat>>>, ew: seq<seq<Option<nat>>>, r: nat,
                      weight: (int, int) -> real): real
    requires Comparable(s, tw, ew, Side(r))
  {
    ScoreRows(s, tw, ew, r, weight, Side(r))
  }

  /** findGaussScore over two allocated windows of radius r: the nested
      loop accumulates the terms cell by cell, row by row. */
  method FindGaussScore(synthesized: Image, tbsWindow: array2<Option<nat>>, expWindow: array2<Option<nat>>,
                        r: nat, weight: (int, int) -> real) returns (diff: real)
    requires tbsWindow.Length0 == Side(r) && tbsWindow.Length1 == Side(r)
    requires expWindow.Length0 == Side(r) && expWindow.Length1 == Side(r)
    requires Comparable(synthesized.pixels[..], Contents(tbsWindow), Contents(expWindow), Side(r))
    ensures diff == GaussScore(synthesized.pixels[..], Contents(tbsWindow), Contents(expWindow), r, weight)
  {
    ghost var s, T, E := synthesized.pixels[..], Contents(tbsWindow), Contents(expWindow);
    diff := 0.0;
    for h := 0 to Side(r)
      invariant diff == ScoreRows(s, T, E, r, weight, h)
    {
      diff := AccumulateRow(synthesized, tbsWindow, expWindow, r, weight, h, diff);
    }
  }

  /** The inner loop of findGaussScore over row h: adds the row's terms to diff0. */
  method AccumulateRow(synthesized: Image, tbsWindow: array2<Option<nat>>, expWindow: array2<Option<nat>>,
                       r: nat, weight: (int, int) -> real, h: nat, diff0: real) returns (diff: real)
    requires tbsWindow.Length0 == Side(r) && tbsWindow.Length1 == Side(r)
    requires expWindow.Length0 == Side(r) && expWindow.Length1 == Side(r)
    requires Comparable(synthesized.pixels[..], Contents(tbsWindow), Contents(expWindow), Side(r)) && h < Side(r)
    ensures diff == diff0 + ScoreRow(synthesized.pixels[..], Contents(tbsWindow), Contents(expWindow), r, weight, h, Side(r))
  {
    ghost var s, T, E := synthesized.pixels[..], Contents(tbsWindow), Contents(expWindow);
    diff := diff0;
    for k := 0 to Side(r)
      invariant diff == diff0 + ScoreRow(s, T, E, r, weight, h, k)
    {
      CellOfArrays(synthesized, tbsWindow, expWindow, r, weight, h, k);
      var tbsPix, expPix := tbsWindow[h, k], expWindow[h, k];
      if tbsPix.Some? && expPix.Some? {
        var gauss := weight(h - r, k - r);
        var d := PixelSquaredDifference(synthesized.pixels[tbsPix.value], synthesized.pixels[expPix.value]) as real;
        diff := diff + gauss * d;
      }
    }
  }

  /** The term of cell (h, k), read from the window arrays. */
  lemma CellOfArrays(synthesized: Image, tbsWindow: array2<Option<nat>>, expWindow: array2<Option<nat>>,
                     r: nat, weight: (int, int) -> real, h: nat, k: nat)
    requires tbsWindow.Length0 == Side(r) && tbsWindow.Length1 == Side(r)
    requires expWindow.Length0 == Side(r) && expWindow.Length1 == Side(r)
    requires Comparable(synthesized.pixels[..], Contents(tbsWindow), Contents(expWindow), Side(r))
    requires h < Side(r) && k < Side(r)
    ensures tbsWindow[h, k].Some? ==> tbsWindow[h, k].value < synthesized.pixels.Length
    ensures expWindow[h, k].Some? ==> expWindow[h, k].value < synthesized.pixels.Length
    ensures CellScore(synthesized.pixels[..], Contents(tbsWindow), Contents(expWindow), r, weight, h, k)
      == if tbsWindow[h, k].Some? && expWindow[h, k].Some? then
           weight(h - r, k - r)
           * PixelSquaredDifference(synthesized.pixels[tbsWindow[h, k].value], synthesized.pixels[expWindow[h, k].value]) as real
         else 0.0
  {
    var T, E := Contents(tbsWindow), Contents(expWindow);
    assert T[h][k] == tbsWindow[h, k] && E[h][k] == expWindow[h, k];
  }

  /** The windows show the same colours in the first n cells of row i,
      wherever both have a pixel. */
  predicate RowAgrees(s: seq<Pixel>, tw: seq<seq<Option<nat>>>, ew: seq<seq<Option<nat>>>, r: nat, i: nat, n: nat)
    requires Comparable(s, tw, ew, Side(r)) && i < Side(r) && n <= Side(r)
  {
    forall j :: 0 <= j < n && tw[i][j].Some? && ew[i][j].Some? ==> SameColour(s[tw[i][j].value], s[ew[i][j].value])
  }

  /** The windows show the same colours in the first m rows, wherever both have a pixel. */
  predicate RowsAgree(s: seq<Pixel>, tw: seq<seq<Option<nat>>>, ew: seq<seq<Option<nat>>>, r: nat, m: nat)
    requires Comparable(s, tw, ew, Side(r)) && m <= Side(r)
  {
    forall i :: 0 <= i < m ==> RowAgrees(s, tw, ew, r, i, Side(r))
  }

  /** The windows show the same colours wherever both have a pixel. */
  predicate AgreeOnCommonCells(s: seq<Pixel>, tw: seq<seq<Option<nat>>>, ew: seq<seq<Option<nat>>>, r: nat)
    requires Comparable(s, tw, ew, Side(r))
  {
    forall i, j :: 0 <= i < Side(r) && 0 <= j < Side(r) && tw[i][j].Some? && ew[i][j].Some? ==>
      SameColour(s[tw[i][j].value], s[ew[i][j].value])
  }

  /** A single term is non-negative, and 0 exactly when the colours agree or a cell is absent. */
  lemma CellScoreSign(s: seq<Pixel>, tw: seq<seq<Option<nat>>>, ew: seq<seq<Option<nat>>>, r: nat,
                      weight: (int, int) -> real, i: nat, j: nat)
    requires Comparable(s, tw, ew, Side(r)) && i < Side(r) && j < Side(r) && PositiveWeights(weight)
    ensures CellScore(s, tw, ew, r, weight, i, j) >= 0.0
    ensures CellScore(s, tw, ew, r, weight, i, j) == 0.0 <==>
      (tw[i][j].Some? && ew[i][j].Some? ==> SameColour(s[tw[i][j].value], s[ew[i][j].value]))
  {
    if tw[i][j].Some? && ew[i][j].Some? {
      var w := weight(i - r, j - r);
      var d := PixelSquaredDifference(s[tw[i][j].value], s[ew[i][j].value]) as real;
      assert w > 0.0 && d >= 0.0;
      assert d > 0.0 ==> w * d > 0.0;
    }
  }

  /** A row prefix sums to a non-negative value, 0 exactly when its colours agree. */
  lemma {:induction false} ScoreRowSign(s: seq<Pixel>, tw: seq<seq<Option<nat>>>, ew: seq<seq<Option<nat>>>, r: nat,
                                        weight: (int, int) -> real, i: nat, n: nat)
    requires Comparable(s, tw, ew, Side(r)) && i < Side(r) && n <= Side(r) && PositiveWeights(weight)
    ensures ScoreRow(s, tw, ew, r, weight, i, n) >= 0.0
    ensures ScoreRow(s, tw, ew, r, weight, i, n) == 0.0 <==> RowAgrees(s, tw, ew, r, i, n)
  {
    if n > 0 {
      ScoreRowSign(s, tw, ew, r, weight, i, n - 1);
      CellScoreSign(s, tw, ew, r, weight, i, n - 1);
    }
  }

  /** The first m rows sum to a non-negative value, 0 exactly when their colours agree. */
  lemma {:induction false} ScoreRowsSign(s: seq<Pixel>, tw: seq<seq<Option<nat>>>, ew: seq<seq<Option<nat>>>, r: nat,
                                         weight: (int, int) -> real, m: nat)
    requires Comparable(s, tw, ew, Side(r)) && m <= Side(r) && PositiveWeights(weight)
    ensures ScoreRows(s, tw, ew, r, weight, m) >= 0.0
    ensures ScoreRows(s, tw, ew, r, weight, m) == 0.0 <==> RowsAgree(s, tw, ew, r, m)
  {
    if m > 0 {
      ScoreRowsSign(s, tw, ew, r, weight, m - 1);
      ScoreRowSign(s, tw, ew, r, weight, m - 1, Side(r));
    }
  }

  /** With positive weights the score is never negative, and it is 0
      exactly when the two windows show the same colours wherever both
      have a pixel. */
  lemma GaussScoreSign(s: seq<Pixel>, tw: seq<seq<Option<nat>>>, ew: seq<seq<Option<nat>>>, r: nat,
                       weight: (int, int) -> real)
    requires Comparable(s, tw, ew, Side(r)) && PositiveWeights(weight)
    ensures GaussScore(s, tw, ew, r, weight) >= 0.0
    ensures GaussScore(s, tw, ew, r, weight) == 0.0 <==> AgreeOnCommonCells(s, tw, ew, r)
  {
    ScoreRowsSign(s, tw, ew, r, weight, Side(r));
    if RowsAgree(s, tw, ew, r, Side(r)) {
      forall i, j | 0 <= i < Side(r) && 0 <= j < Side(r) && tw[i][j].Some? && ew[i][j].Some?
        ensures SameColour(s[tw[i][j].value], s[ew[i][j].value])
      {
        assert RowAgrees(s, tw, ew, r, i, Side(r));
      }
    }
  }

  /** Whatever the weights, windows that agree wherever both have a pixel score 0. */
  lemma GaussScoreZeroWhenAgree(s: seq<Pixel>, tw: seq<seq<Option<nat>>>, ew: seq<seq<Option<nat>>>, r: nat,
                                weight: (int, int) -> real)
    requires Comparable(s, tw, ew, Side(r)) && AgreeOnCommonCells(s, tw, ew, r)
    ensures GaussScore(s, tw, ew, r, weight) == 0.0
  {
    ScoreRowsZero(s, tw, ew, r, weight, Side(r));
  }

  lemma {:induction false} ScoreRowsZero(s: seq<Pixel>, tw: seq<seq<Option<nat>>>, ew: seq<seq<Option<nat>>>, r: nat,
                                         weight: (int, int) -> real, m: nat)
    requires Comparable(s, tw, ew, Side(r)) && m <= Side(r) && AgreeOnCommonCells(s, tw, ew, r)
    ensures ScoreRows(s, tw, ew, r, weight, m) == 0.0
  {
    if m > 0 {
      ScoreRowsZero(s, tw, ew, r, weight, m - 1);
      ScoreRowZero(s, tw, ew, r, weight, m - 1, Side(r));
    }
  }

  lemma {:induction false} ScoreRowZero(s: seq<Pixel>, tw: seq<seq<Option<nat>>>, ew: seq<seq<Option<nat>>>, r: nat,
                                        weight: (int, int) -> real, i: nat, n: nat)
    requires Comparable(s, tw, ew, Side(r)) && i < Side(r) && n <= Side(r) && AgreeOnCommonCells(s, tw, ew, r)
    ensures ScoreRow(s, tw, ew, r, weight, i, n) == 0.0
  {
    if n > 0 {
      ScoreRowZero(s, tw, ew, r, weight, i, n - 1);
      if tw[i][n - 1].Some? && ew[i][n - 1].Some? {
        assert SameColour(s[tw[i][n - 1].value], s[ew[i][n - 1].value]);
      }
    }
  }
}
