/** synthesizePixel: the window around the pixel to synthesize is compared
    with the window around every exemplar position; the positions whose
    window covers the target's are scored, one of the best is chosen and
    its colour is painted onto the target. */
module Matching {
  import opened Wrappers
  import opened Images
  import opened SynthesisTypes
  import opened Windows
  import opened Selection
  import opened Seeding
  import opened Scans

  /** A canvas of synW x synH pixels holding an exW x exH exemplar footprint
      in its top-left corner. The last conjunct spells out that the
      footprint's rows fit in the buffer. */
  predicate Layout(s: seq<Pixel>, exW: nat, exH: nat, synW: nat, synH: nat)
  {
    |s| == synW * synH && exW <= synW && exH <= synH && exH * synW <= |s|
  }

  /** What the exemplar scan needs: the exemplar's rows fit in the canvas
      buffer, and tw is a window of radius r over that buffer. */
  predicate Scannable(s: seq<Pixel>, exW: nat, exH: nat, synW: nat, r: nat, tw: seq<seq<Option<nat>>>)
  {
    exW <= synW && exH * synW <= |s| && IsSquare(tw, Side(r)) && RefersWithin(tw, |s|)
  }

  /** The window around the exemplar position (j, i), clipped to the exemplar. */
  function ExemplarWindow(s: seq<Pixel>, exW: nat, exH: nat, synW: nat, r: nat, i: nat, j: nat): (W: seq<seq<Option<nat>>>)
    requires exW <= synW && exH * synW <= |s|
    ensures IsSquare(W, Side(r)) && RefersWithin(W, |s|)
  {
    Window(s, exW, exH, synW, r, i, j)
  }

  /** The record synthesizePixel stores for the compatible exemplar position (j, i). */
  function Match(s: seq<Pixel>, exW: nat, exH: nat, synW: nat, r: nat, weight: (int, int) -> real,
                 tw: seq<seq<Option<nat>>>, i: nat, j: nat): EXPPixel
    requires Scannable(s, exW, exH, synW, r, tw)
  {
    EXPPixel(PixelIndex(j, i), GaussScore(s, tw, ExemplarWindow(s, exW, exH, synW, r, i, j), r, weight))
  }

  /** What the exemplar scan records for position (j, i): its record when
      its window covers the target window, nothing otherwise. */
  function Entry(s: seq<Pixel>, exW: nat, exH: nat, synW: nat, r: nat, weight: (int, int) -> real,
                 tw: seq<seq<Option<nat>>>, i: nat, j: nat): (c: seq<EXPPixel>)
    requires Scannable(s, exW, exH, synW, r, tw)
    ensures |c| <= 1
  {
    if Compatible(tw, ExemplarWindow(s, exW, exH, synW, r, i, j)) then [Match(s, exW, exH, synW, r, weight, tw, i, j)] else []
  }

  /** The entry function of the exemplar scan for the target window tw. */
  function Entries(s: seq<Pixel>, exW: nat, exH: nat, synW: nat, r: nat, weight: (int, int) -> real,
                   tw: seq<seq<Option<nat>>>): (E: (nat, nat) -> seq<EXPPixel>)
    requires Scannable(s, exW, exH, synW, r, tw)
  {
    (i: nat, j: nat) => Entry(s, exW, exH, synW, r, weight, tw, i, j)
  }

  /** Each position records at most one entry, tagged with the position. */
  lemma EntriesShape(s: seq<Pixel>, exW: nat, exH: nat, synW: nat, r: nat, weight: (int, int) -> real,
                     tw: seq<seq<Option<nat>>>)
    requires Scannable(s, exW, exH, synW, r, tw)
    ensures Tagged(Entries(s, exW, exH, synW, r, weight, tw)) && AtMostOne(Entries(s, exW, exH, synW, r, weight, tw))
  {
  }

  /** The match candidates for the target window tw: every exemplar
      position, in row-major order, whose window covers tw. */
  function MatchCandidates(s: seq<Pixel>, exW: nat, exH: nat, synW: nat, r: nat, weight: (int, int) -> real,
                           tw: seq<seq<Option<nat>>>): seq<EXPPixel>
    requires Scannable(s, exW, exH, synW, r, tw)
  {
    GridScan(Entries(s, exW, exH, synW, r, weight, tw), exW, exH)
  }

  /** A record of a compatible exemplar position, scored against tw. */
  predicate IsMatch(s: seq<Pixel>, exW: nat, exH: nat, synW: nat, r: nat, weight: (int, int) -> real,
                    tw: seq<seq<Option<nat>>>, e: EXPPixel)
    requires Scannable(s, exW, exH, synW, r, tw)
  {
    e.idx.x < exW && e.idx.y < exH
    && Compatible(tw, ExemplarWindow(s, exW, exH, synW, r, e.idx.y, e.idx.x))
    && e == Match(s, exW, exH, synW, r, weight, tw, e.idx.y, e.idx.x)
  }

  /** The match candidates are exactly the records of the exemplar
      positions whose window covers every present cell of the target
      window, each scored by GaussScore; with positive weights no score is
      negative. */
  lemma MatchCandidatesCharacterized(s: seq<Pixel>, exW: nat, exH: nat, synW: nat, r: nat, weight: (int, int) -> real,
                                     tw: seq<seq<Option<nat>>>)
    requires Scannable(s, exW, exH, synW, r, tw)
    ensures forall k :: 0 <= k < |MatchCandidates(s, exW, exH, synW, r, weight, tw)| ==>
      IsMatch(s, exW, exH, synW, r, weight, tw, MatchCandidates(s, exW, exH, synW, r, weight, tw)[k])
    ensures forall x: nat, y: nat :: x < exW && y < exH && Compatible(tw, ExemplarWindow(s, exW, exH, synW, r, y, x)) ==>
      Match(s, exW, exH, synW, r, weight, tw, y, x) in MatchCandidates(s, exW, exH, synW, r, weight, tw)
    ensures PositiveWeights(weight) ==>
      forall k :: 0 <= k < |MatchCandidates(s, exW, exH, synW, r, weight, tw)| ==>
        MatchCandidates(s, exW, exH, synW, r, weight, tw)[k].gaussScore >= 0.0
  {
    var E := Entries(s, exW, exH, synW, r, weight, tw);
    var C := MatchCandidates(s, exW, exH, synW, r, weight, tw);
    EntriesShape(s, exW, exH, synW, r, weight, tw);
    GridScanSound(E, exW, exH);
    forall k | 0 <= k < |C|
      ensures IsMatch(s, exW, exH, synW, r, weight, tw, C[k])
    {
      assert C[k] in Entry(s, exW, exH, synW, r, weight, tw, C[k].idx.y, C[k].idx.x);
    }
    forall x: nat, y: nat | x < exW && y < exH && Compatible(tw, ExemplarWindow(s, exW, exH, synW, r, y, x))
      ensures Match(s, exW, exH, synW, r, weight, tw, y, x) in C
    {
      assert Match(s, exW, exH, synW, r, weight, tw, y, x) in E(y, x);
      GridScanComplete(E, exW, exH, y, x, Match(s, exW, exH, synW, r, weight, tw, y, x));
    }
    if PositiveWeights(weight) {
      forall k | 0 <= k < |C|
        ensures C[k].gaussScore >= 0.0
      {
        GaussScoreSign(s, tw, ExemplarWindow(s, exW, exH, synW, r, C[k].idx.y, C[k].idx.x), r, weight);
      }
    }
  }

  /** Every match candidate is a position of the exemplar footprint. */
  lemma CandidatesInFootprint(s: seq<Pixel>, exW: nat, exH: nat, synW: nat, r: nat, weight: (int, int) -> real,
                              tw: seq<seq<Option<nat>>>)
    requires Scannable(s, exW, exH, synW, r, tw)
    ensures forall e :: e in MatchCandidates(s, exW, exH, synW, r, weight, tw) ==> e.idx.x < exW && e.idx.y < exH
  {
    EntriesShape(s, exW, exH, synW, r, weight, tw);
    GridScanSound(Entries(s, exW, exH, synW, r, weight, tw), exW, exH);
  }

  /** The offset of an in-bounds position in a canvas whose rows are w long. */
  function Offset(idx: PixelIndex, w: nat, h: nat): (k: nat)
    requires idx.x < w && idx.y < h
    ensures k < w * h
  {
    FlatIndexBounds(idx.x, idx.y, w, h);
    idx.y * w + idx.x
  }

  /** The canvas synthesizePixel leaves for the target position and the
      random value draw: the target painted with the colour of the chosen
      candidate, or None when there is no candidate to choose from. */
  function Paint(s: seq<Pixel>, exW: nat, exH: nat, synW: nat, synH: nat, r: nat, weight: (int, int) -> real,
                 target: PixelIndex, draw: nat): (u: Option<seq<Pixel>>)
    requires Layout(s, exW, exH, synW, synH) && target.x < synW && target.y < synH
    ensures u.Some? ==> |u.value| == |s|
  {
    var tw := Window(s, synW, synH, synW, r, target.y, target.x);
    var C := MatchCandidates(s, exW, exH, synW, r, weight, tw);
    match Select(C, draw)
    case None => None
    case Some(e) =>
      CandidatesInFootprint(s, exW, exH, synW, r, weight, tw);
      Some(s[Offset(target, synW, synH) := Painted(s[Offset(e.idx, synW, synH)])])
  }

  /** One step of synthesizePixel changes exactly the target pixel, from
      unset to set, copying the colour of a compatible position of the
      exemplar footprint whose score is within 10% of the best; with
      positive weights it fails exactly when no exemplar position is
      compatible with the target window. */
  lemma PaintSpec(s: seq<Pixel>, exW: nat, exH: nat, synW: nat, synH: nat, r: nat, weight: (int, int) -> real,
                  target: PixelIndex, draw: nat)
    requires Layout(s, exW, exH, synW, synH) && target.x < synW && target.y < synH
    ensures Paint(s, exW, exH, synW, synH, r, weight, target, draw).Some? ==>
      exists e :: e in MatchCandidates(s, exW, exH, synW, r, weight, Window(s, synW, synH, synW, r, target.y, target.x))
        && IsMatch(s, exW, exH, synW, r, weight, Window(s, synW, synH, synW, r, target.y, target.x), e)
        && Paint(s, exW, exH, synW, synH, r, weight, target, draw).value
           == s[Offset(target, synW, synH) := Painted(s[Offset(e.idx, synW, synH)])]
    ensures PositiveWeights(weight) ==>
      (Paint(s, exW, exH, synW, synH, r, weight, target, draw).None? <==>
       forall x: nat, y: nat :: x < exW && y < exH ==>
         !Compatible(Window(s, synW, synH, synW, r, target.y, target.x), ExemplarWindow(s, exW, exH, synW, r, y, x)))
  {
    var tw := Window(s, synW, synH, synW, r, target.y, target.x);
    var C := MatchCandidates(s, exW, exH, synW, r, weight, tw);
    MatchCandidatesCharacterized(s, exW, exH, synW, r, weight, tw);
    if Select(C, draw).Some? {
      var e := Select(C, draw).value;
      var k :| 0 <= k < |C| && C[k] == e;
      assert IsMatch(s, exW, exH, synW, r, weight, tw, e);
    }
    if PositiveWeights(weight) {
      SelectSpec(C, draw);
      if |C| > 0 {
        var e := C[0];
        assert IsMatch(s, exW, exH, synW, r, weight, tw, e);
      }
    }
  }

  /** A successful step sets the target pixel and leaves every other pixel as it was. */
  lemma PaintChangesOnlyTarget(s: seq<Pixel>, exW: nat, exH: nat, synW: nat, synH: nat, r: nat, weight: (int, int) -> real,
                               target: PixelIndex, draw: nat)
    requires Layout(s, exW, exH, synW, synH) && target.x < synW && target.y < synH
    ensures Paint(s, exW, exH, synW, synH, r, weight, target, draw).Some? ==>
      Paint(s, exW, exH, synW, synH, r, weight, target, draw).value[Offset(target, synW, synH)].a == SET
      && forall k :: 0 <= k < |s| && k != Offset(target, synW, synH) ==>
           Paint(s, exW, exH, synW, synH, r, weight, target, draw).value[k] == s[k]
  {
  }

  /** tbsWindow is an allocated window of radius r holding tw. */
  predicate HoldsWindow(tbsWindow: array2<Option<nat>>, r: nat, tw: seq<seq<Option<nat>>>)
    reads tbsWindow
  {
    tbsWindow.Length0 == Side(r) && tbsWindow.Length1 == Side(r) && Contents(tbsWindow) == tw
  }

  /** The body of the exemplar scan of synthesizePixel at position (j, i):
      build the window, count the target cells it misses and, when none is
      missed, score it. */
  method ExemplarEntry(synthesized: Image, exW: nat, exH: nat, synW: nat, r: nat, weight: (int, int) -> real,
                       tbsWindow: array2<Option<nat>>, i: nat, j: nat, ghost tw: seq<seq<Option<nat>>>)
      returns (found: bool, e: EXPPixel)
    requires Scannable(synthesized.pixels[..], exW, exH, synW, r, tw) && HoldsWindow(tbsWindow, r, tw)
    ensures found == (Entry(synthesized.pixels[..], exW, exH, synW, r, weight, tw, i, j) != [])
    ensures found ==> Entry(synthesized.pixels[..], exW, exH, synW, r, weight, tw, i, j) == [e]
  {
    var centre: nat := i * synW + j;
    var expPixelWindow := new Option<nat>[Side(r), Side(r)];
    expPixelWindow[r, r] := Some(centre);
    CreatePixelWindow(expPixelWindow, synthesized, exW, exH, synW, r, i, j);
    var different := CountMissing(expPixelWindow, tbsWindow, Side(r));
    found := different == 0;
    e := EXPPixel(PixelIndex(j, i), 0.0);
    if found {
      var score := FindGaussScore(synthesized, tbsWindow, expPixelWindow, r, weight);
      e := EXPPixel(PixelIndex(j, i), score);
    }
  }

  /** The exemplar scan of synthesizePixel at position (j, i): the entry,
      when there is one, is recorded. */
  method VisitExemplarPixel(synthesized: Image, exW: nat, exH: nat, synW: nat, r: nat, weight: (int, int) -> real,
                            tbsWindow: array2<Option<nat>>, expPixelArr: array<EXPPixel>, counter: nat,
                            i: nat, j: nat, ghost tw: seq<seq<Option<nat>>>, ghost done: seq<EXPPixel>)
      returns (counter': nat)
    requires Scannable(synthesized.pixels[..], exW, exH, synW, r, tw) && HoldsWindow(tbsWindow, r, tw)
    requires j < exW && counter + (exW - j) <= expPixelArr.Length
    requires expPixelArr[..counter] == done + RowScan(Entries(synthesized.pixels[..], exW, exH, synW, r, weight, tw), i, j)
    modifies expPixelArr
    ensures counter' + (exW - (j + 1)) <= expPixelArr.Length
    ensures expPixelArr[..counter'] == done + RowScan(Entries(synthesized.pixels[..], exW, exH, synW, r, weight, tw), i, j + 1)
  {
    ghost var s := synthesized.pixels[..];
    ghost var E := Entries(s, exW, exH, synW, r, weight, tw);
    RowScanStep(E, i, j, done);
    assert E(i, j) == Entry(s, exW, exH, synW, r, weight, tw, i, j);
    var found, e := ExemplarEntry(synthesized, exW, exH, synW, r, weight, tbsWindow, i, j, tw);
    counter' := counter;
    if found {
      expPixelArr[counter] := e;
      counter' := counter + 1;
    }
  }

  /** The exemplar scan of synthesizePixel over row i. */
  method VisitExemplarRow(synthesized: Image, exW: nat, exH: nat, synW: nat, r: nat, weight: (int, int) -> real,
                          tbsWindow: array2<Option<nat>>, expPixelArr: array<EXPPixel>, counter: nat,
                          i: nat, ghost tw: seq<seq<Option<nat>>>, ghost done: seq<EXPPixel>)
      returns (counter': nat)
    requires Scannable(synthesized.pixels[..], exW, exH, synW, r, tw) && HoldsWindow(tbsWindow, r, tw)
    requires counter + exW <= expPixelArr.Length && expPixelArr[..counter] == done
    modifies expPixelArr
    ensures counter' <= expPixelArr.Length
    ensures expPixelArr[..counter'] == done + RowScan(Entries(synthesized.pixels[..], exW, exH, synW, r, weight, tw), i, exW)
  {
    counter' := counter;
    for j := 0 to exW
      invariant counter' + (exW - j) <= expPixelArr.Length
      invariant expPixelArr[..counter'] == done + RowScan(Entries(synthesized.pixels[..], exW, exH, synW, r, weight, tw), i, j)
    {
      counter' := VisitExemplarPixel(synthesized, exW, exH, synW, r, weight, tbsWindow, expPixelArr, counter',
                                     i, j, tw, done);
    }
  }

  /** The exemplar scan of synthesizePixel: the records of every exemplar
      position compatible with the target window, in row-major order. */
  method CollectCandidates(synthesized: Image, exW: nat, exH: nat, synW: nat, r: nat, weight: (int, int) -> real,
                           tbsWindow: array2<Option<nat>>, ghost tw: seq<seq<Option<nat>>>)
      returns (expPixelArr: array<EXPPixel>, counter: nat)
    requires Scannable(synthesized.pixels[..], exW, exH, synW, r, tw) && HoldsWindow(tbsWindow, r, tw)
    ensures fresh(expPixelArr) && counter <= expPixelArr.Length
    ensures expPixelArr[..counter] == MatchCandidates(synthesized.pixels[..], exW, exH, synW, r, weight, tw)
  {
    ghost var s := synthesized.pixels[..];
    ghost var E := Entries(s, exW, exH, synW, r, weight, tw);
    EntriesShape(s, exW, exH, synW, r, weight, tw);
    expPixelArr := new EXPPixel[exH * exW];
    counter := 0;
    for i := 0 to exH
      invariant counter <= expPixelArr.Length
      invariant expPixelArr[..counter] == GridScan(E, exW, i)
    {
      GridScanRoom(E, exW, exH, i);
      assert counter + exW <= expPixelArr.Length;
      counter := VisitExemplarRow(synthesized, exW, exH, synW, r, weight, tbsWindow, expPixelArr, counter,
                                  i, tw, GridScan(E, exW, i));
    }
  }

  /** synthesizePixel for the target tbsPixelArr[0] and the value draw of
      rand(). Where the C code would take rand() % 0 the model reports
      failure and leaves the canvas unchanged. */
  method SynthesizePixel(tbsPixelArr: array<TBSPixel>, synthesized: Image, exW: nat, exH: nat, synW: nat, synH: nat,
                         r: nat, weight: (int, int) -> real, draw: nat) returns (ok: bool)
    requires tbsPixelArr.Length > 0
    requires synthesized.Valid() && synthesized.width == synW && synthesized.height == synH
    requires Layout(synthesized.pixels[..], exW, exH, synW, synH)
    requires tbsPixelArr[0].idx.x < synW && tbsPixelArr[0].idx.y < synH
    requires synthesized.pixels[Offset(tbsPixelArr[0].idx, synW, synH)].a != SET
    modifies synthesized.pixels
    ensures ok == Paint(old(synthesized.pixels[..]), exW, exH, synW, synH, r, weight, tbsPixelArr[0].idx, draw).Some?
    ensures ok ==>
      synthesized.pixels[..] == Paint(old(synthesized.pixels[..]), exW, exH, synW, synH, r, weight, tbsPixelArr[0].idx, draw).value
    ensures !ok ==> synthesized.pixels[..] == old(synthesized.pixels[..])
  {
    ghost var s := synthesized.pixels[..];
    var target := tbsPixelArr[0].idx;
    var oldPixel := Offset(target, synW, synH);
    var tbsPixelWindow := new Option<nat>[Side(r), Side(r)];
    tbsPixelWindow[r, r] := Some(oldPixel);
    CreatePixelWindow(tbsPixelWindow, synthesized, synW, synH, synW, r, target.y, target.x);
    ghost var tw := Window(s, synW, synH, synW, r, target.y, target.x);
    var expPixelArr: array<EXPPixel>, counter: nat := CollectCandidates(synthesized, exW, exH, synW, r, weight, tbsPixelWindow, tw);
    var best := FindBestExemplarPix(expPixelArr, counter, draw);
    if best.None? {
      return false;
    }
    MatchCandidatesCharacterized(s, exW, exH, synW, r, weight, tw);
    var newPixel := synthesized.pixels[Offset(best.value.idx, synW, synH)];
    SetPixel(synthesized.pixels, oldPixel, newPixel);
    ok := true;
  }
}
