/** setPixel and the seeding half of SynthesizeFromExemplar: every canvas
    pixel starts unset on a uniform background, then the exemplar is
    copied into the top-left corner and marked set. */
module Seeding {
  import opened Images

  /** The pixel setPixel writes: the new colour, marked set. */
  function Painted(colour: Pixel): (p: Pixel)
    ensures SameColour(p, colour) && p.a == SET
  {
    colour.(a := SET)
  }

  /** setPixel on the pixel at offset k of the buffer. The C code asserts
      that the pixel is not set yet. */
  method SetPixel(pixels: array<Pixel>, k: nat, newColour: Pixel)
    requires k < pixels.Length && pixels[k].a != SET
    modifies pixels
    ensures pixels[..] == old(pixels[..])[k := Painted(newColour)]
  {
    pixels[k] := pixels[k].(r := newColour.r, g := newColour.g, b := newColour.b, a := SET);
  }

  /** The unset background: grey when verbose, black otherwise. */
  function Background(verbose: bool): Pixel
  {
    if verbose then Pixel(50, 50, 50, 0) else Pixel(0, 0, 0, 0)
  }

  /** The canvas offset k has been copied from the exemplar once the copy
      loop has reached row i, column j: it lies in the exemplar's footprint
      and comes before (j, i) in row-major order. */
  predicate Copied(exW: nat, exH: nat, outW: nat, i: nat, j: nat, k: int)
    requires outW > 0
  {
    k / outW < exH && k % outW < exW && (k / outW < i || (k / outW == i && k % outW < j))
  }

  /** The canvas of n pixels, rows outW long, once the copy loop has
      reached row i, column j. */
  function Seeding(ex: seq<Pixel>, exW: nat, exH: nat, outW: nat, n: nat, verbose: bool, i: nat, j: nat): (s: seq<Pixel>)
    requires |ex| == exW * exH
    ensures |s| == n
  {
    seq(n, k =>
      if outW > 0 && 0 <= k && Copied(exW, exH, outW, i, j, k) then
        FlatIndexBounds(k % outW, k / outW, exW, exH);
        Painted(ex[(k / outW) * exW + k % outW])
      else Background(verbose))
  }

  /** The canvas after seeding: outW x outH pixels with the exemplar in the corner. */
  function Seeded(ex: seq<Pixel>, exW: nat, exH: nat, outW: nat, outH: nat, verbose: bool): (s: seq<Pixel>)
    requires |ex| == exW * exH
    ensures |s| == outW * outH
  {
    Seeding(ex, exW, exH, outW, outW * outH, verbose, exH, 0)
  }

  /** After seeding, a position in the exemplar's footprint holds the
      exemplar's colour, set; every other position holds the background, unset. */
  lemma SeededAt(ex: seq<Pixel>, exW: nat, exH: nat, outW: nat, outH: nat, verbose: bool, x: nat, y: nat)
    requires |ex| == exW * exH && x < outW && y < outH
    ensures y * outW + x < outW * outH
    ensures x < exW && y < exH ==>
      y * exW + x < |ex| && Seeded(ex, exW, exH, outW, outH, verbose)[y * outW + x] == Painted(ex[y * exW + x])
    ensures !(x < exW && y < exH) ==> Seeded(ex, exW, exH, outW, outH, verbose)[y * outW + x] == Background(verbose)
  {
    FlatIndexBounds(x, y, outW, outH);
    FlatIndexDivMod(x, y, outW);
    if x < exW && y < exH {
      FlatIndexBounds(x, y, exW, exH);
    }
  }

  /** Copying pixel (j, i) moves the loop one column on. */
  lemma SeedingStep(ex: seq<Pixel>, exW: nat, exH: nat, outW: nat, outH: nat, verbose: bool, i: nat, j: nat)
    requires |ex| == exW * exH && exW <= outW && exH <= outH && i < exH && j < exW
    ensures i * outW + j < outW * outH && i * exW + j < |ex|
    ensures Seeding(ex, exW, exH, outW, outW * outH, verbose, i, j)[i * outW + j] == Background(verbose)
    ensures Seeding(ex, exW, exH, outW, outW * outH, verbose, i, j)[i * outW + j := Painted(ex[i * exW + j])]
            == Seeding(ex, exW, exH, outW, outW * outH, verbose, i, j + 1)
  {
    FlatIndexBounds(j, i, outW, outH);
    FlatIndexBounds(j, i, exW, exH);
    FlatIndexDivMod(j, i, outW);
    var n := outW * outH;
    var before := Seeding(ex, exW, exH, outW, n, verbose, i, j);
    var after := Seeding(ex, exW, exH, outW, n, verbose, i, j + 1);
    forall k | 0 <= k < n && k != i * outW + j
      ensures before[k] == after[k]
    {
      CopiedStep(exW, exH, outW, i, j, k);
    }
    assert Copied(exW, exH, outW, i, j + 1, i * outW + j);
  }

  /** Only the offset of (j, i) changes state when the loop moves past it. */
  lemma CopiedStep(exW: nat, exH: nat, outW: nat, i: nat, j: nat, k: nat)
    requires outW > 0 && j < outW && k != i * outW + j
    ensures Copied(exW, exH, outW, i, j, k) == Copied(exW, exH, outW, i, j + 1, k)
  {
    assert k == (k / outW) * outW + k % outW;
  }

  /** Finishing a row of the exemplar is starting the next one. */
  lemma SeedingRow(ex: seq<Pixel>, exW: nat, exH: nat, outW: nat, n: nat, verbose: bool, i: nat)
    requires |ex| == exW * exH && exW <= outW
    ensures Seeding(ex, exW, exH, outW, n, verbose, i, exW) == Seeding(ex, exW, exH, outW, n, verbose, i + 1, 0)
  {
    var a, b := Seeding(ex, exW, exH, outW, n, verbose, i, exW), Seeding(ex, exW, exH, outW, n, verbose, i + 1, 0);
    assert forall k :: 0 <= k < n ==> a[k] == b[k];
  }

  /** Before the copy loop the canvas is all background. */
  lemma SeedingStart(ex: seq<Pixel>, exW: nat, exH: nat, outW: nat, n: nat, verbose: bool)
    requires |ex| == exW * exH
    ensures Seeding(ex, exW, exH, outW, n, verbose, 0, 0) == seq(n, _ => Background(verbose))
  {
  }

  /** The background loop of SynthesizeFromExemplar. */
  method FillBackground(pixels: array<Pixel>, verbose: bool)
    modifies pixels
    ensures pixels[..] == seq(pixels.Length, _ => Background(verbose))
  {
    for i := 0 to pixels.Length
      invariant forall k :: 0 <= k < i ==> pixels[k] == Background(verbose)
    {
      if verbose {
        pixels[i] := Pixel(50, 50, 50, 0);
      } else {
        pixels[i] := Pixel(0, 0, 0, 0);
      }
    }
  }

  /** The copy loop of SynthesizeFromExemplar, row i: setPixel on every
      pixel of the exemplar's row i. */
  method CopyRow(exemplar: Image, synthesized: Image, verbose: bool, i: nat)
    requires exemplar.Valid() && synthesized.Valid()
    requires exemplar.width <= synthesized.width && exemplar.height <= synthesized.height && i < exemplar.height
    requires synthesized.pixels != exemplar.pixels
    requires synthesized.pixels[..] == Seeding(exemplar.pixels[..], exemplar.width, exemplar.height,
      synthesized.width, synthesized.pixels.Length, verbose, i, 0)
    modifies synthesized.pixels
    ensures synthesized.pixels[..] == Seeding(exemplar.pixels[..], exemplar.width, exemplar.height,
      synthesized.width, synthesized.pixels.Length, verbose, i + 1, 0)
  {
    ghost var ex := exemplar.pixels[..];
    var exW, exH, outW := exemplar.width, exemplar.height, synthesized.width;
    for j := 0 to exW
      invariant synthesized.pixels[..] == Seeding(ex, exW, exH, outW, synthesized.pixels.Length, verbose, i, j)
    {
      SeedingStep(ex, exW, exH, outW, synthesized.height, verbose, i, j);
      var exPixel := exemplar.pixels[i * exW + j];
      SetPixel(synthesized.pixels, i * outW + j, exPixel);
    }
    SeedingRow(ex, exW, exH, outW, synthesized.pixels.Length, verbose, i);
  }

  /** The seeding half of SynthesizeFromExemplar: allocate the outW x outH
      canvas, fill it with the background, then copy the exemplar into its
      top-left corner. */
  method Seed(exemplar: Image, outW: nat, outH: nat, verbose: bool) returns (synthesized: Image)
    requires exemplar.Valid() && exemplar.width <= outW && exemplar.height <= outH
    ensures fresh(synthesized) && fresh(synthesized.pixels)
    ensures synthesized.Valid() && synthesized.width == outW && synthesized.height == outH
    ensures synthesized.pixels[..] == Seeded(exemplar.pixels[..], exemplar.width, exemplar.height, outW, outH, verbose)
  {
    synthesized := new Image(outW, outH);
    FillBackground(synthesized.pixels, verbose);
    ghost var ex := exemplar.pixels[..];
    SeedingStart(ex, exemplar.width, exemplar.height, outW, outW * outH, verbose);
    for i := 0 to exemplar.height
      invariant synthesized.pixels[..] == Seeding(ex, exemplar.width, exemplar.height, outW, outW * outH, verbose, i, 0)
    {
      CopyRow(exemplar, synthesized, verbose, i);
    }
  }
}
