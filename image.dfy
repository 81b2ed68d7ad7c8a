/** Pixels, pixel indices and the row-major canvas of image.h and image.c. */
module Images {
  import opened Wrappers

  /** An `unsigned char`. */
  newtype byte = x: int | 0 <= x < 256

  /** A colour sample: red, green and blue, plus the alpha channel that the
      synthesis uses as its set (255) / unset (0) flag. */
  datatype Pixel = Pixel(r: byte, g: byte, b: byte, a: byte)

  /** A (column, row) position; both coordinates are unsigned. */
  datatype PixelIndex = PixelIndex(x: nat, y: nat)

  /** The alpha value of a pixel that holds a committed colour. */
  const SET: byte := 255

  /** Two pixels agree on red, green and blue; alpha is not compared. */
  predicate SameColour(p: Pixel, q: Pixel)
  {
    p.r == q.r && p.g == q.g && p.b == q.b
  }

  /** An image whose pixels are laid out row by row. The dimensions and the
      pixel buffer are fixed at allocation; the pixels themselves change. */
  class Image {
    const width: nat
    const height: nat
    const pixels: array<Pixel>

    /** The buffer holds exactly one pixel per position. */
    predicate Valid()
    {
      pixels.Length == width * height
    }

    /** AllocateImage: the dimensions are stored as given and a buffer of
        width * height pixels, of unspecified contents, is allocated. */
    constructor (width: nat, height: nat)
      ensures this.width == width && this.height == height
      ensures Valid() && fresh(pixels)
    {
      this.width := width;
      this.height := height;
      pixels := new Pixel[width * height];
    }
  }

  /** Sum of the squared differences of the red, green and blue channels. */
  function PixelSquaredDifference(p1: Pixel, p2: Pixel): (d: int)
    ensures 0 <= d <= 3 * 255 * 255
    ensures d == 0 <==> SameColour(p1, p2)
  {
    var dr := p1.r as int - p2.r as int;
    var dg := p1.g as int - p2.g as int;
    var db := p1.b as int - p2.b as int;
    SquareOfByteDifference(dr);
    SquareOfByteDifference(dg);
    SquareOfByteDifference(db);
    dr * dr + dg * dg + db * db
  }

  /** The square of a difference of two bytes is between 0 and 255^2, and 0
      exactly when the difference is. */
  lemma SquareOfByteDifference(d: int)
    requires -255 <= d <= 255
    ensures 0 <= d * d <= 255 * 255
    ensures d * d == 0 <==> d == 0
  {
    var m := if d < 0 then -d else d;
    assert d * d == m * m;
    MulMonotone(m, 255, m);
    MulMonotone(m, 255, 255);
    if m > 0 {
      MulMonotone(1, m, m);
    }
  }

  lemma MulMonotone(a: int, b: int, c: nat)
    requires a <= b
    ensures a * c <= b * c
  {
    assert b * c - a * c == (b - a) * c;
  }

  /** The colour distance is symmetric. */
  lemma PixelSquaredDifferenceSymmetric(p1: Pixel, p2: Pixel)
    ensures PixelSquaredDifference(p1, p2) == PixelSquaredDifference(p2, p1)
  {
  }

  /** The colour distance does not depend on the alpha channel. */
  lemma PixelSquaredDifferenceIgnoresAlpha(p1: Pixel, p2: Pixel, a1: byte, a2: byte)
    ensures PixelSquaredDifference(p1, p2) == PixelSquaredDifference(p1.(a := a1), p2.(a := a2))
  {
  }

  /** A position is in bounds when it lies in [0, width) x [0, height). */
  function InBounds(img: Image, idx: PixelIndex): (b: bool)
    ensures b <==> idx.x < img.width && idx.y < img.height
    ensures b ==> idx.y * img.width + idx.x < img.width * img.height
  {
    if idx.x < img.width && idx.y < img.height then
      FlatIndexBounds(idx.x, idx.y, img.width, img.height);
      true
    else
      false
  }

  /** The offset of a position in the pixel buffer, or None (the NULL
      pointer) when the position is out of bounds. */
  function GetPixel(img: Image, idx: PixelIndex): (r: Option<nat>)
    ensures r.None? <==> !(idx.x < img.width && idx.y < img.height)
    ensures r.Some? ==> r.value == idx.y * img.width + idx.x
    ensures r.Some? && img.Valid() ==> r.value < img.pixels.Length
  {
    if !InBounds(img, idx) then None else Some(idx.y * img.width + idx.x)
  }

  /** The read-only accessor computes the same offset as GetPixel. */
  function GetConstPixel(img: Image, idx: PixelIndex): (r: Option<nat>)
    ensures r == GetPixel(img, idx)
  {
    if !InBounds(img, idx) then None else Some(idx.y * img.width + idx.x)
  }

  /** Distinct in-bounds positions address distinct pixels. */
  lemma GetPixelInjective(img: Image, i1: PixelIndex, i2: PixelIndex)
    requires GetPixel(img, i1).Some? && GetPixel(img, i2).Some?
    requires GetPixel(img, i1) == GetPixel(img, i2)
    ensures i1 == i2
  {
    FlatIndexDivMod(i1.x, i1.y, img.width);
    FlatIndexDivMod(i2.x, i2.y, img.width);
  }

  /** Every offset in the buffer is addressed by the position (k % width, k / width). */
  lemma GetPixelOnto(img: Image, k: nat)
    requires k < img.width * img.height
    ensures GetPixel(img, PixelIndex(k % img.width, k / img.width)) == Some(k)
  {
    var w := img.width;
    assert w > 0;
    var q, m := k / w, k % w;
    assert k == q * w + m;
    FlatIndexBounds(m, q, w, img.height);
  }

  /** Row-major offsets: y * w + x with x in [0, w) lies in [0, w * h)
      exactly when y lies in [0, h). */
  lemma FlatIndexBounds(x: int, y: int, w: nat, h: nat)
    requires 0 <= x < w
    ensures 0 <= y * w + x < w * h <==> 0 <= y < h
  {
    if y < 0 {
      MulMonotone(y, -1, w);
    } else if y < h {
      MulMonotone(y, h - 1, w);
      MulMonotone(0, y, w);
    } else {
      MulMonotone(h, y, w);
    }
  }

  /** Row-major offsets can be split back into row and column. */
  lemma FlatIndexDivMod(x: int, y: int, w: nat)
    requires 0 <= x < w
    ensures (y * w + x) / w == y && (y * w + x) % w == x
  {
    var k := y * w + x;
    var q, m := k / w, k % w;
    assert k == q * w + m && 0 <= m < w;
    assert (q - y) * w == x - m;
    if q > y {
      MulMonotone(1, q - y, w);
    } else if q < y {
      MulMonotone(q - y, -1, w);
    }
  }
}
