/**
 * The pixel buffer of an HDR image (PGENLib/HdrImage.cs): a row-major array
 * of colours together with the image's width and height. In the source the
 * width and height are static fields, shared by every image; here they live
 * in an `ImageDimensions` object the constructor receives. Sharing one such
 * object among all images is the caller's convention (see `SharedDimensions`).
 */
module HdrImages {
  import opened Numerics

  /** An RGB colour. */
  datatype Color = Color(r: real, g: real, b: real)

  /** The colour `new Color()` builds: black. */
  const Black := Color(0.0, 0.0, 0.0)

  /** Row-major position of pixel (x, y) in an image `width` columns wide. */
  function RowMajor(width: int, x: int, y: int): int
  {
    y * width + x
  }

  /** A multiple of a positive w by a non-zero integer is at least w away from 0. */
  lemma ScaledAtLeast(k: int, w: int)
    ensures k >= 1 && w > 0 ==> k * w >= w
    ensures k <= -1 && w > 0 ==> k * w <= -w
  {
    if k >= 1 && w > 0 {
      assert k * w == (k - 1) * w + w;
    } else if k <= -1 && w > 0 {
      assert k * w == -((-k - 1) * w) - w;
    }
  }

  /** The only multiple of a positive w strictly between -w and w is 0. */
  lemma SmallMultipleIsZero(k: int, w: int)
    requires w > 0 && -w < k * w < w
    ensures k == 0
  {
    ScaledAtLeast(k, w);
  }

  /** Column and row are recovered from a row-major position by remainder and quotient. */
  lemma RowMajorInverse(width: int, x: int, y: int)
    requires 0 <= x < width
    ensures RowMajor(width, x, y) / width == y
    ensures RowMajor(width, x, y) % width == x
  {
    var offset := RowMajor(width, x, y);
    var q, r := offset / width, offset % width;
    assert offset == q * width + r && 0 <= r < width;
    assert (q - y) * width == x - r;
    SmallMultipleIsZero(q - y, width);
  }

  /** Distinct in-row coordinates have distinct row-major positions. */
  lemma RowMajorInjective(width: int, x1: int, y1: int, x2: int, y2: int)
    requires 0 <= x1 < width && 0 <= x2 < width
    requires RowMajor(width, x1, y1) == RowMajor(width, x2, y2)
    ensures x1 == x2 && y1 == y2
  {
    RowMajorInverse(width, x1, y1);
    RowMajorInverse(width, x2, y2);
  }

  /** A pixel inside a width x height image has a position inside the first width * height slots. */
  lemma RowMajorBounds(width: int, height: int, x: int, y: int)
    requires 0 <= x < width && 0 <= y < height
    ensures 0 <= RowMajor(width, x, y) < width * height
  {
    assert 0 <= y * width by {
      if y > 0 {
        ScaledAtLeast(y, width);
      }
    }
    ScaledAtLeast(height - y, width);
    assert width * height == y * width + (height - y) * width;
  }

  /** The static `width` and `height` every HdrImage reads. */
  class ImageDimensions {
    var width: int
    var height: int

    constructor()
      ensures width == 0 && height == 0
    {
      width := 0;
      height := 0;
    }
  }

  class HdrImage {
    const dims: ImageDimensions
    var pixels: array<Color>

    /**
     * `new HdrImage(width, height, pixels)`: stores the dimensions in the
     * shared state, keeps the caller's array (no copy) and blanks its first
     * width * height slots. The source indexes the array without a check,
     * so the caller must supply at least that many slots.
     */
    constructor(dims: ImageDimensions, widthConstr: int, heightConstr: int, pixels: array<Color>)
      requires widthConstr * heightConstr <= pixels.Length
      modifies dims, pixels
      ensures this.dims == dims && this.pixels == pixels
      ensures dims.width == widthConstr && dims.height == heightConstr
      ensures forall i :: 0 <= i < pixels.Length ==>
                pixels[i] == (if i < widthConstr * heightConstr then Black else old(pixels[i]))
    {
      this.dims := dims;
      this.pixels := pixels;
      new;
      dims.width := widthConstr;
      dims.height := heightConstr;
      var col := Black;
      var i := 0;
      while i < dims.width * dims.height
        invariant dims.width == widthConstr && dims.height == heightConstr
        invariant this.dims == dims && this.pixels == pixels
        invariant 0 <= i && (i <= widthConstr * heightConstr || i == 0)
        invariant forall k :: 0 <= k < pixels.Length ==>
                    pixels[k] == (if k < i then Black else old(pixels[k]))
      {
        pixels[i] := col;
        i := i + 1;
      }
    }

    /**
     * The coordinate check exactly as the source writes it: both coordinates
     * strictly positive and both below the width (the height is not consulted).
     */
    predicate ValidCoord(x: int, y: int)
      reads dims
    {
      x > 0 && y > 0 && x < dims.width && y < dims.width
    }

    /** The check the source's documentation describes: 0 <= x < width and 0 <= y < height. */
    predicate InBounds(x: int, y: int)
      reads dims
    {
      0 <= x < dims.width && 0 <= y < dims.height
    }

    /**
     * Position of pixel (x, y) in the buffer, row by row. The row and the
     * column are recovered from it, and it lies inside the first
     * width * height slots whenever y is a real row.
     */
    function PixelOffset(x: int, y: int): (offset: int)
      reads dims
      requires ValidCoord(x, y)
      ensures offset > 0
      ensures offset / dims.width == y && offset % dims.width == x
      ensures y < dims.height ==> offset < dims.width * dims.height
    {
      RowMajorInverse(dims.width, x, y);
      ScaledAtLeast(y, dims.width);
      if y < dims.height then
        RowMajorBounds(dims.width, dims.height, x, y);
        RowMajor(dims.width, x, y)
      else
        RowMajor(dims.width, x, y)
    }

    /** Two coordinates the check accepts share a slot only if they are equal. */
    lemma PixelOffsetInjective(x1: int, y1: int, x2: int, y2: int)
      requires ValidCoord(x1, y1) && ValidCoord(x2, y2)
      requires PixelOffset(x1, y1) == PixelOffset(x2, y2)
      ensures x1 == x2 && y1 == y2
    {
    }

    /** Coordinates inside the image address a slot the constructor required to exist. */
    lemma InBoundsOffsetFits(x: int, y: int)
      requires InBounds(x, y)
      ensures 0 <= RowMajor(dims.width, x, y) < dims.width * dims.height
    {
      RowMajorBounds(dims.width, dims.height, x, y);
    }

    /**
     * On a 3 x 2 image the check accepts (1, 2), a row that does not exist:
     * its offset 7 lies past the 6 slots of the image. It rejects (0, 0) and
     * (1, 0), which do exist.
     */
    lemma ValidCoordAdmitsMissingRow()
      requires dims.width == 3 && dims.height == 2
      ensures ValidCoord(1, 2) && !InBounds(1, 2)
      ensures PixelOffset(1, 2) == 7 && PixelOffset(1, 2) >= dims.width * dims.height
      ensures InBounds(0, 0) && !ValidCoord(0, 0)
      ensures InBounds(1, 0) && !ValidCoord(1, 0)
    {
    }

    /** The colour stored for pixel (x, y). */
    function GetPixel(x: int, y: int): Color
      reads this, dims, pixels
      requires ValidCoord(x, y) && PixelOffset(x, y) < pixels.Length
    {
      pixels[PixelOffset(x, y)]
    }

    /**
     * Right after construction (the first width * height slots hold the
     * default colour) every accepted pixel on a real row reads black.
     */
    lemma BlankImageReadsBlack(x: int, y: int)
      requires ValidCoord(x, y) && y < dims.height && dims.width * dims.height <= pixels.Length
      requires forall i :: 0 <= i < dims.width * dims.height ==> pixels[i] == Black
      ensures GetPixel(x, y) == Black
    {
    }

    /**
     * Stores `newCol` for pixel (x, y): only that one slot of the buffer
     * changes, so (x, y) now reads `newCol` and every other pixel reads as
     * before.
     */
    method SetPixel(x: int, y: int, newCol: Color)
      requires ValidCoord(x, y) && PixelOffset(x, y) < pixels.Length
      modifies pixels
      ensures pixels[..] == old(pixels[..])[PixelOffset(x, y) := newCol]
      ensures GetPixel(x, y) == newCol
      ensures forall x', y' :: ValidCoord(x', y') && PixelOffset(x', y') < pixels.Length && (x' != x || y' != y) ==>
                GetPixel(x', y') == old(GetPixel(x', y'))
    {
      pixels[PixelOffset(x, y)] := newCol;
      forall x', y' | ValidCoord(x', y') && PixelOffset(x', y') < pixels.Length && (x' != x || y' != y)
        ensures GetPixel(x', y') == old(GetPixel(x', y'))
      {
        if PixelOffset(x', y') == PixelOffset(x, y) {
          PixelOffsetInjective(x', y', x, y);
        }
      }
    }
  }

  /**
   * Building a second image rewrites the dimensions the first one reads:
   * after a 2 x 2 image and then a 4 x 1 image, the first image accepts the
   * coordinate (3, 1), which is outside its own 2 x 2 grid.
   */
  method SharedDimensions() returns (first: HdrImage, second: HdrImage)
    ensures first.dims == second.dims
    ensures first.dims.width == 4 && first.dims.height == 1
    ensures first.ValidCoord(3, 1)
  {
    var dims := new ImageDimensions();
    var firstPixels := new Color[4](_ => Black);
    first := new HdrImage(dims, 2, 2, firstPixels);
    assert !first.ValidCoord(3, 1);
    var secondPixels := new Color[4](_ => Black);
    second := new HdrImage(dims, 4, 1, secondPixels);
  }

  /**
   * The sign of a PFM file's scale factor: 1 (big-endian) for a positive
   * value, -1 (little-endian) for a negative one. The source rejects zero
   * with an assertion, so its third answer, 0, is never returned.
   */
  function ParseEndianness(endianness: real): (r: int)
    requires endianness != 0.0
    ensures r == 1 <==> endianness > 0.0
    ensures r == -1 <==> endianness < 0.0
    ensures r == 1 || r == -1
  {
    var littleEnd := -1;
    var bigEnd := 1;
    SignQuotient(endianness);
    var end := endianness / Abs(endianness);
    if end > 0.0 then bigEnd
    else if end < 0.0 then littleEnd
    else 0
  }

  /** Dividing a non-zero value by its magnitude gives its sign, +1 or -1. */
  lemma SignQuotient(e: real)
    requires e != 0.0
    ensures e > 0.0 ==> e / Abs(e) == 1.0
    ensures e < 0.0 ==> e / Abs(e) == -1.0
  {
    var q := e / Abs(e);
    DivTimes(e, Abs(e));
    if e < 0.0 {
      CancelFactor(q, -1.0, Abs(e));
    } else {
      CancelFactor(q, 1.0, Abs(e));
    }
  }
}
