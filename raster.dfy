/** In-memory raster images, as PIL holds them once loaded: an RGB image is a
    grid of (r, g, b) pixels, a single-band ('L' mode) image a grid of bytes.
    The grid is stored row-major, so pixel (x, y) sits at index y * width + x. */
module Raster {
  import opened Common

  datatype Pixel = Pixel(r: byte, g: byte, b: byte)

  datatype Raster<T> = Raster(width: nat, height: nat, data: seq<T>) {
    predicate Valid() { |data| == width * height }

    /** Python's pixels[x, y]. */
    function At(x: nat, y: nat): (p: T)
      requires Valid() && x < width && y < height
    {
      RowMajorIndex(x, y, width, height);
      data[y * width + x]
    }

    predicate SameShape<U>(other: Raster<U>) {
      width == other.width && height == other.height && |data| == |other.data|
    }
  }

  /** An RGB image. */
  type Image = Raster<Pixel>
  /** A single-band 8-bit image. */
  type Plane = Raster<byte>

  /** Row-major indexing stays inside the grid. */
  lemma RowMajorIndex(x: nat, y: nat, width: nat, height: nat)
    requires x < width && y < height
    ensures y * width + x < width * height
  {
    assert y * width + x < (y + 1) * width;
    MulLe(y + 1, height, width);
  }

  lemma {:induction false} MulLe(a: nat, b: nat, c: nat)
    requires a <= b
    ensures a * c <= b * c
  {
    if a < b {
      MulLe(a, b - 1, c);
      assert b * c == (b - 1) * c + c;
    }
  }

  /** The image obtained by applying f to every pixel (PIL's Image.point). */
  function MapRaster<T, U>(img: Raster<T>, f: T -> U): (res: Raster<U>)
    ensures res.width == img.width && res.height == img.height
    ensures |res.data| == |img.data|
    ensures forall k :: 0 <= k < |img.data| ==> res.data[k] == f(img.data[k])
  {
    Raster(img.width, img.height, seq(|img.data|, k requires 0 <= k < |img.data| => f(img.data[k])))
  }
}
