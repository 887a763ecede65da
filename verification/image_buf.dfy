/**
 * The parts of the `image` crate the mosaic core relies on: 8-bit RGB pixels
 * and pixel buffers stored row by row (`ImageBuffer<Rgb<u8>, Vec<u8>>`).
 */
module ImageBuf {

  /** A `u8` colour channel. */
  type Byte = x: int | 0 <= x < 256

  /** An `Rgb<u8>` pixel, or a `[u8; 3]` key: channels 0, 1, 2 are red, green, blue. */
  type Rgb = c: seq<Byte> | |c| == 3 witness [0, 0, 0]

  const BLACK: Rgb := [0, 0, 0]

  /** The fields of an image buffer; `pixels` holds the rows top to bottom, each left to right. */
  datatype Buffer = Buffer(width: nat, height: nat, pixels: seq<Rgb>)

  /** A well-formed buffer: exactly one pixel per coordinate. */
  type ImgBuffer = b: Buffer | |b.pixels| == b.width * b.height witness Buffer(0, 0, [])

  /** `ImgBuffer::default()`: the empty 0 x 0 image. */
  function Default(): ImgBuffer
  {
    Buffer(0, 0, [])
  }

  /** `get_pixel(x, y)`; the crate panics outside the image, so callers stay inside. */
  function GetPixel(img: ImgBuffer, x: nat, y: nat): Rgb
    requires x < img.width && y < img.height
  {
    RowMajorInBounds(x, y, img.width, img.height);
    img.pixels[y * img.width + x]
  }

  lemma MulMono(a: nat, b: nat, w: nat)
    requires a <= b
    ensures a * w <= b * w
  {
  }

  /** The row-major index of a coordinate inside a width x height buffer lies in the buffer. */
  lemma RowMajorInBounds(x: nat, y: nat, width: nat, height: nat)
    requires x < width && y < height
    ensures y * width + x < width * height
  {
    MulMono(y + 1, height, width);
  }

  /** Row-major indexing is injective: one index names one coordinate. */
  lemma RowMajorUnique(x1: nat, y1: nat, x2: nat, y2: nat, width: nat)
    requires x1 < width && x2 < width
    requires y1 * width + x1 == y2 * width + x2
    ensures x1 == x2 && y1 == y2
  {
    if y1 < y2 {
      MulMono(y1 + 1, y2, width);
    } else if y2 < y1 {
      MulMono(y2 + 1, y1, width);
    }
  }

  /** Every index of a width x height buffer is the row-major index of the coordinate
      (n % width, n / width), the order in which `enumerate_pixels` visits the buffer. */
  lemma RowMajorSplit(n: nat, width: nat, height: nat)
    requires n < width * height
    ensures width > 0
    ensures n % width < width && n / width < height
    ensures n == (n / width) * width + n % width
  {
  }

  /** The coordinate `enumerate_pixels` yields at buffer index n: (n % width, n / width). */
  function Coordinates(n: nat, width: nat, height: nat): (xy: (nat, nat))
    requires n < width * height
    ensures xy.0 < width && xy.1 < height && n == xy.1 * width + xy.0
  {
    RowMajorSplit(n, width, height);
    (n % width, n / width)
  }
}
