// Textures (texture.hpp): a solid colour, and an image sampled at the
// texel under clamped (u, v) with v flipped, each byte scaled by 1/255.
// The image decoder is an input: what it returns for the file, or None
// when the file cannot be read.

module Textures {
  import opened Options
  import opened Vectors
  import opened Utils
  import FrameBuffer

  type Byte = FrameBuffer.Byte

  const BytesPerPixel: int := 3

  /** The colour an image texture without pixels returns. */
  const Magenta: Color := Vec3(1.0, 0.0, 1.0)

  /** What the image decoder returns: 3 bytes per pixel, rows top first. */
  datatype Decoded = Decoded(pixels: seq<Byte>, width: int, height: int)

  /** The decoder's promise for an image it could read. */
  predicate WellFormed(d: Decoded) {
    1 <= d.width && 1 <= d.height && |d.pixels| == BytesPerPixel * (d.width * d.height)
  }

  datatype ImageTexture = ImageTexture(data: Option<seq<Byte>>, width: int, height: int, bytesPerScanline: int)

  datatype Texture = SolidColor(colorValue: Color) | Image(image: ImageTexture)

  /** The state the constructors leave: no data and no size, or pixels of
      the size recorded with 3 w bytes per row. */
  predicate Valid(t: ImageTexture) {
    (t.data.None? ==> t.width == 0 && t.height == 0) &&
    (t.data.Some? ==>
       1 <= t.width && 1 <= t.height && t.bytesPerScanline == BytesPerPixel * t.width &&
       |t.data.value| == BytesPerPixel * (t.width * t.height))
  }

  /** ImageTexture(): no data. */
  function EmptyImage(): (t: ImageTexture)
    ensures Valid(t) && t.data.None?
  {
    ImageTexture(None, 0, 0, 0)
  }

  /** ImageTexture(filename): a file the decoder cannot read leaves no
      data and a 0 x 0 size. */
  function LoadImage(file: Option<Decoded>): (t: ImageTexture)
    requires file.Some? ==> WellFormed(file.value)
    ensures Valid(t)
    ensures file.None? ==> t.data.None? && t.width == 0 && t.height == 0
    ensures file.Some? ==> t.data == Some(file.value.pixels) &&
                           t.width == file.value.width && t.height == file.value.height
  {
    match file
    case None => ImageTexture(None, 0, 0, BytesPerPixel * 0)
    case Some(d) => ImageTexture(Some(d.pixels), d.width, d.height, BytesPerPixel * d.width)
  }

  /** int(x n) for x in [0, 1]: it lies in [0, n]. */
  function ScaledIndex(x: real, n: int): (k: int)
    requires 0.0 <= x <= 1.0 && 1 <= n
    ensures 0 <= k <= n
  {
    var y := x * n as real;
    assert 0.0 <= y <= n as real by {
      MulNonNegative(x, n as real);
      MulNonNegative(1.0 - x, n as real);
    }
    var k := Trunc(y);
    assert k as real <= n as real;
    k
  }

  /** An index at or past n is read as n - 1. */
  function PullBack(k: int, n: int): (r: int)
    requires 0 <= k <= n && 1 <= n
    ensures 0 <= r < n
    ensures k < n ==> r == k
  {
    if k >= n then n - 1 else k
  }

  /** i = int(clamp(u, 0, 1) * width), pulled back to width - 1. */
  function TexelColumn(u: real, width: int): (i: int)
    requires 1 <= width
    ensures 0 <= i < width
  {
    PullBack(ScaledIndex(Clamp(u, 0.0, 1.0), width), width)
  }

  /** v clamped to [0, 1] and flipped: row 0 is the top of the image. */
  function Flipped(v: real): (f: real)
    ensures 0.0 <= f <= 1.0
  {
    1.0 - Clamp(v, 0.0, 1.0)
  }

  /** j = int((1 - clamp(v, 0, 1)) * height), pulled back to height - 1. */
  function TexelRow(v: real, height: int): (j: int)
    requires 1 <= height
    ensures 0 <= j < height
  {
    PullBack(ScaledIndex(Flipped(v), height), height)
  }

  /** j * bytes_per_scanline + i * bytes_per_pixel */
  function TexelOffset(t: ImageTexture, u: real, v: real): int
    requires Valid(t) && t.data.Some?
  {
    TexelRow(v, t.height) * t.bytesPerScanline + TexelColumn(u, t.width) * BytesPerPixel
  }

  /** The texel read is inside the image: its three bytes start at most
      3 w h - 3. */
  lemma TexelOffsetInRange(t: ImageTexture, u: real, v: real)
    requires Valid(t) && t.data.Some?
    ensures 0 <= TexelOffset(t, u, v) <= BytesPerPixel * (t.width * t.height) - BytesPerPixel
  {
    OffsetBound(TexelColumn(u, t.width), TexelRow(v, t.height), t.width, t.height);
  }

  /** Row j, column i of a w x h image of 3-byte pixels starts at most
      3 w h - 3. */
  lemma OffsetBound(i: int, j: int, w: int, h: int)
    requires 0 <= i < w && 0 <= j < h
    ensures 0 <= j * (BytesPerPixel * w) + i * BytesPerPixel <= BytesPerPixel * (w * h) - BytesPerPixel
  {
    assert j * (3 * w) == 3 * (j * w);
    assert 0 <= j * w by { MulNonNegativeInt(j, w); }
    assert j * w + w <= h * w by { FrameBuffer.MulMonotone(j + 1, h, w); }
    assert h * w == w * h;
  }

  lemma MulNonNegativeInt(a: int, b: int)
    requires 0 <= a && 0 <= b
    ensures 0 <= a * b
  {
  }

  /** 1 / 255 */
  const ColorScale: real := 1.0 / 255.0

  /** ImageTexture::value */
  function ImageValue(t: ImageTexture, u: real, v: real, p: Point3): (c: Color)
    requires Valid(t)
    ensures t.data.None? ==> c == Magenta
  {
    match t.data
    case None => Magenta
    case Some(data) =>
      var offset := TexelOffset(t, u, v);
      TexelOffsetInRange(t, u, v);
      Vec3(ColorScale * data[offset] as real, ColorScale * data[offset + 1] as real,
           ColorScale * data[offset + 2] as real)
  }

  /** Texture::value, dispatched on the kind of texture. */
  function Value(tex: Texture, u: real, v: real, p: Point3): (c: Color)
    requires tex.Image? ==> Valid(tex.image)
  {
    match tex
    case SolidColor(colorValue) => colorValue
    case Image(image) => ImageValue(image, u, v, p)
  }

  /** A solid colour is the same at every (u, v) and every point. */
  lemma SolidColorUniform(c: Color, u: real, v: real, p: Point3, u': real, v': real, p': Point3)
    ensures Value(SolidColor(c), u, v, p) == Value(SolidColor(c), u', v', p') == c
  {
  }

  /** A texture whose file could not be read is magenta everywhere. */
  lemma FailedLoadMagenta(u: real, v: real, p: Point3)
    ensures Value(Image(LoadImage(None)), u, v, p) == Magenta
    ensures Value(Image(EmptyImage()), u, v, p) == Magenta
  {
  }

  /** v is flipped: v = 1 (and above) reads the top row 0 and v = 0 (and
      below) the bottom row height - 1; u = 0 reads column 0 and u = 1
      column width - 1. */
  lemma TexelCorners(u: real, v: real, width: int, height: int)
    requires 1 <= width && 1 <= height
    ensures v >= 1.0 ==> TexelRow(v, height) == 0
    ensures v <= 0.0 ==> TexelRow(v, height) == height - 1
    ensures u <= 0.0 ==> TexelColumn(u, width) == 0
    ensures u >= 1.0 ==> TexelColumn(u, width) == width - 1
  {
  }

  /** Moving right in u never moves left in the image. */
  lemma ColumnMonotone(u1: real, u2: real, width: int)
    requires 1 <= width && u1 <= u2
    ensures TexelColumn(u1, width) <= TexelColumn(u2, width)
  {
    ClampMonotone(u1, u2);
    ScaledIndexMonotone(Clamp(u1, 0.0, 1.0), Clamp(u2, 0.0, 1.0), width);
  }

  /** Moving up in v never moves down the image (to a larger row). */
  lemma RowMonotone(v1: real, v2: real, height: int)
    requires 1 <= height && v1 <= v2
    ensures TexelRow(v1, height) >= TexelRow(v2, height)
  {
    ClampMonotone(v1, v2);
    ScaledIndexMonotone(Flipped(v2), Flipped(v1), height);
  }

  lemma ClampMonotone(x: real, y: real)
    requires x <= y
    ensures Clamp(x, 0.0, 1.0) <= Clamp(y, 0.0, 1.0)
  {
  }

  lemma ScaledIndexMonotone(a: real, b: real, n: int)
    requires 0.0 <= a <= b <= 1.0 && 1 <= n
    ensures ScaledIndex(a, n) <= ScaledIndex(b, n)
  {
    var x, y := a * n as real, b * n as real;
    assert x <= y by {
      MulNonNegative(b - a, n as real);
    }
    TruncMonotone(x, y);
  }

  lemma TruncMonotone(x: real, y: real)
    requires 0.0 <= x <= y
    ensures Trunc(x) <= Trunc(y)
  {
  }

  /** Every channel an image texture returns lies in [0, 1]. */
  lemma ImageChannelsUnit(t: ImageTexture, u: real, v: real, p: Point3)
    requires Valid(t)
    ensures var c := ImageValue(t, u, v, p);
            0.0 <= c.x <= 1.0 && 0.0 <= c.y <= 1.0 && 0.0 <= c.z <= 1.0
  {
    if t.data.Some? {
      var offset := TexelOffset(t, u, v);
      TexelOffsetInRange(t, u, v);
      var data := t.data.value;
      ByteScaled(data[offset]);
      ByteScaled(data[offset + 1]);
      ByteScaled(data[offset + 2]);
    }
  }

  lemma ByteScaled(b: Byte)
    ensures 0.0 <= ColorScale * b as real <= 1.0
  {
    MulNonNegative(ColorScale, b as real);
    assert ColorScale * b as real <= ColorScale * 255.0;
  }
}
