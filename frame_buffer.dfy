// Frame-buffer arithmetic shared by the renderers: the row-flipped pixel
// index (renderer_path.h, renderer_ppm.h, renderer_sppm.h, renderer_pm.h)
// the quantisation of a colour channel to a byte, and the loop that turns
// a finished image into the byte buffer.

module FrameBuffer {
  import opened Utils
  import opened Vectors

  /** unsigned char */
  newtype Byte = x: int | 0 <= x < 256

  /** (h - 1 - j) * w + i: image row j counts from the bottom, the buffer
      stores the top row first. */
  function PixelIndex(w: int, h: int, i: int, j: int): int {
    (h - 1 - j) * w + i
  }

  /** The pixel index of (i, j) lies in [0, w h). */
  lemma PixelIndexRange(w: int, h: int, i: int, j: int)
    requires 0 <= i < w && 0 <= j < h
    ensures 0 <= PixelIndex(w, h, i, j) < w * h
  {
    var r := h - 1 - j;
    assert 0 <= r < h;
    assert r * w + i < (r + 1) * w;
    assert (r + 1) * w <= h * w by {
      MulMonotone(r + 1, h, w);
    }
  }

  lemma MulMonotone(a: int, b: int, w: int)
    requires 0 <= a <= b && 0 <= w
    ensures a * w <= b * w
  {
    assert b * w - a * w == (b - a) * w;
  }

  /** The column of a buffer pixel. */
  function Column(w: int, k: int): int
    requires w > 0
  {
    k % w
  }

  /** The image row of a buffer pixel. */
  function Row(w: int, h: int, k: int): int
    requires w > 0
  {
    h - 1 - k / w
  }

  /** The map is a bijection from the w x h pixels onto [0, w h): every
      index comes from the pixel (Column, Row), and that pixel is the only
      one mapped to it. */
  lemma PixelIndexBijective(w: int, h: int, k: int)
    requires 0 < w && 0 <= h && 0 <= k < w * h
    ensures 0 <= Column(w, k) < w && 0 <= Row(w, h, k) < h
    ensures PixelIndex(w, h, Column(w, k), Row(w, h, k)) == k
    ensures forall i, j :: 0 <= i < w && 0 <= j < h && PixelIndex(w, h, i, j) == k ==>
              i == Column(w, k) && j == Row(w, h, k)
  {
    var q := k / w;
    assert k == q * w + k % w;
    assert q < h by {
      if q >= h {
        MulMonotone(h, q, w);
      }
    }
    forall i, j | 0 <= i < w && 0 <= j < h && PixelIndex(w, h, i, j) == k
      ensures i == Column(w, k) && j == Row(w, h, k)
    {
      DivUnique(k, w, h - 1 - j, i);
    }
  }

  /** Quotient and remainder are unique. */
  lemma DivUnique(k: int, w: int, q: int, r: int)
    requires 0 < w && 0 <= r < w && k == q * w + r
    ensures k / w == q && k % w == r
  {
    var q', r' := k / w, k % w;
    assert k == q' * w + r';
    assert (q - q') * w == r' - r;
    if q > q' {
      MulMonotone(1, q - q', w);
    }
    if q < q' {
      MulMonotone(1, q' - q, w);
    }
  }

  /** static_cast<unsigned char>(256 * clamp(c, 0.0, 0.999)) */
  function ChannelByte(c: real): (b: Byte)
    ensures c <= 0.0 ==> b == 0
    ensures c >= 0.999 ==> b == 255
    ensures 0.0 <= c <= 0.999 ==> b as real <= 256.0 * c < b as real + 1.0
  {
    var x := 256.0 * Clamp(c, 0.0, 0.999);
    assert 0.0 <= x < 256.0;
    Trunc(x) as Byte
  }

  /** Brighter channels never give smaller bytes. */
  lemma ChannelByteMonotone(c: real, d: real)
    requires c <= d
    ensures ChannelByte(c) <= ChannelByte(d)
  {
    var x, y := 256.0 * Clamp(c, 0.0, 0.999), 256.0 * Clamp(d, 0.0, 0.999);
    assert Clamp(c, 0.0, 0.999) <= Clamp(d, 0.0, 0.999);
    assert x <= y;
    assert x.Floor <= y.Floor;
  }

  /** The tone mapping and gamma correction every renderer applies before
      quantising: aces_approx (not part of this model, given as a function),
      then the square root of each channel, then ChannelByte; the three
      bytes r, g, b. */
  function ToneBytes(c: Color, aces: Color -> Color, sqrt: real -> real): (b: seq<Byte>)
    ensures |b| == 3
  {
    var t := aces(c);
    [ChannelByte(sqrt(t.x)), ChannelByte(sqrt(t.y)), ChannelByte(sqrt(t.z))]
  }

  /** A pixel that tone-maps to black is written as three zero bytes, and
      one that tone-maps to at least 0.999^2 in every channel as three 255s. */
  lemma ToneBytesExtremes(c: Color, aces: Color -> Color, sqrt: real -> real)
    requires IsSqrt(sqrt)
    ensures aces(c) == Zero ==> ToneBytes(c, aces, sqrt) == [0, 0, 0]
    ensures var t := aces(c);
            t.x >= 0.998001 && t.y >= 0.998001 && t.z >= 0.998001 ==> ToneBytes(c, aces, sqrt) == [255, 255, 255]
  {
    var t := aces(c);
    SqrtOfSq(sqrt, 0.0);
    SqrtAtLeast(sqrt, t.x);
    SqrtAtLeast(sqrt, t.y);
    SqrtAtLeast(sqrt, t.z);
  }

  /** sqrt(a) >= 0.999 when a >= 0.999^2. */
  lemma SqrtAtLeast(sqrt: real -> real, a: real)
    requires IsSqrt(sqrt)
    ensures a >= 0.998001 ==> sqrt(a) >= 0.999
  {
    if a >= 0.998001 {
      var r := sqrt(a);
      assert 0.0 <= r && r * r == a;
      if r < 0.999 {
        SqMonotone(r, 0.999);
      }
    }
  }

  /** The buffer of an image: pixel i's three bytes at 3i, 3i + 1, 3i + 2. */
  function ImageBytes(image: seq<Color>, aces: Color -> Color, sqrt: real -> real): (buf: seq<Byte>)
    ensures |buf| == 3 * |image|
  {
    if |image| == 0 then []
    else ImageBytes(image[..|image| - 1], aces, sqrt) + ToneBytes(image[|image| - 1], aces, sqrt)
  }

  /** Byte m of the buffer is channel m % 3 of pixel m / 3. */
  lemma {:induction false} ImageBytesAt(image: seq<Color>, aces: Color -> Color, sqrt: real -> real, m: int)
    requires 0 <= m < 3 * |image|
    ensures ImageBytes(image, aces, sqrt)[m] == ToneBytes(image[m / 3], aces, sqrt)[m % 3]
  {
    var n := |image|;
    var init := image[..n - 1];
    if m < 3 * (n - 1) {
      ImageBytesAt(init, aces, sqrt, m);
      assert init[m / 3] == image[m / 3];
    } else {
      DivUnique(m, 3, n - 1, m - 3 * (n - 1));
    }
  }

  /** The write-buffer loop of the PPM and PM renderers: the buffer is
      final_image's bytes, pixel by pixel. */
  method WriteImage(image: seq<Color>, aces: Color -> Color, sqrt: real -> real) returns (buffer: array<Byte>)
    ensures fresh(buffer) && buffer[..] == ImageBytes(image, aces, sqrt)
  {
    buffer := new Byte[3 * |image|](_ => 0);
    for i := 0 to |image|
      invariant buffer[..3 * i] == ImageBytes(image[..i], aces, sqrt)
    {
      var c := aces(image[i]);
      var r, g, b := sqrt(c.x), sqrt(c.y), sqrt(c.z);
      buffer[i * 3] := ChannelByte(r);
      buffer[i * 3 + 1] := ChannelByte(g);
      buffer[i * 3 + 2] := ChannelByte(b);
      assert image[..i + 1][..i] == image[..i];
      assert buffer[..3 * (i + 1)] == buffer[..3 * i] + ToneBytes(image[i], aces, sqrt);
    }
    assert image[..|image|] == image;
  }
}
