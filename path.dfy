// Path tracing (renderer_path.h): the recursive radiance of a ray with its
// Russian roulette and ambient term, the sky gradient of a miss, and the
// loop that averages the samples of every pixel and writes the byte buffer
// row by row. The scene, the camera rays, the random numbers, the tone
// mapping and the square root are inputs.

module PathTracer {
  import opened Options
  import opened Vectors
  import opened Utils
  import opened Rays
  import opened Materials
  import opened HitRecords
  import opened Scattering
  import opened FrameBuffer
  import opened RendererCommon

  /** The colour of the sky straight up. */
  const SkyBlue: Color := Vec3(0.5, 0.7, 1.0)

  /** The ambient light a hit that does not scatter reflects. */
  const Ambient: Color := Vec3(0.1, 0.1, 0.1)

  /** The survival probability of the roulette. */
  const SurviveProbability: real := 0.8

  /** Below this depth the roulette runs. */
  const RouletteDepth: int := 45

  /** t = 0.5 (unit_direction.y + 1): the height of the direction on the
      sky, from 0 straight down to 1 straight up. */
  function SkyHeight(dir: Vec3, sqrt: real -> real): (t: real)
    requires IsSqrt(sqrt) && dir != Zero
    ensures 0.0 <= t <= 1.0
  {
    var u := UnitVector(dir, sqrt);
    UnitComponent(u);
    0.5 * (u.y + 1.0)
  }

  /** A component of a unit vector lies in [-1, 1]. */
  lemma UnitComponent(u: Vec3)
    requires u.LengthSquared() == 1.0
    ensures -1.0 <= u.y <= 1.0
  {
    SqNonNegative(u.x);
    SqNonNegative(u.z);
    assert Sq(u.y) <= 1.0;
  }

  /** The colour of a miss: (1 - t) white + t (0.5, 0.7, 1.0). */
  function Background(dir: Vec3, sqrt: real -> real): (c: Color)
    requires IsSqrt(sqrt) && dir != Zero
  {
    var t := SkyHeight(dir, sqrt);
    White.Scale(1.0 - t).Plus(SkyBlue.Scale(t))
  }

  /** The sky is a convex blend of white and sky blue: each channel lies
      between the two. */
  lemma BackgroundBlend(dir: Vec3, sqrt: real -> real)
    requires IsSqrt(sqrt) && dir != Zero
    ensures var c := Background(dir, sqrt);
            0.5 <= c.x <= 1.0 && 0.7 <= c.y <= 1.0 && c.z == 1.0
  {
    var t := SkyHeight(dir, sqrt);
    assert Background(dir, sqrt) == Vec3(1.0 - 0.5 * t, 1.0 - 0.3 * t, 1.0);
  }

  /** Straight down the sky is white. */
  lemma BackgroundDown(sqrt: real -> real)
    requires IsSqrt(sqrt)
    ensures Background(Vec3(0.0, -1.0, 0.0), sqrt) == White
  {
    var down := Vec3(0.0, -1.0, 0.0);
    assert down.LengthSquared() == 1.0;
    UnitVectorOfUnit(down, sqrt);
    assert SkyHeight(down, sqrt) == 0.0;
  }

  /** Straight up the sky is sky blue. */
  lemma BackgroundUp(sqrt: real -> real)
    requires IsSqrt(sqrt)
    ensures Background(Vec3(0.0, 1.0, 0.0), sqrt) == SkyBlue
  {
    var up := Vec3(0.0, 1.0, 0.0);
    assert up.LengthSquared() == 1.0;
    UnitVectorOfUnit(up, sqrt);
    assert SkyHeight(up, sqrt) == 1.0;
  }

  /** ray_color: the radiance along r. A miss shows the sky. A hit adds
      what the surface emits to, if it scatters, the attenuated radiance of
      the scattered ray, and otherwise the attenuation times the ambient
      light. Below depth 45 a scattered path ends with the emission alone
      when the roulette number exceeds 0.8 and otherwise has its
      attenuation divided by 0.8. depth only selects the roulette; the
      source has no other bound, so `fuel` bounds the number of hits
      followed. The call at depth d draws samples(d) and us(d). A ray
      without a direction is taken as black. */
  function RayColor(r: Ray, depth: int, world: World, samples: int -> Samples, us: int -> real, fuel: nat,
                    sqrt: real -> real): (c: Color)
    requires IsSqrt(sqrt) && SceneOracle(world)
    ensures r.dir != Zero && world(r).None? && fuel > 0 ==> c == Background(r.dir, sqrt)
    decreases fuel
  {
    if fuel == 0 || r.dir == Zero then Zero
    else match world(r)
    case None => Background(r.dir, sqrt)
    case Some(rec) =>
      var m := rec.mat.value;
      var emitted := Emitted(m, 0.0, 0.0, rec.p);
      var sc := Scatter(m, r, rec, Zero, NoRay, samples(depth), sqrt);
      if !sc.ok then emitted.Plus(sc.attenuation.Times(Ambient))
      else if depth < RouletteDepth && us(depth) > SurviveProbability then emitted
      else
        var attenuation := if depth < RouletteDepth then sc.attenuation.Div(SurviveProbability) else sc.attenuation;
        emitted.Plus(attenuation.Times(RayColor(sc.ray, depth - 1, world, samples, us, fuel - 1, sqrt)))
  }

  /** Every material of the scene has non-negative colours. */
  ghost predicate NonNegativeMaterials(world: World) {
    forall r: Ray :: world(r).Some? && world(r).value.mat.Some? ==>
      match world(r).value.mat.value
      case DiffuseLight(emit) => NonNegative(emit)
      case Lambertian(albedo) => NonNegative(albedo)
      case Metal(albedo, _) => NonNegative(albedo)
      case Dielectric(_) => true
  }

  lemma TimesNonNegative(a: Color, b: Color)
    requires NonNegative(a) && NonNegative(b)
    ensures NonNegative(a.Times(b))
  {
    MulNonNegative(a.x, b.x);
    MulNonNegative(a.y, b.y);
    MulNonNegative(a.z, b.z);
  }

  /** Radiance is never negative in a scene of non-negative colours. */
  lemma {:induction false} RayColorNonNegative(r: Ray, depth: int, world: World, samples: int -> Samples,
                                               us: int -> real, fuel: nat, sqrt: real -> real)
    requires IsSqrt(sqrt) && SceneOracle(world) && NonNegativeMaterials(world)
    ensures NonNegative(RayColor(r, depth, world, samples, us, fuel, sqrt))
    decreases fuel
  {
    if fuel > 0 && r.dir != Zero {
      if world(r).None? {
        BackgroundBlend(r.dir, sqrt);
      } else {
        var rec := world(r).value;
        var m := rec.mat.value;
        var emitted := Emitted(m, 0.0, 0.0, rec.p);
        var sc := Scatter(m, r, rec, Zero, NoRay, samples(depth), sqrt);
        assert NonNegative(emitted);
        assert NonNegative(sc.attenuation);
        if !sc.ok {
          TimesNonNegative(sc.attenuation, Ambient);
        } else if !(depth < RouletteDepth && us(depth) > SurviveProbability) {
          var attenuation := if depth < RouletteDepth then sc.attenuation.Div(SurviveProbability) else sc.attenuation;
          var rest := RayColor(sc.ray, depth - 1, world, samples, us, fuel - 1, sqrt);
          RayColorNonNegative(sc.ray, depth - 1, world, samples, us, fuel - 1, sqrt);
          TimesNonNegative(attenuation, rest);
        }
      }
    }
  }

  /** The roulette compensates exactly: 0.8 times the divided attenuation
      is the attenuation. */
  lemma RouletteCompensates(attenuation: Color)
    ensures attenuation.Div(SurviveProbability).Scale(SurviveProbability) == attenuation
  {
  }

  /** The roulette runs only below depth 45: roulette numbers drawn at
      depth 45 and above never change the radiance. */
  lemma {:induction false} RouletteOnlyBelow45(r: Ray, depth: int, world: World, samples: int -> Samples,
                                               a: int -> real, b: int -> real, fuel: nat, sqrt: real -> real)
    requires IsSqrt(sqrt) && SceneOracle(world)
    requires forall d :: d < RouletteDepth ==> a(d) == b(d)
    ensures RayColor(r, depth, world, samples, a, fuel, sqrt) == RayColor(r, depth, world, samples, b, fuel, sqrt)
    decreases fuel
  {
    if fuel > 0 && r.dir != Zero && world(r).Some? {
      var rec := world(r).value;
      var sc := Scatter(rec.mat.value, r, rec, Zero, NoRay, samples(depth), sqrt);
      RouletteOnlyBelow45(sc.ray, depth - 1, world, samples, a, b, fuel - 1, sqrt);
      RouletteStep(r, depth, world, samples, a, b, fuel, sqrt);
    }
  }

  /** One hit of the roulette: with the same number drawn at this depth
      (or none needed, from depth 45 on) and the same radiance further on,
      the radiance here is the same. */
  lemma RouletteStep(r: Ray, depth: int, world: World, samples: int -> Samples, a: int -> real, b: int -> real,
                     fuel: nat, sqrt: real -> real)
    requires IsSqrt(sqrt) && SceneOracle(world) && fuel > 0 && r.dir != Zero && world(r).Some?
    requires depth < RouletteDepth ==> a(depth) == b(depth)
    requires var rec := world(r).value;
             var sc := Scatter(rec.mat.value, r, rec, Zero, NoRay, samples(depth), sqrt);
             RayColor(sc.ray, depth - 1, world, samples, a, fuel - 1, sqrt) ==
             RayColor(sc.ray, depth - 1, world, samples, b, fuel - 1, sqrt)
    ensures RayColor(r, depth, world, samples, a, fuel, sqrt) == RayColor(r, depth, world, samples, b, fuel, sqrt)
  {
  }

  /** The depth never ends a path: at any depth, however far below zero, a
      hit that scatters and survives the roulette goes on with the
      scattered ray. */
  lemma DepthNeverStops(r: Ray, depth: int, world: World, samples: int -> Samples, us: int -> real, fuel: nat,
                        sqrt: real -> real)
    requires IsSqrt(sqrt) && SceneOracle(world) && r.dir != Zero && world(r).Some?
    requires var rec := world(r).value;
             Scatter(rec.mat.value, r, rec, Zero, NoRay, samples(depth), sqrt).ok
    requires depth < RouletteDepth ==> us(depth) <= SurviveProbability
    ensures var rec := world(r).value;
            var m := rec.mat.value;
            var sc := Scatter(m, r, rec, Zero, NoRay, samples(depth), sqrt);
            var w := if depth < RouletteDepth then sc.attenuation.Div(SurviveProbability) else sc.attenuation;
            RayColor(r, depth, world, samples, us, fuel + 1, sqrt) ==
              Emitted(m, 0.0, 0.0, rec.p).Plus(w.Times(RayColor(sc.ray, depth - 1, world, samples, us, fuel, sqrt)))
  {
  }

  /** A hit that does not scatter returns its emission plus its
      attenuation times the ambient light (0.1, 0.1, 0.1); for a light that
      is exactly what it emits. */
  lemma AbsorbedHit(r: Ray, depth: int, world: World, samples: int -> Samples, us: int -> real, fuel: nat,
                    sqrt: real -> real)
    requires IsSqrt(sqrt) && SceneOracle(world) && r.dir != Zero && world(r).Some?
    requires var rec := world(r).value;
             !Scatter(rec.mat.value, r, rec, Zero, NoRay, samples(depth), sqrt).ok
    ensures var rec := world(r).value;
            var m := rec.mat.value;
            var sc := Scatter(m, r, rec, Zero, NoRay, samples(depth), sqrt);
            RayColor(r, depth, world, samples, us, fuel + 1, sqrt) ==
              Emitted(m, 0.0, 0.0, rec.p).Plus(sc.attenuation.Times(Ambient)) &&
            (m.DiffuseLight? ==> RayColor(r, depth, world, samples, us, fuel + 1, sqrt) == m.emit)
  {
  }

  // ---------------------------------------------------------------------
  // The render loop

  /** The sum of the first n samples of pixel (i, j); radiance(i, j, s) is
      ray_color of the camera ray of sample s. */
  function SampleSum(radiance: (int, int, int) -> Color, i: int, j: int, n: nat): Color {
    if n == 0 then Zero else SampleSum(radiance, i, j, n - 1).Plus(radiance(i, j, n - 1))
  }

  /** The number of times the samples loop runs. */
  function SampleCount(spp: int): nat {
    if spp < 0 then 0 else spp
  }

  /** pixel_color * (1 / samples_per_pixel) */
  function PixelAverage(radiance: (int, int, int) -> Color, i: int, j: int, spp: int): Color
    requires spp != 0
  {
    SampleSum(radiance, i, j, SampleCount(spp)).Scale(1.0 / spp as real)
  }

  /** The bytes of an image with columns: byte k is channel k % 3 of the
      buffer pixel k / 3, i.e. of image pixel (Column, Row). */
  function PathImage(w: int, h: int, spp: int, radiance: (int, int, int) -> Color, aces: Color -> Color,
                     sqrt: real -> real): (buf: seq<Byte>)
    requires 0 < w && 0 <= h && spp != 0
    ensures |buf| == 3 * (w * h)
  {
    seq(3 * (w * h), k requires 0 <= k < 3 * (w * h) =>
      ToneBytes(PixelAverage(radiance, Column(w, k / 3), Row(w, h, k / 3), spp), aces, sqrt)[k % 3])
  }

  /** The buffer render_path_tracing leaves, for every size whose product
      is not negative (every size main passes): the pixels' bytes when the
      image has columns and rows; otherwise 3 w h zero bytes, because with
      no column or no row the loops write no pixel (a 0-wide image is
      empty, and both sizes negative leave w h pixels at zero). */
  function PathBuffer(w: int, h: int, spp: int, radiance: (int, int, int) -> Color, aces: Color -> Color,
                      sqrt: real -> real): (buf: seq<Byte>)
    requires 0 <= w * h && spp != 0
    ensures |buf| == 3 * (w * h)
  {
    if 0 < w && 0 <= h then PathImage(w, h, spp, radiance, aces, sqrt) else seq(3 * (w * h), _ => 0)
  }

  /** With no column or no row the buffer is all zeros; with columns and
      rows every byte is the one of its own pixel. */
  lemma PathBufferBytes(w: int, h: int, spp: int, radiance: (int, int, int) -> Color, aces: Color -> Color,
                        sqrt: real -> real, k: int)
    requires 0 <= w * h && spp != 0 && 0 <= k < 3 * (w * h)
    ensures !(0 < w && 0 <= h) ==> PathBuffer(w, h, spp, radiance, aces, sqrt)[k] == 0
    ensures 0 < w && 0 <= h ==>
              PathBuffer(w, h, spp, radiance, aces, sqrt)[k] ==
              ToneBytes(PixelAverage(radiance, Column(w, k / 3), Row(w, h, k / 3), spp), aces, sqrt)[k % 3]
  {
  }

  /** The samples loop of one pixel. */
  method PixelColor(radiance: (int, int, int) -> Color, i: int, j: int, spp: int) returns (color: Color)
    requires spp != 0
    ensures color == PixelAverage(radiance, i, j, spp)
  {
    var pixelColor := Zero;
    var s := 0;
    while s < spp
      invariant 0 <= s <= SampleCount(spp)
      invariant pixelColor == SampleSum(radiance, i, j, s)
      decreases spp - s
    {
      pixelColor := pixelColor.Plus(radiance(i, j, s));
      s := s + 1;
    }
    assert s == SampleCount(spp);
    var scale := 1.0 / spp as real;
    color := pixelColor.Scale(scale);
  }

  /** render_path_tracing: rows from the top (j = h - 1) down, pixels left
      to right; each pixel's three bytes go to ((h - 1 - j) w + i) * 3. */
  method RenderPathTracing(w: int, h: int, spp: int, radiance: (int, int, int) -> Color, aces: Color -> Color,
                           sqrt: real -> real) returns (buffer: array<Byte>)
    requires 0 <= w * h && spp != 0
    ensures fresh(buffer) && buffer[..] == PathBuffer(w, h, spp, radiance, aces, sqrt)
  {
    buffer := new Byte[3 * (w * h)](_ => 0);
    if 0 < w && 0 <= h {
      ghost var target := PathImage(w, h, spp, radiance, aces, sqrt);
      var j := h - 1;
      while j >= 0
        invariant -1 <= j < h
        invariant forall k :: 0 <= k < 3 * PixelIndex(w, h, 0, j) ==> buffer[k] == target[k]
      {
        WriteRow(buffer, w, h, j, spp, radiance, aces, sqrt);
        NextRow(w, h, j);
        j := j - 1;
      }
      assert PixelIndex(w, h, 0, -1) == w * h by { NextRow(w, h, -1); }
      assert buffer[..] == target;
    } else {
      // No column (the rows' pixel loops are empty) or no row: nothing is
      // written over the zeros.
      assert buffer[..] == seq(3 * (w * h), _ => 0);
    }
  }

  /** The row below j starts w pixels after row j; past the bottom row
      (j = -1) the whole image is written. */
  lemma NextRow(w: int, h: int, j: int)
    ensures PixelIndex(w, h, 0, j - 1) == PixelIndex(w, h, 0, j) + w
    ensures PixelIndex(w, h, 0, -1) == w * h
  {
  }

  /** One row of render_path_tracing: it fills the next 3 w bytes after
      the rows above it. */
  method WriteRow(buffer: array<Byte>, w: int, h: int, j: int, spp: int, radiance: (int, int, int) -> Color,
                  aces: Color -> Color, sqrt: real -> real)
    requires 0 < w && 0 <= j < h && spp != 0 && buffer.Length == 3 * (w * h)
    requires forall k :: 0 <= k < 3 * PixelIndex(w, h, 0, j) ==>
               buffer[k] == PathImage(w, h, spp, radiance, aces, sqrt)[k]
    modifies buffer
    ensures forall k :: 0 <= k < 3 * (PixelIndex(w, h, 0, j) + w) ==>
              buffer[k] == PathImage(w, h, spp, radiance, aces, sqrt)[k]
  {
    ghost var target := PathImage(w, h, spp, radiance, aces, sqrt);
    ghost var base := PixelIndex(w, h, 0, j);
    for i := 0 to w
      invariant forall k :: 0 <= k < 3 * (base + i) ==> buffer[k] == target[k]
    {
      assert PixelIndex(w, h, i, j) == base + i;
      WritePixel(buffer, w, h, i, j, spp, radiance, aces, sqrt);
    }
  }

  /** The body of the pixels loop: pixel (i, j)'s three bytes get their
      target values and the bytes before them are kept. */
  method WritePixel(buffer: array<Byte>, w: int, h: int, i: int, j: int, spp: int, radiance: (int, int, int) -> Color,
                    aces: Color -> Color, sqrt: real -> real)
    requires 0 < w && 0 <= i < w && 0 <= j < h && spp != 0 && buffer.Length == 3 * (w * h)
    modifies buffer
    ensures forall k :: 0 <= k < 3 * PixelIndex(w, h, i, j) ==> buffer[k] == old(buffer[k])
    ensures forall k :: 3 * PixelIndex(w, h, i, j) <= k < 3 * PixelIndex(w, h, i, j) + 3 ==>
              0 <= k < buffer.Length && buffer[k] == PathImage(w, h, spp, radiance, aces, sqrt)[k]
  {
    var color := PixelColor(radiance, i, j, spp);
    var c := aces(color);
    var r, g, b := sqrt(c.x), sqrt(c.y), sqrt(c.z);
    var index := ((h - 1 - j) * w + i) * 3;
    assert index == 3 * PixelIndex(w, h, i, j);
    PixelTarget(w, h, spp, radiance, aces, sqrt, i, j);
    buffer[index] := ChannelByte(r);
    buffer[index + 1] := ChannelByte(g);
    buffer[index + 2] := ChannelByte(b);
  }

  /** The three target bytes of pixel (i, j) are its tone-mapped bytes. */
  lemma PixelTarget(w: int, h: int, spp: int, radiance: (int, int, int) -> Color, aces: Color -> Color,
                    sqrt: real -> real, i: int, j: int)
    requires 0 < w && 0 <= i < w && 0 <= j < h && spp != 0
    ensures var q := PixelIndex(w, h, i, j);
            var bytes := ToneBytes(PixelAverage(radiance, i, j, spp), aces, sqrt);
            0 <= 3 * q && 3 * q + 2 < 3 * (w * h) &&
            PathImage(w, h, spp, radiance, aces, sqrt)[3 * q] == bytes[0] &&
            PathImage(w, h, spp, radiance, aces, sqrt)[3 * q + 1] == bytes[1] &&
            PathImage(w, h, spp, radiance, aces, sqrt)[3 * q + 2] == bytes[2]
  {
    var q := PixelIndex(w, h, i, j);
    PixelIndexRange(w, h, i, j);
    PixelIndexBijective(w, h, q);
    DivUnique(3 * q, 3, q, 0);
    DivUnique(3 * q + 1, 3, q, 1);
    DivUnique(3 * q + 2, 3, q, 2);
  }

  /** Every byte of the buffer is the quantised tone-mapped average of
      exactly one pixel: the pixel (Column, Row) of byte k / 3, which the
      pixel map sends back to k / 3 and no other pixel does. */
  lemma PathImageCoversPixels(w: int, h: int, spp: int, radiance: (int, int, int) -> Color, aces: Color -> Color,
                              sqrt: real -> real, k: int)
    requires 0 < w && 0 <= h && spp != 0 && 0 <= k < 3 * (w * h)
    ensures var i, j := Column(w, k / 3), Row(w, h, k / 3);
            0 <= i < w && 0 <= j < h && 3 * PixelIndex(w, h, i, j) + k % 3 == k &&
            PathImage(w, h, spp, radiance, aces, sqrt)[k] ==
              ToneBytes(PixelAverage(radiance, i, j, spp), aces, sqrt)[k % 3]
    ensures forall i, j :: 0 <= i < w && 0 <= j < h && PixelIndex(w, h, i, j) == k / 3 ==>
              i == Column(w, k / 3) && j == Row(w, h, k / 3)
  {
    PixelIndexBijective(w, h, k / 3);
  }
}
