// The whole of render_sppm (renderer_sppm.h): the eye pass, the grid and
// the iteration loop, and the buffer the final hit points paint, with
// what the image shows for lit and unlit pixels.

module SppmRender {
  import opened Vectors
  import opened FrameBuffer
  import opened RendererCommon
  import opened Sppm

  /** Hit point k after the loop is hit point k of the eye pass with new
      statistics and a positive radius. */
  lemma FinalHitsAt(s: EyeSetup, ps: PhotonSetup, iterations: int, sqrt: real -> real, k: int)
    requires RenderReady(s, ps, iterations, sqrt) && 0 <= k < |FirstHits(s, sqrt)|
    ensures FinalHits(s, ps, iterations, sqrt)[k].(est := FirstHits(s, sqrt)[k].est) == FirstHits(s, sqrt)[k]
    ensures FinalHits(s, ps, iterations, sqrt)[k].est.r2 > 0.0
  {
    var h0 := FirstHits(s, sqrt);
    FinalHitIs(s, ps, iterations, sqrt, k);
    FirstHitPositive(s, sqrt, k);
    IterationsAt(h0, ps, CellSize(s), |h0| + 1000, iterations, sqrt, k);
  }

  /** Final hit point k is hit point k after `iterations` passes over the
      eye pass's hit points. */
  lemma FinalHitIs(s: EyeSetup, ps: PhotonSetup, iterations: int, sqrt: real -> real, k: int)
    requires RenderReady(s, ps, iterations, sqrt) && 0 <= k < |FirstHits(s, sqrt)|
    ensures Ready(FirstHits(s, sqrt), ps, CellSize(s), |FirstHits(s, sqrt)| + 1000, sqrt)
    ensures FinalHits(s, ps, iterations, sqrt)[k] ==
            Iterations(FirstHits(s, sqrt), ps, CellSize(s), |FirstHits(s, sqrt)| + 1000, iterations, sqrt)[k]
  {
    FinalHitsUnfold(s, ps, iterations, sqrt);
  }

  /** The final hit points keep the eye pass's strictly increasing pixels
      and can all be written to the image. */
  lemma FinalPaintable(s: EyeSetup, ps: PhotonSetup, iterations: int, sqrt: real -> real)
    requires RenderReady(s, ps, iterations, sqrt)
    ensures Paintable(FinalHits(s, ps, iterations, sqrt), PixelCount(s))
    ensures Increasing(FinalHits(s, ps, iterations, sqrt))
  {
    var h0 := FirstHits(s, sqrt);
    var hps := FinalHits(s, ps, iterations, sqrt);
    RecordedPixels(s, PixelCount(s), sqrt);
    RecordedOrder(s, PixelCount(s), sqrt);
    forall k | 0 <= k < |hps|
      ensures hps[k].pixelIndex == h0[k].pixelIndex && hps[k].est.r2 > 0.0
    {
      FinalHitsAt(s, ps, iterations, sqrt, k);
    }
  }

  /** The buffer render_sppm leaves for an image with columns. */
  function Rendered(s: EyeSetup, ps: PhotonSetup, iterations: int, aces: Color -> Color, sqrt: real -> real)
    : (buf: seq<Byte>)
    requires RenderReady(s, ps, iterations, sqrt)
    ensures |buf| == 3 * PixelCount(s)
  {
    FinalPaintable(s, ps, iterations, sqrt);
    Painted(FinalHits(s, ps, iterations, sqrt), PixelCount(s), PhotonCount(ps.photonsPerIter, iterations),
            aces, sqrt)
  }

  /** The grid of render_sppm (hit_points.size() + 1000 buckets of the
      given cell size) and its iteration loop. */
  method IterateHits(ps: PhotonSetup, iterations: int, cellSize: real, sqrt: real -> real, hps: array<HitPoint>)
    requires Ready(hps[..], ps, cellSize, hps.Length + 1000, sqrt) && iterations > 0
    modifies hps
    ensures hps[..] == Iterations(old(hps[..]), ps, cellSize, hps.Length + 1000, iterations, sqrt)
  {
    var grid := new HashGrid(cellSize, hps.Length + 1000);
    RenderIterations(ps, iterations, sqrt, grid, hps);
  }

  /** The eye pass followed by the iteration loop. */
  method EyeAndPhotonPasses(s: EyeSetup, ps: PhotonSetup, iterations: int, sqrt: real -> real)
    returns (hps: array<HitPoint>)
    requires RenderReady(s, ps, iterations, sqrt)
    ensures fresh(hps) && hps[..] == FinalHits(s, ps, iterations, sqrt)
  {
    hps := EyeHits(s, sqrt);
    ghost var h0 := hps[..];
    FinalHitsUnfold(s, ps, iterations, sqrt);
    assert Ready(h0, ps, CellSize(s), hps.Length + 1000, sqrt);
    IterateHits(ps, iterations, CellSize(s), sqrt, hps);
    assert hps[..] == Iterations(h0, ps, CellSize(s), |h0| + 1000, iterations, sqrt);
  }

  /** The eye pass's hit points, in an array. */
  method EyeHits(s: EyeSetup, sqrt: real -> real) returns (hps: array<HitPoint>)
    requires IsSqrt(sqrt) && SceneOracle(s.world) && s.width > 0 && s.height >= 0
    ensures fresh(hps) && hps[..] == FirstHits(s, sqrt)
  {
    var first := EyePass(s, sqrt);
    hps := new HitPoint[|first|](i requires 0 <= i < |first| => first[i]);
  }

  /** What render_sppm needs for every size whose product is not negative
      (every size main passes): RenderReady with the sizes relaxed. */
  ghost predicate RenderArgs(s: EyeSetup, ps: PhotonSetup, iterations: int, sqrt: real -> real) {
    IsSqrt(sqrt) && SceneOracle(s.world) && ps.world == s.world &&
    0 <= s.width * s.height && s.initialRadius != 0.0 && ps.photonsPerIter > 0 && iterations > 0
  }

  /** The buffer render_sppm leaves: that of its hit points when the image
      has columns and rows; otherwise the eye pass visits no pixel, and the
      3 w h bytes are painted by no hit point. */
  function SppmBuffer(s: EyeSetup, ps: PhotonSetup, iterations: int, aces: Color -> Color, sqrt: real -> real)
    : (buf: seq<Byte>)
    requires RenderArgs(s, ps, iterations, sqrt)
    ensures |buf| == 3 * (s.width * s.height)
  {
    if s.width > 0 && s.height >= 0 then Rendered(s, ps, iterations, aces, sqrt)
    else Painted([], s.width * s.height, PhotonCount(ps.photonsPerIter, iterations), aces, sqrt)
  }

  /** An image without columns or rows is all zeros: 0 bytes for a 0-wide
      image, 3 w h zero bytes when both sizes are negative. */
  lemma NoPixelsBlack(s: EyeSetup, ps: PhotonSetup, iterations: int, aces: Color -> Color, sqrt: real -> real)
    requires RenderArgs(s, ps, iterations, sqrt) && !(s.width > 0 && s.height >= 0)
    ensures forall m :: 0 <= m < 3 * (s.width * s.height) ==> SppmBuffer(s, ps, iterations, aces, sqrt)[m] == 0
  {
  }

  /** render_sppm: the eye pass, the grid, the iteration loop, the
      reconstruction. */
  method RenderSppm(s: EyeSetup, ps: PhotonSetup, iterations: int, aces: Color -> Color, sqrt: real -> real)
    returns (buffer: array<Byte>)
    requires RenderArgs(s, ps, iterations, sqrt)
    ensures fresh(buffer) && buffer[..] == SppmBuffer(s, ps, iterations, aces, sqrt)
  {
    if s.width > 0 && s.height >= 0 {
      assert RenderReady(s, ps, iterations, sqrt);
      var hps := EyeAndPhotonPasses(s, ps, iterations, sqrt);
      FinalPaintable(s, ps, iterations, sqrt);
      buffer := WriteBuffer(hps, PixelCount(s), ps.photonsPerIter, iterations, aces, sqrt);
    } else {
      // The eye pass's loops visit no pixel: no hit point, and the
      // iterations credit none.
      var hps := new HitPoint[0];
      assert hps[..] == [];
      IterateHits(ps, iterations, CellSize(s), sqrt, hps);
      buffer := WriteBuffer(hps, s.width * s.height, ps.photonsPerIter, iterations, aces, sqrt);
    }
  }

  /** The final hit points are those of `iterations` passes over the eye
      pass's valid hit points. */
  lemma FinalHitsUnfold(s: EyeSetup, ps: PhotonSetup, iterations: int, sqrt: real -> real)
    requires RenderReady(s, ps, iterations, sqrt)
    ensures Ready(FirstHits(s, sqrt), ps, CellSize(s), |FirstHits(s, sqrt)| + 1000, sqrt)
    ensures FinalHits(s, ps, iterations, sqrt) ==
            Iterations(FirstHits(s, sqrt), ps, CellSize(s), |FirstHits(s, sqrt)| + 1000, iterations, sqrt)
    ensures forall j :: 0 <= j < |FinalHits(s, ps, iterations, sqrt)| ==>
              FinalHits(s, ps, iterations, sqrt)[j] ==
              Iterations(FirstHits(s, sqrt), ps, CellSize(s), |FirstHits(s, sqrt)| + 1000, iterations, sqrt)[j]
  {
    FirstHitsReady(s, ps, iterations, sqrt);
    var final := FinalHits(s, ps, iterations, sqrt);
    var iterated := Iterations(FirstHits(s, sqrt), ps, CellSize(s), |FirstHits(s, sqrt)| + 1000, iterations, sqrt);
    assert |final| == |iterated|;
    assert forall j :: 0 <= j < |final| ==> final[j] == iterated[j];
  }

  /** The eye pass made a hit point for every pixel whose path ends on a
      Lambertian surface. */
  lemma FirstHitOf(s: EyeSetup, sqrt: real -> real, q: int) returns (k: int)
    requires IsSqrt(sqrt) && SceneOracle(s.world) && s.width > 0 && s.height >= 0
    requires 0 <= q < PixelCount(s) && PixelHit(s, q, sqrt).Some?
    ensures 0 <= k < |FirstHits(s, sqrt)| && FirstHits(s, sqrt)[k].pixelIndex == q
  {
    RecordedComplete(s, PixelCount(s), sqrt);
    k :| 0 <= k < |FirstHits(s, sqrt)| && FirstHits(s, sqrt)[k].pixelIndex == q;
  }

  /** Every final hit point belongs to a pixel whose eye path ends on a
      Lambertian surface. */
  lemma FinalHitLit(s: EyeSetup, ps: PhotonSetup, iterations: int, sqrt: real -> real, k: int)
    requires RenderReady(s, ps, iterations, sqrt) && 0 <= k < |FirstHits(s, sqrt)|
    ensures PixelHit(s, FinalHits(s, ps, iterations, sqrt)[k].pixelIndex, sqrt).Some?
  {
    FirstHitAt(s, sqrt, k);
    FinalHitsAt(s, ps, iterations, sqrt, k);
    assert FinalHits(s, ps, iterations, sqrt)[k].pixelIndex == FirstHits(s, sqrt)[k].pixelIndex;
  }

  /** No final hit point belongs to a pixel whose eye path misses every
      Lambertian surface. */
  lemma FinalHitsAvoid(s: EyeSetup, ps: PhotonSetup, iterations: int, sqrt: real -> real, q: int)
    requires RenderReady(s, ps, iterations, sqrt) && PixelHit(s, q, sqrt).None?
    ensures forall k :: 0 <= k < |FinalHits(s, ps, iterations, sqrt)| ==>
              FinalHits(s, ps, iterations, sqrt)[k].pixelIndex != q
  {
    forall k | 0 <= k < |FinalHits(s, ps, iterations, sqrt)|
      ensures FinalHits(s, ps, iterations, sqrt)[k].pixelIndex != q
    {
      FinalHitLit(s, ps, iterations, sqrt, k);
    }
  }

  /** A pixel whose eye path does not end on a Lambertian surface is black. */
  lemma RenderedUnlit(s: EyeSetup, ps: PhotonSetup, iterations: int, aces: Color -> Color, sqrt: real -> real,
                      q: int, c: int)
    requires RenderReady(s, ps, iterations, sqrt) && 0 <= q < PixelCount(s) && 0 <= c < 3
    requires PixelHit(s, q, sqrt).None?
    ensures Rendered(s, ps, iterations, aces, sqrt)[3 * q + c] == 0
  {
    FinalPaintable(s, ps, iterations, sqrt);
    DivUnique(3 * q + c, 3, q, c);
    FinalHitsAvoid(s, ps, iterations, sqrt, q);
    PaintedUnlit(FinalHits(s, ps, iterations, sqrt), PixelCount(s), PhotonCount(ps.photonsPerIter, iterations),
                 aces, sqrt, 3 * q + c);
  }

  /** A pixel whose eye path ends on a Lambertian surface shows the hit
      point the eye pass made for it, as the photon passes left it. */
  lemma RenderedLit(s: EyeSetup, ps: PhotonSetup, iterations: int, aces: Color -> Color, sqrt: real -> real,
                    q: int, c: int)
    requires RenderReady(s, ps, iterations, sqrt) && 0 <= q < PixelCount(s) && 0 <= c < 3
    requires PixelHit(s, q, sqrt).Some?
    ensures exists k :: 0 <= k < |FinalHits(s, ps, iterations, sqrt)| &&
              var hp := FinalHits(s, ps, iterations, sqrt)[k];
              hp.(est := PixelHit(s, q, sqrt).value.est) == PixelHit(s, q, sqrt).value && hp.est.r2 > 0.0 &&
              Rendered(s, ps, iterations, aces, sqrt)[3 * q + c] ==
              HitPointBytes(hp, PhotonCount(ps.photonsPerIter, iterations), aces, sqrt)[c]
  {
    var n := PixelCount(s);
    var hps := FinalHits(s, ps, iterations, sqrt);
    FinalPaintable(s, ps, iterations, sqrt);
    var k := FirstHitOf(s, sqrt, q);
    FirstHitAt(s, sqrt, k);
    FinalHitsAt(s, ps, iterations, sqrt, k);
    PaintedDistinct(hps, n, PhotonCount(ps.photonsPerIter, iterations), aces, sqrt, k, c);
  }
}
