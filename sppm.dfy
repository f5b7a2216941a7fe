// Stochastic progressive photon mapping (renderer_sppm.h): the eye pass
// that leaves one hit point per pixel at the first diffuse surface, the
// single-cell hash grid over the hit points, the photon loop with its
// gathering and Russian roulette, the radius reduction and the final
// buffer writes. The scene, the camera and every random draw are inputs.

module Sppm {
  import opened Options
  import opened Vectors
  import opened Utils
  import opened Rays
  import opened Materials
  import opened HitRecords
  import opened Scattering
  import opened SpatialHash
  import opened Progressive
  import opened FrameBuffer
  import opened RendererCommon

  /** HitPoint: position, normal, direction towards the camera, material,
      throughput, pixel and the photon statistics (flux, n_photons,
      accumulated_flux, accumulated_photon_count, radius_squared). */
  datatype HitPoint = HitPoint(p: Point3, normal: Vec3, wo: Vec3, mat: Material,
                               throughput: Color, pixelIndex: int, est: Estimate)

  // ---------------------------------------------------------------------
  // Eye pass

  /** Where the eye path of a pixel ends, from bounce `depth` on with the
      given throughput: the record of the first Lambertian surface, the
      throughput including its albedo, and the ray that reached it. None
      when the path leaves the scene, is absorbed or emits, or reaches
      max_depth bounces. Bounce `depth` of pixel `pixel` draws samples(pixel, depth). */
  function EyePath(r: Ray, pixel: int, depth: nat, maxDepth: int, throughput: Color,
                   world: World, samples: (int, nat) -> Samples, sqrt: real -> real)
    : (res: Option<(HitRecord, Color, Ray)>)
    requires IsSqrt(sqrt) && SceneOracle(world)
    ensures res.Some? ==>
              var (rec, _, ray) := res.value;
              world(ray) == Some(rec) && ray.dir != Zero &&
              rec.mat.Some? && rec.mat.value.Lambertian?
    ensures depth >= maxDepth ==> res.None?
    decreases maxDepth - depth
  {
    if depth >= maxDepth || world(r).None? || r.dir == Zero then None
    else
      var rec := world(r).value;
      var m := rec.mat.value;
      var sc := Scatter(m, r, rec, Zero, NoRay, samples(pixel, depth), sqrt);
      if !sc.ok then None
      else if m.Lambertian? then Some((rec, throughput.Times(sc.attenuation), r))
      else EyePath(sc.ray, pixel, depth + 1, maxDepth, throughput.Times(sc.attenuation), world, samples, sqrt)
  }

  /** The hit point the eye pass stores: the record's point and normal, the
      reversed unit direction of the ray, radius^2 = initial_radius^2 and
      all counters zero. */
  function NewHitPoint(rec: HitRecord, throughput: Color, r: Ray, pixel: int, initialRadius: real,
                       sqrt: real -> real): (hp: HitPoint)
    requires IsSqrt(sqrt) && r.dir != Zero && rec.mat.Some?
    ensures hp.p == rec.p && hp.normal == rec.normal && hp.mat == rec.mat.value
    ensures hp.wo.LengthSquared() == 1.0 && hp.wo.Dot(r.dir) < 0.0
    ensures hp.pixelIndex == pixel && hp.throughput == throughput
    ensures hp.est == Initial(initialRadius * initialRadius) && ValidEstimate(hp.est)
  {
    var u := UnitVector(r.dir, sqrt);
    UnitVectorDotSign(r.dir, r.dir, sqrt);
    LengthSquaredNonNegative(r.dir);
    NegLengthSquared(u);
    SqNonNegative(initialRadius);
    assert u.Neg().Dot(r.dir) == -u.Dot(r.dir);
    HitPoint(rec.p, rec.normal, u.Neg(), rec.mat.value, throughput, pixel,
             Initial(initialRadius * initialRadius))
  }

  /** The hit point a pixel's eye path leaves, if any. */
  function PixelHitPoint(r0: Ray, pixel: int, maxDepth: int, initialRadius: real, world: World,
                         samples: (int, nat) -> Samples, sqrt: real -> real): (hp: Option<HitPoint>)
    requires IsSqrt(sqrt) && SceneOracle(world)
    ensures hp.Some? ==> hp.value.mat.Lambertian? && hp.value.pixelIndex == pixel &&
                         hp.value.est == Initial(initialRadius * initialRadius)
    ensures hp.Some? <==> EyePath(r0, pixel, 0, maxDepth, White, world, samples, sqrt).Some?
  {
    match EyePath(r0, pixel, 0, maxDepth, White, world, samples, sqrt)
    case None => None
    case Some((rec, t, r)) => Some(NewHitPoint(rec, t, r, pixel, initialRadius, sqrt))
  }

  /** The while loop of the eye pass for one pixel: follow specular and
      refractive bounces, multiplying the throughput by each attenuation,
      and stop at the first Lambertian surface (recording it), at a miss, at
      a surface that does not scatter, or after max_depth bounces. */
  method TracePixel(r0: Ray, pixel: int, maxDepth: int, initialRadius: real, world: World,
                    samples: (int, nat) -> Samples, sqrt: real -> real) returns (hp: Option<HitPoint>)
    requires IsSqrt(sqrt) && SceneOracle(world)
    ensures hp == PixelHitPoint(r0, pixel, maxDepth, initialRadius, world, samples, sqrt)
  {
    var r := r0;
    var throughput := White;
    var depth: nat := 0;
    while depth < maxDepth
      invariant EyePath(r0, pixel, 0, maxDepth, White, world, samples, sqrt) ==
                EyePath(r, pixel, depth, maxDepth, throughput, world, samples, sqrt)
      decreases maxDepth - depth
    {
      var h := world(r);
      if h.None? || r.dir == Zero {
        return None;
      }
      var rec := h.value;
      var m := rec.mat.value;
      var sc := Scatter(m, r, rec, Zero, NoRay, samples(pixel, depth), sqrt);
      if !sc.ok {
        return None;
      }
      if m.Lambertian? {
        return Some(NewHitPoint(rec, throughput.Times(sc.attenuation), r, pixel, initialRadius, sqrt));
      }
      throughput := throughput.Times(sc.attenuation);
      r := sc.ray;
      depth := depth + 1;
    }
    return None;
  }

  /** What the eye pass depends on: image size, max_depth, initial_radius,
      the jittered camera ray of pixel (i, j), the scene and the samples
      each bounce draws. */
  datatype EyeSetup = EyeSetup(width: int, height: int, maxDepth: int, initialRadius: real,
                               camera: (int, int) -> Ray, world: World, samples: (int, nat) -> Samples)

  /** The hit point of buffer pixel q (column q % w, image row h-1-q/w). */
  function PixelHit(s: EyeSetup, q: int, sqrt: real -> real): (hp: Option<HitPoint>)
    requires IsSqrt(sqrt) && SceneOracle(s.world) && s.width > 0
    ensures hp.Some? ==> hp.value.mat.Lambertian? && hp.value.pixelIndex == q &&
                         hp.value.est == Initial(s.initialRadius * s.initialRadius)
  {
    PixelHitPoint(s.camera(Column(s.width, q), Row(s.width, s.height, q)), q, s.maxDepth,
                  s.initialRadius, s.world, s.samples, sqrt)
  }

  /** The outcome of buffer pixels 0 .. n-1, in pixel order: the order in
      which the loops (j from h-1 down, i up) visit the pixels. */
  function PixelHits(s: EyeSetup, n: nat, sqrt: real -> real): (ph: seq<Option<HitPoint>>)
    requires IsSqrt(sqrt) && SceneOracle(s.world) && (n == 0 || s.width > 0)
    ensures |ph| == n
  {
    if n == 0 then [] else PixelHits(s, n - 1, sqrt) + [PixelHit(s, n - 1, sqrt)]
  }

  /** Position q of the outcomes is the outcome of pixel q. */
  lemma {:induction false} PixelHitsAt(s: EyeSetup, n: nat, q: nat, sqrt: real -> real)
    requires IsSqrt(sqrt) && SceneOracle(s.world) && s.width > 0 && q < n
    ensures PixelHits(s, n, sqrt)[q] == PixelHit(s, q, sqrt)
  {
    if q < n - 1 {
      PixelHitsAt(s, n - 1, q, sqrt);
    }
  }

  /** The hit points of a sequence of pixel outcomes, in order. */
  function Compact(ph: seq<Option<HitPoint>>): seq<HitPoint> {
    if |ph| == 0 then []
    else Compact(ph[..|ph| - 1]) + (match ph[|ph| - 1] case None => [] case Some(hp) => [hp])
  }

  /** The hit points the eye pass records for pixels 0 .. n-1. */
  function Recorded(s: EyeSetup, n: nat, sqrt: real -> real): seq<HitPoint>
    requires IsSqrt(sqrt) && SceneOracle(s.world) && (n == 0 || s.width > 0)
  {
    Compact(PixelHits(s, n, sqrt))
  }

  /** Every outcome that is a hit point is tagged with its own position. */
  predicate Tagged(ph: seq<Option<HitPoint>>) {
    forall q :: 0 <= q < |ph| && ph[q].Some? ==> ph[q].value.pixelIndex == q
  }

  /** Compacting tagged outcomes keeps at most one hit point per position,
      in strictly increasing order, each the outcome at its own position,
      and keeps every position that has one. */
  lemma {:induction false} CompactTagged(ph: seq<Option<HitPoint>>)
    requires Tagged(ph)
    ensures |Compact(ph)| <= |ph|
    ensures forall k :: 0 <= k < |Compact(ph)| ==>
              0 <= Compact(ph)[k].pixelIndex < |ph| && ph[Compact(ph)[k].pixelIndex] == Some(Compact(ph)[k])
    ensures forall a, b :: 0 <= a < b < |Compact(ph)| ==> Compact(ph)[a].pixelIndex < Compact(ph)[b].pixelIndex
    ensures forall q :: 0 <= q < |ph| ==>
              (ph[q].Some? <==> exists k :: 0 <= k < |Compact(ph)| && Compact(ph)[k].pixelIndex == q)
  {
    if |ph| > 0 {
      var init := ph[..|ph| - 1];
      assert Tagged(init) by {
        forall q | 0 <= q < |init| && init[q].Some? ensures init[q].value.pixelIndex == q {
          assert init[q] == ph[q];
        }
      }
      CompactTagged(init);
      var front := Compact(init);
      var all := Compact(ph);
      var n := |ph|;
      forall k | 0 <= k < |front| ensures ph[front[k].pixelIndex] == Some(front[k]) {
        assert init[front[k].pixelIndex] == ph[front[k].pixelIndex];
      }
      if ph[n - 1].None? {
        assert all == front;
        forall q | 0 <= q < n
          ensures ph[q].Some? <==> exists k :: 0 <= k < |all| && all[k].pixelIndex == q
        {
          if q < n - 1 {
            assert init[q] == ph[q];
          }
        }
      } else {
        var hp := ph[n - 1].value;
        assert all == front + [hp];
        assert hp.pixelIndex == n - 1;
        forall k | 0 <= k < |all|
          ensures 0 <= all[k].pixelIndex < n && ph[all[k].pixelIndex] == Some(all[k])
        {
          if k < |front| {
            assert all[k] == front[k];
          }
        }
        forall q | 0 <= q < n
          ensures ph[q].Some? <==> exists k :: 0 <= k < |all| && all[k].pixelIndex == q
        {
          if q < n - 1 {
            assert init[q] == ph[q];
            if exists k :: 0 <= k < |all| && all[k].pixelIndex == q {
              var k :| 0 <= k < |all| && all[k].pixelIndex == q;
              assert k < |front|;
              assert front[k].pixelIndex == q;
            }
            if ph[q].Some? {
              var k :| 0 <= k < |front| && front[k].pixelIndex == q;
              assert all[k] == front[k];
            }
          } else {
            assert all[|all| - 1].pixelIndex == q;
          }
        }
      }
    }
  }

  /** Every pixel's outcome is tagged with its own buffer index. */
  lemma PixelHitsTagged(s: EyeSetup, n: nat, sqrt: real -> real)
    requires IsSqrt(sqrt) && SceneOracle(s.world) && (n == 0 || s.width > 0)
    ensures Tagged(PixelHits(s, n, sqrt))
  {
    var ph := PixelHits(s, n, sqrt);
    forall q | 0 <= q < n && ph[q].Some? ensures ph[q].value.pixelIndex == q {
      PixelHitsAt(s, n, q, sqrt);
    }
  }

  /** The eye pass records at most one hit point per pixel, in strictly
      increasing pixel order. */
  lemma RecordedOrder(s: EyeSetup, n: nat, sqrt: real -> real)
    requires IsSqrt(sqrt) && SceneOracle(s.world) && (n == 0 || s.width > 0)
    ensures |Recorded(s, n, sqrt)| <= n
    ensures forall a, b :: 0 <= a < b < |Recorded(s, n, sqrt)| ==>
              Recorded(s, n, sqrt)[a].pixelIndex < Recorded(s, n, sqrt)[b].pixelIndex
  {
    PixelHitsTagged(s, n, sqrt);
    CompactTagged(PixelHits(s, n, sqrt));
  }

  /** Each recorded hit point is the end of its own pixel's eye path: a
      Lambertian point with radius^2 = initial_radius^2 and zero counters. */
  lemma RecordedPixels(s: EyeSetup, n: nat, sqrt: real -> real)
    requires IsSqrt(sqrt) && SceneOracle(s.world) && (n == 0 || s.width > 0)
    ensures forall k :: 0 <= k < |Recorded(s, n, sqrt)| ==>
              0 <= Recorded(s, n, sqrt)[k].pixelIndex < n &&
              PixelHit(s, Recorded(s, n, sqrt)[k].pixelIndex, sqrt) == Some(Recorded(s, n, sqrt)[k]) &&
              Recorded(s, n, sqrt)[k].mat.Lambertian? &&
              Recorded(s, n, sqrt)[k].est == Initial(s.initialRadius * s.initialRadius)
  {
    if n > 0 {
      forall k | 0 <= k < |Recorded(s, n, sqrt)|
        ensures 0 <= Recorded(s, n, sqrt)[k].pixelIndex < n &&
                PixelHit(s, Recorded(s, n, sqrt)[k].pixelIndex, sqrt) == Some(Recorded(s, n, sqrt)[k]) &&
                Recorded(s, n, sqrt)[k].mat.Lambertian? &&
                Recorded(s, n, sqrt)[k].est == Initial(s.initialRadius * s.initialRadius)
      {
        RecordedPixelAt(s, n, sqrt, k);
      }
    }
  }

  /** Recorded hit point k, one at a time. */
  lemma RecordedPixelAt(s: EyeSetup, n: nat, sqrt: real -> real, k: nat)
    requires IsSqrt(sqrt) && SceneOracle(s.world) && s.width > 0 && k < |Recorded(s, n, sqrt)|
    ensures 0 <= Recorded(s, n, sqrt)[k].pixelIndex < n
    ensures PixelHit(s, Recorded(s, n, sqrt)[k].pixelIndex, sqrt) == Some(Recorded(s, n, sqrt)[k])
  {
    PixelHitsTagged(s, n, sqrt);
    CompactAt(PixelHits(s, n, sqrt), k);
    PixelHitsAt(s, n, Recorded(s, n, sqrt)[k].pixelIndex, sqrt);
  }

  /** Compacted hit point k is the outcome at its own position. */
  lemma CompactAt(ph: seq<Option<HitPoint>>, k: nat)
    requires Tagged(ph) && k < |Compact(ph)|
    ensures 0 <= Compact(ph)[k].pixelIndex < |ph| && ph[Compact(ph)[k].pixelIndex] == Some(Compact(ph)[k])
  {
    CompactTagged(ph);
  }

  /** A pixel has a recorded hit point exactly when its eye path ends on a
      Lambertian surface. */
  lemma RecordedComplete(s: EyeSetup, n: nat, sqrt: real -> real)
    requires IsSqrt(sqrt) && SceneOracle(s.world) && (n == 0 || s.width > 0)
    ensures forall q :: 0 <= q < n ==>
              (PixelHit(s, q, sqrt).Some? <==>
               exists k :: 0 <= k < |Recorded(s, n, sqrt)| && Recorded(s, n, sqrt)[k].pixelIndex == q)
  {
    var ph := PixelHits(s, n, sqrt);
    var hps := Recorded(s, n, sqrt);
    PixelHitsTagged(s, n, sqrt);
    CompactTagged(ph);
    forall q | 0 <= q < n
      ensures PixelHit(s, q, sqrt).Some? <==> exists k :: 0 <= k < |hps| && hps[k].pixelIndex == q
    {
      PixelHitsAt(s, n, q, sqrt);
    }
  }

  /** Visiting one more pixel appends its hit point, if any. */
  lemma RecordedStep(s: EyeSetup, q: nat, sqrt: real -> real, hp: Option<HitPoint>)
    requires IsSqrt(sqrt) && SceneOracle(s.world) && s.width > 0
    requires hp == PixelHit(s, q, sqrt)
    ensures Recorded(s, q + 1, sqrt) == Recorded(s, q, sqrt) + (if hp.Some? then [hp.value] else [])
  {
    assert PixelHits(s, q + 1, sqrt) == PixelHits(s, q, sqrt) + [hp];
    CompactSnoc(PixelHits(s, q, sqrt), hp);
  }

  /** Compacting one more outcome appends its hit point, if any. */
  lemma CompactSnoc(ph: seq<Option<HitPoint>>, o: Option<HitPoint>)
    ensures Compact(ph + [o]) == Compact(ph) + (if o.Some? then [o.value] else [])
  {
    assert (ph + [o])[..|ph|] == ph;
  }

  /** The eye path of pixel (i, j), recorded at buffer index
      (h-1-j) w + i = base + i. */
  method EyePixel(s: EyeSetup, base: nat, i: nat, j: int, sqrt: real -> real) returns (hp: Option<HitPoint>)
    requires IsSqrt(sqrt) && SceneOracle(s.world) && i < s.width && base == (s.height - 1 - j) * s.width
    ensures hp == PixelHit(s, base + i, sqrt)
  {
    var q := base + i;
    DivUnique(q, s.width, s.height - 1 - j, i);
    assert Column(s.width, q) == i && Row(s.width, s.height, q) == j;
    hp := TracePixel(s.camera(i, j), q, s.maxDepth, s.initialRadius, s.world, s.samples, sqrt);
  }

  /** One row of the eye pass: image row j, whose pixels take the buffer
      indices base .. base+w-1, left to right. */
  method EyeRow(s: EyeSetup, base: nat, j: int, sqrt: real -> real, hps: seq<HitPoint>)
    returns (hps': seq<HitPoint>)
    requires IsSqrt(sqrt) && SceneOracle(s.world) && s.width > 0 && base == (s.height - 1 - j) * s.width
    requires hps == Recorded(s, base, sqrt)
    ensures hps' == Recorded(s, base + s.width, sqrt)
  {
    hps' := hps;
    for i := 0 to s.width
      invariant hps' == Recorded(s, base + i, sqrt)
    {
      var hp := EyePixel(s, base, i, j, sqrt);
      RecordedStep(s, base + i, sqrt, hp);
      if hp.Some? {
        hps' := hps' + [hp.value];
      }
    }
  }

  /** The eye pass: every pixel, rows from the top of the image down, left
      to right, appending the hit point its path leaves, if any. */
  method EyePass(s: EyeSetup, sqrt: real -> real) returns (hps: seq<HitPoint>)
    requires IsSqrt(sqrt) && SceneOracle(s.world) && s.width > 0 && s.height >= 0
    ensures hps == Recorded(s, s.width * s.height, sqrt)
  {
    hps := [];
    var j := s.height - 1;
    var base: nat := 0;
    while j >= 0
      invariant -1 <= j < s.height && base == (s.height - 1 - j) * s.width
      invariant hps == Recorded(s, base, sqrt)
    {
      hps := EyeRow(s, base, j, sqrt, hps);
      NextRowBase(s.height - 1 - j, s.width);
      j := j - 1;
      base := base + s.width;
    }
    assert base == s.height * s.width;
    MulCommutes(s.height, s.width);
  }

  lemma NextRowBase(row: int, w: int)
    ensures row * w + w == (row + 1) * w
  {
  }

  lemma MulCommutes(a: int, b: int)
    ensures a * b == b * a
  {
  }

  // ---------------------------------------------------------------------
  // Hash grid

  /** The bucket of each hit point: the hash of its truncated cell. */
  function Keys(hps: seq<HitPoint>, cellSize: real, size: int): (keys: seq<int>)
    requires size > 0 && cellSize != 0.0
    ensures |keys| == |hps|
    ensures forall i :: 0 <= i < |hps| ==> keys[i] == HashCoords(TruncCell(hps[i].p, cellSize), size)
  {
    seq(|hps|, i requires 0 <= i < |hps| => HashCoords(TruncCell(hps[i].p, cellSize), size))
  }

  /** HashGrid: a vector of buckets of hit-point indices over truncated
      cells. */
  class HashGrid {
    const cellSize: real
    const size: int
    const table: array<seq<nat>>

    /** HashGrid(cell_size, size): size empty buckets. */
    constructor(cellSize: real, size: int)
      requires 0 <= size
      ensures this.cellSize == cellSize && this.size == size
      ensures fresh(table) && table.Length == size
      ensures forall b :: 0 <= b < size ==> table[b] == []
    {
      this.cellSize := cellSize;
      this.size := size;
      table := new seq<nat>[size](_ => []);
    }

    /** hash: the bucket of the truncated cell of p. */
    function Hash(p: Point3): (h: int)
      requires size > 0 && cellSize != 0.0
      ensures 0 <= h < size
      ensures h == HashCoords(TruncCell(p, cellSize), size)
    {
      HashCoords(TruncCell(p, cellSize), size)
    }

    /** Every stored index names one of n hit points. */
    predicate IndexesBelow(n: int)
      reads table
    {
      forall b, j :: 0 <= b < table.Length && 0 <= j < |table[b]| ==> table[b][j] < n
    }

    /** Built and unchanged since: the buckets are t, indexing n hit points. */
    ghost predicate Holds(t: seq<seq<nat>>, n: int)
      reads table
    {
      table.Length == size > 0 && cellSize != 0.0 && IndexesBelow(n) && table[..] == t
    }

    /** build: clear every bucket, then append each hit point's index to
        the bucket of its own cell only. */
    method Build(hps: array<HitPoint>)
      requires table.Length == size > 0 && cellSize != 0.0
      modifies table
      ensures BuiltFrom(table[..], Keys(hps[..], cellSize, size))
      ensures IndexesBelow(hps.Length)
    {
      Clear();
      ghost var keys := Keys(hps[..], cellSize, size);
      assert keys[..0] == [];
      for i := 0 to hps.Length
        invariant forall c :: 0 <= c < size ==> table[c] == Bucket(keys[..i], c)
      {
        var idx := Hash(hps[i].p);
        BucketExtend(keys, i);
        table[idx] := table[idx] + [i];
      }
      assert keys[..hps.Length] == keys;
      BuiltIndexesBelow(table[..], keys);
    }

    /** The first loop of build: every bucket emptied. */
    method Clear()
      requires table.Length == size
      modifies table
      ensures forall c :: 0 <= c < size ==> table[c] == []
    {
      for b := 0 to size
        invariant forall c :: 0 <= c < b ==> table[c] == []
      {
        table[b] := [];
      }
    }

    /** find_nearby: append the contents of the single bucket hash(p) to
        result; neighbouring cells are not looked at. */
    method FindNearby(p: Point3, result: seq<nat>) returns (out: seq<nat>)
      requires size > 0 && cellSize != 0.0 && table.Length == size
      ensures out == result + table[Hash(p)]
    {
      var bucket := table[Hash(p)];
      out := result;
      for q := 0 to |bucket|
        invariant out == result + bucket[..q]
      {
        assert bucket[..q + 1] == bucket[..q] + [bucket[q]];
        out := out + [bucket[q]];
      }
      assert bucket[..|bucket|] == bucket;
    }
  }

  /** After build, find_nearby adds exactly the hit points whose own cell
      hashes to the bucket of p's cell, each once. */
  lemma FindNearbyMembers(table: seq<seq<nat>>, hps: seq<HitPoint>, cellSize: real, p: Point3,
                          result: seq<nat>, out: seq<nat>)
    requires |table| > 0 && cellSize != 0.0
    requires BuiltFrom(table, Keys(hps, cellSize, |table|))
    requires out == result + table[HashCoords(TruncCell(p, cellSize), |table|)]
    ensures forall k: nat :: multiset(out)[k] == multiset(result)[k] +
              (if k < |hps| && HashCoords(TruncCell(hps[k].p, cellSize), |table|) ==
                               HashCoords(TruncCell(p, cellSize), |table|) then 1 else 0)
  {
    var keys := Keys(hps, cellSize, |table|);
    var h := HashCoords(TruncCell(p, cellSize), |table|);
    forall k: nat
      ensures multiset(out)[k] == multiset(result)[k] +
              (if k < |hps| && HashCoords(TruncCell(hps[k].p, cellSize), |table|) == h then 1 else 0)
    {
      BucketCount(keys, h, k);
    }
  }

  // ---------------------------------------------------------------------
  // Photon pass

  /** Where a photon lands on a Lambertian surface, with the power it
      carries there. */
  datatype Deposit = Deposit(p: Point3, normal: Vec3, power: Color)

  /** The gate of the photon loop: a hit point within its radius of the
      photon whose normal agrees with the surface normal (dot > 0.5). */
  predicate Gathers(hp: HitPoint, p: Point3, n: Vec3) {
    hp.p.Minus(p).LengthSquared() <= hp.est.r2 && hp.normal.Dot(n) > 0.5
  }

  /** Hit point hp after `visits` entries of the photon's bucket name it. */
  function Credited(hp: HitPoint, d: Deposit, visits: nat): (hp': HitPoint)
    ensures hp'.(est := hp.est) == hp
    ensures hp'.est.r2 == hp.est.r2 && hp'.est.nAccum == hp.est.nAccum && hp'.est.fluxAccum == hp.est.fluxAccum
    ensures ValidEstimate(hp.est) ==> ValidEstimate(hp'.est)
    ensures hp'.est.nNew == hp.est.nNew + (if Gathers(hp, d.p, d.normal) then visits as real else 0.0)
  {
    hp.(est := Credit(hp.est, if Gathers(hp, d.p, d.normal) then visits else 0, d.power))
  }

  lemma CreditedAdditive(hp: HitPoint, d: Deposit, a: nat, b: nat)
    ensures Credited(Credited(hp, d, a), d, b) == Credited(hp, d, a + b)
  {
    if Gathers(hp, d.p, d.normal) {
      CreditAdditive(hp.est, a, b, d.power);
    } else {
      CreditNone(hp.est, d.power);
    }
  }

  /** Russian roulette after a bounce: p is the largest attenuation
      channel; the photon survives iff random <= p, and its power becomes
      power * attenuation / p. Dividing by p = 0 has no real value: that
      photon stops. */
  function Roulette(power: Color, attenuation: Color, u: real): (next: Option<Color>)
    ensures next.Some? <==> u <= MaxInXyz(attenuation) && MaxInXyz(attenuation) != 0.0
  {
    var p := MaxInXyz(attenuation);
    if u > p || p == 0.0 then None else Some(power.Times(attenuation).Div(p))
  }

  /** The roulette is unbiased: p times the surviving power is power times
      attenuation. */
  lemma RouletteUnbiased(power: Color, attenuation: Color, u: real)
    requires Roulette(power, attenuation, u).Some?
    ensures Roulette(power, attenuation, u).value.Scale(MaxInXyz(attenuation)) == power.Times(attenuation)
  {
    var p := MaxInXyz(attenuation);
    ScaleUndoesDiv(power.Times(attenuation), p);
  }

  /** Scaling by p undoes dividing by p. */
  lemma ScaleUndoesDiv(v: Vec3, p: real)
    requires p != 0.0
    ensures v.Div(p).Scale(p) == v
  {
    DivCancels(v.x, p);
    DivCancels(v.y, p);
    DivCancels(v.z, p);
  }

  lemma DivCancels(a: real, p: real)
    requires p != 0.0
    ensures p * (a / p) == a
  {
  }

  /** With non-negative power and attenuation the roulette never raises a
      photon's power in any channel. */
  lemma RouletteNeverGains(power: Color, attenuation: Color, u: real)
    requires Roulette(power, attenuation, u).Some?
    requires 0.0 <= attenuation.x && 0.0 <= attenuation.y && 0.0 <= attenuation.z
    requires 0.0 <= power.x && 0.0 <= power.y && 0.0 <= power.z
    ensures var next := Roulette(power, attenuation, u).value;
            next.x <= power.x && next.y <= power.y && next.z <= power.z
  {
    var p := MaxInXyz(attenuation);
    var next := Roulette(power, attenuation, u).value;
    assert next == power.Times(attenuation).Div(p);
    RouletteChannel(power.x, attenuation.x, p, next.x);
    RouletteChannel(power.y, attenuation.y, p, next.y);
    RouletteChannel(power.z, attenuation.z, p, next.z);
  }

  /** One channel: y = x a / p. */
  lemma RouletteChannel(x: real, a: real, p: real, y: real)
    requires p != 0.0 && y == (x * a) / p
    ensures p * y == x * a
    ensures 0.0 <= x && 0.0 <= a <= p ==> y <= x
  {
    assert y * p == x * a;
    if 0.0 <= x && 0.0 <= a <= p {
      assert (x - y) * p == x * (p - a);
      MulNonNegative(x, p - a);
      ProductSign(x - y, p, x * (p - a));
    }
  }

  /** What a photon leaves where it hits: its power, when the surface is
      Lambertian. */
  function HitDeposits(rec: HitRecord, power: Color): (ds: seq<Deposit>)
    requires rec.mat.Some?
    ensures |ds| <= 1
    ensures |ds| == 1 <==> rec.mat.value.Lambertian?
    ensures |ds| == 1 ==> ds[0] == Deposit(rec.p, rec.normal, power)
  {
    if rec.mat.value.Lambertian? then [Deposit(rec.p, rec.normal, power)] else []
  }

  /** After a hit: the photon scatters and, if it survives the roulette,
      goes on with the scattered ray and the reweighted power. None when
      the ray has no direction, the surface does not scatter or the
      roulette kills it. Bounce `depth` of photon `id` draws samples(id,
      depth) and the roulette number us(id, depth). */
  function PhotonStep(r: Ray, rec: HitRecord, power: Color, id: int, depth: nat,
                      samples: (int, nat) -> Samples, us: (int, nat) -> real, sqrt: real -> real)
    : (next: Option<(Ray, Color)>)
    requires IsSqrt(sqrt) && rec.mat.Some?
    requires rec.mat.value.Dielectric? ==> 0.0 < rec.mat.value.ir
    ensures next.Some? ==> r.dir != Zero && !rec.mat.value.DiffuseLight?
  {
    if r.dir == Zero then None
    else
      var sc := Scatter(rec.mat.value, r, rec, Zero, NoRay, samples(id, depth), sqrt);
      if !sc.ok then None
      else
        match Roulette(power, sc.attenuation, us(id, depth))
        case None => None
        case Some(next) => Some((sc.ray, next))
  }

  /** The deposits of one photon, from bounce `depth` on: at every hit of a
      Lambertian surface (before it scatters) the photon offers its power to
      the grid, then takes its next step. A miss, a step that ends the photon
      and max_depth bounces end the path. */
  function PhotonPath(r: Ray, power: Color, id: int, depth: nat, maxDepth: int, world: World,
                      samples: (int, nat) -> Samples, us: (int, nat) -> real, sqrt: real -> real)
    : (ds: seq<Deposit>)
    requires IsSqrt(sqrt) && SceneOracle(world)
    ensures depth >= maxDepth ==> ds == []
    ensures depth < maxDepth ==> |ds| <= maxDepth - depth
    decreases maxDepth - depth
  {
    if depth >= maxDepth || world(r).None? then []
    else
      var rec := world(r).value;
      var here := HitDeposits(rec, power);
      match PhotonStep(r, rec, power, id, depth, samples, us, sqrt)
      case None => here
      case Some((r', power')) =>
        here + PhotonPath(r', power', id, depth + 1, maxDepth, world, samples, us, sqrt)
  }

  /** One bounce of a photon path: what the hit leaves, then the rest of
      the path if the photon goes on. */
  lemma PhotonPathStep(r: Ray, power: Color, id: int, depth: nat, maxDepth: int, world: World,
                       samples: (int, nat) -> Samples, us: (int, nat) -> real, sqrt: real -> real,
                       next: Option<(Ray, Color)>)
    requires IsSqrt(sqrt) && SceneOracle(world) && depth < maxDepth && world(r).Some?
    requires next == PhotonStep(r, world(r).value, power, id, depth, samples, us, sqrt)
    ensures next.None? ==> PhotonPath(r, power, id, depth, maxDepth, world, samples, us, sqrt) ==
                           HitDeposits(world(r).value, power)
    ensures next.Some? ==> PhotonPath(r, power, id, depth, maxDepth, world, samples, us, sqrt) ==
                           HitDeposits(world(r).value, power) +
                           PhotonPath(next.value.0, next.value.1, id, depth + 1, maxDepth, world, samples, us, sqrt)
  {
  }

  /** A deposit reported by the scene: its point and normal are those of a
      Lambertian surface the scene returns for some ray. */
  ghost predicate OnDiffuseSurface(world: World, d: Deposit) {
    exists ray: Ray :: world(ray).Some? && world(ray).value.p == d.p &&
                       world(ray).value.normal == d.normal &&
                       world(ray).value.mat.Some? && world(ray).value.mat.value.Lambertian?
  }

  /** Every deposit is on a Lambertian surface the scene reports. */
  lemma {:induction false} PhotonPathDiffuse(r: Ray, power: Color, id: int, depth: nat, maxDepth: int, world: World,
                                             samples: (int, nat) -> Samples, us: (int, nat) -> real, sqrt: real -> real)
    requires IsSqrt(sqrt) && SceneOracle(world)
    ensures forall i :: 0 <= i < |PhotonPath(r, power, id, depth, maxDepth, world, samples, us, sqrt)| ==>
              OnDiffuseSurface(world, PhotonPath(r, power, id, depth, maxDepth, world, samples, us, sqrt)[i])
    decreases maxDepth - depth
  {
    if depth < maxDepth && world(r).Some? {
      var rec := world(r).value;
      var here := HitDeposits(rec, power);
      var ds := PhotonPath(r, power, id, depth, maxDepth, world, samples, us, sqrt);
      var step := PhotonStep(r, rec, power, id, depth, samples, us, sqrt);
      var rest: seq<Deposit> := [];
      if step.Some? {
        var (r', power') := step.value;
        rest := PhotonPath(r', power', id, depth + 1, maxDepth, world, samples, us, sqrt);
        PhotonPathDiffuse(r', power', id, depth + 1, maxDepth, world, samples, us, sqrt);
      }
      assert ds == here + rest;
      forall i | 0 <= i < |ds|
        ensures OnDiffuseSurface(world, ds[i])
      {
        if i < |here| {
          assert ds[i] == here[0] == Deposit(rec.p, rec.normal, power);
          assert world(r).Some? && world(r).value.mat.value.Lambertian?;
        } else {
          assert ds[i] == rest[i - |here|];
        }
      }
    }
  }

  /** The bucket the photon loop reads for a photon at p. */
  function PhotonBucket(table: seq<seq<nat>>, cellSize: real, p: Point3): seq<nat>
    requires |table| > 0 && cellSize != 0.0
  {
    table[HashCoords(TruncCell(p, cellSize), |table|)]
  }

  /** Hit point k after the deposits ds, each crediting it once per entry
      of the photon's own bucket that names it. */
  function AfterDeposits(table: seq<seq<nat>>, cellSize: real, hp: HitPoint, k: nat, ds: seq<Deposit>): HitPoint
    requires |table| > 0 && cellSize != 0.0
  {
    if |ds| == 0 then hp
    else
      var d := ds[|ds| - 1];
      Credited(AfterDeposits(table, cellSize, hp, k, ds[..|ds| - 1]), d, multiset(PhotonBucket(table, cellSize, d.p))[k])
  }

  /** Deposits change only a hit point's per-iteration counters, and keep
      its statistics valid. */
  lemma {:induction false} AfterDepositsKeeps(table: seq<seq<nat>>, cellSize: real, hp: HitPoint, k: nat,
                                              ds: seq<Deposit>)
    requires |table| > 0 && cellSize != 0.0
    ensures AfterDeposits(table, cellSize, hp, k, ds).(est := hp.est) == hp
    ensures AfterDeposits(table, cellSize, hp, k, ds).est.r2 == hp.est.r2
    ensures AfterDeposits(table, cellSize, hp, k, ds).est.nAccum == hp.est.nAccum
    ensures AfterDeposits(table, cellSize, hp, k, ds).est.fluxAccum == hp.est.fluxAccum
    ensures ValidEstimate(hp.est) ==> ValidEstimate(AfterDeposits(table, cellSize, hp, k, ds).est)
  {
    if |ds| > 0 {
      AfterDepositsKeeps(table, cellSize, hp, k, ds[..|ds| - 1]);
    }
  }

  /** Crediting a ++ b is crediting a, then b. */
  lemma {:induction false} AfterDepositsConcat(table: seq<seq<nat>>, cellSize: real, hp: HitPoint, k: nat,
                                               a: seq<Deposit>, b: seq<Deposit>)
    requires |table| > 0 && cellSize != 0.0
    ensures AfterDeposits(table, cellSize, hp, k, a + b) ==
            AfterDeposits(table, cellSize, AfterDeposits(table, cellSize, hp, k, a), k, b)
  {
    if |b| == 0 {
      assert a + b == a;
    } else {
      var b' := b[..|b| - 1];
      AfterDepositsConcat(table, cellSize, hp, k, a, b');
      assert (a + b)[..|a + b| - 1] == a + b';
      assert (a + b)[|a + b| - 1] == b[|b| - 1];
    }
  }

  /** Two deposits credit a hit point the same in either order: the
      gate looks only at the position, normal and radius, which crediting
      does not change. */
  lemma CreditedCommutes(hp: HitPoint, d1: Deposit, v1: nat, d2: Deposit, v2: nat)
    ensures Credited(Credited(hp, d1, v1), d2, v2) == Credited(Credited(hp, d2, v2), d1, v1)
  {
    var n1 := if Gathers(hp, d1.p, d1.normal) then v1 else 0;
    var n2 := if Gathers(hp, d2.p, d2.normal) then v2 else 0;
    CreditCommutes(hp.est, n1, d1.power, n2, d2.power);
  }

  /** The order of the photons does not matter (the photon loop runs in
      parallel with atomic additions): swapping two neighbouring deposits
      gives the same hit point. */
  lemma DepositOrderIrrelevant(table: seq<seq<nat>>, cellSize: real, hp: HitPoint, k: nat,
                               pre: seq<Deposit>, a: Deposit, b: Deposit, post: seq<Deposit>)
    requires |table| > 0 && cellSize != 0.0
    ensures AfterDeposits(table, cellSize, hp, k, pre + [a, b] + post) ==
            AfterDeposits(table, cellSize, hp, k, pre + [b, a] + post)
  {
    var x := AfterDeposits(table, cellSize, hp, k, pre);
    var va := multiset(PhotonBucket(table, cellSize, a.p))[k];
    var vb := multiset(PhotonBucket(table, cellSize, b.p))[k];
    assert (pre + [a, b])[..|pre| + 1] == pre + [a];
    assert (pre + [b, a])[..|pre| + 1] == pre + [b];
    assert AfterDeposits(table, cellSize, hp, k, pre + [a, b]) == Credited(Credited(x, a, va), b, vb) by {
      AfterDepositsAppend(table, cellSize, hp, k, pre, a);
      AfterDepositsAppend(table, cellSize, hp, k, pre + [a], b);
      assert pre + [a] + [b] == pre + [a, b];
    }
    assert AfterDeposits(table, cellSize, hp, k, pre + [b, a]) == Credited(Credited(x, b, vb), a, va) by {
      AfterDepositsAppend(table, cellSize, hp, k, pre, b);
      AfterDepositsAppend(table, cellSize, hp, k, pre + [b], a);
      assert pre + [b] + [a] == pre + [b, a];
    }
    CreditedCommutes(x, a, va, b, vb);
    AfterDepositsConcat(table, cellSize, hp, k, pre + [a, b], post);
    AfterDepositsConcat(table, cellSize, hp, k, pre + [b, a], post);
  }

  /** The hit points `hps` are the hit points `start` credited with the
      deposits ds. */
  predicate CreditedWith(hps: seq<HitPoint>, table: seq<seq<nat>>, cellSize: real,
                         start: seq<HitPoint>, ds: seq<Deposit>)
    requires |table| > 0 && cellSize != 0.0
  {
    |hps| == |start| && forall k :: 0 <= k < |hps| ==> hps[k] == AfterDeposits(table, cellSize, start[k], k, ds)
  }

  lemma AfterDepositsAppend(table: seq<seq<nat>>, cellSize: real, hp: HitPoint, k: nat, ds: seq<Deposit>, d: Deposit)
    requires |table| > 0 && cellSize != 0.0
    ensures AfterDeposits(table, cellSize, hp, k, ds + [d]) ==
            Credited(AfterDeposits(table, cellSize, hp, k, ds), d, multiset(PhotonBucket(table, cellSize, d.p))[k])
  {
    assert (ds + [d])[..|ds|] == ds;
  }

  /** Only the photon's cell is looked at: after build, one deposit
      credits hit point k (one photon and its power) iff the gate passes and
      k's own cell hashes to the bucket of the photon's cell; otherwise k
      is unchanged. */
  lemma SingleCellCredit(table: seq<seq<nat>>, hps: seq<HitPoint>, cellSize: real, d: Deposit, k: nat)
    requires |table| > 0 && cellSize != 0.0
    requires BuiltFrom(table, Keys(hps, cellSize, |table|))
    requires k < |hps|
    ensures var same := HashCoords(TruncCell(hps[k].p, cellSize), |table|) ==
                        HashCoords(TruncCell(d.p, cellSize), |table|);
            var after := Credited(hps[k], d, multiset(PhotonBucket(table, cellSize, d.p))[k]);
            if same && Gathers(hps[k], d.p, d.normal)
            then after.est.nNew == hps[k].est.nNew + 1.0 &&
                 after.est.fluxNew == hps[k].est.fluxNew.Plus(d.power) &&
                 after.est.r2 == hps[k].est.r2 && after.est.nAccum == hps[k].est.nAccum
            else after == hps[k]
  {
    var keys := Keys(hps, cellSize, |table|);
    BucketCount(keys, HashCoords(TruncCell(d.p, cellSize), |table|), k);
    CreditOne(hps[k].est, d.power);
    CreditNone(hps[k].est, d.power);
  }

  lemma CreditOne(e: Estimate, power: Color)
    ensures Credit(e, 1, power) == e.(nNew := e.nNew + 1.0, fluxNew := e.fluxNew.Plus(power))
  {
    assert power.Scale(1.0) == power;
  }

  /** The loop over one bucket: every hit point it names whose gate passes
      gets the photon's power and one more photon. */
  method GatherBucket(bucket: seq<nat>, d: Deposit, hps: array<HitPoint>)
    requires forall q :: 0 <= q < |bucket| ==> bucket[q] < hps.Length
    modifies hps
    ensures forall k :: 0 <= k < hps.Length ==> hps[k] == Credited(old(hps[k]), d, multiset(bucket)[k])
  {
    for q := 0 to |bucket|
      invariant forall k :: 0 <= k < hps.Length ==> hps[k] == Credited(old(hps[k]), d, multiset(bucket[..q])[k])
    {
      var k := bucket[q];
      assert bucket[..q + 1] == bucket[..q] + [k];
      var hp := hps[k];
      if hp.p.Minus(d.p).LengthSquared() <= hp.est.r2 {
        if hp.normal.Dot(d.normal) > 0.5 {
          CreditOne(hp.est, d.power);
          CreditedAdditive(old(hps[k]), d, multiset(bucket[..q])[k], 1);
          hps[k] := hp.(est := hp.est.(nNew := hp.est.nNew + 1.0, fluxNew := hp.est.fluxNew.Plus(d.power)));
        }
      }
    }
    assert bucket[..|bucket|] == bucket;
  }

  /** A photon at a Lambertian hit: look up the bucket of its cell and
      credit the hit points there, extending the deposits already made. */
  method DepositPhoton(grid: HashGrid, d: Deposit, hps: array<HitPoint>,
                       ghost start: seq<HitPoint>, ghost done: seq<Deposit>)
    requires grid.table.Length == grid.size > 0 && grid.cellSize != 0.0
    requires grid.IndexesBelow(hps.Length)
    requires CreditedWith(hps[..], grid.table[..], grid.cellSize, start, done)
    modifies hps
    ensures CreditedWith(hps[..], grid.table[..], grid.cellSize, start, done + [d])
  {
    var bucket := grid.table[grid.Hash(d.p)];
    assert bucket == PhotonBucket(grid.table[..], grid.cellSize, d.p);
    assert forall q :: 0 <= q < |bucket| ==> bucket[q] < hps.Length;
    ghost var before := hps[..];
    GatherBucket(bucket, d, hps);
    forall k | 0 <= k < hps.Length
      ensures hps[k] == AfterDeposits(grid.table[..], grid.cellSize, start[k], k, done + [d])
    {
      assert before[k] == AfterDeposits(grid.table[..], grid.cellSize, start[k], k, done);
      AfterDepositsAppend(grid.table[..], grid.cellSize, start[k], k, done, d);
    }
  }

  /** The second half of a bounce: scatter, then the roulette. */
  method Bounce(r: Ray, rec: HitRecord, power: Color, id: int, depth: nat,
                samples: (int, nat) -> Samples, us: (int, nat) -> real, sqrt: real -> real)
    returns (next: Option<(Ray, Color)>)
    requires IsSqrt(sqrt) && rec.mat.Some?
    requires rec.mat.value.Dielectric? ==> 0.0 < rec.mat.value.ir
    ensures next == PhotonStep(r, rec, power, id, depth, samples, us, sqrt)
  {
    if r.dir == Zero {
      return None;
    }
    var sc := Scatter(rec.mat.value, r, rec, Zero, NoRay, samples(id, depth), sqrt);
    if !sc.ok {
      return None;
    }
    var p := MaxInXyz(sc.attenuation);
    if us(id, depth) > p || p == 0.0 {
      return None;
    }
    return Some((sc.ray, power.Times(sc.attenuation).Div(p)));
  }

  /** One pass of the bounce loop: at a Lambertian hit, credit the hit
      points of the photon's bucket; then scatter and play the roulette.
      `done` are the deposits made so far, `all` the whole path. */
  method PhotonBounce(r: Ray, power: Color, id: int, depth: nat, maxDepth: int, world: World,
                      samples: (int, nat) -> Samples, us: (int, nat) -> real, sqrt: real -> real,
                      grid: HashGrid, hps: array<HitPoint>,
                      ghost start: seq<HitPoint>, ghost all: seq<Deposit>, ghost done: seq<Deposit>)
    returns (next: Option<(Ray, Color)>, ghost done': seq<Deposit>)
    requires IsSqrt(sqrt) && SceneOracle(world) && depth < maxDepth
    requires grid.table.Length == grid.size > 0 && grid.cellSize != 0.0
    requires grid.IndexesBelow(hps.Length)
    requires all == done + PhotonPath(r, power, id, depth, maxDepth, world, samples, us, sqrt)
    requires CreditedWith(hps[..], grid.table[..], grid.cellSize, start, done)
    modifies hps
    ensures next.None? ==> all == done'
    ensures next.Some? ==>
              all == done' + PhotonPath(next.value.0, next.value.1, id, depth + 1, maxDepth, world, samples, us, sqrt)
    ensures CreditedWith(hps[..], grid.table[..], grid.cellSize, start, done')
  {
    var h := world(r);
    if h.None? {
      return None, done;
    }
    var rec := h.value;
    ghost var here := HitDeposits(rec, power);
    if rec.mat.value.Lambertian? {
      var d := Deposit(rec.p, rec.normal, power);
      DepositPhoton(grid, d, hps, start, done);
      done' := done + [d];
      assert here == [d];
    } else {
      done' := done;
      assert here == [];
    }
    next := Bounce(r, rec, power, id, depth, samples, us, sqrt);
    PhotonPathStep(r, power, id, depth, maxDepth, world, samples, us, sqrt, next);
    if next.Some? {
      ConcatAssoc(done, here,
                  PhotonPath(next.value.0, next.value.1, id, depth + 1, maxDepth, world, samples, us, sqrt));
    }
  }

  /** The bounce loop of one photon, at most max_depth passes: the hit
      points end up credited with every deposit of the photon's path. */
  method TracePhoton(r0: Ray, power0: Color, id: int, maxDepth: int, world: World,
                     samples: (int, nat) -> Samples, us: (int, nat) -> real, sqrt: real -> real,
                     grid: HashGrid, hps: array<HitPoint>)
    requires IsSqrt(sqrt) && SceneOracle(world)
    requires grid.table.Length == grid.size > 0 && grid.cellSize != 0.0
    requires grid.IndexesBelow(hps.Length)
    modifies hps
    ensures CreditedWith(hps[..], grid.table[..], grid.cellSize, old(hps[..]),
                         PhotonPath(r0, power0, id, 0, maxDepth, world, samples, us, sqrt))
  {
    ghost var start := hps[..];
    ghost var all := PhotonPath(r0, power0, id, 0, maxDepth, world, samples, us, sqrt);
    ghost var done: seq<Deposit> := [];
    var r := r0;
    var power := power0;
    var depth: nat := 0;
    while depth < maxDepth
      invariant all == done + PhotonPath(r, power, id, depth, maxDepth, world, samples, us, sqrt)
      invariant CreditedWith(hps[..], grid.table[..], grid.cellSize, start, done)
      decreases maxDepth - depth
    {
      var step;
      step, done := PhotonBounce(r, power, id, depth, maxDepth, world, samples, us, sqrt,
                                 grid, hps, start, all, done);
      if step.None? {
        break;
      }
      r, power := step.value.0, step.value.1;
      depth := depth + 1;
    }
    assert all == done;
  }

  /** What the photon pass depends on: max_depth, photons_per_iter, the
      scene and, for photon number id, the ray and power it is emitted with
      (None when there is no spherical light to sample), the samples of
      its bounces and its roulette numbers. Photon p_idx of iteration iter
      has number iter * photons_per_iter + p_idx. */
  datatype PhotonSetup = PhotonSetup(maxDepth: int, photonsPerIter: nat, world: World,
                                     emit: int -> Option<(Ray, Color)>,
                                     samples: (int, nat) -> Samples, us: (int, nat) -> real)

  /** The deposits of photon number id. */
  function EmittedPath(ps: PhotonSetup, id: int, sqrt: real -> real): seq<Deposit>
    requires IsSqrt(sqrt) && SceneOracle(ps.world)
  {
    match ps.emit(id)
    case None => []
    case Some((r, power)) => PhotonPath(r, power, id, 0, ps.maxDepth, ps.world, ps.samples, ps.us, sqrt)
  }

  /** The deposits of photons first .. first+n-1, in order. */
  function PassDeposits(ps: PhotonSetup, first: int, n: nat, sqrt: real -> real): seq<Deposit>
    requires IsSqrt(sqrt) && SceneOracle(ps.world)
  {
    if n == 0 then [] else PassDeposits(ps, first, n - 1, sqrt) + EmittedPath(ps, first + n - 1, sqrt)
  }

  /** Photon first + q of the pass: emitted (when there is a light to
      sample) and traced, its deposits extending those of the photons
      before it. */
  method EmitPhoton(ps: PhotonSetup, first: int, q: nat, sqrt: real -> real, grid: HashGrid, hps: array<HitPoint>,
                    ghost t: seq<seq<nat>>, ghost start: seq<HitPoint>)
    requires IsSqrt(sqrt) && SceneOracle(ps.world) && grid.Holds(t, hps.Length)
    requires CreditedWith(hps[..], t, grid.cellSize, start, PassDeposits(ps, first, q, sqrt))
    modifies hps
    ensures CreditedWith(hps[..], t, grid.cellSize, start, PassDeposits(ps, first, q + 1, sqrt))
  {
    ghost var before := hps[..];
    ghost var done := PassDeposits(ps, first, q, sqrt);
    ghost var path := EmittedPath(ps, first + q, sqrt);
    PassDepositsStep(ps, first, q, sqrt);
    var e := ps.emit(first + q);
    if e.None? {
      assert done + path == done;
      return;
    }
    TraceEmitted(ps, first + q, sqrt, grid, hps);
    CreditedWithConcat(t, grid.cellSize, start, before, hps[..], done, path);
  }

  /** Trace a photon the light emitted: its deposits are credited. */
  method TraceEmitted(ps: PhotonSetup, id: int, sqrt: real -> real, grid: HashGrid, hps: array<HitPoint>)
    requires IsSqrt(sqrt) && SceneOracle(ps.world) && ps.emit(id).Some?
    requires grid.table.Length == grid.size > 0 && grid.cellSize != 0.0
    requires grid.IndexesBelow(hps.Length)
    modifies hps
    ensures CreditedWith(hps[..], grid.table[..], grid.cellSize, old(hps[..]), EmittedPath(ps, id, sqrt))
  {
    var r := ps.emit(id).value.0;
    var power := ps.emit(id).value.1;
    assert EmittedPath(ps, id, sqrt) == PhotonPath(r, power, id, 0, ps.maxDepth, ps.world, ps.samples, ps.us, sqrt);
    TracePhoton(r, power, id, ps.maxDepth, ps.world, ps.samples, ps.us, sqrt, grid, hps);
  }

  /** Crediting ds and then es is crediting ds + es. */
  lemma CreditedWithConcat(t: seq<seq<nat>>, cellSize: real, start: seq<HitPoint>, mid: seq<HitPoint>,
                           after: seq<HitPoint>, ds: seq<Deposit>, es: seq<Deposit>)
    requires |t| > 0 && cellSize != 0.0
    requires CreditedWith(mid, t, cellSize, start, ds) && CreditedWith(after, t, cellSize, mid, es)
    ensures CreditedWith(after, t, cellSize, start, ds + es)
  {
    forall k | 0 <= k < |after|
      ensures after[k] == AfterDeposits(t, cellSize, start[k], k, ds + es)
    {
      AfterDepositsConcat(t, cellSize, start[k], k, ds, es);
    }
  }

  /** One more photon appends its deposits. */
  lemma PassDepositsStep(ps: PhotonSetup, first: int, n: nat, sqrt: real -> real)
    requires IsSqrt(sqrt) && SceneOracle(ps.world)
    ensures PassDeposits(ps, first, n + 1, sqrt) == PassDeposits(ps, first, n, sqrt) + EmittedPath(ps, first + n, sqrt)
  {
  }

  /** The deposits of iteration iter: photons iter * photons_per_iter
      onwards. */
  function IterationDeposits(ps: PhotonSetup, iter: nat, sqrt: real -> real): seq<Deposit>
    requires IsSqrt(sqrt) && SceneOracle(ps.world)
  {
    PassDeposits(ps, iter * ps.photonsPerIter, ps.photonsPerIter, sqrt)
  }

  /** The photon loop of one iteration: every emitted photon is traced and
      the hit points end up credited with all their deposits. */
  method PhotonPass(ps: PhotonSetup, first: int, sqrt: real -> real, grid: HashGrid, hps: array<HitPoint>)
    requires IsSqrt(sqrt) && SceneOracle(ps.world)
    requires grid.table.Length == grid.size > 0 && grid.cellSize != 0.0
    requires grid.IndexesBelow(hps.Length)
    modifies hps
    ensures CreditedWith(hps[..], grid.table[..], grid.cellSize, old(hps[..]),
                         PassDeposits(ps, first, ps.photonsPerIter, sqrt))
  {
    ghost var start := hps[..];
    ghost var t := grid.table[..];
    CreditedWithNothing(start, t, grid.cellSize);
    assert grid.Holds(t, hps.Length);
    for q := 0 to ps.photonsPerIter
      invariant grid.Holds(t, hps.Length)
      invariant CreditedWith(hps[..], t, grid.cellSize, start, PassDeposits(ps, first, q, sqrt))
    {
      EmitPhoton(ps, first, q, sqrt, grid, hps, t, start);
    }
  }

  /** Before any deposit every hit point is as it started. */
  lemma CreditedWithNothing(hps: seq<HitPoint>, table: seq<seq<nat>>, cellSize: real)
    requires |table| > 0 && cellSize != 0.0
    ensures CreditedWith(hps, table, cellSize, hps, [])
  {
  }

  /** The radius reduction loop of render_sppm, on every hit point. */
  method ReduceRadii(hps: array<HitPoint>)
    requires forall k :: 0 <= k < hps.Length ==> ValidEstimate(hps[k].est)
    modifies hps
    ensures forall k :: 0 <= k < hps.Length ==> hps[k] == old(hps[k]).(est := Reduce(old(hps[k]).est, Alpha))
  {
    for k := 0 to hps.Length
      invariant forall i :: 0 <= i < k ==> hps[i] == old(hps[i]).(est := Reduce(old(hps[i]).est, Alpha))
      invariant forall i :: k <= i < hps.Length ==> hps[i] == old(hps[i])
    {
      var hp := hps[k];
      var e := hp.est;
      if e.nNew > 0.0 {
        var n, m := e.nAccum, e.nNew;
        var ratio := (n + Alpha * m) / (n + m);
        hps[k] := hp.(est := Estimate(e.r2 * ratio, 0.0, Zero, n + Alpha * m,
                                      e.fluxAccum.Plus(e.fluxNew).Scale(ratio)));
      }
    }
  }

  /** The table build leaves for these hit points. */
  function TableOf(hps: seq<HitPoint>, cellSize: real, size: int): (t: seq<seq<nat>>)
    requires size > 0 && cellSize != 0.0
    ensures |t| == size
  {
    seq(size, b => Bucket(Keys(hps, cellSize, size), b))
  }

  /** Every hit point's statistics are valid. */
  predicate AllValid(hps: seq<HitPoint>) {
    forall k :: 0 <= k < |hps| ==> ValidEstimate(hps[k].est)
  }

  /** Hit point k at the end of an iteration whose photons left ds: only
      its statistics change; they stay valid, radius^2 never grows and
      shrinks by at most alpha, the count total never shrinks, and the
      per-iteration counter is zero again. */
  function AfterIteration(table: seq<seq<nat>>, cellSize: real, hp: HitPoint, k: nat, ds: seq<Deposit>)
    : (hp': HitPoint)
    requires |table| > 0 && cellSize != 0.0 && ValidEstimate(hp.est)
    ensures hp'.(est := hp.est) == hp && ValidEstimate(hp'.est)
    ensures Alpha * hp.est.r2 <= hp'.est.r2 <= hp.est.r2
    ensures hp.est.nAccum <= hp'.est.nAccum && hp'.est.nNew == 0.0
  {
    var credited := AfterDeposits(table, cellSize, hp, k, ds);
    AfterDepositsKeeps(table, cellSize, hp, k, ds);
    ReduceProgress(credited.est, Alpha);
    credited.(est := Reduce(credited.est, Alpha))
  }

  /** One iteration on all hit points: grid built from them, the photons'
      deposits credited, the radii reduced; the statistics stay valid. */
  function Iteration(hps: seq<HitPoint>, cellSize: real, size: int, ds: seq<Deposit>): (hps': seq<HitPoint>)
    requires size > 0 && cellSize != 0.0 && AllValid(hps)
    ensures |hps'| == |hps| && AllValid(hps')
  {
    var t := TableOf(hps, cellSize, size);
    seq(|hps|, k requires 0 <= k < |hps| => AfterIteration(t, cellSize, hps[k], k, ds))
  }

  /** Hit point k after the iteration. */
  lemma IterationAt(hps: seq<HitPoint>, cellSize: real, size: int, ds: seq<Deposit>, k: int)
    requires size > 0 && cellSize != 0.0 && AllValid(hps) && 0 <= k < |hps|
    ensures Iteration(hps, cellSize, size, ds)[k] == AfterIteration(TableOf(hps, cellSize, size), cellSize, hps[k], k, ds)
  {
  }

  /** alpha^n r2: the least radius^2 n reductions can leave, written as n
      multiplications by the constant alpha. */
  function LeastR2(n: nat, r2: real): real
  {
    if n == 0 then r2 else Alpha * LeastR2(n - 1, r2)
  }

  /** alpha^n r2 lies in [0, r2] for r2 >= 0, and is positive when r2 is. */
  lemma {:induction false} LeastR2Bounds(n: nat, r2: real)
    ensures 0.0 <= r2 ==> 0.0 <= LeastR2(n, r2) <= r2
    ensures 0.0 < r2 ==> 0.0 < LeastR2(n, r2)
  {
    if n > 0 {
      LeastR2Bounds(n - 1, r2);
    }
  }

  /** What the iteration loop needs of its inputs: a square root, a scene
      whose records carry materials, a grid with buckets and a non-zero cell
      size, and valid statistics. */
  ghost predicate Ready(hps0: seq<HitPoint>, ps: PhotonSetup, cellSize: real, size: int, sqrt: real -> real) {
    IsSqrt(sqrt) && SceneOracle(ps.world) && size > 0 && cellSize != 0.0 && AllValid(hps0)
  }

  /** The hit points after n iterations; iteration iter traces photons
      iter * photons_per_iter .. (iter + 1) * photons_per_iter - 1 against a
      grid rebuilt from the current hit points. */
  function Iterations(hps0: seq<HitPoint>, ps: PhotonSetup, cellSize: real, size: int, n: nat, sqrt: real -> real)
    : (hps: seq<HitPoint>)
    requires Ready(hps0, ps, cellSize, size, sqrt)
    ensures |hps| == |hps0| && AllValid(hps)
  {
    if n == 0 then hps0
    else
      var prev := Iterations(hps0, ps, cellSize, size, n - 1, sqrt);
      Iteration(prev, cellSize, size, IterationDeposits(ps, n - 1, sqrt))
  }

  /** Over the iterations a hit point keeps its position, normal, material,
      throughput and pixel, and its photon count total never shrinks. */
  lemma {:induction false} IterationsKeep(hps0: seq<HitPoint>, ps: PhotonSetup, cellSize: real, size: int,
                                          n: nat, sqrt: real -> real, k: int)
    requires Ready(hps0, ps, cellSize, size, sqrt)
    requires 0 <= k < |hps0|
    ensures Iterations(hps0, ps, cellSize, size, n, sqrt)[k].(est := hps0[k].est) == hps0[k]
    ensures hps0[k].est.nAccum <= Iterations(hps0, ps, cellSize, size, n, sqrt)[k].est.nAccum
  {
    if n > 0 {
      IterationsKeep(hps0, ps, cellSize, size, n - 1, sqrt, k);
      IterationsLast(hps0, ps, cellSize, size, n, sqrt, k);
    }
  }

  /** Radius^2 never grows and after n iterations is at least alpha^n times
      its start, so a positive radius stays positive. */
  lemma {:induction false} IterationsRadius(hps0: seq<HitPoint>, ps: PhotonSetup, cellSize: real, size: int,
                                            n: nat, sqrt: real -> real, k: int)
    requires Ready(hps0, ps, cellSize, size, sqrt)
    requires 0 <= k < |hps0|
    ensures LeastR2(n, hps0[k].est.r2) <= Iterations(hps0, ps, cellSize, size, n, sqrt)[k].est.r2 <= hps0[k].est.r2
  {
    if n > 0 {
      IterationsRadius(hps0, ps, cellSize, size, n - 1, sqrt, k);
      IterationsLast(hps0, ps, cellSize, size, n, sqrt, k);
      R2Chain(n, hps0[k].est.r2, Iterations(hps0, ps, cellSize, size, n - 1, sqrt)[k].est.r2,
              Iterations(hps0, ps, cellSize, size, n, sqrt)[k].est.r2);
    }
  }

  /** The last of n iterations, seen from hit point k. */
  lemma IterationsLast(hps0: seq<HitPoint>, ps: PhotonSetup, cellSize: real, size: int,
                       n: nat, sqrt: real -> real, k: int)
    requires Ready(hps0, ps, cellSize, size, sqrt)
    requires 0 <= k < |hps0| && n > 0
    ensures var prev := Iterations(hps0, ps, cellSize, size, n - 1, sqrt)[k];
            var hp := Iterations(hps0, ps, cellSize, size, n, sqrt)[k];
            hp.(est := prev.est) == prev &&
            Alpha * prev.est.r2 <= hp.est.r2 <= prev.est.r2 && prev.est.nAccum <= hp.est.nAccum
  {
    var prev := Iterations(hps0, ps, cellSize, size, n - 1, sqrt);
    var ds := IterationDeposits(ps, n - 1, sqrt);
    IterationsStep(hps0, ps, cellSize, size, n - 1, sqrt);
    IterationKeeps(prev, cellSize, size, ds, k);
  }

  /** One more reduction keeps radius^2 between alpha^n r0 and r0. */
  lemma R2Chain(n: nat, r0: real, r1: real, r2: real)
    requires n > 0 && LeastR2(n - 1, r0) <= r1 <= r0 && Alpha * r1 <= r2 <= r1
    ensures LeastR2(n, r0) <= r2 <= r0
  {
  }

  /** One iteration, seen from one hit point. */
  lemma IterationKeeps(hps: seq<HitPoint>, cellSize: real, size: int, ds: seq<Deposit>, k: int)
    requires size > 0 && cellSize != 0.0 && AllValid(hps) && 0 <= k < |hps|
    ensures var hp' := Iteration(hps, cellSize, size, ds)[k];
            hp'.(est := hps[k].est) == hps[k] &&
            Alpha * hps[k].est.r2 <= hp'.est.r2 <= hps[k].est.r2 && hps[k].est.nAccum <= hp'.est.nAccum
  {
    IterationAt(hps, cellSize, size, ds, k);
  }

  /** Iteration number iter (from 0) is the one after the first iter. */
  lemma IterationsStep(hps0: seq<HitPoint>, ps: PhotonSetup, cellSize: real, size: int, iter: nat, sqrt: real -> real)
    requires Ready(hps0, ps, cellSize, size, sqrt)
    ensures Iterations(hps0, ps, cellSize, size, iter + 1, sqrt) ==
            Iteration(Iterations(hps0, ps, cellSize, size, iter, sqrt), cellSize, size,
                      IterationDeposits(ps, iter, sqrt))
  {
  }

  /** One iteration loop pass: rebuild the grid, the photon loop, the radius
      reduction. */
  method RunIteration(ps: PhotonSetup, iter: nat, sqrt: real -> real, grid: HashGrid, hps: array<HitPoint>,
                      ghost start: seq<HitPoint>)
    requires IsSqrt(sqrt) && SceneOracle(ps.world)
    requires grid.table.Length == grid.size > 0 && grid.cellSize != 0.0 && AllValid(start)
    requires hps[..] == Iterations(start, ps, grid.cellSize, grid.size, iter, sqrt)
    modifies grid.table, hps
    ensures hps[..] == Iterations(start, ps, grid.cellSize, grid.size, iter + 1, sqrt)
  {
    IterationsStep(start, ps, grid.cellSize, grid.size, iter, sqrt);
    ghost var prev := hps[..];
    ghost var ds := IterationDeposits(ps, iter, sqrt);
    grid.Build(hps);
    ghost var t := grid.table[..];
    assert t == TableOf(prev, grid.cellSize, grid.size);
    PhotonPass(ps, iter * ps.photonsPerIter, sqrt, grid, hps);
    ghost var credited := hps[..];
    forall k | 0 <= k < hps.Length
      ensures ValidEstimate(hps[k].est)
    {
      AfterDepositsKeeps(t, grid.cellSize, prev[k], k, ds);
    }
    ReduceRadii(hps);
    ghost var next := Iteration(prev, grid.cellSize, grid.size, ds);
    forall k | 0 <= k < hps.Length
      ensures hps[k] == next[k]
    {
      assert credited[k] == AfterDeposits(t, grid.cellSize, prev[k], k, ds);
      IterationAt(prev, grid.cellSize, grid.size, ds, k);
    }
    assert hps[..] == next;
  }

  /** The iteration loop: `iterations` passes (none when it is not
      positive). */
  method RenderIterations(ps: PhotonSetup, iterations: int, sqrt: real -> real, grid: HashGrid, hps: array<HitPoint>)
    requires IsSqrt(sqrt) && SceneOracle(ps.world)
    requires grid.table.Length == grid.size > 0 && grid.cellSize != 0.0
    requires AllValid(hps[..])
    modifies grid.table, hps
    ensures hps[..] == Iterations(old(hps[..]), ps, grid.cellSize, grid.size,
                                  if iterations > 0 then iterations else 0, sqrt)
  {
    ghost var start := hps[..];
    var n: nat := if iterations > 0 then iterations else 0;
    for iter := 0 to n
      invariant hps[..] == Iterations(start, ps, grid.cellSize, grid.size, iter, sqrt)
    {
      RunIteration(ps, iter, sqrt, grid, hps, start);
    }
  }

  // ---------------------------------------------------------------------
  // Reconstruction

  /** photons_per_iter * iterations, the photon count the radiance divides
      by, converted to double factor by factor. */
  function PhotonCount(photonsPerIter: int, iterations: int): (p: real)
    requires photonsPerIter > 0 && iterations > 0
    ensures p > 0.0
  {
    PositiveProduct(photonsPerIter as real, iterations as real);
    photonsPerIter as real * iterations as real
  }

  /** The three bytes of a hit point: the radiance of its totals over
      photons_per_iter * iterations photons, weighted by its throughput,
      then tone-mapped and gamma-corrected. A hit point that never gathered
      any flux is black whenever the tone map keeps black black. */
  function HitPointBytes(hp: HitPoint, photons: real, aces: Color -> Color, sqrt: real -> real): (b: seq<Byte>)
    requires hp.est.r2 > 0.0 && photons > 0.0 && IsSqrt(sqrt)
    ensures |b| == 3
    ensures hp.est.fluxAccum == Zero && aces(Zero) == Zero ==> b == [0, 0, 0]
  {
    var c := Radiance(hp.est, photons).Times(hp.throughput);
    assert hp.est.fluxAccum == Zero ==> Radiance(hp.est, photons) == Zero;
    ToneBytesExtremes(c, aces, sqrt);
    ToneBytes(c, aces, sqrt)
  }

  /** Every hit point's pixel lies in an image of `pixels` pixels, and its
      radius is positive. */
  predicate Paintable(hps: seq<HitPoint>, pixels: int) {
    forall k :: 0 <= k < |hps| ==> 0 <= hps[k].pixelIndex < pixels && hps[k].est.r2 > 0.0
  }

  /** Pixel indices strictly increase along the sequence. */
  predicate Increasing(hps: seq<HitPoint>) {
    forall a, b :: 0 <= a < b < |hps| ==> hps[a].pixelIndex < hps[b].pixelIndex
  }

  /** buf with the three bytes of pixel q replaced. */
  function Paint(buf: seq<Byte>, q: int, b: seq<Byte>): (buf': seq<Byte>)
    requires 0 <= q && 3 * q + 3 <= |buf| && |b| == 3
    ensures |buf'| == |buf|
    ensures forall m :: 0 <= m < |buf| ==> buf'[m] == if m / 3 == q then b[m % 3] else buf[m]
  {
    var r := buf[3 * q := b[0]][3 * q + 1 := b[1]][3 * q + 2 := b[2]];
    forall m | 0 <= m < |buf|
      ensures r[m] == if m / 3 == q then b[m % 3] else buf[m]
    {
      if 3 * q <= m < 3 * q + 3 {
        DivUnique(m, 3, q, m - 3 * q);
      }
    }
    r
  }

  /** The buffer after the reconstruction loop: all zero, then each hit point
      in turn writes its pixel's three bytes. */
  function Painted(hps: seq<HitPoint>, pixels: nat, photons: real, aces: Color -> Color, sqrt: real -> real)
    : (buf: seq<Byte>)
    requires Paintable(hps, pixels) && photons > 0.0 && IsSqrt(sqrt)
    ensures |buf| == 3 * pixels
  {
    if |hps| == 0 then seq(3 * pixels, _ => 0)
    else
      var last := hps[|hps| - 1];
      Paint(Painted(hps[..|hps| - 1], pixels, photons, aces, sqrt), last.pixelIndex,
            HitPointBytes(last, photons, aces, sqrt))
  }

  /** A pixel with no hit point keeps its three zero bytes. */
  lemma {:induction false} PaintedUnlit(hps: seq<HitPoint>, pixels: nat, photons: real, aces: Color -> Color,
                                        sqrt: real -> real, m: int)
    requires Paintable(hps, pixels) && photons > 0.0 && IsSqrt(sqrt) && 0 <= m < 3 * pixels
    requires forall k :: 0 <= k < |hps| ==> hps[k].pixelIndex != m / 3
    ensures Painted(hps, pixels, photons, aces, sqrt)[m] == 0
  {
    if |hps| > 0 {
      var init := hps[..|hps| - 1];
      assert forall k :: 0 <= k < |init| ==> init[k] == hps[k];
      PaintedUnlit(init, pixels, photons, aces, sqrt, m);
    }
  }

  /** The bytes of a pixel are those of the last hit point that names it. */
  lemma {:induction false} PaintedOwner(hps: seq<HitPoint>, pixels: nat, photons: real, aces: Color -> Color,
                                        sqrt: real -> real, k: int, m: int)
    requires Paintable(hps, pixels) && photons > 0.0 && IsSqrt(sqrt) && 0 <= m < 3 * pixels
    requires 0 <= k < |hps| && hps[k].pixelIndex == m / 3
    requires forall j :: k < j < |hps| ==> hps[j].pixelIndex != m / 3
    ensures Painted(hps, pixels, photons, aces, sqrt)[m] == HitPointBytes(hps[k], photons, aces, sqrt)[m % 3]
  {
    var init := hps[..|hps| - 1];
    assert forall j :: 0 <= j < |init| ==> init[j] == hps[j];
    if k < |hps| - 1 {
      PaintedOwner(init, pixels, photons, aces, sqrt, k, m);
    }
  }

  /** With the eye pass's strictly increasing pixels, every hit point owns
      its three bytes. */
  lemma PaintedDistinct(hps: seq<HitPoint>, pixels: nat, photons: real, aces: Color -> Color,
                        sqrt: real -> real, k: int, c: int)
    requires Paintable(hps, pixels) && photons > 0.0 && IsSqrt(sqrt) && Increasing(hps)
    requires 0 <= k < |hps| && 0 <= c < 3
    ensures Painted(hps, pixels, photons, aces, sqrt)[3 * hps[k].pixelIndex + c] ==
            HitPointBytes(hps[k], photons, aces, sqrt)[c]
  {
    var m := 3 * hps[k].pixelIndex + c;
    DivUnique(m, 3, hps[k].pixelIndex, c);
    PaintedOwner(hps, pixels, photons, aces, sqrt, k, m);
  }

  /** The radiance formula, tone map and gamma of one hit point. */
  method HitPointColor(hp: HitPoint, photonsPerIter: int, iterations: int, aces: Color -> Color, sqrt: real -> real)
    returns (r: Byte, g: Byte, b: Byte)
    requires hp.est.r2 > 0.0 && photonsPerIter > 0 && iterations > 0 && IsSqrt(sqrt)
    ensures [r, g, b] == HitPointBytes(hp, PhotonCount(photonsPerIter, iterations), aces, sqrt)
  {
    ghost var photons := PhotonCount(photonsPerIter, iterations);
    assert Pi * hp.est.r2 * photonsPerIter as real * iterations as real == Pi * hp.est.r2 * photons;
    var radiance := hp.est.fluxAccum.Div(Pi * hp.est.r2 * photonsPerIter as real * iterations as real)
                      .Times(hp.throughput);
    assert radiance == Radiance(hp.est, photons).Times(hp.throughput);
    radiance := aces(radiance);
    r, g, b := ChannelByte(sqrt(radiance.x)), ChannelByte(sqrt(radiance.y)), ChannelByte(sqrt(radiance.z));
  }

  lemma PaintablePrefix(hps: seq<HitPoint>, pixels: int, k: int)
    requires Paintable(hps, pixels) && 0 <= k < |hps|
    ensures Paintable(hps[..k + 1], pixels) && hps[..k + 1][..k] == hps[..k]
    ensures 0 <= hps[k].pixelIndex < pixels && hps[k].est.r2 > 0.0
  {
    var p := hps[..k + 1];
    assert forall j :: 0 <= j < |p| ==> p[j] == hps[j];
  }

  /** The reconstruction loop: buffer.assign(w h 3, 0), then for each hit
      point its pixel's bytes. */
  method WriteBuffer(hps: array<HitPoint>, pixels: nat, photonsPerIter: int, iterations: int,
                     aces: Color -> Color, sqrt: real -> real)
    returns (buffer: array<Byte>)
    requires Paintable(hps[..], pixels) && photonsPerIter > 0 && iterations > 0 && IsSqrt(sqrt)
    ensures fresh(buffer)
    ensures buffer[..] == Painted(hps[..], pixels, PhotonCount(photonsPerIter, iterations), aces, sqrt)
  {
    ghost var photons := PhotonCount(photonsPerIter, iterations);
    buffer := new Byte[3 * pixels](_ => 0);
    assert buffer[..] == Painted(hps[..0], pixels, photons, aces, sqrt);
    for k := 0 to hps.Length
      invariant buffer[..] == Painted(hps[..k], pixels, photons, aces, sqrt)
    {
      var hp := hps[k];
      PaintablePrefix(hps[..], pixels, k);
      var r, g, b := HitPointColor(hp, photonsPerIter, iterations, aces, sqrt);
      ghost var before := buffer[..];
      var index := hp.pixelIndex * 3;
      buffer[index] := r;
      buffer[index + 1] := g;
      buffer[index + 2] := b;
      assert buffer[..] == Paint(before, hp.pixelIndex, [r, g, b]);
    }
    assert hps[..hps.Length] == hps[..];
  }

  // ---------------------------------------------------------------------
  // The whole render

  /** What render_sppm needs: the eye and photon passes see the same scene,
      the image has columns, the initial radius is non-zero (it sets the
      cell size), and photons_per_iter and iterations are positive (the
      radiance divides by their product). */
  ghost predicate RenderReady(s: EyeSetup, ps: PhotonSetup, iterations: int, sqrt: real -> real) {
    IsSqrt(sqrt) && SceneOracle(s.world) && ps.world == s.world &&
    s.width > 0 && s.height >= 0 && s.initialRadius != 0.0 && ps.photonsPerIter > 0 && iterations > 0
  }

  function PixelCount(s: EyeSetup): (n: nat)
    requires s.width > 0 && s.height >= 0
    ensures n == s.width * s.height
  {
    MulNonNegativeInt(s.width, s.height);
    s.width * s.height
  }

  lemma MulNonNegativeInt(a: int, b: int)
    requires 0 <= a && 0 <= b
    ensures 0 <= a * b
  {
  }

  /** The hit points of the eye pass. */
  function FirstHits(s: EyeSetup, sqrt: real -> real): seq<HitPoint>
    requires IsSqrt(sqrt) && SceneOracle(s.world) && s.width > 0 && s.height >= 0
  {
    Recorded(s, PixelCount(s), sqrt)
  }

  /** cell_size = initial_radius * 2 */
  function CellSize(s: EyeSetup): real {
    s.initialRadius * 2.0
  }

  /** The eye pass's hit points are ready for the iteration loop, on a grid
      with hit_points.size() + 1000 buckets. */
  lemma FirstHitsReady(s: EyeSetup, ps: PhotonSetup, iterations: int, sqrt: real -> real)
    requires RenderReady(s, ps, iterations, sqrt)
    ensures Ready(FirstHits(s, sqrt), ps, CellSize(s), |FirstHits(s, sqrt)| + 1000, sqrt)
  {
    RecordedPixels(s, PixelCount(s), sqrt);
    SqNonNegative(s.initialRadius);
  }

  /** The hit points after the iteration loop. */
  function FinalHits(s: EyeSetup, ps: PhotonSetup, iterations: int, sqrt: real -> real): (hps: seq<HitPoint>)
    requires RenderReady(s, ps, iterations, sqrt)
    ensures |hps| == |FirstHits(s, sqrt)|
  {
    FirstHitsReady(s, ps, iterations, sqrt);
    Iterations(FirstHits(s, sqrt), ps, CellSize(s), |FirstHits(s, sqrt)| + 1000, iterations, sqrt)
  }

  /** Hit point k of the eye pass: the hit point of its own pixel, with a
      positive radius. */
  lemma FirstHitAt(s: EyeSetup, sqrt: real -> real, k: int)
    requires IsSqrt(sqrt) && SceneOracle(s.world) && s.width > 0 && s.height >= 0 && s.initialRadius != 0.0
    requires 0 <= k < |FirstHits(s, sqrt)|
    ensures 0 <= FirstHits(s, sqrt)[k].pixelIndex < PixelCount(s)
    ensures PixelHit(s, FirstHits(s, sqrt)[k].pixelIndex, sqrt) == Some(FirstHits(s, sqrt)[k])
    ensures FirstHits(s, sqrt)[k].est.r2 > 0.0
  {
    RecordedPixels(s, PixelCount(s), sqrt);
    SqNonNegative(s.initialRadius);
  }

  /** Every hit point of the eye pass starts with a positive radius. */
  lemma FirstHitPositive(s: EyeSetup, sqrt: real -> real, k: int)
    requires IsSqrt(sqrt) && SceneOracle(s.world) && s.width > 0 && s.height >= 0 && s.initialRadius != 0.0
    requires 0 <= k < |FirstHits(s, sqrt)|
    ensures FirstHits(s, sqrt)[k].est.r2 > 0.0
  {
    FirstHitAt(s, sqrt, k);
  }

  /** A positive radius stays positive over the iterations. */
  lemma IterationsPositive(hps0: seq<HitPoint>, ps: PhotonSetup, cellSize: real, size: int,
                           n: nat, sqrt: real -> real, k: int)
    requires Ready(hps0, ps, cellSize, size, sqrt) && 0 <= k < |hps0| && hps0[k].est.r2 > 0.0
    ensures Iterations(hps0, ps, cellSize, size, n, sqrt)[k].est.r2 > 0.0
  {
    IterationsRadius(hps0, ps, cellSize, size, n, sqrt, k);
    LeastR2Bounds(n, hps0[k].est.r2);
  }

  /** Hit point k after n iterations: the same point with new statistics
      and, if it started with one, a positive radius. */
  lemma IterationsAt(hps0: seq<HitPoint>, ps: PhotonSetup, cellSize: real, size: int,
                     n: nat, sqrt: real -> real, k: int)
    requires Ready(hps0, ps, cellSize, size, sqrt) && 0 <= k < |hps0| && hps0[k].est.r2 > 0.0
    ensures Iterations(hps0, ps, cellSize, size, n, sqrt)[k].(est := hps0[k].est) == hps0[k]
    ensures Iterations(hps0, ps, cellSize, size, n, sqrt)[k].est.r2 > 0.0
  {
    IterationsKeep(hps0, ps, cellSize, size, n, sqrt, k);
    IterationsPositive(hps0, ps, cellSize, size, n, sqrt, k);
  }
}
