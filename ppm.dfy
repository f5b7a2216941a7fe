// Progressive photon mapping (renderer_ppm.h): the hit points of the eye
// pass, the hash grid over them that collects photons, the per-iteration
// radius reduction and the reconstruction of the image from the totals.
// World queries, light sampling and the recursive traces are not part of
// this module; their Fresnel arithmetic is in Fresnel.

module Ppm {
  import opened Vectors
  import opened Utils
  import opened SpatialHash
  import opened Progressive

  /** HitPoint: position, normal, eye-path throughput, pixel and photon
      statistics. */
  datatype HitPoint = HitPoint(p: Point3, normal: Vec3, throughput: Color, pixelIndex: int, est: Estimate)

  /** update's gate: the photon lands within the hit point's radius and
      arrives against its normal. */
  predicate Gathers(hp: HitPoint, p: Point3, dir: Vec3) {
    hp.p.Minus(p).LengthSquared() <= hp.est.r2 && hp.normal.Dot(dir) < 0.0
  }

  /** The bucket of each hit point. */
  function Keys(hps: seq<HitPoint>, cellSize: real, size: int): (keys: seq<int>)
    requires size > 0 && cellSize != 0.0
    ensures |keys| == |hps|
    ensures forall i :: 0 <= i < |hps| ==> keys[i] == HashCoords(FloorCell(hps[i].p, cellSize), size)
  {
    seq(|hps|, i requires 0 <= i < |hps| => HashCoords(FloorCell(hps[i].p, cellSize), size))
  }

  /** How often update reaches hit point k: its occurrences in the buckets
      of the first n probed cells, counted once per probed cell. */
  function ProbeVisitsUpTo(table: seq<seq<nat>>, ns: seq<Cell>, k: nat, n: nat): nat
    requires |table| > 0 && n <= |ns|
  {
    if n == 0 then 0
    else ProbeVisitsUpTo(table, ns, k, n - 1) + multiset(table[HashCoords(ns[n - 1], |table|)])[k]
  }

  /** How often update for a photon at p reaches hit point k. */
  function ProbeVisits(table: seq<seq<nat>>, cellSize: real, p: Point3, k: nat): nat
    requires |table| > 0 && cellSize != 0.0
  {
    ProbeVisitsUpTo(table, Neighbours(FloorCell(p, cellSize)), k, 27)
  }

  /** The hit point after update credits it n visits: the
      statistics change only if the gate passes. */
  function Updated(hp: HitPoint, p: Point3, dir: Vec3, power: Color, n: nat): HitPoint {
    hp.(est := Credit(hp.est, if Gathers(hp, p, dir) then n else 0, power))
  }

  lemma CreditOne(e: Estimate, power: Color)
    ensures Credit(e, 1, power) == e.(nNew := e.nNew + 1.0, fluxNew := e.fluxNew.Plus(power))
  {
    assert power.Scale(1.0) == power;
  }

  /** Counting more probed cells never counts fewer visits. */
  lemma {:induction false} ProbeVisitsGrow(table: seq<seq<nat>>, ns: seq<Cell>, k: nat, m: nat, n: nat)
    requires |table| > 0 && m <= n <= |ns|
    ensures ProbeVisitsUpTo(table, ns, k, m) <= ProbeVisitsUpTo(table, ns, k, n)
  {
    if m < n {
      ProbeVisitsGrow(table, ns, k, m, n - 1);
    }
  }

  /** A probed cell whose bucket holds k contributes a visit. */
  lemma ProbedBucketVisits(table: seq<seq<nat>>, ns: seq<Cell>, k: nat, j: nat)
    requires |table| > 0 && j < |ns| == 27
    requires k in table[HashCoords(ns[j], |table|)]
    ensures ProbeVisitsUpTo(table, ns, k, j + 1) >= 1 + ProbeVisitsUpTo(table, ns, k, j)
    ensures ProbeVisitsUpTo(table, ns, k, 27) >= 1
  {
    ProbeVisitsGrow(table, ns, k, j + 1, 27);
  }

  /** Completeness of the 3x3x3 probe: after build, a hit point whose cell
      is within one of the photon's cell on every axis is reached. */
  lemma AdjacentHitPointVisited(table: seq<seq<nat>>, hps: seq<HitPoint>, cellSize: real, p: Point3, k: nat)
    requires |table| > 0 && cellSize != 0.0
    requires BuiltFrom(table, Keys(hps, cellSize, |table|))
    requires k < |hps|
    requires Adjacent(FloorCell(hps[k].p, cellSize), FloorCell(p, cellSize))
    ensures ProbeVisits(table, cellSize, p, k) >= 1
  {
    var c := FloorCell(p, cellSize);
    var d := FloorCell(hps[k].p, cellSize);
    NeighboursComplete(c, d);
    var j := ProbeIndex(d.x - c.x, d.y - c.y, d.z - c.z);
    var keys := Keys(hps, cellSize, |table|);
    BucketMembers(keys, keys[k]);
    ProbedBucketVisits(table, Neighbours(c), k, j);
  }

  /** A hit point within `radius` of the photon, with radius below the
      cell size, is reached. */
  lemma NearHitPointVisited(table: seq<seq<nat>>, hps: seq<HitPoint>, cellSize: real, p: Point3, k: nat, radius: real)
    requires |table| > 0 && 0.0 <= radius < cellSize
    requires BuiltFrom(table, Keys(hps, cellSize, |table|))
    requires k < |hps|
    requires hps[k].p.Minus(p).LengthSquared() <= Sq(radius)
    ensures ProbeVisits(table, cellSize, p, k) >= 1
  {
    WithinRadiusAdjacent(hps[k].p, p, radius, cellSize);
    AdjacentHitPointVisited(table, hps, cellSize, p, k);
  }

  /** No deduplication: two probed cells that hash to the same bucket
      holding k give k two visits. */
  lemma CollidingCellsVisitTwice(table: seq<seq<nat>>, cellSize: real, p: Point3, k: nat, j1: nat, j2: nat)
    requires |table| > 0 && cellSize != 0.0
    requires j1 < j2 < 27
    requires var ns := Neighbours(FloorCell(p, cellSize));
             HashCoords(ns[j1], |table|) == HashCoords(ns[j2], |table|) &&
             k in table[HashCoords(ns[j1], |table|)]
    ensures ProbeVisits(table, cellSize, p, k) >= 2
  {
    var ns := Neighbours(FloorCell(p, cellSize));
    ProbedBucketVisits(table, ns, k, j1);
    ProbedBucketVisits(table, ns, k, j2);
    ProbeVisitsGrow(table, ns, k, j1 + 1, j2);
    ProbeVisitsGrow(table, ns, k, j2 + 1, 27);
  }

  /** The number of the first n probed cells that hash to bucket h. */
  function Collisions(ns: seq<Cell>, h: int, size: int, n: nat): nat
    requires size > 0 && n <= |ns|
  {
    if n == 0 then 0
    else Collisions(ns, h, size, n - 1) + (if HashCoords(ns[n - 1], size) == h then 1 else 0)
  }

  /** Update reaches hit point k exactly once for every probed cell whose
      hash is the hash of k's own cell. */
  lemma {:induction false} ProbeVisitsAreCollisions(table: seq<seq<nat>>, keys: seq<int>, ns: seq<Cell>, k: nat, n: nat)
    requires |table| > 0 && n <= |ns|
    requires BuiltFrom(table, keys)
    requires k < |keys|
    ensures ProbeVisitsUpTo(table, ns, k, n) == Collisions(ns, keys[k], |table|, n)
  {
    if n > 0 {
      ProbeVisitsAreCollisions(table, keys, ns, k, n - 1);
      BucketCount(keys, HashCoords(ns[n - 1], |table|), k);
    }
  }

  /** render_ppm's grid: cell size twice the radius of hit_points[0], or 0
      when there are none; the radii of the other hit points play no part. */
  function FirstRadiusCellSize(hps: seq<HitPoint>, sqrt: real -> real): (cs: real)
    requires IsSqrt(sqrt)
    ensures |hps| == 0 ==> cs == 0.0
    ensures |hps| > 0 && 0.0 <= hps[0].est.r2 ==> 0.0 <= cs && cs * cs == 4.0 * hps[0].est.r2
  {
    if |hps| == 0 then 0.0 else 2.0 * sqrt(hps[0].est.r2)
  }

  /** Two hit points at the origin facing up, with r2 = 0.04 and r2 = 1:
      after some reductions hit_points[0] may well have the smaller radius. */
  function UnevenHitPoints(): (hps: seq<HitPoint>)
    ensures |hps| == 2 && hps[0].est.r2 < hps[1].est.r2
  {
    [HitPoint(Zero, Vec3(0.0, 1.0, 0.0), White, 0, Initial(0.04)),
     HitPoint(Zero, Vec3(0.0, 1.0, 0.0), White, 0, Initial(1.0))]
  }

  /** Radii shrink at different rates, so hit_points[0] need not have the
      largest one. Here hit point 1 gathers a photon at (0.9, 0, 0)
      arriving straight down, but with the cell size 0.4 taken from hit
      point 0 its cell is two cells from the photon's, outside the probe. */
  lemma FirstRadiusGridSkipsCell(sqrt: real -> real)
    requires IsSqrt(sqrt)
    ensures var hps := UnevenHitPoints();
            var cs := FirstRadiusCellSize(hps, sqrt);
            var p := Vec3(0.9, 0.0, 0.0);
            cs == 0.4 && Gathers(hps[1], p, Vec3(0.0, -1.0, 0.0)) &&
            !Adjacent(FloorCell(hps[1].p, cs), FloorCell(p, cs))
  {
    UnevenCellSize(sqrt);
    UnevenGeometry();
  }

  lemma UnevenCellSize(sqrt: real -> real)
    requires IsSqrt(sqrt)
    ensures FirstRadiusCellSize(UnevenHitPoints(), sqrt) == 0.4
  {
    SqrtOfSq(sqrt, 0.2);
    assert Sq(0.2) == 0.04;
  }

  lemma UnevenGeometry()
    ensures var hp := UnevenHitPoints()[1];
            var p := Vec3(0.9, 0.0, 0.0);
            Gathers(hp, p, Vec3(0.0, -1.0, 0.0)) &&
            FloorCell(hp.p, 0.4) == Cell(0, 0, 0) && FloorCell(p, 0.4) == Cell(2, 0, 0)
  {
    var hp := UnevenHitPoints()[1];
    var p := Vec3(0.9, 0.0, 0.0);
    assert hp.p == Zero && hp.normal == Vec3(0.0, 1.0, 0.0) && hp.est.r2 == 1.0;
    assert Zero.Minus(p).x == -0.9;
    assert Zero.Minus(p) == Vec3(-0.9, 0.0, 0.0);
    assert Vec3(-0.9, 0.0, 0.0).LengthSquared() == 0.81;
    assert 0.9 / 0.4 == 2.25;
    assert 0.0 / 0.4 == 0.0;
  }

  /** A hit point whose cell is not adjacent to the photon's lies in none of
      the probed cells, and update credits it once per probed cell whose
      hash collides with the hash of its own cell, and otherwise never. */
  lemma UnprobedVisitsAreCollisions(table: seq<seq<nat>>, hps: seq<HitPoint>, cellSize: real, p: Point3, k: nat)
    requires |table| > 0 && cellSize != 0.0
    requires BuiltFrom(table, Keys(hps, cellSize, |table|))
    requires k < |hps|
    requires !Adjacent(FloorCell(hps[k].p, cellSize), FloorCell(p, cellSize))
    ensures var ns := Neighbours(FloorCell(p, cellSize));
            FloorCell(hps[k].p, cellSize) !in ns &&
            ProbeVisits(table, cellSize, p, k) ==
              Collisions(ns, HashCoords(FloorCell(hps[k].p, cellSize), |table|), |table|, 27)
  {
    var ns := Neighbours(FloorCell(p, cellSize));
    NeighboursComplete(FloorCell(p, cellSize), FloorCell(hps[k].p, cellSize));
    ProbeVisitsAreCollisions(table, Keys(hps, cellSize, |table|), ns, k, 27);
  }

  /** The largest r2 over the hit points, and 0 when there are none. */
  function MaxR2(hps: seq<HitPoint>): (m: real)
    ensures 0.0 <= m
    ensures forall k :: 0 <= k < |hps| ==> hps[k].est.r2 <= m
    ensures m == 0.0 || exists k :: 0 <= k < |hps| && hps[k].est.r2 == m
  {
    if |hps| == 0 then 0.0
    else
      var rest := MaxR2(hps[..|hps| - 1]);
      assert forall k :: 0 <= k < |hps| - 1 ==> hps[..|hps| - 1][k] == hps[k];
      Max(rest, hps[|hps| - 1].est.r2)
  }

  /** The corrected cell size: twice the largest radius. */
  function CoveringCellSize(hps: seq<HitPoint>, sqrt: real -> real): (cs: real)
    requires IsSqrt(sqrt)
    ensures 0.0 <= cs && cs * cs == 4.0 * MaxR2(hps)
  {
    2.0 * sqrt(MaxR2(hps))
  }

  /** With the covering cell size every hit point that gathers a photon is
      credited by update: no hit point's radius reaches past the probe. */
  lemma CoveringGridComplete(table: seq<seq<nat>>, hps: seq<HitPoint>, sqrt: real -> real,
                             p: Point3, dir: Vec3, k: nat)
    requires IsSqrt(sqrt) && |table| > 0 && MaxR2(hps) > 0.0
    requires BuiltFrom(table, Keys(hps, CoveringCellSize(hps, sqrt), |table|))
    requires k < |hps| && Gathers(hps[k], p, dir)
    ensures ProbeVisits(table, CoveringCellSize(hps, sqrt), p, k) >= 1
  {
    var radius := sqrt(MaxR2(hps));
    var cs := CoveringCellSize(hps, sqrt);
    CoveringRadius(MaxR2(hps), sqrt);
    assert hps[k].est.r2 <= Sq(radius);
    NearHitPointVisited(table, hps, cs, p, k, radius);
  }

  /** The root of a positive m is positive and below twice itself. */
  lemma CoveringRadius(m: real, sqrt: real -> real)
    requires IsSqrt(sqrt) && m > 0.0
    ensures Sq(sqrt(m)) == m && 0.0 <= sqrt(m) < 2.0 * sqrt(m)
  {
    assert Sq(0.0) == 0.0;
  }

  /** HashGrid: a vector of buckets of hit-point indices. */
  class HashGrid {
    const cellSize: real
    const size: int
    const table: array<seq<nat>>

    /** HashGrid(cell_size, size): size empty buckets. */
    constructor(cellSize: real, size: int)
      requires 0 <= size
      ensures this.cellSize == cellSize && this.size == size
      ensures fresh(table) && table.Length == size
      ensures forall b :: 0 <= b < size ==> table[b] == []
    {
      this.cellSize := cellSize;
      this.size := size;
      table := new seq<nat>[size](_ => []);
    }

    /** hash: the bucket of the floor cell of p. */
    function Hash(p: Point3): (h: int)
      requires size > 0 && cellSize != 0.0
      ensures 0 <= h < size
    {
      HashCoords(FloorCell(p, cellSize), size)
    }

    /** Every stored index names one of n hit points. */
    predicate IndexesBelow(n: int)
      reads table
    {
      forall b, j :: 0 <= b < table.Length && 0 <= j < |table[b]| ==> table[b][j] < n
    }

    /** build: clear every bucket, then append each hit point's index to
        the bucket of its cell, in order. */
    method Build(hps: array<HitPoint>)
      requires table.Length == size > 0 && cellSize != 0.0
      modifies table
      ensures BuiltFrom(table[..], Keys(hps[..], cellSize, size))
      ensures IndexesBelow(hps.Length)
    {
      Clear();
      ghost var keys := Keys(hps[..], cellSize, size);
      assert keys[..0] == [];
      for i := 0 to hps.Length
        invariant forall c :: 0 <= c < size ==> table[c] == Bucket(keys[..i], c)
      {
        var idx := Hash(hps[i].p);
        BucketExtend(keys, i);
        table[idx] := table[idx] + [i];
      }
      assert keys[..hps.Length] == keys;
      BuiltIndexesBelow(table[..], keys);
    }

    /** The first loop of build: every bucket emptied. */
    method Clear()
      requires table.Length == size
      modifies table
      ensures forall c :: 0 <= c < size ==> table[c] == []
    {
      for b := 0 to size
        invariant forall c :: 0 <= c < b ==> table[c] == []
      {
        table[b] := [];
      }
    }

    /** update: every hit point in the buckets of the 27 cells around the
        photon's cell is credited once per probed cell, when the gate
        passes; nothing else changes. */
    method Update(p: Point3, dir: Vec3, power: Color, hps: array<HitPoint>)
      requires table.Length == size > 0 && cellSize != 0.0
      requires IndexesBelow(hps.Length)
      modifies hps
      ensures forall k :: 0 <= k < hps.Length ==>
                hps[k] == Updated(old(hps[k]), p, dir, power, ProbeVisits(table[..], cellSize, p, k))
    {
      var ns := Neighbours(FloorCell(p, cellSize));
      ghost var t := table[..];
      ghost var h0 := hps[..];
      for j := 0 to 27
        invariant CreditedUpTo(h0, hps[..], p, dir, power, t, ns, j)
      {
        var bucket := table[HashCoords(ns[j], size)];
        ghost var before := hps[..];
        assert forall q :: 0 <= q < |bucket| ==> bucket[q] < hps.Length;
        CreditBucket(bucket, p, dir, power, hps);
        CreditedStep(h0, before, hps[..], p, dir, power, t, ns, j, bucket);
      }
    }
  }

  /** After the first j probed cells: every hit point is credited its
      visits so far. */
  predicate CreditedUpTo(h0: seq<HitPoint>, hs: seq<HitPoint>, p: Point3, dir: Vec3, power: Color,
                         t: seq<seq<nat>>, ns: seq<Cell>, j: nat)
    requires |t| > 0 && j <= |ns|
  {
    |hs| == |h0| &&
    forall k :: 0 <= k < |hs| ==> hs[k] == Updated(h0[k], p, dir, power, ProbeVisitsUpTo(t, ns, k, j))
  }

  /** Crediting cell j's bucket advances the visits by that cell's. */
  lemma CreditedStep(h0: seq<HitPoint>, before: seq<HitPoint>, after: seq<HitPoint>,
                     p: Point3, dir: Vec3, power: Color, t: seq<seq<nat>>, ns: seq<Cell>, j: nat,
                     bucket: seq<nat>)
    requires |t| > 0 && j < |ns|
    requires CreditedUpTo(h0, before, p, dir, power, t, ns, j)
    requires bucket == t[HashCoords(ns[j], |t|)]
    requires |after| == |before|
    requires forall k :: 0 <= k < |after| ==> after[k] == Updated(before[k], p, dir, power, multiset(bucket)[k])
    ensures CreditedUpTo(h0, after, p, dir, power, t, ns, j + 1)
  {
    forall k | 0 <= k < |after|
      ensures after[k] == Updated(h0[k], p, dir, power, ProbeVisitsUpTo(t, ns, k, j + 1))
    {
      UpdatedAdditive(h0[k], p, dir, power, ProbeVisitsUpTo(t, ns, k, j), multiset(bucket)[k]);
    }
  }

  /** The grid of one iteration with the corrected cell size: twice the
      largest radius, hit_points.size() + 1000 buckets, built over the hit
      points. Every gathering hit point is then credited by Update
      (CoveringGridComplete). */
  method BuildGrid(hps: array<HitPoint>, sqrt: real -> real) returns (grid: HashGrid)
    requires IsSqrt(sqrt) && MaxR2(hps[..]) > 0.0
    ensures fresh(grid) && fresh(grid.table)
    ensures grid.cellSize == CoveringCellSize(hps[..], sqrt) && grid.size == hps.Length + 1000
    ensures grid.table.Length == grid.size
    ensures BuiltFrom(grid.table[..], Keys(hps[..], grid.cellSize, grid.size))
    ensures grid.IndexesBelow(hps.Length)
  {
    CoveringRadius(MaxR2(hps[..]), sqrt);
    var cellSize := 2.0 * sqrt(MaxR2(hps[..]));
    grid := new HashGrid(cellSize, hps.Length + 1000);
    grid.Build(hps);
  }

  /** The innermost loop of update: each index in the bucket, in turn, is
      credited one visit when its gate passes. */
  method CreditBucket(bucket: seq<nat>, p: Point3, dir: Vec3, power: Color, hps: array<HitPoint>)
    requires forall q :: 0 <= q < |bucket| ==> bucket[q] < hps.Length
    modifies hps
    ensures forall k :: 0 <= k < hps.Length ==> hps[k] == Updated(old(hps[k]), p, dir, power, multiset(bucket)[k])
  {
    for q := 0 to |bucket|
      invariant forall k :: 0 <= k < hps.Length ==> hps[k] == Updated(old(hps[k]), p, dir, power, multiset(bucket[..q])[k])
    {
      var k := bucket[q];
      assert bucket[..q + 1] == bucket[..q] + [k];
      var hp := hps[k];
      if hp.p.Minus(p).LengthSquared() <= hp.est.r2 {
        if hp.normal.Dot(dir) < 0.0 {
          CreditOne(hp.est, power);
          UpdatedAdditive(old(hps[k]), p, dir, power, multiset(bucket[..q])[k], 1);
          hps[k] := hp.(est := hp.est.(nNew := hp.est.nNew + 1.0, fluxNew := hp.est.fluxNew.Plus(power)));
        }
      }
    }
    assert bucket[..|bucket|] == bucket;
  }

  /** Crediting a visits and then b is crediting a + b: the gate depends
      only on fields crediting leaves alone. */
  lemma UpdatedAdditive(hp: HitPoint, p: Point3, dir: Vec3, power: Color, a: nat, b: nat)
    ensures Updated(Updated(hp, p, dir, power, a), p, dir, power, b) == Updated(hp, p, dir, power, a + b)
  {
    if Gathers(hp, p, dir) {
      CreditAdditive(hp.est, a, b, power);
    } else {
      CreditNone(hp.est, power);
    }
  }

  /** The reduction loop of render_ppm, on every hit point. */
  method ReduceRadii(hps: array<HitPoint>)
    requires forall k :: 0 <= k < hps.Length ==> ValidEstimate(hps[k].est)
    modifies hps
    ensures forall k :: 0 <= k < hps.Length ==> hps[k] == old(hps[k]).(est := Reduce(old(hps[k]).est, Alpha))
  {
    for k := 0 to hps.Length
      invariant forall i :: 0 <= i < k ==> hps[i] == old(hps[i]).(est := Reduce(old(hps[i]).est, Alpha))
      invariant forall i :: k <= i < hps.Length ==> hps[i] == old(hps[i])
    {
      var hp := hps[k];
      var e := hp.est;
      if e.nNew > 0.0 {
        var ratio := (e.nAccum + Alpha * e.nNew) / (e.nAccum + e.nNew);
        hps[k] := hp.(est := Estimate(e.r2 * ratio, 0.0, Zero, e.nAccum + Alpha * e.nNew,
                                      e.fluxAccum.Plus(e.fluxNew).Scale(ratio)));
      }
    }
  }

  /** After the reduction every hit point is still valid, no radius has
      grown and no count total has shrunk. */
  lemma ReduceRadiiProgress(before: seq<HitPoint>, after: seq<HitPoint>)
    requires forall k :: 0 <= k < |before| ==> ValidEstimate(before[k].est)
    requires |after| == |before|
    requires forall k :: 0 <= k < |before| ==> after[k] == before[k].(est := Reduce(before[k].est, Alpha))
    ensures forall k :: 0 <= k < |after| ==>
              ValidEstimate(after[k].est) && after[k].est.r2 <= before[k].est.r2 &&
              before[k].est.nAccum <= after[k].est.nAccum && after[k].est.nNew == 0.0
  {
    forall k | 0 <= k < |after|
      ensures ValidEstimate(after[k].est) && after[k].est.r2 <= before[k].est.r2 &&
              before[k].est.nAccum <= after[k].est.nAccum && after[k].est.nNew == 0.0
    {
      ReduceProgress(before[k].est, Alpha);
    }
  }

  /** photons_per_iter = total / 100, raised to at least 1000. */
  function PhotonsPerIter(total: int): (n: int)
    ensures n >= 1000
    ensures total >= 100000 ==> n == total / 100 && 100 * n <= total < 100 * n + 100
    ensures total < 100000 ==> n == 1000
  {
    var q := TruncDiv(total, 100);
    if q < 1000 then 1000 else q
  }

  /** Reconstruction threshold on r2. */
  const MinR2: real := 0.00000001

  /** What a hit point adds to its pixel: the radiance of its totals
      weighted by its throughput, or nothing when r2 <= 1e-8. */
  function Contribution(hp: HitPoint, photonsPerIter: int): (c: Color)
    requires photonsPerIter > 0
    ensures hp.est.r2 <= MinR2 ==> c == Zero
    ensures hp.est.r2 > MinR2 ==> c == Radiance(hp.est, photonsPerIter as real).Times(hp.throughput)
  {
    if hp.est.r2 > MinR2 then Radiance(hp.est, photonsPerIter as real).Times(hp.throughput) else Zero
  }

  /** The sum of the contributions of the hit points of one pixel. */
  function PixelSum(hps: seq<HitPoint>, pixel: int, photonsPerIter: int): Color
    requires photonsPerIter > 0
  {
    if |hps| == 0 then Zero
    else
      var last := hps[|hps| - 1];
      var rest := PixelSum(hps[..|hps| - 1], pixel, photonsPerIter);
      if last.pixelIndex == pixel then rest.Plus(Contribution(last, photonsPerIter)) else rest
  }

  /** A pixel none of whose hit points has r2 > 1e-8 stays black. */
  lemma {:induction false} PixelSumUnlit(hps: seq<HitPoint>, pixel: int, photonsPerIter: int)
    requires photonsPerIter > 0
    requires forall k :: 0 <= k < |hps| && hps[k].pixelIndex == pixel ==> hps[k].est.r2 <= MinR2
    ensures PixelSum(hps, pixel, photonsPerIter) == Zero
  {
    if |hps| > 0 {
      var init := hps[..|hps| - 1];
      forall k | 0 <= k < |init| && init[k].pixelIndex == pixel ensures init[k].est.r2 <= MinR2 {
        assert init[k] == hps[k];
      }
      PixelSumUnlit(init, pixel, photonsPerIter);
    }
  }

  /** One more hit point adds its contribution to its own pixel only. */
  lemma PixelSumStep(hps: seq<HitPoint>, k: nat, photonsPerIter: int)
    requires photonsPerIter > 0 && k < |hps|
    ensures forall i :: PixelSum(hps[..k + 1], i, photonsPerIter) ==
              if hps[k].pixelIndex == i then PixelSum(hps[..k], i, photonsPerIter).Plus(Contribution(hps[k], photonsPerIter))
              else PixelSum(hps[..k], i, photonsPerIter)
  {
    assert hps[..k + 1][..k] == hps[..k];
  }

  /** The reconstruction loop: final_image starts black and each hit point
      with r2 > 1e-8 adds its contribution to its own pixel. */
  method Reconstruct(hps: array<HitPoint>, pixels: nat, photonsPerIter: int) returns (image: array<Color>)
    requires photonsPerIter > 0
    requires forall k :: 0 <= k < hps.Length ==> 0 <= hps[k].pixelIndex < pixels
    ensures fresh(image) && image.Length == pixels
    ensures forall i :: 0 <= i < pixels ==> image[i] == PixelSum(hps[..], i, photonsPerIter)
  {
    image := new Color[pixels](_ => Zero);
    for k := 0 to hps.Length
      invariant forall i :: 0 <= i < pixels ==> image[i] == PixelSum(hps[..k], i, photonsPerIter)
    {
      var hp := hps[k];
      PixelSumStep(hps[..], k, photonsPerIter);
      if hp.est.r2 > MinR2 {
        var radiance := hp.est.fluxAccum.Div(Pi * hp.est.r2 * photonsPerIter as real);
        assert radiance.Times(hp.throughput) == Contribution(hp, photonsPerIter);
        image[hp.pixelIndex] := image[hp.pixelIndex].Plus(radiance.Times(hp.throughput));
      } else {
        assert image[hp.pixelIndex].Plus(Zero) == image[hp.pixelIndex];
      }
    }
    assert hps[..hps.Length] == hps[..];
  }
}
