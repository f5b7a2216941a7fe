// Plain photon mapping (renderer_pm.h): the photon map, a hash grid of
// buckets of photon indices with its fixed-radius density estimate, the
// photon tracer with its storage and roulette rules, and the eye tracer
// that reads the map at the first diffuse surface. The scene, the random
// numbers and the square root are inputs.

module Pm {
  import opened Options
  import opened Vectors
  import opened Utils
  import opened Rays
  import opened HitRecords
  import opened Scattering
  import opened SpatialHash
  import opened Fresnel
  import opened RendererCommon

  /** Photon: where it landed, the direction it arrived from, its power. */
  datatype Photon = Photon(p: Point3, dir: Vec3, power: Color)

  /** estimate_radiance's gate: the photon lies within the radius of the
      query point and arrives against its normal. */
  predicate Counts(ph: Photon, p: Point3, normal: Vec3, r2: real) {
    ph.p.Minus(p).LengthSquared() <= r2 && normal.Dot(ph.dir) < 0.0
  }

  /** The bucket of each photon. */
  function Keys(photons: seq<Photon>, cellSize: real, size: int): (keys: seq<int>)
    requires size > 0 && cellSize != 0.0
    ensures |keys| == |photons|
    ensures forall i :: 0 <= i < |photons| ==> keys[i] == HashCoords(FloorCell(photons[i].p, cellSize), size)
  {
    seq(|photons|, i requires 0 <= i < |photons| => HashCoords(FloorCell(photons[i].p, cellSize), size))
  }

  // ---------------------------------------------------------------------
  // The density estimate

  /** What estimate_radiance has collected so far: flux and count. */
  datatype Gather = Gather(flux: Color, count: nat)

  /** One photon offered to the running sums. */
  function Take(g: Gather, ph: Photon, p: Point3, normal: Vec3, r2: real): Gather {
    if Counts(ph, p, normal, r2) then Gather(g.flux.Plus(ph.power), g.count + 1) else g
  }

  predicate IndexesIn(bucket: seq<nat>, n: int) {
    forall j :: 0 <= j < |bucket| ==> bucket[j] < n
  }

  /** The sums after the first n photons of a bucket, starting from g. */
  function GatherEntries(bucket: seq<nat>, n: nat, photons: seq<Photon>, p: Point3, normal: Vec3, r2: real,
                         g: Gather): Gather
    requires n <= |bucket| && IndexesIn(bucket, |photons|)
  {
    if n == 0 then g
    else Take(GatherEntries(bucket, n - 1, photons, p, normal, r2, g), photons[bucket[n - 1]], p, normal, r2)
  }

  predicate TableIndexesIn(table: seq<seq<nat>>, n: int) {
    forall b :: 0 <= b < |table| ==> IndexesIn(table[b], n)
  }

  /** The sums after the buckets of the first m probed cells. */
  function GatherCells(table: seq<seq<nat>>, ns: seq<Cell>, m: nat, photons: seq<Photon>,
                       p: Point3, normal: Vec3, r2: real): Gather
    requires |table| > 0 && m <= |ns| && TableIndexesIn(table, |photons|)
  {
    if m == 0 then Gather(Zero, 0)
    else
      var bucket := table[HashCoords(ns[m - 1], |table|)];
      GatherEntries(bucket, |bucket|, photons, p, normal, r2, GatherCells(table, ns, m - 1, photons, p, normal, r2))
  }

  /** The area of the disc of squared radius r2. */
  function Area(r2: real): (a: real)
    ensures 0.0 < r2 ==> 0.0 < a
  {
    assert Pi > 3.0;
    Pi * r2
  }

  /** r2 = radius * radius */
  function RadiusSquared(radius: real): (r2: real)
    ensures radius != 0.0 ==> 0.0 < r2
  {
    SqNonNegative(radius);
    Sq(radius)
  }

  /** The radiance the sums give: black without photons, otherwise the
      flux over the disc area pi r^2. */
  function Radiance(g: Gather, r2: real): (c: Color)
    requires 0.0 < r2
    ensures g.count == 0 ==> c == Zero
    ensures g.count > 0 ==> c == g.flux.Div(Area(r2))
  {
    if g.count == 0 then Zero else g.flux.Div(Area(r2))
  }

  lemma DivScale(v: Vec3, k: real)
    requires k != 0.0
    ensures v.Div(k).Scale(k) == v
  {
  }

  /** The probed cells of estimate_radiance at p. */
  function Probe(p: Point3, cellSize: real): (ns: seq<Cell>)
    requires cellSize != 0.0
    ensures |ns| == 27
  {
    Neighbours(FloorCell(p, cellSize))
  }

  /** The value estimate_radiance returns, from the table as built. */
  function Estimate(table: seq<seq<nat>>, cellSize: real, photons: seq<Photon>, p: Point3, normal: Vec3,
                    radius: real): Color
    requires |table| > 0 && cellSize != 0.0 && radius != 0.0 && TableIndexesIn(table, |photons|)
  {
    EstimateOver(table, Probe(p, cellSize), photons, p, normal, radius)
  }

  /** The estimate over the buckets of the cells ns. */
  function EstimateOver(table: seq<seq<nat>>, ns: seq<Cell>, photons: seq<Photon>, p: Point3, normal: Vec3,
                        radius: real): Color
    requires |table| > 0 && radius != 0.0 && TableIndexesIn(table, |photons|)
  {
    Radiance(GatherCells(table, ns, |ns|, photons, p, normal, RadiusSquared(radius)), RadiusSquared(radius))
  }

  /** A photon is counted somewhere in the probe: it sits in the bucket of
      one of the probed cells and passes the gate. */
  predicate CountedIn(table: seq<seq<nat>>, ns: seq<Cell>, m: nat, photons: seq<Photon>,
                      p: Point3, normal: Vec3, r2: real)
    requires |table| > 0 && m <= |ns| && TableIndexesIn(table, |photons|)
  {
    exists j, e :: 0 <= j < m && 0 <= e < |table[HashCoords(ns[j], |table|)]| &&
                   Counts(photons[table[HashCoords(ns[j], |table|)][e]], p, normal, r2)
  }

  /** Within one bucket: the count grows exactly when a gated photon is
      among the entries, and the flux only changes with the count. */
  lemma {:induction false} EntriesCount(bucket: seq<nat>, n: nat, photons: seq<Photon>, p: Point3, normal: Vec3,
                                        r2: real, g: Gather)
    requires n <= |bucket| && IndexesIn(bucket, |photons|)
    ensures var g' := GatherEntries(bucket, n, photons, p, normal, r2, g);
            g.count <= g'.count &&
            (g'.count == g.count <==> forall e :: 0 <= e < n ==> !Counts(photons[bucket[e]], p, normal, r2)) &&
            (g'.count == g.count ==> g'.flux == g.flux)
  {
    if n > 0 {
      EntriesCount(bucket, n - 1, photons, p, normal, r2, g);
    }
  }

  /** The probe up to cell m counts a photon iff the probe up to cell m - 1
      does or the bucket of cell m - 1 holds a gated photon. */
  lemma CountedInStep(table: seq<seq<nat>>, ns: seq<Cell>, m: nat, photons: seq<Photon>,
                      p: Point3, normal: Vec3, r2: real)
    requires |table| > 0 && 0 < m <= |ns| && TableIndexesIn(table, |photons|)
    ensures var bucket := table[HashCoords(ns[m - 1], |table|)];
            CountedIn(table, ns, m, photons, p, normal, r2) <==>
              CountedIn(table, ns, m - 1, photons, p, normal, r2) ||
              exists e :: 0 <= e < |bucket| && Counts(photons[bucket[e]], p, normal, r2)
  {
    var bucket := table[HashCoords(ns[m - 1], |table|)];
    if CountedIn(table, ns, m, photons, p, normal, r2) {
      var j, e :| 0 <= j < m && 0 <= e < |table[HashCoords(ns[j], |table|)]| &&
                  Counts(photons[table[HashCoords(ns[j], |table|)][e]], p, normal, r2);
      if j < m - 1 {
        assert CountedIn(table, ns, m - 1, photons, p, normal, r2);
      } else {
        assert Counts(photons[bucket[e]], p, normal, r2);
      }
    }
    if CountedIn(table, ns, m - 1, photons, p, normal, r2) {
      var j, e :| 0 <= j < m - 1 && 0 <= e < |table[HashCoords(ns[j], |table|)]| &&
                  Counts(photons[table[HashCoords(ns[j], |table|)][e]], p, normal, r2);
      assert CountedIn(table, ns, m, photons, p, normal, r2);
    }
    if exists e :: 0 <= e < |bucket| && Counts(photons[bucket[e]], p, normal, r2) {
      var e :| 0 <= e < |bucket| && Counts(photons[bucket[e]], p, normal, r2);
      assert CountedIn(table, ns, m, photons, p, normal, r2) by {
        assert 0 <= m - 1 < m && 0 <= e < |table[HashCoords(ns[m - 1], |table|)]|;
      }
    }
  }

  /** The count is zero exactly when no probed photon passes the gate, and
      then the flux is black too. */
  lemma {:induction false} CountZeroIffNoneCounted(table: seq<seq<nat>>, ns: seq<Cell>, m: nat, photons: seq<Photon>,
                                                   p: Point3, normal: Vec3, r2: real)
    requires |table| > 0 && m <= |ns| && TableIndexesIn(table, |photons|)
    ensures var g := GatherCells(table, ns, m, photons, p, normal, r2);
            (g.count == 0 <==> !CountedIn(table, ns, m, photons, p, normal, r2)) &&
            (g.count == 0 ==> g.flux == Zero)
  {
    if m > 0 {
      CountZeroIffNoneCounted(table, ns, m - 1, photons, p, normal, r2);
      CountedInStep(table, ns, m, photons, p, normal, r2);
      var bucket := table[HashCoords(ns[m - 1], |table|)];
      var before := GatherCells(table, ns, m - 1, photons, p, normal, r2);
      EntriesCount(bucket, |bucket|, photons, p, normal, r2, before);
    }
  }

  /** a is at most b in every channel. */
  predicate Below(a: Color, b: Color) {
    a.x <= b.x && a.y <= b.y && a.z <= b.z
  }

  predicate NonNegativePowers(photons: seq<Photon>) {
    forall i :: 0 <= i < |photons| ==> NonNegative(photons[i].power)
  }

  /** With non-negative powers the sums only grow, and a gated entry adds
      its whole power and one to the count. */
  lemma {:induction false} EntriesGrow(bucket: seq<nat>, n: nat, photons: seq<Photon>, p: Point3, normal: Vec3,
                                       r2: real, g: Gather, e: nat)
    requires n <= |bucket| && IndexesIn(bucket, |photons|) && NonNegativePowers(photons)
    ensures var g' := GatherEntries(bucket, n, photons, p, normal, r2, g);
            g.count <= g'.count && Below(g.flux, g'.flux)
    ensures e < n && Counts(photons[bucket[e]], p, normal, r2) ==>
              var g' := GatherEntries(bucket, n, photons, p, normal, r2, g);
              g.count + 1 <= g'.count && Below(g.flux.Plus(photons[bucket[e]].power), g'.flux)
  {
    if n > 0 {
      EntriesGrow(bucket, n - 1, photons, p, normal, r2, g, e);
    }
  }

  /** With non-negative powers the sums over the cells only grow. */
  lemma {:induction false} CellsGrow(table: seq<seq<nat>>, ns: seq<Cell>, m: nat, n: nat, photons: seq<Photon>,
                                     p: Point3, normal: Vec3, r2: real)
    requires |table| > 0 && m <= n <= |ns| && TableIndexesIn(table, |photons|) && NonNegativePowers(photons)
    ensures var a := GatherCells(table, ns, m, photons, p, normal, r2);
            var b := GatherCells(table, ns, n, photons, p, normal, r2);
            a.count <= b.count && Below(a.flux, b.flux)
  {
    if m < n {
      CellsGrow(table, ns, m, n - 1, photons, p, normal, r2);
      var bucket := table[HashCoords(ns[n - 1], |table|)];
      var before := GatherCells(table, ns, n - 1, photons, p, normal, r2);
      EntriesGrow(bucket, |bucket|, photons, p, normal, r2, before, 0);
      EntriesCount(bucket, |bucket|, photons, p, normal, r2, before);
    }
  }

  /** A gated photon in the bucket of probed cell j adds its power and one
      to the final sums. */
  lemma CellContributes(table: seq<seq<nat>>, ns: seq<Cell>, photons: seq<Photon>,
                        p: Point3, normal: Vec3, r2: real, j: nat, e: nat)
    requires |table| > 0 && j < |ns| == 27 && TableIndexesIn(table, |photons|) && NonNegativePowers(photons)
    requires e < |table[HashCoords(ns[j], |table|)]|
    requires Counts(photons[table[HashCoords(ns[j], |table|)][e]], p, normal, r2)
    ensures var before := GatherCells(table, ns, j, photons, p, normal, r2);
            var g := GatherCells(table, ns, |ns|, photons, p, normal, r2);
            before.count + 1 <= g.count &&
            Below(before.flux.Plus(photons[table[HashCoords(ns[j], |table|)][e]].power), g.flux)
  {
    var bucket := table[HashCoords(ns[j], |table|)];
    var before := GatherCells(table, ns, j, photons, p, normal, r2);
    EntriesGrow(bucket, |bucket|, photons, p, normal, r2, before, e);
    CellsGrow(table, ns, j + 1, |ns|, photons, p, normal, r2);
  }

  /** Completeness with the cell size render_pm uses, twice the radius:
      every photon that passes the gate is reached by the 27-cell probe,
      so the count is at least one and the flux holds the photon's power. */
  lemma NearPhotonGathered(table: seq<seq<nat>>, photons: seq<Photon>, radius: real, p: Point3, normal: Vec3, k: nat)
    requires |table| > 0 && radius > 0.0
    requires BuiltFrom(table, Keys(photons, 2.0 * radius, |table|))
    requires TableIndexesIn(table, |photons|) && NonNegativePowers(photons)
    requires k < |photons| && Counts(photons[k], p, normal, RadiusSquared(radius))
    ensures var g := GatherCells(table, Probe(p, 2.0 * radius), |Probe(p, 2.0 * radius)|, photons, p, normal, RadiusSquared(radius));
            1 <= g.count && Below(photons[k].power, g.flux)
  {
    var cs := 2.0 * radius;
    var c := FloorCell(p, cs);
    var d := FloorCell(photons[k].p, cs);
    assert photons[k].p.Minus(p).LengthSquared() <= RadiusSquared(radius);
    WithinRadiusAdjacent(photons[k].p, p, radius, cs);
    NeighboursComplete(c, d);
    var ns := Neighbours(c);
    var j := ProbeIndex(d.x - c.x, d.y - c.y, d.z - c.z);
    var keys := Keys(photons, cs, |table|);
    BucketMembers(keys, keys[k]);
    var bucket := table[HashCoords(ns[j], |table|)];
    assert k in bucket;
    var e :| 0 <= e < |bucket| && bucket[e] == k;
    CellContributes(table, ns, photons, p, normal, RadiusSquared(radius), j, e);
    var before := GatherCells(table, ns, j, photons, p, normal, RadiusSquared(radius));
    CellsGrow(table, ns, 0, j, photons, p, normal, RadiusSquared(radius));
    assert NonNegative(before.flux);
  }

  /** No deduplication: two probed cells that hash to the same bucket
      holding a gated photon count it twice. */
  lemma CollidingCellsCountTwice(table: seq<seq<nat>>, ns: seq<Cell>, photons: seq<Photon>,
                                 p: Point3, normal: Vec3, r2: real, j1: nat, j2: nat, e: nat)
    requires |table| > 0 && j1 < j2 < |ns| == 27 && TableIndexesIn(table, |photons|) && NonNegativePowers(photons)
    requires HashCoords(ns[j1], |table|) == HashCoords(ns[j2], |table|)
    requires e < |table[HashCoords(ns[j1], |table|)]|
    requires Counts(photons[table[HashCoords(ns[j1], |table|)][e]], p, normal, r2)
    ensures GatherCells(table, ns, |ns|, photons, p, normal, r2).count >= 2
  {
    var bucket := table[HashCoords(ns[j1], |table|)];
    var before := GatherCells(table, ns, j1, photons, p, normal, r2);
    EntriesGrow(bucket, |bucket|, photons, p, normal, r2, before, e);
    CellsGrow(table, ns, j1 + 1, j2, photons, p, normal, r2);
    CellContributes(table, ns, photons, p, normal, r2, j2, e);
  }

  // ---------------------------------------------------------------------
  // The photon map

  /** PhotonMap: size buckets of indices into the photon vector. */
  class PhotonMap {
    const cellSize: real
    const size: int
    const table: array<seq<nat>>

    /** PhotonMap(cell_size, size): size empty buckets. */
    constructor(cellSize: real, size: int)
      requires 0 <= size
      ensures this.cellSize == cellSize && this.size == size
      ensures fresh(table) && table.Length == size
      ensures forall b :: 0 <= b < size ==> table[b] == []
    {
      this.cellSize := cellSize;
      this.size := size;
      table := new seq<nat>[size](_ => []);
    }

    /** hash: the bucket of the floor cell of p. */
    function Hash(p: Point3): (h: int)
      requires size > 0 && cellSize != 0.0
      ensures 0 <= h < size
      ensures h == HashCoords(FloorCell(p, cellSize), size)
    {
      HashCoords(FloorCell(p, cellSize), size)
    }

    /** Every stored index names one of n photons. */
    predicate IndexesBelow(n: int)
      reads table
    {
      TableIndexesIn(table[..], n)
    }

    /** build: clear every bucket, then append each photon's index to the
        bucket of its cell, in order. */
    method Build(photons: seq<Photon>)
      requires table.Length == size > 0 && cellSize != 0.0
      modifies table
      ensures BuiltFrom(table[..], Keys(photons, cellSize, size))
      ensures IndexesBelow(|photons|)
    {
      for b := 0 to table.Length
        invariant forall c :: 0 <= c < b ==> table[c] == []
      {
        table[b] := [];
      }
      ghost var keys := Keys(photons, cellSize, size);
      assert keys[..0] == [];
      for i := 0 to |photons|
        invariant forall c :: 0 <= c < size ==> table[c] == Bucket(keys[..i], c)
      {
        var idx := Hash(photons[i].p);
        BucketExtend(keys, i);
        table[idx] := table[idx] + [i];
      }
      assert keys[..|photons|] == keys;
      BuiltIndexesBelow(table[..], keys);
    }

    /** estimate_radiance: probe the 27 cells around p in loop order, sum
        the power and number of the gated photons of each bucket, and
        return black for none, otherwise the flux over pi radius^2. */
    method EstimateRadiance(p: Point3, normal: Vec3, radius: real, photons: seq<Photon>) returns (c: Color)
      requires table.Length == size > 0 && cellSize != 0.0 && radius != 0.0
      requires IndexesBelow(|photons|)
      ensures c == Estimate(table[..], cellSize, photons, p, normal, radius)
    {
      var r2 := radius * radius;
      assert r2 == RadiusSquared(radius);
      var ns := Neighbours(FloorCell(p, cellSize));
      ghost var t := table[..];
      var g := Gather(Zero, 0);
      for j := 0 to |ns|
        invariant g == GatherCells(t, ns, j, photons, p, normal, r2)
      {
        var bucket := table[HashCoords(ns[j], size)];
        ghost var start := g;
        for e := 0 to |bucket|
          invariant g == GatherEntries(bucket, e, photons, p, normal, r2, start)
        {
          g := Take(g, photons[bucket[e]], p, normal, r2);
        }
      }
      c := Radiance(g, r2);
    }
  }

  /** The estimate is black exactly when no photon in the probed buckets
      passes the gate; otherwise it is the gated flux over pi radius^2. */
  lemma EstimateBlackIffNoPhoton(table: seq<seq<nat>>, ns: seq<Cell>, photons: seq<Photon>, p: Point3,
                                 normal: Vec3, radius: real)
    requires |table| > 0 && radius != 0.0 && TableIndexesIn(table, |photons|)
    ensures var g := GatherCells(table, ns, |ns|, photons, p, normal, RadiusSquared(radius));
            var c := EstimateOver(table, ns, photons, p, normal, radius);
            (!CountedIn(table, ns, |ns|, photons, p, normal, RadiusSquared(radius)) ==> c == Zero) &&
            (CountedIn(table, ns, |ns|, photons, p, normal, RadiusSquared(radius)) ==> c == g.flux.Div(Area(RadiusSquared(radius))))
  {
    CountZeroIffNoneCounted(table, ns, |ns|, photons, p, normal, RadiusSquared(radius));
  }

  // ---------------------------------------------------------------------
  // The photon pass

  /** The random numbers one bounce of trace_photon_pm draws: the roulette
      number, the diffuse direction its cosine sampling produces, and the
      number choosing between reflection and refraction at glass. */
  datatype PmDraws = PmDraws(survive: real, diffuseDir: Vec3, branch: real)

  /** random_double() is never negative. */
  ghost predicate ValidDraws(draws: nat -> PmDraws) {
    forall d: nat :: 0.0 <= draws(d).survive
  }

  /** The roulette of trace_photon_pm once dep has been incremented: up to
      depth 5 the colour passes unchanged; beyond it the photon survives iff
      random < p, p the largest channel, and the colour is divided by p. */
  function Survive(dep: int, f: Color, u: real): (next: Option<Color>)
    requires 0.0 <= u
    ensures dep <= 5 ==> next == Some(f)
    ensures dep > 5 ==> (next.Some? <==> u < MaxInXyz(f))
    ensures dep > 5 && next.Some? ==> next.value.Scale(MaxInXyz(f)) == f
  {
    if dep <= 5 then Some(f)
    else
      var p := MaxInXyz(f);
      if u < p then
        DivScale(f, p);
        Some(f.Div(p))
      else None
  }

  /** The refraction setup shared by both tracers at glass: the unit
      incoming direction, the cosine against nl, whether refraction is
      impossible, and the reflected and refracted rays from x. */
  datatype GlassHit = GlassHit(cosTheta: real, cannot: bool, reflected: Ray, refracted: Ray)

  function Glass(dir: Vec3, rec: HitRecord, sqrt: real -> real): (g: GlassHit)
    requires IsSqrt(sqrt) && dir != Zero
    ensures 0.0 <= g.cosTheta <= 1.0
  {
    var nl := Oriented(rec.normal, dir);
    var ratio := if rec.normal.Dot(dir) < 0.0 then 1.0 / GlassIndex else GlassIndex;
    var unit := UnitVector(dir, sqrt);
    var cosTheta := Min(unit.Neg().Dot(nl), 1.0);
    OrientedCosine(dir, nl, sqrt);
    GlassHit(cosTheta, CannotRefract(ratio, cosTheta, sqrt),
             Ray(rec.p, Reflect(unit, nl)), Ray(rec.p, Refract(unit, nl, ratio, sqrt)))
  }

  /** The unit incoming direction never points along the oriented normal. */
  lemma OrientedCosine(dir: Vec3, nl: Vec3, sqrt: real -> real)
    requires IsSqrt(sqrt) && dir != Zero && nl.Dot(dir) <= 0.0
    ensures 0.0 <= UnitVector(dir, sqrt).Neg().Dot(nl)
  {
    UnitVectorDotSign(dir, nl, sqrt);
    assert dir.Dot(nl) == nl.Dot(dir);
  }

  /** Where a surviving photon goes next, and its new power: a diffuse
      bounce in the sampled direction, a mirror reflection about n, or at
      glass the reflected ray under total internal reflection, otherwise
      one of the two rays with its Fresnel weight. */
  function Bounce(ray: Ray, rec: HitRecord, kind: Refl, f: Color, power: Color, d: PmDraws, sqrt: real -> real)
    : (next: (Ray, Color))
    requires IsSqrt(sqrt) && ray.dir != Zero
  {
    match kind
    case Diff => (Ray(rec.p, d.diffuseDir), power.Times(f))
    case Spec => (Ray(rec.p, Reflect(ray.dir, rec.normal)), power.Times(f))
    case Refr =>
      var g := Glass(ray.dir, rec, sqrt);
      if g.cannot then (g.reflected, power.Times(f))
      else
        var b := ChooseBranch(GlassReflectance(g.cosTheta), d.branch);
        (if b.reflect then g.reflected else g.refracted, power.Times(f).Scale(b.weight))
  }

  /** trace_photon_pm: the photons one emitted photon leaves, from depth
      dep on. It stops when its largest channel is below 1e-9 or it leaves
      the scene; at a hit, after the roulette, a diffuse surface stores
      the photon (with its power before the bounce) and it bounces on.
      Bounce dep draws draws(dep). The source has no depth bound; `fuel`
      bounds the number of hits followed. */
  function TracePhotonPm(ray: Ray, dep: nat, power: Color, world: World, draws: nat -> PmDraws, fuel: nat,
                         sqrt: real -> real): (stored: seq<Photon>)
    requires IsSqrt(sqrt) && DirectedHits(world) && ValidDraws(draws)
    ensures MaxInXyz(power) < 0.000000001 ==> stored == []
    ensures world(ray).None? ==> stored == []
    ensures |stored| <= fuel
    decreases fuel
  {
    if fuel == 0 || MaxInXyz(power) < 0.000000001 || world(ray).None? then []
    else
      var rec := world(ray).value;
      var (kind, f) := GetFeature(rec.mat, rec.p);
      var d := draws(dep);
      match Survive(dep + 1, f, d.survive)
      case None => []
      case Some(f') =>
        var here := if kind == Diff then [Photon(rec.p, ray.dir, power)] else [];
        var (ray', power') := Bounce(ray, rec, kind, f', power, d, sqrt);
        here + TracePhotonPm(ray', dep + 1, power', world, draws, fuel - 1, sqrt)
  }

  /** A photon stored where the scene reports a diffuse surface, arriving
      along the ray that found it. */
  ghost predicate OnDiffuse(world: World, ph: Photon) {
    exists r: Ray :: world(r).Some? && world(r).value.p == ph.p && r.dir == ph.dir &&
                     GetFeature(world(r).value.mat, world(r).value.p).0 == Diff
  }

  /** Every stored photon lies on a diffuse surface and carries at least
      1e-9 in some channel. */
  lemma {:induction false} StoredOnDiffuse(ray: Ray, dep: nat, power: Color, world: World, draws: nat -> PmDraws,
                                           fuel: nat, sqrt: real -> real)
    requires IsSqrt(sqrt) && DirectedHits(world) && ValidDraws(draws)
    ensures forall i :: 0 <= i < |TracePhotonPm(ray, dep, power, world, draws, fuel, sqrt)| ==>
              var ph := TracePhotonPm(ray, dep, power, world, draws, fuel, sqrt)[i];
              OnDiffuse(world, ph) && MaxInXyz(ph.power) >= 0.000000001
    decreases fuel
  {
    var stored := TracePhotonPm(ray, dep, power, world, draws, fuel, sqrt);
    if !(fuel == 0 || MaxInXyz(power) < 0.000000001 || world(ray).None?) {
      var rec := world(ray).value;
      var (kind, f) := GetFeature(rec.mat, rec.p);
      var d := draws(dep);
      match Survive(dep + 1, f, d.survive)
      case None =>
      case Some(f') =>
        var here := if kind == Diff then [Photon(rec.p, ray.dir, power)] else [];
        var (ray', power') := Bounce(ray, rec, kind, f', power, d, sqrt);
        var rest := TracePhotonPm(ray', dep + 1, power', world, draws, fuel - 1, sqrt);
        StoredOnDiffuse(ray', dep + 1, power', world, draws, fuel - 1, sqrt);
        assert stored == here + rest;
        forall i | 0 <= i < |stored|
          ensures OnDiffuse(world, stored[i]) && MaxInXyz(stored[i].power) >= 0.000000001
        {
          if i < |here| {
            assert stored[i] == Photon(rec.p, ray.dir, power);
            assert world(ray).Some? && world(ray).value.p == rec.p;
          } else {
            assert stored[i] == rest[i - |here|];
          }
        }
    }
  }

  /** Two draw sequences that differ at most in roulette numbers before
      depth 5. */
  ghost predicate SameBeyondFive(a: nat -> PmDraws, b: nat -> PmDraws) {
    forall d: nat :: a(d).diffuseDir == b(d).diffuseDir && a(d).branch == b(d).branch &&
                     (d >= 5 ==> a(d).survive == b(d).survive)
  }

  /** The roulette plays no part in the first five hits: the roulette
      numbers drawn there never change which photons are stored. */
  lemma {:induction false} NoRouletteBeforeFive(ray: Ray, dep: nat, power: Color, world: World,
                                                a: nat -> PmDraws, b: nat -> PmDraws, fuel: nat, sqrt: real -> real)
    requires IsSqrt(sqrt) && DirectedHits(world) && ValidDraws(a) && ValidDraws(b)
    requires SameBeyondFive(a, b)
    ensures TracePhotonPm(ray, dep, power, world, a, fuel, sqrt) == TracePhotonPm(ray, dep, power, world, b, fuel, sqrt)
    decreases fuel
  {
    if !(fuel == 0 || MaxInXyz(power) < 0.000000001 || world(ray).None?) {
      var rec := world(ray).value;
      var (kind, f) := GetFeature(rec.mat, rec.p);
      assert a(dep).diffuseDir == b(dep).diffuseDir && a(dep).branch == b(dep).branch;
      if dep + 1 > 5 {
        assert a(dep).survive == b(dep).survive;
      }
      var sa := Survive(dep + 1, f, a(dep).survive);
      assert sa == Survive(dep + 1, f, b(dep).survive);
      if sa.Some? {
        var (ray', power') := Bounce(ray, rec, kind, sa.value, power, a(dep), sqrt);
        assert (ray', power') == Bounce(ray, rec, kind, sa.value, power, b(dep), sqrt);
        NoRouletteBeforeFive(ray', dep + 1, power', world, a, b, fuel - 1, sqrt);
      }
    }
  }

  // ---------------------------------------------------------------------
  // The eye pass

  /** eye_trace_estimate: the radiance along a ray from depth dep. A miss
      is black; a diffuse surface returns its colour times the photon-map
      estimate at the hit; mirrors and glass give black past max_depth and
      otherwise recurse with dep + 1, glass following both the reflected
      and the refracted ray (weighted Re and Tr) while dep < 3 and one of
      them, chosen by the Fresnel roulette, after. `estimate` is the map's
      estimate_radiance with the fixed radius; `path` names the call in the
      recursion (true for a reflected child), and the roulette number of a
      call is us(path). */
  function EyeTraceEstimate(ray: Ray, dep: int, maxDepth: int, world: World, estimate: (Point3, Vec3) -> Color,
                            path: seq<bool>, us: seq<bool> -> real, sqrt: real -> real): (c: Color)
    requires IsSqrt(sqrt) && DirectedHits(world)
    ensures world(ray).None? ==> c == Zero
    decreases if dep <= maxDepth then maxDepth - dep + 1 else 0
  {
    match world(ray)
    case None => Zero
    case Some(rec) =>
      var nl := Oriented(rec.normal, ray.dir);
      var (kind, f) := GetFeature(rec.mat, rec.p);
      if kind == Diff then f.Times(estimate(rec.p, nl))
      else if dep > maxDepth then Zero
      else if kind == Spec then
        f.Times(EyeTraceEstimate(Ray(rec.p, Reflect(ray.dir, rec.normal)), dep + 1, maxDepth, world, estimate,
                                 path + [true], us, sqrt))
      else
        var g := Glass(ray.dir, rec, sqrt);
        if g.cannot then
          f.Times(EyeTraceEstimate(g.reflected, dep + 1, maxDepth, world, estimate, path + [true], us, sqrt))
        else
          var re := GlassReflectance(g.cosTheta);
          if dep < 3 then
            var reflection := EyeTraceEstimate(g.reflected, dep + 1, maxDepth, world, estimate, path + [true], us, sqrt);
            var refraction := EyeTraceEstimate(g.refracted, dep + 1, maxDepth, world, estimate, path + [false], us, sqrt);
            f.Times(reflection.Scale(re).Plus(refraction.Scale(1.0 - re)))
          else
            var b := ChooseBranch(re, us(path));
            if b.reflect then
              f.Scale(b.weight).Times(EyeTraceEstimate(g.reflected, dep + 1, maxDepth, world, estimate,
                                                       path + [true], us, sqrt))
            else
              f.Scale(b.weight).Times(EyeTraceEstimate(g.refracted, dep + 1, maxDepth, world, estimate,
                                                       path + [false], us, sqrt))
  }

  /** A diffuse hit ends the eye path: its colour times the estimate at the
      hit, whatever the depth, the depth limit and the roulette numbers.
      Past max_depth a mirror or glass hit is black. */
  lemma EyeTraceStops(ray: Ray, dep: int, maxDepth: int, world: World, estimate: (Point3, Vec3) -> Color,
                      path: seq<bool>, us: seq<bool> -> real, sqrt: real -> real,
                      dep': int, maxDepth': int, path': seq<bool>, us': seq<bool> -> real)
    requires IsSqrt(sqrt) && DirectedHits(world) && world(ray).Some?
    ensures var rec := world(ray).value;
            var (kind, f) := GetFeature(rec.mat, rec.p);
            kind == Diff ==>
              EyeTraceEstimate(ray, dep, maxDepth, world, estimate, path, us, sqrt) ==
              EyeTraceEstimate(ray, dep', maxDepth', world, estimate, path', us', sqrt) ==
              f.Times(estimate(rec.p, Oriented(rec.normal, ray.dir)))
    ensures var rec := world(ray).value;
            GetFeature(rec.mat, rec.p).0 != Diff && dep > maxDepth ==>
              EyeTraceEstimate(ray, dep, maxDepth, world, estimate, path, us, sqrt) == Zero
  {
  }

  /** Every surface colour the scene reports is non-negative. */
  ghost predicate NonNegativeScene(world: World) {
    forall r: Ray :: world(r).Some? ==> NonNegative(GetFeature(world(r).value.mat, world(r).value.p).1)
  }

  ghost predicate NonNegativeEstimate(estimate: (Point3, Vec3) -> Color) {
    forall p: Point3, n: Vec3 :: NonNegative(estimate(p, n))
  }

  lemma TimesNonNegative(a: Color, b: Color)
    requires NonNegative(a) && NonNegative(b)
    ensures NonNegative(a.Times(b))
  {
    MulNonNegative(a.x, b.x);
    MulNonNegative(a.y, b.y);
    MulNonNegative(a.z, b.z);
  }

  lemma ScaleNonNegative(a: Color, k: real)
    requires NonNegative(a) && 0.0 <= k
    ensures NonNegative(a.Scale(k))
  {
    MulNonNegative(k, a.x);
    MulNonNegative(k, a.y);
    MulNonNegative(k, a.z);
  }

  /** A non-negative scene read through a non-negative photon map yields
      non-negative radiance. */
  lemma {:induction false} EyeTraceNonNegative(ray: Ray, dep: int, maxDepth: int, world: World,
                                               estimate: (Point3, Vec3) -> Color, path: seq<bool>,
                                               us: seq<bool> -> real, sqrt: real -> real)
    requires IsSqrt(sqrt) && DirectedHits(world) && NonNegativeScene(world) && NonNegativeEstimate(estimate)
    ensures NonNegative(EyeTraceEstimate(ray, dep, maxDepth, world, estimate, path, us, sqrt))
    decreases if dep <= maxDepth then maxDepth - dep + 1 else 0
  {
    if world(ray).Some? {
      var rec := world(ray).value;
      var nl := Oriented(rec.normal, ray.dir);
      var (kind, f) := GetFeature(rec.mat, rec.p);
      assert NonNegative(f);
      if kind == Diff {
        TimesNonNegative(f, estimate(rec.p, nl));
      } else if dep <= maxDepth {
        if kind == Spec {
          var r' := Ray(rec.p, Reflect(ray.dir, rec.normal));
          EyeTraceNonNegative(r', dep + 1, maxDepth, world, estimate, path + [true], us, sqrt);
          TimesNonNegative(f, EyeTraceEstimate(r', dep + 1, maxDepth, world, estimate, path + [true], us, sqrt));
        } else {
          var g := Glass(ray.dir, rec, sqrt);
          var a := EyeTraceEstimate(g.reflected, dep + 1, maxDepth, world, estimate, path + [true], us, sqrt);
          var b := EyeTraceEstimate(g.refracted, dep + 1, maxDepth, world, estimate, path + [false], us, sqrt);
          EyeTraceNonNegative(g.reflected, dep + 1, maxDepth, world, estimate, path + [true], us, sqrt);
          EyeTraceNonNegative(g.refracted, dep + 1, maxDepth, world, estimate, path + [false], us, sqrt);
          var re := GlassReflectance(g.cosTheta);
          if g.cannot {
            TimesNonNegative(f, a);
          } else if dep < 3 {
            ScaleNonNegative(a, re);
            ScaleNonNegative(b, 1.0 - re);
            TimesNonNegative(f, a.Scale(re).Plus(b.Scale(1.0 - re)));
          } else {
            var br := ChooseBranch(re, us(path));
            ScaleNonNegative(f, br.weight);
            TimesNonNegative(f.Scale(br.weight), a);
            TimesNonNegative(f.Scale(br.weight), b);
          }
        }
      }
    }
  }

  /** An empty photon map renders black: with an estimate that is black
      everywhere, every eye path returns black. */
  lemma {:induction false} DarkMapDarkImage(ray: Ray, dep: int, maxDepth: int, world: World,
                                            estimate: (Point3, Vec3) -> Color, path: seq<bool>,
                                            us: seq<bool> -> real, sqrt: real -> real)
    requires IsSqrt(sqrt) && DirectedHits(world)
    requires forall p: Point3, n: Vec3 :: estimate(p, n) == Zero
    ensures EyeTraceEstimate(ray, dep, maxDepth, world, estimate, path, us, sqrt) == Zero
    decreases if dep <= maxDepth then maxDepth - dep + 1 else 0
  {
    if world(ray).Some? {
      var rec := world(ray).value;
      var (kind, f) := GetFeature(rec.mat, rec.p);
      if kind != Diff && dep <= maxDepth {
        if kind == Spec {
          DarkMapDarkImage(Ray(rec.p, Reflect(ray.dir, rec.normal)), dep + 1, maxDepth, world, estimate,
                           path + [true], us, sqrt);
        } else {
          var g := Glass(ray.dir, rec, sqrt);
          DarkMapDarkImage(g.reflected, dep + 1, maxDepth, world, estimate, path + [true], us, sqrt);
          DarkMapDarkImage(g.refracted, dep + 1, maxDepth, world, estimate, path + [false], us, sqrt);
        }
      }
    }
  }

  /** Rays are split at glass while dep < 3 and never later: with the root
      at depth 0 (|path| == dep), the Fresnel roulette numbers of the first
      three levels are never drawn. */
  lemma {:induction false} NoRouletteBeforeThree(ray: Ray, dep: int, maxDepth: int, world: World,
                                                 estimate: (Point3, Vec3) -> Color, path: seq<bool>,
                                                 a: seq<bool> -> real, b: seq<bool> -> real, sqrt: real -> real)
    requires IsSqrt(sqrt) && DirectedHits(world) && |path| == dep
    requires forall q: seq<bool> :: |q| >= 3 ==> a(q) == b(q)
    ensures EyeTraceEstimate(ray, dep, maxDepth, world, estimate, path, a, sqrt) ==
            EyeTraceEstimate(ray, dep, maxDepth, world, estimate, path, b, sqrt)
    decreases if dep <= maxDepth then maxDepth - dep + 1 else 0
  {
    if world(ray).Some? {
      var rec := world(ray).value;
      var (kind, f) := GetFeature(rec.mat, rec.p);
      if kind != Diff && dep <= maxDepth {
        if kind == Spec {
          NoRouletteBeforeThree(Ray(rec.p, Reflect(ray.dir, rec.normal)), dep + 1, maxDepth, world, estimate,
                                path + [true], a, b, sqrt);
        } else {
          var g := Glass(ray.dir, rec, sqrt);
          NoRouletteBeforeThree(g.reflected, dep + 1, maxDepth, world, estimate, path + [true], a, b, sqrt);
          NoRouletteBeforeThree(g.refracted, dep + 1, maxDepth, world, estimate, path + [false], a, b, sqrt);
          if dep >= 3 {
            assert a(path) == b(path);
          }
        }
      }
    }
  }
}
