// The per-hit-point statistics of progressive photon mapping, shared by
// renderer_ppm.h and renderer_sppm.h: photons credited during one
// iteration, the radius reduction of Hachisuka et al. that folds them into
// the running totals, and the radiance estimate read off the totals.

module Progressive {
  import opened Vectors
  import opened Utils

  /** The reduction parameter both renderers use. */
  const Alpha: real := 0.7

  /** r2: squared gather radius; nNew / fluxNew: photons of the current
      iteration; nAccum / fluxAccum: the running totals (in SPPM:
      n_photons, flux, accumulated_photon_count, accumulated_flux). */
  datatype Estimate = Estimate(r2: real, nNew: real, fluxNew: Color, nAccum: real, fluxAccum: Color)

  /** Radii and photon counts are never negative. */
  predicate ValidEstimate(e: Estimate) {
    0.0 <= e.r2 && 0.0 <= e.nNew && 0.0 <= e.nAccum
  }

  /** A freshly created hit point: radius^2 given, all counters zero. */
  function Initial(r2: real): (e: Estimate)
    ensures e.r2 == r2 && e.nNew == 0.0 && e.nAccum == 0.0
    ensures 0.0 <= r2 ==> ValidEstimate(e)
  {
    Estimate(r2, 0.0, Zero, 0.0, Zero)
  }

  /** n photons of the given power land on the hit point. */
  function Credit(e: Estimate, n: nat, power: Color): (e': Estimate)
    ensures ValidEstimate(e) ==> ValidEstimate(e')
    ensures e'.r2 == e.r2 && e'.nAccum == e.nAccum && e'.fluxAccum == e.fluxAccum
    ensures e'.nNew == e.nNew + n as real
  {
    e.(nNew := e.nNew + n as real, fluxNew := e.fluxNew.Plus(power.Scale(n as real)))
  }

  /** Crediting photons one batch after another is crediting them at once. */
  lemma CreditAdditive(e: Estimate, a: nat, b: nat, power: Color)
    ensures Credit(Credit(e, a, power), b, power) == Credit(e, a + b, power)
  {
    var f := e.fluxNew;
    assert (a + b) as real == a as real + b as real;
    SumScaled(f.x, power.x, a as real, b as real);
    SumScaled(f.y, power.y, a as real, b as real);
    SumScaled(f.z, power.z, a as real, b as real);
  }

  lemma SumScaled(f: real, p: real, a: real, b: real)
    ensures (f + a * p) + b * p == f + (a + b) * p
  {
  }

  /** Two batches of photons can be credited in either order. */
  lemma CreditCommutes(e: Estimate, a: nat, p: Color, b: nat, q: Color)
    ensures Credit(Credit(e, a, p), b, q) == Credit(Credit(e, b, q), a, p)
  {
    assert e.nNew + a as real + b as real == e.nNew + b as real + a as real;
  }

  /** Crediting nobody leaves the statistics as they were. */
  lemma CreditNone(e: Estimate, power: Color)
    ensures Credit(e, 0, power) == e
  {
    assert power.Scale(0.0) == Zero;
    assert e.fluxNew.Plus(Zero) == e.fluxNew;
  }

  /** (N + alpha M) / (N + M) */
  function Ratio(n: real, m: real, alpha: real): real
    requires n + m != 0.0
  {
    (n + alpha * m) / (n + m)
  }

  /** With N >= 0, M > 0 and alpha in [0, 1], the ratio lies in [alpha, 1],
      and strictly below 1 when alpha < 1. */
  lemma RatioBounds(n: real, m: real, alpha: real)
    requires 0.0 <= n && 0.0 < m && 0.0 <= alpha <= 1.0
    ensures alpha <= Ratio(n, m, alpha) <= 1.0
    ensures alpha < 1.0 ==> Ratio(n, m, alpha) < 1.0
  {
    var s := n + m;
    var q := Ratio(n, m, alpha);
    assert q * s == n + alpha * m;
    assert alpha * s <= n + alpha * m by {
      assert alpha * s == alpha * n + alpha * m;
      assert alpha * n <= n by {
        assert n - alpha * n == (1.0 - alpha) * n;
        MulNonNegative(1.0 - alpha, n);
      }
    }
    DivideBounds(q, s, alpha, n + alpha * m);
    if alpha < 1.0 {
      assert m - alpha * m == (1.0 - alpha) * m;
      PositiveProduct(1.0 - alpha, m);
    }
  }

  /** q = num / s for s > 0 is bounded below by lo when lo s <= num, above
      by 1 when num <= s, strictly when num < s. */
  lemma DivideBounds(q: real, s: real, lo: real, num: real)
    requires 0.0 < s && q * s == num && lo * s <= num
    ensures lo <= q
    ensures num <= s ==> q <= 1.0
    ensures num < s ==> q < 1.0
  {
    assert (q - lo) * s == num - lo * s;
    ProductSign(q - lo, s, num - lo * s);
    assert (1.0 - q) * s == s - num;
    ProductSign(1.0 - q, s, s - num);
  }

  /** The end-of-iteration update of a hit point that received photons:
      radius^2 and the flux totals are scaled by the ratio, the count
      total grows by alpha M and the per-iteration counters are reset. A hit
      point that received none is left alone. */
  function Reduce(e: Estimate, alpha: real): (e': Estimate)
    requires ValidEstimate(e)
    ensures e.nNew == 0.0 ==> e' == e
    ensures e.nNew > 0.0 ==> e'.nNew == 0.0 && e'.fluxNew == Zero
  {
    if e.nNew > 0.0 then ReduceBy(e, Ratio(e.nAccum, e.nNew, alpha), alpha) else e
  }

  /** The update with the ratio already computed. */
  function ReduceBy(e: Estimate, ratio: real, alpha: real): Estimate {
    Estimate(e.r2 * ratio, 0.0, Zero, e.nAccum + alpha * e.nNew, e.fluxAccum.Plus(e.fluxNew).Scale(ratio))
  }

  /** The reduction keeps the statistics valid, never grows the radius,
      shrinks it by at most the factor alpha, and makes the count total grow
      by between 0 and M; it shrinks a positive radius strictly whenever
      alpha < 1 and photons arrived. */
  lemma ReduceProgress(e: Estimate, alpha: real)
    requires ValidEstimate(e) && 0.0 <= alpha <= 1.0
    ensures ValidEstimate(Reduce(e, alpha))
    ensures alpha * e.r2 <= Reduce(e, alpha).r2 <= e.r2
    ensures e.nAccum <= Reduce(e, alpha).nAccum <= e.nAccum + e.nNew
    ensures alpha < 1.0 && e.nNew > 0.0 && e.r2 > 0.0 ==> Reduce(e, alpha).r2 < e.r2
  {
    ReduceValid(e, alpha);
    ReduceRadius(e, alpha);
    ReduceCount(e, alpha);
    if alpha < 1.0 && e.nNew > 0.0 && e.r2 > 0.0 {
      ReduceStrict(e, alpha);
    }
  }

  // The lemmas below prove one conclusion each from the fields of the
  // reduced statistics: with several conclusions, or with the whole record,
  // in one proof the solver loses itself in the nonlinear terms of the ratio.

  /** The fields of a reduction that photons arrived for. */
  lemma ReduceFields(e: Estimate, alpha: real)
    requires ValidEstimate(e) && e.nNew > 0.0
    ensures Reduce(e, alpha).r2 == e.r2 * Ratio(e.nAccum, e.nNew, alpha)
    ensures Reduce(e, alpha).nNew == 0.0
    ensures Reduce(e, alpha).nAccum == e.nAccum + alpha * e.nNew
    ensures Reduce(e, alpha).fluxAccum == e.fluxAccum.Plus(e.fluxNew).Scale(Ratio(e.nAccum, e.nNew, alpha))
  {
  }

  /** The fields of a reduction that no photon arrived for. */
  lemma IdleFields(e: Estimate, alpha: real)
    requires ValidEstimate(e) && e.nNew <= 0.0
    ensures Reduce(e, alpha).r2 == e.r2 && Reduce(e, alpha).nNew == e.nNew
    ensures Reduce(e, alpha).nAccum == e.nAccum
  {
  }

  lemma ReduceValid(e: Estimate, alpha: real)
    requires ValidEstimate(e) && 0.0 <= alpha <= 1.0
    ensures ValidEstimate(Reduce(e, alpha))
  {
    if e.nNew > 0.0 {
      ReduceFields(e, alpha);
      RatioBounds(e.nAccum, e.nNew, alpha);
      ShrinkBounds(e.r2, e.nNew, Ratio(e.nAccum, e.nNew, alpha), alpha);
    } else {
      IdleFields(e, alpha);
    }
  }

  lemma ReduceRadius(e: Estimate, alpha: real)
    requires ValidEstimate(e) && 0.0 <= alpha <= 1.0
    ensures alpha * e.r2 <= Reduce(e, alpha).r2 <= e.r2
  {
    if e.nNew > 0.0 {
      ActiveRadius(e, alpha);
    } else {
      IdleRadius(e, alpha);
    }
  }

  lemma IdleRadius(e: Estimate, alpha: real)
    requires ValidEstimate(e) && 0.0 <= alpha <= 1.0 && e.nNew <= 0.0
    ensures alpha * e.r2 <= Reduce(e, alpha).r2 <= e.r2
  {
    ShrinkBounds(e.r2, 0.0, 1.0, alpha);
  }

  lemma ActiveRadius(e: Estimate, alpha: real)
    requires ValidEstimate(e) && 0.0 <= alpha <= 1.0 && e.nNew > 0.0
    ensures alpha * e.r2 <= Reduce(e, alpha).r2 <= e.r2
  {
    ReduceFields(e, alpha);
    RatioBounds(e.nAccum, e.nNew, alpha);
    ShrinkBounds(e.r2, 0.0, Ratio(e.nAccum, e.nNew, alpha), alpha);
  }

  lemma ReduceCount(e: Estimate, alpha: real)
    requires ValidEstimate(e) && 0.0 <= alpha <= 1.0
    ensures e.nAccum <= Reduce(e, alpha).nAccum <= e.nAccum + e.nNew
  {
    if e.nNew > 0.0 {
      ActiveCount(e, alpha);
    } else {
      IdleFields(e, alpha);
    }
  }

  lemma ActiveCount(e: Estimate, alpha: real)
    requires ValidEstimate(e) && 0.0 <= alpha <= 1.0 && e.nNew > 0.0
    ensures e.nAccum <= Reduce(e, alpha).nAccum <= e.nAccum + e.nNew
  {
    ReduceFields(e, alpha);
    ShrinkBounds(0.0, e.nNew, 1.0, alpha);
  }

  lemma ReduceStrict(e: Estimate, alpha: real)
    requires ValidEstimate(e) && 0.0 <= alpha < 1.0 && e.nNew > 0.0 && e.r2 > 0.0
    ensures Reduce(e, alpha).r2 < e.r2
  {
    ReduceFields(e, alpha);
    RatioBounds(e.nAccum, e.nNew, alpha);
    StrictShrink(e.r2, Ratio(e.nAccum, e.nNew, alpha), Reduce(e, alpha).r2);
  }

  /** The arithmetic of the reduction: with alpha <= ratio <= 1, r2 ratio
      lies in [alpha r2, r2] and alpha M in [0, M]. */
  lemma ShrinkBounds(r2: real, m: real, ratio: real, alpha: real)
    requires 0.0 <= r2 && 0.0 <= m && 0.0 <= alpha <= ratio <= 1.0
    ensures alpha * r2 <= r2 * ratio <= r2 && 0.0 <= alpha * r2 <= r2
    ensures 0.0 <= alpha * m <= m
  {
    ScaleBetween(r2, ratio, alpha);
    MulNonNegative(alpha, r2);
    MulNonNegative(alpha, m);
    assert m - alpha * m == (1.0 - alpha) * m;
    MulNonNegative(1.0 - alpha, m);
  }

  /** A ratio below 1 shrinks a positive radius strictly. */
  lemma StrictShrink(r2: real, ratio: real, r2': real)
    requires 0.0 < r2 && ratio < 1.0 && r2' == r2 * ratio
    ensures r2' < r2
  {
    assert r2 - r2 * ratio == r2 * (1.0 - ratio);
    PositiveProduct(r2, 1.0 - ratio);
  }

  lemma ScaleBetween(r: real, ratio: real, alpha: real)
    requires 0.0 <= r && alpha <= ratio <= 1.0
    ensures alpha * r <= r * ratio <= r
  {
    assert r * ratio - alpha * r == (ratio - alpha) * r;
    MulNonNegative(ratio - alpha, r);
    assert r - r * ratio == (1.0 - ratio) * r;
    MulNonNegative(1.0 - ratio, r);
  }

  /** flux / (pi r^2 photons): the radiance estimate of the totals. */
  function Radiance(e: Estimate, photons: real): (c: Color)
    requires e.r2 > 0.0 && photons > 0.0
  {
    e.fluxAccum.Div(Pi * e.r2 * photons)
  }

  /** Scaling flux and radius^2 by the same ratio keeps the density: after
      the reduction the estimate is that of all the flux gathered so far
      over the previous radius. */
  lemma ReduceKeepsDensity(e: Estimate, alpha: real, photons: real)
    requires ValidEstimate(e) && 0.0 < alpha <= 1.0
    requires e.nNew > 0.0 && e.r2 > 0.0 && photons > 0.0
    ensures Reduce(e, alpha).r2 > 0.0
    ensures Radiance(Reduce(e, alpha), photons) ==
            e.fluxAccum.Plus(e.fluxNew).Div(Pi * e.r2 * photons)
  {
    ReducedRadiance(e, alpha, photons);
    SameDensity(e.fluxAccum.Plus(e.fluxNew), e.r2, Ratio(e.nAccum, e.nNew, alpha), photons);
  }

  /** The radiance of the reduced totals, their fields written out. */
  lemma ReducedRadiance(e: Estimate, alpha: real, photons: real)
    requires ValidEstimate(e) && 0.0 < alpha <= 1.0
    requires e.nNew > 0.0 && e.r2 > 0.0 && photons > 0.0
    ensures Ratio(e.nAccum, e.nNew, alpha) > 0.0
    ensures Reduce(e, alpha).r2 > 0.0
    ensures Radiance(Reduce(e, alpha), photons) ==
            e.fluxAccum.Plus(e.fluxNew).Scale(Ratio(e.nAccum, e.nNew, alpha))
              .Div(Pi * (e.r2 * Ratio(e.nAccum, e.nNew, alpha)) * photons)
  {
    var ratio := Ratio(e.nAccum, e.nNew, alpha);
    RatioBounds(e.nAccum, e.nNew, alpha);
    ReduceFields(e, alpha);
    PositiveProduct(e.r2, ratio);
    var r := Reduce(e, alpha);
    RadianceOfFields(r, r.fluxAccum, r.r2, photons);
    DivCongruent(r.fluxAccum, e.fluxAccum.Plus(e.fluxNew).Scale(ratio), Pi * r.r2 * photons,
                 Pi * (e.r2 * ratio) * photons);
  }

  lemma DivCongruent(v: Color, w: Color, a: real, b: real)
    requires v == w && a == b && a != 0.0
    ensures v.Div(a) == w.Div(b)
  {
  }

  lemma RadianceOfFields(e: Estimate, flux: Color, r2: real, photons: real)
    requires e.fluxAccum == flux && e.r2 == r2 && r2 > 0.0 && photons > 0.0
    ensures Radiance(e, photons) == flux.Div(Pi * r2 * photons)
  {
  }

  /** Flux and radius^2 scaled by one positive ratio give the same radiance. */
  lemma SameDensity(total: Color, r2: real, ratio: real, photons: real)
    requires r2 > 0.0 && ratio > 0.0 && photons > 0.0
    ensures Pi * (r2 * ratio) * photons > 0.0
    ensures total.Scale(ratio).Div(Pi * (r2 * ratio) * photons) == total.Div(Pi * r2 * photons)
  {
    PositiveProduct(Pi, r2);
    PositiveProduct(Pi * r2, photons);
    Regroup(Pi, r2, ratio, photons);
    PositiveProduct(ratio, Pi * r2 * photons);
    ScaleDiv(total, ratio, Pi * r2 * photons, Pi * (r2 * ratio) * photons);
  }

  /** pi (r2 ratio) photons == ratio (pi r2 photons) */
  lemma Regroup(pi: real, r2: real, ratio: real, photons: real)
    ensures pi * (r2 * ratio) * photons == ratio * (pi * r2 * photons)
  {
  }

  /** Scaling a colour and its divisor by the same positive ratio cancels. */
  lemma ScaleDiv(v: Color, ratio: real, k: real, k2: real)
    requires ratio > 0.0 && k > 0.0 && k2 == ratio * k
    ensures v.Scale(ratio).Div(k2) == v.Div(k)
  {
    CancelRatio(v.x, ratio, k);
    CancelRatio(v.y, ratio, k);
    CancelRatio(v.z, ratio, k);
  }

  lemma CancelRatio(f: real, ratio: real, k: real)
    requires ratio > 0.0 && k > 0.0
    ensures (ratio * f) / (ratio * k) == f / k
  {
    PositiveProduct(ratio, k);
    assert (f / k) * (ratio * k) == ratio * f;
  }
}

// The Fresnel split at glass (index 1.5) that trace_eye_path,
// trace_photon_ppm and eye_trace_estimate share.
module Fresnel {
  import opened Materials

  const GlassIndex: real := 1.5

  /** Re: Schlick's reflectance at glass. */
  function GlassReflectance(cosTheta: real): (re: real)
    ensures 0.0 <= cosTheta <= 1.0 ==> 0.04 <= re <= 1.0
    ensures cosTheta == 1.0 ==> re == 0.04
  {
    GlassR0();
    if 0.0 <= cosTheta <= 1.0 then
      ReflectanceRange(cosTheta, GlassIndex);
      Reflectance(cosTheta, GlassIndex)
    else
      Reflectance(cosTheta, GlassIndex)
  }

  lemma GlassR0()
    ensures SchlickR0(GlassIndex) == 0.04
  {
    assert (1.0 - GlassIndex) / (1.0 + GlassIndex) == -0.2;
  }

  /** P = 0.25 + 0.5 Re: the probability of following the reflection. */
  function ReflectProbability(re: real): (p: real)
    ensures 0.0 <= re <= 1.0 ==> 0.25 <= p <= 0.75
  {
    0.25 + 0.5 * re
  }

  /** The branch the roulette takes and the weight it multiplies by. */
  datatype Branch = Branch(reflect: bool, weight: real)

  /** random < P reflects with weight Re / P; otherwise the path refracts
      with weight Tr / (1 - P), Tr = 1 - Re. */
  function ChooseBranch(re: real, u: real): (b: Branch)
    requires 0.0 <= re <= 1.0
    ensures b.reflect <==> u < ReflectProbability(re)
    ensures 0.0 <= b.weight
  {
    var p := ReflectProbability(re);
    if u < p then Branch(true, re / p) else Branch(false, (1.0 - re) / (1.0 - p))
  }

  /** The roulette is unbiased: each branch's weight times its probability
      is the share (Re or Tr) the deterministic split gives it, so the two
      expected weights sum to 1. */
  lemma ChooseBranchUnbiased(re: real, u: real)
    requires 0.0 <= re <= 1.0
    ensures var p := ReflectProbability(re);
            (u < p ==> p * ChooseBranch(re, u).weight == re) &&
            (u >= p ==> (1.0 - p) * ChooseBranch(re, u).weight == 1.0 - re)
  {
  }
}
