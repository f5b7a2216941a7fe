// Constants and scalar helpers of the renderer (utils.h), plus the two
// conversions from real to integer that C++ performs: floor() and the
// truncating static_cast<int>.

module Utils {

  const Pi: real := 3.1415926535897932385

  /** A ray-parameter bound: a finite double or +infinity. */
  datatype Bound = Finite(value: real) | Infinity {
    /** t <= bound */
    predicate Admits(t: real) {
      Infinity? || t <= value
    }
    /** t < bound */
    predicate StrictlyAdmits(t: real) {
      Infinity? || t < value
    }
  }

  /** degrees * pi / 180 */
  function DegreesToRadians(degrees: real): real {
    degrees * Pi / 180.0
  }

  lemma DegreesToRadiansLinear(a: real, b: real, k: real)
    ensures DegreesToRadians(a + b) == DegreesToRadians(a) + DegreesToRadians(b)
    ensures DegreesToRadians(k * a) == k * DegreesToRadians(a)
    ensures DegreesToRadians(0.0) == 0.0
    ensures DegreesToRadians(180.0) == Pi
  {
    assert (a + b) * Pi == a * Pi + b * Pi;
    assert (k * a) * Pi == k * (a * Pi);
  }

  /** clamp(x, min, max): min below the range, max above it, x otherwise. */
  function Clamp(x: real, min: real, max: real): (r: real)
    ensures min <= max ==> min <= r <= max
    ensures min <= x <= max ==> r == x
    ensures x < min ==> r == min
    ensures max < x && min <= x ==> r == max
  {
    if x < min then min
    else if x > max then max
    else x
  }

  lemma ClampIdempotent(x: real, min: real, max: real)
    requires min <= max
    ensures Clamp(Clamp(x, min, max), min, max) == Clamp(x, min, max)
  {
  }

  /** random_double(min, max) = min + (max - min) * s, where s is the base
      sample that random_double() draws from [0, 1). */
  function RandomDoubleIn(min: real, max: real, s: real): (r: real)
    requires 0.0 <= s < 1.0
    ensures min < max ==> min <= r < max
    ensures min == max ==> r == min
  {
    var width := max - min;
    var offset := width * s;
    assert min < max ==> 0.0 <= offset < width by {
      if min < max {
        assert width - offset == width * (1.0 - s);
        assert width * (1.0 - s) > 0.0;
      }
    }
    min + offset
  }

  /** static_cast<int>(x) for a double x: rounds toward zero. */
  function Trunc(x: real): (n: int)
    ensures 0.0 <= x ==> n as real <= x < n as real + 1.0
    ensures x < 0.0 ==> n as real - 1.0 < x <= n as real
    ensures -1.0 < x < 1.0 <==> n == 0
  {
    if x >= 0.0 then x.Floor else -((-x).Floor)
  }

  /** C++ integer division a / b for b > 0: the quotient rounded toward zero. */
  function TruncDiv(a: int, b: int): (q: int)
    requires b > 0
    ensures 0 <= a ==> q == a / b
    ensures a < 0 ==> q <= 0 && q == -((-a) / b)
  {
    if a >= 0 then a / b else -((-a) / b)
  }

  /** Truncation and floor agree on non-negative values and differ by one
      on negative non-integers. */
  lemma TruncVersusFloor(x: real)
    ensures 0.0 <= x ==> Trunc(x) == x.Floor
    ensures x < 0.0 && x != x.Floor as real ==> Trunc(x) == x.Floor + 1
    ensures x < 0.0 && x == x.Floor as real ==> Trunc(x) == x.Floor
  {
  }

  /** Concatenation regroups freely. */
  lemma ConcatAssoc<T>(a: seq<T>, b: seq<T>, c: seq<T>)
    ensures a + (b + c) == (a + b) + c
  {
  }
}
