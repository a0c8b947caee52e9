/**
 * `estimateSpeed`: the speed of a vehicle from its top-left corner in two
 * consecutive frames, with the calibration 8.8 pixels per metre and
 * 18 frames per second, converted from m/s to km/h.
 *
 * The source takes `math.sqrt` of the squared pixel displacement. Dafny's
 * reals have no square root, so a computed speed is kept in exact form, as
 * its squared pixel displacement `d2`; the speed it stands for is a
 * non-negative real `v` with `v * v == d2 * KmhPerPixel * KmhPerPixel`
 * (predicate `Denotes`), and there is at most one such real. Its integer part, which the overlay prints, is
 * computed exactly.
 */
module SpeedEstimation {
  import opened Geometry

  const PixelsPerMeter: real := 8.8
  const FramesPerSecond: real := 18.0
  /** m/s to km/h */
  const MsToKmh: real := 3.6
  /** km/h per pixel of displacement in one frame: `1 / ppm * fps * 3.6`, which is 81/11 */
  const KmhPerPixel: real := FramesPerSecond * MsToKmh / PixelsPerMeter

  lemma KmhPerPixelValue()
    ensures KmhPerPixel == 81.0 / 11.0
  {
  }

  /** A speed in exact form: the squared pixel displacement it was computed from. */
  datatype Speed = Speed(squaredPixels: nat) {

    /** `v` is the speed in km/h this value stands for. */
    ghost predicate Denotes(v: real) {
      v >= 0.0 && v * v == squaredPixels as real * KmhPerPixel * KmhPerPixel
    }

    /** `int(speed)`, as printed in the overlay label; `TruncatedBracket` says which integer it is. */
    function Truncated(): nat {
      FloorRootSearch(6561 * squaredPixels, 0, 6561 * squaredPixels + 1)
    }
  }

  lemma SquareAtLeast(k: nat)
    requires k >= 1
    ensures k * k >= k
  {
  }

  /** Bisection of `[lo, hi)` for the `n` with `121 n^2 <= t < 121 (n+1)^2`. */
  function FloorRootSearch(t: nat, lo: nat, hi: nat): nat
    decreases hi - lo
  {
    if hi <= lo + 1 then lo
    else
      var mid := (lo + hi) / 2;
      if 121 * mid * mid <= t then FloorRootSearch(t, mid, hi)
      else FloorRootSearch(t, lo, mid)
  }

  /** Started on a bracket, the bisection stays inside it and lands on the integer root. */
  lemma {:induction false} FloorRootSearchBracket(t: nat, lo: nat, hi: nat)
    requires lo < hi
    requires 121 * lo * lo <= t < 121 * hi * hi
    ensures lo <= FloorRootSearch(t, lo, hi) < hi
    ensures 121 * FloorRootSearch(t, lo, hi) * FloorRootSearch(t, lo, hi) <= t
    ensures t < 121 * (FloorRootSearch(t, lo, hi) + 1) * (FloorRootSearch(t, lo, hi) + 1)
    decreases hi - lo
  {
    if lo + 1 < hi {
      var mid := (lo + hi) / 2;
      if 121 * mid * mid <= t {
        FloorRootSearchBracket(t, mid, hi);
      } else {
        FloorRootSearchBracket(t, lo, mid);
      }
    }
  }

  /** `int(speed)` is `n` with `121 n^2 <= 6561 d^2 < 121 (n+1)^2`, `d^2` the squared displacement. */
  lemma TruncatedBracket(s: Speed)
    ensures 121 * s.Truncated() * s.Truncated() <= 6561 * s.squaredPixels
    ensures 6561 * s.squaredPixels < 121 * (s.Truncated() + 1) * (s.Truncated() + 1)
  {
    var t := 6561 * s.squaredPixels;
    assert t < 121 * (t + 1) * (t + 1) by { SquareAtLeast(t + 1); }
    FloorRootSearchBracket(t, 0, t + 1);
  }

  /** `estimateSpeed(location1, location2)`: only the top-left corners are read. */
  function EstimateSpeed(location1: Box, location2: Box): Speed
  {
    var dx := location2.x - location1.x;
    var dy := location2.y - location1.y;
    Speed(dx * dx + dy * dy)
  }

  /**
   * The estimate stands for exactly the reals `v >= 0` whose distance back
   * in pixels, `v / KmhPerPixel`, is the Euclidean distance of the corners:
   * `v == sqrt(dx^2 + dy^2) / 8.8 * 18 * 3.6`.
   */
  lemma EstimateSpeedDenotes(location1: Box, location2: Box, v: real)
    ensures EstimateSpeed(location1, location2).Denotes(v) <==>
      v >= 0.0 &&
      (v / KmhPerPixel) * (v / KmhPerPixel) ==
        ((location2.x - location1.x) * (location2.x - location1.x) +
         (location2.y - location1.y) * (location2.y - location1.y)) as real
  {
    KmhPerPixelValue();
  }

  lemma SquareStrictlyMonotone(a: real, b: real)
    requires 0.0 <= a < b
    ensures a * a < b * b
  {
    var d := b - a;
    assert b * b == a * a + 2.0 * a * d + d * d;
    assert d * d > 0.0;
    assert a * d >= 0.0;
  }

  /** Among non-negative reals, comparing squares compares the numbers. */
  lemma SquareCompare(a: real, b: real)
    requires 0.0 <= a && 0.0 <= b
    ensures a * a <= b * b ==> a <= b
    ensures a * a < b * b ==> a < b
  {
    if b < a {
      SquareStrictlyMonotone(b, a);
    }
  }

  /** A speed stands for at most one real. */
  lemma DenotesUnique(s: Speed, u: real, v: real)
    requires s.Denotes(u) && s.Denotes(v)
    ensures u == v
  {
    if u < v {
      SquareStrictlyMonotone(u, v);
    } else if v < u {
      SquareStrictlyMonotone(v, u);
    }
  }

  /** 0 is the real a speed stands for exactly when nothing moved. */
  lemma DenotesZero(s: Speed)
    ensures s.Denotes(0.0) <==> s.squaredPixels == 0
  {
    KmhPerPixelValue();
  }

  lemma ScaledSquareAsReal(k: nat)
    ensures (121 * k * k) as real == 121.0 * ((k as real) * (k as real))
  {
  }

  /** `k` is the integer part of the non-negative root of `t / 121`. */
  lemma FloorOfRoot(k: nat, t: nat, v: real)
    requires v >= 0.0 && v * v == t as real / 121.0
    requires 121 * k * k <= t < 121 * (k + 1) * (k + 1)
    ensures k as real <= v < k as real + 1.0
  {
    var n := k as real;
    ScaledSquareAsReal(k);
    ScaledSquareAsReal(k + 1);
    assert n * n <= v * v;
    assert v * v < (n + 1.0) * (n + 1.0);
    SquareCompare(n, v);
    SquareCompare(v, n + 1.0);
  }

  /** `int(speed)` is the integer part of the real the speed stands for. */
  lemma TruncatedIsFloor(s: Speed, v: real)
    requires s.Denotes(v)
    ensures s.Truncated() as real <= v < s.Truncated() as real + 1.0
  {
    KmhPerPixelValue();
    var t := 6561 * s.squaredPixels;
    assert v * v == t as real / 121.0;
    TruncatedBracket(s);
    FloorOfRoot(s.Truncated(), t, v);
  }

  lemma NatSquareMonotone(a: nat, b: nat)
    requires a <= b
    ensures a * a <= b * b
  {
    assert a * a <= a * b;
  }

  lemma ScaledSquareMonotone(a: nat, b: nat)
    requires a <= b
    ensures 121 * a * a <= 121 * b * b
  {
    NatSquareMonotone(a, b);
    assert 121 * a * a == 121 * (a * a);
    assert 121 * b * b == 121 * (b * b);
  }

  /** `Truncated` is the only integer between the bounds its contract states. */
  lemma TruncatedUnique(s: Speed, k: nat)
    requires 121 * k * k <= 6561 * s.squaredPixels < 121 * (k + 1) * (k + 1)
    ensures s.Truncated() == k
  {
    var n := s.Truncated();
    TruncatedBracket(s);
    if n < k {
      ScaledSquareMonotone(n + 1, k);
    } else if k < n {
      ScaledSquareMonotone(k + 1, n);
    }
  }

  /** Any whole number `k` with `k <= v < k + 1`, for the real `v` the speed stands for, is `int(speed)`. */
  lemma TruncatedOfFloor(s: Speed, v: real, k: int)
    requires s.Denotes(v) && k as real <= v < k as real + 1.0
    ensures s.Truncated() == k
  {
    TruncatedIsFloor(s, v);
  }

  /** The distance is symmetric in the two boxes. */
  lemma EstimateSpeedSymmetric(location1: Box, location2: Box)
    ensures EstimateSpeed(location1, location2) == EstimateSpeed(location2, location1)
  {
    var dx := location2.x - location1.x;
    var dy := location2.y - location1.y;
    assert (-dx) * (-dx) == dx * dx;
    assert (-dy) * (-dy) == dy * dy;
  }

  /** Width and height play no part: only the top-left corners are read. */
  lemma EstimateSpeedReadsCorners(location1: Box, location2: Box, other1: Box, other2: Box)
    requires location1.x == other1.x && location1.y == other1.y
    requires location2.x == other2.x && location2.y == other2.y
    ensures EstimateSpeed(location1, location2) == EstimateSpeed(other1, other2)
  {
  }

  /** The estimate is zero exactly when the top-left corners coincide. */
  lemma EstimateSpeedZero(location1: Box, location2: Box)
    ensures EstimateSpeed(location1, location2).Denotes(0.0) <==>
      location1.x == location2.x && location1.y == location2.y
  {
    var dx := location2.x - location1.x;
    var dy := location2.y - location1.y;
    DenotesZero(EstimateSpeed(location1, location2));
    if dx != 0 {
      assert dx * dx > 0;
    }
    if dy != 0 {
      assert dy * dy > 0;
    }
  }

  /**
   * A box whose corner moves by (3, 4) has moved 5 pixels: 5 / 8.8 m in
   * 1/18 s, i.e. 405/11 km/h, printed as 36.
   */
  lemma EstimateSpeedThreeFour(location1: Box, location2: Box)
    requires location2.x == location1.x + 3 && location2.y == location1.y + 4
    ensures EstimateSpeed(location1, location2).Denotes(5.0 / PixelsPerMeter * FramesPerSecond * MsToKmh)
    ensures EstimateSpeed(location1, location2).Truncated() == 36
  {
    var s := EstimateSpeed(location1, location2);
    assert s.squaredPixels == 25;
    KmhPerPixelValue();
    assert 5.0 / PixelsPerMeter * FramesPerSecond * MsToKmh == 405.0 / 11.0;
    TruncatedIsFloor(s, 405.0 / 11.0);
  }
}
