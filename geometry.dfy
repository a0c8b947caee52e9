/**
 * Bounding boxes as the video loop sees them: the detector hands out integer
 * pixel rectangles `[x, y, w, h]` (top-left corner, width, height), the
 * tracker reports floating-point rectangles that the loop truncates with
 * Python's `int(...)`.
 */
module Geometry {

  /** An integer pixel rectangle `[x, y, w, h]`; `(x, y)` is the top-left corner. */
  datatype Box = Box(x: int, y: int, w: int, h: int)

  /** The rectangle a tracker's `update` reports, before truncation. */
  datatype TrackerBox = TrackerBox(x: real, y: real, w: real, h: real)

  /** Python's `int(v)` on a float: truncation toward zero. */
  function Trunc(v: real): (t: int)
    ensures v >= 0.0 ==> t >= 0 && t as real <= v < t as real + 1.0
    ensures v < 0.0 ==> t <= 0 && t as real - 1.0 < v <= t as real
  {
    if v >= 0.0 then v.Floor else -((-v).Floor)
  }

  /** `int(x + w/2)` for integers `x` and `w`, in integer arithmetic: half of `2x + w`, rounded toward zero. */
  function HalfwayTrunc(x: int, w: int): int {
    var twice := 2 * x + w;
    if twice >= 0 then twice / 2 else -((-twice) / 2)
  }

  /** The integer computation is Python's `int` of the float midpoint `x + w/2`. */
  lemma HalfwayTruncIsTrunc(x: int, w: int)
    ensures HalfwayTrunc(x, w) == Trunc(x as real + w as real / 2.0)
  {
    var twice := 2 * x + w;
    var v := x as real + w as real / 2.0;
    assert v == twice as real / 2.0;
    var t := Trunc(v);
    if twice >= 0 {
      var q := twice / 2;
      assert twice == 2 * q || twice == 2 * q + 1;
      assert q as real <= v < q as real + 1.0;
      assert t == q;
    } else {
      var q := (-twice) / 2;
      assert -twice == 2 * q || -twice == 2 * q + 1;
      assert -(q as real) - 1.0 < v <= -(q as real);
      assert t == -q;
    }
  }

  /** `x, y, w, h = [int(v) for v in box]` */
  function Truncate(b: TrackerBox): Box
  {
    Box(Trunc(b.x), Trunc(b.y), Trunc(b.w), Trunc(b.h))
  }

  /** Truncation leaves whole numbers alone. */
  lemma TruncExact(n: int)
    ensures Trunc(n as real) == n
  {
  }
}
