/** Integer line drawing: one error term decides which of the two coordinates moves. */
module LineDrawing {

  datatype Pixel = Pixel(x: int, y: int)

  function Abs(n: int): int { if n < 0 then -n else n }
  function Sign(from: int, to: int): int { if from < to then 1 else -1 }
  /** `n` units from `from` towards `to`. */
  function Moved(from: int, to: int, n: int): int { from + Sign(from, to) * n }
  function Max(a: int, b: int): int { if a > b then a else b }

  /** Twice the distance, on the minor axis and scaled by the major extent, between the point `steps`
      along the major axis and `drift` along the minor one, and the ideal line. */
  function Deviation(major: int, minor: int, steps: int, drift: int): int {
    2 * (major * drift - minor * steps)
  }

  /** Pixel number `i`: `i` units along the longer axis, within half a unit of the ideal line. */
  ghost predicate Close(p: Pixel, from: Pixel, to: Pixel, i: int) {
    var dx, dy := Abs(to.x - from.x), Abs(to.y - from.y);
    var ax, ay := Sign(from.x, to.x) * (p.x - from.x), Sign(from.y, to.y) * (p.y - from.y);
    && 0 <= ax <= dx && 0 <= ay <= dy
    && (dx >= dy ==> ax == i && -dx <= Deviation(dx, dy, ax, ay) <= dx)
    && (dy >= dx ==> ay == i && -dy <= Deviation(dy, dx, ay, ax) <= dy)
  }

  ghost predicate Traces(px: seq<Pixel>, from: Pixel, to: Pixel) {
    forall i | 0 <= i < |px| :: Close(px[i], from, to, i)
  }

  function Drift(a: int, b: int, x: int, y: int): int { a * y - b * x }

  /** The invariant of the loop: `x` and `y` units of `a` and `b` are done, and the error term has
      drifted by `d`, never by more than half the longer extent. */
  ghost predicate OnCourse(a: int, b: int, x: int, y: int, d: int) {
    && 0 <= x <= a && 0 <= y <= b && d == Drift(a, b, x, y)
    && (a >= b ==> -a <= 2 * d <= a)
    && (b >= a ==> -b <= 2 * d <= b)
  }

  lemma Scaled(p: int, q: int)
    requires p >= 0 && q >= 1
    ensures p * q >= p
  {
  }

  /** The longer axis has not arrived before the end, and the shorter one does not move once it has. */
  lemma NotPast(a: int, b: int, x: int, y: int, d: int)
    requires OnCourse(a, b, x, y, d) && !(x == a && y == b)
    ensures a >= b ==> x < a && (y == b ==> 2 * d > 2 * b - a)
    ensures b >= a ==> y < b && (x == a ==> 2 * d < b - 2 * a)
  {
    if x == a {
      assert d == a * (y - b) == -(a * (b - y));
      Scaled(a, b - y);
    } else if y == b {
      assert d == b * (a - x);
      Scaled(b, a - x);
    }
  }

  /** One step of the loop stays on course; the longer axis always moves. */
  lemma StepOnCourse(a: int, b: int, x: int, y: int, d: int)
    requires OnCourse(a, b, x, y, d) && !(x == a && y == b)
    ensures var err := d + a - b;
      var mx, my := 2 * err >= -b, 2 * err <= a;
      var d' := d - (if mx then b else 0) + (if my then a else 0);
      && OnCourse(a, b, if mx then x + 1 else x, if my then y + 1 else y, d')
      && (a >= b ==> mx) && (b >= a ==> my)
  {
    NotPast(a, b, x, y, d);
    assert a * (y + 1) == a * y + a && b * (x + 1) == b * x + b;
  }

  lemma ClosePixel(from: Pixel, to: Pixel, x: int, y: int, d: int, i: int)
    requires var a, b := Abs(to.x - from.x), Abs(to.y - from.y);
      OnCourse(a, b, x, y, d) && (a >= b ==> i == x) && (b >= a ==> i == y)
    ensures Close(Pixel(Moved(from.x, to.x, x), Moved(from.y, to.y, y)), from, to, i)
  {
  }

  lemma TracesMore(px: seq<Pixel>, p: Pixel, from: Pixel, to: Pixel)
    requires Traces(px, from, to) && Close(p, from, to, |px|)
    ensures Traces(px + [p], from, to)
  {
  }

  lemma Arrived(from: int, to: int, x: int)
    requires 0 <= x <= Abs(to - from)
    ensures Moved(from, to, x) == to <==> x == Abs(to - from)
    ensures Moved(from, to, x + 1) == Moved(from, to, x) + Sign(from, to)
    ensures Moved(from, to, 0) == from
  {
  }

  /** Everything one pass of the loop needs: the pixel it draws is close, it stops exactly at the end,
      and otherwise the next pixel is on course again. */
  lemma OnePass(from: Pixel, to: Pixel, a: int, b: int, x: int, y: int, d: int, i: int)
    requires a == Abs(to.x - from.x) && b == Abs(to.y - from.y)
    requires OnCourse(a, b, x, y, d) && (a >= b ==> i == x) && (b >= a ==> i == y)
    ensures Close(Pixel(Moved(from.x, to.x, x), Moved(from.y, to.y, y)), from, to, i)
    ensures Moved(from.x, to.x, x) == to.x && Moved(from.y, to.y, y) == to.y <==> x == a && y == b
    ensures Moved(from.x, to.x, x + 1) == Moved(from.x, to.x, x) + Sign(from.x, to.x)
    ensures Moved(from.y, to.y, y + 1) == Moved(from.y, to.y, y) + Sign(from.y, to.y)
    ensures x + y <= a + b
    ensures !(x == a && y == b) ==>
      var err := d + a - b;
      var mx, my := 2 * err >= -b, 2 * err <= a;
      var d' := d - (if mx then b else 0) + (if my then a else 0);
      && OnCourse(a, b, if mx then x + 1 else x, if my then y + 1 else y, d')
      && (a >= b ==> mx) && (b >= a ==> my) && x + y < a + b
  {
    ClosePixel(from, to, x, y, d, i);
    Arrived(from.x, to.x, x);
    Arrived(from.y, to.y, y);
    if !(x == a && y == b) { StepOnCourse(a, b, x, y, d); }
  }

  /** The loop of the line primitive, with the drawn pixels as its result. */
  method DrawLine(from: Pixel, to: Pixel) returns (px: seq<Pixel>)
    ensures |px| == Max(Abs(to.x - from.x), Abs(to.y - from.y)) + 1
    ensures px[0] == from && px[|px| - 1] == to
    ensures Traces(px, from, to)
  {
    hide Close, Moved, Sign, Traces, OnCourse;
    var x0, y0 := from.x, from.y;
    var dx, sx := Abs(to.x - x0), Sign(x0, to.x);
    var dy, sy := -Abs(to.y - y0), Sign(y0, to.y);
    var err := dx + dy;
    ghost var a, b := dx, -dy;
    ghost var x, y, d := 0, 0, 0;
    px := [];
    Begun(from, to);
    while true
      invariant OnCourse(a, b, x, y, d) && err == d + a - b
      invariant x0 == Moved(from.x, to.x, x) && y0 == Moved(from.y, to.y, y)
      invariant (a >= b ==> |px| == x) && (b >= a ==> |px| == y)
      invariant Traces(px, from, to) && (px == [] ==> x0 == from.x && y0 == from.y)
      invariant px != [] ==> px[0] == from
      decreases a + b - x - y
    {
      OnePass(from, to, a, b, x, y, d, |px|);
      TracesMore(px, Pixel(x0, y0), from, to);
      px := px + [Pixel(x0, y0)];
      if x0 == to.x && y0 == to.y { break; }
      var e2 := 2 * err;
      if e2 >= dy {
        err, x0 := err + dy, x0 + sx;
        x, d := x + 1, d - b;
      }
      if e2 <= dx {
        err, y0 := err + dx, y0 + sy;
        y, d := y + 1, d + a;
      }
    }
  }

  lemma Begun(from: Pixel, to: Pixel)
    ensures OnCourse(Abs(to.x - from.x), Abs(to.y - from.y), 0, 0, 0) && Traces([], from, to)
    ensures Moved(from.x, to.x, 0) == from.x && Moved(from.y, to.y, 0) == from.y
  {
  }
}
