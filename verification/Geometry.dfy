/** Exact planar geometry used by the piecewise linear model: integer points and
    slopes as the program compares them, and real lines as the specification
    talks about them. */
module Geometry {

  datatype Point = Point(x: int, y: int)

  /** A slope kept as a pair, compared by cross multiplication. */
  datatype Slope = Slope(dx: int, dy: int) {
    predicate Less(p: Slope) { dy * p.dx < dx * p.dy }
    predicate Greater(p: Slope) { dy * p.dx > dx * p.dy }
  }

  function Minus(p: Point, q: Point): Slope {
    Slope(p.x - q.x, p.y - q.y)
  }

  function Cross(o: Point, a: Point, b: Point): int {
    var oa, ob := Minus(a, o), Minus(b, o);
    oa.dx * ob.dy - oa.dy * ob.dx
  }

  /** The line y = m * x + c. */
  datatype Line = Line(m: real, c: real) {
    ghost function At(x: int): real { m * x as real + c }
  }

  ghost function Through(a: Point, b: Point): Line
    requires a.x < b.x
  {
    var m := (b.y - a.y) as real / (b.x - a.x) as real;
    Line(m, a.y as real - m * a.x as real)
  }

  /** With `up`, the line passes on or above the point; otherwise on or below it. */
  ghost predicate Under(up: bool, p: Point, l: Line) {
    if up then p.y as real <= l.At(p.x) else p.y as real >= l.At(p.x)
  }

  ghost predicate StrictlyUnder(up: bool, p: Point, l: Line) {
    !Under(!up, p, l)
  }

  /** l is on the far side of k at x: above it with `up`, below it otherwise. */
  ghost predicate Beyond(up: bool, k: Line, l: Line, x: int) {
    if up then k.At(x) <= l.At(x) else k.At(x) >= l.At(x)
  }

  lemma ThroughHits(a: Point, b: Point)
    requires a.x < b.x
    ensures Through(a, b).At(a.x) == a.y as real
    ensures Through(a, b).At(b.x) == b.y as real
  {
    var d := (b.x - a.x) as real;
    var m := (b.y - a.y) as real / d;
    assert m * d == (b.y - a.y) as real;
    assert m * b.x as real - m * a.x as real == m * d;
  }

  /** The cross product is the signed vertical offset from the line, scaled by a positive factor. */
  lemma CrossIsOffset(a: Point, b: Point, p: Point)
    requires a.x < b.x
    ensures Cross(a, b, p) as real == (b.x - a.x) as real * (p.y as real - Through(a, b).At(p.x))
  {
    var d := (b.x - a.x) as real;
    var h := (b.y - a.y) as real;
    var m := h / d;
    var px, ax, py, ay := p.x as real, a.x as real, p.y as real, a.y as real;
    assert m * d == h;
    assert Through(a, b).At(p.x) == m * px + (ay - m * ax);
    assert Cross(a, b, p) == (b.x - a.x) * (p.y - a.y) - (b.y - a.y) * (p.x - a.x);
    ProductToReal(b.x - a.x, p.y - a.y);
    ProductToReal(b.y - a.y, p.x - a.x);
    calc {
      d * (py - (m * px + (ay - m * ax)));
      d * (py - ay) - d * (m * px - m * ax);
      { assert m * px - m * ax == m * (px - ax); }
      d * (py - ay) - d * (m * (px - ax));
      { assert d * (m * (px - ax)) == (m * d) * (px - ax); }
      d * (py - ay) - h * (px - ax);
    }
  }

  lemma ProductToReal(a: int, b: int)
    ensures (a * b) as real == a as real * b as real
  {
  }

  lemma SignOfProduct(d: real, z: real)
    requires d > 0.0
    ensures d * z > 0.0 <==> z > 0.0
    ensures d * z < 0.0 <==> z < 0.0
  {
  }

  lemma CrossSide(a: Point, b: Point, p: Point)
    requires a.x < b.x
    ensures Cross(a, b, p) <= 0 <==> Under(true, p, Through(a, b))
    ensures Cross(a, b, p) >= 0 <==> Under(false, p, Through(a, b))
  {
    CrossIsOffset(a, b, p);
    SignOfProduct((b.x - a.x) as real, p.y as real - Through(a, b).At(p.x));
  }

  /** Two lines that are ordered at x0 and at x1 are ordered in between. */
  lemma OrderedBetween(up: bool, k: Line, l: Line, x0: int, x1: int, x: int)
    requires x0 <= x <= x1
    requires Beyond(up, k, l, x0) && Beyond(up, k, l, x1)
    ensures Beyond(up, k, l, x)
  {
    var d := l.m - k.m;
    assert l.At(x) - k.At(x) == l.At(x0) - k.At(x0) + d * (x - x0) as real;
    assert l.At(x) - k.At(x) == l.At(x1) - k.At(x1) - d * (x1 - x) as real;
    if d >= 0.0 {
      assert d * (x - x0) as real >= 0.0;
      assert d * (x1 - x) as real >= 0.0;
    } else {
      assert d * (x - x0) as real <= 0.0;
      assert d * (x1 - x) as real <= 0.0;
    }
  }

  /** Two lines that change order between x0 and x1 keep their order outside. */
  lemma OrderedOutside(up: bool, k: Line, l: Line, x0: int, x1: int, x: int)
    requires x0 < x1
    requires Beyond(!up, k, l, x0) && Beyond(up, k, l, x1)
    ensures x1 <= x ==> Beyond(up, k, l, x)
    ensures x <= x0 ==> Beyond(!up, k, l, x)
    ensures if up then k.m <= l.m else k.m >= l.m
  {
    var d := l.m - k.m;
    var w := (x1 - x0) as real;
    assert l.At(x1) - k.At(x1) == l.At(x0) - k.At(x0) + d * w;
    SignOfProduct(w, d);
    assert l.At(x) - k.At(x) == l.At(x1) - k.At(x1) + d * (x - x1) as real;
    assert l.At(x) - k.At(x) == l.At(x0) - k.At(x0) - d * (x0 - x) as real;
    if x1 <= x {
      if d >= 0.0 { assert d * (x - x1) as real >= 0.0; } else { assert d * (x - x1) as real <= 0.0; }
    }
    if x <= x0 {
      if d >= 0.0 { assert d * (x0 - x) as real >= 0.0; } else { assert d * (x0 - x) as real <= 0.0; }
    }
  }
}
