/** Points with integer coordinates, straight lines with real coefficients, and
    the few facts about them that the piecewise-linear fit relies on. */
module Lines {

  datatype Point = Point(x: int, y: int)

  /** The slope type of the fit: a pair of differences, compared by
      cross-multiplication and never divided. */
  datatype Slope = Slope(dx: int, dy: int) {
    predicate Less(p: Slope) { dy * p.dx < dx * p.dy }
    predicate Greater(p: Slope) { dy * p.dx > dx * p.dy }
    predicate Equal(p: Slope) { dy * p.dx == dx * p.dy }
    function Value(): real
      requires dx != 0
    {
      dy as real / dx as real
    }
  }

  function Minus(p: Point, q: Point): Slope {
    Slope(p.x - q.x, p.y - q.y)
  }

  function Cross(o: Point, a: Point, b: Point): int {
    var oa, ob := Minus(a, o), Minus(b, o);
    oa.dx * ob.dy - oa.dy * ob.dx
  }

  datatype Line = Line(slope: real, intercept: real) {
    function At(x: int): real { slope * x as real + intercept }
    predicate Above(p: Point) { At(p.x) >= p.y as real }
    predicate Below(p: Point) { At(p.x) <= p.y as real }
  }

  /** The line through two points of different abscissa. */
  function Through(p: Point, q: Point): Line
    requires p.x != q.x
  {
    var a := Minus(q, p).Value();
    Line(a, p.y as real - a * p.x as real)
  }

  // ---- arithmetic ---------------------------------------------------------

  lemma MulSign(a: real, b: real)
    ensures a >= 0.0 && b >= 0.0 ==> a * b >= 0.0
    ensures a > 0.0 && b > 0.0 ==> a * b > 0.0
    ensures a <= 0.0 && b >= 0.0 ==> a * b <= 0.0
    ensures a < 0.0 && b > 0.0 ==> a * b < 0.0
  {
  }

  lemma AtDiff(l: Line, x: int, y: int)
    ensures l.At(x) - l.At(y) == l.slope * (x - y) as real
  {
    assert l.slope * (x - y) as real == l.slope * x as real - l.slope * y as real;
  }

  lemma Divided(n: int, d: int, c: real)
    requires d != 0
    ensures n as real / d as real == c <==> n as real == c * d as real
    ensures d > 0 ==> (n as real / d as real < c <==> (n as real) < c * d as real)
    ensures d > 0 ==> (n as real / d as real > c <==> n as real > c * d as real)
    ensures d < 0 ==> (n as real / d as real < c <==> n as real > c * d as real)
    ensures d < 0 ==> (n as real / d as real > c <==> (n as real) < c * d as real)
  {
    var q := n as real / d as real;
    assert q * d as real == n as real;
    assert (q - c) * d as real == n as real - c * d as real;
    if d > 0 {
      MulSign(q - c, d as real);
    } else {
      MulSign(q - c, -d as real);
      assert (q - c) * -(d as real) == c * d as real - n as real;
    }
  }

  // ---- lines and points ---------------------------------------------------

  lemma ThroughAt(p: Point, q: Point)
    requires p.x != q.x
    ensures Through(p, q).At(p.x) == p.y as real
    ensures Through(p, q).At(q.x) == q.y as real
  {
    var l := Through(p, q);
    AtDiff(l, q.x, p.x);
    Divided(q.y - p.y, q.x - p.x, l.slope);
  }

  lemma ThroughSymmetric(p: Point, q: Point)
    requires p.x != q.x
    ensures Through(p, q) == Through(q, p)
  {
    var s, t := Minus(q, p), Minus(p, q);
    Divided(s.dy, s.dx, t.Value());
    Divided(t.dy, t.dx, t.Value());
    ThroughAt(p, q);
  }

  /** Comparing `p - o` with a slope by cross-multiplication is comparing p
      with the line of that slope through o; the sense turns with the sign of
      the divisor that was multiplied away. */
  lemma CrossMultiplied(p: Point, o: Point, t: Slope, l: Line)
    requires t.dx != 0 && l.slope == t.Value() && l.At(o.x) == o.y as real
    ensures t.dx > 0 ==> (Minus(p, o).Less(t) <==> (p.y as real) < l.At(p.x))
    ensures t.dx > 0 ==> (Minus(p, o).Greater(t) <==> p.y as real > l.At(p.x))
    ensures t.dx < 0 ==> (Minus(p, o).Less(t) <==> p.y as real > l.At(p.x))
    ensures t.dx < 0 ==> (Minus(p, o).Greater(t) <==> (p.y as real) < l.At(p.x))
  {
    var s := Minus(p, o);
    AtDiff(l, p.x, o.x);
    Divided(t.dy, t.dx, l.slope);
    // (p.y - l(p.x)) * t.dx == s.dy * t.dx - s.dx * t.dy
    var gap := p.y as real - l.At(p.x);
    assert gap == s.dy as real - l.slope * s.dx as real;
    assert gap * t.dx as real == s.dy as real * t.dx as real - s.dx as real * t.dy as real by {
      assert l.slope * s.dx as real * t.dx as real == s.dx as real * (l.slope * t.dx as real);
    }
    assert gap * t.dx as real == (s.dy * t.dx - s.dx * t.dy) as real;
    if t.dx > 0 {
      MulSign(gap, t.dx as real);
      MulSign(-gap, t.dx as real);
    } else {
      MulSign(gap, -t.dx as real);
      MulSign(-gap, -t.dx as real);
    }
  }

  lemma CrossSide(a: Point, b: Point, p: Point)
    requires a.x < p.x
    ensures Cross(a, b, p) > 0 <==> (b.y as real) < Through(a, p).At(b.x)
    ensures Cross(a, b, p) < 0 <==> b.y as real > Through(a, p).At(b.x)
  {
    ThroughAt(a, p);
    CrossMultiplied(b, a, Minus(p, a), Through(a, p));
  }

  // ---- lines against lines ------------------------------------------------

  lemma Steeper(l: Line, m: Line, u: int, w: int)
    requires l.slope >= m.slope
    ensures u <= w && l.At(u) >= m.At(u) ==> l.At(w) >= m.At(w)
    ensures w <= u && l.At(u) <= m.At(u) ==> l.At(w) <= m.At(w)
  {
    AtDiff(l, w, u);
    AtDiff(m, w, u);
    assert (l.slope - m.slope) * (w - u) as real == l.slope * (w - u) as real - m.slope * (w - u) as real;
    if u <= w {
      MulSign(l.slope - m.slope, (w - u) as real);
    } else {
      MulSign(l.slope - m.slope, (u - w) as real);
    }
  }

  lemma Ordered(l: Line, m: Line, u: int, v: int)
    requires u < v && l.At(u) <= m.At(u) && l.At(v) >= m.At(v)
    ensures l.slope >= m.slope
  {
    AtDiff(l, v, u);
    AtDiff(m, v, u);
    assert (m.slope - l.slope) * (v - u) as real == m.slope * (v - u) as real - l.slope * (v - u) as real;
    MulSign(m.slope - l.slope, (v - u) as real);
  }

  lemma Between(l: Line, m: Line, u: int, w: int, v: int)
    requires u <= w <= v && l.At(u) <= m.At(u) && l.At(v) <= m.At(v)
    ensures l.At(w) <= m.At(w)
  {
    if l.slope >= m.slope {
      Steeper(l, m, v, w);
    } else {
      Steeper(m, l, u, w);
    }
  }
}
