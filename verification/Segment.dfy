/** The line kept for a finished segment: the average of the two extreme
    slopes, through the point where the extreme lines meet. */
module Segment {
  import opened Lines
  import opened Stabbing
  import opened Fit

  /** How far along the first line, from p0, the second line is met. */
  function Parameter(slope1: Slope, slope2: Slope, p0p1: Slope): real
    requires !slope1.Equal(slope2)
  {
    var a := slope1.dx * slope2.dy - slope1.dy * slope2.dx;
    (p0p1.dx * slope2.dy - p0p1.dy * slope2.dx) as real / a as real
  }

  datatype CanonicalSegment = CanonicalSegment(rectangle: Rectangle, first: int) {
    predicate OnePoint() {
      rectangle.p0 == rectangle.p2 && rectangle.p1 == rectangle.p3
    }

    function GetIntersection(): (real, real)
      requires OnePoint() || rectangle.Proper()
    {
      var Rectangle(p0, p1, p2, p3) := rectangle;
      var slope1, slope2 := Minus(p2, p0), Minus(p3, p1);
      if OnePoint() || slope1.Equal(slope2) then
        (p0.x as real, p0.y as real)
      else
        var b := Parameter(slope1, slope2, Minus(p1, p0));
        (p0.x as real + b * slope1.dx as real, p0.y as real + b * slope1.dy as real)
    }

    function GetSlopeRange(): (real, real)
      requires OnePoint() || rectangle.Proper()
    {
      if OnePoint() then (0.0, 1.0)
      else (Minus(rectangle.p2, rectangle.p0).Value(), Minus(rectangle.p3, rectangle.p1).Value())
    }

    function GetSlopeIntercept(): (real, real)
      requires OnePoint() || rectangle.Proper()
    {
      if OnePoint() then
        (0.0, ((rectangle.p0.y + rectangle.p1.y) / 2) as real)
      else
        var (x, y) := GetIntersection();
        var (least, greatest) := GetSlopeRange();
        var slope := (least + greatest) / 2.0;
        (slope, y - x * slope)
    }

    function FinalLine(): Line
      requires OnePoint() || rectangle.Proper()
    {
      var (slope, intercept) := GetSlopeIntercept();
      Line(slope, intercept)
    }

    /** The segment was finished on the intervals s. */
    ghost predicate Of(s: seq<Interval>) {
      && |s| > 0 && Row(s) && first == s[0].x
      && (|s| == 1 ==> rectangle == Rectangle(s[0].Hi(), s[0].Lo(), s[0].Hi(), s[0].Lo()))
      && (|s| >= 2 ==> rectangle.ExtremeFor(s))
    }
  }

  function AtReal(l: Line, x: real): real { l.slope * x + l.intercept }

  /** The intersection lies on both extreme lines. */
  lemma IntersectionOnBoth(g: CanonicalSegment)
    requires g.rectangle.Proper()
    ensures var (x, y) := g.GetIntersection();
            AtReal(g.rectangle.Min(), x) == y
    ensures var (x, y) := g.GetIntersection();
            g.rectangle.Min().slope != g.rectangle.Max().slope ==> AtReal(g.rectangle.Max(), x) == y
  {
    hide AtReal, Line.At, Slope.Equal, Parameter, Slope.Value;
    var Rectangle(p0, p1, p2, p3) := g.rectangle;
    var min, max := g.rectangle.Min(), g.rectangle.Max();
    var s1, s2, d := Minus(p2, p0), Minus(p3, p1), Minus(p1, p0);
    ThroughAt(p0, p2);
    ThroughAt(p1, p3);
    SlopesCompared(s1, s2);
    Along(min, p0, 0.0);
    if !s1.Equal(s2) {
      OnSecond(s1, s2, d);
      var t := Parameter(s1, s2, d) * s1.dx as real;
      Along(min, p0, t);
      Along(max, p1, t - d.dx as real);
      assert p1.x as real + (t - d.dx as real) == p0.x as real + t;
      assert p0.y as real + d.dy as real == p1.y as real;
      assert !g.OnePoint();
      var (x, y) := g.GetIntersection();
      assert x == p0.x as real + t;
      assert y == p0.y as real + Parameter(s1, s2, d) * s1.dy as real;
    }
  }

  lemma Along(l: Line, p: Point, t: real)
    requires l.At(p.x) == p.y as real
    ensures AtReal(l, p.x as real + t) == p.y as real + l.slope * t
  {
  }

  lemma SlopesCompared(s: Slope, t: Slope)
    requires s.dx > 0 && t.dx > 0
    ensures s.Equal(t) <==> s.Value() == t.Value()
  {
    var l := Line(t.Value(), 0.0);
    CrossMultiplied(Point(s.dx, s.dy), Point(0, 0), t, l);
    Divided(s.dy, s.dx, t.Value());
  }

  /** Cramer's rule: the parameter leads from p0 along the first line to a
      point on the second. */
  lemma OnSecond(s1: Slope, s2: Slope, d: Slope)
    requires s1.dx > 0 && s2.dx > 0 && !s1.Equal(s2)
    ensures var b := Parameter(s1, s2, d);
            && s1.Value() * (b * s1.dx as real) == b * s1.dy as real
            && d.dy as real + s2.Value() * (b * s1.dx as real - d.dx as real) == b * s1.dy as real
  {
    var b, m1, m2 := Parameter(s1, s2, d), s1.Value(), s2.Value();
    var X1, X2, Y1, DX, DY := s1.dx as real, s2.dx as real, s1.dy as real, d.dx as real, d.dy as real;
    var n, a := d.dx * s2.dy - d.dy * s2.dx, s1.dx * s2.dy - s1.dy * s2.dx;
    Divided(s1.dy, s1.dx, m1);
    Divided(s2.dy, s2.dx, m2);
    Divided(n, a, b);
    assert m1 * (b * X1) == b * (m1 * X1);
    assert n as real == DX * (m2 * X2) - DY * X2;
    assert a as real == X1 * (m2 * X2) - Y1 * X2;
    var lhs := DY + m2 * (b * X1 - DX) - b * Y1;
    Expand(DX, DY, X1, X2, Y1, m2, b);
    assert lhs * X2 == 0.0;
  }

  lemma Expand(dx: real, dy: real, x1: real, x2: real, y1: real, m: real, b: real)
    ensures (dy + m * (b * x1 - dx) - b * y1) * x2 == b * (x1 * (m * x2) - y1 * x2) - (dx * (m * x2) - dy * x2)
  {
    assert m * (b * x1 - dx) == m * b * x1 - m * dx;
    assert b * (x1 * (m * x2) - y1 * x2) == b * x1 * (m * x2) - b * y1 * x2;
  }

  /** The kept line is the average of the extreme lines at every key. */
  lemma FinalIsAverage(g: CanonicalSegment, x: int)
    requires g.rectangle.Proper()
    ensures g.FinalLine().At(x) == (g.rectangle.Min().At(x) + g.rectangle.Max().At(x)) / 2.0
            || (g.rectangle.Min().slope == g.rectangle.Max().slope && g.FinalLine() == g.rectangle.Min())
  {
    hide Parameter, Slope.Equal, Slope.Value, CanonicalSegment.GetIntersection;
    var min, max, l := g.rectangle.Min(), g.rectangle.Max(), g.FinalLine();
    var (u, v) := g.GetIntersection();
    IntersectionOnBoth(g);
    assert l.slope == (min.slope + max.slope) / 2.0 && l.intercept == v - u * l.slope;
    if min.slope != max.slope {
      assert u * l.slope == (u * min.slope + u * max.slope) / 2.0;
    }
  }

  lemma OfProper(g: CanonicalSegment, s: seq<Interval>)
    requires g.Of(s)
    ensures g.OnePoint() <==> |s| == 1
    ensures |s| >= 2 ==> g.rectangle.Proper()
  {
  }

  /** The kept line passes within epsilon of every point of its segment. */
  lemma FinalStabs(g: CanonicalSegment, s: seq<Interval>)
    requires g.Of(s)
    ensures (g.OnePoint() || g.rectangle.Proper()) && Stabs(g.FinalLine(), s)
  {
    OfProper(g, s);
    var l := g.FinalLine();
    forall i | 0 <= i < |s|
      ensures l.Above(s[i].Lo()) && l.Below(s[i].Hi())
    {
      if |s| >= 2 {
        var min, max := g.rectangle.Min(), g.rectangle.Max();
        FinalIsAverage(g, s[i].x);
        assert min.Above(s[i].Lo()) && min.Below(s[i].Hi());
        assert max.Above(s[i].Lo()) && max.Below(s[i].Hi());
      }
    }
  }

  /** When both ends of the intervals rise with the keys, so does the kept
      line: a falling least line can be mirrored into a stabbing line that
      rises as fast, and the greatest line rises at least as fast as that. */
  lemma FinalRises(g: CanonicalSegment, s: seq<Interval>)
    requires g.Of(s)
    requires forall i, j :: 0 <= i < j < |s| ==> s[i].lo <= s[j].lo && s[i].hi <= s[j].hi
    ensures (g.OnePoint() || g.rectangle.Proper()) && g.FinalLine().slope >= 0.0
  {
    OfProper(g, s);
    if |s| >= 2 {
      var min, max := g.rectangle.Min(), g.rectangle.Max();
      if min.slope < 0.0 {
        Mirrored(s, min);
        var k := (s[|s| - 1].lo + s[0].hi) as real;
        var m := Line(-min.slope, k - min.intercept);
        var r := g.rectangle;
        ExtremeSlopes(s, r.p0, r.p1, r.p2, r.p3, m);
      } else {
        var r := g.rectangle;
        ExtremeSlopes(s, r.p0, r.p1, r.p2, r.p3, min);
      }
    }
  }

  lemma MirroredAt(l: Line, k: real, x: int)
    ensures Line(-l.slope, k - l.intercept).At(x) == k - l.At(x)
  {
    NegatedProduct(l.slope, x as real);
  }

  lemma NegatedProduct(a: real, b: real)
    ensures (-a) * b == -(a * b)
  {
  }

  lemma Mirrored(s: seq<Interval>, l: Line)
    requires Row(s) && |s| > 0 && Stabs(l, s) && l.slope <= 0.0
    requires forall i, j :: 0 <= i < j < |s| ==> s[i].lo <= s[j].lo && s[i].hi <= s[j].hi
    ensures Stabs(Line(-l.slope, (s[|s| - 1].lo + s[0].hi) as real - l.intercept), s)
  {
    var n := |s| - 1;
    var m := Line(-l.slope, (s[n].lo + s[0].hi) as real - l.intercept);
    forall i | 0 <= i < |s|
      ensures m.Above(s[i].Lo()) && m.Below(s[i].Hi())
    {
      MirroredAt(l, (s[n].lo + s[0].hi) as real, s[i].x);
      assert l.Above(s[n].Lo()) && l.Below(s[0].Hi());
      AtDiff(l, s[i].x, s[0].x);
      AtDiff(l, s[n].x, s[i].x);
      MulSign(l.slope, (s[i].x - s[0].x) as real);
      MulSign(l.slope, (s[n].x - s[i].x) as real);
    }
  }
}
