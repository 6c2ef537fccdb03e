/** Lines that stab a row of vertical intervals, and what happens to the two
    extreme ones when an interval is added on the right. */
module Stabbing {
  import opened Lines
  import opened Hull

  datatype Interval = Interval(x: int, lo: int, hi: int) {
    function Lo(): Point { Point(x, lo) }
    function Hi(): Point { Point(x, hi) }
  }

  /** Intervals as `add_point` meets them: left to right and non-empty. */
  ghost predicate Row(s: seq<Interval>) {
    && (forall i, j :: 0 <= i < j < |s| ==> s[i].x < s[j].x)
    && (forall i :: 0 <= i < |s| ==> s[i].lo <= s[i].hi)
  }

  ghost predicate OverLows(l: Line, s: seq<Interval>) {
    forall i :: 0 <= i < |s| ==> l.Above(s[i].Lo())
  }

  ghost predicate UnderHighs(l: Line, s: seq<Interval>) {
    forall i :: 0 <= i < |s| ==> l.Below(s[i].Hi())
  }

  ghost predicate Stabs(l: Line, s: seq<Interval>) {
    OverLows(l, s) && UnderHighs(l, s)
  }

  ghost predicate Stabbable(s: seq<Interval>) {
    exists l: Line :: Stabs(l, s)
  }

  ghost predicate IsLow(s: seq<Interval>, p: Point) {
    exists i :: 0 <= i < |s| && p == s[i].Lo()
  }

  ghost predicate IsHigh(s: seq<Interval>, p: Point) {
    exists i :: 0 <= i < |s| && p == s[i].Hi()
  }

  /** The chain stands for all lower ends, as far as lines with a slope in
      [s1, s2] can tell. */
  ghost predicate CoversLows(s: seq<Interval>, low: seq<Point>, s1: real, s2: real) {
    forall l: Line :: s1 <= l.slope <= s2 && AboveAll(l, low) ==> OverLows(l, s)
  }

  ghost predicate CoversHighs(s: seq<Interval>, up: seq<Point>, s1: real, s2: real) {
    forall l: Line :: s1 <= l.slope <= s2 && BelowAll(l, up) ==> UnderHighs(l, s)
  }

  // ---- the extreme lines --------------------------------------------------

  /** `a`-`c` is a stabbing line from an upper end down to a later lower end,
      `b`-`d` one from a lower end up to a later upper end. */
  ghost predicate Extreme(s: seq<Interval>, a: Point, b: Point, c: Point, d: Point) {
    && IsHigh(s, a) && IsLow(s, c) && a.x < c.x
    && IsLow(s, b) && IsHigh(s, d) && b.x < d.x
    && Stabs(Through(a, c), s) && Stabs(Through(b, d), s)
  }

  /** Such lines have the least and the greatest slope of all stabbing lines. */
  lemma ExtremeSlopes(s: seq<Interval>, a: Point, b: Point, c: Point, d: Point, l: Line)
    requires Extreme(s, a, b, c, d) && Stabs(l, s)
    ensures Through(a, c).slope <= l.slope <= Through(b, d).slope
  {
    ThroughAt(a, c);
    ThroughAt(b, d);
    var i :| 0 <= i < |s| && a == s[i].Hi();
    var j :| 0 <= j < |s| && c == s[j].Lo();
    Ordered(l, Through(a, c), a.x, c.x);
    var i' :| 0 <= i' < |s| && b == s[i'].Lo();
    var j' :| 0 <= j' < |s| && d == s[j'].Hi();
    Ordered(Through(b, d), l, b.x, d.x);
  }

  /** A new upper end below the least line, or a new lower end above the
      greatest one, leaves no stabbing line at all. */
  lemma Outside(s: seq<Interval>, a: Point, b: Point, c: Point, d: Point, v: Interval)
    requires Extreme(s, a, b, c, d) && v.x > c.x && v.x > d.x
    requires v.hi as real < Through(a, c).At(v.x) || v.lo as real > Through(b, d).At(v.x)
    ensures !Stabbable(s + [v])
  {
    forall l: Line
      ensures !Stabs(l, s + [v])
    {
      if Stabs(l, s + [v]) {
        var t := s + [v];
        assert forall i :: 0 <= i < |s| ==> t[i] == s[i];
        assert t[|s|] == v;
        assert Stabs(l, s);
        ExtremeSlopes(s, a, b, c, d, l);
        ThroughAt(a, c);
        ThroughAt(b, d);
        var j :| 0 <= j < |s| && c == s[j].Lo();
        var j' :| 0 <= j' < |s| && d == s[j'].Hi();
        Steeper(l, Through(a, c), c.x, v.x);
        Steeper(Through(b, d), l, d.x, v.x);
      }
    }
  }

  // ---- lowering the greatest line -----------------------------------------

  /** The line from a new upper end p to the tangent point of the lower chain
      is a stabbing line. */
  lemma TightenMax(s: seq<Interval>, min: Line, max: Line, low: seq<Point>, m: nat, p: Point)
    requires Row(s) && Stabs(min, s) && Stabs(max, s)
    requires m < |low| && IsLow(s, low[m]) && low[m].x < p.x && low[0].x < p.x
    requires forall i :: 0 <= i < |s| ==> s[i].x < p.x
    requires CoversLows(s, low, min.slope, max.slope) && max.At(low[0].x) == low[0].y as real
    requires min.At(p.x) <= p.y as real < max.At(p.x)
    requires AboveAll(Through(low[m], p), low)
    ensures var n := Through(low[m], p); min.slope <= n.slope <= max.slope && Stabs(n, s)
  {
    var q, n := low[m], Through(low[m], p);
    ThroughAt(q, p);
    var i :| 0 <= i < |s| && q == s[i].Lo();
    assert min.Above(s[i].Lo()) && max.Above(s[i].Lo());
    Ordered(n, min, q.x, p.x);
    assert n.Above(low[0]);
    Ordered(max, n, low[0].x, p.x);
    forall j | 0 <= j < |s|
      ensures n.Below(s[j].Hi())
    {
      if s[j].x >= q.x {
        Between(n, max, q.x, s[j].x, p.x);
      } else {
        Steeper(n, min, q.x, s[j].x);
      }
      assert min.Below(s[j].Hi()) && max.Below(s[j].Hi());
    }
  }

  /** From the tangent point on, the chain still covers the lower ends for the
      slopes that remain: this is why the points before it may be dropped. */
  lemma DropLower(s: seq<Interval>, s1: real, s2: real, low: seq<Point>, m: nat, n: Line)
    requires Chain(low) && m < |low| && CoversLows(s, low, s1, s2) && n.slope <= s2
    requires AboveAll(n, low) && n.At(low[m].x) == low[m].y as real
    ensures CoversLows(s, low[m..], s1, n.slope)
  {
    forall l: Line | s1 <= l.slope <= n.slope && AboveAll(l, low[m..])
      ensures OverLows(l, s)
    {
      assert l.Above(low[m..][0]);
      forall j | 0 <= j < |low|
        ensures l.Above(low[j])
      {
        if j < m {
          Steeper(n, l, low[m].x, low[j].x);
          assert n.Above(low[j]);
        } else {
          assert l.Above(low[m..][j - m]);
        }
      }
    }
  }

  // ---- raising the least line, by reflection ------------------------------

  function FlipRow(s: seq<Interval>): (r: seq<Interval>)
    ensures |r| == |s| && forall i :: 0 <= i < |s| ==> r[i] == Interval(s[i].x, -s[i].hi, -s[i].lo)
  {
    seq(|s|, i requires 0 <= i < |s| => Interval(s[i].x, -s[i].hi, -s[i].lo))
  }

  lemma FlipStabs(l: Line, s: seq<Interval>)
    ensures OverLows(FlipLine(l), FlipRow(s)) <==> UnderHighs(l, s)
    ensures UnderHighs(FlipLine(l), FlipRow(s)) <==> OverLows(l, s)
  {
    forall i | 0 <= i < |s|
      ensures FlipLine(l).Above(FlipRow(s)[i].Lo()) <==> l.Below(s[i].Hi())
      ensures FlipLine(l).Below(FlipRow(s)[i].Hi()) <==> l.Above(s[i].Lo())
    {
      FlipAt(l, s[i].x);
    }
  }

  lemma FlipCovers(s: seq<Interval>, up: seq<Point>, s1: real, s2: real)
    ensures CoversHighs(s, up, s1, s2) <==> CoversLows(FlipRow(s), FlipAll(up), -s2, -s1)
  {
    if CoversHighs(s, up, s1, s2) {
      forall k: Line | -s2 <= k.slope <= -s1 && AboveAll(k, FlipAll(up))
        ensures OverLows(k, FlipRow(s))
      {
        var l := FlipLine(k);
        assert FlipLine(l) == k;
        FlipBelowAll(l, up);
        FlipStabs(l, s);
      }
    }
    if CoversLows(FlipRow(s), FlipAll(up), -s2, -s1) {
      forall l: Line | s1 <= l.slope <= s2 && BelowAll(l, up)
        ensures UnderHighs(l, s)
      {
        FlipBelowAll(l, up);
        FlipStabs(l, s);
        assert OverLows(FlipLine(l), FlipRow(s));
      }
    }
  }

  lemma TightenMin(s: seq<Interval>, min: Line, max: Line, up: seq<Point>, m: nat, p: Point)
    requires Row(s) && Stabs(min, s) && Stabs(max, s)
    requires m < |up| && IsHigh(s, up[m]) && up[m].x < p.x && up[0].x < p.x
    requires forall i :: 0 <= i < |s| ==> s[i].x < p.x
    requires CoversHighs(s, up, min.slope, max.slope) && min.At(up[0].x) == up[0].y as real
    requires min.At(p.x) < p.y as real <= max.At(p.x)
    requires BelowAll(Through(up[m], p), up)
    ensures var n := Through(up[m], p); min.slope <= n.slope <= max.slope && Stabs(n, s)
  {
    var n := Through(up[m], p);
    var t, low := FlipRow(s), FlipAll(up);
    FlipStabs(min, s);
    FlipStabs(max, s);
    FlipStabs(n, s);
    FlipCovers(s, up, min.slope, max.slope);
    FlipThrough(up[m], p);
    FlipBelowAll(n, up);
    FlipAt(min, up[0].x);
    FlipAt(min, p.x);
    FlipAt(max, p.x);
    assert IsLow(t, low[m]) by {
      var i :| 0 <= i < |s| && up[m] == s[i].Hi();
      assert low[m] == t[i].Lo();
    }
    TightenMax(t, FlipLine(max), FlipLine(min), low, m, Flip(p));
  }

  lemma DropUpper(s: seq<Interval>, s1: real, s2: real, up: seq<Point>, m: nat, n: Line)
    requires Chain(up) && m < |up| && CoversHighs(s, up, s1, s2) && s1 <= n.slope
    requires BelowAll(n, up) && n.At(up[m].x) == up[m].y as real
    ensures CoversHighs(s, up[m..], n.slope, s2)
  {
    FlipCovers(s, up, s1, s2);
    FlipBelowAll(n, up);
    FlipAt(n, up[m].x);
    DropLower(FlipRow(s), -s2, -s1, FlipAll(up), m, FlipLine(n));
    assert FlipAll(up)[m..] == FlipAll(up[m..]);
    FlipCovers(s, up[m..], n.slope, s2);
  }
}
