/** The state of the piecewise-linear fit between two points, as values: the
    rectangle of extreme points and the two hulls, and how one more interval
    changes them. */
module Fit {
  import opened Lines
  import opened Hull
  import opened Stabbing

  /** p0-p2 is the line of least slope, p1-p3 the line of greatest slope. */
  datatype Rectangle = Rectangle(p0: Point, p1: Point, p2: Point, p3: Point) {
    predicate Proper() { p0.x < p2.x && p1.x < p3.x }
    function Min(): Line
      requires Proper()
    {
      Through(p0, p2)
    }
    function Max(): Line
      requires Proper()
    {
      Through(p1, p3)
    }
    ghost predicate ExtremeFor(s: seq<Interval>) { Extreme(s, p0, p1, p2, p3) }
  }

  ghost predicate LowerHull(s: seq<Interval>, r: Rectangle, low: seq<Point>)
    requires r.Proper()
  {
    && |low| > 0 && low[0] == r.p1 && low[|low| - 1] == r.p2
    && Chain(low) && Concave(low)
    && (forall k :: 0 <= k < |low| ==> IsLow(s, low[k]))
    && CoversLows(s, low, r.Min().slope, r.Max().slope)
  }

  ghost predicate UpperHull(s: seq<Interval>, r: Rectangle, up: seq<Point>)
    requires r.Proper()
  {
    && |up| > 0 && up[0] == r.p0 && up[|up| - 1] == r.p3
    && Chain(up) && Convex(up)
    && (forall k :: 0 <= k < |up| ==> IsHigh(s, up[k]))
    && CoversHighs(s, up, r.Min().slope, r.Max().slope)
  }

  /** What holds after every accepted point. */
  ghost predicate Fitted(s: seq<Interval>, r: Rectangle, low: seq<Point>, up: seq<Point>) {
    && Row(s) && |s| >= 2 && r.ExtremeFor(s) && LowerHull(s, r, low) && UpperHull(s, r, up)
  }

  /** What holds between the two halves of `add_point`: the upper end of v has
      been dealt with, its lower end has not. */
  ghost predicate Halfway(s: seq<Interval>, v: Interval, r: Rectangle, low: seq<Point>, up: seq<Point>) {
    && Row(s + [v]) && |s| >= 2 && r.Proper()
    && IsHigh(s, r.p0) && IsLow(s, r.p2) && Stabs(r.Min(), s) && r.Min().Below(v.Hi())
    && IsLow(s, r.p1) && IsHigh(s + [v], r.p3) && Stabs(r.Max(), s + [v])
    && LowerHull(s, r, low) && UpperHull(s + [v], r, up)
  }

  /** The two lines of the rectangle stab every accepted interval, and no
      stabbing line is flatter than the one or steeper than the other. */
  lemma ExtremeLines(s: seq<Interval>, r: Rectangle, low: seq<Point>, up: seq<Point>, l: Line)
    requires Fitted(s, r, low, up) && Stabs(l, s)
    ensures Stabs(r.Min(), s) && Stabs(r.Max(), s) && r.Min().slope <= l.slope <= r.Max().slope
  {
    ExtremeSlopes(s, r.p0, r.p1, r.p2, r.p3, l);
  }

  // ---- adding v to s ------------------------------------------------------

  lemma StillLow(s: seq<Interval>, v: Interval, p: Point)
    requires IsLow(s, p)
    ensures IsLow(s + [v], p)
  {
    var i :| 0 <= i < |s| && p == s[i].Lo();
    assert (s + [v])[i] == s[i];
  }

  lemma StillHigh(s: seq<Interval>, v: Interval, p: Point)
    requires IsHigh(s, p)
    ensures IsHigh(s + [v], p)
  {
    var i :| 0 <= i < |s| && p == s[i].Hi();
    assert (s + [v])[i] == s[i];
  }

  lemma NewEnds(s: seq<Interval>, v: Interval)
    ensures IsLow(s + [v], v.Lo()) && IsHigh(s + [v], v.Hi())
  {
    assert (s + [v])[|s|] == v;
  }

  lemma OldHigh(s: seq<Interval>, v: Interval, p: Point)
    requires Row(s + [v]) && IsHigh(s + [v], p)
    ensures (p.x < v.x && IsHigh(s, p)) || p == v.Hi()
  {
    var t := s + [v];
    var i :| 0 <= i < |t| && p == t[i].Hi();
    if i < |s| {
      assert s[i] == t[i] && t[|s|] == v;
    }
  }

  lemma AfterLast(s: seq<Interval>, v: Interval)
    requires Row(s + [v])
    ensures Row(s) && forall i :: 0 <= i < |s| ==> s[i].x < v.x
    ensures forall p :: IsLow(s, p) || IsHigh(s, p) ==> p.x < v.x
  {
    var t := s + [v];
    assert t[|s|] == v && forall i :: 0 <= i < |s| ==> t[i] == s[i];
  }

  lemma StabsOne(l: Line, s: seq<Interval>, v: Interval)
    ensures OverLows(l, s + [v]) <==> OverLows(l, s) && l.Above(v.Lo())
    ensures UnderHighs(l, s + [v]) <==> UnderHighs(l, s) && l.Below(v.Hi())
  {
    var t := s + [v];
    assert t[|s|] == v && forall i :: 0 <= i < |s| ==> t[i] == s[i];
    if OverLows(l, t) {
      assert forall i :: 0 <= i < |s| ==> l.Above(t[i].Lo());
    }
    if UnderHighs(l, t) {
      assert forall i :: 0 <= i < |s| ==> l.Below(t[i].Hi());
    }
  }

  // ---- covers -------------------------------------------------------------

  /** An upper end above a line of greatest slope through the last point of
      the chain is covered without entering it. */
  lemma CoverHighsKept(s: seq<Interval>, v: Interval, up: seq<Point>, s1: real, max: Line)
    requires CoversHighs(s, up, s1, max.slope) && |up| > 0 && up[|up| - 1].x <= v.x
    requires max.At(up[|up| - 1].x) == up[|up| - 1].y as real && max.Below(v.Hi())
    ensures CoversHighs(s + [v], up, s1, max.slope)
  {
    forall l: Line | s1 <= l.slope <= max.slope && BelowAll(l, up)
      ensures UnderHighs(l, s + [v])
    {
      assert l.Below(up[|up| - 1]);
      Steeper(max, l, up[|up| - 1].x, v.x);
      StabsOne(l, s, v);
    }
  }

  lemma CoverLowsKept(s: seq<Interval>, v: Interval, low: seq<Point>, min: Line, s2: real)
    requires CoversLows(s, low, min.slope, s2) && |low| > 0 && low[|low| - 1].x <= v.x
    requires min.At(low[|low| - 1].x) == low[|low| - 1].y as real && min.Above(v.Lo())
    ensures CoversLows(s + [v], low, min.slope, s2)
  {
    forall l: Line | min.slope <= l.slope <= s2 && AboveAll(l, low)
      ensures OverLows(l, s + [v])
    {
      assert l.Above(low[|low| - 1]);
      Steeper(l, min, low[|low| - 1].x, v.x);
      StabsOne(l, s, v);
    }
  }

  lemma CoverHighsPushed(s: seq<Interval>, v: Interval, up: seq<Point>, hull: seq<Point>,
                         s1: real, s2: real, t1: real, t2: real)
    requires CoversHighs(s, up, s1, s2) && s1 <= t1 && t2 <= s2
    requires |hull| > 0 && hull[|hull| - 1] == v.Hi() && HidesUpper(hull, v.Hi(), up)
    ensures CoversHighs(s + [v], hull, t1, t2)
  {
    forall l: Line | t1 <= l.slope <= t2 && BelowAll(l, hull)
      ensures UnderHighs(l, s + [v])
    {
      assert l.Below(hull[|hull| - 1]);
      assert BelowAll(l, up);
      StabsOne(l, s, v);
    }
  }

  lemma CoverLowsPushed(s: seq<Interval>, v: Interval, low: seq<Point>, hull: seq<Point>,
                        s1: real, s2: real, t1: real, t2: real)
    requires CoversLows(s, low, s1, s2) && s1 <= t1 && t2 <= s2
    requires |hull| > 0 && hull[|hull| - 1] == v.Lo() && HidesLower(hull, v.Lo(), low)
    ensures CoversLows(s + [v], hull, t1, t2)
  {
    forall l: Line | t1 <= l.slope <= t2 && AboveAll(l, hull)
      ensures OverLows(l, s + [v])
    {
      assert l.Above(hull[|hull| - 1]);
      assert AboveAll(l, low);
      StabsOne(l, s, v);
    }
  }

  lemma CoversFewer(s: seq<Interval>, v: Interval, up: seq<Point>, s1: real, s2: real)
    requires CoversHighs(s + [v], up, s1, s2)
    ensures CoversHighs(s, up, s1, s2)
  {
    forall l: Line | s1 <= l.slope <= s2 && BelowAll(l, up)
      ensures UnderHighs(l, s)
    {
      StabsOne(l, s, v);
    }
  }

  lemma Suffix(c: seq<Point>, m: nat)
    requires Chain(c) && m < |c|
    ensures Chain(c[m..])
    ensures Concave(c) ==> Concave(c[m..])
    ensures Convex(c) ==> Convex(c[m..])
  {
    hide Cross;
    var d := c[m..];
    forall i | 0 <= i < |d| - 2
      ensures Concave(c) ==> Cross(d[i], d[i + 1], d[i + 2]) < 0
      ensures Convex(c) ==> Cross(d[i], d[i + 1], d[i + 2]) > 0
    {
      var k := m + i;
      assert d[i] == c[k] && d[i + 1] == c[k + 1] && d[i + 2] == c[k + 2];
    }
  }

  // ---- the four ways a half of add_point can go ---------------------------

  /** An upper end above the greatest line need not enter the hull. */
  lemma UpperKept(s: seq<Interval>, v: Interval, r: Rectangle, low: seq<Point>, up: seq<Point>)
    requires Fitted(s, r, low, up) && Row(s + [v])
    requires r.Min().Below(v.Hi()) && r.Max().Above(v.Lo()) && r.Max().Below(v.Hi())
    ensures Halfway(s, v, r, low, up)
  {
    ThroughAt(r.p1, r.p3);
    AfterLast(s, v);
    StabsOne(r.Max(), s, v);
    CoverHighsKept(s, v, up, r.Min().slope, r.Max());
    forall k | 0 <= k < |up| ensures IsHigh(s + [v], up[k]) {
      StillHigh(s, v, up[k]);
    }
    assert UpperHull(s + [v], r, up);
  }

  /** A lower end below the least line need not enter the hull. */
  lemma LowerKept(s: seq<Interval>, v: Interval, r: Rectangle, low: seq<Point>, up: seq<Point>)
    requires Halfway(s, v, r, low, up) && r.Min().Above(v.Lo())
    ensures Fitted(s + [v], r, low, up)
  {
    ThroughAt(r.p0, r.p2);
    AfterLast(s, v);
    StabsOne(r.Min(), s, v);
    StillHigh(s, v, r.p0);
    CoverLowsKept(s, v, low, r.Min(), r.Max().slope);
    forall k | 0 <= k < |low| ensures IsLow(s + [v], low[k]) {
      StillLow(s, v, low[k]);
    }
    assert LowerHull(s + [v], r, low);
    StillLow(s, v, r.p1);
    StillLow(s, v, r.p2);
  }

  lemma CutMax(s: seq<Interval>, v: Interval, r: Rectangle, low: seq<Point>, m: nat)
    requires Row(s + [v]) && r.ExtremeFor(s) && LowerHull(s, r, low)
    requires r.Min().Below(v.Hi()) && !r.Max().Below(v.Hi())
    requires m < |low| && low[m].x < v.x && AboveAll(Through(low[m], v.Hi()), low)
    ensures var n := Through(low[m], v.Hi()); n.slope <= r.Max().slope && Stabs(n, s + [v])
  {
    var n := Through(low[m], v.Hi());
    AfterLast(s, v);
    ThroughAt(r.p1, r.p3);
    ThroughAt(low[m], v.Hi());
    TightenMax(s, r.Min(), r.Max(), low, m, v.Hi());
    StabsOne(n, s, v);
    assert (s + [v])[|s|] == v;
  }

  lemma CutLowerHull(s: seq<Interval>, r: Rectangle, low: seq<Point>, m: nat, p: Point)
    requires r.Proper() && LowerHull(s, r, low)
    requires m < |low| && low[m].x < p.x && AboveAll(Through(low[m], p), low)
    requires Through(low[m], p).slope <= r.Max().slope
    ensures LowerHull(s, r.(p1 := low[m], p3 := p), low[m..])
  {
    ThroughAt(low[m], p);
    DropLower(s, r.Min().slope, r.Max().slope, low, m, Through(low[m], p));
    Suffix(low, m);
  }

  /** The new upper end cuts the greatest line down to the tangent. */
  lemma UpperTightened(s: seq<Interval>, v: Interval, r: Rectangle, low: seq<Point>, up: seq<Point>,
                       m: nat, hull: seq<Point>)
    requires Fitted(s, r, low, up) && Row(s + [v])
    requires r.Min().Below(v.Hi()) && !r.Max().Below(v.Hi())
    requires m < |low| && low[m].x < v.x && AboveAll(Through(low[m], v.Hi()), low)
    requires |hull| > 1 && hull[0] == up[0] && hull[|hull| - 1] == v.Hi() && Chain(hull) && Convex(hull)
    requires HidesUpper(hull, v.Hi(), up) && forall k :: 0 <= k < |hull| ==> IsHigh(s + [v], hull[k])
    ensures Halfway(s, v, r.(p1 := low[m], p3 := v.Hi()), low[m..], hull)
    ensures r.(p1 := low[m], p3 := v.Hi()).Min() == r.Min()
  {
    hide Row, Stabs, IsLow, IsHigh, Chain, Concave, Convex, CoversHighs, CoversLows, AboveAll, HidesUpper, Through;
    var r' := r.(p1 := low[m], p3 := v.Hi());
    CutMax(s, v, r, low, m);
    CutLowerHull(s, r, low, m, v.Hi());
    assert UpperHull(s + [v], r', hull) by {
      CoverHighsPushed(s, v, up, hull, r.Min().slope, r.Max().slope, r'.Min().slope, r'.Max().slope);
    }
    NewEnds(s, v);
  }

  lemma LiftMin(s: seq<Interval>, v: Interval, r: Rectangle, low: seq<Point>, up: seq<Point>, m: nat)
    requires Halfway(s, v, r, low, up) && !r.Min().Above(v.Lo())
    requires m < |up| && up[m].x < v.x && BelowAll(Through(up[m], v.Lo()), up)
    ensures IsHigh(s, up[m])
    ensures var n := Through(up[m], v.Lo()); r.Min().slope <= n.slope && Stabs(n, s + [v])
  {
    var n := Through(up[m], v.Lo());
    AfterLast(s, v);
    ThroughAt(r.p0, r.p2);
    ThroughAt(up[m], v.Lo());
    StabsOne(r.Max(), s, v);
    CoversFewer(s, v, up, r.Min().slope, r.Max().slope);
    OldHigh(s, v, up[m]);
    TightenMin(s, r.Min(), r.Max(), up, m, v.Lo());
    assert (s + [v])[|s|] == v;
    StabsOne(n, s, v);
  }

  lemma LiftUpperHull(s: seq<Interval>, r: Rectangle, up: seq<Point>, m: nat, p: Point)
    requires r.Proper() && UpperHull(s, r, up)
    requires m < |up| && up[m].x < p.x && BelowAll(Through(up[m], p), up)
    requires r.Min().slope <= Through(up[m], p).slope
    ensures UpperHull(s, r.(p0 := up[m], p2 := p), up[m..])
  {
    ThroughAt(up[m], p);
    DropUpper(s, r.Min().slope, r.Max().slope, up, m, Through(up[m], p));
    Suffix(up, m);
  }

  /** The new lower end lifts the least line up to the tangent. */
  lemma LowerTightened(s: seq<Interval>, v: Interval, r: Rectangle, low: seq<Point>, up: seq<Point>,
                       m: nat, hull: seq<Point>)
    requires Halfway(s, v, r, low, up) && !r.Min().Above(v.Lo())
    requires m < |up| && up[m].x < v.x && BelowAll(Through(up[m], v.Lo()), up)
    requires |hull| > 1 && hull[0] == low[0] && hull[|hull| - 1] == v.Lo() && Chain(hull) && Concave(hull)
    requires HidesLower(hull, v.Lo(), low) && forall k :: 0 <= k < |hull| ==> IsLow(s + [v], hull[k])
    ensures Fitted(s + [v], r.(p0 := up[m], p2 := v.Lo()), hull, up[m..])
  {
    hide Row, Stabs, IsLow, IsHigh, Chain, Concave, Convex, CoversHighs, CoversLows, BelowAll, HidesLower, Through;
    var r' := r.(p0 := up[m], p2 := v.Lo());
    LiftMin(s, v, r, low, up, m);
    LiftUpperHull(s + [v], r, up, m, v.Lo());
    assert LowerHull(s + [v], r', hull) by {
      CoverLowsPushed(s, v, low, hull, r.Min().slope, r.Max().slope, r'.Min().slope, r'.Max().slope);
    }
    StillHigh(s, v, up[m]);
    NewEnds(s, v);
    StillLow(s, v, r.p1);
  }

  /** Two points: the two diagonals. */
  lemma FirstTwo(u: Interval, v: Interval)
    requires Row([u, v])
    ensures Fitted([u, v], Rectangle(u.Hi(), u.Lo(), v.Lo(), v.Hi()), [u.Lo(), v.Lo()], [u.Hi(), v.Hi()])
  {
    var s, r := [u, v], Rectangle(u.Hi(), u.Lo(), v.Lo(), v.Hi());
    assert s[0] == u && s[1] == v && u.x < v.x && u.lo <= u.hi && v.lo <= v.hi;
    ThroughAt(u.Hi(), v.Lo());
    ThroughAt(u.Lo(), v.Hi());
    var low, up := [u.Lo(), v.Lo()], [u.Hi(), v.Hi()];
    assert forall l: Line :: AboveAll(l, low) ==> l.Above(low[0]) && l.Above(low[1]);
    assert forall l: Line :: BelowAll(l, up) ==> l.Below(up[0]) && l.Below(up[1]);
    assert r.ExtremeFor(s);
  }

  /** With no slack all stabbing lines are the same. */
  lemma NoSlack(s: seq<Interval>, l: Line, m: Line, x: int)
    requires Row(s) && |s| >= 2 && Stabs(l, s) && Stabs(m, s)
    requires forall i :: 0 <= i < |s| ==> s[i].lo == s[i].hi
    ensures l.At(x) == m.At(x)
  {
    assert l.Above(s[0].Lo()) && l.Below(s[0].Hi()) && m.Above(s[0].Lo()) && m.Below(s[0].Hi());
    assert l.Above(s[1].Lo()) && l.Below(s[1].Hi()) && m.Above(s[1].Lo()) && m.Below(s[1].Hi());
    Ordered(l, m, s[0].x, s[1].x);
    Ordered(m, l, s[0].x, s[1].x);
    AtDiff(l, x, s[0].x);
    AtDiff(m, x, s[0].x);
  }
}
