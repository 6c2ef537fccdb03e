/** The streaming fit: points are added from left to right, and a point is
    refused when no straight line passes within epsilon of it and of all the
    points accepted before it. */
module Plr {
  import opened Lines
  import opened Hull
  import opened Stabbing
  import opened Fit
  import opened Segment

  /** The greatest value of the position type, a 64-bit `size_t`. */
  const MAX_Y: nat := 0xFFFF_FFFF_FFFF_FFFF

  /** The interval a point stands for: epsilon either way, clipped to the
      range of the position type. */
  function Clipped(x: int, y: nat, epsilon: nat): (v: Interval)
    requires y <= MAX_Y && epsilon <= MAX_Y
    ensures v.x == x && v.lo <= y <= v.hi
    ensures v.lo == (if y <= epsilon then 0 else y - epsilon)
    ensures v.hi == (if y >= MAX_Y - epsilon then MAX_Y else y + epsilon)
    ensures v.lo == v.hi <==> epsilon == 0
  {
    Interval(x,
             if y <= epsilon then 0 else y - epsilon,
             if y >= MAX_Y - epsilon then MAX_Y else y + epsilon)
  }

  datatype Outcome = Added | Refused | OutOfOrder

  class PLR {
    const epsilon: nat
    var lower: seq<Point>
    var upper: seq<Point>
    var firstX: int
    var lastX: int
    var lowerStart: nat
    var upperStart: nat
    var pointsInHull: nat
    var rectangle: Rectangle

    /** The intervals of the segment under construction or, right after a
        refusal, of the segment just finished. */
    ghost var accepted: seq<Interval>

    ghost predicate Valid()
      reads this
    {
      && epsilon <= MAX_Y
      && Row(accepted)
      && (forall i :: 0 <= i < |accepted| ==> (accepted[i].lo == accepted[i].hi <==> epsilon == 0))
      && (pointsInHull == 0 ==> |accepted| != 1)
      && (pointsInHull > 0 ==> |accepted| == pointsInHull && lastX == accepted[|accepted| - 1].x)
      && (|accepted| > 0 ==> firstX == accepted[0].x)
      && (|accepted| == 1 ==>
            && rectangle.p0 == accepted[0].Hi() && rectangle.p1 == accepted[0].Lo()
            && lower == [accepted[0].Lo()] && upper == [accepted[0].Hi()] && lowerStart == upperStart == 0)
      && (|accepted| >= 2 ==> rectangle.ExtremeFor(accepted))
      && (pointsInHull >= 2 ==>
            && lowerStart < |lower| && upperStart < |upper|
            && Fitted(accepted, rectangle, lower[lowerStart..], upper[upperStart..]))
    }

    /** The intervals the next point has to agree with. */
    ghost function Pending(): seq<Interval>
      reads this
    {
      if pointsInHull == 0 then [] else accepted
    }

    constructor (epsilon: nat)
      requires epsilon <= MAX_Y
      ensures Valid() && this.epsilon == epsilon && pointsInHull == 0 && accepted == []
    {
      this.epsilon := epsilon;
      lower, upper := [], [];
      firstX, lastX, lowerStart, upperStart, pointsInHull := 0, 0, 0, 0, 0;
      rectangle := Rectangle(Point(0, 0), Point(0, 0), Point(0, 0), Point(0, 0));
      accepted := [];
    }

    method AddPoint(x: int, y: nat) returns (r: Outcome)
      requires Valid() && y <= MAX_Y
      modifies this
      ensures Valid()
      ensures r == OutOfOrder <==> old(pointsInHull) > 0 && x <= old(lastX)
      ensures r == OutOfOrder ==> unchanged(this)
      ensures r == Added ==>
                && accepted == old(Pending()) + [Clipped(x, y, epsilon)]
                && pointsInHull == old(pointsInHull) + 1 && lastX == x
      ensures r == Refused ==> accepted == old(accepted) && pointsInHull == 0 && firstX == old(firstX)
      ensures r != OutOfOrder ==> (r == Refused <==> !Stabbable(old(Pending()) + [Clipped(x, y, epsilon)]))
    {
      hide Fitted, Row, Stabbable, Rectangle.ExtremeFor, Clipped;
      if pointsInHull > 0 && x <= lastX {
        return OutOfOrder;
      }
      ghost var v := Clipped(x, y, epsilon);
      lastX := x;
      var p1 := Point(x, if y >= MAX_Y - epsilon then MAX_Y else y + epsilon);
      var p2 := Point(x, if y <= epsilon then 0 else y - epsilon);
      assert p1 == v.Hi() && p2 == v.Lo();
      if pointsInHull == 0 {
        Start(p1, p2, v);
        return Added;
      }
      RowOne(accepted, v);
      if pointsInHull == 1 {
        Second(p1, p2, v);
        return Added;
      }
      r := Extend(p1, p2, v);
      if r == Added {
        accepted := accepted + [v];
        FittedFacts(accepted, rectangle, lower[lowerStart..], upper[upperStart..]);
      }
    }

    /** The first point of a segment. */
    method Start(p1: Point, p2: Point, ghost v: Interval)
      requires epsilon <= MAX_Y && p1 == v.Hi() && p2 == v.Lo() && lastX == v.x
      requires v.lo <= v.hi && (v.lo == v.hi <==> epsilon == 0)
      modifies `rectangle, `lowerStart, `upperStart, `lower, `upper, `pointsInHull, `firstX, `accepted
      ensures Valid() && pointsInHull == 1 && accepted == [v] && Stabbable(accepted)
    {
      hide Row, Stabbable;
      OneStabbed(v);
      firstX := p1.x;
      rectangle := rectangle.(p0 := p1, p1 := p2);
      upper, lower := [p1], [p2];
      upperStart, lowerStart := 0, 0;
      pointsInHull := 1;
      accepted := [v];
    }

    /** The second point: the two diagonals. */
    method Second(p1: Point, p2: Point, ghost v: Interval)
      requires epsilon <= MAX_Y && p1 == v.Hi() && p2 == v.Lo() && lastX == v.x && (v.lo == v.hi <==> epsilon == 0)
      requires pointsInHull == 1 == |accepted| && Row(accepted + [v]) && firstX == accepted[0].x
      requires accepted[0].lo == accepted[0].hi <==> epsilon == 0
      requires rectangle.p0 == accepted[0].Hi() && rectangle.p1 == accepted[0].Lo()
      requires lower == [accepted[0].Lo()] && upper == [accepted[0].Hi()] && lowerStart == upperStart == 0
      modifies `rectangle, `lower, `upper, `pointsInHull, `accepted
      ensures Valid() && pointsInHull == 2 && accepted == old(accepted) + [v] && Stabbable(accepted)
    {
      hide Fitted, Row, Stabbable, Rectangle.ExtremeFor;
      rectangle := rectangle.(p2 := p2, p3 := p1);
      upper, lower := upper + [p1], lower + [p2];
      pointsInHull := 2;
      ghost var u := accepted[0];
      assert accepted + [v] == [u, v];
      FirstTwo(u, v);
      accepted := accepted + [v];
      assert lower[lowerStart..] == lower == [u.Lo(), v.Lo()];
      assert upper[upperStart..] == upper == [u.Hi(), v.Hi()];
      FittedFacts(accepted, rectangle, lower, upper);
    }

    /** The segment under construction, or the one just finished by a refusal. */
    method GetSegment() returns (g: CanonicalSegment)
      requires Valid() && |accepted| > 0
      ensures g.Of(accepted)
    {
      if pointsInHull == 1 {
        g := CanonicalSegment(Rectangle(rectangle.p0, rectangle.p1, rectangle.p0, rectangle.p1), firstX);
      } else {
        g := CanonicalSegment(rectangle, firstX);
      }
    }

    /** A point to the right of at least two others. */
    method Extend(p1: Point, p2: Point, ghost v: Interval) returns (r: Outcome)
      requires pointsInHull >= 2 && lowerStart < |lower| && upperStart < |upper|
      requires p1 == v.Hi() && p2 == v.Lo() && Row(accepted + [v])
      requires v.lo == v.hi ==> forall i :: 0 <= i < |accepted| ==> accepted[i].lo == accepted[i].hi
      requires Fitted(accepted, rectangle, lower[lowerStart..], upper[upperStart..])
      modifies `rectangle, `lowerStart, `upperStart, `lower, `upper, `pointsInHull
      ensures r == Added || r == Refused
      ensures r == Refused ==> pointsInHull == 0 && rectangle == old(rectangle) && !Stabbable(accepted + [v])
      ensures r == Added ==>
                && pointsInHull == old(pointsInHull) + 1 && lowerStart < |lower| && upperStart < |upper|
                && Fitted(accepted + [v], rectangle, lower[lowerStart..], upper[upperStart..])
    {
      hide *;
      ReadyToExtend(accepted, v, rectangle, lower[lowerStart..], upper[upperStart..]);
      var slope1 := Minus(rectangle.p2, rectangle.p0);
      var slope2 := Minus(rectangle.p3, rectangle.p1);
      var outsideLine1 := Minus(p1, rectangle.p2).Less(slope1);
      var outsideLine2 := Minus(p2, rectangle.p3).Greater(slope2);
      if outsideLine1 || outsideLine2 {
        pointsInHull := 0;
        return Refused;
      }
      if Minus(p1, rectangle.p1).Less(slope2) {
        CutUpper(p1, v);
      } else {
        UpperKept(accepted, v, rectangle, lower[lowerStart..], upper[upperStart..]);
      }
      if Minus(p2, rectangle.p0).Greater(slope1) {
        LiftLower(p2, v);
      } else {
        LowerKept(accepted, v, rectangle, lower[lowerStart..], upper[upperStart..]);
      }
      pointsInHull := pointsInHull + 1;
      return Added;
    }

    /** The new upper end lies below the greatest line: find the tangent to
        the lower hull and push the end on the upper hull. */
    method CutUpper(p1: Point, ghost v: Interval)
      requires lowerStart < |lower| && upperStart < |upper| && p1 == v.Hi() && Row(accepted + [v])
      requires Fitted(accepted, rectangle, lower[lowerStart..], upper[upperStart..])
      requires rectangle.Min().Below(p1) && !rectangle.Max().Below(p1)
      modifies `rectangle, `lowerStart, `upper
      ensures lowerStart < |lower| && upperStart < |upper|
      ensures Halfway(accepted, v, rectangle, lower[lowerStart..], upper[upperStart..])
      ensures rectangle.p0 == old(rectangle.p0) && rectangle.p2 == old(rectangle.p2)
      ensures rectangle.Min() == old(rectangle.Min()) && rectangle.p3 == p1
    {
      hide *;
      var low, up := lower[lowerStart..], upper[upperStart..];
      ReadyToCut(accepted, v, rectangle, low, up);
      var m := LowerTangent(low, p1);
      var hull := PushUpper(up, p1);
      Pushed(accepted, v, up, hull);
      UpperTightened(accepted, v, rectangle, low, up, m, hull);
      rectangle := rectangle.(p1 := low[m], p3 := p1);
      lowerStart := lowerStart + m;
      upper := upper[..upperStart] + hull;
      assert lower[lowerStart..] == low[m..] && upper[upperStart..] == hull;
    }

    /** The new lower end lies above the least line. */
    method LiftLower(p2: Point, ghost v: Interval)
      requires lowerStart < |lower| && upperStart < |upper| && p2 == v.Lo()
      requires Halfway(accepted, v, rectangle, lower[lowerStart..], upper[upperStart..])
      requires !rectangle.Min().Above(p2) && (rectangle.p3 == v.Hi() ==> v.lo < v.hi)
      modifies `rectangle, `upperStart, `lower
      ensures lowerStart < |lower| && upperStart < |upper|
      ensures Fitted(accepted + [v], rectangle, lower[lowerStart..], upper[upperStart..])
    {
      hide *;
      var low, up := lower[lowerStart..], upper[upperStart..];
      ReadyToLift(accepted, v, rectangle, low, up);
      var m := UpperTangent(up, p2);
      var hull := PushLower(low, p2);
      PushedLow(accepted, v, low, hull);
      LowerTightened(accepted, v, rectangle, low, up, m, hull);
      rectangle := rectangle.(p0 := up[m], p2 := p2);
      upperStart := upperStart + m;
      lower := lower[..lowerStart] + hull;
      assert lower[lowerStart..] == hull && upper[upperStart..] == up[m..];
    }
  }

  lemma OneStabbed(v: Interval)
    requires v.lo <= v.hi
    ensures Row([v]) && Stabbable([v]) && [] + [v] == [v]
  {
    assert Stabs(Line(0.0, v.lo as real), [v]);
  }

  lemma FittedFacts(s: seq<Interval>, r: Rectangle, low: seq<Point>, up: seq<Point>)
    requires Fitted(s, r, low, up)
    ensures Row(s) && r.ExtremeFor(s) && Stabbable(s)
  {
    assert Stabs(r.Min(), s);
  }

  lemma RowOne(s: seq<Interval>, v: Interval)
    requires Row(s) && v.lo <= v.hi && |s| > 0 && s[|s| - 1].x < v.x
    ensures Row(s + [v])
  {
  }

  /** The four cross-multiplied comparisons place the new ends against the two
      extreme lines. */
  lemma Compared(r: Rectangle, v: Interval)
    requires r.Proper() && r.p2.x < v.x && r.p3.x < v.x
    ensures Minus(v.Hi(), r.p2).Less(Minus(r.p2, r.p0)) <==> !r.Min().Below(v.Hi())
    ensures Minus(v.Lo(), r.p3).Greater(Minus(r.p3, r.p1)) <==> !r.Max().Above(v.Lo())
    ensures Minus(v.Hi(), r.p1).Less(Minus(r.p3, r.p1)) <==> !r.Max().Below(v.Hi())
    ensures Minus(v.Lo(), r.p0).Greater(Minus(r.p2, r.p0)) <==> !r.Min().Above(v.Lo())
  {
    ThroughAt(r.p0, r.p2);
    ThroughAt(r.p1, r.p3);
    CrossMultiplied(v.Hi(), r.p2, Minus(r.p2, r.p0), r.Min());
    CrossMultiplied(v.Lo(), r.p3, Minus(r.p3, r.p1), r.Max());
    CrossMultiplied(v.Hi(), r.p1, Minus(r.p3, r.p1), r.Max());
    CrossMultiplied(v.Lo(), r.p0, Minus(r.p2, r.p0), r.Min());
  }

  lemma Pushed(s: seq<Interval>, v: Interval, up: seq<Point>, hull: seq<Point>)
    requires forall k :: 0 <= k < |up| ==> IsHigh(s, up[k])
    requires forall k :: 0 <= k < |hull| ==> hull[k] in up || hull[k] == v.Hi()
    ensures forall k :: 0 <= k < |hull| ==> IsHigh(s + [v], hull[k])
  {
    forall k | 0 <= k < |hull|
      ensures IsHigh(s + [v], hull[k])
    {
      NewEnds(s, v);
      if hull[k] in up {
        StillHigh(s, v, hull[k]);
      }
    }
  }

  lemma PushedLow(s: seq<Interval>, v: Interval, low: seq<Point>, hull: seq<Point>)
    requires forall k :: 0 <= k < |low| ==> IsLow(s, low[k])
    requires forall k :: 0 <= k < |hull| ==> hull[k] in low || hull[k] == v.Lo()
    ensures forall k :: 0 <= k < |hull| ==> IsLow(s + [v], hull[k])
  {
    forall k | 0 <= k < |hull|
      ensures IsLow(s + [v], hull[k])
    {
      NewEnds(s, v);
      if hull[k] in low {
        StillLow(s, v, hull[k]);
      }
    }
  }

  /** The comparisons decide the case, and a point outside either line cannot
      be stabbed together with the others. */
  lemma ReadyToExtend(s: seq<Interval>, v: Interval, r: Rectangle, low: seq<Point>, up: seq<Point>)
    requires Fitted(s, r, low, up) && Row(s + [v])
    requires v.lo == v.hi ==> forall i :: 0 <= i < |s| ==> s[i].lo == s[i].hi
    ensures r.Proper() && r.p3 != v.Hi()
    ensures Minus(v.Hi(), r.p1).Less(Minus(r.p3, r.p1)) <==> !r.Max().Below(v.Hi())
    ensures Minus(v.Lo(), r.p0).Greater(Minus(r.p2, r.p0)) <==> !r.Min().Above(v.Lo())
    ensures Minus(v.Hi(), r.p2).Less(Minus(r.p2, r.p0)) ==> !Stabbable(s + [v])
    ensures Minus(v.Lo(), r.p3).Greater(Minus(r.p3, r.p1)) ==> !Stabbable(s + [v])
    ensures !Minus(v.Hi(), r.p2).Less(Minus(r.p2, r.p0)) ==> r.Min().Below(v.Hi())
    ensures !Minus(v.Lo(), r.p3).Greater(Minus(r.p3, r.p1)) ==> r.Max().Above(v.Lo())
    ensures !r.Max().Below(v.Hi()) && !r.Min().Above(v.Lo()) ==> v.lo < v.hi
  {
    AfterLast(s, v);
    Compared(r, v);
    if !r.Min().Below(v.Hi()) || !r.Max().Above(v.Lo()) {
      Outside(s, r.p0, r.p1, r.p2, r.p3, v);
    }
    if v.lo == v.hi {
      NoSlack(s, r.Min(), r.Max(), v.x);
    }
    assert (s + [v])[|s|] == v;
  }

  lemma ReadyToCut(s: seq<Interval>, v: Interval, r: Rectangle, low: seq<Point>, up: seq<Point>)
    requires Fitted(s, r, low, up) && Row(s + [v])
    ensures |low| > 0 && Chain(low) && Concave(low) && forall k :: 0 <= k < |low| ==> low[k].x < v.Hi().x == v.x
    ensures |up| > 0 && Chain(up) && Convex(up) && forall k :: 0 <= k < |up| ==> up[k].x < v.Hi().x
    ensures forall k :: 0 <= k < |up| ==> IsHigh(s, up[k])
  {
    AfterLast(s, v);
  }

  lemma ReadyToLift(s: seq<Interval>, v: Interval, r: Rectangle, low: seq<Point>, up: seq<Point>)
    requires Halfway(s, v, r, low, up) && (r.p3 == v.Hi() ==> v.lo < v.hi)
    ensures |low| > 0 && Chain(low) && Concave(low) && forall k :: 0 <= k < |low| ==> low[k].x < v.Lo().x == v.x
    ensures |up| > 0 && Chain(up) && Convex(up) && up[0].x < v.Lo().x
    ensures forall k :: 0 <= k < |up| ==> up[k].x < v.Lo().x || (up[k].x == v.Lo().x && up[k].y > v.Lo().y)
    ensures forall k :: 0 <= k < |low| ==> IsLow(s, low[k])
  {
    AfterLast(s, v);
    forall k | 0 <= k < |up|
      ensures up[k].x < v.x || (up[k].x == v.x && up[k].y > v.lo)
    {
      OldHigh(s, v, up[k]);
      if up[k] == v.Hi() && k < |up| - 1 {
        OldHigh(s, v, up[|up| - 1]);
      }
    }
  }
}
