/** Convex chains: the two hulls that the fit scans and pops. */
module Hull {
  import opened Lines

  /** Abscissas strictly increase. */
  ghost predicate Chain(c: seq<Point>) {
    forall i, j :: 0 <= i < j < |c| ==> c[i].x < c[j].x
  }

  /** The chain turns right at every inner point. */
  ghost predicate Concave(c: seq<Point>) {
    forall i :: 0 <= i < |c| - 2 ==> Cross(c[i], c[i + 1], c[i + 2]) < 0
  }

  /** The chain turns left at every inner point. */
  ghost predicate Convex(c: seq<Point>) {
    forall i :: 0 <= i < |c| - 2 ==> Cross(c[i], c[i + 1], c[i + 2]) > 0
  }

  ghost predicate AboveAll(l: Line, c: seq<Point>) {
    forall i :: 0 <= i < |c| ==> l.Above(c[i])
  }

  ghost predicate BelowAll(l: Line, c: seq<Point>) {
    forall i :: 0 <= i < |c| ==> l.Below(c[i])
  }

  // ---- mirror images ------------------------------------------------------

  function Flip(p: Point): Point { Point(p.x, -p.y) }

  function FlipLine(l: Line): Line { Line(-l.slope, -l.intercept) }

  function FlipAll(c: seq<Point>): (r: seq<Point>)
    ensures |r| == |c| && forall i :: 0 <= i < |c| ==> r[i] == Flip(c[i])
  {
    seq(|c|, i requires 0 <= i < |c| => Flip(c[i]))
  }

  lemma FlipAt(l: Line, x: int)
    ensures FlipLine(l).At(x) == -l.At(x)
  {
  }

  lemma FlipThrough(p: Point, q: Point)
    requires p.x != q.x
    ensures FlipLine(Through(p, q)) == Through(Flip(p), Flip(q))
  {
    var s, t := Minus(q, p), Minus(Flip(q), Flip(p));
    Divided(t.dy, t.dx, -s.Value());
    Divided(s.dy, s.dx, s.Value());
  }

  lemma FlipConvex(c: seq<Point>)
    requires Chain(c) && Convex(c)
    ensures Chain(FlipAll(c)) && Concave(FlipAll(c))
  {
    var f := FlipAll(c);
    forall i | 0 <= i < |c| - 2
      ensures Cross(f[i], f[i + 1], f[i + 2]) < 0
    {
      assert Cross(c[i], c[i + 1], c[i + 2]) > 0;
      FlipCross(c[i], c[i + 1], c[i + 2]);
    }
  }

  lemma FlipCross(a: Point, b: Point, c: Point)
    ensures Cross(Flip(a), Flip(b), Flip(c)) == -Cross(a, b, c)
  {
  }

  lemma FlipBelowAll(l: Line, c: seq<Point>)
    ensures AboveAll(FlipLine(l), FlipAll(c)) <==> BelowAll(l, c)
  {
    forall i | 0 <= i < |c|
      ensures FlipLine(l).Above(FlipAll(c)[i]) <==> l.Below(c[i])
    {
      FlipAt(l, c[i].x);
    }
    if AboveAll(FlipLine(l), FlipAll(c)) {
      forall i | 0 <= i < |c| ensures l.Below(c[i]) {
        assert FlipLine(l).Above(FlipAll(c)[i]);
      }
    }
  }

  // ---- the tangent scan ---------------------------------------------------

  /** Once a concave chain falls below a line through one of its points, it
      stays below: this is why the scan may stop at the first rise. */
  lemma {:induction false} ConcaveFalls(c: seq<Point>, l: Line, m: nat, k: nat)
    requires Chain(c) && Concave(c)
    requires m < k < |c| && l.At(c[m].x) <= c[m].y as real && l.Above(c[m + 1])
    ensures l.Above(c[k]) && Through(c[k - 1], c[k]).slope <= l.slope
    decreases k
  {
    var s := Through(c[k - 1], c[k]);
    ThroughAt(c[k - 1], c[k]);
    if k == m + 1 {
      Ordered(l, s, c[m].x, c[k].x);
    } else {
      ConcaveFalls(c, l, m, k - 1);
      var r := Through(c[k - 2], c[k - 1]);
      ThroughAt(c[k - 2], c[k - 1]);
      assert Cross(c[k - 2], c[k - 1], c[k]) < 0;
      Turn(c[k - 2], c[k - 1], c[k]);
      Steeper(l, s, c[k - 1].x, c[k].x);
    }
  }

  /** A right turn lowers the slope. */
  lemma Turn(a: Point, b: Point, p: Point)
    requires a.x < b.x < p.x && Cross(a, b, p) < 0
    ensures Through(b, p).slope <= Through(a, b).slope
  {
    var ab, bp, ap := Through(a, b), Through(b, p), Through(a, p);
    ThroughAt(a, b);
    ThroughAt(b, p);
    ThroughAt(a, p);
    CrossSide(a, b, p);
    Ordered(ab, ap, a.x, b.x);
    Ordered(ap, bp, b.x, p.x);
  }

  /** Replacing the tangent point q by a point r on or above the tangent
      through p keeps the new line above everything that the old one was. */
  lemma Retarget(q: Point, r: Point, p: Point, c: seq<Point>)
    requires q.x < p.x && r.x < p.x
    requires r.y as real >= Through(q, p).At(r.x)
    requires AboveAll(Through(q, p), c) && forall i :: 0 <= i < |c| ==> c[i].x <= p.x
    ensures AboveAll(Through(r, p), c)
  {
    var l, m := Through(q, p), Through(r, p);
    ThroughAt(q, p);
    ThroughAt(r, p);
    Ordered(l, m, r.x, p.x);
    forall i | 0 <= i < |c|
      ensures m.Above(c[i])
    {
      assert l.Above(c[i]);
      Steeper(l, m, p.x, c[i].x);
    }
  }

  lemma Popped(l: Line, a: Point, b: Point, p: Point)
    requires a.x < b.x < p.x && Cross(a, b, p) >= 0
    requires l.Above(a) && l.Above(p)
    ensures l.Above(b)
  {
    CrossSide(a, b, p);
    ThroughAt(a, p);
    Between(Through(a, p), l, a.x, b.x, p.x);
  }

  // ---- the same facts mirrored --------------------------------------------

  lemma ConvexRises(c: seq<Point>, l: Line, m: nat, k: nat)
    requires Chain(c) && Convex(c)
    requires m < k < |c| && l.At(c[m].x) >= c[m].y as real && l.Below(c[m + 1])
    ensures l.Below(c[k])
  {
    FlipConvex(c);
    FlipAt(l, c[m].x);
    FlipAt(l, c[m + 1].x);
    ConcaveFalls(FlipAll(c), FlipLine(l), m, k);
    FlipAt(l, c[k].x);
  }

  lemma RetargetBelow(q: Point, r: Point, p: Point, c: seq<Point>)
    requires q.x < p.x && r.x < p.x
    requires r.y as real <= Through(q, p).At(r.x)
    requires BelowAll(Through(q, p), c) && forall i :: 0 <= i < |c| ==> c[i].x <= p.x
    ensures BelowAll(Through(r, p), c)
  {
    FlipThrough(q, p);
    FlipThrough(r, p);
    FlipAt(Through(q, p), r.x);
    FlipBelowAll(Through(q, p), c);
    Retarget(Flip(q), Flip(r), Flip(p), FlipAll(c));
    FlipBelowAll(Through(r, p), c);
  }

  lemma PoppedBelow(l: Line, a: Point, b: Point, p: Point)
    requires a.x < b.x < p.x && Cross(a, b, p) <= 0
    requires l.Below(a) && l.Below(p)
    ensures l.Below(b)
  {
    FlipCross(a, b, p);
    FlipAt(l, a.x);
    FlipAt(l, b.x);
    FlipAt(l, p.x);
    Popped(FlipLine(l), Flip(a), Flip(b), Flip(p));
  }

  // ---- the scans and pops -------------------------------------------------

  lemma LowerStep(c: seq<Point>, p: Point, i: nat)
    requires Chain(c) && Concave(c) && 0 < i < |c|
    requires forall k :: 0 <= k < |c| ==> c[k].x < p.x
    requires AboveAll(Through(c[i - 1], p), c[..i])
    ensures if Minus(c[i], p).Greater(Minus(c[i - 1], p)) then AboveAll(Through(c[i - 1], p), c)
            else AboveAll(Through(c[i], p), c[..i + 1])
  {
    var l := Through(c[i - 1], p);
    ThroughAt(c[i - 1], p);
    ThroughSymmetric(c[i - 1], p);
    CrossMultiplied(c[i], p, Minus(c[i - 1], p), l);
    if Minus(c[i], p).Greater(Minus(c[i - 1], p)) {
      forall k | i <= k < |c| ensures l.Above(c[k]) {
        ConcaveFalls(c, l, i - 1, k);
      }
      assert forall k :: 0 <= k < i ==> c[..i][k] == c[k];
    } else {
      Retarget(c[i - 1], c[i], p, c[..i]);
      ThroughAt(c[i], p);
      assert c[..i + 1] == c[..i] + [c[i]];
    }
  }

  /** The point of a concave chain whose line to p lies above all of them,
      found by walking right until the slope first rises. */
  method LowerTangent(c: seq<Point>, p: Point) returns (m: nat)
    requires |c| > 0 && Chain(c) && Concave(c)
    requires forall i :: 0 <= i < |c| ==> c[i].x < p.x
    ensures m < |c| && AboveAll(Through(c[m], p), c)
  {
    m := 0;
    var min := Minus(c[m], p);
    ThroughAt(c[m], p);
    for i := 1 to |c|
      invariant m == i - 1 && min == Minus(c[m], p)
      invariant AboveAll(Through(c[m], p), c[..i])
    {
      LowerStep(c, p, i);
      var val := Minus(c[i], p);
      if val.Greater(min) {
        return;
      }
      min := val;
      m := i;
    }
    assert c[..|c|] == c;
  }

  lemma UpperStep(c: seq<Point>, p: Point, i: nat)
    requires Chain(c) && Convex(c) && 0 < i < |c| && c[i - 1].x < p.x
    requires forall k :: 0 <= k < |c| ==> c[k].x < p.x || (c[k].x == p.x && c[k].y > p.y)
    requires BelowAll(Through(c[i - 1], p), c[..i])
    ensures if Minus(c[i], p).Less(Minus(c[i - 1], p)) then BelowAll(Through(c[i - 1], p), c)
            else c[i].x < p.x && BelowAll(Through(c[i], p), c[..i + 1])
  {
    var l := Through(c[i - 1], p);
    ThroughAt(c[i - 1], p);
    ThroughSymmetric(c[i - 1], p);
    CrossMultiplied(c[i], p, Minus(c[i - 1], p), l);
    if Minus(c[i], p).Less(Minus(c[i - 1], p)) {
      forall k | i <= k < |c| ensures l.Below(c[k]) {
        ConvexRises(c, l, i - 1, k);
      }
      assert forall k :: 0 <= k < i ==> c[..i][k] == c[k];
    } else {
      RetargetBelow(c[i - 1], c[i], p, c[..i]);
      ThroughAt(c[i], p);
      assert c[..i + 1] == c[..i] + [c[i]];
    }
  }

  /** The mirror image, below the upper hull. Only the point pushed just
      before may share p's abscissa, and it then lies strictly above p. */
  method UpperTangent(c: seq<Point>, p: Point) returns (m: nat)
    requires |c| > 0 && Chain(c) && Convex(c) && c[0].x < p.x
    requires forall i :: 0 <= i < |c| ==> c[i].x < p.x || (c[i].x == p.x && c[i].y > p.y)
    ensures m < |c| && c[m].x < p.x && BelowAll(Through(c[m], p), c)
  {
    m := 0;
    var max := Minus(c[m], p);
    ThroughAt(c[m], p);
    for i := 1 to |c|
      invariant m == i - 1 && max == Minus(c[m], p) && c[m].x < p.x
      invariant BelowAll(Through(c[m], p), c[..i])
    {
      UpperStep(c, p, i);
      var val := Minus(c[i], p);
      if val.Less(max) {
        return;
      }
      max := val;
      m := i;
    }
    assert c[..|c|] == c;
  }

  /** Every line above the points of c and above p is above those of d. */
  ghost predicate HidesLower(c: seq<Point>, p: Point, d: seq<Point>) {
    forall l: Line :: l.Above(p) && AboveAll(l, c) ==> AboveAll(l, d)
  }

  ghost predicate HidesUpper(c: seq<Point>, p: Point, d: seq<Point>) {
    forall l: Line :: l.Below(p) && BelowAll(l, c) ==> BelowAll(l, d)
  }

  lemma PopLower(c: seq<Point>, end: nat, p: Point)
    requires 2 <= end <= |c| && Chain(c) && c[end - 1].x < p.x
    requires Cross(c[end - 2], c[end - 1], p) >= 0 && HidesLower(c[..end], p, c)
    ensures HidesLower(c[..end - 1], p, c)
  {
    forall l: Line | l.Above(p) && AboveAll(l, c[..end - 1])
      ensures AboveAll(l, c)
    {
      assert l.Above(c[..end - 1][end - 2]);
      Popped(l, c[end - 2], c[end - 1], p);
      assert c[..end] == c[..end - 1] + [c[end - 1]];
    }
  }

  lemma PopUpper(c: seq<Point>, end: nat, p: Point)
    requires 2 <= end <= |c| && Chain(c) && c[end - 1].x < p.x
    requires Cross(c[end - 2], c[end - 1], p) <= 0 && HidesUpper(c[..end], p, c)
    ensures HidesUpper(c[..end - 1], p, c)
  {
    forall l: Line | l.Below(p) && BelowAll(l, c[..end - 1])
      ensures BelowAll(l, c)
    {
      assert l.Below(c[..end - 1][end - 2]);
      PoppedBelow(l, c[end - 2], c[end - 1], p);
      assert c[..end] == c[..end - 1] + [c[end - 1]];
    }
  }

  lemma PushedLower(c: seq<Point>, end: nat, p: Point)
    requires 1 <= end <= |c| && Chain(c) && Concave(c) && HidesLower(c[..end], p, c)
    requires forall i :: 0 <= i < |c| ==> c[i].x < p.x
    requires end >= 2 ==> Cross(c[end - 2], c[end - 1], p) < 0
    ensures var r := c[..end] + [p];
            Chain(r) && Concave(r) && HidesLower(r, p, c)
  {
    var r := c[..end] + [p];
    forall i | 0 <= i < |r| - 2
      ensures Cross(r[i], r[i + 1], r[i + 2]) < 0
    {
      if i + 2 < end {
        assert Cross(c[i], c[i + 1], c[i + 2]) < 0;
      }
    }
    forall l: Line | AboveAll(l, r)
      ensures AboveAll(l, c)
    {
      assert l.Above(r[end]);
      assert forall i :: 0 <= i < end ==> c[..end][i] == r[i];
    }
  }

  /** Push p on a concave chain, popping what it hides: a line above what
      remains is above what was there. */
  method PushLower(c: seq<Point>, p: Point) returns (r: seq<Point>)
    requires |c| > 0 && Chain(c) && Concave(c)
    requires forall i :: 0 <= i < |c| ==> c[i].x < p.x
    ensures |r| > 1 && r[0] == c[0] && r[|r| - 1] == p && Chain(r) && Concave(r)
    ensures HidesLower(r, p, c) && forall i :: 0 <= i < |r| ==> r[i] in c || r[i] == p
  {
    var end := |c|;
    assert HidesLower(c[..end], p, c) by { assert c[..|c|] == c; }
    while end >= 2 && Cross(c[end - 2], c[end - 1], p) >= 0
      invariant 1 <= end <= |c|
      invariant HidesLower(c[..end], p, c)
    {
      PopLower(c, end, p);
      end := end - 1;
    }
    r := c[..end] + [p];
    PushedLower(c, end, p);
  }

  lemma PushedUpper(c: seq<Point>, end: nat, p: Point)
    requires 1 <= end <= |c| && Chain(c) && Convex(c) && HidesUpper(c[..end], p, c)
    requires forall i :: 0 <= i < |c| ==> c[i].x < p.x
    requires end >= 2 ==> Cross(c[end - 2], c[end - 1], p) > 0
    ensures var r := c[..end] + [p];
            Chain(r) && Convex(r) && HidesUpper(r, p, c)
  {
    var r := c[..end] + [p];
    forall i | 0 <= i < |r| - 2
      ensures Cross(r[i], r[i + 1], r[i + 2]) > 0
    {
      if i + 2 < end {
        assert Cross(c[i], c[i + 1], c[i + 2]) > 0;
      }
    }
    forall l: Line | BelowAll(l, r)
      ensures BelowAll(l, c)
    {
      assert l.Below(r[end]);
      assert forall i :: 0 <= i < end ==> c[..end][i] == r[i];
    }
  }

  method PushUpper(c: seq<Point>, p: Point) returns (r: seq<Point>)
    requires |c| > 0 && Chain(c) && Convex(c)
    requires forall i :: 0 <= i < |c| ==> c[i].x < p.x
    ensures |r| > 1 && r[0] == c[0] && r[|r| - 1] == p && Chain(r) && Convex(r)
    ensures HidesUpper(r, p, c) && forall i :: 0 <= i < |r| ==> r[i] in c || r[i] == p
  {
    var end := |c|;
    assert HidesUpper(c[..end], p, c) by { assert c[..|c|] == c; }
    while end >= 2 && Cross(c[end - 2], c[end - 1], p) <= 0
      invariant 1 <= end <= |c|
      invariant HidesUpper(c[..end], p, c)
    {
      PopUpper(c, end, p);
      end := end - 1;
    }
    r := c[..end] + [p];
    PushedUpper(c, end, p);
  }
}
