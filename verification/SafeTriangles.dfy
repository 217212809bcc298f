/** The safe triangle: hovers on the way to a side panel are suppressed. Coordinates are reals. */
module SafeTriangles {
  import opened Options

  datatype Point = Point(x: real, y: real)
  datatype Rect = Rect(minX: real, minY: real, maxX: real, maxY: real)

  const VERTICAL_PADDING: real := 80.0
  const MIN_MOVEMENT_SQUARED: real := 4.0

  predicate ContainsPoint(r: Rect, p: Point) {
    r.minX <= p.x <= r.maxX && r.minY <= p.y <= r.maxY
  }

  /** The z-component of (v2 - v1) x (p - v1). */
  function CrossSign(p: Point, v1: Point, v2: Point): real {
    (v2.x - v1.x) * (p.y - v1.y) - (v2.y - v1.y) * (p.x - v1.x)
  }

  predicate PointInTriangle(p: Point, a: Point, b: Point, c: Point) {
    SignsAgree(CrossSign(p, a, b), CrossSign(p, b, c), CrossSign(p, c, a))
  }

  /** No two of the three numbers have opposite signs. */
  predicate SignsAgree(d1: real, d2: real, d3: real) {
    var hasNeg := d1 < 0.0 || d2 < 0.0 || d3 < 0.0;
    var hasPos := d1 > 0.0 || d2 > 0.0 || d3 > 0.0;
    !(hasNeg && hasPos)
  }

  // ---------------------------------------------------------------- the machine

  datatype State = State(target: Option<Rect>, last: Option<Point>, suppressing: bool)

  function DistanceSquared(p: Point, q: Point): real {
    (p.x - q.x) * (p.x - q.x) + (p.y - q.y) * (p.y - q.y)
  }

  /** The edge of the target that faces the apex. */
  function NearX(target: Rect, apex: Point): real {
    if apex.x < (target.minX + target.maxX) / 2.0 then target.minX else target.maxX
  }

  predicate InSafeTriangle(target: Rect, apex: Point, p: Point) {
    var near := NearX(target, apex);
    PointInTriangle(p, apex, Point(near, apex.y - VERTICAL_PADDING), Point(near, apex.y + VERTICAL_PADDING))
  }

  /** `should_suppress_hover`: the stored flag afterwards is also the result. */
  function AfterHover(s: State, p: Point): State {
    if s.target.None? || s.last.None? then s.(suppressing := false)
    else if ContainsPoint(s.target.value, s.last.value) then s.(suppressing := false)
    else if DistanceSquared(p, s.last.value) < MIN_MOVEMENT_SQUARED then s
    else s.(suppressing := InSafeTriangle(s.target.value, s.last.value, p))
  }

  class SafeTriangle {
    var targetRect: Option<Rect>
    var lastPosition: Option<Point>
    var isSuppressing: bool

    function Contents(): State
      reads this
    {
      State(targetRect, lastPosition, isSuppressing)
    }

    /** The flag is only set while there is a target and a last position. */
    ghost predicate Valid()
      reads this
    {
      isSuppressing ==> targetRect.Some? && lastPosition.Some?
    }

    constructor ()
      ensures Valid() && Contents() == State(None, None, false)
    {
      targetRect, lastPosition, isSuppressing := None, None, false;
    }

    method SetTargetRect(rect: Option<Rect>)
      requires Valid()
      modifies this
      ensures Valid()
      ensures Contents() == if rect.None? then State(None, None, false) else old(Contents()).(target := rect)
    {
      targetRect := rect;
      if rect.None? {
        lastPosition := None;
        isSuppressing := false;
      }
    }

    method ShouldSuppressHover(newPosition: Point) returns (suppress: bool)
      requires Valid()
      modifies this
      ensures Valid()
      ensures Contents() == AfterHover(old(Contents()), newPosition)
      ensures suppress == isSuppressing
    {
      hide CrossSign, PointInTriangle, NearX, ContainsPoint;
      if targetRect.None? || lastPosition.None? {
        isSuppressing := false;
        return false;
      }
      var target, last := targetRect.value, lastPosition.value;
      if ContainsPoint(target, last) {
        isSuppressing := false;
        return false;
      }
      var dx, dy := newPosition.x - last.x, newPosition.y - last.y;
      assert dx * dx + dy * dy == DistanceSquared(newPosition, last);
      hide DistanceSquared;
      if dx * dx + dy * dy < MIN_MOVEMENT_SQUARED {
        return isSuppressing;
      }
      var near := NearX(target, last);
      isSuppressing := PointInTriangle(newPosition, last,
        Point(near, last.y - VERTICAL_PADDING), Point(near, last.y + VERTICAL_PADDING));
      suppress := isSuppressing;
    }

    method UpdatePosition(position: Point)
      requires Valid()
      modifies this
      ensures Valid() && Contents() == old(Contents()).(last := Some(position))
    {
      lastPosition := Some(position);
    }
  }

  // ---------------------------------------------------------------- the wedge

  /** The three signs for the safe triangle, in coordinates relative to the apex. */
  lemma WedgeSigns(apex: Point, near: real, p: Point, dx: real, u: real, v: real, w: real)
    requires dx == near - apex.x && u == p.x - apex.x && v == p.y - apex.y && w == dx * v
    ensures var b, c := Point(near, apex.y - VERTICAL_PADDING), Point(near, apex.y + VERTICAL_PADDING);
      && CrossSign(p, apex, b) == w + 80.0 * u
      && CrossSign(p, b, c) == 160.0 * (dx - u)
      && CrossSign(p, c, apex) == 80.0 * u - w
  {
    var c := Point(near, apex.y + VERTICAL_PADDING);
    assert (apex.x - c.x) * (p.y - c.y) == (-dx) * (v - 80.0);
    assert (-dx) * (v - 80.0) == 80.0 * dx - w;
  }

  /** How far along the wedge `p` is: 0 at the apex, 1 at the near edge. */
  function Progress(apex: Point, near: real, p: Point): real
    requires near != apex.x
  {
    (p.x - apex.x) / (near - apex.x)
  }

  function Abs(x: real): real {
    if x < 0.0 then -x else x
  }

  lemma ScaledComparison(dx: real, v: real, t: real)
    requires dx != 0.0
    ensures Abs(v) <= 80.0 * t <==> Abs(dx * v) <= 80.0 * (t * Abs(dx))
  {
    var k := Abs(dx);
    assert Abs(dx * v) == k * Abs(v) by {
      if dx < 0.0 {
        assert dx * v == -(k * v);
        if v < 0.0 { assert k * v < 0.0; } else { assert k * v >= 0.0; }
      } else {
        if v < 0.0 { assert k * v < 0.0; } else { assert k * v >= 0.0; }
      }
    }
    assert 80.0 * (t * k) == k * (80.0 * t);
    ScaleLe(k, Abs(v), 80.0 * t);
  }

  lemma ScaleLe(k: real, a: real, b: real)
    requires k > 0.0
    ensures a <= b <==> k * a <= k * b
  {
    assert k * b - k * a == k * (b - a);
    if a <= b {
      assert k * (b - a) >= 0.0;
    } else {
      assert k * (a - b) > 0.0;
      assert k * a - k * b == k * (a - b);
    }
  }

  /** The signs agree exactly when `p` is between the apex and the near edge and within the
      wedge, whichever side the target is on. */
  lemma SignsAgreeIff(dx: real, u: real, w: real)
    requires dx != 0.0
    ensures SignsAgree(w + 80.0 * u, 160.0 * (dx - u), 80.0 * u - w) <==>
        if dx > 0.0 then 0.0 <= u <= dx && Abs(w) <= 80.0 * u
        else dx <= u <= 0.0 && Abs(w) <= -80.0 * u
  {
  }

  /** The wedge in coordinates relative to the apex, without dividing. */
  predicate InWedge(dx: real, u: real, v: real) {
    if dx > 0.0 then 0.0 <= u <= dx && Abs(dx * v) <= 80.0 * u
    else dx <= u <= 0.0 && Abs(dx * v) <= -80.0 * u
  }

  lemma ScaledProgress(dx: real, u: real, t: real)
    requires t * dx == u
    ensures t * Abs(dx) == if dx < 0.0 then -u else u
    ensures Abs(dx) * t == t * Abs(dx)
  {
    assert t * -dx == -(t * dx);
  }

  lemma ProgressForm(dx: real, u: real, v: real, t: real)
    requires dx != 0.0 && t * dx == u
    ensures InWedge(dx, u, v) <==> 0.0 <= t <= 1.0 && Abs(v) <= VERTICAL_PADDING * t
  {
    var k := Abs(dx);
    ScaledComparison(dx, v, t);
    ScaleLe(k, 0.0, t);
    ScaleLe(k, t, 1.0);
    ScaledProgress(dx, u, t);
  }

  lemma WedgeWithoutDividing(target: Rect, apex: Point, p: Point)
    requires NearX(target, apex) != apex.x
    ensures InSafeTriangle(target, apex, p) <==> InWedge(NearX(target, apex) - apex.x, p.x - apex.x, p.y - apex.y)
  {
    hide CrossSign, NearX;
    var near := NearX(target, apex);
    var dx, u, v := near - apex.x, p.x - apex.x, p.y - apex.y;
    var w := dx * v;
    WedgeSigns(apex, near, p, dx, u, v, w);
    SignsAgreeIff(dx, u, w);
    assert InSafeTriangle(target, apex, p) == SignsAgree(w + 80.0 * u, 160.0 * (dx - u), 80.0 * u - w);
  }

  /** The wedge theorem: a target edge to the left or right, any position. */
  lemma WedgeIff(target: Rect, apex: Point, p: Point)
    requires NearX(target, apex) != apex.x
    ensures var t := Progress(apex, NearX(target, apex), p);
      InSafeTriangle(target, apex, p) <==> 0.0 <= t <= 1.0 && Abs(p.y - apex.y) <= VERTICAL_PADDING * t
  {
    var near := NearX(target, apex);
    WedgeWithoutDividing(target, apex, p);
    ProgressForm(near - apex.x, p.x - apex.x, p.y - apex.y, Progress(apex, near, p));
  }

  /** With the apex straight above or below the near edge the triangle is flat, and the test
      accepts the whole vertical line through the apex, at any distance. */
  lemma FlatWedgeIff(target: Rect, apex: Point, p: Point)
    requires NearX(target, apex) == apex.x
    ensures InSafeTriangle(target, apex, p) <==> p.x == apex.x
  {
    var u, v := p.x - apex.x, p.y - apex.y;
    WedgeSigns(apex, NearX(target, apex), p, 0.0, u, v, 0.0);
    assert InSafeTriangle(target, apex, p) == SignsAgree(80.0 * u, -160.0 * u, 80.0 * u);
  }

  /** The edge that counts is the vertical edge nearer to the apex, or the right one when both are as near. */
  lemma NearXIsNearest(target: Rect, apex: Point)
    requires target.minX <= target.maxX
    ensures var left, right := Abs(target.minX - apex.x), Abs(target.maxX - apex.x);
      NearX(target, apex) == if left < right then target.minX else target.maxX
  {
  }

  /** When a hover is suppressed, in every state: there is a target and an apex outside it, and the hover is
      in the wedge, or less than two units from the apex after a hover that was suppressed. */
  lemma SuppressedIff(s: State, p: Point)
    ensures AfterHover(s, p) == s.(suppressing := AfterHover(s, p).suppressing)
    ensures AfterHover(s, p).suppressing <==>
      && s.target.Some? && s.last.Some?
      && var target, apex := s.target.value, s.last.value;
        && !(target.minX <= apex.x <= target.maxX && target.minY <= apex.y <= target.maxY)
        && if (p.x - apex.x) * (p.x - apex.x) + (p.y - apex.y) * (p.y - apex.y) < 4.0 then s.suppressing
           else
             var near := NearX(target, apex);
             if near == apex.x then p.x == apex.x
             else
               var t := Progress(apex, near, p);
               0.0 <= t <= 1.0 && Abs(p.y - apex.y) <= VERTICAL_PADDING * t
  {
    hide NearX, Progress, InSafeTriangle, Abs;
    if s.target.Some? && s.last.Some? && !ContainsPoint(s.target.value, s.last.value)
       && DistanceSquared(p, s.last.value) >= MIN_MOVEMENT_SQUARED {
      SuppressedIffInWedge(s, p);
    }
  }

  /** A hover that moved at least two units from an apex outside the target is suppressed exactly
      when it lies in the wedge between the apex and the near edge. */
  lemma SuppressedIffInWedge(s: State, p: Point)
    requires s.target.Some? && s.last.Some? && !ContainsPoint(s.target.value, s.last.value)
    requires DistanceSquared(p, s.last.value) >= MIN_MOVEMENT_SQUARED
    ensures var apex, near := s.last.value, NearX(s.target.value, s.last.value);
      AfterHover(s, p).suppressing <==>
        if near == apex.x then p.x == apex.x
        else
          var t := Progress(apex, near, p);
          0.0 <= t <= 1.0 && Abs(p.y - apex.y) <= VERTICAL_PADDING * t
  {
    if NearX(s.target.value, s.last.value) == s.last.value.x {
      FlatWedgeIff(s.target.value, s.last.value, p);
    } else {
      WedgeIff(s.target.value, s.last.value, p);
    }
  }

  // ---------------------------------------------------------------- triangles in general

  /** Twice the signed area. */
  function Area2(a: Point, b: Point, c: Point): real {
    CrossSign(c, a, b)
  }

  /** `p` is the weighted mean of the corners with weights that are not negative. */
  ghost predicate InHull(p: Point, a: Point, b: Point, c: Point) {
    exists wa: real, wb: real, wc: real :: Weighs(p, a, b, c, wa, wb, wc)
  }

  predicate Weighs(p: Point, a: Point, b: Point, c: Point, wa: real, wb: real, wc: real) {
    && wa >= 0.0 && wb >= 0.0 && wc >= 0.0 && wa + wb + wc == 1.0
    && p.x == wa * a.x + wb * b.x + wc * c.x
    && p.y == wa * a.y + wb * b.y + wc * c.y
  }

  /** The product of plane vectors. */
  function Cross(ux: real, uy: real, vx: real, vy: real): real {
    ux * vy - uy * vx
  }

  /** The signs, seen from `p`. */
  lemma SignFromPoint(p: Point, v1: Point, v2: Point)
    ensures CrossSign(p, v1, v2) == Cross(v1.x - p.x, v1.y - p.y, v2.x - p.x, v2.y - p.y)
  {
    var x1, y1, x2, y2 := v1.x - p.x, v1.y - p.y, v2.x - p.x, v2.y - p.y;
    assert CrossSign(p, v1, v2) == (x2 - x1) * (-y1) - (y2 - y1) * (-x1);
  }

  /** The three signs add up to the area, wherever `p` is. */
  lemma SignsAddUp(p: Point, a: Point, b: Point, c: Point)
    ensures CrossSign(p, a, b) + CrossSign(p, b, c) + CrossSign(p, c, a) == Area2(a, b, c)
  {
    var x2, y2, x3, y3, px, py := b.x - a.x, b.y - a.y, c.x - a.x, c.y - a.y, p.x - a.x, p.y - a.y;
    assert CrossSign(p, a, b) == x2 * py - y2 * px;
    assert CrossSign(p, b, c) == (x3 - x2) * (py - y2) - (y3 - y2) * (px - x2);
    assert CrossSign(p, c, a) == (-x3) * (py - y3) - (-y3) * (px - x3);
    assert Area2(a, b, c) == x2 * y3 - y2 * x3;
  }

  /** Three plane vectors, each weighted by the product of the other two, cancel out. */
  lemma CyclicIdentity(x1: real, y1: real, x2: real, y2: real, x3: real, y3: real)
    ensures Cross(x2, y2, x3, y3) * x1 + Cross(x3, y3, x1, y1) * x2 + Cross(x1, y1, x2, y2) * x3 == 0.0
    ensures Cross(x2, y2, x3, y3) * y1 + Cross(x3, y3, x1, y1) * y2 + Cross(x1, y1, x2, y2) * y3 == 0.0
  {
  }

  /** Inside, whatever the order of the corners: no sign opposes the sign of the area. */
  lemma HullBySigns(p: Point, a: Point, b: Point, c: Point)
    requires PointInTriangle(p, a, b, c) && Area2(a, b, c) != 0.0
    ensures InHull(p, a, b, c)
  {
    var d1, d2, d3, area := CrossSign(p, a, b), CrossSign(p, b, c), CrossSign(p, c, a), Area2(a, b, c);
    SignsAddUp(p, a, b, c);
    SignFromPoint(p, a, b);
    SignFromPoint(p, b, c);
    SignFromPoint(p, c, a);
    CyclicIdentity(a.x - p.x, a.y - p.y, b.x - p.x, b.y - p.y, c.x - p.x, c.y - p.y);
    MeanFromProducts(d2, d3, d1, area, a.x, b.x, c.x, p.x);
    MeanFromProducts(d2, d3, d1, area, a.y, b.y, c.y, p.y);
    Quotient(d1, area);
    Quotient(d2, area);
    Quotient(d3, area);
    assert d2 / area + d3 / area + d1 / area == 1.0 by {
      MeanFromProducts(d2, d3, d1, area, 1.0, 1.0, 1.0, 1.0);
    }
    assert Weighs(p, a, b, c, d2 / area, d3 / area, d1 / area);
  }

  lemma Quotient(d: real, area: real)
    requires area != 0.0 && (area > 0.0 ==> d >= 0.0) && (area < 0.0 ==> d <= 0.0)
    ensures d / area >= 0.0
  {
  }

  /** If the products with the differences cancel, the quotients are the weights of a mean. */
  lemma MeanFromProducts(k1: real, k2: real, k3: real, area: real, a: real, b: real, c: real, p: real)
    requires area != 0.0 && k1 + k2 + k3 == area
    requires k1 * (a - p) + k2 * (b - p) + k3 * (c - p) == 0.0
    ensures p == (k1 / area) * a + (k2 / area) * b + (k3 / area) * c
  {
    var wa, wb, wc := k1 / area, k2 / area, k3 / area;
    assert wa * area == k1 && wb * area == k2 && wc * area == k3;
    var mean := wa * a + wb * b + wc * c;
    assert area * mean == k1 * a + k2 * b + k3 * c by {
      assert area * (wa * a) == k1 * a && area * (wb * b) == k2 * b && area * (wc * c) == k3 * c;
    }
    assert k1 * a + k2 * b + k3 * c == (k1 + k2 + k3) * p;
    assert area * (mean - p) == 0.0;
  }

  /** The sign of an edge at a weighted mean is the opposite corner's weight times the area. */
  lemma SignOfMean(p: Point, a: Point, b: Point, c: Point, wa: real, wb: real, wc: real)
    requires Weighs(p, a, b, c, wa, wb, wc)
    ensures CrossSign(p, a, b) == wc * Area2(a, b, c)
  {
    var x2, y2, x3, y3 := b.x - a.x, b.y - a.y, c.x - a.x, c.y - a.y;
    assert p.x - a.x == wb * x2 + wc * x3 by {
      assert wa * a.x == a.x - wb * a.x - wc * a.x;
    }
    assert p.y - a.y == wb * y2 + wc * y3 by {
      assert wa * a.y == a.y - wb * a.y - wc * a.y;
    }
    assert x2 * (wb * y2 + wc * y3) - y2 * (wb * x2 + wc * x3) == wc * (x2 * y3 - y2 * x3);
  }

  lemma AreaOfRotation(a: Point, b: Point, c: Point)
    ensures Area2(b, c, a) == Area2(a, b, c)
  {
    SignsAddUp(a, a, b, c);
    SignsAddUp(a, b, c, a);
  }

  lemma SignsOfHull(p: Point, a: Point, b: Point, c: Point)
    requires InHull(p, a, b, c)
    ensures PointInTriangle(p, a, b, c)
  {
    var wa, wb, wc :| Weighs(p, a, b, c, wa, wb, wc);
    SignOfMean(p, a, b, c, wa, wb, wc);
    SignOfMean(p, b, c, a, wb, wc, wa);
    SignOfMean(p, c, a, b, wc, wa, wb);
    AreaOfRotation(a, b, c);
    AreaOfRotation(b, c, a);
    var area := Area2(a, b, c);
    SignOfProduct(wa, area);
    SignOfProduct(wb, area);
    SignOfProduct(wc, area);
  }

  lemma SignOfProduct(w: real, area: real)
    requires w >= 0.0
    ensures area >= 0.0 ==> w * area >= 0.0
    ensures area <= 0.0 ==> w * area <= 0.0
  {
  }

  /** For every triangle that is not flat, in either orientation, the sign test is membership in
      the convex hull of the corners. */
  lemma PointInTriangleIffInHull(p: Point, a: Point, b: Point, c: Point)
    requires Area2(a, b, c) != 0.0
    ensures PointInTriangle(p, a, b, c) <==> InHull(p, a, b, c)
  {
    if PointInTriangle(p, a, b, c) {
      HullBySigns(p, a, b, c);
    }
    if InHull(p, a, b, c) {
      SignsOfHull(p, a, b, c);
    }
  }

  /** For a flat triangle the test asks only whether `p` is on the lines through its sides. */
  lemma FlatTriangleIff(p: Point, a: Point, b: Point, c: Point)
    requires Area2(a, b, c) == 0.0
    ensures PointInTriangle(p, a, b, c) <==>
      CrossSign(p, a, b) == 0.0 && CrossSign(p, b, c) == 0.0 && CrossSign(p, c, a) == 0.0
  {
    SignsAddUp(p, a, b, c);
  }

  lemma HullStaysBelow(p: Point, a: Point, b: Point, c: Point, top: real)
    requires InHull(p, a, b, c)
    requires a.y <= top && b.y <= top && c.y <= top
    ensures p.y <= top
  {
    var wa, wb, wc :| Weighs(p, a, b, c, wa, wb, wc);
    MeanStaysBelow(wa, wb, wc, a.y, b.y, c.y, top);
  }

  lemma MeanStaysBelow(wa: real, wb: real, wc: real, ya: real, yb: real, yc: real, top: real)
    requires wa >= 0.0 && wb >= 0.0 && wc >= 0.0 && wa + wb + wc == 1.0
    requires ya <= top && yb <= top && yc <= top
    ensures wa * ya + wb * yb + wc * yc <= top
  {
    var a, b, c := wa * (top - ya), wb * (top - yb), wc * (top - yc);
    assert a >= 0.0 && b >= 0.0 && c >= 0.0;
    assert wa * ya + wb * yb + wc * yc == (wa + wb + wc) * top - a - b - c;
  }

  lemma OnVerticalLine(p: Point, v1: Point, v2: Point)
    requires p.x == v1.x == v2.x
    ensures CrossSign(p, v1, v2) == 0.0
  {
  }

  /** A flat triangle can accept a point far outside its hull. */
  lemma FlatTriangleIsNotItsHull()
    ensures var a, b, c, p := Point(0.0, 0.0), Point(0.0, -80.0), Point(0.0, 80.0), Point(0.0, 1000.0);
      Area2(a, b, c) == 0.0 && PointInTriangle(p, a, b, c) && !InHull(p, a, b, c)
  {
    hide CrossSign, Weighs, SignsAgree;
    var a, b, c, p := Point(0.0, 0.0), Point(0.0, -80.0), Point(0.0, 80.0), Point(0.0, 1000.0);
    OnVerticalLine(p, a, b);
    OnVerticalLine(p, b, c);
    OnVerticalLine(p, c, a);
    OnVerticalLine(c, a, b);
    FlatTriangleIff(p, a, b, c);
    if InHull(p, a, b, c) {
      HullStaysBelow(p, a, b, c, 80.0);
    }
  }

  /** A hover far below a target of height 50 is suppressed, since the last one was straight above
      the near edge. */
  lemma FarHoverIsSuppressed()
    ensures var s := State(Some(Rect(0.0, 0.0, 100.0, 50.0)), Some(Point(0.0, -10.0)), false);
      AfterHover(s, Point(0.0, 1000.0)).suppressing
  {
    var s, p := State(Some(Rect(0.0, 0.0, 100.0, 50.0)), Some(Point(0.0, -10.0)), false), Point(0.0, 1000.0);
    assert NearX(s.target.value, s.last.value) == 0.0;
    assert DistanceSquared(p, s.last.value) == 1010.0 * 1010.0;
    hide NearX, InSafeTriangle, DistanceSquared;
    FlatWedgeIff(s.target.value, s.last.value, p);
  }
}
