/** Segments in the plane with exact coordinates: the orientation test decides whether two segments meet. */
module Segment {

  datatype Point = Point(x: real, y: real)

  datatype Line = Line(first: Point, second: Point)

  function Min(a: real, b: real): real { if b < a then b else a }

  function Max(a: real, b: real): real { if a < b then b else a }

  function Cross(a: Point, b: Point, c: Point): (d: real) {
    (b.x - a.x) * (c.y - a.y) - (b.y - a.y) * (c.x - a.x)
  }

  /** on_segment: p lies in the bounding box of a and b. */
  predicate OnSegment(a: Point, b: Point, p: Point) {
    Min(a.x, b.x) <= p.x <= Max(a.x, b.x) && Min(a.y, b.y) <= p.y <= Max(a.y, b.y)
  }

  predicate Opposite(d: real, e: real) {
    (d > 0.0 && e < 0.0) || (d < 0.0 && e > 0.0)
  }

  predicate Intersects(l1: Line, l2: Line) {
    var d1 := Cross(l1.first, l1.second, l2.first);
    var d2 := Cross(l1.first, l1.second, l2.second);
    var d3 := Cross(l2.first, l2.second, l1.first);
    var d4 := Cross(l2.first, l2.second, l1.second);
    (Opposite(d1, d2) && Opposite(d3, d4)) ||
    (d1 == 0.0 && OnSegment(l1.first, l1.second, l2.first)) ||
    (d2 == 0.0 && OnSegment(l1.first, l1.second, l2.second)) ||
    (d3 == 0.0 && OnSegment(l2.first, l2.second, l1.first)) ||
    (d4 == 0.0 && OnSegment(l2.first, l2.second, l1.second))
  }

  /** The point at parameter t of the line through l. */
  function At(l: Line, t: real): Point {
    Point(l.first.x + t * (l.second.x - l.first.x), l.first.y + t * (l.second.y - l.first.y))
  }

  /** p is a point of the closed segment l. */
  ghost predicate Lies(p: Point, l: Line) {
    exists t: real :: 0.0 <= t <= 1.0 && p == At(l, t)
  }

  ghost predicate Meet(l1: Line, l2: Line) {
    exists p :: Lies(p, l1) && Lies(p, l2)
  }

  lemma Ratio(n: real, d: real) returns (t: real)
    requires d != 0.0 && (0.0 <= n <= d || d <= n <= 0.0)
    ensures 0.0 <= t <= 1.0 && t * d == n
  {
    t := n / d;
  }

  lemma Cancel(k: real, a: real, b: real)
    requires k != 0.0 && k * a == k * b
    ensures a == b
  {}

  lemma SameFraction(dx: real, dy: real, qx: real, qy: real, t: real)
    requires dx != 0.0 && dx * qy - dy * qx == 0.0 && t * dx == qx
    ensures qy == t * dy
  {
    assert dx * (t * dy) == dy * (t * dx);
    Cancel(dx, qy, t * dy);
  }

  lemma WithinX(a: Point, b: Point, p: Point)
    requires Cross(a, b, p) == 0.0 && Min(a.x, b.x) <= p.x <= Max(a.x, b.x) && b.x != a.x
    ensures Lies(p, Line(a, b))
  {
    var t := Ratio(p.x - a.x, b.x - a.x);
    SameFraction(b.x - a.x, b.y - a.y, p.x - a.x, p.y - a.y, t);
    assert p == At(Line(a, b), t);
  }

  lemma WithinY(a: Point, b: Point, p: Point)
    requires Cross(a, b, p) == 0.0 && Min(a.y, b.y) <= p.y <= Max(a.y, b.y) && b.y != a.y
    ensures Lies(p, Line(a, b))
  {
    var t := Ratio(p.y - a.y, b.y - a.y);
    SameFraction(b.y - a.y, b.x - a.x, p.y - a.y, p.x - a.x, t);
    assert p == At(Line(a, b), t);
  }

  /** A collinear point in the box is on the segment, degenerate segments included. */
  lemma BoxOnLineLies(a: Point, b: Point, p: Point)
    requires Cross(a, b, p) == 0.0 && OnSegment(a, b, p)
    ensures Lies(p, Line(a, b))
  {
    hide Cross;
    if b.x != a.x {
      WithinX(a, b, p);
    } else if b.y != a.y {
      WithinY(a, b, p);
    } else {
      assert p == At(Line(a, b), 0.0);
    }
  }

  lemma Shrink(t: real, x: real, k: real)
    requires 0.0 <= t <= 1.0 && x >= 0.0 && k == t * x
    ensures 0.0 <= k <= x
  {
    NonNegative(t, x);
    NonNegative(1.0 - t, x);
    assert (1.0 - t) * x == x - t * x;
  }

  lemma NonNegative(a: real, b: real)
    requires a >= 0.0 && b >= 0.0
    ensures a * b >= 0.0
  {}

  lemma Between(a: real, b: real, t: real)
    requires 0.0 <= t <= 1.0
    ensures Min(a, b) <= a + t * (b - a) <= Max(a, b)
  {
    var k := t * (b - a);
    if a <= b {
      Shrink(t, b - a, k);
    } else {
      Shrink(t, a - b, -k);
    }
  }

  lemma LiesInBox(a: Point, b: Point, t: real)
    requires 0.0 <= t <= 1.0
    ensures Cross(a, b, At(Line(a, b), t)) == 0.0 && OnSegment(a, b, At(Line(a, b), t))
  {
    Between(a.x, b.x, t);
    Between(a.y, b.y, t);
    CrossAt(a, b, t);
  }

  lemma CrossAt(a: Point, b: Point, t: real)
    ensures Cross(a, b, At(Line(a, b), t)) == 0.0
  {
    var (rx, ry) := (b.x - a.x, b.y - a.y);
    assert rx * (t * ry) == ry * (t * rx);
  }

  /** If a t-fraction and a u-fraction of E are n and -m, a relation between E, n and m divides by E. */
  lemma Divide(e: real, a: real, t: real, r: real, u: real, s: real, n: real, m: real)
    requires e != 0.0 && t * e == n && u * e == -m
    requires e * a + n * r + m * s == 0.0
    ensures a + t * r - u * s == 0.0
  {
    assert e * (a + t * r - u * s) == e * a + (t * e) * r - (u * e) * s;
    Cancel(e, a + t * r - u * s, 0.0);
  }

  /** Both pairs of endpoints strictly on opposite sides: the lines cross inside both segments. */
  lemma CrossingMeets(l1: Line, l2: Line)
    requires Opposite(Cross(l1.first, l1.second, l2.first), Cross(l1.first, l1.second, l2.second))
    requires Opposite(Cross(l2.first, l2.second, l1.first), Cross(l2.first, l2.second, l1.second))
    ensures Meet(l1, l2)
  {
    var (a, b, c, d) := (l1.first, l1.second, l2.first, l2.second);
    var (d1, d2, d3, d4) := (Cross(a, b, c), Cross(a, b, d), Cross(c, d, a), Cross(c, d, b));
    var e := d3 - d4;
    CrossSum(a, b, c, d);
    var t := Ratio(d3, e);
    var u := Ratio(-d1, e);
    var (rx, ry, sx, sy) := (b.x - a.x, b.y - a.y, d.x - c.x, d.y - c.y);
    CrossIdentity(a, b, c, d);
    Divide(e, a.x - c.x, t, rx, u, sx, d3, d1);
    Divide(e, a.y - c.y, t, ry, u, sy, d3, d1);
    assert At(l1, t) == At(l2, u);
    assert Lies(At(l1, t), l1) && Lies(At(l1, t), l2);
  }

  /** Both differences of orientations are the cross product of the directions. */
  lemma CrossSum(a: Point, b: Point, c: Point, d: Point)
    ensures Cross(c, d, a) - Cross(c, d, b) == Cross(a, b, d) - Cross(a, b, c)
    ensures Cross(c, d, a) - Cross(c, d, b) == (b.x - a.x) * (d.y - c.y) - (b.y - a.y) * (d.x - c.x)
  {}

  lemma CrossIdentity(a: Point, b: Point, c: Point, d: Point)
    ensures var e := Cross(c, d, a) - Cross(c, d, b);
            e * (a.x - c.x) + Cross(c, d, a) * (b.x - a.x) + Cross(a, b, c) * (d.x - c.x) == 0.0 &&
            e * (a.y - c.y) + Cross(c, d, a) * (b.y - a.y) + Cross(a, b, c) * (d.y - c.y) == 0.0
  {
    var (rx, ry, sx, sy, wx, wy) := (b.x - a.x, b.y - a.y, d.x - c.x, d.y - c.y, a.x - c.x, a.y - c.y);
    CrossSum(a, b, c, d);
    assert Cross(c, d, a) == sx * wy - sy * wx;
    assert Cross(a, b, c) == ry * wx - rx * wy;
  }

  /** The cross product of the two directions. */
  function Det(l1: Line, l2: Line): real {
    (l1.second.x - l1.first.x) * (l2.second.y - l2.first.y) - (l1.second.y - l1.first.y) * (l2.second.x - l2.first.x)
  }

  lemma Eliminate(sx: real, sy: real, rx: real, ry: real, u: real, t: real, wx: real, wy: real)
    requires wx == u * sx - t * rx && wy == u * sy - t * ry
    ensures sx * wy - sy * wx == t * (rx * sy - ry * sx)
  {
    assert sx * (u * sy) == sy * (u * sx);
    assert sx * (t * ry) == t * (ry * sx) && sy * (t * rx) == t * (rx * sy);
  }

  lemma FourOrientations(rx: real, ry: real, sx: real, sy: real, wx: real, wy: real, t: real, u: real,
                         e: real, d1: real, d2: real, d3: real, d4: real)
    requires wx + t * rx == u * sx && wy + t * ry == u * sy
    requires e == rx * sy - ry * sx && d3 == sx * wy - sy * wx && d1 == ry * wx - rx * wy
    requires d3 - d4 == e && d2 - d1 == e
    ensures d3 == t * e && d4 == (t - 1.0) * e && d1 == -u * e && d2 == (1.0 - u) * e
  {
    Eliminate(sx, sy, rx, ry, u, t, wx, wy);
    Eliminate(rx, ry, sx, sy, -t, -u, wx, wy);
  }

  lemma CrossForms(l1: Line, l2: Line)
    ensures var (rx, ry) := (l1.second.x - l1.first.x, l1.second.y - l1.first.y);
            var (sx, sy) := (l2.second.x - l2.first.x, l2.second.y - l2.first.y);
            var (wx, wy) := (l1.first.x - l2.first.x, l1.first.y - l2.first.y);
            Cross(l2.first, l2.second, l1.first) == sx * wy - sy * wx &&
            Cross(l1.first, l1.second, l2.first) == ry * wx - rx * wy &&
            Det(l1, l2) == rx * sy - ry * sx
    ensures Cross(l2.first, l2.second, l1.first) - Cross(l2.first, l2.second, l1.second) == Det(l1, l2)
    ensures Cross(l1.first, l1.second, l2.second) - Cross(l1.first, l1.second, l2.first) == Det(l1, l2)
  {
    CrossSum(l1.first, l1.second, l2.first, l2.second);
  }

  lemma CommonPoint(l1: Line, l2: Line, t: real, u: real)
    requires At(l1, t) == At(l2, u)
    ensures (l1.first.x - l2.first.x) + t * (l1.second.x - l1.first.x) == u * (l2.second.x - l2.first.x)
    ensures (l1.first.y - l2.first.y) + t * (l1.second.y - l1.first.y) == u * (l2.second.y - l2.first.y)
  {}

  /** A common point at parameters t and u determines all four orientations. */
  lemma OrientationsAtMeeting(l1: Line, l2: Line, t: real, u: real)
    requires At(l1, t) == At(l2, u)
    ensures var (a, b, c, d) := (l1.first, l1.second, l2.first, l2.second);
            var e := Det(l1, l2);
            Cross(c, d, a) == t * e && Cross(c, d, b) == (t - 1.0) * e &&
            Cross(a, b, c) == -u * e && Cross(a, b, d) == (1.0 - u) * e
  {
    hide Cross, At, Det;
    var (a, b, c, d) := (l1.first, l1.second, l2.first, l2.second);
    CrossForms(l1, l2);
    CommonPoint(l1, l2, t, u);
    FourOrientations(b.x - a.x, b.y - a.y, d.x - c.x, d.y - c.y, a.x - c.x, a.y - c.y, t, u, Det(l1, l2),
                     Cross(a, b, c), Cross(a, b, d), Cross(c, d, a), Cross(c, d, b));
  }

  function Flip(p: Point): Point { Point(p.y, p.x) }

  function FlipLine(l: Line): Line { Line(Flip(l.first), Flip(l.second)) }

  lemma FlipKeepsTest(l1: Line, l2: Line)
    ensures Intersects(FlipLine(l1), FlipLine(l2)) == Intersects(l1, l2)
  {
    var (a, b, c, d) := (l1.first, l1.second, l2.first, l2.second);
    FlipCross(a, b, c);
    FlipCross(a, b, d);
    FlipCross(c, d, a);
    FlipCross(c, d, b);
  }

  lemma FlipCross(a: Point, b: Point, c: Point)
    ensures Cross(Flip(a), Flip(b), Flip(c)) == -Cross(a, b, c)
  {}

  /** On one non-vertical line, being between in x is being on the segment. */
  lemma BetweenInX(a: Point, b: Point, q: Point)
    requires Cross(a, b, q) == 0.0 && a.x != b.x && Min(a.x, b.x) <= q.x <= Max(a.x, b.x)
    ensures OnSegment(a, b, q)
  {
    var t := Ratio(q.x - a.x, b.x - a.x);
    SameFraction(b.x - a.x, b.y - a.y, q.x - a.x, q.y - a.y, t);
    Between(a.y, b.y, t);
  }

  lemma ParallelX(rx: real, ry: real, sx: real, sy: real)
    requires rx * sy - ry * sx == 0.0 && rx != 0.0 && (sx != 0.0 || sy != 0.0)
    ensures sx != 0.0
  {
    if sx == 0.0 {
      Cancel(rx, sy, 0.0);
    }
  }

  /** Two overlapping collinear segments: one of the four endpoints is on the other segment. */
  lemma OverlapX(l1: Line, l2: Line, p: Point)
    requires AllCollinear(l1, l2) && l1.first.x != l1.second.x && l2.first.x != l2.second.x
    requires OnSegment(l1.first, l1.second, p) && OnSegment(l2.first, l2.second, p)
    ensures Intersects(l1, l2)
  {
    hide Cross;
    var (a, b, c, d) := (l1.first, l1.second, l2.first, l2.second);
    if Min(a.x, b.x) <= c.x <= Max(a.x, b.x) {
      BetweenInX(a, b, c);
    } else if Min(a.x, b.x) <= d.x <= Max(a.x, b.x) {
      BetweenInX(a, b, d);
    } else {
      assert Min(c.x, d.x) <= a.x <= Max(c.x, d.x);
      BetweenInX(c, d, a);
    }
  }

  predicate AllCollinear(l1: Line, l2: Line) {
    Cross(l1.first, l1.second, l2.first) == 0.0 && Cross(l1.first, l1.second, l2.second) == 0.0 &&
    Cross(l2.first, l2.second, l1.first) == 0.0 && Cross(l2.first, l2.second, l1.second) == 0.0
  }

  lemma FlipCollinear(l1: Line, l2: Line)
    requires AllCollinear(l1, l2)
    ensures AllCollinear(FlipLine(l1), FlipLine(l2))
  {
    FlipCross(l1.first, l1.second, l2.first);
    FlipCross(l1.first, l1.second, l2.second);
    FlipCross(l2.first, l2.second, l1.first);
    FlipCross(l2.first, l2.second, l1.second);
  }

  lemma ParallelMeeting(l1: Line, l2: Line, t: real, u: real)
    requires At(l1, t) == At(l2, u) && Det(l1, l2) == 0.0
    ensures AllCollinear(l1, l2)
  {
    OrientationsAtMeeting(l1, l2, t, u);
  }

  lemma SameAxis(l1: Line, l2: Line)
    requires Det(l1, l2) == 0.0 && l1.first != l1.second && l2.first != l2.second
    ensures l1.first.x != l1.second.x ==> l2.first.x != l2.second.x
    ensures l1.first.x == l1.second.x ==> l1.first.y != l1.second.y && l2.first.y != l2.second.y
  {
    var (rx, ry) := (l1.second.x - l1.first.x, l1.second.y - l1.first.y);
    var (sx, sy) := (l2.second.x - l2.first.x, l2.second.y - l2.first.y);
    if rx != 0.0 {
      ParallelX(rx, ry, sx, sy);
    } else {
      ParallelX(ry, rx, sy, sx);
    }
  }

  lemma CollinearMeeting(l1: Line, l2: Line, t: real, u: real)
    requires 0.0 <= t <= 1.0 && 0.0 <= u <= 1.0 && At(l1, t) == At(l2, u)
    requires Det(l1, l2) == 0.0 && l1.first != l1.second && l2.first != l2.second
    ensures Intersects(l1, l2)
  {
    hide Cross, At, Det, Intersects;
    var p := At(l1, t);
    ParallelMeeting(l1, l2, t, u);
    SameAxis(l1, l2);
    LiesInBox(l1.first, l1.second, t);
    LiesInBox(l2.first, l2.second, u);
    if l1.first.x != l1.second.x {
      OverlapX(l1, l2, p);
    } else {
      FlipCollinear(l1, l2);
      OverlapX(FlipLine(l1), FlipLine(l2), Flip(p));
      FlipKeepsTest(l1, l2);
    }
  }

  /** A common point at an end of either segment is found by the endpoint tests. */
  lemma EndMeeting(l1: Line, l2: Line, t: real, u: real)
    requires 0.0 <= t <= 1.0 && 0.0 <= u <= 1.0 && At(l1, t) == At(l2, u)
    requires t == 0.0 || t == 1.0 || u == 0.0 || u == 1.0
    ensures Intersects(l1, l2)
  {
    LiesInBox(l1.first, l1.second, t);
    LiesInBox(l2.first, l2.second, u);
    assert At(l1, 0.0) == l1.first && At(l1, 1.0) == l1.second;
    assert At(l2, 0.0) == l2.first && At(l2, 1.0) == l2.second;
  }

  lemma InnerMeeting(l1: Line, l2: Line, t: real, u: real)
    requires 0.0 < t < 1.0 && 0.0 < u < 1.0 && At(l1, t) == At(l2, u)
    ensures Intersects(l1, l2)
  {
    hide Cross, Det, Intersects, At;
    if l1.first == l1.second {
      DegenerateAt(l1, t);
      EndMeeting(l1, l2, 0.0, u);
    } else if l2.first == l2.second {
      DegenerateAt(l2, u);
      EndMeeting(l1, l2, t, 0.0);
    } else if Det(l1, l2) == 0.0 {
      CollinearMeeting(l1, l2, t, u);
    } else {
      ProperMeeting(l1, l2, t, u);
    }
  }

  lemma DegenerateAt(l: Line, t: real)
    requires l.first == l.second
    ensures At(l, t) == At(l, 0.0)
  {}

  lemma ProperMeeting(l1: Line, l2: Line, t: real, u: real)
    requires 0.0 < t < 1.0 && 0.0 < u < 1.0 && At(l1, t) == At(l2, u) && Det(l1, l2) != 0.0
    ensures Intersects(l1, l2)
  {
    hide Cross, Det, At;
    var e := Det(l1, l2);
    OrientationsAtMeeting(l1, l2, t, u);
    Signs(t, e);
    Signs(u, -e);
    assert -u * e == u * -e && (1.0 - u) * e == (u - 1.0) * -e;
  }

  lemma Signs(t: real, e: real)
    requires 0.0 < t < 1.0 && e != 0.0
    ensures Opposite(t * e, (t - 1.0) * e)
  {}

  /** The segment test is exact: it holds if and only if the closed segments share a point. */
  lemma IntersectsIffMeet(l1: Line, l2: Line)
    ensures Intersects(l1, l2) <==> Meet(l1, l2)
  {
    var (a, b, c, d) := (l1.first, l1.second, l2.first, l2.second);
    if Intersects(l1, l2) {
      EndsLie(l1);
      EndsLie(l2);
      if Cross(a, b, c) == 0.0 && OnSegment(a, b, c) {
        BoxOnLineLies(a, b, c);
      } else if Cross(a, b, d) == 0.0 && OnSegment(a, b, d) {
        BoxOnLineLies(a, b, d);
      } else if Cross(c, d, a) == 0.0 && OnSegment(c, d, a) {
        BoxOnLineLies(c, d, a);
      } else if Cross(c, d, b) == 0.0 && OnSegment(c, d, b) {
        BoxOnLineLies(c, d, b);
      } else {
        CrossingMeets(l1, l2);
      }
    }
    if Meet(l1, l2) {
      var p :| Lies(p, l1) && Lies(p, l2);
      var t: real :| 0.0 <= t <= 1.0 && p == At(l1, t);
      var u: real :| 0.0 <= u <= 1.0 && p == At(l2, u);
      if t == 0.0 || t == 1.0 || u == 0.0 || u == 1.0 {
        EndMeeting(l1, l2, t, u);
      } else {
        InnerMeeting(l1, l2, t, u);
      }
    }
  }

  lemma EndsLie(l: Line)
    ensures Lies(l.first, l) && Lies(l.second, l)
  {
    assert l.first == At(l, 0.0) && l.second == At(l, 1.0);
  }

  lemma IntersectsIsSymmetric(l1: Line, l2: Line)
    ensures Intersects(l1, l2) == Intersects(l2, l1)
  {
    IntersectsIffMeet(l1, l2);
    IntersectsIffMeet(l2, l1);
    assert Meet(l1, l2) <==> Meet(l2, l1);
  }
}
