/** The line intersection formula and the cut of a segment by a line. */
module LineCut {
  import opened Segment

  datatype Option<T> = None | Some(value: T)

  function Abs(a: real): real { if a < 0.0 then -a else a }

  const TOLERANCE: real := 0.000000000001

  function Scale(l: Line): (r: real)
    ensures r >= 0.0
  {
    Max(Abs(l.second.x - l.first.x), Abs(l.second.y - l.first.y))
  }

  function Numerator(first: Line, second: Line): real {
    (second.second.x - second.first.x) * (first.first.y - second.first.y)
    - (second.second.y - second.first.y) * (first.first.x - second.first.x)
  }

  /** intersections: none when the directions are parallel up to the tolerance. */
  function Intersection(first: Line, second: Line): (r: Option<Point>) {
    var scale := Scale(first) * Scale(second);
    var denominator := Det(first, second);
    if scale == 0.0 || Abs(denominator) < TOLERANCE * scale then None
    else
      NonNegative(Scale(first), Scale(second));
      Some(At(first, Numerator(first, second) / denominator))
  }

  /** cut: the part of `cutted` kept on the chosen side of `cutting`. */
  function Cut(cutted: Line, cutting: Line, leftForward: bool): (r: Line) {
    var point := Intersection(cutted, cutting);
    if point.None? || !OnSegment(cutted.first, cutted.second, point.value) then cutted
    else
      var side := Cross(cutting.first, cutting.second, cutted.first);
      if leftForward == (side > 0.0) then Line(point.value, cutted.first)
      else Line(cutted.second, point.value)
  }

  predicate OnLine(p: Point, l: Line) {
    Cross(l.first, l.second, p) == 0.0
  }

  /** The orientation against a line is affine along another line. */
  lemma Affine(l: Line, m: Line, t: real)
    ensures Cross(m.first, m.second, At(l, t)) == Cross(m.first, m.second, l.first) - t * Det(l, m)
  {
    hide At;
    var (sx, sy) := (m.second.x - m.first.x, m.second.y - m.first.y);
    var (rx, ry) := (l.second.x - l.first.x, l.second.y - l.first.y);
    assert At(l, t).x == l.first.x + t * rx && At(l, t).y == l.first.y + t * ry by { AtParts(l, t); }
    assert sx * (t * ry) - sy * (t * rx) == -(t * (rx * sy - ry * sx));
  }

  lemma AtParts(l: Line, t: real)
    ensures At(l, t).x == l.first.x + t * (l.second.x - l.first.x)
    ensures At(l, t).y == l.first.y + t * (l.second.y - l.first.y)
  {}

  lemma FormulaParameter(first: Line, second: Line) returns (ua: real)
    requires Intersection(first, second).Some?
    ensures Intersection(first, second) == Some(At(first, ua)) && Det(first, second) != 0.0
    ensures ua * Det(first, second) == Cross(second.first, second.second, first.first)
  {
    hide At, Det, Cross, Scale, Numerator;
    NumeratorIsCross(first, second);
    NonNegative(Scale(first), Scale(second));
    ua := Numerator(first, second) / Det(first, second);
  }

  lemma NumeratorIsCross(first: Line, second: Line)
    ensures Numerator(first, second) == Cross(second.first, second.second, first.first)
  {}

  /** The returned point is on both lines and is the only such point. */
  lemma IntersectionIsTheCommonPoint(first: Line, second: Line, q: Point)
    ensures Intersection(first, second).Some? ==>
              (OnLine(q, first) && OnLine(q, second) <==> q == Intersection(first, second).value)
  {
    hide Intersection, At, Cross, Det;
    if Intersection(first, second).None? {
      return;
    }
    var ua := FormulaParameter(first, second);
    var p := At(first, ua);
    CrossAt(first.first, first.second, ua);
    Affine(first, second, ua);
    if OnLine(q, first) && OnLine(q, second) {
      DistinctEnds(first, second);
      var t := OnLineAt(first, q);
      Affine(first, second, t);
      Cancel(Det(first, second), t, ua);
    }
  }

  lemma DistinctEnds(first: Line, second: Line)
    requires Det(first, second) != 0.0
    ensures first.first != first.second && second.first != second.second
  {}

  /** Every point of a proper line has a parameter. */
  lemma OnLineAt(l: Line, q: Point) returns (t: real)
    requires l.first != l.second && Cross(l.first, l.second, q) == 0.0
    ensures q == At(l, t)
  {
    var (dx, dy) := (l.second.x - l.first.x, l.second.y - l.first.y);
    var (qx, qy) := (q.x - l.first.x, q.y - l.first.y);
    if dx != 0.0 {
      t := qx / dx;
      assert t * dx == qx;
      SameFraction(dx, dy, qx, qy, t);
    } else {
      t := qy / dy;
      assert t * dy == qy;
      SameFraction(dy, dx, qy, qx, t);
    }
  }

  /** If the segments meet, they meet at the returned point. */
  lemma IntersectionOnSegments(first: Line, second: Line)
    ensures Intersection(first, second).Some? && Intersects(first, second) ==>
              Lies(Intersection(first, second).value, first) && Lies(Intersection(first, second).value, second)
  {
    hide Intersection, Intersects, At, Cross;
    IntersectsIffMeet(first, second);
    if Intersection(first, second).None? || !Intersects(first, second) {
      return;
    }
    var p :| Lies(p, first) && Lies(p, second);
    LiesOnLine(p, first);
    LiesOnLine(p, second);
    IntersectionIsTheCommonPoint(first, second, p);
  }

  lemma LiesOnLine(p: Point, l: Line)
    requires Lies(p, l)
    ensures OnLine(p, l) && OnSegment(l.first, l.second, p)
  {
    var t: real :| 0.0 <= t <= 1.0 && p == At(l, t);
    LiesInBox(l.first, l.second, t);
  }

  ghost predicate LiesWithin(q: Point, l: Line, lo: real, hi: real) {
    exists t: real :: lo <= t <= hi && q == At(l, t)
  }

  lemma Reparam(l: Line, lo: real, hi: real, u: real)
    ensures At(Line(At(l, lo), At(l, hi)), u) == At(l, lo + u * (hi - lo))
  {
    ReparamAxis(l.first.x, l.second.x - l.first.x, lo, hi, u);
    ReparamAxis(l.first.y, l.second.y - l.first.y, lo, hi, u);
  }

  lemma ReparamAxis(a: real, d: real, lo: real, hi: real, u: real)
    ensures (a + lo * d) + u * ((a + hi * d) - (a + lo * d)) == a + (lo + u * (hi - lo)) * d
  {
    assert (a + hi * d) - (a + lo * d) == (hi - lo) * d;
    assert u * ((hi - lo) * d) == (u * (hi - lo)) * d;
  }

  /** The segment between the points at lo and hi, in either direction, is the stretch between the parameters. */
  lemma SubSegment(l: Line, lo: real, hi: real, q: Point)
    requires lo <= hi
    ensures Lies(q, Line(At(l, lo), At(l, hi))) <==> LiesWithin(q, l, lo, hi)
    ensures Lies(q, Line(At(l, hi), At(l, lo))) <==> LiesWithin(q, l, lo, hi)
  {
    hide At;
    SubSegmentForward(l, lo, hi, q);
    SubSegmentBackward(l, lo, hi, q);
  }

  lemma ReparamTo(l: Line, lo: real, hi: real, u: real, t: real)
    requires lo + u * (hi - lo) == t
    ensures At(Line(At(l, lo), At(l, hi)), u) == At(l, t)
  {
    hide At;
    Reparam(l, lo, hi, u);
  }

  lemma SubSegmentForward(l: Line, lo: real, hi: real, q: Point)
    requires lo <= hi
    ensures Lies(q, Line(At(l, lo), At(l, hi))) <==> LiesWithin(q, l, lo, hi)
  {
    hide At;
    var m := Line(At(l, lo), At(l, hi));
    if Lies(q, m) {
      var u: real :| 0.0 <= u <= 1.0 && q == At(m, u);
      Reparam(l, lo, hi, u);
      var k := u * (hi - lo);
      Shrink(u, hi - lo, k);
      assert lo <= lo + k <= hi;
    }
    if LiesWithin(q, l, lo, hi) {
      var t: real :| lo <= t <= hi && q == At(l, t);
      var u := 0.0;
      if lo < hi {
        u := Ratio(t - lo, hi - lo);
      }
      ReparamTo(l, lo, hi, u, t);
      assert q == At(m, u);
    }
  }

  lemma TurnedAxis(a: real, b: real, t: real, u: real)
    requires u == 1.0 - t
    ensures a + t * (b - a) == b + u * (a - b)
  {
    assert u * (a - b) == (a - b) - t * (a - b);
    assert t * (a - b) == -(t * (b - a));
  }

  lemma Turned(a: Point, b: Point, q: Point)
    requires Lies(q, Line(a, b))
    ensures Lies(q, Line(b, a))
  {
    hide At;
    var t: real :| 0.0 <= t <= 1.0 && q == At(Line(a, b), t);
    var u := 1.0 - t;
    TurnedAxis(a.x, b.x, t, u);
    TurnedAxis(a.y, b.y, t, u);
    AtParts(Line(a, b), t);
    AtParts(Line(b, a), u);
    assert q == At(Line(b, a), u);
  }

  lemma SubSegmentBackward(l: Line, lo: real, hi: real, q: Point)
    requires lo <= hi
    ensures Lies(q, Line(At(l, hi), At(l, lo))) <==> LiesWithin(q, l, lo, hi)
  {
    hide At;
    SubSegmentForward(l, lo, hi, q);
    if Lies(q, Line(At(l, hi), At(l, lo))) {
      Turned(At(l, hi), At(l, lo), q);
    }
    if Lies(q, Line(At(l, lo), At(l, hi))) {
      Turned(At(l, lo), At(l, hi), q);
    }
  }

  /** q is on the segment and on the kept side (closed) of the cutting line. */
  ghost predicate Kept(q: Point, cutted: Line, cutting: Line, leftForward: bool) {
    var d := Cross(cutting.first, cutting.second, q);
    Lies(q, cutted) && if leftForward then d >= 0.0 else d <= 0.0
  }

  ghost predicate CutIsExact(cutted: Line, cutting: Line, leftForward: bool) {
    forall q :: Lies(q, Cut(cutted, cutting, leftForward)) <==> Kept(q, cutted, cutting, leftForward)
  }

  predicate CutsProperly(cutted: Line, cutting: Line) {
    var point := Intersection(cutted, cutting);
    point.Some? && OnSegment(cutted.first, cutted.second, point.value)
  }

  /** The crossing point of a proper cut, by its parameter on the cut segment. */
  lemma CutParameter(cutted: Line, cutting: Line) returns (tp: real)
    requires CutsProperly(cutted, cutting)
    ensures 0.0 <= tp <= 1.0 && Intersection(cutted, cutting) == Some(At(cutted, tp))
    ensures Det(cutted, cutting) != 0.0
    ensures tp * Det(cutted, cutting) == Cross(cutting.first, cutting.second, cutted.first)
  {
    hide Intersection, At, Cross, Det;
    tp := FormulaParameter(cutted, cutting);
    var p := At(cutted, tp);
    CrossAt(cutted.first, cutted.second, tp);
    BoxOnLineLies(cutted.first, cutted.second, p);
    var t: real :| 0.0 <= t <= 1.0 && p == At(cutted, t);
    Affine(cutted, cutting, t);
    Affine(cutted, cutting, tp);
    Cancel(Det(cutted, cutting), t, tp);
  }

  /** Which parameters the kept half-plane takes. */
  lemma KeptStretch(cutted: Line, cutting: Line, leftForward: bool, tp: real, q: Point)
    requires 0.0 <= tp <= 1.0 && Det(cutted, cutting) != 0.0
    requires tp * Det(cutted, cutting) == Cross(cutting.first, cutting.second, cutted.first)
    ensures Kept(q, cutted, cutting, leftForward)
            <==> if leftForward == (Det(cutted, cutting) > 0.0) then LiesWithin(q, cutted, 0.0, tp)
                 else LiesWithin(q, cutted, tp, 1.0)
  {
    hide At, Cross, Det;
    var e := Det(cutted, cutting);
    forall t: real | q == At(cutted, t)
      ensures Cross(cutting.first, cutting.second, q) >= 0.0 <==> if e > 0.0 then t <= tp else tp <= t
      ensures Cross(cutting.first, cutting.second, q) <= 0.0 <==> if e > 0.0 then tp <= t else t <= tp
    {
      Affine(cutted, cutting, t);
      SignOfProduct(tp - t, e);
      assert (tp - t) * e == tp * e - t * e;
    }
  }

  lemma SignOfProduct(a: real, e: real)
    requires e != 0.0
    ensures a * e >= 0.0 <==> if e > 0.0 then a >= 0.0 else a <= 0.0
    ensures a * e <= 0.0 <==> if e > 0.0 then a <= 0.0 else a >= 0.0
  {}

  /**
   * A proper cut returns exactly the part of the segment in the chosen closed half-plane if and only if
   * the first end is off the cutting line or the second end is to its left.
   */
  lemma CutExactly(cutted: Line, cutting: Line, leftForward: bool)
    requires CutsProperly(cutted, cutting)
    ensures CutIsExact(cutted, cutting, leftForward) <==>
            Cross(cutting.first, cutting.second, cutted.first) != 0.0 ||
            Cross(cutting.first, cutting.second, cutted.second) > 0.0
  {
    hide Intersection, At, Cross, Det, OnSegment, Cut, Kept;
    var tp := CutParameter(cutted, cutting);
    Affine(cutted, cutting, 1.0);
    EndPoints(cutted);
    if Cross(cutting.first, cutting.second, cutted.first) == 0.0 && Det(cutted, cutting) > 0.0 {
      SidesSwapped(cutted, cutting, leftForward);
    } else {
      forall q ensures Lies(q, Cut(cutted, cutting, leftForward)) <==> Kept(q, cutted, cutting, leftForward) {
        CutPiece(cutted, cutting, leftForward, tp, q);
      }
    }
  }

  lemma CutPiece(cutted: Line, cutting: Line, leftForward: bool, tp: real, q: Point)
    requires CutsProperly(cutted, cutting) && 0.0 <= tp <= 1.0 && Det(cutted, cutting) != 0.0
    requires Intersection(cutted, cutting) == Some(At(cutted, tp))
    requires tp * Det(cutted, cutting) == Cross(cutting.first, cutting.second, cutted.first)
    requires Cross(cutting.first, cutting.second, cutted.first) == 0.0 ==> Det(cutted, cutting) < 0.0
    ensures Lies(q, Cut(cutted, cutting, leftForward)) <==> Kept(q, cutted, cutting, leftForward)
  {
    hide Intersection, At, Cross, Det, OnSegment, Kept, Lies, LiesWithin;
    EndPoints(cutted);
    KeptStretch(cutted, cutting, leftForward, tp, q);
    SubSegment(cutted, 0.0, tp, q);
    SubSegment(cutted, tp, 1.0, q);
    SignOfProduct(tp, Det(cutted, cutting));
  }

  lemma EndPoints(l: Line)
    ensures At(l, 0.0) == l.first && At(l, 1.0) == l.second
  {}

  /** With the first end on the line and the second to its right, the kept side is the wrong one. */
  lemma SidesSwapped(cutted: Line, cutting: Line, leftForward: bool)
    requires CutsProperly(cutted, cutting) && Det(cutted, cutting) > 0.0
    requires Cross(cutting.first, cutting.second, cutted.first) == 0.0
    ensures !CutIsExact(cutted, cutting, leftForward)
  {
    hide Intersection, Cross, Det, OnSegment, At;
    var tp := CutParameter(cutted, cutting);
    Cancel(Det(cutted, cutting), tp, 0.0);
    EndPoints(cutted);
    Affine(cutted, cutting, 1.0);
    DistinctEnds(cutted, cutting);
    var q := cutted.second;
    EndsLie(cutted);
    assert Kept(q, cutted, cutting, false) && !Kept(q, cutted, cutting, true);
    SubSegment(cutted, 0.0, 0.0, q);
    assert LiesWithin(q, cutted, 0.0, 0.0) ==> q == cutted.first;
    EndsLie(Line(cutted.second, cutted.first));
  }

  /** Such a cut: a unit segment that starts on the line and leaves it to the right. */
  lemma CutGoesWrong(leftForward: bool)
    ensures var cutted := Line(Point(0.0, 0.0), Point(1.0, 0.0));
            var cutting := Line(Point(0.0, 0.0), Point(0.0, 1.0));
            CutsProperly(cutted, cutting) && !CutIsExact(cutted, cutting, leftForward)
  {
    hide CutIsExact;
    var (cutted, cutting) := (Line(Point(0.0, 0.0), Point(1.0, 0.0)), Line(Point(0.0, 0.0), Point(0.0, 1.0)));
    assert Scale(cutted) == 1.0 && Scale(cutting) == 1.0 && Det(cutted, cutting) == 1.0;
    assert Numerator(cutted, cutting) == 0.0;
    CutExactly(cutted, cutting, leftForward);
  }
}
