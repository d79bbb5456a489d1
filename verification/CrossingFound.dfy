/** When the intersection formula gives a point, and what `cut` returns when it does not cut. */
module CrossingFound {
  import opened Segment
  import opened LineCut
  import opened WholeNumbers

  /** u bounds the coordinate differences of l. */
  predicate Within(l: Line, u: real) {
    -u <= l.second.x - l.first.x <= u && -u <= l.second.y - l.first.y <= u
  }

  lemma ScaleIsTheLeastBound(l: Line)
    ensures Within(l, Scale(l)) && forall u :: Within(l, u) ==> Scale(l) <= u
  {}

  lemma NoScaleNoDet(first: Line, second: Line)
    ensures Scale(first) == 0.0 || Scale(second) == 0.0 ==> Det(first, second) == 0.0
  {
    if Scale(first) == 0.0 {
      ScaleIsTheLeastBound(first);
      var (x, y) := (second.second.x - second.first.x, second.second.y - second.first.y);
      assert 0.0 * y - 0.0 * x == 0.0;
    }
    if Scale(second) == 0.0 {
      ScaleIsTheLeastBound(second);
      var (x, y) := (first.second.x - first.first.x, first.second.y - first.first.y);
      assert x * 0.0 - y * 0.0 == 0.0;
    }
  }

  lemma ProductZero(a: real, b: real)
    requires a >= 0.0 && b >= 0.0
    ensures a * b >= 0.0 && (a * b == 0.0 <==> a == 0.0 || b == 0.0)
  {}

  /** A point is returned exactly if the determinant is not zero and not small for the extent of the segments. */
  lemma FoundExactly(first: Line, second: Line)
    ensures Intersection(first, second).Some? <==>
            Det(first, second) != 0.0 && Abs(Det(first, second)) >= 0.000000000001 * (Scale(first) * Scale(second))
  {
    hide Scale, Det, At, Numerator;
    NoScaleNoDet(first, second);
    ProductZero(Scale(first), Scale(second));
  }

  lemma ParallelLinesHaveNone(first: Line, second: Line)
    requires Det(first, second) == 0.0
    ensures Intersection(first, second).None?
  {
    hide Det, Intersection;
    FoundExactly(first, second);
  }

  /** A determinant of at least 1e-12 times any bounds on the coordinate differences is large enough. */
  lemma FoundWithin(first: Line, second: Line, u: real, v: real)
    requires Within(first, u) && Within(second, v) && Det(first, second) != 0.0
    requires Det(first, second) >= 0.000000000001 * (u * v) || Det(first, second) <= -(0.000000000001 * (u * v))
    ensures Intersection(first, second).Some?
  {
    hide Scale, Det, Intersection, Within;
    ScaleIsTheLeastBound(first);
    ScaleIsTheLeastBound(second);
    ProductsBounded(Scale(first), Scale(second), u, v);
    FoundExactly(first, second);
  }

  predicate LineOnGrid(l: Line, bound: nat) {
    OnGrid(l.first, bound) && OnGrid(l.second, bound)
  }

  lemma WholeLine(l: Line, bound: nat)
    requires LineOnGrid(l, bound)
    ensures IsWhole(l.second.x - l.first.x) && IsWhole(l.second.y - l.first.y) && Within(l, 2.0 * bound as real)
  {
    hide IsWhole;
    WholeSum(l.second.x, l.first.x);
    WholeSum(l.second.y, l.first.y);
  }

  lemma WholeDeterminant(first: Line, second: Line)
    requires IsWhole(first.second.x - first.first.x) && IsWhole(first.second.y - first.first.y)
    requires IsWhole(second.second.x - second.first.x) && IsWhole(second.second.y - second.first.y)
    ensures IsWhole(Det(first, second))
  {
    var (rx, ry) := (first.second.x - first.first.x, first.second.y - first.first.y);
    var (sx, sy) := (second.second.x - second.first.x, second.second.y - second.first.y);
    WholeDet(rx, sy, ry, sx);
    assert Det(first, second) == rx * sy - ry * sx;
  }

  /** Between whole points up to 100000 in absolute value, lines have a point in common unless they are parallel. */
  lemma FoundOnGrid(first: Line, second: Line)
    requires LineOnGrid(first, 100000) && LineOnGrid(second, 100000)
    ensures Intersection(first, second).Some? <==> Det(first, second) != 0.0
  {
    hide IsWhole, OnGrid, Intersection, Within, Det;
    WholeLine(first, 100000);
    WholeLine(second, 100000);
    WholeDeterminant(first, second);
    if Det(first, second) == 0.0 {
      ParallelLinesHaveNone(first, second);
    } else {
      NothingBelowOne(Det(first, second));
      FoundWithin(first, second, 200000.0, 200000.0);
    }
  }

  /** There, two segments that cross have the returned point in common. */
  lemma CrossingOnGrid(first: Line, second: Line)
    requires LineOnGrid(first, 100000) && LineOnGrid(second, 100000)
    requires Intersects(first, second) && Det(first, second) != 0.0
    ensures var p := Intersection(first, second);
            p.Some? && Lies(p.value, first) && Lies(p.value, second)
  {
    hide OnGrid, Intersection, Intersects, Det, Lies;
    FoundOnGrid(first, second);
    IntersectionOnSegments(first, second);
  }

  /** The formula's point is on the segment to be cut if and only if the cutting line passes through the segment. */
  lemma CutsProperlyExactly(cutted: Line, cutting: Line)
    ensures CutsProperly(cutted, cutting) <==>
            Intersection(cutted, cutting).Some? && exists q :: Lies(q, cutted) && OnLine(q, cutting)
  {
    hide Intersection, At, Cross, Det, OnSegment;
    if CutsProperly(cutted, cutting) {
      var tp := CutParameter(cutted, cutting);
      var q := At(cutted, tp);
      IntersectionIsTheCommonPoint(cutted, cutting, q);
      assert Lies(q, cutted) && OnLine(q, cutting);
    }
    if Intersection(cutted, cutting).Some? && exists q :: Lies(q, cutted) && OnLine(q, cutting) {
      var q :| Lies(q, cutted) && OnLine(q, cutting);
      LiesOnLine(q, cutted);
      IntersectionIsTheCommonPoint(cutted, cutting, q);
    }
  }

  /** A cut that is not proper leaves the segment whole, in its own direction, whatever side is asked for. */
  lemma UncutStaysWhole(cutted: Line, cutting: Line, leftForward: bool, q: Point)
    requires !CutsProperly(cutted, cutting)
    ensures Cut(cutted, cutting, leftForward).first == cutted.first
    ensures Cut(cutted, cutting, leftForward).second == cutted.second
    ensures Lies(q, Cut(cutted, cutting, leftForward)) <==> Lies(q, cutted)
  {
    hide Intersection, At, Cross, OnSegment, Lies;
  }

  /** On the grid, a segment comes back whole if the cutting line is parallel to it or passes it by. */
  lemma UncutOnGrid(cutted: Line, cutting: Line, leftForward: bool)
    requires LineOnGrid(cutted, 100000) && LineOnGrid(cutting, 100000)
    requires Det(cutted, cutting) == 0.0 || !exists q :: Lies(q, cutted) && OnLine(q, cutting)
    ensures forall q :: Lies(q, Cut(cutted, cutting, leftForward)) <==> Lies(q, cutted)
  {
    hide OnGrid, Intersection, Det, Lies, Cut, OnLine;
    FoundOnGrid(cutted, cutting);
    CutsProperlyExactly(cutted, cutting);
    forall q ensures Lies(q, Cut(cutted, cutting, leftForward)) <==> Lies(q, cutted) {
      UncutStaysWhole(cutted, cutting, leftForward, q);
    }
  }
}
