/** The cyclic shoelace sum behind area and orientation, and which edits leave it alone. */
module Shoelace {
  import opened Segment
  import opened Extremes
  import opened WholeNumbers

  function Term(p: Point, q: Point): real { q.y * p.x - q.x * p.y }

  function PathSum(vs: seq<Point>): real {
    if |vs| < 2 then 0.0 else PathSum(vs[..|vs| - 1]) + Term(vs[|vs| - 2], vs[|vs| - 1])
  }

  /** Twice the signed area enclosed by the closed path. */
  function CyclicSum(vs: seq<Point>): real {
    if vs == [] then 0.0 else PathSum(vs) + Term(vs[|vs| - 1], vs[0])
  }

  lemma TermSelf(p: Point)
    ensures Term(p, p) == 0.0
  {}

  lemma {:induction false} PathStep(vs: seq<Point>, p: Point)
    requires vs != []
    ensures PathSum(vs + [p]) == PathSum(vs) + Term(vs[|vs| - 1], p)
  {
    assert (vs + [p])[..|vs|] == vs;
  }

  lemma {:induction false} PathJoin(a: seq<Point>, b: seq<Point>)
    requires a != [] && b != []
    ensures PathSum(a + b) == PathSum(a) + Term(a[|a| - 1], b[0]) + PathSum(b)
    decreases |b|
  {
    var n := |b| - 1;
    if n == 0 {
      assert a + b == a + [b[0]];
      PathStep(a, b[0]);
    } else {
      PathJoin(a, b[..n]);
      assert a + b == (a + b[..n]) + [b[n]];
      PathStep(a + b[..n], b[n]);
    }
  }

  lemma PathSingle(p: Point)
    ensures PathSum([p]) == 0.0
  {}

  lemma TermCross(a: Point, p: Point, b: Point)
    ensures Term(a, p) + Term(p, b) == Term(a, b) + Cross(a, p, b)
  {}

  lemma InsertInFront(vs: seq<Point>, p: Point)
    requires vs != []
    ensures CyclicSum([p] + vs) == CyclicSum(vs) + Cross(vs[|vs| - 1], p, vs[0])
  {
    hide Term, PathSum, Cross;
    PathSingle(p);
    PathJoin([p], vs);
    TermCross(vs[|vs| - 1], p, vs[0]);
  }

  lemma InsertBetween(a: seq<Point>, b: seq<Point>, p: Point)
    requires a != [] && b != []
    ensures CyclicSum(a + ([p] + b)) == CyclicSum(a + b) + Cross(a[|a| - 1], p, b[0])
  {
    hide Term, PathSum, Cross;
    PathSingle(p);
    PathJoin([p], b);
    PathJoin(a, b);
    PathJoin(a, [p] + b);
    TermCross(a[|a| - 1], p, b[0]);
  }

  lemma InsertParts(vs: seq<Point>, c: nat, p: Point)
    requires c < |vs|
    ensures Insert(vs, c, p) == if c == 0 then [p] + vs else vs[..c] + ([p] + vs[c..])
    ensures vs[..c] + vs[c..] == vs
  {}

  /** Inserting a vertex adds the triangle it forms with the two vertices it is put between. */
  lemma InsertSum(vs: seq<Point>, c: nat, p: Point)
    requires c < |vs|
    ensures CyclicSum(Insert(vs, c, p)) == CyclicSum(vs) + Cross(Before(vs, c), p, vs[c])
  {
    hide CyclicSum, Cross, Insert, Before;
    Neighbours(vs, c);
    InsertParts(vs, c, p);
    if c == 0 {
      InsertInFront(vs, p);
    } else {
      InsertBetween(vs[..c], vs[c..], p);
    }
  }

  lemma CrossOfEqual(a: Point, b: Point, c: Point)
    ensures Cross(a, a, b) == 0.0 && Cross(a, b, b) == 0.0
    ensures Cross(a, c, b) == -Cross(a, b, c)
  {}

  /** A repeated vertex adds nothing: inserting a copy of either neighbour keeps the sum. */
  lemma InsertCopy(vs: seq<Point>, c: nat, p: Point)
    requires c < |vs| && (p == vs[c] || p == Before(vs, c))
    ensures CyclicSum(Insert(vs, c, p)) == CyclicSum(vs)
  {
    hide CyclicSum, Cross, Insert, Before;
    InsertSum(vs, c, p);
    CrossOfEqual(Before(vs, c), vs[c], p);
  }

  /**
   * A copy of the vertex behind the one at the insertion point, which insert takes for a neighbour, takes away the
   * triangle of the three vertices around that point; the sum stays if and only if they are collinear.
   */
  lemma InsertCopyOfTheNextButOne(vs: seq<Point>, c: nat)
    requires c < |vs|
    ensures CyclicSum(Insert(vs, c, After(vs, c))) == CyclicSum(vs) - Cross(Before(vs, c), vs[c], After(vs, c))
  {
    hide CyclicSum, Cross, Insert, Before, After;
    InsertSum(vs, c, After(vs, c));
    CrossOfEqual(Before(vs, c), vs[c], After(vs, c));
  }

  /** Appending a copy of the last or the first vertex keeps the sum. */
  lemma AppendCopy(vs: seq<Point>, p: Point)
    requires vs != [] && (p == vs[|vs| - 1] || p == vs[0])
    ensures CyclicSum(vs + [p]) == CyclicSum(vs)
  {
    hide Term, PathSum;
    TermSelf(p);
    PathStep(vs, p);
  }

  /** All vertices on the y axis, or all on the x axis. */
  predicate OnAxis(vs: seq<Point>) {
    (forall i :: 0 <= i < |vs| ==> vs[i].x == 0.0) || (forall i :: 0 <= i < |vs| ==> vs[i].y == 0.0)
  }

  lemma {:induction false} OnAxisPath(vs: seq<Point>)
    requires OnAxis(vs)
    ensures PathSum(vs) == 0.0
  {
    if |vs| >= 2 {
      OnAxisPath(vs[..|vs| - 1]);
      OnAxisTerm(vs[|vs| - 2], vs[|vs| - 1]);
    }
  }

  lemma OnAxisTerm(p: Point, q: Point)
    requires (p.x == 0.0 && q.x == 0.0) || (p.y == 0.0 && q.y == 0.0)
    ensures Term(p, q) == 0.0
  {}

  lemma OnAxisSum(vs: seq<Point>)
    requires OnAxis(vs)
    ensures CyclicSum(vs) == 0.0
  {
    OnAxisPath(vs);
    if vs != [] {
      OnAxisTerm(vs[|vs| - 1], vs[0]);
    }
  }

  lemma FourSum(a: Point, b: Point, c: Point, d: Point)
    ensures CyclicSum([a, b, c, d]) == Term(a, b) + Term(b, c) + Term(c, d) + Term(d, a)
  {
    hide Term, PathSum;
    PathSingle(a);
    PathStep([a], b);
    PathStep([a, b], c);
    PathStep([a, b, c], d);
    assert [a] + [b] == [a, b] && [a, b] + [c] == [a, b, c] && [a, b, c] + [d] == [a, b, c, d];
  }

  /** A quadrilateral whose first and third edge cross. */
  const BOW_TIE := [Point(0.0, 0.0), Point(2.0, 2.0), Point(2.0, 0.0), Point(0.0, 2.0)]

  lemma BowTieCrosses()
    ensures Cross(Point(0.0, 0.0), Point(2.0, 2.0), Point(2.0, 0.0)) == -4.0
    ensures Cross(Point(0.0, 0.0), Point(2.0, 2.0), Point(0.0, 2.0)) == 4.0
    ensures Cross(Point(2.0, 0.0), Point(0.0, 2.0), Point(0.0, 0.0)) == 4.0
    ensures Cross(Point(2.0, 0.0), Point(0.0, 2.0), Point(2.0, 2.0)) == -4.0
    ensures Cross(Point(0.0, 2.0), Point(2.0, 2.0), Point(0.0, 0.0)) == -4.0
  {}

  lemma BowTieFirstTerms()
    ensures Term(Point(0.0, 0.0), Point(2.0, 2.0)) == 0.0 && Term(Point(2.0, 2.0), Point(2.0, 0.0)) == -4.0
  {}

  lemma BowTieLastTerms()
    ensures Term(Point(2.0, 0.0), Point(0.0, 2.0)) == 4.0 && Term(Point(0.0, 2.0), Point(0.0, 0.0)) == 0.0
  {}

  lemma WholeTerm(p: Point, q: Point)
    requires IsWhole(p.x) && IsWhole(p.y) && IsWhole(q.x) && IsWhole(q.y)
    ensures IsWhole(Term(p, q))
  {
    hide IsWhole;
    WholeDet(q.y, p.x, q.x, p.y);
    assert Term(p, q) == q.y * p.x - q.x * p.y;
  }

  lemma {:induction false} WholePath(vs: seq<Point>)
    requires forall i :: 0 <= i < |vs| ==> IsWhole(vs[i].x) && IsWhole(vs[i].y)
    ensures IsWhole(PathSum(vs))
  {
    hide IsWhole, Term;
    if |vs| < 2 {
      WholeIs(0);
    } else {
      WholePath(vs[..|vs| - 1]);
      WholeTerm(vs[|vs| - 2], vs[|vs| - 1]);
      WholeSum(PathSum(vs[..|vs| - 1]), Term(vs[|vs| - 2], vs[|vs| - 1]));
    }
  }

  /** The sum of whole coordinates is whole. */
  lemma WholeCycle(vs: seq<Point>)
    requires forall i :: 0 <= i < |vs| ==> IsWhole(vs[i].x) && IsWhole(vs[i].y)
    ensures IsWhole(CyclicSum(vs))
  {
    hide IsWhole, Term, PathSum;
    if vs == [] {
      WholeIs(0);
    } else {
      WholePath(vs);
      WholeTerm(vs[|vs| - 1], vs[0]);
      WholeSum(PathSum(vs), Term(vs[|vs| - 1], vs[0]));
    }
  }

  /** Counterclockwise, a rectangle's sum is twice its area. */
  lemma RectangleSum(x0: real, y0: real, x1: real, y1: real)
    ensures CyclicSum([Point(x0, y0), Point(x1, y0), Point(x1, y1), Point(x0, y1)]) == 2.0 * ((x1 - x0) * (y1 - y0))
  {
    hide CyclicSum;
    FourSum(Point(x0, y0), Point(x1, y0), Point(x1, y1), Point(x0, y1));
    assert (x1 - x0) * (y1 - y0) == x1 * y1 - x1 * y0 - x0 * y1 + x0 * y0;
  }
}
