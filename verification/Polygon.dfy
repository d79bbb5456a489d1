/** Polygon with its vertex list, its four extremal index lists and its cached area, orientation and validity. */
module PolygonClass {
  import opened Segment
  import opened Extremes
  import opened Shoelace
  import opened Simplicity
  import opened InsertedVertex
  import opened LineCut
  import opened WholeNumbers

  const EPSILON: real := 1.0 / 4503599627370496.0

  /** A cached orientation says "clockwise" for a negative sum, and also for a polygon flat on an axis. */
  predicate Clockwise(vs: seq<Point>) {
    CyclicSum(vs) < 0.0 || OnAxis(vs)
  }

  lemma SameAxes(vs: seq<Point>, ws: seq<Point>)
    requires forall p :: p in ws <==> p in vs
    ensures OnAxis(ws) == OnAxis(vs)
  {
    assert OnAxis(vs) <==> (forall p :: p in vs ==> p.x == 0.0) || (forall p :: p in vs ==> p.y == 0.0);
    assert OnAxis(ws) <==> (forall p :: p in ws ==> p.x == 0.0) || (forall p :: p in ws ==> p.y == 0.0);
  }

  /** A copy of a vertex that is already there changes neither orientation nor flatness. */
  lemma SameClockwise(vs: seq<Point>, ws: seq<Point>)
    requires CyclicSum(ws) == CyclicSum(vs)
    requires forall p :: p in ws <==> p in vs
    ensures Clockwise(ws) == Clockwise(vs)
  {
    hide CyclicSum, OnAxis;
    SameAxes(vs, ws);
  }

  /** The four index lists of the vertices with indices in d. */
  ghost predicate AllList(vs: seq<Point>, d: set<nat>, x0: seq<nat>, x1: seq<nat>, y0: seq<nat>, y1: seq<nat>) {
    Lists(MinX, vs, d, x0) && Lists(MaxX, vs, d, x1) && Lists(MinY, vs, d, y0) && Lists(MaxY, vs, d, y1)
  }

  /** The fronts that the update functions look at are vertices. */
  predicate FrontsIn(n: nat, x0: seq<nat>, x1: seq<nat>, y0: seq<nat>, y1: seq<nat>) {
    (x0 != [] ==> x0[0] < n) && (x1 != [] ==> x1[0] < n) && (y0 != [] ==> y0[0] < n) && (y1 != [] ==> y1[0] < n)
  }

  lemma {:induction false} AllListAppend(vs: seq<Point>, x0: seq<nat>, x1: seq<nat>, y0: seq<nat>, y1: seq<nat>, p: Point)
    requires AllList(vs, Indices(|vs|), x0, x1, y0, y1)
    ensures FrontsIn(|vs|, x0, x1, y0, y1)
    ensures AllList(vs + [p], Indices(|vs| + 1), Update(MinX, vs, x0, p, |vs|), Update(MaxX, vs, x1, p, |vs|),
                    Update(MinY, vs, y0, p, |vs|), Update(MaxY, vs, y1, p, |vs|))
  {
    hide Lists, Update, Indices;
    ListsAppend(MinX, vs, x0, p);
    ListsAppend(MaxX, vs, x1, p);
    ListsAppend(MinY, vs, y0, p);
    ListsAppend(MaxY, vs, y1, p);
  }

  lemma {:induction false} AllListInsert(vs: seq<Point>, x0: seq<nat>, x1: seq<nat>, y0: seq<nat>, y1: seq<nat>,
                                         c: nat, p: Point)
    requires c < |vs| && AllList(vs, Indices(|vs|), x0, x1, y0, y1)
    ensures var ws := Insert(vs, c, p);
            FrontsIn(|ws|, ShiftUp(c, x0), ShiftUp(c, x1), ShiftUp(c, y0), ShiftUp(c, y1)) &&
            AllList(ws, Indices(|ws|), Update(MinX, ws, ShiftUp(c, x0), p, c), Update(MaxX, ws, ShiftUp(c, x1), p, c),
                    Update(MinY, ws, ShiftUp(c, y0), p, c), Update(MaxY, ws, ShiftUp(c, y1), p, c))
  {
    hide Lists, Update, Indices, Insert, ShiftUp;
    ListsInsert(MinX, vs, x0, c, p);
    ListsInsert(MaxX, vs, x1, c, p);
    ListsInsert(MinY, vs, y0, c, p);
    ListsInsert(MaxY, vs, y1, c, p);
  }

  lemma AllListNext(vs: seq<Point>, x0: seq<nat>, x1: seq<nat>, y0: seq<nat>, y1: seq<nat>, i: nat)
    requires i < |vs| && AllList(vs, Indices(i), x0, x1, y0, y1)
    ensures FrontsIn(|vs|, x0, x1, y0, y1)
    ensures AllList(vs, Indices(i + 1), Update(MinX, vs, x0, vs[i], i), Update(MaxX, vs, x1, vs[i], i),
                    Update(MinY, vs, y0, vs[i], i), Update(MaxY, vs, y1, vs[i], i))
  {
    hide Lists, Update, Indices;
    OneMoreIndex(i);
    UpdateLists(MinX, vs, Indices(i), x0, i);
    UpdateLists(MaxX, vs, Indices(i), x1, i);
    UpdateLists(MinY, vs, Indices(i), y0, i);
    UpdateLists(MaxY, vs, Indices(i), y1, i);
  }

  lemma ErasedLength(vs: seq<Point>, c: nat)
    requires c < |vs|
    ensures |Erase(vs, c)| == |vs| - 1
  {}

  lemma NothingListed(vs: seq<Point>)
    ensures AllList(vs, Indices(0), [], [], [], [])
  {}

  lemma {:induction false} AllListErase(vs: seq<Point>, x0: seq<nat>, x1: seq<nat>, y0: seq<nat>, y1: seq<nat>, c: nat)
    requires c < |vs| && AllList(vs, Indices(|vs|), x0, x1, y0, y1)
    requires c !in x0 && c !in x1 && c !in y0 && c !in y1
    ensures AllList(Erase(vs, c), Indices(|vs| - 1), ShiftDown(c, x0), ShiftDown(c, x1), ShiftDown(c, y0), ShiftDown(c, y1))
  {
    hide Lists, Indices, ShiftDown, Erase;
    ListsErase(MinX, vs, x0, c);
    ListsErase(MaxX, vs, x1, c);
    ListsErase(MinY, vs, y0, c);
    ListsErase(MaxY, vs, y1, c);
  }

  lemma KeysAreCoordinates(p: Point, a: Point, b: Point, c: Point, d: Point)
    ensures Key(MinX, p) == Key(MinX, a) <==> p.x == a.x
    ensures Key(MaxX, p) == Key(MaxX, b) <==> p.x == b.x
    ensures Key(MinY, p) == Key(MinY, c) <==> p.y == c.y
    ensures Key(MaxY, p) == Key(MaxY, d) <==> p.y == d.y
  {}

  /** What the four lists hold, in coordinates: all leftmost, rightmost, lowest and highest vertices, each once. */
  lemma {:induction false} ExtremalLists(vs: seq<Point>, x0: seq<nat>, x1: seq<nat>, y0: seq<nat>, y1: seq<nat>, i: nat)
    requires AllList(vs, Indices(|vs|), x0, x1, y0, y1)
    ensures i in x0 <==> i < |vs| && forall j :: 0 <= j < |vs| ==> vs[i].x <= vs[j].x
    ensures i in x1 <==> i < |vs| && forall j :: 0 <= j < |vs| ==> vs[i].x >= vs[j].x
    ensures i in y0 <==> i < |vs| && forall j :: 0 <= j < |vs| ==> vs[i].y <= vs[j].y
    ensures i in y1 <==> i < |vs| && forall j :: 0 <= j < |vs| ==> vs[i].y >= vs[j].y
    ensures forall l, p, q :: l in [x0, x1, y0, y1] && 0 <= p < q < |l| ==> l[p] != l[q]
  {
    AttainsAmongAll(MinX, vs, i);
    AttainsAmongAll(MaxX, vs, i);
    AttainsAmongAll(MinY, vs, i);
    AttainsAmongAll(MaxY, vs, i);
    hide Attains, Indices;
  }

  lemma {:induction false} AttainsAmongAll(a: Axis, vs: seq<Point>, i: nat)
    ensures Attains(a, vs, Indices(|vs|), i) <==>
            i < |vs| && forall j :: 0 <= j < |vs| ==> Key(a, vs[i]) <= Key(a, vs[j])
  {
    assert forall j :: j in Indices(|vs|) <==> 0 <= j < |vs|;
  }

  /** erase's four comparisons find out whether the vertex is in any of the four lists. */
  lemma {:induction false} ExtremalDecides(vs: seq<Point>, x0: seq<nat>, x1: seq<nat>, y0: seq<nat>, y1: seq<nat>, c: nat)
    requires c < |vs| && AllList(vs, Indices(|vs|), x0, x1, y0, y1)
    ensures x0 != [] && x1 != [] && y0 != [] && y1 != [] && FrontsIn(|vs|, x0, x1, y0, y1)
    ensures vs[c].x == vs[x0[0]].x <==> c in x0
    ensures vs[c].x == vs[x1[0]].x <==> c in x1
    ensures vs[c].y == vs[y0[0]].y <==> c in y0
    ensures vs[c].y == vs[y1[0]].y <==> c in y1
  {
    hide Lists, Indices, Key;
    FrontDecides(MinX, vs, x0, c);
    FrontDecides(MaxX, vs, x1, c);
    FrontDecides(MinY, vs, y0, c);
    FrontDecides(MaxY, vs, y1, c);
    KeysAreCoordinates(vs[c], vs[x0[0]], vs[x1[0]], vs[y0[0]], vs[y1[0]]);
  }

  /** The largest absolute value of a coordinate. */
  function MaxAbs(a: Axis, vs: seq<Point>): (m: real)
    ensures m >= 0.0
  {
    if vs == [] then 0.0 else Max(MaxAbs(a, vs[..|vs| - 1]), Abs(Key(a, vs[|vs| - 1])))
  }

  lemma {:induction false} MaxAbsBounds(a: Axis, vs: seq<Point>)
    ensures forall i :: 0 <= i < |vs| ==> Abs(Key(a, vs[i])) <= MaxAbs(a, vs)
  {
    if vs != [] {
      MaxAbsBounds(a, vs[..|vs| - 1]);
    }
  }

  lemma {:induction false} MaxAbsLeast(a: Axis, vs: seq<Point>, m: real)
    requires m >= 0.0 && forall i :: 0 <= i < |vs| ==> Abs(Key(a, vs[i])) <= m
    ensures MaxAbs(a, vs) <= m
  {
    if vs != [] {
      MaxAbsLeast(a, vs[..|vs| - 1], m);
    }
  }

  /** is_clockwise's tolerance for these coordinates. */
  function Threshold(vs: seq<Point>): real {
    EPSILON * (MaxAbs(MinY, vs) * MaxAbs(MinX, vs)) * (|vs| as real)
  }

  /** The sum is large enough, for these coordinates, to have a sign. */
  predicate Decisive(vs: seq<Point>) {
    Abs(CyclicSum(vs)) >= Threshold(vs)
  }

  lemma {:induction false} MaxAbsZero(a: Axis, vs: seq<Point>)
    requires vs != []
    ensures MaxAbs(a, vs) == 0.0 <==> forall i :: 0 <= i < |vs| ==> Key(a, vs[i]) == 0.0
  {
    hide MaxAbs;
    MaxAbsBounds(a, vs);
    if forall i :: 0 <= i < |vs| ==> Key(a, vs[i]) == 0.0 {
      MaxAbsLeast(a, vs, 0.0);
    }
  }

  lemma NoProduct(a: real, b: real)
    requires a >= 0.0 && b >= 0.0
    ensures a * b >= 0.0 && (a * b == 0.0 <==> a == 0.0 || b == 0.0)
  {}

  /** Past the tolerance test, a zero sum can only come from a zero scale. */
  lemma Tolerance(scale: real, n: nat)
    requires scale >= 0.0 && n > 0
    ensures scale > 0.0 ==> EPSILON * scale * (n as real) > 0.0
    ensures scale == 0.0 ==> EPSILON * scale * (n as real) == 0.0
  {
    if scale > 0.0 {
      assert EPSILON * scale > 0.0;
    }
  }

  /** The tolerance vanishes exactly for polygons flat on an axis, whose sum vanishes too. */
  lemma {:induction false} ThresholdFacts(vs: seq<Point>)
    requires vs != []
    ensures Threshold(vs) >= 0.0 && (Threshold(vs) == 0.0 <==> OnAxis(vs))
    ensures OnAxis(vs) ==> CyclicSum(vs) == 0.0
    ensures Threshold(vs) == (MaxAbs(MinY, vs) * MaxAbs(MinX, vs)) * (|vs| as real) / 4503599627370496.0
  {
    hide MaxAbs, CyclicSum;
    MaxAbsZero(MinX, vs);
    MaxAbsZero(MinY, vs);
    NoProduct(MaxAbs(MinY, vs), MaxAbs(MinX, vs));
    Tolerance(MaxAbs(MinY, vs) * MaxAbs(MinX, vs), |vs|);
    if OnAxis(vs) {
      OnAxisSum(vs);
    }
  }

  /** At most 4000 vertices with whole coordinates up to a million in absolute value. */
  predicate Drawn(vs: seq<Point>) {
    |vs| <= 4000 && forall i :: 0 <= i < |vs| ==> OnGrid(vs[i], 1000000)
  }

  lemma {:induction false} DrawnScale(vs: seq<Point>)
    requires Drawn(vs)
    ensures 0.0 <= MaxAbs(MinY, vs) * MaxAbs(MinX, vs) <= 1000000000000.0
  {
    hide MaxAbs;
    MaxAbsLeast(MinX, vs, 1000000.0);
    MaxAbsLeast(MinY, vs, 1000000.0);
    ProductsBounded(MaxAbs(MinY, vs), MaxAbs(MinX, vs), 1000000.0, 1000000.0);
  }

  /** For those the tolerance is below 1, and a sum that is not zero is always large enough. */
  lemma DrawnIsDecisive(vs: seq<Point>)
    requires vs != [] && Drawn(vs)
    ensures Decisive(vs) <==> CyclicSum(vs) != 0.0 || OnAxis(vs)
  {
    hide MaxAbs, CyclicSum, OnAxis, IsWhole;
    ThresholdFacts(vs);
    DrawnScale(vs);
    var (scale, n) := (MaxAbs(MinY, vs) * MaxAbs(MinX, vs), |vs| as real);
    ProductsBounded(EPSILON * scale, n, EPSILON * 1000000000000.0, 4000.0);
    WholeCycle(vs);
    if CyclicSum(vs) != 0.0 {
      NothingBelowOne(CyclicSum(vs));
    }
  }

  /**
   * Past the tolerance, is_clockwise caches "not positive". That is the sign of the sum if and only if the polygon is
   * not flat on a coordinate axis.
   */
  lemma ClockwiseIsTheSign(vs: seq<Point>, flag: bool)
    requires vs != [] && Decisive(vs) && flag == !(CyclicSum(vs) > 0.0)
    ensures flag == Clockwise(vs)
    ensures (flag <==> CyclicSum(vs) < 0.0) <==> !OnAxis(vs)
  {
    hide CyclicSum, Threshold, OnAxis;
    ThresholdFacts(vs);
  }

  /** Three vertices along the x axis count as clockwise, in either direction. */
  lemma FlatLooksClockwise()
    ensures var (a, b, c) := (Point(0.0, 0.0), Point(1.0, 0.0), Point(2.0, 0.0));
            Decisive([a, b, c]) && Clockwise([a, b, c]) && Decisive([c, b, a]) && Clockwise([c, b, a]) &&
            CyclicSum([a, b, c]) == 0.0
  {
    hide CyclicSum, Threshold;
    var (a, b, c) := (Point(0.0, 0.0), Point(1.0, 0.0), Point(2.0, 0.0));
    ThresholdFacts([a, b, c]);
    ThresholdFacts([c, b, a]);
  }

  /** The largest absolute coordinate in a direction, from the fronts of its two lists. */
  lemma {:induction false} ScaleFromFronts(lo: Axis, hi: Axis, vs: seq<Point>, los: seq<nat>, his: seq<nat>)
    requires (lo.MinX? && hi.MaxX?) || (lo.MinY? && hi.MaxY?)
    requires vs != [] && Lists(lo, vs, Indices(|vs|), los) && Lists(hi, vs, Indices(|vs|), his)
    ensures los != [] && los[0] < |vs| && his != [] && his[0] < |vs|
    ensures Max(Abs(Key(lo, vs[his[0]])), Abs(Key(lo, vs[los[0]]))) == MaxAbs(lo, vs)
  {
    FrontDecides(lo, vs, los, 0);
    FrontDecides(hi, vs, his, 0);
    assert los[0] in los && his[0] in his;
    forall i | 0 <= i < |vs| ensures Key(lo, vs[los[0]]) <= Key(lo, vs[i]) <= Key(lo, vs[his[0]]) {
      assert i in Indices(|vs|);
      assert Key(hi, vs[i]) == -Key(lo, vs[i]) && Key(hi, vs[his[0]]) == -Key(lo, vs[his[0]]);
    }
    var m := Max(Abs(Key(lo, vs[his[0]])), Abs(Key(lo, vs[los[0]])));
    forall i | 0 <= i < |vs| ensures Abs(Key(lo, vs[i])) <= m {}
    MaxAbsBounds(lo, vs);
    MaxAbsLeast(lo, vs, m);
  }

  lemma SameMembers(vs: seq<Point>, c: nat, p: Point)
    requires c < |vs| && p in vs
    ensures forall q :: q in Insert(vs, c, p) <==> q in vs
  {
    assert vs == vs[..c] + vs[c..];
  }

  /** A kept area is right if and only if the new vertex is in line with the two it is put between. */
  lemma KeptArea(vs: seq<Point>, id: nat, p: Point)
    requires id < |vs|
    ensures CyclicSum(Insert(vs, id, p)) / 2.0 == CyclicSum(vs) / 2.0 <==> Cross(Before(vs, id), p, vs[id]) == 0.0
  {
    hide CyclicSum, Insert, Cross;
    InsertSum(vs, id, p);
  }

  /** A kept orientation is right if and only if the added triangle does not make the sum negative, or stop it being so. */
  lemma KeptOrientation(vs: seq<Point>, id: nat, p: Point)
    requires id < |vs| && !SeesChange(vs, id, p)
    ensures Clockwise(Insert(vs, id, p)) == Clockwise(vs) <==>
            (CyclicSum(vs) + Cross(Before(vs, id), p, vs[id]) < 0.0 <==> CyclicSum(vs) < 0.0)
  {
    hide CyclicSum, Insert, Cross, OnAxis;
    var ws := Insert(vs, id, p);
    InsertSum(vs, id, p);
    SameMembers(vs, id, p);
    SameAxes(vs, ws);
    if OnAxis(vs) {
      OnAxisSum(vs);
      OnAxisSum(ws);
    }
  }

  lemma CrossedIsRefused(a: Point, b: Point, c: Point, d: Point)
    requires Intersects(Line(a, b), Line(c, d)) && a != b && b != c && c != d && d != a
    ensures Clean(Cycle([a, b, c, d])) && !Accepts([a, b, c, d])
  {
    hide Accepts, Clean, Meet, Intersects;
    var vs := [a, b, c, d];
    IntersectsIffMeet(Line(a, b), Line(c, d));
    FourIsClean(a, b, c, d);
    AcceptsCleanCycles(vs);
    assert NonAdjacent(4, 0, 2) && Edge(vs, 0) == Line(a, b) && Edge(vs, 2) == Line(c, d);
  }

  lemma BowTieNumbers()
    ensures var (a, b, c, d) := (BOW_TIE[0], BOW_TIE[1], BOW_TIE[2], BOW_TIE[3]);
            Intersects(Line(a, b), Line(c, d)) && a != b && b != c && c != d && d != a &&
            Term(a, b) + Term(b, c) + Term(c, d) + Term(d, a) == 0.0 && Cross(d, b, a) == -4.0
  {
    hide Cross, Term, OnSegment;
    BowTieCrosses();
    BowTieFirstTerms();
    BowTieLastTerms();
  }

  /**
   * A self-crossing quadrilateral is not valid, so its area 0 is cached; a copy of its second vertex put in front keeps
   * that area although it is now -2.
   */
  lemma StaleArea()
    ensures Clean(Cycle(BOW_TIE)) && !Accepts(BOW_TIE) && !SeesChange(BOW_TIE, 0, BOW_TIE[1])
    ensures CyclicSum(BOW_TIE) == 0.0 && CyclicSum(Insert(BOW_TIE, 0, BOW_TIE[1])) == -4.0
  {
    hide Accepts, Clean, CyclicSum, Cycle, Insert, Before, After, Intersects, Cross, Term;
    var (a, b, c, d) := (BOW_TIE[0], BOW_TIE[1], BOW_TIE[2], BOW_TIE[3]);
    BowTieNumbers();
    assert BOW_TIE == [a, b, c, d];
    CrossedIsRefused(a, b, c, d);
    FourSum(a, b, c, d);
    InsertSum(BOW_TIE, 0, b);
    Neighbours(BOW_TIE, 0);
  }

  /** The three conditions together, and what a copy of a real neighbour keeps. */
  lemma KeptCaches(vs: seq<Point>, id: nat, p: Point)
    requires id < |vs| && !SeesChange(vs, id, p)
    ensures var (ws, more) := (Insert(vs, id, p), Cross(Before(vs, id), p, vs[id]));
            (CyclicSum(ws) / 2.0 == CyclicSum(vs) / 2.0 <==> more == 0.0) &&
            (Clockwise(ws) == Clockwise(vs) <==> (CyclicSum(vs) + more < 0.0 <==> CyclicSum(vs) < 0.0)) &&
            (CopiesNeighbour(vs, id, p) ==> more == 0.0)
    ensures Clean(Cycle(Insert(vs, id, p))) ==>
              if CopiesNeighbour(vs, id, p) then
                Clean(Cycle(vs)) && (Simple(Cycle(Insert(vs, id, p))) <==> Simple(Cycle(vs)))
              else !Simple(Cycle(Insert(vs, id, p)))
  {
    hide CyclicSum, Clockwise, Insert, Before, Cross, Clean, Simple, Cycle, SeesChange;
    KeptArea(vs, id, p);
    KeptOrientation(vs, id, p);
    CrossOfEqual(Before(vs, id), vs[id], p);
    if Clean(Cycle(Insert(vs, id, p))) {
      KeptValidity(vs, id, p);
    }
  }

  lemma TermForms(p: Point, q: Point)
    ensures Term(p, q) == q.y * p.x - q.x * p.y
  {}

  class Polygon {
    var vertices: seq<Point>
    var minX: seq<nat>
    var maxX: seq<nat>
    var minY: seq<nat>
    var maxY: seq<nat>
    var area: real
    var areaDefined: bool
    var wiseDefined: bool
    var validDefined: bool
    var clockwise: bool
    var isValid: bool

    /** Each index list holds exactly the vertices at its extremum. */
    ghost predicate Valid()
      reads this
    {
      AllList(vertices, Indices(|vertices|), minX, maxX, minY, maxY)
    }

    ghost predicate CachesTrue()
      reads this
    {
      (areaDefined ==> area == CyclicSum(vertices) / 2.0) && (wiseDefined ==> clockwise == Clockwise(vertices))
    }

    /** A cached validity is right for every vertex list whose cycle has no repeated neighbours. */
    ghost predicate ValidityTrue()
      reads this
    {
      validDefined && Clean(Cycle(vertices)) ==> (isValid <==> Simple(Cycle(vertices)))
    }

    constructor ()
      ensures Valid() && CachesTrue() && ValidityTrue() && vertices == [] && !areaDefined && !wiseDefined && !validDefined
    {
      vertices, minX, maxX, minY, maxY := [], [], [], [], [];
      area, areaDefined, wiseDefined, validDefined, clockwise, isValid := 0.0, false, false, false, false, false;
    }

    /** update_minX, update_maxX, update_minY and update_maxY for one vertex. */
    method UpdateAll(p: Point, pos: nat)
      requires FrontsIn(|vertices|, minX, maxX, minY, maxY)
      modifies this`minX, this`maxX, this`minY, this`maxY
      ensures minX == Update(MinX, vertices, old(minX), p, pos) && maxX == Update(MaxX, vertices, old(maxX), p, pos)
      ensures minY == Update(MinY, vertices, old(minY), p, pos) && maxY == Update(MaxY, vertices, old(maxY), p, pos)
    {
      minX := Update(MinX, vertices, minX, p, pos);
      minY := Update(MinY, vertices, minY, p, pos);
      maxX := Update(MaxX, vertices, maxX, p, pos);
      maxY := Update(MaxY, vertices, maxY, p, pos);
    }

    method Append(p: Point)
      requires Valid()
      modifies this
      ensures Valid() && vertices == old(vertices) + [p]
      ensures (old(CachesTrue()) ==> CachesTrue()) && (old(ValidityTrue()) ==> ValidityTrue())
      ensures var kept := old(vertices) != [] && (old(vertices)[|old(vertices)| - 1] == p || old(vertices)[0] == p);
              areaDefined == (old(areaDefined) && kept) && wiseDefined == (old(wiseDefined) && kept) &&
              validDefined == (old(validDefined) && kept)
      ensures isValid == old(isValid) && area == old(area) && clockwise == old(clockwise)
    {
      hide AllList, CyclicSum, Clockwise, Update, Indices, Simple, Clean, Cycle;
      if vertices == [] || (vertices[|vertices| - 1] != p && vertices[0] != p) {
        areaDefined, validDefined, wiseDefined := false, false, false;
      } else {
        AppendCopy(vertices, p);
        assert p in vertices;
        SameClockwise(vertices, vertices + [p]);
        if Clean(Cycle(vertices + [p])) {
          CopyKeepsCycle(vertices, p);
        }
      }
      AllListAppend(vertices, minX, maxX, minY, maxY, p);
      UpdateAll(p, |vertices|);
      vertices := vertices + [p];
    }

    /** The vertex goes in, the listed indices behind it move up, and the four updates see it. */
    method InsertIndexed(id: nat, p: Point)
      requires Valid() && id < |vertices|
      modifies this`vertices, this`minX, this`maxX, this`minY, this`maxY
      ensures Valid() && vertices == Insert(old(vertices), id, p)
    {
      hide AllList, Update, Indices, Insert, ShiftUp;
      AllListInsert(vertices, minX, maxX, minY, maxY, id, p);
      vertices := Insert(vertices, id, p);
      minX, maxX, minY, maxY := ShiftUp(id, minX), ShiftUp(id, maxX), ShiftUp(id, minY), ShiftUp(id, maxY);
      UpdateAll(p, id);
    }

    /**
     * insert keeps the index lists. It keeps the cached values too, unless neither vertex it looks at equals the new
     * one; each kept value is then right under exactly the stated condition.
     */
    method InsertVertex(id: nat, p: Point)
      requires Valid()
      modifies this
      ensures Valid() && vertices == if id < |old(vertices)| then Insert(old(vertices), id, p) else old(vertices) + [p]
      ensures isValid == old(isValid) && area == old(area) && clockwise == old(clockwise)
      ensures id >= |old(vertices)| ==> (old(CachesTrue()) ==> CachesTrue()) && (old(ValidityTrue()) ==> ValidityTrue())
      ensures id < |old(vertices)| ==>
                var kept := !SeesChange(old(vertices), id, p);
                areaDefined == (old(areaDefined) && kept) && wiseDefined == (old(wiseDefined) && kept) &&
                validDefined == (old(validDefined) && kept)
      ensures id < |old(vertices)| && old(CachesTrue()) ==>
                SeesChange(old(vertices), id, p) || CopiesNeighbour(old(vertices), id, p) ==> CachesTrue()
      ensures id < |old(vertices)| && old(CachesTrue()) && areaDefined ==>
                (area == CyclicSum(vertices) / 2.0 <==> Cross(Before(old(vertices), id), p, old(vertices)[id]) == 0.0)
      ensures id < |old(vertices)| && old(CachesTrue()) && wiseDefined ==>
                var (sum, more) := (CyclicSum(old(vertices)), Cross(Before(old(vertices), id), p, old(vertices)[id]));
                clockwise == Clockwise(vertices) <==> (sum + more < 0.0 <==> sum < 0.0)
      ensures id < |old(vertices)| && old(ValidityTrue()) && validDefined && Clean(Cycle(vertices)) ==>
                ((isValid <==> Simple(Cycle(vertices))) <==> CopiesNeighbour(old(vertices), id, p) || !isValid)
    {
      hide AllList, Indices, CyclicSum, Clockwise, Insert, CopiesNeighbour, SeesChange, Before, Cross,
        Clean, Simple, Cycle;
      if id >= |vertices| {
        Append(p);
        return;
      }
      if SeesChange(vertices, id, p) {
        areaDefined, validDefined, wiseDefined := false, false, false;
      } else {
        KeptCaches(vertices, id, p);
      }
      InsertIndexed(id, p);
    }

    /** erase clamps the index, resets the caches, and rebuilds or shifts the index lists. */
    method EraseVertex(id: nat)
      requires Valid()
      modifies this
      ensures Valid() && (old(CachesTrue()) ==> CachesTrue()) && (old(ValidityTrue()) ==> ValidityTrue())
      ensures old(vertices) == [] ==> unchanged(this)
      ensures old(vertices) != [] ==>
                var last := |old(vertices)| - 1;
                vertices == Erase(old(vertices), if id > last then last else id) &&
                !areaDefined && !wiseDefined && !validDefined
    {
      hide AllList, CyclicSum, Clockwise, Indices, Erase, ShiftDown, Clean, Cycle, Simple;
      if vertices == [] {
        return;
      }
      var c := if id >= |vertices| then |vertices| - 1 else id;
      var p := vertices[c];
      ExtremalDecides(vertices, minX, maxX, minY, maxY, c);
      var extremal := p.x == vertices[maxX[0]].x || p.y == vertices[maxY[0]].y ||
                      p.x == vertices[minX[0]].x || p.y == vertices[minY[0]].y;
      ghost var vs := vertices;
      wiseDefined, validDefined, areaDefined := false, false, false;
      vertices := Erase(vertices, c);
      if extremal {
        Rebuild();
      } else {
        AllListErase(vs, minX, maxX, minY, maxY, c);
        assert |vertices| == |vs| - 1 by { ErasedLength(vs, c); }
        minX, maxX := ShiftDown(c, minX), ShiftDown(c, maxX);
        minY, maxY := ShiftDown(c, minY), ShiftDown(c, maxY);
      }
    }

    method Rebuild()
      modifies this`minX, this`maxX, this`minY, this`maxY
      ensures Valid()
    {
      hide AllList, Update, Indices, Key;
      maxX, minX, maxY, minY := [], [], [], [];
      NothingListed(vertices);
      for i := 0 to |vertices|
        invariant AllList(vertices, Indices(i), minX, maxX, minY, maxY)
      {
        AllListNext(vertices, minX, maxX, minY, maxY, i);
        UpdateAll(vertices[i], i);
      }
    }

    /** The loop of area and is_clockwise: j runs one step ahead of i, cyclically. */
    method SumTerms() returns (result: real)
      requires |vertices| != 1
      ensures result == CyclicSum(vertices)
    {
      hide Term;
      result := 0.0;
      var (n, j) := (|vertices|, 1);
      for i := 0 to n
        invariant i < n ==> j == (i + 1) % n
        invariant result == if i < n then PathSum(vertices[..i + 1]) else CyclicSum(vertices)
      {
        TermForms(vertices[i], vertices[j]);
        result := result + (vertices[j].y * vertices[i].x - vertices[j].x * vertices[i].y);
        NextIndex(n, i);
        if i + 1 < n {
          PathStep(vertices[..i + 1], vertices[i + 1]);
          assert vertices[..i + 1] + [vertices[i + 1]] == vertices[..i + 2];
          NextIndex(n, i + 1);
        } else {
          assert vertices[..i + 1] == vertices;
        }
        j := (j + 1) % n;
      }
    }

    method IsClockwise() returns (r: bool)
      requires Valid()
      modifies this`wiseDefined, this`clockwise
      ensures (old(CachesTrue()) ==> CachesTrue()) && (old(ValidityTrue()) ==> ValidityTrue())
      ensures wiseDefined ==> r == clockwise
      ensures !wiseDefined ==> !r
      ensures old(wiseDefined) ==> wiseDefined && clockwise == old(clockwise)
      ensures !old(wiseDefined) ==> (wiseDefined <==> |vertices| >= 3 && Decisive(vertices))
      ensures !old(wiseDefined) && wiseDefined ==>
                r == Clockwise(vertices) && ((r <==> CyclicSum(vertices) < 0.0) <==> !OnAxis(vertices))
      ensures !old(wiseDefined) && Drawn(vertices) && |vertices| >= 3 && CyclicSum(vertices) != 0.0 ==>
                wiseDefined && (r <==> CyclicSum(vertices) < 0.0)
    {
      hide Valid, CyclicSum, Threshold, OnAxis, Drawn;
      if wiseDefined {
        return clockwise;
      }
      if |vertices| < 3 {
        return false;
      }
      var result := SumTerms();
      var threshold := ComputeThreshold();
      ThresholdFacts(vertices);
      if Drawn(vertices) {
        DrawnIsDecisive(vertices);
      }
      if Abs(result) < threshold {
        return false;
      }
      wiseDefined := true;
      clockwise := !(result > 0.0);
      ClockwiseIsTheSign(vertices, clockwise);
      return clockwise;
    }

    /** The tolerance, from the fronts of the index lists. */
    method ComputeThreshold() returns (t: real)
      requires Valid() && vertices != []
      ensures t == Threshold(vertices)
    {
      hide Lists, Indices, MaxAbs;
      ScaleFromFronts(MinY, MaxY, vertices, minY, maxY);
      ScaleFromFronts(MinX, MaxX, vertices, minX, maxX);
      var sy := Max(Abs(vertices[maxY[0]].y), Abs(vertices[minY[0]].y));
      var sx := Max(Abs(vertices[maxX[0]].x), Abs(vertices[minX[0]].x));
      t := EPSILON * (sy * sx) * (|vertices| as real);
    }

    /** is_valid with its cache. */
    method CheckValid() returns (r: bool)
      modifies this`validDefined, this`isValid
      ensures validDefined && r == isValid
      ensures old(validDefined) ==> isValid == old(isValid)
      ensures !old(validDefined) ==> r == Accepts(vertices)
      ensures !old(validDefined) && Clean(Cycle(vertices)) ==> (r <==> Simple(Cycle(vertices)))
      ensures old(ValidityTrue()) ==> ValidityTrue()
    {
      if validDefined {
        return isValid;
      }
      hide Accepts, Clean, Cycle, Simple;
      validDefined := true;
      isValid := CheckSimple(vertices);
      if Clean(Cycle(vertices)) {
        AcceptsCleanCycles(vertices);
      }
      return isValid;
    }

    /** area, with the test of is_valid as the code has it: a valid polygon gets no area. */
    method Area() returns (r: Option<real>)
      requires |vertices| != 1
      modifies this`validDefined, this`isValid, this`area, this`areaDefined
      ensures (old(CachesTrue()) ==> CachesTrue()) && (old(ValidityTrue()) ==> ValidityTrue())
      ensures old(areaDefined) ==> r == Some(old(area))
      ensures !old(areaDefined) ==> validDefined && r == if isValid then None else Some(CyclicSum(vertices) / 2.0)
      ensures !old(areaDefined) && !old(validDefined) ==> (r.None? <==> Accepts(vertices))
      ensures !old(areaDefined) && (!old(validDefined) || old(ValidityTrue())) && Clean(Cycle(vertices)) ==>
                (r.None? <==> Simple(Cycle(vertices)))
      ensures areaDefined <==> r.Some?
    {
      hide CyclicSum, Accepts, Clean, Cycle, Simple;
      if areaDefined {
        return Some(area);
      }
      var valid := CheckValid();
      if valid {
        areaDefined := false;
        return None;
      }
      var result := SumTerms();
      area := result / 2.0;
      areaDefined := true;
      return Some(area);
    }
  }
}
