/** Polygon::is_valid without its cache: the search for two non-adjacent edges that meet. */
module Simplicity {
  import opened Segment

  /** The vertex cycle, without an optional closing copy of the first vertex. */
  function Cycle(vs: seq<Point>): (c: seq<Point>) {
    if |vs| >= 2 && vs[|vs| - 1] == vs[0] then vs[..|vs| - 1] else vs
  }

  function Edge(c: seq<Point>, i: nat): Line
    requires i < |c|
  {
    Line(c[i], c[(i + 1) % |c|])
  }

  predicate Proper(l: Line) { l.first != l.second }

  /** No two cyclically consecutive vertices coincide. */
  predicate Clean(c: seq<Point>) {
    forall i: nat :: i < |c| ==> Proper(Edge(c, i))
  }

  predicate NonAdjacent(n: nat, i: nat, j: nat) {
    i + 2 <= j < n && !(i == 0 && j == n - 1)
  }

  /** No two non-adjacent edges share a point, as far as the second one is among the first `upTo`. */
  ghost predicate EdgesApart(c: seq<Point>, upTo: int) {
    forall i: nat, j: nat :: NonAdjacent(|c|, i, j) && j < upTo ==> !Meet(Edge(c, i), Edge(c, j))
  }

  /** A simple polygon: three vertices or more, and only neighbouring edges share points. */
  ghost predicate Simple(c: seq<Point>) {
    |c| >= 3 && EdgesApart(c, |c|)
  }

  lemma NextIndex(n: nat, j: nat)
    requires j < n
    ensures (j + 1) % n == if j + 1 < n then j + 1 else 0
  {}

  /** Consecutive repeats removed. */
  function Dedup(vs: seq<Point>): (r: seq<Point>)
    ensures |r| <= |vs| && (vs != [] ==> r != [] && r[0] == vs[0] && r[|r| - 1] == vs[|vs| - 1])
  {
    if |vs| <= 1 then vs
    else
      var n := |vs| - 1;
      if vs[n] == vs[n - 1] then Dedup(vs[..n]) else Dedup(vs[..n]) + [vs[n]]
  }

  /** The vertex cycle with its repeated neighbours removed. */
  function Reduced(vs: seq<Point>): (c: seq<Point>) {
    Cycle(Dedup(vs))
  }

  /** The position of vertex k among the vertices without repeats. */
  function Run(vs: seq<Point>, k: nat): (r: nat)
    requires k < |vs|
    ensures r <= k && (k == 0 ==> r == 0)
  {
    |Dedup(vs[..k + 1])| - 1
  }

  lemma RunStep(vs: seq<Point>, k: nat)
    requires k + 1 < |vs|
    ensures Run(vs, k + 1) == if vs[k] == vs[k + 1] then Run(vs, k) else Run(vs, k) + 1
  {
    assert vs[..k + 2][..k + 1] == vs[..k + 1];
  }

  lemma {:induction false} RunMonotone(vs: seq<Point>, k: nat, l: nat)
    requires k <= l < |vs|
    ensures Run(vs, k) <= Run(vs, l)
    decreases l - k
  {
    hide Run;
    if k < l {
      RunMonotone(vs, k, l - 1);
      RunStep(vs, l - 1);
    }
  }

  lemma {:induction false} RunAt(vs: seq<Point>, k: nat, n: nat)
    requires k < n <= |vs|
    ensures Run(vs, k) < |Dedup(vs[..n])| && Dedup(vs[..n])[Run(vs, k)] == vs[k]
    decreases n
  {
    if k + 1 < n {
      RunAt(vs, k, n - 1);
      assert vs[..n][..n - 1] == vs[..n - 1];
    }
  }

  /** Where the backward scan of is_valid stops, started at `last`. */
  function Trimmed(vs: seq<Point>, last: nat): (r: nat)
    requires last < |vs|
    ensures r <= last
  {
    if last > 1 && (vs[last] == vs[last - 1] || vs[last] == vs[0]) then Trimmed(vs, last - 1) else last
  }

  function Last(vs: seq<Point>): (r: nat)
    requires vs != []
    ensures r < |vs|
  {
    Trimmed(vs, |vs| - 1)
  }

  /** The stored list repeats its last vertex, so that the closing edge looks empty to the scan. */
  predicate HidesClosing(vs: seq<Point>)
    requires vs != []
  {
    Last(vs) + 1 < |vs| && vs[Last(vs) + 1] == vs[Last(vs)]
  }

  /** How many edges of the reduced cycle the scan looks at. */
  function Scanned(vs: seq<Point>): (n: int)
    requires vs != []
  {
    if HidesClosing(vs) then |Reduced(vs)| - 1 else |Reduced(vs)|
  }

  /** The answer of is_valid, for any list whatsoever. */
  ghost predicate Accepts(vs: seq<Point>) {
    |vs| >= 3 && Last(vs) >= 2 && EdgesApart(Reduced(vs), Scanned(vs))
  }

  /** Dropping a trailing repeat, or a trailing copy of the first vertex, keeps the reduced cycle. */
  lemma DropKeepsCycle(vs: seq<Point>, last: nat)
    requires 1 <= last < |vs| && (vs[last] == vs[last - 1] || vs[last] == vs[0])
    ensures Reduced(vs[..last + 1]) == Reduced(vs[..last])
  {
    var (s, d) := (vs[..last + 1], Dedup(vs[..last]));
    assert s[..last] == vs[..last];
    if vs[last] != vs[last - 1] {
      assert Dedup(s) == d + [vs[last]];
      assert (d + [vs[last]])[..|d|] == d;
    }
  }

  lemma {:induction false} TrimmedFacts(vs: seq<Point>, last: nat)
    requires 1 <= last < |vs|
    ensures var r := Trimmed(vs, last);
            1 <= r && Reduced(vs[..r + 1]) == Reduced(vs[..last + 1]) &&
            (r >= 2 ==> vs[r] != vs[r - 1] && vs[r] != vs[0]) &&
            (r < last ==> vs[r + 1] == vs[r] || vs[r + 1] == vs[0])
    decreases last
  {
    hide Reduced;
    if last > 1 && (vs[last] == vs[last - 1] || vs[last] == vs[0]) {
      DropKeepsCycle(vs, last);
      TrimmedFacts(vs, last - 1);
    }
  }

  /** The scanned stretch of the list, without repeats, is the reduced cycle. */
  lemma {:induction false} ReducedStretch(s: seq<Point>)
    requires s != []
    ensures |Reduced(s)| <= |s| && (s[|s| - 1] != s[0] ==> Reduced(s) == Dedup(s) && |Dedup(s)| >= 2)
  {}

  lemma ScannedStretch(vs: seq<Point>)
    requires |vs| >= 2
    ensures Last(vs) >= 2 ==> vs[Last(vs)] != vs[Last(vs) - 1] && vs[Last(vs)] != vs[0]
    ensures Last(vs) >= 2 ==> Dedup(vs[..Last(vs) + 1]) == Reduced(vs) && |Reduced(vs)| >= 2
    ensures Last(vs) < 2 ==> |Reduced(vs)| < 3
    ensures Last(vs) + 1 < |vs| ==> vs[Last(vs) + 1] == vs[Last(vs)] || vs[Last(vs) + 1] == vs[0]
  {
    hide Reduced, Dedup, Trimmed;
    TrimmedFacts(vs, |vs| - 1);
    assert vs[..|vs|] == vs;
    ReducedStretch(vs[..Last(vs) + 1]);
  }

  /** i is a row of the scan, or the position behind a tested edge; its place in the reduced cycle. */
  function Place(vs: seq<Point>, j: nat): (p: int)
    requires vs != []
  {
    if j <= Last(vs) then Run(vs, j) else Scanned(vs)
  }

  lemma LastRun(vs: seq<Point>, n: nat)
    requires 0 < n <= |vs|
    ensures Run(vs, n - 1) == |Dedup(vs[..n])| - 1 && Dedup(vs[..n])[0] == vs[0]
  {
    hide Dedup;
    assert vs[..n - 1 + 1] == vs[..n];
  }

  /** Runs inside the scanned stretch. */
  lemma RunInStretch(vs: seq<Point>, k: nat)
    requires |vs| >= 3 && 2 <= Last(vs) && k <= Last(vs)
    ensures Run(vs, k) < |Reduced(vs)| && Reduced(vs)[Run(vs, k)] == vs[k]
    ensures Run(vs, Last(vs)) == |Reduced(vs)| - 1 && Run(vs, Last(vs) - 1) == |Reduced(vs)| - 2
    ensures Reduced(vs)[0] == vs[0]
  {
    hide Last, Reduced, Run, Dedup;
    var last := Last(vs);
    ScannedStretch(vs);
    RunStep(vs, last - 1);
    LastRun(vs, last + 1);
    RunAt(vs, k, last + 1);
  }

  /** The segment the code builds at k is the edge of the reduced cycle at the place of k. */
  lemma StoredEdge(vs: seq<Point>, k: nat)
    requires |vs| >= 3 && 2 <= Last(vs) && k <= Last(vs) && vs[k] != vs[(k + 1) % |vs|]
    ensures Run(vs, k) < |Reduced(vs)| && Line(vs[k], vs[(k + 1) % |vs|]) == Edge(Reduced(vs), Run(vs, k))
    ensures Run(vs, k) < Scanned(vs)
    ensures Place(vs, k + 1) == Place(vs, k) + 1
  {
    hide Run, Reduced, Last;
    var (n, m, last) := (|vs|, |Reduced(vs)|, Last(vs));
    NextIndex(n, k);
    RunInStretch(vs, k);
    if k < last {
      RunStep(vs, k);
      RunInStretch(vs, k + 1);
      NextIndex(m, Run(vs, k));
    } else {
      ScannedStretch(vs);
      NextIndex(m, m - 1);
    }
  }

  /** The skipping test of the code leaves the place alone, closing edge included. */
  lemma SkipKeepsPlace(vs: seq<Point>, k: nat)
    requires |vs| >= 3 && 2 <= Last(vs) && k <= Last(vs) && vs[k] == vs[(k + 1) % |vs|]
    ensures Place(vs, k + 1) == Place(vs, k) && (k < Last(vs) ==> k + 1 < Last(vs))
  {
    hide Run, Reduced, Last;
    NextIndex(|vs|, k);
    ScannedStretch(vs);
    if k < Last(vs) {
      RunStep(vs, k);
    } else {
      RunInStretch(vs, k);
    }
  }

  /** The test of the code decides whether the two edges meet. */
  lemma EdgeTest(vs: seq<Point>, i: nat, j: nat)
    requires |vs| >= 3 && 2 <= Last(vs) && i < j <= Last(vs) && vs[i] != vs[i + 1] && vs[j] != vs[(j + 1) % |vs|]
    ensures Run(vs, i) < |Reduced(vs)| && Run(vs, j) < |Reduced(vs)| && Run(vs, j) < Scanned(vs)
    ensures Place(vs, j + 1) == Run(vs, j) + 1
    ensures Intersects(Line(vs[i], vs[i + 1]), Line(vs[j], vs[(j + 1) % |vs|]))
            <==> Meet(Edge(Reduced(vs), Run(vs, i)), Edge(Reduced(vs), Run(vs, j)))
  {
    hide Intersects, Meet, Edge, Run, Last, Reduced, Scanned;
    NextIndex(|vs|, i);
    StoredEdge(vs, i);
    StoredEdge(vs, j);
    IntersectsIffMeet(Line(vs[i], vs[i + 1]), Line(vs[j], vs[(j + 1) % |vs|]));
  }

  /** The edge at i shares no point with the non-adjacent edges before `upTo`. */
  ghost predicate RowApart(c: seq<Point>, i: nat, upTo: int) {
    forall j: nat :: NonAdjacent(|c|, i, j) && j < upTo ==> !Meet(Edge(c, i), Edge(c, j))
  }

  ghost predicate RowsApart(c: seq<Point>, rows: nat, upTo: int) {
    forall i: nat, j: nat :: i < rows && NonAdjacent(|c|, i, j) && j < upTo ==> !Meet(Edge(c, i), Edge(c, j))
  }

  lemma RowGrows(c: seq<Point>, i: nat, j: nat)
    requires i < |c| && j < |c| && RowApart(c, i, j)
    ensures RowApart(c, i, j + 1) <==> (NonAdjacent(|c|, i, j) ==> !Meet(Edge(c, i), Edge(c, j)))
  {
    hide Edge, Meet;
  }

  lemma RowRefuted(c: seq<Point>, i: nat, j: nat, upTo: int)
    requires NonAdjacent(|c|, i, j) && j < upTo && Meet(Edge(c, i), Edge(c, j))
    ensures !RowApart(c, i, upTo)
  {
    hide Edge, Meet;
  }

  lemma NextRow(c: seq<Point>, i: nat, upTo: int)
    requires RowsApart(c, i, upTo) && RowApart(c, i, upTo)
    ensures RowsApart(c, i + 1, upTo)
  {
    hide Edge, Meet;
  }

  /** Where the code leaves the outer loop, no pair of edges is left to look at. */
  lemma NoRowsLeft(c: seq<Point>, i: nat, upTo: int)
    requires RowsApart(c, i, upTo) && (|c| <= 3 || |c| <= i + 2)
    ensures RowsApart(c, |c|, upTo)
  {
    hide Edge, Meet;
  }

  lemma RowsDecide(vs: seq<Point>)
    requires |vs| >= 3 && Last(vs) >= 2
    ensures Accepts(vs) <==> RowsApart(Reduced(vs), |Reduced(vs)|, Scanned(vs))
  {
    hide Edge, Meet, Reduced, Last;
    ScannedStretch(vs);
  }

  lemma TooShort(vs: seq<Point>)
    requires |vs| < 3 || Last(vs) < 2
    ensures !Accepts(vs)
  {}

  lemma NoRows(c: seq<Point>, upTo: int)
    ensures RowsApart(c, 0, upTo)
  {}

  lemma RowFails(c: seq<Point>, i: nat, upTo: int)
    requires i < |c| && !RowApart(c, i, upTo)
    ensures !RowsApart(c, |c|, upTo)
  {
    hide Edge, Meet;
  }

  /** The last vertex that repeats neither its predecessor nor the first vertex. */
  method TrimTail(vs: seq<Point>) returns (last: nat)
    requires |vs| >= 3
    ensures last == Last(vs)
  {
    last := |vs| - 1;
    while last > 1 && (vs[last] == vs[last - 1] || vs[last] == vs[0])
      invariant last < |vs| && Trimmed(vs, last) == Last(vs)
    {
      last := last - 1;
    }
  }

  method SkipHead(vs: seq<Point>, last: nat) returns (first: nat)
    requires 2 <= last < |vs| && vs[last] != vs[last - 1]
    ensures first < last && Run(vs, first) == 0 && vs[first] != vs[first + 1]
  {
    hide Run;
    first := 0;
    while first < last && vs[first] == vs[first + 1]
      invariant first < last && Run(vs, first) == 0
    {
      RunStep(vs, first);
      first := first + 1;
    }
  }

  method SkipEqual(vs: seq<Point>, last: nat, from: nat) returns (i: nat)
    requires 2 <= last < |vs| && vs[last] != vs[last - 1] && from < last
    ensures from <= i < last && Run(vs, i) == Run(vs, from) && vs[i] != vs[i + 1]
    ensures vs[from] != vs[from + 1] ==> i == from
  {
    hide Run;
    i := from;
    while i <= last && vs[i] == vs[i + 1]
      invariant from <= i < last && Run(vs, i) == Run(vs, from)
      invariant vs[from] != vs[from + 1] ==> i == from
    {
      RunStep(vs, i);
      i := i + 1;
    }
  }

  /** Where the row of the edge at i starts: behind the edge itself and its successor, repeats skipped. */
  method FirstColumn(vs: seq<Point>, last: nat, jLast: nat, i: nat) returns (j: nat)
    requires |vs| >= 3 && 2 <= last == Last(vs) && i < last && vs[i] != vs[i + 1]
    requires if Run(vs, i) == 0 then jLast == last - 1 else jLast == last
    ensures i + 2 <= j
    ensures if j <= jLast then Run(vs, j) == Run(vs, i) + 2
            else |Reduced(vs)| <= 3 || |Reduced(vs)| <= Run(vs, i) + 2
  {
    hide Run, Last, Reduced, Dedup;
    RunStep(vs, i);
    j := i + 2;
    while j <= jLast && vs[i + 1] == vs[j]
      invariant i + 2 <= j <= last + 1
      invariant vs[j - 1] == vs[i + 1] && Run(vs, j - 1) == Run(vs, i) + 1
    {
      RunStep(vs, j - 1);
      j := j + 1;
    }
    if j <= jLast {
      RunStep(vs, j - 1);
    } else {
      RunInStretch(vs, j - 1);
    }
  }

  lemma FirstPlaces(c: seq<Point>, i: nat)
    ensures RowApart(c, i, i + 2)
  {
    hide Edge, Meet;
  }

  lemma EarlierPlace(vs: seq<Point>, j: nat)
    requires |vs| >= 3 && 2 <= Last(vs) && j < Last(vs)
    ensures Run(vs, j) < |Reduced(vs)| - 1
  {
    hide Run, Last, Reduced;
    RunInStretch(vs, Last(vs));
    RunMonotone(vs, j, Last(vs) - 1);
  }

  /** The first row is not compared with the closing edge, its neighbour. */
  lemma LastColumn(c: seq<Point>, seen: int, upTo: int)
    requires RowApart(c, 0, seen) && seen == |c| - 1
    ensures RowApart(c, 0, upTo)
  {
    hide Edge, Meet;
  }

  /** The inner loop: the edge at i against the edges from j to jLast. */
  method ScanRow(vs: seq<Point>, last: nat, jLast: nat, i: nat, from: nat) returns (clear: bool)
    requires |vs| >= 3 && 2 <= last == Last(vs) && i + 2 <= from <= jLast <= last
    requires vs[i] != vs[i + 1] && Run(vs, from) == Run(vs, i) + 2
    requires if Run(vs, i) == 0 then jLast == last - 1 else jLast == last
    ensures Run(vs, i) < |Reduced(vs)| && (clear <==> RowApart(Reduced(vs), Run(vs, i), Scanned(vs)))
  {
    hide Intersects, Meet, Edge, Run, Last, Reduced, RowApart, Scanned;
    var n := |vs|;
    var j := from;
    ghost var (c, a, upTo) := (Reduced(vs), Run(vs, i), Scanned(vs));
    NextIndex(n, i);
    StoredEdge(vs, i);
    FirstPlaces(c, a);
    RunInStretch(vs, last);
    while j <= jLast
      invariant from <= j <= jLast + 1
      invariant RowApart(c, a, Place(vs, j)) && Place(vs, j) >= a + 2
    {
      while j <= last && vs[j] == vs[(j + 1) % n]
        invariant from <= j <= last + 1 && (jLast < last ==> j <= jLast)
        invariant RowApart(c, a, Place(vs, j)) && Place(vs, j) >= a + 2
      {
        SkipKeepsPlace(vs, j);
        j := j + 1;
      }
      if j > last {
        break;
      }
      EdgeTest(vs, i, j);
      assert jLast < last ==> Run(vs, j) < |c| - 1 by {
        if jLast < last {
          EarlierPlace(vs, j);
        }
      }
      if Intersects(Line(vs[i], vs[i + 1]), Line(vs[j], vs[(j + 1) % n])) {
        RowRefuted(c, a, Run(vs, j), upTo);
        return false;
      }
      RowGrows(c, a, Run(vs, j));
      j := j + 1;
    }
    if jLast < last {
      LastColumn(c, |c| - 1, upTo);
    }
    clear := true;
  }

  /** is_valid: every index it forms stays inside the list, and this is its answer for every list. */
  method CheckSimple(vs: seq<Point>) returns (ok: bool)
    ensures ok <==> Accepts(vs)
  {
    hide Intersects, Meet, Edge, Run, Last, Reduced, Scanned, RowsApart, RowApart, Accepts, NonAdjacent;
    if |vs| < 3 {
      TooShort(vs);
      return false;
    }
    var last := TrimTail(vs);
    ScannedStretch(vs);
    if last < 2 {
      TooShort(vs);
      return false;
    }
    RowsDecide(vs);
    ghost var (c, upTo) := (Reduced(vs), Scanned(vs));
    var first := SkipHead(vs, last);
    var i := first;
    NoRows(c, upTo);
    while i <= last
      invariant first <= i < last
      invariant if i == first then Run(vs, i) == 0 else Run(vs, i) >= 1
      invariant RowsApart(c, Run(vs, i), upTo)
      decreases last - i
    {
      i := SkipEqual(vs, last, i);
      if i > last {
        break;
      }
      var jLast := if i == first then last - 1 else last;
      var j := FirstColumn(vs, last, jLast, i);
      if j > jLast {
        NoRowsLeft(c, Run(vs, i), upTo);
        break;
      }
      var clear := ScanRow(vs, last, jLast, i, j);
      if !clear {
        RowFails(c, Run(vs, i), upTo);
        return false;
      }
      NextRow(c, Run(vs, i), upTo);
      RunStep(vs, i);
      i := i + 1;
    }
    ok := true;
  }

  /** Only the closing edge meets an edge that is not its neighbour. */
  ghost predicate OnlyClosingMeets(c: seq<Point>) {
    c != [] && EdgesApart(c, |c| - 1) &&
    exists i: nat :: NonAdjacent(|c|, i, |c| - 1) && Meet(Edge(c, i), Edge(c, |c| - 1))
  }

  /**
   * For any list, is_valid answers whether the cycle without repeats is simple, except that it accepts three vertices
   * or more at two positions, and overlooks a closing edge behind a repeated last vertex.
   */
  lemma AcceptsExactly(vs: seq<Point>)
    ensures Simple(Reduced(vs)) ==> Accepts(vs)
    ensures (Accepts(vs) <==> Simple(Reduced(vs))) <==>
            !(|vs| >= 3 && Last(vs) >= 2 && |Reduced(vs)| == 2) &&
            !(|vs| >= 3 && |Reduced(vs)| >= 3 && HidesClosing(vs) && OnlyClosingMeets(Reduced(vs)))
  {
    hide Edge, Meet, Reduced, Last;
    ReducedLength(vs);
    if |vs| >= 3 {
      ScannedStretch(vs);
      ClosingColumn(Reduced(vs));
    }
  }

  lemma ReducedLength(vs: seq<Point>)
    ensures |Reduced(vs)| <= |vs|
  {}

  lemma ClosingColumn(c: seq<Point>)
    ensures EdgesApart(c, |c|) ==> EdgesApart(c, |c| - 1)
    ensures EdgesApart(c, |c| - 1) && !EdgesApart(c, |c|) <==> OnlyClosingMeets(c)
  {
    hide Edge, Meet;
    if EdgesApart(c, |c| - 1) && !EdgesApart(c, |c|) {
      var i: nat, j: nat :| NonAdjacent(|c|, i, j) && Meet(Edge(c, i), Edge(c, j));
      assert j == |c| - 1;
    }
  }

  /** On a cycle without repeated neighbours, closed or not, the answer is simplicity. */
  lemma AcceptsCleanCycles(vs: seq<Point>)
    requires Clean(Cycle(vs))
    ensures Accepts(vs) <==> Simple(Cycle(vs))
  {
    hide Edge, Meet, Reduced, Last, Accepts;
    CleanIsReduced(vs);
    AcceptsExactly(vs);
    if |vs| >= 3 {
      CleanTail(vs);
    } else {
      ReducedLength(vs);
      TooShort(vs);
    }
  }

  lemma {:induction false} CleanIsReduced(vs: seq<Point>)
    requires Clean(Cycle(vs))
    ensures Reduced(vs) == Cycle(vs)
  {
    forall k | 0 <= k < |vs| - 1 ensures vs[k] != vs[k + 1] {
      NextIndex(|Cycle(vs)|, k);
      assert Proper(Edge(Cycle(vs), k));
    }
    NothingToDrop(vs);
  }

  lemma {:induction false} NothingToDrop(vs: seq<Point>)
    requires forall k :: 0 <= k < |vs| - 1 ==> vs[k] != vs[k + 1]
    ensures Dedup(vs) == vs
  {
    if |vs| > 1 {
      var n := |vs| - 1;
      assert vs[n - 1] != vs[n - 1 + 1];
      NothingToDrop(vs[..n]);
      assert vs == vs[..n] + [vs[n]];
    }
  }

  lemma CleanTail(vs: seq<Point>)
    requires |vs| >= 3 && Clean(Cycle(vs))
    ensures if Last(vs) >= 2 then |Cycle(vs)| >= 3 && !HidesClosing(vs) else |Cycle(vs)| < 3
  {
    var (n, c) := (|vs|, Cycle(vs));
    var m := |c|;
    assert c[m - 1] != c[0] && c[m - 2] != c[m - 1] by {
      NextIndex(m, m - 1);
      NextIndex(m, m - 2);
      assert Proper(Edge(c, m - 1)) && Proper(Edge(c, m - 2));
    }
    assert Trimmed(vs, m - 1) == m - 1;
    if n > m {
      assert Trimmed(vs, m) == Trimmed(vs, m - 1);
    }
  }

  lemma RepeatIsUnclean(ws: seq<Point>, k: nat)
    requires k + 1 < |ws| && ws[k] == ws[k + 1]
    ensures !Clean(Cycle(ws))
  {
    var c := Cycle(ws);
    NextIndex(|c|, k);
    assert !Proper(Edge(c, k));
  }

  /** A copy of the first or last vertex that leaves a clean cycle is the closing copy, and the cycle is the same. */
  lemma CopyKeepsCycle(vs: seq<Point>, p: Point)
    requires vs != [] && (p == vs[|vs| - 1] || p == vs[0]) && Clean(Cycle(vs + [p]))
    ensures Cycle(vs + [p]) == Cycle(vs)
  {
    hide Clean;
    var (n, ws) := (|vs|, vs + [p]);
    assert ws[..n] == vs;
    if p == vs[n - 1] {
      RepeatIsUnclean(ws, n - 1);
      assert false;
    }
  }

  /** Three vertices at two positions pass for valid when the first one is repeated. */
  lemma LeadingRepeatPasses(a: Point, b: Point)
    requires a != b
    ensures Accepts([a, a, b]) && Reduced([a, a, b]) == [a, b] && !Simple(Reduced([a, a, b]))
  {
    var vs := [a, a, b];
    assert vs[..2] == [a, a] && [a, a][..1] == [a];
    assert Dedup([a, a]) == [a] && Dedup(vs) == [a] + [b];
  }

  /** A quadrilateral whose second edge crosses the closing one passes for valid once its last vertex is stored twice. */
  lemma TrailingRepeatHidesCrossing(a: Point, b: Point, c: Point, d: Point)
    requires Clean([a, b, c, d]) && !Meet(Line(a, b), Line(c, d)) && Meet(Line(b, c), Line(d, a))
    ensures Accepts([a, b, c, d, d]) && Reduced([a, b, c, d, d]) == [a, b, c, d] && !Simple([a, b, c, d])
    ensures !Accepts([a, b, c, d])
  {
    hide Meet;
    var (q, vs) := ([a, b, c, d], [a, b, c, d, d]);
    assert Proper(Edge(q, 0)) && Proper(Edge(q, 1)) && Proper(Edge(q, 2)) && Proper(Edge(q, 3));
    assert Cycle(q) == q && Reduced(q) == q by { CleanIsReduced(q); }
    assert vs[..4] == q;
    assert Reduced(vs) == q;
    assert Trimmed(vs, 4) == Trimmed(vs, 3) == 3;
    assert Last(vs) == 3 && HidesClosing(vs);
    hide Reduced, Last, Trimmed, HidesClosing, Clean, Dedup, Accepts, Cycle;
    forall i: nat, j: nat | NonAdjacent(4, i, j) && j < 3 ensures !Meet(Edge(q, i), Edge(q, j)) {
      assert i == 0 && j == 2;
    }
    assert NonAdjacent(4, 1, 3) && Meet(Edge(q, 1), Edge(q, 3));
    assert OnlyClosingMeets(q);
    AcceptsExactly(vs);
    AcceptsCleanCycles(q);
  }

  /** Such a quadrilateral, stored as (0,0), (0,2), (2,0), (2,2), (2,2). */
  lemma CrossedSquarePasses()
    ensures var (a, b, c, d) := (Point(0.0, 0.0), Point(0.0, 2.0), Point(2.0, 0.0), Point(2.0, 2.0));
            Accepts([a, b, c, d, d]) && !Simple(Reduced([a, b, c, d, d]))
  {
    hide Accepts, Reduced, Simple, Clean;
    var (a, b, c, d) := (Point(0.0, 0.0), Point(0.0, 2.0), Point(2.0, 0.0), Point(2.0, 2.0));
    IntersectsIffMeet(Line(a, b), Line(c, d));
    IntersectsIffMeet(Line(b, c), Line(d, a));
    assert Clean([a, b, c, d]) by { FourIsClean(a, b, c, d); }
    TrailingRepeatHidesCrossing(a, b, c, d);
  }

  lemma FourIsClean(a: Point, b: Point, c: Point, d: Point)
    requires a != b && b != c && c != d && d != a
    ensures Clean([a, b, c, d])
  {
    forall i: nat | i < 4 ensures Proper(Edge([a, b, c, d], i)) {
      NextIndex(4, i);
    }
  }
}
