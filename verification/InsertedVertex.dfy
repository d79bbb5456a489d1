/** What Polygon::insert does to simplicity when it keeps its cached validity. */
module InsertedVertex {
  import opened Segment
  import opened Extremes
  import opened Simplicity

  /** The condition under which insert drops its caches: it compares with the vertices before and after `id`. */
  predicate SeesChange(vs: seq<Point>, id: nat, p: Point)
    requires id < |vs|
  {
    Before(vs, id) != p && After(vs, id) != p
  }

  /** p repeats one of the two vertices it is put between. */
  predicate CopiesNeighbour(vs: seq<Point>, id: nat, p: Point)
    requires id < |vs|
  {
    p == vs[id] || p == Before(vs, id)
  }

  /** The cycle started one vertex earlier. */
  function Turned(c: seq<Point>): (r: seq<Point>)
    requires c != []
  {
    [c[|c| - 1]] + c[..|c| - 1]
  }

  lemma TurnedEdge(c: seq<Point>, i: nat)
    requires i < |c|
    ensures Edge(Turned(c), i) == Edge(c, if i == 0 then |c| - 1 else i - 1)
  {
    NextIndex(|c|, i);
    NextIndex(|c|, if i == 0 then |c| - 1 else i - 1);
  }

  lemma MeetIsSymmetric(l1: Line, l2: Line)
    ensures Meet(l1, l2) <==> Meet(l2, l1)
  {}

  /** Where a cycle starts makes no difference to whether it is simple. */
  lemma TurnedIsSimple(c: seq<Point>)
    requires c != []
    ensures Simple(Turned(c)) <==> Simple(c)
  {
    hide Meet, Edge;
    var (n, r) := (|c|, Turned(c));
    forall i: nat, j: nat | NonAdjacent(n, i, j)
      ensures Meet(Edge(r, i), Edge(r, j))
              <==> if i == 0 then Meet(Edge(c, j - 1), Edge(c, n - 1)) else Meet(Edge(c, i - 1), Edge(c, j - 1))
    {
      TurnedEdge(c, i);
      TurnedEdge(c, j);
      MeetIsSymmetric(Edge(r, i), Edge(r, j));
    }
    if Simple(r) {
      forall i: nat, j: nat | NonAdjacent(n, i, j) ensures !Meet(Edge(c, i), Edge(c, j)) {
        if j == n - 1 {
          assert NonAdjacent(n, 0, i + 1);
        } else {
          assert NonAdjacent(n, i + 1, j + 1);
        }
      }
    }
    if Simple(c) {
      forall i: nat, j: nat | NonAdjacent(n, i, j) ensures !Meet(Edge(r, i), Edge(r, j)) {
        assert if i == 0 then NonAdjacent(n, j - 1, n - 1) else NonAdjacent(n, i - 1, j - 1);
      }
    }
  }

  lemma TurnedIsClean(c: seq<Point>)
    requires c != [] && Clean(Turned(c))
    ensures Clean(c)
  {
    hide Edge, Proper;
    forall i: nat | i < |c| ensures Proper(Edge(c, i)) {
      var k := if i == |c| - 1 then 0 else i + 1;
      TurnedEdge(c, k);
      assert Proper(Edge(Turned(c), k));
    }
  }

  lemma InsertInFront(vs: seq<Point>, p: Point)
    requires vs != [] && p == vs[|vs| - 1] && p != vs[0]
    ensures Cycle(vs) == vs && Cycle(Insert(vs, 0, p)) == Turned(vs)
  {
    var n := |vs|;
    assert Insert(vs, 0, p) == [p] + vs;
    assert ([p] + vs)[..n] == Turned(vs);
  }

  lemma Surroundings(vs: seq<Point>, id: nat, p: Point)
    requires id < |vs|
    ensures var (n, ws) := (|vs|, Insert(vs, id, p));
            |ws| == n + 1 && ws[id] == p && ws[id + 1] == vs[id] && ws[n] == vs[n - 1] &&
            (id > 0 ==> ws[0] == vs[0] && ws[id - 1] == vs[id - 1]) && (id + 1 < n ==> ws[id + 2] == vs[id + 1])
  {}

  /** A copy of a neighbour that leaves a clean cycle is a copy of the last vertex in front of the first one. */
  lemma CopyInFront(vs: seq<Point>, id: nat, p: Point)
    requires id < |vs| && CopiesNeighbour(vs, id, p) && Clean(Cycle(Insert(vs, id, p)))
    ensures Cycle(vs) == vs && Cycle(Insert(vs, id, p)) == Turned(vs)
  {
    hide Clean, Before, Insert;
    var (n, ws) := (|vs|, Insert(vs, id, p));
    Surroundings(vs, id, p);
    Neighbours(vs, id);
    if p == vs[id] {
      RepeatIsUnclean(ws, id);
      assert false;
    } else if id > 0 {
      RepeatIsUnclean(ws, id - 1);
      assert false;
    } else {
      InsertInFront(vs, p);
    }
  }

  lemma SharedEnd(c: seq<Point>, i: nat, j: nat, p: Point)
    requires NonAdjacent(|c|, i, j) && (Edge(c, i).second == p || Edge(c, i).first == p)
    requires Edge(c, j).second == p || Edge(c, j).first == p
    ensures !Simple(c)
  {
    EndsLie(Edge(c, i));
    EndsLie(Edge(c, j));
    hide Lies, Edge;
    assert Meet(Edge(c, i), Edge(c, j));
  }

  /** An edge of the cycle ends at the next stored vertex, and the last edge of an open list at its first vertex. */
  lemma EdgeEnd(ws: seq<Point>, i: nat)
    requires i < |Cycle(ws)|
    ensures |Cycle(ws)| <= |ws| <= |Cycle(ws)| + 1
    ensures Edge(Cycle(ws), i).second == if i + 1 < |ws| then ws[i + 1] else ws[0]
  {
    NextIndex(|Cycle(ws)|, i);
  }

  lemma OpenCycle(ws: seq<Point>)
    ensures |ws| >= 2 ==> |ws| - 1 <= |Cycle(ws)|
    ensures |Cycle(ws)| < |ws| <==> |ws| >= 2 && ws[|ws| - 1] == ws[0]
  {}

  lemma AtLeastThree(vs: seq<Point>, id: nat, p: Point)
    requires id < |vs| && !SeesChange(vs, id, p) && !CopiesNeighbour(vs, id, p)
    ensures |vs| >= 3 && p == After(vs, id)
    ensures |vs| == 3 ==> id == 0 || id == 2 || vs[2] != vs[0]
  {
    hide Before, After;
    Neighbours(vs, id);
  }

  /** The edge in front of the inserted vertex and the edge two behind it both end at p. */
  lemma TwoEdges(vs: seq<Point>, id: nat, p: Point)
    requires id < |vs| && !SeesChange(vs, id, p) && !CopiesNeighbour(vs, id, p)
    ensures var c := Cycle(Insert(vs, id, p));
            |c| >= 4 && id + 1 < |c| && Edge(c, id + 1).second == p &&
            Edge(c, if id == 0 then |c| - 1 else id - 1).second == p
  {
    var (n, ws) := (|vs|, Insert(vs, id, p));
    AtLeastThree(vs, id, p);
    Surroundings(vs, id, p);
    Neighbours(vs, id);
    hide Insert, Before, After, Cycle, Edge;
    OpenCycle(ws);
    var c := Cycle(ws);
    EdgeEnd(ws, id + 1);
    EdgeEnd(ws, if id == 0 then |c| - 1 else id - 1);
  }

  /** A copy of the vertex after the one pushed back puts two non-adjacent edges through one point. */
  lemma CopyOfTheNextButOneCrosses(vs: seq<Point>, id: nat, p: Point)
    requires id < |vs| && !SeesChange(vs, id, p) && !CopiesNeighbour(vs, id, p)
    ensures !Simple(Cycle(Insert(vs, id, p)))
  {
    hide SeesChange, CopiesNeighbour, Cycle, Insert, Edge, Simple;
    TwoEdges(vs, id, p);
    var c := Cycle(Insert(vs, id, p));
    if id == 0 {
      SharedEnd(c, 1, |c| - 1, p);
    } else {
      SharedEnd(c, id - 1, id + 1, p);
    }
  }

  /**
   * When insert keeps its cached validity and the new cycle has no repeated neighbours, simplicity is what it was if
   * the vertex copies one of its neighbours, and lost for certain if it copies the vertex after them.
   */
  lemma KeptValidity(vs: seq<Point>, id: nat, p: Point)
    requires id < |vs| && !SeesChange(vs, id, p) && Clean(Cycle(Insert(vs, id, p)))
    ensures CopiesNeighbour(vs, id, p) ==>
              Clean(Cycle(vs)) && (Simple(Cycle(Insert(vs, id, p))) <==> Simple(Cycle(vs)))
    ensures !CopiesNeighbour(vs, id, p) ==> !Simple(Cycle(Insert(vs, id, p)))
  {
    hide SeesChange, CopiesNeighbour, Clean, Cycle, Simple, Insert, Turned;
    if CopiesNeighbour(vs, id, p) {
      CopyInFront(vs, id, p);
      TurnedIsClean(vs);
      TurnedIsSimple(vs);
    } else {
      CopyOfTheNextButOneCrosses(vs, id, p);
    }
  }
}
