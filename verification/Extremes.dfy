/** Lists of the indices that attain an extremal coordinate, kept up to date while vertices come and go. */
module Extremes {
  import opened Segment

  datatype Axis = MinX | MaxX | MinY | MaxY

  /** Every axis is a minimum of its key. */
  function Key(a: Axis, p: Point): real {
    match a
    case MinX => p.x
    case MaxX => -p.x
    case MinY => p.y
    case MaxY => -p.y
  }

  /** update_minX and its three siblings. */
  function Update(a: Axis, vs: seq<Point>, ids: seq<nat>, p: Point, pos: nat): (r: seq<nat>)
    requires ids != [] ==> ids[0] < |vs|
  {
    if ids == [] then [pos]
    else if Key(a, vs[ids[0]]) > Key(a, p) then [pos]
    else if Key(a, vs[ids[0]]) == Key(a, p) then ids + [pos]
    else ids
  }

  function Indices(n: nat): (r: set<nat>)
    ensures forall i :: i in r <==> 0 <= i < n
  {
    if n == 0 then {} else Indices(n - 1) + {n - 1}
  }

  /** i attains the extremum of the vertices whose indices are in d. */
  predicate Attains(a: Axis, vs: seq<Point>, d: set<nat>, i: nat) {
    i in d && i < |vs| && forall j :: j in d && j < |vs| ==> Key(a, vs[i]) <= Key(a, vs[j])
  }

  /** ids holds exactly the indices in d that attain the extremum, each once. */
  ghost predicate Lists(a: Axis, vs: seq<Point>, d: set<nat>, ids: seq<nat>) {
    (forall i :: i in ids <==> Attains(a, vs, d, i)) &&
    (forall p, q :: 0 <= p < q < |ids| ==> ids[p] != ids[q]) &&
    (d != {} ==> ids != [])
  }

  lemma UpdateLists(a: Axis, vs: seq<Point>, d: set<nat>, ids: seq<nat>, pos: nat)
    requires Lists(a, vs, d, ids) && pos < |vs| && pos !in d
    requires forall i :: i in d ==> i < |vs|
    ensures ids != [] ==> ids[0] < |vs|
    ensures Lists(a, vs, d + {pos}, Update(a, vs, ids, vs[pos], pos))
  {
    if ids == [] {
      assert d == {};
    } else {
      assert ids[0] in ids;
      var r := Update(a, vs, ids, vs[pos], pos);
      var k := Key(a, vs[pos]);
      assert pos !in ids;
      forall q | 0 <= q < |ids| ensures ids[q] != pos {
        assert ids[q] in ids;
      }
      forall i: nat ensures i in r <==> Attains(a, vs, d + {pos}, i) {
        if i in d && Attains(a, vs, d + {pos}, i) {
          assert Attains(a, vs, d, i);
        }
        if Attains(a, vs, d, i) {
          assert Key(a, vs[i]) == Key(a, vs[ids[0]]);
        }
        if i == pos && Attains(a, vs, d + {pos}, i) {
          assert k <= Key(a, vs[ids[0]]);
        }
      }
    }
  }

  lemma UpdateLooksBack(a: Axis, vs: seq<Point>, p: Point, ids: seq<nat>, pos: nat)
    requires ids != [] ==> ids[0] < |vs|
    ensures Update(a, vs, ids, p, pos) == Update(a, vs + [p], ids, p, pos)
  {}

  lemma SameAttains(a: Axis, vs: seq<Point>, ws: seq<Point>, d: set<nat>, i: nat)
    requires forall j :: j in d ==> j < |vs| && j < |ws| && vs[j] == ws[j]
    ensures Attains(a, vs, d, i) <==> Attains(a, ws, d, i)
  {}

  lemma ListsSame(a: Axis, vs: seq<Point>, ws: seq<Point>, d: set<nat>, ids: seq<nat>)
    requires forall j :: j in d ==> j < |vs| && j < |ws| && vs[j] == ws[j]
    requires Lists(a, vs, d, ids)
    ensures Lists(a, ws, d, ids)
  {
    hide Attains;
    forall i: nat ensures i in ids <==> Attains(a, ws, d, i) {
      SameAttains(a, vs, ws, d, i);
    }
  }

  lemma FrontInRange(a: Axis, vs: seq<Point>, d: set<nat>, ids: seq<nat>)
    requires Lists(a, vs, d, ids)
    ensures ids != [] ==> ids[0] < |vs|
  {
    if ids != [] {
      assert ids[0] in ids;
    }
  }

  lemma OneMoreIndex(n: nat)
    ensures Indices(n + 1) == Indices(n) + {n}
  {}

  /** Appending does not move the vertices already there. */
  lemma {:induction false} ListsAppend(a: Axis, vs: seq<Point>, ids: seq<nat>, p: Point)
    requires Lists(a, vs, Indices(|vs|), ids)
    ensures ids != [] ==> ids[0] < |vs|
    ensures Lists(a, vs + [p], Indices(|vs| + 1), Update(a, vs, ids, p, |vs|))
  {
    hide Indices, Lists, Update;
    var (vs', d) := (vs + [p], Indices(|vs|));
    FrontInRange(a, vs, d, ids);
    ListsSame(a, vs, vs', d, ids);
    UpdateLooksBack(a, vs, p, ids, |vs|);
    UpdateLists(a, vs', d, ids, |vs|);
    OneMoreIndex(|vs|);
  }

  function Up(c: nat, i: nat): nat { if i >= c then i + 1 else i }

  function Down(c: nat, i: nat): nat
    requires i != c
  {
    if i > c then i - 1 else i
  }

  function ShiftUp(c: nat, ids: seq<nat>): (r: seq<nat>)
    ensures |r| == |ids| && forall k :: 0 <= k < |ids| ==> r[k] == Up(c, ids[k])
  {
    seq(|ids|, k requires 0 <= k < |ids| => Up(c, ids[k]))
  }

  function ShiftDown(c: nat, ids: seq<nat>): (r: seq<nat>)
    requires c !in ids
    ensures |r| == |ids| && forall k :: 0 <= k < |ids| ==> r[k] == Down(c, ids[k])
  {
    seq(|ids|, k requires 0 <= k < |ids| => Down(c, ids[k]))
  }

  function Insert(vs: seq<Point>, c: nat, p: Point): seq<Point>
    requires c <= |vs|
  {
    vs[..c] + [p] + vs[c..]
  }

  function Erase(vs: seq<Point>, c: nat): seq<Point>
    requires c < |vs|
  {
    vs[..c] + vs[c + 1..]
  }

  /** The vertex in front of position i, cyclically. */
  function Before(vs: seq<Point>, i: nat): Point
    requires i < |vs|
  {
    vs[(i - 1 + |vs|) % |vs|]
  }

  /** The vertex behind position i, cyclically. */
  function After(vs: seq<Point>, i: nat): Point
    requires i < |vs|
  {
    vs[(i + 1) % |vs|]
  }

  lemma AddModulus(x: nat, n: nat)
    requires x < n
    ensures (x + n) % n == x
  {
    var k := (x + n) / n;
  }

  lemma SmallModulus(x: nat, n: nat)
    requires x < n
    ensures x % n == x && n % n == 0
  {
    if x == 0 {
      AddModulus(0, n);
    }
  }

  lemma Neighbours(vs: seq<Point>, i: nat)
    requires i < |vs|
    ensures Before(vs, i) == if i == 0 then vs[|vs| - 1] else vs[i - 1]
    ensures After(vs, i) == if i + 1 < |vs| then vs[i + 1] else vs[0]
  {
    var n := |vs|;
    if i > 0 {
      AddModulus(i - 1, n);
    }
    SmallModulus(if i + 1 < n then i + 1 else 0, n);
    SmallModulus(n - 1, n);
  }

  lemma InsertAt(vs: seq<Point>, c: nat, p: Point, k: nat)
    requires c <= |vs| && k < |vs|
    ensures |Insert(vs, c, p)| == |vs| + 1 && Insert(vs, c, p)[c] == p
    ensures Up(c, k) != c && Insert(vs, c, p)[Up(c, k)] == vs[k]
  {}

  lemma EraseAt(vs: seq<Point>, c: nat, k: nat)
    requires c < |vs| && k < |vs| && k != c
    ensures |Erase(vs, c)| == |vs| - 1 && Down(c, k) < |vs| - 1 && Erase(vs, c)[Down(c, k)] == vs[k]
  {}

  /** A vertex attains the extremum of the others exactly when it did before p came in between. */
  lemma {:induction false} AttainsUp(a: Axis, vs: seq<Point>, c: nat, p: Point, k: nat)
    requires c < |vs| && k < |vs|
    ensures var vs' := Insert(vs, c, p);
            Attains(a, vs', Indices(|vs'|) - {c}, Up(c, k)) <==> Attains(a, vs, Indices(|vs|), k)
  {
    hide Indices, Key, Insert;
    var vs' := Insert(vs, c, p);
    InsertAt(vs, c, p, k);
    var (d, d') := (Indices(|vs|), Indices(|vs'|) - {c});
    if Attains(a, vs', d', Up(c, k)) {
      forall j | j in d ensures Key(a, vs[k]) <= Key(a, vs[j]) {
        InsertAt(vs, c, p, j);
        assert Up(c, j) in d';
      }
    }
    if Attains(a, vs, d, k) {
      forall j | j in d' ensures Key(a, vs'[Up(c, k)]) <= Key(a, vs'[j]) {
        InsertAt(vs, c, p, Down(c, j));
        assert j == Up(c, Down(c, j)) && Down(c, j) in d;
      }
    }
  }

  lemma {:induction false} ShiftedUp(a: Axis, vs: seq<Point>, ids: seq<nat>, c: nat, p: Point, i: nat)
    requires c < |vs| && Lists(a, vs, Indices(|vs|), ids)
    ensures var vs' := Insert(vs, c, p);
            i in ShiftUp(c, ids) <==> Attains(a, vs', Indices(|vs'|) - {c}, i)
  {
    hide Indices, Insert, Attains;
    var vs' := Insert(vs, c, p);
    var d := Indices(|vs'|) - {c};
    if i in ShiftUp(c, ids) {
      var q :| 0 <= q < |ids| && ShiftUp(c, ids)[q] == i;
      assert ids[q] in ids;
      assert ids[q] < |vs| by { AttainsInside(a, vs, Indices(|vs|), ids[q]); }
      AttainsUp(a, vs, c, p, ids[q]);
    }
    if Attains(a, vs', d, i) {
      AttainsInside(a, vs', d, i);
      var k := Down(c, i);
      InsertAt(vs, c, p, 0);
      AttainsUp(a, vs, c, p, k);
      assert k in ids;
      var q :| 0 <= q < |ids| && ids[q] == k;
      assert ShiftUp(c, ids)[q] == i;
    }
  }

  lemma AttainsInside(a: Axis, vs: seq<Point>, d: set<nat>, i: nat)
    requires Attains(a, vs, d, i)
    ensures i in d && i < |vs|
  {}

  /** Inserting shifts the listed indices at and after the new vertex. */
  lemma {:induction false} ListsInsert(a: Axis, vs: seq<Point>, ids: seq<nat>, c: nat, p: Point)
    requires c < |vs| && Lists(a, vs, Indices(|vs|), ids)
    ensures var vs' := Insert(vs, c, p);
            var shifted := ShiftUp(c, ids);
            (shifted != [] ==> shifted[0] < |vs'|) &&
            Lists(a, vs', Indices(|vs'|), Update(a, vs', shifted, p, c))
  {
    hide Indices, Key, Attains, Insert, Update;
    var vs' := Insert(vs, c, p);
    InsertAt(vs, c, p, 0);
    var d := Indices(|vs'|) - {c};
    var shifted := ShiftUp(c, ids);
    forall i ensures i in shifted <==> Attains(a, vs', d, i) {
      ShiftedUp(a, vs, ids, c, p, i);
    }
    assert 0 in Indices(|vs|);
    assert Lists(a, vs', d, shifted);
    UpdateLists(a, vs', d, shifted, c);
    assert Indices(|vs'|) == d + {c};
  }

  /** A vertex attains the extremum exactly when it did before another one, which did not attain it, went away. */
  lemma {:induction false} AttainsDown(a: Axis, vs: seq<Point>, c: nat, best: nat, k: nat)
    requires c < |vs| && k < |vs| && k != c && best != c && Attains(a, vs, Indices(|vs|), best)
    ensures Down(c, k) < |Erase(vs, c)|
    ensures Attains(a, Erase(vs, c), Indices(|vs| - 1), Down(c, k)) <==> Attains(a, vs, Indices(|vs|), k)
  {
    hide Indices, Key, Erase;
    var vs' := Erase(vs, c);
    EraseAt(vs, c, k);
    EraseAt(vs, c, best);
    var (d, d') := (Indices(|vs|), Indices(|vs| - 1));
    if Attains(a, vs', d', Down(c, k)) {
      assert Down(c, best) in d';
      assert c in d;
      forall j | j in d ensures Key(a, vs[k]) <= Key(a, vs[j]) {
        if j != c {
          EraseAt(vs, c, j);
          assert Down(c, j) in d';
        }
      }
    }
    if Attains(a, vs, d, k) {
      forall j | j in d' ensures Key(a, vs'[Down(c, k)]) <= Key(a, vs'[j]) {
        EraseAt(vs, c, Up(c, j));
        assert j == Down(c, Up(c, j)) && Up(c, j) in d;
      }
    }
  }

  lemma {:induction false} ShiftedDown(a: Axis, vs: seq<Point>, ids: seq<nat>, c: nat, i: nat)
    requires c < |vs| && Lists(a, vs, Indices(|vs|), ids) && c !in ids
    ensures i in ShiftDown(c, ids) <==> Attains(a, Erase(vs, c), Indices(|vs| - 1), i)
  {
    hide Indices, Erase, Attains;
    var (vs', d, d') := (Erase(vs, c), Indices(|vs|), Indices(|vs| - 1));
    assert 0 in d && ids[0] in ids;
    if i in ShiftDown(c, ids) {
      var q :| 0 <= q < |ids| && ShiftDown(c, ids)[q] == i;
      assert ids[q] in ids;
      AttainsInside(a, vs, d, ids[q]);
      AttainsDown(a, vs, c, ids[0], ids[q]);
    }
    if Attains(a, vs', d', i) {
      AttainsInside(a, vs', d', i);
      var k := Up(c, i);
      AttainsDown(a, vs, c, ids[0], k);
      assert k in ids;
      var q :| 0 <= q < |ids| && ids[q] == k;
      assert ShiftDown(c, ids)[q] == i;
    }
  }

  /** Erasing a vertex that attains nothing shifts the listed indices after it. */
  lemma {:induction false} ListsErase(a: Axis, vs: seq<Point>, ids: seq<nat>, c: nat)
    requires c < |vs| && Lists(a, vs, Indices(|vs|), ids) && c !in ids
    ensures Lists(a, Erase(vs, c), Indices(|vs| - 1), ShiftDown(c, ids))
  {
    hide Indices, Key, Attains, Erase;
    forall i ensures i in ShiftDown(c, ids) <==> i >= 0 && Attains(a, Erase(vs, c), Indices(|vs| - 1), i) {
      if i >= 0 {
        ShiftedDown(a, vs, ids, c, i);
      }
    }
    assert 0 in Indices(|vs|);
  }

  /** The front of the list tells whether a given vertex attains the extremum. */
  lemma {:induction false} FrontDecides(a: Axis, vs: seq<Point>, ids: seq<nat>, c: nat)
    requires c < |vs| && Lists(a, vs, Indices(|vs|), ids)
    ensures ids != [] && ids[0] < |vs|
    ensures Key(a, vs[c]) == Key(a, vs[ids[0]]) <==> c in ids
  {
    hide Indices, Key;
    assert c in Indices(|vs|);
    assert ids[0] in ids;
    assert Attains(a, vs, Indices(|vs|), ids[0]);
  }
}
