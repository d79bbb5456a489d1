/** Points with whole coordinates, for which the geometry's tolerances can be told from zero. */
module WholeNumbers {
  import opened Segment

  predicate IsWhole(x: real) { x == x.Floor as real }

  /** Whole coordinates of at most `bound` in absolute value. */
  predicate OnGrid(p: Point, bound: nat) {
    IsWhole(p.x) && IsWhole(p.y) && -(bound as real) <= p.x <= bound as real && -(bound as real) <= p.y <= bound as real
  }

  lemma WholeIs(n: int)
    ensures IsWhole(n as real)
  {}

  lemma WholeSum(a: real, b: real)
    requires IsWhole(a) && IsWhole(b)
    ensures IsWhole(a + b) && IsWhole(a - b)
  {
    WholeIs(a.Floor + b.Floor);
    WholeIs(a.Floor - b.Floor);
  }

  lemma WholeProduct(a: real, b: real)
    requires IsWhole(a) && IsWhole(b)
    ensures IsWhole(a * b)
  {
    WholeIs(a.Floor * b.Floor);
    assert a * b == (a.Floor * b.Floor) as real;
  }

  /** The 2 by 2 determinants of whole numbers. */
  lemma WholeDet(a: real, b: real, c: real, d: real)
    requires IsWhole(a) && IsWhole(b) && IsWhole(c) && IsWhole(d)
    ensures IsWhole(a * b - c * d)
  {
    WholeProduct(a, b);
    WholeProduct(c, d);
    WholeSum(a * b, c * d);
  }

  lemma NothingBelowOne(a: real)
    requires IsWhole(a) && a != 0.0
    ensures a >= 1.0 || a <= -1.0
  {}

  lemma ProductsBounded(a: real, b: real, u: real, v: real)
    requires 0.0 <= a <= u && 0.0 <= b <= v
    ensures 0.0 <= a * b <= u * v
  {
    assert a * b <= u * b <= u * v;
  }
}
