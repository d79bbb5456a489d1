/** min_serial_size against the shortest encoding of a type, and max_serial_size where it saturates. */
module ShortestEncoding {
  import opened Bytes
  import opened Codec
  import opened CodecSizes

  /** The length of the shortest encoding, in unbounded arithmetic. */
  function Shortest(ty: Ty): (r: nat)
    requires WellFormed(ty)
    decreases ty, 1
  {
    match ty
    case Num(w) => w
    case Time => 8
    case Opt(_, _) => 1
    case Range(_, _) => 8
    case Array(t, n) => Shortest(t) * n
    case Struct(fs, _) => ShortestSum(fs)
    case Variant(alts) => 8 + Shortest(alts[ShortestAlt(alts)])
  }

  function ShortestSum(fs: seq<Ty>): (r: nat)
    requires forall i :: 0 <= i < |fs| ==> WellFormed(fs[i])
    decreases fs, 0
  {
    if fs == [] then 0 else Shortest(fs[0]) + ShortestSum(fs[1..])
  }

  /** The alternative with the shortest encoding. */
  function ShortestAlt(alts: seq<Ty>): (k: nat)
    requires alts != [] && forall i :: 0 <= i < |alts| ==> WellFormed(alts[i])
    ensures k < |alts|
    decreases alts, 0
  {
    if |alts| == 1 then 0
    else
      var k := ShortestAlt(alts[1..]) + 1;
      if Shortest(alts[0]) <= Shortest(alts[k]) then 0 else k
  }

  lemma {:induction false} ShortestAltIsShortest(alts: seq<Ty>, i: nat)
    requires i < |alts| && forall k :: 0 <= k < |alts| ==> WellFormed(alts[k])
    ensures Shortest(alts[ShortestAlt(alts)]) <= Shortest(alts[i])
  {
    if |alts| > 1 {
      ShortestAltIsShortest(alts[1..], if i > 0 then i - 1 else 0);
    }
  }

  /** A value with the shortest encoding. */
  function ShortestValue(ty: Ty): (v: Val)
    requires WellFormed(ty)
    decreases ty
  {
    match ty
    case Num(_) => VNum(0)
    case Time => VNum(0)
    case Opt(_, _) => VNone
    case Range(_, _) => VList([])
    case Array(t, n) => VList(seq(n, i => ShortestValue(t)))
    case Struct(fs, _) => VList(seq(|fs|, i requires 0 <= i < |fs| => ShortestValue(fs[i])))
    case Variant(alts) => VAlt(ShortestAlt(alts), ShortestValue(alts[ShortestAlt(alts)]))
  }

  /** No encoding is shorter than Shortest. */
  lemma {:induction false} ShortestIsLowerBound(o: Order, ty: Ty, v: Val)
    requires WellFormed(ty) && HasType(ty, v)
    ensures |Encode(o, ty, v)| >= Shortest(ty)
    decreases ty, 1
  {
    match ty
    case Array(t, n) => ItemsAtLeast(o, t, v.vs);
    case Struct(fs, _) => FieldsAtLeast(o, fs, v.vs);
    case Variant(alts) =>
      ShortestAltIsShortest(alts, v.index);
      ShortestIsLowerBound(o, alts[v.index], v.inner);
    case _ =>
  }

  lemma {:induction false} ItemsAtLeast(o: Order, t: Ty, vs: seq<Val>)
    requires WellFormed(t) && forall i :: 0 <= i < |vs| ==> HasType(t, vs[i])
    ensures |EncodeItems(o, t, vs)| >= Shortest(t) * |vs|
    decreases t, 2, |vs|
  {
    if vs != [] {
      ShortestIsLowerBound(o, t, vs[0]);
      ItemsAtLeast(o, t, vs[1..]);
      Distribute(Shortest(t), |vs[1..]|);
    }
  }

  lemma {:induction false} FieldsAtLeast(o: Order, fs: seq<Ty>, vs: seq<Val>)
    requires |fs| == |vs|
    requires forall i :: 0 <= i < |fs| ==> WellFormed(fs[i]) && HasType(fs[i], vs[i])
    ensures |EncodeFields(o, fs, vs)| >= ShortestSum(fs)
    decreases fs, 0
  {
    if fs != [] {
      ShortestIsLowerBound(o, fs[0], vs[0]);
      FieldsAtLeast(o, fs[1..], vs[1..]);
    }
  }

  /** Shortest is reached. */
  lemma {:induction false} ShortestIsReached(o: Order, ty: Ty)
    requires WellFormed(ty)
    ensures HasType(ty, ShortestValue(ty)) && |Encode(o, ty, ShortestValue(ty))| == Shortest(ty)
    decreases ty, 1
  {
    hide NumBytes, EncodeFields, ShortestSum, ShortestAlt;
    match ty
    case Num(w) => PowPositive(w);
    case Time => PowPositive(8);
    case Opt(_, _) =>
    case Range(_, _) =>
    case Array(t, n) =>
      ShortestIsReached(o, t);
      CopiesLength(o, t, ShortestValue(t), n);
    case Struct(fs, _) => ShortestFields(o, fs);
    case Variant(alts) => ShortestIsReached(o, alts[ShortestAlt(alts)]);
  }

  lemma {:induction false} ShortestFields(o: Order, fs: seq<Ty>)
    requires forall i :: 0 <= i < |fs| ==> WellFormed(fs[i])
    ensures var vs := seq(|fs|, i requires 0 <= i < |fs| => ShortestValue(fs[i]));
            (forall i :: 0 <= i < |fs| ==> HasType(fs[i], vs[i])) && |EncodeFields(o, fs, vs)| == ShortestSum(fs)
    decreases fs, 0
  {
    hide HasType, Encode, WellFormed, Shortest, ShortestValue;
    if fs != [] {
      var vs := seq(|fs|, i requires 0 <= i < |fs| => ShortestValue(fs[i]));
      ShortestIsReached(o, fs[0]);
      ShortestFields(o, fs[1..]);
      assert vs[1..] == seq(|fs[1..]|, i requires 0 <= i < |fs[1..]| => ShortestValue(fs[1..][i]));
      forall i | 0 <= i < |fs| ensures HasType(fs[i], vs[i]) {
        if i > 0 {
          assert HasType(fs[1..][i - 1], vs[1..][i - 1]);
        }
      }
    }
  }

  /** min_serial_size of a variant is that of one of its alternatives and the index. */
  lemma {:induction false} MinOverIsReached(alts: seq<Ty>) returns (i: nat)
    requires alts != [] && forall k :: 0 <= k < |alts| ==> WellFormed(alts[k])
    ensures i < |alts| && MinOver(alts) == MinSize(alts[i])
    decreases |alts|
  {
    hide WellFormed, MinSize;
    i := 0;
    MinSizeBelowLimit(alts[0]);
    if |alts| > 1 {
      var k := MinOverIsReached(alts[1..]);
      i := if MinSize(alts[0]) < MinSize(alts[k + 1]) then 0 else k + 1;
    }
  }

  lemma {:induction false} MinSizeBelowLimit(ty: Ty)
    requires WellFormed(ty)
    ensures MinSize(ty) < SIZE_LIMIT
  {}

  /**
   * Nothing that min_serial_size adds up leaves size_t, and no alternative of a variant has wrapped below the shortest
   * one. Elements of ranges and of optionals do not matter.
   */
  predicate MinimumFits(ty: Ty)
    requires WellFormed(ty)
    decreases ty
  {
    match ty
    case Array(t, n) => MinimumFits(t) && Shortest(t) * n < SIZE_LIMIT
    case Struct(fs, _) => (forall i :: 0 <= i < |fs| ==> MinimumFits(fs[i])) && ShortestSum(fs) < SIZE_LIMIT
    case Variant(alts) =>
      var s := Shortest(alts[ShortestAlt(alts)]);
      8 + s < SIZE_LIMIT && forall i :: 0 <= i < |alts| ==> MinSize(alts[i]) >= s
    case _ => true
  }

  lemma {:induction false} MinSizeAtMostShortest(ty: Ty)
    requires WellFormed(ty)
    ensures MinSize(ty) <= Shortest(ty)
  {
    hide MinSize, Shortest, ShortestValue, HasType, Encode;
    var o := Order(true, true);
    ShortestIsReached(o, ty);
    MinSizeIsLowerBound(o, ty, ShortestValue(ty));
  }

  /** min_serial_size is the length of the shortest encoding if and only if nothing it adds up wraps. */
  lemma {:induction false} MinSizeExactly(ty: Ty)
    requires WellFormed(ty)
    ensures MinSize(ty) == Shortest(ty) <==> MinimumFits(ty)
    decreases ty, 1
  {
    match ty
    case Array(t, n) =>
      MinSizeExactly(t);
      MinSizeAtMostShortest(t);
      ScaledExactly(MinSize(t), Shortest(t), n);
    case Struct(fs, _) => MinSumExactly(fs);
    case Variant(alts) => MinOverExactly(alts);
    case _ =>
  }

  lemma ScaledExactly(e: nat, s: nat, n: nat)
    requires e <= s && n > 0
    ensures (if e != 0 && e > SIZE_MAX / n then SIZE_MAX else Wrap(e * n)) == s * n <==> e == s && s * n < SIZE_LIMIT
  {
    ScaledMin(e, n);
    ScaledMax(e, n);
    MoreOf(n, e, s);
    if e < s {
      MoreOf(n, e + 1, s);
      Distribute(n, e);
    }
  }

  lemma {:induction false} MinSumExactly(fs: seq<Ty>)
    requires forall i :: 0 <= i < |fs| ==> WellFormed(fs[i])
    ensures MinSum(fs) <= ShortestSum(fs)
    ensures MinSum(fs) == ShortestSum(fs)
            <==> (forall i :: 0 <= i < |fs| ==> MinimumFits(fs[i])) && ShortestSum(fs) < SIZE_LIMIT
    decreases fs, 0
  {
    hide WellFormed, MinSize, Shortest, MinimumFits;
    if fs != [] {
      MinSizeExactly(fs[0]);
      MinSizeAtMostShortest(fs[0]);
      MinSumExactly(fs[1..]);
      assert (forall i :: 0 <= i < |fs| ==> MinimumFits(fs[i]))
             <==> MinimumFits(fs[0]) && forall i :: 0 <= i < |fs[1..]| ==> MinimumFits(fs[1..][i]);
    }
  }

  lemma {:induction false} MinOverExactly(alts: seq<Ty>)
    requires alts != [] && forall i :: 0 <= i < |alts| ==> WellFormed(alts[i])
    ensures var s := Shortest(alts[ShortestAlt(alts)]);
            Wrap(MinOver(alts) + 8) == 8 + s
            <==> 8 + s < SIZE_LIMIT && forall i :: 0 <= i < |alts| ==> MinSize(alts[i]) >= s
  {
    hide WellFormed, MinSize, Shortest;
    var k := ShortestAlt(alts);
    MinSizeAtMostShortest(alts[k]);
    MinOverIsLeast(alts, k);
    forall i | 0 <= i < |alts| ensures MinOver(alts) <= MinSize(alts[i]) {
      MinOverIsLeast(alts, i);
    }
    var i := MinOverIsReached(alts);
  }

  /** No array, struct or variant inside the type, outside ranges and optionals, has only encodings too long for size_t. */
  predicate PartsFit(ty: Ty)
    requires WellFormed(ty)
    decreases ty
  {
    Shortest(ty) < SIZE_LIMIT &&
    match ty
    case Array(t, _) => PartsFit(t)
    case Struct(fs, _) => forall i :: 0 <= i < |fs| ==> PartsFit(fs[i])
    case Variant(alts) => forall i :: 0 <= i < |alts| ==> PartsFit(alts[i])
    case _ => true
  }

  /** For a type whose parts fit, min_serial_size is the length of the shortest encoding. */
  lemma {:induction false} MinSizeIsShortest(o: Order, ty: Ty)
    requires WellFormed(ty) && PartsFit(ty)
    ensures MinSize(ty) == Shortest(ty)
    ensures HasType(ty, ShortestValue(ty)) && |Encode(o, ty, ShortestValue(ty))| == MinSize(ty)
    decreases ty, 2
  {
    ShortestIsReached(o, ty);
    hide HasType, Encode, ShortestValue;
    MinSizeExactly(ty);
    match ty
    case Array(t, _) =>
      MinSizeIsShortest(o, t);
      MinSizeExactly(t);
    case Struct(fs, _) =>
      forall i | 0 <= i < |fs| ensures MinimumFits(fs[i]) {
        MinSizeIsShortest(o, fs[i]);
        MinSizeExactly(fs[i]);
      }
    case Variant(alts) =>
      forall i | 0 <= i < |alts| ensures MinSize(alts[i]) >= Shortest(alts[ShortestAlt(alts)]) {
        MinSizeIsShortest(o, alts[i]);
        ShortestAltIsShortest(alts, i);
      }
    case _ =>
  }

  /** A struct whose shortest encoding just overflows size_t hides the other alternative of a variant. */
  lemma WrappedAlternative()
    ensures var half := Array(Num(16), 0x800_0000_0000_0000);
            var ty := Variant([Struct([half, half], false), Num(4)]);
            WellFormed(ty) && MinSize(ty) == 8 && Shortest(ty) == 12
  {
    var half := Array(Num(16), 0x800_0000_0000_0000);
    var fs := [half, half];
    var big := Struct(fs, false);
    var alts := [big, Num(4)];
    assert forall i :: 0 <= i < |fs| ==> WellFormed(fs[i]);
    assert WellFormed(big);
    assert forall i :: 0 <= i < |alts| ==> WellFormed(alts[i]);
    assert MinSize(half) == Shortest(half) == 0x8000_0000_0000_0000;
    hide MinSize, Shortest;
    LastOf(half);
    assert fs[1..] == [half] && alts[1..] == [Num(4)];
    assert MinSum(fs) == 0 && ShortestSum(fs) == SIZE_LIMIT;
    BigAndSmall(big, fs);
  }

  lemma {:induction false} LastOf(t: Ty)
    requires WellFormed(t)
    ensures MinSum([t]) == Wrap(MinSize(t)) && ShortestSum([t]) == Shortest(t)
    ensures MinOver([t]) == (if MinSize(t) < SIZE_MAX then MinSize(t) else SIZE_MAX)
  {
    hide MinSize, Shortest, WellFormed;
    assert [t][1..] == [];
  }

  lemma {:induction false} BigAndSmall(big: Ty, fs: seq<Ty>)
    requires big == Struct(fs, false) && WellFormed(big) && MinSum(fs) == 0 && ShortestSum(fs) > 4
    ensures var ty := Variant([big, Num(4)]);
            WellFormed(ty) && MinSize(ty) == 8 && Shortest(ty) == 12
  {
    var alts := [big, Num(4)];
    assert forall i :: 0 <= i < |alts| ==> WellFormed(alts[i]);
    assert MinSize(big) == 0 && Shortest(big) > 4 && MinSize(Num(4)) == 4 && Shortest(Num(4)) == 4;
    assert alts[1..] == [Num(4)];
    LastOf(Num(4));
    assert MinSize(Variant(alts)) == Wrap(MinOver(alts) + 8);
    assert Shortest(Variant(alts)) == 8 + Shortest(alts[ShortestAlt(alts)]);
  }

  /** Every range in the type has elements that take bytes. */
  predicate RangesTakeBytes(ty: Ty)
    requires WellFormed(ty)
    decreases ty
  {
    match ty
    case Opt(_, t) => RangesTakeBytes(t)
    case Range(_, t) => Longest(t) > 0
    case Array(t, _) => RangesTakeBytes(t)
    case Struct(fs, _) => forall i :: 0 <= i < |fs| ==> RangesTakeBytes(fs[i])
    case Variant(alts) => forall i :: 0 <= i < |alts| ==> RangesTakeBytes(alts[i])
    case _ => true
  }

  /** A longest encoding below SIZE_MAX is found, pairs included. */
  lemma {:induction false} ShortMaximumIsFound(ty: Ty)
    requires WellFormed(ty) && RangesTakeBytes(ty) && Longest(ty) < SIZE_MAX
    ensures MaxSize(ty) == Longest(ty)
    decreases ty, 1
  {
    match ty
    case Num(_) =>
    case Time =>
    case Opt(_, t) => ShortMaximumIsFound(t);
    case Range(_, t) => MoreOf(SIZE_MAX, 1, Longest(t));
    case Array(t, n) =>
      MoreOf(Longest(t), 1, n);
      ShortMaximumIsFound(t);
      ScaledMin(Longest(t), n);
    case Struct(fs, pair) =>
      if pair {
        assert LongestSum(fs[1..]) == Longest(fs[1]) + LongestSum(fs[1..][1..]);
        ShortMaximumIsFound(fs[0]);
        ShortMaximumIsFound(fs[1]);
      } else {
        ShortSumIsFound(fs, 0);
      }
    case Variant(alts) =>
      forall i | 0 <= i < |alts| ensures MaxSize(alts[i]) == Longest(alts[i]) {
        LongestAltIsLongest(alts, i);
        ShortMaximumIsFound(alts[i]);
      }
      MaxOverIsLongest(alts);
  }

  lemma {:induction false} ShortSumIsFound(fs: seq<Ty>, result: nat)
    requires forall i :: 0 <= i < |fs| ==> WellFormed(fs[i]) && RangesTakeBytes(fs[i])
    requires result + LongestSum(fs) < SIZE_MAX
    ensures MaxSum(fs, result) == result + LongestSum(fs)
    decreases fs, 0
  {
    hide WellFormed, RangesTakeBytes, MaxSize, Longest;
    if fs != [] {
      ShortMaximumIsFound(fs[0]);
      ShortSumIsFound(fs[1..], result + MaxSize(fs[0]));
    }
  }

  /** max_serial_size is the length of the longest encoding, or SIZE_MAX where that does not fit below it. */
  lemma {:induction false} MaxSizeSaturates(ty: Ty)
    requires WellFormed(ty) && PairsFit(ty) && RangesTakeBytes(ty)
    ensures MaxSize(ty) == if Longest(ty) < SIZE_MAX then Longest(ty) else SIZE_MAX
  {
    hide MaxSize, Longest, WellFormed, PairsFit, RangesTakeBytes;
    if Longest(ty) < SIZE_MAX {
      ShortMaximumIsFound(ty);
    } else {
      MaxSizeBelowLimit(ty);
      if MaxSize(ty) < SIZE_MAX {
        MaxSizeIsLongest(ty);
      }
    }
  }

  /** A range whose elements take no bytes is eight bytes long, and claims SIZE_MAX. */
  lemma {:induction false} EmptyElements(forward: bool, t: Ty)
    requires WellFormed(t) && Longest(t) == 0
    ensures Longest(Range(forward, t)) == 8 && MaxSize(Range(forward, t)) == SIZE_MAX
  {
    MoreOf(SIZE_MAX, Longest(t), 0);
  }
}
