/** serial_size, min_serial_size and max_serial_size in size_t arithmetic, and the two bounds against the encoding. */
module CodecSizes {
  import opened Bytes
  import opened Codec

  const SIZE_MAX: nat := SIZE_LIMIT - 1

  /** size_t addition and multiplication wrap around. */
  function Wrap(x: nat): (r: nat)
    ensures r <= x && r < SIZE_LIMIT
    ensures x < SIZE_LIMIT ==> r == x
  {
    x % SIZE_LIMIT
  }

  function MinSize(ty: Ty): (r: nat)
    requires WellFormed(ty)
    decreases ty, 1
  {
    match ty
    case Num(w) => w
    case Time => 8
    case Opt(_, _) => 1
    case Range(_, _) => 8
    case Array(t, n) =>
      var e := MinSize(t);
      if e != 0 && e > SIZE_MAX / n then SIZE_MAX else Wrap(e * n)
    case Struct(fs, _) => MinSum(fs)
    case Variant(alts) => Wrap(MinOver(alts) + 8)
  }

  function MinSum(fs: seq<Ty>): (r: nat)
    requires forall i :: 0 <= i < |fs| ==> WellFormed(fs[i])
    decreases fs, 0
  {
    if fs == [] then 0 else Wrap(MinSize(fs[0]) + MinSum(fs[1..]))
  }

  function MinOver(alts: seq<Ty>): (r: nat)
    requires forall i :: 0 <= i < |alts| ==> WellFormed(alts[i])
    decreases alts, 0
  {
    if alts == [] then SIZE_MAX
    else
      var a, b := MinSize(alts[0]), MinOver(alts[1..]);
      if a < b then a else b
  }

  function MaxSize(ty: Ty): (r: nat)
    requires WellFormed(ty)
    decreases ty, 1
  {
    match ty
    case Num(w) => w
    case Time => 8
    case Opt(_, t) => var m := MaxSize(t); if m == SIZE_MAX then m else Wrap(m + 1)
    case Range(_, _) => SIZE_MAX
    case Array(t, n) =>
      var e := MaxSize(t);
      if e != 0 && e > SIZE_MAX / n then SIZE_MAX else Wrap(e * n)
    case Struct(fs, pair) =>
      if pair then Wrap(MaxSize(fs[0]) + MaxSize(fs[1])) else MaxSum(fs, 0)
    case Variant(alts) =>
      var m := MaxOver(alts);
      if SIZE_MAX - 8 < m then SIZE_MAX else m + 8
  }

  /** add_sz over the pack: saturates and stops at the first field that does not fit. */
  function MaxSum(fs: seq<Ty>, result: nat): (r: nat)
    requires forall i :: 0 <= i < |fs| ==> WellFormed(fs[i])
    decreases fs, 0
  {
    if fs == [] then result
    else
      var m := MaxSize(fs[0]);
      if m < SIZE_MAX - result then MaxSum(fs[1..], result + m) else SIZE_MAX
  }

  function MaxOver(alts: seq<Ty>): (r: nat)
    requires forall i :: 0 <= i < |alts| ==> WellFormed(alts[i])
    decreases alts, 0
  {
    if alts == [] then 0
    else
      var a, b := MaxSize(alts[0]), MaxOver(alts[1..]);
      if a > b then a else b
  }

  function SerialSize(ty: Ty, v: Val): (r: nat)
    requires WellFormed(ty) && HasType(ty, v)
    decreases ty, 1
  {
    match ty
    case Num(w) => w
    case Time => 8
    case Opt(_, t) => if v.VSome? then Wrap(1 + SerialSize(t, v.inner)) else 1
    case Range(_, t) => Wrap(8 + ItemsSize(t, v.vs))
    case Array(t, n) =>
      if MinSize(t) == MaxSize(t) then Wrap(n * MinSize(t)) else ItemsSize(t, v.vs)
    case Struct(fs, _) => FieldsSize(fs, v.vs)
    case Variant(alts) => Wrap(SerialSize(alts[v.index], v.inner) + 8)
  }

  function ItemsSize(t: Ty, vs: seq<Val>): (r: nat)
    requires WellFormed(t) && forall i :: 0 <= i < |vs| ==> HasType(t, vs[i])
    decreases t, 2, |vs|
  {
    if vs == [] then 0 else Wrap(SerialSize(t, vs[0]) + ItemsSize(t, vs[1..]))
  }

  function FieldsSize(fs: seq<Ty>, vs: seq<Val>): (r: nat)
    requires |fs| == |vs|
    requires forall i :: 0 <= i < |fs| ==> WellFormed(fs[i]) && HasType(fs[i], vs[i])
    decreases fs, 0
  {
    if fs == [] then 0 else Wrap(SerialSize(fs[0], vs[0]) + FieldsSize(fs[1..], vs[1..]))
  }

  /** No std::pair in the type adds two maxima that overflow size_t. */
  predicate PairsFit(ty: Ty)
    requires WellFormed(ty)
    decreases ty
  {
    match ty
    case Num(_) => true
    case Time => true
    case Opt(_, t) => PairsFit(t)
    case Range(_, t) => PairsFit(t)
    case Array(t, _) => PairsFit(t)
    case Struct(fs, pair) =>
      (forall i :: 0 <= i < |fs| ==> PairsFit(fs[i])) &&
      (pair ==> MaxSize(fs[0]) + MaxSize(fs[1]) < SIZE_LIMIT)
    case Variant(alts) => forall i :: 0 <= i < |alts| ==> PairsFit(alts[i])
  }

  /** min_serial_size never exceeds the size of an encoding. */
  lemma {:induction false} MinSizeIsLowerBound(o: Order, ty: Ty, v: Val)
    requires WellFormed(ty) && HasType(ty, v)
    ensures MinSize(ty) <= |Encode(o, ty, v)|
    decreases ty, 1
  {
    match ty
    case Num(_) =>
    case Time =>
    case Opt(_, _) =>
    case Range(_, _) =>
    case Array(t, n) =>
      ItemsLowerBound(o, t, v.vs);
      ScaledMin(MinSize(t), n);
    case Struct(fs, _) => FieldsLowerBound(o, fs, v.vs);
    case Variant(alts) =>
      MinSizeIsLowerBound(o, alts[v.index], v.inner);
      MinOverIsLeast(alts, v.index);
  }

  lemma Distribute(e: nat, n: nat)
    ensures e * (n + 1) == e + e * n
  {}

  lemma ScaledMin(e: nat, n: nat)
    requires n > 0
    ensures e > SIZE_MAX / n ==> e * n > SIZE_MAX
  {
    if e > SIZE_MAX / n {
      var q := SIZE_MAX / n;
      assert SIZE_MAX < (q + 1) * n;
      assert (q + 1) * n <= e * n;
    }
  }

  lemma {:induction false} ItemsLowerBound(o: Order, t: Ty, vs: seq<Val>)
    requires WellFormed(t) && forall i :: 0 <= i < |vs| ==> HasType(t, vs[i])
    ensures MinSize(t) * |vs| <= |EncodeItems(o, t, vs)|
    decreases t, 2, |vs|
  {
    if vs != [] {
      MinSizeIsLowerBound(o, t, vs[0]);
      ItemsLowerBound(o, t, vs[1..]);
      Distribute(MinSize(t), |vs[1..]|);
    }
  }

  lemma {:induction false} FieldsLowerBound(o: Order, fs: seq<Ty>, vs: seq<Val>)
    requires |fs| == |vs|
    requires forall i :: 0 <= i < |fs| ==> WellFormed(fs[i]) && HasType(fs[i], vs[i])
    ensures MinSum(fs) <= |EncodeFields(o, fs, vs)|
    decreases fs, 0
  {
    if fs != [] {
      MinSizeIsLowerBound(o, fs[0], vs[0]);
      FieldsLowerBound(o, fs[1..], vs[1..]);
    }
  }

  lemma {:induction false} MinOverIsLeast(alts: seq<Ty>, i: nat)
    requires i < |alts| && forall k :: 0 <= k < |alts| ==> WellFormed(alts[k])
    ensures MinOver(alts) <= MinSize(alts[i])
  {
    if i > 0 {
      MinOverIsLeast(alts[1..], i - 1);
    }
  }

  lemma {:induction false} MaxOverIsGreatest(alts: seq<Ty>, i: nat)
    requires i < |alts| && forall k :: 0 <= k < |alts| ==> WellFormed(alts[k])
    ensures MaxOver(alts) >= MaxSize(alts[i])
  {
    if i > 0 {
      MaxOverIsGreatest(alts[1..], i - 1);
    }
  }

  /** The length of the longest encoding, in unbounded arithmetic; a range holds up to SIZE_MAX items. */
  function Longest(ty: Ty): (r: nat)
    requires WellFormed(ty)
    decreases ty, 1
  {
    match ty
    case Num(w) => w
    case Time => 8
    case Opt(_, t) => 1 + Longest(t)
    case Range(_, t) => 8 + Longest(t) * SIZE_MAX
    case Array(t, n) => Longest(t) * n
    case Struct(fs, _) => LongestSum(fs)
    case Variant(alts) => 8 + Longest(alts[LongestAlt(alts)])
  }

  function LongestSum(fs: seq<Ty>): (r: nat)
    requires forall i :: 0 <= i < |fs| ==> WellFormed(fs[i])
    decreases fs, 0
  {
    if fs == [] then 0 else Longest(fs[0]) + LongestSum(fs[1..])
  }

  /** The alternative with the longest encoding. */
  function LongestAlt(alts: seq<Ty>): (k: nat)
    requires alts != [] && forall i :: 0 <= i < |alts| ==> WellFormed(alts[i])
    ensures k < |alts|
    decreases alts, 0
  {
    if |alts| == 1 then 0
    else
      var k := LongestAlt(alts[1..]) + 1;
      if Longest(alts[0]) >= Longest(alts[k]) then 0 else k
  }

  lemma {:induction false} LongestAltIsLongest(alts: seq<Ty>, i: nat)
    requires i < |alts| && forall k :: 0 <= k < |alts| ==> WellFormed(alts[k])
    ensures Longest(alts[LongestAlt(alts)]) >= Longest(alts[i])
  {
    if |alts| > 1 {
      LongestAltIsLongest(alts[1..], if i > 0 then i - 1 else 0);
    }
  }

  /** A value with the longest encoding. */
  function LongestValue(ty: Ty): (v: Val)
    requires WellFormed(ty)
    decreases ty
  {
    match ty
    case Num(_) => VNum(0)
    case Time => VNum(0)
    case Opt(_, t) => VSome(LongestValue(t))
    case Range(_, t) => VList(seq(SIZE_MAX, i => LongestValue(t)))
    case Array(t, n) => VList(seq(n, i => LongestValue(t)))
    case Struct(fs, _) => VList(seq(|fs|, i requires 0 <= i < |fs| => LongestValue(fs[i])))
    case Variant(alts) => VAlt(LongestAlt(alts), LongestValue(alts[LongestAlt(alts)]))
  }

  /** No encoding is longer than Longest. */
  lemma {:induction false} LongestIsUpperBound(o: Order, ty: Ty, v: Val)
    requires WellFormed(ty) && HasType(ty, v)
    ensures |Encode(o, ty, v)| <= Longest(ty)
    decreases ty, 1
  {
    match ty
    case Num(_) =>
    case Time =>
    case Opt(_, t) => if v.VSome? { LongestIsUpperBound(o, t, v.inner); }
    case Range(_, t) =>
      ItemsAtMost(o, t, v.vs);
      MoreItems(Longest(t), |v.vs|, SIZE_MAX);
    case Array(t, n) => ItemsAtMost(o, t, v.vs);
    case Struct(fs, _) => FieldsAtMost(o, fs, v.vs);
    case Variant(alts) =>
      LongestAltIsLongest(alts, v.index);
      LongestIsUpperBound(o, alts[v.index], v.inner);
  }

  lemma MoreItems(e: nat, n: nat, m: nat)
    requires n <= m
    ensures e * n <= e * m
  {}

  lemma {:induction false} ItemsAtMost(o: Order, t: Ty, vs: seq<Val>)
    requires WellFormed(t) && forall i :: 0 <= i < |vs| ==> HasType(t, vs[i])
    ensures |EncodeItems(o, t, vs)| <= Longest(t) * |vs|
    decreases t, 2, |vs|
  {
    if vs != [] {
      LongestIsUpperBound(o, t, vs[0]);
      ItemsAtMost(o, t, vs[1..]);
      Distribute(Longest(t), |vs[1..]|);
    }
  }

  lemma {:induction false} FieldsAtMost(o: Order, fs: seq<Ty>, vs: seq<Val>)
    requires |fs| == |vs|
    requires forall i :: 0 <= i < |fs| ==> WellFormed(fs[i]) && HasType(fs[i], vs[i])
    ensures |EncodeFields(o, fs, vs)| <= LongestSum(fs)
    decreases fs, 0
  {
    if fs != [] {
      LongestIsUpperBound(o, fs[0], vs[0]);
      FieldsAtMost(o, fs[1..], vs[1..]);
    }
  }

  /** Longest is reached. */
  lemma {:induction false} LongestIsReached(o: Order, ty: Ty)
    requires WellFormed(ty)
    ensures HasType(ty, LongestValue(ty)) && |Encode(o, ty, LongestValue(ty))| == Longest(ty)
    decreases ty, 1
  {
    hide NumBytes, EncodeItems, EncodeFields, LongestSum, LongestAlt;
    match ty
    case Num(w) => PowPositive(w);
    case Time => PowPositive(8);
    case Opt(_, t) => LongestIsReached(o, t);
    case Range(_, t) =>
      LongestIsReached(o, t);
      CopiesLength(o, t, LongestValue(t), SIZE_MAX);
    case Array(t, n) =>
      LongestIsReached(o, t);
      CopiesLength(o, t, LongestValue(t), n);
    case Struct(fs, _) => LongestFields(o, fs);
    case Variant(alts) => LongestIsReached(o, alts[LongestAlt(alts)]);
  }

  lemma {:induction false} PowPositive(w: nat)
    ensures Pow256(w) > 0
  {}

  lemma {:induction false} CopiesLength(o: Order, t: Ty, x: Val, n: nat)
    requires HasType(t, x)
    ensures |EncodeItems(o, t, seq(n, i => x))| == |Encode(o, t, x)| * n
    decreases n
  {
    hide HasType, Encode;
    if n > 0 {
      CopiesLength(o, t, x, n - 1);
      assert seq(n, i => x)[1..] == seq(n - 1, i => x);
      Distribute(|Encode(o, t, x)|, n - 1);
    }
  }

  lemma {:induction false} LongestFields(o: Order, fs: seq<Ty>)
    requires forall i :: 0 <= i < |fs| ==> WellFormed(fs[i])
    ensures var vs := seq(|fs|, i requires 0 <= i < |fs| => LongestValue(fs[i]));
            (forall i :: 0 <= i < |fs| ==> HasType(fs[i], vs[i])) && |EncodeFields(o, fs, vs)| == LongestSum(fs)
    decreases fs, 0
  {
    hide HasType, Encode, WellFormed, Longest, LongestValue;
    if fs != [] {
      var vs := seq(|fs|, i requires 0 <= i < |fs| => LongestValue(fs[i]));
      LongestIsReached(o, fs[0]);
      LongestFields(o, fs[1..]);
      assert vs[1..] == seq(|fs[1..]|, i requires 0 <= i < |fs[1..]| => LongestValue(fs[1..][i]));
      forall i | 0 <= i < |fs| ensures HasType(fs[i], vs[i]) {
        if i > 0 {
          assert HasType(fs[1..][i - 1], vs[1..][i - 1]);
        }
      }
    }
  }

  /** max_serial_size bounds every encoding if and only if it is not below the longest one, wrapped pairs included. */
  lemma MaxSizeExactly(o: Order, ty: Ty)
    requires WellFormed(ty)
    ensures (forall v :: HasType(ty, v) ==> |Encode(o, ty, v)| <= MaxSize(ty)) <==> Longest(ty) <= MaxSize(ty)
  {
    hide HasType, Encode, Longest, MaxSize, LongestValue;
    LongestIsReached(o, ty);
    forall v | HasType(ty, v) ensures |Encode(o, ty, v)| <= Longest(ty) {
      LongestIsUpperBound(o, ty, v);
    }
  }

  /** Where no pair's maximum wraps, a max_serial_size below SIZE_MAX is the length of the longest encoding. */
  lemma {:induction false} MaxSizeIsLongest(ty: Ty)
    requires WellFormed(ty) && PairsFit(ty)
    requires MaxSize(ty) < SIZE_MAX
    ensures MaxSize(ty) == Longest(ty)
    decreases ty, 1
  {
    match ty
    case Num(_) =>
    case Time =>
    case Opt(_, t) =>
      MaxSizeBelowLimit(t);
      MaxSizeIsLongest(t);
    case Range(_, _) => assert false;
    case Array(t, n) =>
      ScaledMax(MaxSize(t), n);
      MaxSizeIsLongest(t);
    case Struct(fs, pair) =>
      if pair {
        MaxSizeIsLongest(fs[0]);
        MaxSizeIsLongest(fs[1]);
        assert LongestSum(fs[1..]) == Longest(fs[1]) + LongestSum(fs[1..][1..]);
      } else {
        MaxSumIsLongest(fs, 0);
      }
    case Variant(alts) =>
      forall i | 0 <= i < |alts| ensures MaxSize(alts[i]) == Longest(alts[i]) {
        MaxOverIsGreatest(alts, i);
        MaxSizeIsLongest(alts[i]);
      }
      MaxOverIsLongest(alts);
  }

  lemma ScaledMax(e: nat, n: nat)
    requires n > 0
    ensures e <= SIZE_MAX / n ==> e * n <= SIZE_MAX
    ensures e > 0 && e * n < SIZE_MAX ==> e < SIZE_MAX
  {
    var q := SIZE_MAX / n;
    if e <= q {
      MoreOf(n, e, q);
    }
    MoreOf(e, 1, n);
  }

  lemma MoreOf(n: nat, e: nat, q: nat)
    requires e <= q
    ensures e * n <= q * n && n * e <= n * q
  {}

  lemma {:induction false} MaxSizeBelowLimit(ty: Ty)
    requires WellFormed(ty)
    ensures MaxSize(ty) < SIZE_LIMIT
    decreases ty, 1
  {
    match ty
    case Num(_) =>
    case Time =>
    case Opt(_, _) =>
    case Range(_, _) =>
    case Array(_, _) =>
    case Struct(fs, pair) => if !pair { MaxSumBelowLimit(fs, 0); }
    case Variant(_) =>
  }

  lemma {:induction false} MaxSumBelowLimit(fs: seq<Ty>, result: nat)
    requires forall i :: 0 <= i < |fs| ==> WellFormed(fs[i])
    requires result < SIZE_LIMIT
    ensures result <= MaxSum(fs, result) < SIZE_LIMIT
    decreases fs, 0
  {
    if fs != [] && MaxSize(fs[0]) < SIZE_MAX - result {
      MaxSumBelowLimit(fs[1..], result + MaxSize(fs[0]));
    }
  }
  lemma {:induction false} MaxOverIsLongest(alts: seq<Ty>)
    requires alts != [] && forall i :: 0 <= i < |alts| ==> WellFormed(alts[i]) && MaxSize(alts[i]) == Longest(alts[i])
    ensures MaxOver(alts) == Longest(alts[LongestAlt(alts)])
  {
    hide WellFormed, MaxSize, Longest;
    if |alts| > 1 {
      MaxOverIsLongest(alts[1..]);
    }
  }

  /** The early-stopping sum over the fields. */
  lemma {:induction false} MaxSumIsLongest(fs: seq<Ty>, result: nat)
    requires result < SIZE_LIMIT
    requires forall i :: 0 <= i < |fs| ==> WellFormed(fs[i]) && PairsFit(fs[i])
    requires MaxSum(fs, result) < SIZE_MAX
    ensures MaxSum(fs, result) == result + LongestSum(fs)
    decreases fs, 0
  {
    hide WellFormed, PairsFit, MaxSize, Longest;
    if fs != [] {
      MaxSizeIsLongest(fs[0]);
      MaxSumIsLongest(fs[1..], result + MaxSize(fs[0]));
    }
  }

  /** A max_serial_size below SIZE_MAX bounds every encoding, as long as no pair's maximum wraps. */
  lemma {:induction false} MaxSizeIsUpperBound(o: Order, ty: Ty, v: Val)
    requires WellFormed(ty) && HasType(ty, v) && PairsFit(ty)
    requires MaxSize(ty) < SIZE_MAX
    ensures |Encode(o, ty, v)| <= MaxSize(ty)
    ensures HasType(ty, LongestValue(ty)) && |Encode(o, ty, LongestValue(ty))| == MaxSize(ty)
  {
    hide HasType, Encode, Longest, LongestValue, MaxSize, PairsFit;
    MaxSizeIsLongest(ty);
    LongestIsReached(o, ty);
    LongestIsUpperBound(o, ty, v);
  }

  lemma {:induction false} FieldsUpperBound(o: Order, fs: seq<Ty>, vs: seq<Val>, result: nat)
    requires |fs| == |vs| && result < SIZE_LIMIT
    requires forall i :: 0 <= i < |fs| ==> WellFormed(fs[i]) && HasType(fs[i], vs[i]) && PairsFit(fs[i])
    requires MaxSum(fs, result) < SIZE_MAX
    ensures result + |EncodeFields(o, fs, vs)| <= MaxSum(fs, result)
  {
    hide HasType, WellFormed, PairsFit, MaxSize, Longest;
    MaxSumIsLongest(fs, result);
    FieldsAtMost(o, fs, vs);
  }

  lemma {:induction false} PairWellFormed(a: Ty, b: Ty)
    requires WellFormed(a) && WellFormed(b)
    ensures WellFormed(Struct([a, b], true))
  {
    var fs := [a, b];
    assert forall i :: 0 <= i < |fs| ==> WellFormed(fs[i]);
  }

  lemma {:induction false} LastField(b: Ty)
    requires WellFormed(b)
    ensures MinSum([b]) == Wrap(MinSize(b)) && LongestSum([b]) == Longest(b)
  {
    hide MinSize, Longest, WellFormed;
    assert [b][1..] == [];
  }

  lemma {:induction false} PairSums(a: Ty, b: Ty)
    requires WellFormed(a) && WellFormed(b)
    ensures var ty := Struct([a, b], true);
            WellFormed(ty) && Longest(ty) == Longest(a) + Longest(b) &&
            MinSize(ty) == Wrap(MinSize(a) + Wrap(MinSize(b))) && MaxSize(ty) == Wrap(MaxSize(a) + MaxSize(b))
  {
    hide WellFormed, Wrap;
    var fs := [a, b];
    PairWellFormed(a, b);
    LastField(b);
    assert fs[1..] == [b];
    assert Longest(Struct(fs, true)) == LongestSum(fs) && MinSize(Struct(fs, true)) == MinSum(fs);
    hide Longest, MinSize;
    assert LongestSum(fs) == Longest(a) + LongestSum(fs[1..]) && MinSum(fs) == Wrap(MinSize(a) + MinSum(fs[1..]));
  }

  /**
   * The maximum of a std::pair that does not fit in size_t wraps below the maxima of both parts, and then it bounds
   * nothing as soon as one part's own maximum is exact.
   */
  lemma {:induction false} PairMaximumWraps(o: Order, a: Ty, b: Ty)
    requires WellFormed(a) && WellFormed(b) && MaxSize(a) + MaxSize(b) >= SIZE_LIMIT
    ensures var ty := Struct([a, b], true);
            WellFormed(ty) && MaxSize(ty) == MaxSize(a) + MaxSize(b) - SIZE_LIMIT &&
            MaxSize(ty) < MaxSize(a) && MaxSize(ty) < MaxSize(b) &&
            ((PairsFit(a) && MaxSize(a) < SIZE_MAX) || (PairsFit(b) && MaxSize(b) < SIZE_MAX) ==>
               HasType(ty, LongestValue(ty)) && |Encode(o, ty, LongestValue(ty))| > MaxSize(ty))
  {
    hide HasType, Encode, LongestValue, Longest, PairsFit, WellFormed, MaxSize;
    var ty := Struct([a, b], true);
    MaxSizeBelowLimit(a);
    MaxSizeBelowLimit(b);
    PairSums(a, b);
    LongestIsReached(o, ty);
    if PairsFit(a) && MaxSize(a) < SIZE_MAX {
      MaxSizeIsLongest(a);
    }
    if PairsFit(b) && MaxSize(b) < SIZE_MAX {
      MaxSizeIsLongest(b);
    }
  }
}
