/** Exactly when serial_size, with its shortcut for arrays, is the length of the encoding. */
module SizeExactness {
  import opened Bytes
  import opened Codec
  import opened CodecSizes

  /** Every array that is counted by its element minimum holds only items of that length. */
  ghost predicate ShortcutsHold(o: Order, ty: Ty, v: Val)
    requires WellFormed(ty) && HasType(ty, v)
    decreases ty
  {
    match ty
    case Num(_) => true
    case Time => true
    case Opt(_, t) => v.VSome? ==> ShortcutsHold(o, t, v.inner)
    case Range(_, t) => forall i :: 0 <= i < |v.vs| ==> ShortcutsHold(o, t, v.vs[i])
    case Array(t, n) =>
      if MinSize(t) == MaxSize(t) then forall i :: 0 <= i < |v.vs| ==> |Encode(o, t, v.vs[i])| == MinSize(t)
      else forall i :: 0 <= i < |v.vs| ==> ShortcutsHold(o, t, v.vs[i])
    case Struct(fs, _) => forall i :: 0 <= i < |fs| ==> ShortcutsHold(o, fs[i], v.vs[i])
    case Variant(alts) => ShortcutsHold(o, alts[v.index], v.inner)
  }

  /**
   * serial_size never exceeds the length of an encoding that fits in size_t, and it is that length if and only if
   * no array shortcut passes over an item longer than the minimum.
   */
  lemma {:induction false} SerialSizeExactly(o: Order, ty: Ty, v: Val)
    requires WellFormed(ty) && HasType(ty, v)
    requires |Encode(o, ty, v)| < SIZE_LIMIT
    ensures SerialSize(ty, v) <= |Encode(o, ty, v)|
    ensures SerialSize(ty, v) == |Encode(o, ty, v)| <==> ShortcutsHold(o, ty, v)
    decreases ty, 1
  {
    hide NumBytes, EncodeItems, EncodeFields, ItemsSize, FieldsSize, MinSize, MaxSize;
    match ty
    case Num(_) =>
    case Time =>
    case Opt(_, t) => if v.VSome? { SerialSizeExactly(o, t, v.inner); }
    case Range(_, t) => ItemsSizeExactly(o, t, v.vs);
    case Array(t, n) =>
      if MinSize(t) == MaxSize(t) {
        ItemsAtLeast(o, t, v.vs);
        assert SerialSize(ty, v) == Wrap(MinSize(t) * |v.vs|);
      } else {
        ItemsSizeExactly(o, t, v.vs);
      }
    case Struct(fs, _) => FieldsSizeExactly(o, fs, v.vs);
    case Variant(alts) => SerialSizeExactly(o, alts[v.index], v.inner);
  }

  lemma {:induction false} ItemsSizeExactly(o: Order, t: Ty, vs: seq<Val>)
    requires WellFormed(t) && forall i :: 0 <= i < |vs| ==> HasType(t, vs[i])
    requires |EncodeItems(o, t, vs)| < SIZE_LIMIT
    ensures ItemsSize(t, vs) <= |EncodeItems(o, t, vs)|
    ensures ItemsSize(t, vs) == |EncodeItems(o, t, vs)| <==> forall i :: 0 <= i < |vs| ==> ShortcutsHold(o, t, vs[i])
    decreases t, 2, |vs|
  {
    hide WellFormed, HasType, Encode, SerialSize, ShortcutsHold;
    if vs != [] {
      SerialSizeExactly(o, t, vs[0]);
      ItemsSizeExactly(o, t, vs[1..]);
      assert (forall i :: 0 <= i < |vs| ==> ShortcutsHold(o, t, vs[i])) <==>
        ShortcutsHold(o, t, vs[0]) && forall i :: 0 <= i < |vs[1..]| ==> ShortcutsHold(o, t, vs[1..][i]) by {
        forall i | 1 <= i < |vs| ensures vs[i] == vs[1..][i - 1] {}
      }
    }
  }

  lemma {:induction false} FieldsSizeExactly(o: Order, fs: seq<Ty>, vs: seq<Val>)
    requires |fs| == |vs|
    requires forall i :: 0 <= i < |fs| ==> WellFormed(fs[i]) && HasType(fs[i], vs[i])
    requires |EncodeFields(o, fs, vs)| < SIZE_LIMIT
    ensures FieldsSize(fs, vs) <= |EncodeFields(o, fs, vs)|
    ensures FieldsSize(fs, vs) == |EncodeFields(o, fs, vs)| <==> forall i :: 0 <= i < |fs| ==> ShortcutsHold(o, fs[i], vs[i])
    decreases fs, 0
  {
    hide WellFormed, HasType, Encode, SerialSize, ShortcutsHold;
    if fs != [] {
      SerialSizeExactly(o, fs[0], vs[0]);
      FieldsSizeExactly(o, fs[1..], vs[1..]);
      assert (forall i :: 0 <= i < |fs| ==> ShortcutsHold(o, fs[i], vs[i])) <==>
        ShortcutsHold(o, fs[0], vs[0]) && forall i :: 0 <= i < |fs[1..]| ==> ShortcutsHold(o, fs[1..][i], vs[1..][i]) by {
        forall i | 1 <= i < |fs| ensures fs[i] == fs[1..][i - 1] && vs[i] == vs[1..][i - 1] {}
      }
    }
  }

  lemma SumOfLeast(m: nat, k: nat, first: nat, rest: nat)
    requires m <= first && m * k <= rest
    ensures m * (k + 1) <= first + rest
    ensures m * (k + 1) == first + rest <==> m == first && m * k == rest
  {
    Distribute(m, k);
  }

  /** No item is shorter than the minimum, so the total is the multiple of the minimum only if every item is minimal. */
  lemma {:induction false} ItemsAtLeast(o: Order, t: Ty, vs: seq<Val>)
    requires WellFormed(t) && forall i :: 0 <= i < |vs| ==> HasType(t, vs[i])
    ensures MinSize(t) * |vs| <= |EncodeItems(o, t, vs)|
    ensures MinSize(t) * |vs| == |EncodeItems(o, t, vs)| <==>
            forall i :: 0 <= i < |vs| ==> |Encode(o, t, vs[i])| == MinSize(t)
    decreases |vs|
  {
    hide WellFormed, HasType, Encode, MinSize;
    if vs != [] {
      var rest := vs[1..];
      MinSizeIsLowerBound(o, t, vs[0]);
      ItemsAtLeast(o, t, rest);
      SumOfLeast(MinSize(t), |rest|, |Encode(o, t, vs[0])|, |EncodeItems(o, t, rest)|);
      assert |rest| + 1 == |vs|;
      forall i | 1 <= i < |vs| ensures vs[i] == rest[i - 1] {}
    }
  }

  /** Wherever the type uses the array shortcut, the common minimum and maximum is the longest encoding, or saturated. */
  predicate ShortcutsSound(ty: Ty)
    requires WellFormed(ty)
    decreases ty
  {
    match ty
    case Num(_) => true
    case Time => true
    case Opt(_, t) => ShortcutsSound(t)
    case Range(_, t) => ShortcutsSound(t)
    case Array(t, _) =>
      if MinSize(t) == MaxSize(t) then MaxSize(t) == SIZE_MAX || Longest(t) <= MaxSize(t) else ShortcutsSound(t)
    case Struct(fs, _) => forall i :: 0 <= i < |fs| ==> ShortcutsSound(fs[i])
    case Variant(alts) => forall i :: 0 <= i < |alts| ==> ShortcutsSound(alts[i])
  }

  /** Only a wrapped pair inside the element type of a shortcut array can make a shortcut unsound. */
  lemma {:induction false} FittingPairsAreSound(ty: Ty)
    requires WellFormed(ty) && PairsFit(ty)
    ensures ShortcutsSound(ty)
    decreases ty
  {
    match ty
    case Num(_) =>
    case Time =>
    case Opt(_, t) => FittingPairsAreSound(t);
    case Range(_, t) => FittingPairsAreSound(t);
    case Array(t, _) =>
      MaxSizeBelowLimit(t);
      if MinSize(t) != MaxSize(t) {
        FittingPairsAreSound(t);
      } else if MaxSize(t) < SIZE_MAX {
        MaxSizeIsLongest(t);
      }
    case Struct(fs, _) => forall i | 0 <= i < |fs| ensures ShortcutsSound(fs[i]) { FittingPairsAreSound(fs[i]); }
    case Variant(alts) => forall i | 0 <= i < |alts| ensures ShortcutsSound(alts[i]) { FittingPairsAreSound(alts[i]); }
  }

  /** serial_size is the length of the encoding, array shortcut included, whenever that length fits in size_t. */
  lemma {:induction false} SerialSizeIsExact(o: Order, ty: Ty, v: Val)
    requires WellFormed(ty) && HasType(ty, v) && ShortcutsSound(ty)
    requires |Encode(o, ty, v)| < SIZE_LIMIT
    ensures SerialSize(ty, v) == |Encode(o, ty, v)|
  {
    hide HasType, Encode, SerialSize, ShortcutsHold;
    SoundShortcutsHold(o, ty, v);
    SerialSizeExactly(o, ty, v);
  }

  lemma {:induction false} SoundShortcutsHold(o: Order, ty: Ty, v: Val)
    requires WellFormed(ty) && HasType(ty, v) && ShortcutsSound(ty)
    requires |Encode(o, ty, v)| < SIZE_LIMIT
    ensures ShortcutsHold(o, ty, v)
    decreases ty, 1
  {
    match ty
    case Num(_) =>
    case Time =>
    case Opt(_, t) => if v.VSome? { SoundShortcutsHold(o, t, v.inner); }
    case Range(_, t) => SoundItems(o, t, v.vs);
    case Array(t, _) =>
      if MinSize(t) == MaxSize(t) {
        ArrayShortcut(o, t, v.vs);
      } else {
        SoundItems(o, t, v.vs);
      }
    case Struct(fs, _) =>
      forall i | 0 <= i < |fs| ensures ShortcutsHold(o, fs[i], v.vs[i]) {
        FieldInside(o, fs, v.vs, i);
        SoundShortcutsHold(o, fs[i], v.vs[i]);
      }
    case Variant(alts) => SoundShortcutsHold(o, alts[v.index], v.inner);
  }

  lemma {:induction false} SoundItems(o: Order, t: Ty, vs: seq<Val>)
    requires WellFormed(t) && ShortcutsSound(t) && forall i :: 0 <= i < |vs| ==> HasType(t, vs[i])
    requires |EncodeItems(o, t, vs)| < SIZE_LIMIT
    ensures forall i :: 0 <= i < |vs| ==> ShortcutsHold(o, t, vs[i])
    decreases t, 2
  {
    hide HasType, WellFormed, ShortcutsHold, ShortcutsSound;
    forall i | 0 <= i < |vs| ensures ShortcutsHold(o, t, vs[i]) {
      ItemInside(o, t, vs, i);
      SoundShortcutsHold(o, t, vs[i]);
    }
  }

  lemma {:induction false} ItemInside(o: Order, t: Ty, vs: seq<Val>, i: nat)
    requires i < |vs| && forall k :: 0 <= k < |vs| ==> HasType(t, vs[k])
    ensures |Encode(o, t, vs[i])| <= |EncodeItems(o, t, vs)|
  {
    hide HasType, Encode;
    if i > 0 {
      ItemInside(o, t, vs[1..], i - 1);
    }
  }

  lemma {:induction false} FieldInside(o: Order, fs: seq<Ty>, vs: seq<Val>, i: nat)
    requires i < |fs| == |vs| && forall k :: 0 <= k < |fs| ==> HasType(fs[k], vs[k])
    ensures |Encode(o, fs[i], vs[i])| <= |EncodeFields(o, fs, vs)|
  {
    hide HasType, Encode;
    if i > 0 {
      FieldInside(o, fs[1..], vs[1..], i - 1);
    }
  }

  /** Under a sound shortcut every item of an array that fits has the minimum length, and SZ * min is their sum. */
  lemma {:induction false} ArrayShortcut(o: Order, t: Ty, vs: seq<Val>)
    requires WellFormed(t) && vs != [] && forall i :: 0 <= i < |vs| ==> HasType(t, vs[i])
    requires MinSize(t) == MaxSize(t) && (MaxSize(t) == SIZE_MAX || Longest(t) <= MaxSize(t))
    requires |EncodeItems(o, t, vs)| < SIZE_LIMIT
    ensures MinSize(t) * |vs| == |EncodeItems(o, t, vs)|
    ensures forall i :: 0 <= i < |vs| ==> |Encode(o, t, vs[i])| == MinSize(t)
  {
    hide HasType, WellFormed, Encode, EncodeItems, MinSize, MaxSize, Longest;
    forall i | 0 <= i < |vs| ensures |Encode(o, t, vs[i])| == MinSize(t) {
      ItemInside(o, t, vs, i);
      MinSizeIsLowerBound(o, t, vs[i]);
      LongestIsUpperBound(o, t, vs[i]);
    }
    ItemsAtLeast(o, t, vs);
  }

  /**
   * A pair of a range and a type whose maximum is 9 above its minimum wraps into the shortcut. The size of an array of
   * such pairs is then wrong as soon as one pair holds a range item that takes a byte, or a second part above its minimum.
   */
  lemma {:induction false} WrappedPairShortcut(o: Order, forward: bool, e: Ty, u: Ty, n: nat, v: Val)
    requires WellFormed(e) && WellFormed(u) && MaxSize(u) == MinSize(u) + 9 && 0 < n < SIZE_LIMIT
    requires var t := Struct([Range(forward, e), u], true);
             WellFormed(t) && HasType(Array(t, n), v) && |Encode(o, Array(t, n), v)| < SIZE_LIMIT
    ensures var t := Struct([Range(forward, e), u], true);
            MinSize(t) == MaxSize(t) == 8 + MinSize(u)
    ensures var t := Struct([Range(forward, e), u], true);
            WellFormed(Array(t, n)) &&
            (SerialSize(Array(t, n), v) == |Encode(o, Array(t, n), v)| <==>
             forall i :: 0 <= i < n ==> |Encode(o, t, v.vs[i])| == 8 + MinSize(u))
  {
    hide HasType, Encode, SerialSize, MinSize, MaxSize, ShortcutsHold, WellFormed;
    var r := Range(forward, e);
    var t := Struct([r, u], true);
    MaxSizeBelowLimit(u);
    RangeSizes(forward, e);
    PairSums(r, u);
    ShortcutArray(o, t, n, v);
    SerialSizeExactly(o, Array(t, n), v);
  }

  lemma {:induction false} ShortcutArray(o: Order, t: Ty, n: nat, v: Val)
    requires WellFormed(t) && !IsEmptyClass(t) && 0 < n < SIZE_LIMIT && HasType(Array(t, n), v) && MinSize(t) == MaxSize(t)
    ensures WellFormed(Array(t, n)) && v.VList? && |v.vs| == n && forall i :: 0 <= i < n ==> HasType(t, v.vs[i])
    ensures ShortcutsHold(o, Array(t, n), v) <==> forall i :: 0 <= i < n ==> |Encode(o, t, v.vs[i])| == MinSize(t)
  {}

  lemma {:induction false} RangeSizes(forward: bool, e: Ty)
    requires WellFormed(e)
    ensures WellFormed(Range(forward, e)) && MinSize(Range(forward, e)) == 8 && MaxSize(Range(forward, e)) == SIZE_MAX
  {}

  const NINE := Struct([Num(8), Num(1)], false)
  const LOOSE_PAIR := Struct([Range(false, Num(1)), Opt(Optional, NINE)], true)
  const LOOSE_ITEM := VList([VList([VNum(7)]), VNone])

  lemma LooseSizes()
    ensures WellFormed(LOOSE_PAIR) && MinSize(LOOSE_PAIR) == MaxSize(LOOSE_PAIR) == 9
  {
    var fs := [Num(8), Num(1)];
    assert WellFormed(fs[0]) && WellFormed(fs[1]);
    assert MaxSum(fs[1..], 8) == 9 by { assert MaxSum(fs[1..][1..], 9) == 9; }
    assert MaxSize(NINE) == 9;
    RangeSizes(false, Num(1));
    PairSums(Range(false, Num(1)), Opt(Optional, NINE));
  }

  lemma {:induction false} SevenAlone(o: Order)
    ensures HasType(Num(1), VNum(7)) && |Encode(o, Num(1), VNum(7))| == 1
  {
    assert Pow256(1) == 256 * Pow256(0);
  }

  lemma {:induction false} SevenInAVector(o: Order)
    ensures HasType(Range(false, Num(1)), VList([VNum(7)]))
    ensures |Encode(o, Range(false, Num(1)), VList([VNum(7)]))| == 9
  {
    SevenAlone(o);
    var seven := [VNum(7)];
    assert forall i :: 0 <= i < |seven| ==> HasType(Num(1), seven[i]);
    SplitItems(o, Num(1), seven, []);
    assert EncodeItems(o, Num(1), seven[1..]) == [];
  }

  lemma {:induction false} LooseItem(o: Order)
    ensures HasType(LOOSE_PAIR, LOOSE_ITEM) && |Encode(o, LOOSE_PAIR, LOOSE_ITEM)| == 10
  {
    var (fs, vs) := (LOOSE_PAIR.fields, LOOSE_ITEM.vs);
    SevenInAVector(o);
    assert |Encode(o, fs[1], vs[1])| == 1;
    assert HasType(LOOSE_PAIR, LOOSE_ITEM) by { assert HasType(fs[0], vs[0]) && HasType(fs[1], vs[1]); }
    assert Encode(o, LOOSE_PAIR, LOOSE_ITEM) == EncodeFields(o, fs, vs);
    hide HasType, Encode;
    SplitFields(o, fs, vs, []);
    SplitFields(o, fs[1..], vs[1..], []);
    assert fs[1..][1..] == [] && vs[1..][1..] == [];
  }

  /** Two pairs of a one-byte vector and an empty optional: serial_size says 18 for 20 bytes. */
  lemma ShortcutLosesBytes(o: Order)
    ensures var (ty, v) := (Array(LOOSE_PAIR, 2), VList([LOOSE_ITEM, LOOSE_ITEM]));
            WellFormed(ty) && HasType(ty, v) && SerialSize(ty, v) == 18 && |Encode(o, ty, v)| == 20
  {
    LooseSizes();
    LooseItem(o);
    var vs := [LOOSE_ITEM, LOOSE_ITEM];
    assert forall i :: 0 <= i < |vs| ==> HasType(LOOSE_PAIR, vs[i]);
    assert SerialSize(Array(LOOSE_PAIR, 2), VList(vs)) == Wrap(2 * MinSize(LOOSE_PAIR));
    hide WellFormed, Encode, SerialSize, MinSize;
    SplitItems(o, LOOSE_PAIR, vs, []);
    SplitItems(o, LOOSE_PAIR, vs[1..], []);
    assert vs[1..][1..] == [];
  }
}
