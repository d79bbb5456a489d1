/** Decoding a complete encoding with a reader that has not failed: the round trip over the whole type universe. */
module OneShot {
  import opened Bytes
  import opened Codec
  import opened Reader

  /** No bytes to skip and no memo left by a deeper level. */
  predicate Clean(st: State) {
    st.iter == st.end && st.level >= 0 && forall l :: l in st.reg ==> l <= st.level
  }

  function Advance(st: State, n: nat, rest: seq<byte>): State {
    st.(unread := rest, end := st.end + n, iter := st.iter + n)
  }

  /** The state after a whole value of n bytes: a message that ends at level 0 also moves begin and drops the memo. */
  function After(ty: Ty, st: State, n: nat, rest: seq<byte>): State {
    var moved := Advance(st, n, rest);
    if ty.Num? || st.level > 0 then moved else moved.(begin := moved.end, reg := map[])
  }

  /** a differs from b at most in the memo of its current level. */
  predicate SameButMemo(a: State, b: State) {
    a == b.(reg := a.reg) && SameBelow(a.reg, b.reg, a.level)
  }

  predicate SameBelow(a: map<int, seq<nat>>, b: map<int, seq<nat>>, level: int) {
    a - {level} == b - {level} && forall l :: l in a ==> l <= level
  }

  lemma RegisterSameBelow(st: State, x: nat)
    requires forall l :: l in st.reg ==> l <= st.level
    ensures SameBelow(Register(st, x).reg, st.reg, st.level)
    ensures RegisteredSize(Register(st, x)) == RegisteredSize(st) + 1
    ensures Register(st, x) == st.(reg := Register(st, x).reg)
  {
    assert Register(st, x).reg - {st.level} == st.reg - {st.level};
  }

  lemma UpdateSameBelow(st: State, x: nat, i: nat)
    requires i < RegisteredSize(st)
    requires forall l :: l in st.reg ==> l <= st.level
    ensures SameBelow(UpdateAt(st, x, i).reg, st.reg, st.level)
    ensures RegisteredSize(UpdateAt(st, x, i)) == RegisteredSize(st)
    ensures UpdateAt(st, x, i) == st.(reg := UpdateAt(st, x, i).reg)
  {
    assert UpdateAt(st, x, i).reg - {st.level} == st.reg - {st.level};
  }

  lemma {:induction false} NumReadExact(o: Order, w: nat, x: nat, rest: seq<byte>, st: State)
    requires Agrees(o) && x < Pow256(w) && st.unread == NumBytes(o, w, x) + rest
    ensures NumRead(o, w, st) == NumStep(Ok, x, Advance(st, w, rest))
  {
    NumRoundTrip(o, w, x);
    assert st.unread[..w] == NumBytes(o, w, x) && st.unread[w..] == rest;
  }

  lemma SmallNumbers()
    ensures Pow256(1) == 256 && Pow256(8) == SIZE_LIMIT
  {
    assert Pow256(2) == 0x1_0000;
    assert Pow256(4) == 0x1_0000_0000;
    assert Pow256(6) == 0x1_0000_0000_0000;
  }

  lemma Settle(ty: Ty, r: Step, st: State, n: nat, rest: seq<byte>)
    requires Clean(st) && !ty.Num? && r.code.Ok?
    requires SameButMemo(r.st, Advance(st.(level := st.level + 1), n, rest))
    ensures Leave(r) == Step(Ok, r.target, After(ty, st, n, rest))
  {
    assert r.st.reg - {st.level + 1} == st.reg;
  }

  /** What a target holds after v was decoded into it: a std::optional that holds a value keeps it if v has none there. */
  function Merged(ty: Ty, v: Val, target: Val): (r: Val)
    requires HasType(ty, v) && HasType(ty, target)
    decreases ty, 1
  {
    match ty
    case Opt(holder, _) => if holder.Optional? && v.VNone? then target else v
    case Array(t, _) => VList(MergedItems(t, v.vs, target.vs))
    case Struct(fs, _) => VList(MergedFields(fs, v.vs, target.vs))
    case _ => v
  }

  function MergedItems(t: Ty, vs: seq<Val>, targets: seq<Val>): (r: seq<Val>)
    requires |vs| == |targets| && forall i :: 0 <= i < |vs| ==> HasType(t, vs[i]) && HasType(t, targets[i])
    ensures |r| == |vs| && forall i :: 0 <= i < |vs| ==> r[i] == Merged(t, vs[i], targets[i])
    decreases t, 2
  {
    seq(|vs|, i requires 0 <= i < |vs| => Merged(t, vs[i], targets[i]))
  }

  function MergedFields(fs: seq<Ty>, vs: seq<Val>, targets: seq<Val>): (r: seq<Val>)
    requires |fs| == |vs| == |targets|
    requires forall i :: 0 <= i < |fs| ==> HasType(fs[i], vs[i]) && HasType(fs[i], targets[i])
    ensures |r| == |fs| && forall i :: 0 <= i < |fs| ==> r[i] == Merged(fs[i], vs[i], targets[i])
    decreases fs, 0
  {
    seq(|fs|, i requires 0 <= i < |fs| => Merged(fs[i], vs[i], targets[i]))
  }

  /** No std::optional that is decoded in place holds a value. */
  predicate Blank(ty: Ty, target: Val)
    requires HasType(ty, target)
    decreases ty
  {
    match ty
    case Opt(holder, _) => holder.Optional? ==> target.VNone?
    case Array(t, _) => forall i :: 0 <= i < |target.vs| ==> Blank(t, target.vs[i])
    case Struct(fs, _) => forall i :: 0 <= i < |fs| ==> Blank(fs[i], target.vs[i])
    case _ => true
  }

  lemma {:induction false} MergedIntoBlank(ty: Ty, v: Val, target: Val)
    requires HasType(ty, v) && HasType(ty, target) && Blank(ty, target)
    ensures Merged(ty, v, target) == v
    decreases ty
  {
    match ty
    case Array(t, _) =>
      forall i | 0 <= i < |v.vs| ensures Merged(t, v.vs[i], target.vs[i]) == v.vs[i] {
        MergedIntoBlank(t, v.vs[i], target.vs[i]);
      }
      assert MergedItems(t, v.vs, target.vs) == v.vs;
    case Struct(fs, _) =>
      forall i | 0 <= i < |fs| ensures Merged(fs[i], v.vs[i], target.vs[i]) == v.vs[i] {
        MergedIntoBlank(fs[i], v.vs[i], target.vs[i]);
      }
      assert MergedFields(fs, v.vs, target.vs) == v.vs;
    case _ =>
  }

  /** A default-constructed target is well typed and blank. */
  lemma {:induction false} FreshIsBlank(ty: Ty)
    requires WellFormed(ty)
    ensures HasType(ty, Fresh(ty)) && Blank(ty, Fresh(ty))
    decreases ty
  {
    match ty
    case Num(w) => NoNumber(w);
    case Time => NoNumber(8);
    case Array(t, _) => FreshIsBlank(t);
    case Struct(fs, _) =>
      forall i | 0 <= i < |fs| ensures HasType(fs[i], Fresh(fs[i])) && Blank(fs[i], Fresh(fs[i])) {
        FreshIsBlank(fs[i]);
      }
    case Variant(alts) => FreshIsBlank(alts[0]);
    case _ =>
  }

  lemma {:induction false} NoNumber(w: nat)
    ensures 0 < Pow256(w)
  {}

  /** The target with every std::optional that is decoded in place emptied. */
  function Emptied(ty: Ty, target: Val): (r: Val)
    requires HasType(ty, target)
    ensures HasType(ty, r)
    decreases ty
  {
    match ty
    case Opt(holder, _) => if holder.Optional? then VNone else target
    case Array(t, _) => VList(seq(|target.vs|, i requires 0 <= i < |target.vs| => Emptied(t, target.vs[i])))
    case Struct(fs, _) => VList(seq(|fs|, i requires 0 <= i < |fs| => Emptied(fs[i], target.vs[i])))
    case _ => target
  }

  lemma {:induction false} EmptiedIsLost(ty: Ty, target: Val)
    requires HasType(ty, target)
    ensures Merged(ty, Emptied(ty, target), target) == target
    ensures Emptied(ty, target) == target ==> Blank(ty, target)
    decreases ty
  {
    var e := Emptied(ty, target);
    match ty
    case Array(t, _) =>
      forall i | 0 <= i < |target.vs|
        ensures Merged(t, e.vs[i], target.vs[i]) == target.vs[i] && (e.vs[i] == target.vs[i] ==> Blank(t, target.vs[i]))
      {
        EmptiedIsLost(t, target.vs[i]);
      }
      assert MergedItems(t, e.vs, target.vs) == target.vs;
    case Struct(fs, _) =>
      forall i | 0 <= i < |fs|
        ensures Merged(fs[i], e.vs[i], target.vs[i]) == target.vs[i]
        ensures e.vs[i] == target.vs[i] ==> Blank(fs[i], target.vs[i])
      {
        EmptiedIsLost(fs[i], target.vs[i]);
      }
      assert MergedFields(fs, e.vs, target.vs) == target.vs;
    case _ =>
  }

  /** Every value overwrites a target if and only if the target is blank. */
  lemma {:induction false} OverwritesExactly(ty: Ty, target: Val)
    requires HasType(ty, target)
    ensures (forall v :: HasType(ty, v) ==> Merged(ty, v, target) == v) <==> Blank(ty, target)
  {
    hide HasType, Merged, Blank, Emptied;
    EmptiedIsLost(ty, target);
    if Blank(ty, target) {
      forall v | HasType(ty, v) ensures Merged(ty, v, target) == v {
        MergedIntoBlank(ty, v, target);
      }
    }
  }

  /** The round trip: exactly v, exactly the rest left unread, the level restored and no memo left behind. */
  lemma {:induction false} RoundTrip(o: Order, ty: Ty, v: Val, rest: seq<byte>, st: State)
    requires Agrees(o) && WellFormed(ty) && HasType(ty, v) && Clean(st)
    requires st.unread == Encode(o, ty, v) + rest
    ensures Decode(o, ty, Fresh(ty), st) == Step(Ok, v, After(ty, st, |Encode(o, ty, v)|, rest))
    decreases ty, 3
  {
    hide Decode, Fresh, WellFormed, HasType, Encode, Merged, Blank, Clean;
    FreshIsBlank(ty);
    MergedIntoBlank(ty, v, Fresh(ty));
    RoundTripInto(o, ty, v, Fresh(ty), rest, st);
  }

  /** The same into any target of the type. */
  lemma {:induction false} RoundTripInto(o: Order, ty: Ty, v: Val, target: Val, rest: seq<byte>, st: State)
    requires Agrees(o) && WellFormed(ty) && HasType(ty, v) && HasType(ty, target) && Clean(st)
    requires st.unread == Encode(o, ty, v) + rest
    ensures Decode(o, ty, target, st) == Step(Ok, Merged(ty, v, target), After(ty, st, |Encode(o, ty, v)|, rest))
    decreases ty, 2
  {
    hide Body, Fresh, WellFormed, NumBytes, Leave;
    if ty.Num? {
      NumReadExact(o, ty.width, v.raw, rest, st);
    } else {
      var inside := st.(level := st.level + 1);
      BodyRoundTrip(o, ty, v, target, rest, inside);
      Settle(ty, Body(o, ty, target, inside), st, |Encode(o, ty, v)|, rest);
    }
  }

  lemma {:induction false} BodyRoundTrip(o: Order, ty: Ty, v: Val, target: Val, rest: seq<byte>, st: State)
    requires Agrees(o) && WellFormed(ty) && !ty.Num? && HasType(ty, v) && HasType(ty, target)
    requires Clean(st) && st.level > 0 && st.level !in st.reg
    requires st.unread == Encode(o, ty, v) + rest
    ensures var r := Body(o, ty, target, st);
            r.code.Ok? && r.target == Merged(ty, v, target) && SameButMemo(r.st, Advance(st, |Encode(o, ty, v)|, rest))
    decreases ty, 1
  {
    hide Decode, OptBody, RangeBody, ArrayBody, FieldLoop, VariantBody, EncodeItems, EncodeFields, NumBytes, MergedItems,
      MergedFields;
    match ty
    case Time => NumReadExact(o, 8, v.raw, rest, st);
    case Opt(holder, t) => OptRoundTrip(o, holder, t, v, target, rest, st);
    case Range(forward, t) => RangeRoundTrip(o, forward, t, v.vs, target, rest, st);
    case Array(t, n) => ArrayRoundTrip(o, t, v.vs, target.vs, rest, st);
    case Struct(fs, _) => FieldsRoundTrip(o, fs, v.vs, target.vs, rest, st);
    case Variant(alts) => VariantRoundTrip(o, alts, v, target, rest, st);
  }

  lemma {:induction false} OptRoundTrip(
      o: Order, holder: Holder, t: Ty, v: Val, target: Val, rest: seq<byte>, st: State)
    requires Agrees(o) && WellFormed(t) && HasType(Opt(holder, t), v) && HasType(Opt(holder, t), target)
    requires Clean(st) && st.level > 0
    requires st.unread == Encode(o, Opt(holder, t), v) + rest
    ensures OptBody(o, holder, t, target, st)
            == Step(Ok, Merged(Opt(holder, t), v, target), Advance(st, |Encode(o, Opt(holder, t), v)|, rest))
    decreases t, 5
  {
    hide Decode, Body, Fresh, WellFormed, NumRead, NumBytes;
    assert 1 < Pow256(1) by { SmallNumbers(); }
    if v.VNone? {
      NumReadExact(o, 1, 0, rest, st);
    } else {
      var tail := Encode(o, t, v.inner) + rest;
      assert st.unread == NumBytes(o, 1, 1) + tail;
      NumReadExact(o, 1, 1, tail, st);
      RoundTrip(o, t, v.inner, rest, Advance(st, 1, tail));
    }
  }

  lemma {:induction false} VariantRoundTrip(o: Order, alts: seq<Ty>, v: Val, target: Val, rest: seq<byte>, st: State)
    requires Agrees(o) && WellFormed(Variant(alts)) && HasType(Variant(alts), v)
    requires Clean(st) && st.level > 0
    requires st.unread == Encode(o, Variant(alts), v) + rest
    ensures VariantBody(o, alts, target, st) == Step(Ok, v, Advance(st, |Encode(o, Variant(alts), v)|, rest))
    decreases alts, 5
  {
    hide Decode, Body, Fresh, NumRead, NumBytes;
    SmallNumbers();
    var tail := Encode(o, alts[v.index], v.inner) + rest;
    assert st.unread == NumBytes(o, 8, v.index) + tail;
    NumReadExact(o, 8, v.index, tail, st);
    RoundTrip(o, alts[v.index], v.inner, rest, Advance(st, 8, tail));
  }

  lemma {:induction false} FieldStep(o: Order, fs: seq<Ty>, targets: seq<Val>, st: State, x: Val,
                                     st1: State, xs: seq<Val>, st2: State)
    requires fs != [] && targets != [] && forall i :: 0 <= i < |fs| ==> WellFormed(fs[i])
    requires Decode(o, fs[0], targets[0], st) == Step(Ok, x, st1)
    requires FieldLoop(o, fs[1..], targets[1..], st1) == Step(Ok, VList(xs), st2)
    ensures FieldLoop(o, fs, targets, st) == Step(Ok, VList([x] + xs), st2)
  {}

  lemma {:induction false} FieldsRoundTrip(
      o: Order, fs: seq<Ty>, vs: seq<Val>, targets: seq<Val>, rest: seq<byte>, st: State)
    requires Agrees(o) && Clean(st) && st.level > 0
    requires |fs| == |vs| == |targets|
    requires forall i :: 0 <= i < |fs| ==> WellFormed(fs[i]) && HasType(fs[i], vs[i]) && HasType(fs[i], targets[i])
    requires st.unread == EncodeFields(o, fs, vs) + rest
    ensures FieldLoop(o, fs, targets, st)
            == Step(Ok, VList(MergedFields(fs, vs, targets)), Advance(st, |EncodeFields(o, fs, vs)|, rest))
    decreases fs, 0
  {
    hide Decode, Body, FieldLoop, HasType, Encode, EncodeFields, WellFormed, Merged, MergedFields;
    var merged := MergedFields(fs, vs, targets);
    if fs == [] {
      NothingLeft(o, false, Time, [], rest, st);
      assert fs == [] && vs == [] && targets == [] && merged == [];
    } else {
      SplitFields(o, fs, vs, rest);
      var tail := EncodeFields(o, fs[1..], vs[1..]) + rest;
      RoundTripInto(o, fs[0], vs[0], targets[0], tail, st);
      var st1 := Advance(st, |Encode(o, fs[0], vs[0])|, tail);
      FieldsRoundTrip(o, fs[1..], vs[1..], targets[1..], rest, st1);
      assert merged == [Merged(fs[0], vs[0], targets[0])] + MergedFields(fs[1..], vs[1..], targets[1..]);
      FieldStep(o, fs, targets, st, Merged(fs[0], vs[0], targets[0]), st1, MergedFields(fs[1..], vs[1..], targets[1..]),
                Advance(st, |EncodeFields(o, fs, vs)|, rest));
    }
  }

  lemma {:induction false} NothingLeft(o: Order, forward: bool, t: Ty, held: seq<Val>, rest: seq<byte>, st: State)
    requires WellFormed(t)
    ensures EncodeItems(o, t, []) == [] && [] + rest == rest
    ensures ItemLoop(o, forward, t, held, 0, 0, st) == Step(Ok, VList(held), st)
    ensures ArrayLoop(o, t, held, |held|, |held|, st) == Step(Ok, VList(held), st)
    ensures EncodeFields(o, [], []) == [] && FieldLoop(o, [], [], st) == Step(Ok, VList([]), st)
  {}

  lemma ItemStep(o: Order, t: Ty, held: seq<Val>, todo: nat, st: State, x: Val, st1: State)
    requires WellFormed(t) && todo > 0
    requires Decode(o, t, Fresh(t), st) == Step(Ok, x, st1)
    ensures ItemLoop(o, false, t, held, todo, 0, st) == ItemLoop(o, false, t, held + [x], todo - 1, 0, st1)
  {}

  lemma {:induction false} ItemsRoundTrip(
      o: Order, t: Ty, held: seq<Val>, vs: seq<Val>, rest: seq<byte>, st: State)
    requires Agrees(o) && WellFormed(t) && Clean(st) && st.level > 0
    requires forall i :: 0 <= i < |vs| ==> HasType(t, vs[i])
    requires st.unread == EncodeItems(o, t, vs) + rest
    ensures var r := ItemLoop(o, false, t, held, |vs|, 0, st);
            r.code.Ok? && r.target == VList(held + vs) && r.st == Advance(st, |EncodeItems(o, t, vs)|, rest)
    decreases t, 4, |vs|
  {
    hide Decode, Body, ItemLoop, HasType, Encode, EncodeItems, WellFormed, Fresh;
    if vs == [] {
      NothingLeft(o, false, t, held, rest, st);
      assert held + vs == held;
    } else {
      SplitItems(o, t, vs, rest);
      var tail := EncodeItems(o, t, vs[1..]) + rest;
      RoundTrip(o, t, vs[0], tail, st);
      var st1 := Advance(st, |Encode(o, t, vs[0])|, tail);
      ItemStep(o, t, held, |vs|, st, vs[0], st1);
      ItemsRoundTrip(o, t, held + [vs[0]], vs[1..], rest, st1);
      assert (held + [vs[0]]) + vs[1..] == held + vs;
    }
  }

  lemma ForwardStep(o: Order, t: Ty, held: seq<Val>, todo: nat, st: State, x: Val, st1: State)
    requires WellFormed(t) && todo > 0
    requires Decode(o, t, Fresh(t), st) == Step(Ok, x, st1)
    requires RegisteredSize(st1) == 2
    ensures ItemLoop(o, true, t, held, todo, 0, st)
            == ItemLoop(o, true, t, [x] + held, todo - 1, 0, UpdateAt(st1, 1, 1))
  {}

  lemma {:induction false} ForwardItemsRoundTrip(
      o: Order, t: Ty, held: seq<Val>, vs: seq<Val>, rest: seq<byte>, st: State)
    requires Agrees(o) && WellFormed(t) && Clean(st) && st.level > 0
    requires forall i :: 0 <= i < |vs| ==> HasType(t, vs[i])
    requires RegisteredSize(st) == 2
    requires st.unread == EncodeItems(o, t, vs) + rest
    ensures var r := ItemLoop(o, true, t, held, |vs|, 0, st);
            r.code.Ok? && r.target == VList(Reverse(vs) + held) &&
            SameButMemo(r.st, Advance(st, |EncodeItems(o, t, vs)|, rest))
    decreases t, 4, |vs|
  {
    hide Decode, Body, ItemLoop, HasType, Encode, EncodeItems, WellFormed, Fresh;
    if vs == [] {
      NothingLeft(o, true, t, held, rest, st);
      assert Reverse(vs) + held == held;
    } else {
      SplitItems(o, t, vs, rest);
      var tail := EncodeItems(o, t, vs[1..]) + rest;
      RoundTrip(o, t, vs[0], tail, st);
      var st1 := Advance(st, |Encode(o, t, vs[0])|, tail);
      ForwardStep(o, t, held, |vs|, st, vs[0], st1);
      UpdateSameBelow(st1, 1, 1);
      ForwardItemsRoundTrip(o, t, [vs[0]] + held, vs[1..], rest, UpdateAt(st1, 1, 1));
      assert Reverse(vs[1..]) + ([vs[0]] + held) == Reverse(vs) + held;
    }
  }

  /** Reading a size header with no memo on this level leaves the item loop to run on a memo of one or two entries. */
  lemma {:induction false} RangeStart(o: Order, forward: bool, t: Ty, n: nat, target: Val, st: State, st1: State)
    requires WellFormed(t) && n < SIZE_LIMIT
    requires !CanSkip(st, 8) && NumRead(o, 8, st) == NumStep(Ok, n, st1) && st1.level !in st1.reg
    ensures !forward ==>
              RangeBody(o, forward, t, target, st) == ItemLoop(o, false, t, [], n, 0, Register(st1, n))
    ensures forward ==>
              var r := ItemLoop(o, true, t, [], n, 0, Register(Register(st1, n), 0));
              RangeBody(o, forward, t, target, st)
              == if r.code.Ok? then r.(target := VList(Reverse(Components(r.target)))) else r
  {
    hide ItemLoop, NumRead, Reverse, Decode;
    if forward {
      assert RangeBody(o, forward, t, target, st) == ForwardBody(o, t, [], n, Register(st1, n));
    }
  }

  lemma HeaderExact(o: Order, n: nat, items: seq<byte>, rest: seq<byte>, st: State)
    requires Agrees(o) && n < SIZE_LIMIT && st.unread == NumBytes(o, 8, n) + items + rest
    ensures NumRead(o, 8, st) == NumStep(Ok, n, Advance(st, 8, items + rest))
  {
    SmallNumbers();
    assert st.unread == NumBytes(o, 8, n) + (items + rest);
    NumReadExact(o, 8, n, items + rest, st);
  }

  lemma {:induction false} RangeRoundTrip(
      o: Order, forward: bool, t: Ty, vs: seq<Val>, target: Val, rest: seq<byte>, st: State)
    requires Agrees(o) && WellFormed(t) && st.level > 0 && |vs| < SIZE_LIMIT
    requires Clean(st) && st.level !in st.reg
    requires forall i :: 0 <= i < |vs| ==> HasType(t, vs[i])
    requires st.unread == NumBytes(o, 8, |vs|) + EncodeItems(o, t, vs) + rest
    ensures var r := RangeBody(o, forward, t, target, st);
            r.code.Ok? && r.target == VList(vs) &&
            SameButMemo(r.st, Advance(st, 8 + |EncodeItems(o, t, vs)|, rest))
    decreases t, 5
  {
    hide Decode, Body, RangeBody, ItemLoop, HasType, Encode, EncodeItems, WellFormed, Fresh, NumBytes, NumRead, Reverse, Register,
      SameButMemo;
    HeaderExact(o, |vs|, EncodeItems(o, t, vs), rest, st);
    var st0 := Advance(st, 8, EncodeItems(o, t, vs) + rest);
    RangeStart(o, forward, t, |vs|, target, st, st0);
    RangeItemsRoundTrip(o, forward, t, vs, rest, st0);
    assert Advance(st0, |EncodeItems(o, t, vs)|, rest) == Advance(st, 8 + |EncodeItems(o, t, vs)|, rest);
    ReverseTwice(vs);
  }

  lemma {:induction false} RangeItemsRoundTrip(
      o: Order, forward: bool, t: Ty, vs: seq<Val>, rest: seq<byte>, st: State)
    requires Agrees(o) && WellFormed(t) && st.level > 0
    requires Clean(st) && st.level !in st.reg
    requires forall i :: 0 <= i < |vs| ==> HasType(t, vs[i])
    requires st.unread == EncodeItems(o, t, vs) + rest
    ensures var st1 := Register(st, |vs|);
            var r := ItemLoop(o, forward, t, [], |vs|, 0, if forward then Register(st1, 0) else st1);
            r.code.Ok? && r.target == VList(if forward then Reverse(vs) else vs) &&
            SameButMemo(r.st, Advance(st, |EncodeItems(o, t, vs)|, rest))
    decreases t, 4, |vs| + 1
  {
    hide Decode, Body, RangeBody, ItemLoop, HasType, Encode, EncodeItems, WellFormed, Fresh, NumBytes;
    var st1 := Register(st, |vs|);
    RegisterSameBelow(st, |vs|);
    if forward {
      RegisterSameBelow(st1, 0);
      ForwardItemsRoundTrip(o, t, [], vs, rest, Register(st1, 0));
      assert Reverse(vs) + [] == Reverse(vs);
    } else {
      ItemsRoundTrip(o, t, [], vs, rest, st1);
      assert [] + vs == vs;
    }
  }

  lemma {:induction false} ArrayStep(o: Order, t: Ty, elems: seq<Val>, i: nat, st: State, x: Val, st1: State)
    requires WellFormed(t) && i < |elems|
    requires Decode(o, t, elems[i], st) == Step(Ok, x, st1)
    requires RegisteredSize(st1) > 0
    ensures ArrayLoop(o, t, elems, i, |elems|, st)
            == ArrayLoop(o, t, elems[i := x], i + 1, |elems|, UpdateAt(st1, |elems| - 1, 0))
  {}

  lemma {:induction false} ArrayItemsRoundTrip(
      o: Order, t: Ty, done: seq<Val>, elems: seq<Val>, vs: seq<Val>, targets: seq<Val>, rest: seq<byte>, st: State)
    requires Agrees(o) && WellFormed(t) && Clean(st) && st.level > 0
    requires |vs| == |targets| && forall i :: 0 <= i < |vs| ==> HasType(t, vs[i]) && HasType(t, targets[i])
    requires RegisteredSize(st) == 1 && elems == done + targets
    requires st.unread == EncodeItems(o, t, vs) + rest
    ensures var r := ArrayLoop(o, t, elems, |done|, |elems|, st);
            r.code.Ok? && r.target == VList(done + MergedItems(t, vs, targets)) &&
            SameButMemo(r.st, Advance(st, |EncodeItems(o, t, vs)|, rest))
    decreases t, 4, |vs|
  {
    hide Decode, Body, ArrayLoop, HasType, Encode, EncodeItems, WellFormed, Merged, MergedItems, UpdateAt;
    var merged := MergedItems(t, vs, targets);
    if vs == [] {
      NothingLeft(o, false, t, elems, rest, st);
      assert merged == [] && elems == done == done + merged;
    } else {
      SplitItems(o, t, vs, rest);
      var tail := EncodeItems(o, t, vs[1..]) + rest;
      RoundTripInto(o, t, vs[0], targets[0], tail, st);
      var (x, st1) := (Merged(t, vs[0], targets[0]), Advance(st, |Encode(o, t, vs[0])|, tail));
      assert elems[|done|] == targets[0];
      ArrayStep(o, t, elems, |done|, st, x, st1);
      UpdateSameBelow(st1, |elems| - 1, 0);
      var (elems1, done1) := (elems[|done| := x], done + [x]);
      assert elems1 == done1 + targets[1..];
      ArrayItemsRoundTrip(o, t, done1, elems1, vs[1..], targets[1..], rest, UpdateAt(st1, |elems| - 1, 0));
      assert merged == [x] + MergedItems(t, vs[1..], targets[1..]);
      assert done1 + MergedItems(t, vs[1..], targets[1..]) == done + merged;
    }
  }

  lemma {:induction false} ArrayRoundTrip(o: Order, t: Ty, vs: seq<Val>, targets: seq<Val>, rest: seq<byte>, st: State)
    requires Agrees(o) && WellFormed(t) && st.level > 0
    requires Clean(st) && st.level !in st.reg
    requires |vs| == |targets| && forall i :: 0 <= i < |vs| ==> HasType(t, vs[i]) && HasType(t, targets[i])
    requires st.unread == EncodeItems(o, t, vs) + rest
    ensures var r := ArrayBody(o, t, |vs|, VList(targets), st);
            r.code.Ok? && r.target == VList(MergedItems(t, vs, targets)) &&
            SameButMemo(r.st, Advance(st, |EncodeItems(o, t, vs)|, rest))
    decreases t, 5
  {
    hide Decode, Body, ArrayLoop, HasType, Encode, EncodeItems, WellFormed, Merged, MergedItems;
    var st1 := Register(st, |vs|);
    RegisterSameBelow(st, |vs|);
    assert ArrayBody(o, t, |vs|, VList(targets), st) == ArrayLoop(o, t, targets, 0, |vs|, st1);
    assert [] + targets == targets;
    ArrayItemsRoundTrip(o, t, [], targets, vs, targets, rest, st1);
    assert [] + MergedItems(t, vs, targets) == MergedItems(t, vs, targets);
  }
}
