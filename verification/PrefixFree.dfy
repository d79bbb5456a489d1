/** The code is prefix-free: a reader given less than a whole value reports it and stops between numeric fields. */
module PrefixFree {
  import opened Bytes
  import opened Codec
  import opened Reader
  import opened OneShot

  /** The numeric fields Serialize writes, in order. */
  function Chunks(o: Order, ty: Ty, v: Val): (cs: seq<seq<byte>>)
    requires HasType(ty, v)
    decreases ty, 1
  {
    match ty
    case Num(w) => [NumBytes(o, w, v.raw)]
    case Time => [NumBytes(o, 8, v.raw)]
    case Opt(_, t) => if v.VSome? then [NumBytes(o, 1, 1)] + Chunks(o, t, v.inner) else [NumBytes(o, 1, 0)]
    case Range(_, t) => [NumBytes(o, 8, |v.vs|)] + ItemChunks(o, t, v.vs)
    case Array(t, _) => ItemChunks(o, t, v.vs)
    case Struct(fs, _) => FieldChunks(o, fs, v.vs)
    case Variant(alts) => [NumBytes(o, 8, v.index)] + Chunks(o, alts[v.index], v.inner)
  }

  function ItemChunks(o: Order, t: Ty, vs: seq<Val>): (cs: seq<seq<byte>>)
    requires forall i :: 0 <= i < |vs| ==> HasType(t, vs[i])
    decreases t, 2, |vs|
  {
    if vs == [] then [] else Chunks(o, t, vs[0]) + ItemChunks(o, t, vs[1..])
  }

  function FieldChunks(o: Order, fs: seq<Ty>, vs: seq<Val>): (cs: seq<seq<byte>>)
    requires |fs| == |vs| && forall i :: 0 <= i < |fs| ==> HasType(fs[i], vs[i])
    decreases fs, 0
  {
    if fs == [] then [] else Chunks(o, fs[0], vs[0]) + FieldChunks(o, fs[1..], vs[1..])
  }

  function Flat(cs: seq<seq<byte>>): (s: seq<byte>) {
    if cs == [] then [] else cs[0] + Flat(cs[1..])
  }

  /** How many of n bytes the longest run of whole leading fields takes. */
  function WholeFields(cs: seq<seq<byte>>, n: nat): (k: nat)
    ensures k <= n
  {
    if cs == [] || |cs[0]| > n then 0 else |cs[0]| + WholeFields(cs[1..], n - |cs[0]|)
  }

  lemma {:induction false} FlatConcat(a: seq<seq<byte>>, b: seq<seq<byte>>)
    ensures Flat(a + b) == Flat(a) + Flat(b)
  {
    if a == [] {
      assert a + b == b;
    } else {
      FlatConcat(a[1..], b);
      assert (a + b)[1..] == a[1..] + b;
      assert Flat(a + b) == a[0] + (Flat(a[1..]) + Flat(b));
    }
  }

  lemma {:induction false} WholeFieldsConcat(a: seq<seq<byte>>, b: seq<seq<byte>>, n: nat)
    ensures n < |Flat(a)| ==> WholeFields(a + b, n) == WholeFields(a, n)
    ensures n >= |Flat(a)| ==> WholeFields(a + b, n) == |Flat(a)| + WholeFields(b, n - |Flat(a)|)
  {
    if a == [] {
      assert a + b == b;
    } else {
      var ab := a + b;
      assert ab[1..] == a[1..] + b && ab[0] == a[0];
      assert |Flat(a)| == |a[0]| + |Flat(a[1..])|;
      if |a[0]| <= n {
        assert WholeFields(ab, n) == |a[0]| + WholeFields(ab[1..], n - |a[0]|);
        WholeFieldsConcat(a[1..], b, n - |a[0]|);
      }
    }
  }

  lemma {:induction false} ChunksAreTheEncoding(o: Order, ty: Ty, v: Val)
    requires HasType(ty, v)
    ensures Flat(Chunks(o, ty, v)) == Encode(o, ty, v)
    decreases ty, 1
  {
    match ty
    case Num(_) => One(NumBytes(o, ty.width, v.raw));
    case Time => One(NumBytes(o, 8, v.raw));
    case Opt(_, t) =>
      if v.VSome? {
        ChunksAreTheEncoding(o, t, v.inner);
        FlatConcat([NumBytes(o, 1, 1)], Chunks(o, t, v.inner));
        One(NumBytes(o, 1, 1));
      } else {
        One(NumBytes(o, 1, 0));
      }
    case Range(_, t) =>
      ItemChunksAreTheEncoding(o, t, v.vs);
      FlatConcat([NumBytes(o, 8, |v.vs|)], ItemChunks(o, t, v.vs));
      One(NumBytes(o, 8, |v.vs|));
    case Array(t, _) => ItemChunksAreTheEncoding(o, t, v.vs);
    case Struct(fs, _) => FieldChunksAreTheEncoding(o, fs, v.vs);
    case Variant(alts) =>
      ChunksAreTheEncoding(o, alts[v.index], v.inner);
      FlatConcat([NumBytes(o, 8, v.index)], Chunks(o, alts[v.index], v.inner));
      One(NumBytes(o, 8, v.index));
  }

  lemma One(c: seq<byte>)
    ensures Flat([c]) == c
  {
    assert Flat([c]) == c + Flat([]);
  }

  lemma {:induction false} ItemChunksAreTheEncoding(o: Order, t: Ty, vs: seq<Val>)
    requires forall i :: 0 <= i < |vs| ==> HasType(t, vs[i])
    ensures Flat(ItemChunks(o, t, vs)) == EncodeItems(o, t, vs)
    decreases t, 2, |vs|
  {
    if vs != [] {
      ChunksAreTheEncoding(o, t, vs[0]);
      ItemChunksAreTheEncoding(o, t, vs[1..]);
      FlatConcat(Chunks(o, t, vs[0]), ItemChunks(o, t, vs[1..]));
    }
  }

  lemma {:induction false} FieldChunksAreTheEncoding(o: Order, fs: seq<Ty>, vs: seq<Val>)
    requires |fs| == |vs| && forall i :: 0 <= i < |fs| ==> HasType(fs[i], vs[i])
    ensures Flat(FieldChunks(o, fs, vs)) == EncodeFields(o, fs, vs)
    decreases fs, 0
  {
    if fs != [] {
      ChunksAreTheEncoding(o, fs[0], vs[0]);
      FieldChunksAreTheEncoding(o, fs[1..], vs[1..]);
      FlatConcat(Chunks(o, fs[0], vs[0]), FieldChunks(o, fs[1..], vs[1..]));
    }
  }

  predicate StrictPrefix(p: seq<byte>, s: seq<byte>) {
    |p| < |s| && p == s[..|p|]
  }

  ghost predicate Keeps(a: map<int, seq<nat>>, b: map<int, seq<nat>>, level: int) {
    forall l :: l <= level ==> (l in a <==> l in b) && (l in b ==> a[l] == b[l])
  }

  /** r reports a short read that used the first `used` bytes of p and left memos up to `level` alone. */
  ghost predicate Short(r: Step, st: State, p: seq<byte>, used: nat, level: int)
    requires used <= |p|
  {
    r.code.BufferSizeLesser? && r.st.unread == p[used..] && r.st.level == st.level && Keeps(r.st.reg, st.reg, level)
  }

  /** A header that is cut short, or one that is read and followed by a short remainder. */
  lemma SplitPrefix(p: seq<byte>, head: seq<byte>, tail: seq<byte>)
    requires StrictPrefix(p, head + tail)
    ensures |p| < |head| ==> StrictPrefix(p, head)
    ensures |p| >= |head| ==> p == head + p[|head|..] && StrictPrefix(p[|head|..], tail)
  {
    if |p| < |head| {
      assert head[..|p|] == (head + tail)[..|p|];
    } else {
      assert p[..|head|] == (head + tail)[..|p|][..|head|] == head;
      assert p[|head|..] == (head + tail)[..|p|][|head|..] == tail[..|p| - |head|];
    }
  }

  /** Any strict prefix gives BUFFER_SIZE_LESSER and uses up exactly the whole fields it contains. */
  lemma {:induction false} ShortRead(o: Order, ty: Ty, v: Val, p: seq<byte>, st: State)
    requires Agrees(o) && WellFormed(ty) && HasType(ty, v) && Clean(st)
    requires st.unread == p && StrictPrefix(p, Encode(o, ty, v))
    ensures Short(Decode(o, ty, Fresh(ty), st), st, p, WholeFields(Chunks(o, ty, v), |p|), st.level)
    decreases ty, 1
  {
    hide Body, Fresh, WellFormed;
    if ty.Num? {
      ShortNum(o, ty.width, v.raw, p, st);
    } else {
      ShortBody(o, ty, v, p, st.(level := st.level + 1));
    }
  }

  lemma {:induction false} ShortNum(o: Order, w: nat, x: nat, p: seq<byte>, st: State)
    requires st.unread == p && |p| < w
    ensures NumRead(o, w, st) == NumStep(BufferSizeLesser, 0, st)
    ensures WholeFields([NumBytes(o, w, x)], |p|) == 0 && p[0..] == p
  {}

  lemma {:induction false} ShortBody(o: Order, ty: Ty, v: Val, p: seq<byte>, st: State)
    requires Agrees(o) && WellFormed(ty) && !ty.Num? && HasType(ty, v)
    requires Clean(st) && st.level > 0 && st.level !in st.reg
    requires st.unread == p && StrictPrefix(p, Encode(o, ty, v))
    ensures Short(Body(o, ty, Fresh(ty), st), st, p, WholeFields(Chunks(o, ty, v), |p|), st.level - 1)
    decreases ty, 0
  {
    hide Decode, NumBytes;
    match ty
    case Time => ShortNum(o, 8, v.raw, p, st);
    case Opt(holder, t) => ShortOpt(o, holder, t, v, p, st);
    case Range(forward, t) => ShortRange(o, forward, t, v.vs, p, st);
    case Array(t, n) => ShortArray(o, t, v.vs, p, st);
    case Struct(fs, _) => ShortFields(o, fs, v.vs, p, st);
    case Variant(alts) => ShortVariant(o, alts, v, Fresh(ty), p, st);
  }

  /** What a one-field header followed by `more` does to the field count. */
  lemma {:induction false} HeaderFields(h: seq<byte>, more: seq<seq<byte>>, n: nat)
    ensures n < |h| ==> WholeFields([h] + more, n) == 0
    ensures n >= |h| ==> WholeFields([h] + more, n) == |h| + WholeFields(more, n - |h|)
  {
    One(h);
    WholeFieldsConcat([h], more, n);
  }

  lemma {:induction false} ShortOpt(o: Order, holder: Holder, t: Ty, v: Val, p: seq<byte>, st: State)
    requires Agrees(o) && WellFormed(t) && HasType(Opt(holder, t), v)
    requires Clean(st) && st.level > 0
    requires st.unread == p && StrictPrefix(p, Encode(o, Opt(holder, t), v))
    ensures Short(OptBody(o, holder, t, VNone, st), st, p, WholeFields(Chunks(o, Opt(holder, t), v), |p|), st.level)
    decreases t, 3
  {
    hide Decode, Fresh, WellFormed, NumRead, NumBytes, WholeFields, Keeps, EncodeItems, EncodeFields, ItemChunks,
      FieldChunks;
    assert 1 < Pow256(1) by { SmallNumbers(); }
    if p == [] {
      var h := NumBytes(o, 1, if v.VSome? then 1 else 0);
      ShortNum(o, 1, if v.VSome? then 1 else 0, p, st);
      HeaderFields(h, if v.VSome? then Chunks(o, t, v.inner) else [], 0);
      assert [h] + [] == [h];
      KeepsSelf(st.reg, st.level);
    } else {
      var h := NumBytes(o, 1, 1);
      SplitPrefix(p, h, Encode(o, t, v.inner));
      HeaderFields(h, Chunks(o, t, v.inner), |p|);
      NumReadExact(o, 1, 1, p[1..], st);
      ShortRead(o, t, v.inner, p[1..], Advance(st, 1, p[1..]));
    }
  }

  lemma {:induction false} ShortVariant(o: Order, alts: seq<Ty>, v: Val, target: Val, p: seq<byte>, st: State)
    requires Agrees(o) && WellFormed(Variant(alts)) && HasType(Variant(alts), v)
    requires Clean(st) && st.level > 0
    requires st.unread == p && StrictPrefix(p, Encode(o, Variant(alts), v))
    ensures Short(VariantBody(o, alts, target, st), st, p, WholeFields(Chunks(o, Variant(alts), v), |p|), st.level)
    decreases alts, 3
  {
    hide Decode, Fresh, NumRead, NumBytes, WholeFields, Keeps, EncodeItems, EncodeFields, ItemChunks, FieldChunks;
    assert v.index < Pow256(8) by { SmallNumbers(); }
    var h := NumBytes(o, 8, v.index);
    KeepsSelf(st.reg, st.level);
    SplitPrefix(p, h, Encode(o, alts[v.index], v.inner));
    HeaderFields(h, Chunks(o, alts[v.index], v.inner), |p|);
    if |p| < 8 {
      ShortNum(o, 8, v.index, p, st);
    } else {
      NumReadExact(o, 8, v.index, p[8..], st);
      ShortRead(o, alts[v.index], v.inner, p[8..], Advance(st, 8, p[8..]));
    }
  }

  /** Where a strict prefix of a list of items falls: inside the first item, or after it. */
  lemma {:induction false} ItemsPrefix(o: Order, t: Ty, vs: seq<Val>, p: seq<byte>)
    requires forall i :: 0 <= i < |vs| ==> HasType(t, vs[i])
    requires StrictPrefix(p, EncodeItems(o, t, vs))
    ensures vs != []
    ensures var n := |Encode(o, t, vs[0])|;
            if |p| < n then
              StrictPrefix(p, Encode(o, t, vs[0])) &&
              WholeFields(ItemChunks(o, t, vs), |p|) == WholeFields(Chunks(o, t, vs[0]), |p|)
            else
              p == Encode(o, t, vs[0]) + p[n..] && StrictPrefix(p[n..], EncodeItems(o, t, vs[1..])) &&
              WholeFields(ItemChunks(o, t, vs), |p|) == n + WholeFields(ItemChunks(o, t, vs[1..]), |p| - n)
  {
    assert vs != [];
    assert EncodeItems(o, t, vs) == Encode(o, t, vs[0]) + EncodeItems(o, t, vs[1..]);
    assert ItemChunks(o, t, vs) == Chunks(o, t, vs[0]) + ItemChunks(o, t, vs[1..]);
    hide Encode, Chunks, WholeFields, EncodeItems, ItemChunks, HasType, Flat;
    SplitPrefix(p, Encode(o, t, vs[0]), EncodeItems(o, t, vs[1..]));
    ChunksAreTheEncoding(o, t, vs[0]);
    WholeFieldsConcat(Chunks(o, t, vs[0]), ItemChunks(o, t, vs[1..]), |p|);
  }

  lemma KeepsBelow(a: State, x: nat, i: nat)
    requires i < RegisteredSize(a)
    ensures Keeps(UpdateAt(a, x, i).reg, a.reg, a.level - 1)
    ensures UpdateAt(a, x, i) == a.(reg := UpdateAt(a, x, i).reg)
  {}

  lemma KeepsRegister(a: State, x: nat)
    ensures Keeps(Register(a, x).reg, a.reg, a.level - 1)
  {}

  lemma KeepsChain(a: map<int, seq<nat>>, b: map<int, seq<nat>>, c: map<int, seq<nat>>, level: int)
    requires Keeps(a, b, level) && Keeps(b, c, level)
    ensures Keeps(a, c, level)
  {}

  lemma KeepsLess(item: Step, r: Step, st: State, p: seq<byte>, used: nat, level: int)
    requires used <= |p| && Short(item, st, p, used, level) && r.code == item.code && r.st == item.st
    ensures Short(r, st, p, used, level - 1)
  {}

  lemma IsShort(r: Step, st: State, p: seq<byte>, used: nat, level: int)
    requires used <= |p| && Short(r, st, p, used, level)
    ensures r.code.BufferSizeLesser?
  {}

  lemma KeepsSelf(a: map<int, seq<nat>>, level: int)
    ensures Keeps(a, a, level)
  {}

  /** A short read that follows the consumption of n bytes is a short read of the whole. */
  lemma ShortAfter(r: Step, st: State, st1: State, p: seq<byte>, n: nat, used: nat, level: int)
    requires n + used <= |p| && st1.level == st.level && Keeps(st1.reg, st.reg, level)
    requires Short(r, st1, p[n..], used, level)
    ensures Short(r, st, p, n + used, level)
  {
    KeepsChain(r.st.reg, st1.reg, st.reg, level);
    assert p[n..][used..] == p[n + used..];
  }

  lemma {:induction false} FieldFails(o: Order, fs: seq<Ty>, targets: seq<Val>, st: State)
    requires fs != [] && targets != [] && forall i :: 0 <= i < |fs| ==> WellFormed(fs[i])
    ensures var first := Decode(o, fs[0], targets[0], st);
            var r := FieldLoop(o, fs, targets, st);
            if first.code.Ok? then
              var rest := FieldLoop(o, fs[1..], targets[1..], first.st);
              r.code == rest.code && r.st == rest.st
            else r.code == first.code && r.st == first.st
  {}

  lemma {:induction false} ShortFields(o: Order, fs: seq<Ty>, vs: seq<Val>, p: seq<byte>, st: State)
    requires Agrees(o) && Clean(st) && st.level > 0
    requires |fs| == |vs| && forall i :: 0 <= i < |fs| ==> WellFormed(fs[i]) && HasType(fs[i], vs[i])
    requires st.unread == p && StrictPrefix(p, EncodeFields(o, fs, vs))
    ensures var targets := seq(|fs|, i requires 0 <= i < |fs| => Fresh(fs[i]));
            Short(FieldLoop(o, fs, targets, st), st, p, WholeFields(FieldChunks(o, fs, vs), |p|), st.level)
    decreases fs, 0
  {
    hide Decode, FieldLoop, HasType, Encode, WellFormed, Fresh, WholeFields, Chunks;
    var targets := seq(|fs|, i requires 0 <= i < |fs| => Fresh(fs[i]));
    var (head, tail) := (Encode(o, fs[0], vs[0]), EncodeFields(o, fs[1..], vs[1..]));
    SplitPrefix(p, head, tail);
    ChunksAreTheEncoding(o, fs[0], vs[0]);
    WholeFieldsConcat(Chunks(o, fs[0], vs[0]), FieldChunks(o, fs[1..], vs[1..]), |p|);
    FieldFails(o, fs, targets, st);
    if |p| < |head| {
      ShortRead(o, fs[0], vs[0], p, st);
    } else {
      var q := p[|head|..];
      RoundTrip(o, fs[0], vs[0], q, st);
      ShortFields(o, fs[1..], vs[1..], q, Advance(st, |head|, q));
      assert targets[1..] == seq(|fs[1..]|, i requires 0 <= i < |fs[1..]| => Fresh(fs[1..][i]));
    }
  }

  lemma ItemFails(o: Order, t: Ty, held: seq<Val>, todo: nat, st: State)
    requires WellFormed(t) && todo > 0
    ensures var item := Decode(o, t, Fresh(t), st);
            var r := ItemLoop(o, false, t, held, todo, 0, st);
            if item.code.Ok? then r == ItemLoop(o, false, t, held + [item.target], todo - 1, 0, item.st)
            else r == item.(target := VList(held))
    ensures var item := Decode(o, t, Fresh(t), st);
            var r := ItemLoop(o, true, t, held, todo, 0, st);
            item.code.BufferSizeLesser? ==> r == item.(target := VList(held))
  {}

  lemma {:induction false} ShortItems(o: Order, forward: bool, t: Ty, held: seq<Val>, vs: seq<Val>, p: seq<byte>, st: State)
    requires Agrees(o) && WellFormed(t) && Clean(st) && st.level > 0
    requires forall i :: 0 <= i < |vs| ==> HasType(t, vs[i])
    requires forward ==> RegisteredSize(st) == 2
    requires st.unread == p && StrictPrefix(p, EncodeItems(o, t, vs))
    ensures Short(ItemLoop(o, forward, t, held, |vs|, 0, st), st, p, WholeFields(ItemChunks(o, t, vs), |p|), st.level - 1)
    decreases t, 2, |vs|
  {
    hide Decode, ItemLoop, HasType, Encode, WellFormed, Fresh, WholeFields, Chunks, EncodeItems, ItemChunks, StrictPrefix,
      UpdateAt, Keeps, Short;
    ItemsPrefix(o, t, vs, p);
    ItemFails(o, t, held, |vs|, st);
    var n := |Encode(o, t, vs[0])|;
    if |p| < n {
      ShortRead(o, t, vs[0], p, st);
      var (item, used) := (Decode(o, t, Fresh(t), st), WholeFields(Chunks(o, t, vs[0]), |p|));
      IsShort(item, st, p, used, st.level);
      KeepsLess(item, ItemLoop(o, forward, t, held, |vs|, 0, st), st, p, used, st.level);
    } else {
      RoundTrip(o, t, vs[0], p[n..], st);
      var st1 := Advance(st, n, p[n..]);
      var more := WholeFields(ItemChunks(o, t, vs[1..]), |p| - n);
      if forward {
        ForwardStep(o, t, held, |vs|, st, vs[0], st1);
        UpdateSameBelow(st1, 1, 1);
        KeepsBelow(st1, 1, 1);
        ShortItems(o, forward, t, [vs[0]] + held, vs[1..], p[n..], UpdateAt(st1, 1, 1));
        ShortAfter(ItemLoop(o, true, t, held, |vs|, 0, st), st, UpdateAt(st1, 1, 1), p, n, more, st.level - 1);
      } else {
        KeepsSelf(st.reg, st.level - 1);
        ShortItems(o, forward, t, held + [vs[0]], vs[1..], p[n..], st1);
        ShortAfter(ItemLoop(o, false, t, held, |vs|, 0, st), st, st1, p, n, more, st.level - 1);
      }
    }
  }

  lemma {:induction false} RangeHeaderFails(o: Order, forward: bool, t: Ty, target: Val, st: State)
    requires WellFormed(t) && !CanSkip(st, 8) && |st.unread| < 8
    ensures var r := RangeBody(o, forward, t, target, st);
            r.code.BufferSizeLesser? && r.st == st
  {}

  lemma {:induction false} ShortRangeItems(o: Order, forward: bool, t: Ty, vs: seq<Val>, p: seq<byte>, st: State)
    requires Agrees(o) && WellFormed(t) && st.level > 0 && Clean(st) && st.level !in st.reg
    requires forall i :: 0 <= i < |vs| ==> HasType(t, vs[i])
    requires st.unread == p && StrictPrefix(p, EncodeItems(o, t, vs))
    ensures var st1 := Register(st, |vs|);
            var r := ItemLoop(o, forward, t, [], |vs|, 0, if forward then Register(st1, 0) else st1);
            Short(r, st, p, WholeFields(ItemChunks(o, t, vs), |p|), st.level - 1)
    decreases t, 2, |vs| + 1
  {
    hide Decode, ItemLoop, HasType, EncodeItems, WellFormed, WholeFields, ItemChunks, StrictPrefix, Keeps, Register;
    var st1 := Register(st, |vs|);
    RegisterSameBelow(st, |vs|);
    KeepsRegister(st, |vs|);
    var used := WholeFields(ItemChunks(o, t, vs), |p|);
    assert p[0..] == p;
    if forward {
      var st2 := Register(st1, 0);
      RegisterSameBelow(st1, 0);
      KeepsRegister(st1, 0);
      KeepsChain(st2.reg, st1.reg, st.reg, st.level - 1);
      ShortItems(o, true, t, [], vs, p, st2);
      ShortAfter(ItemLoop(o, true, t, [], |vs|, 0, st2), st, st2, p, 0, used, st.level - 1);
    } else {
      ShortItems(o, false, t, [], vs, p, st1);
      ShortAfter(ItemLoop(o, false, t, [], |vs|, 0, st1), st, st1, p, 0, used, st.level - 1);
    }
  }

  lemma {:induction false} ShortRange(o: Order, forward: bool, t: Ty, vs: seq<Val>, p: seq<byte>, st: State)
    requires Agrees(o) && WellFormed(t) && st.level > 0 && |vs| < SIZE_LIMIT
    requires Clean(st) && st.level !in st.reg
    requires forall i :: 0 <= i < |vs| ==> HasType(t, vs[i])
    requires st.unread == p && StrictPrefix(p, NumBytes(o, 8, |vs|) + EncodeItems(o, t, vs))
    ensures Short(RangeBody(o, forward, t, VList([]), st), st, p,
                  WholeFields([NumBytes(o, 8, |vs|)] + ItemChunks(o, t, vs), |p|), st.level - 1)
    decreases t, 3
  {
    hide Decode, RangeBody, ItemLoop, HasType, EncodeItems, WellFormed, NumBytes, NumRead, WholeFields, ItemChunks,
      Reverse, Register, StrictPrefix;
    SplitPrefix(p, NumBytes(o, 8, |vs|), EncodeItems(o, t, vs));
    HeaderFields(NumBytes(o, 8, |vs|), ItemChunks(o, t, vs), |p|);
    if |p| < 8 {
      RangeHeaderFails(o, forward, t, VList([]), st);
    } else {
      assert |vs| < Pow256(8) by { SmallNumbers(); }
      NumReadExact(o, 8, |vs|, p[8..], st);
      var st0 := Advance(st, 8, p[8..]);
      RangeStart(o, forward, t, |vs|, VList([]), st, st0);
      ShortRangeItems(o, forward, t, vs, p[8..], st0);
      ShortAfter(RangeBody(o, forward, t, VList([]), st), st, st0, p, 8,
                 WholeFields(ItemChunks(o, t, vs), |p| - 8), st.level - 1);
    }
  }

  lemma {:induction false} ArrayFails(o: Order, t: Ty, elems: seq<Val>, i: nat, st: State)
    requires WellFormed(t) && i < |elems|
    ensures var item := Decode(o, t, elems[i], st);
            var r := ArrayLoop(o, t, elems, i, |elems|, st);
            item.code.BufferSizeLesser? && RegisteredSize(item.st) > 0 ==>
              r.code == item.code && r.st == UpdateAt(item.st, |elems| - 1, 0)
  {}

  /** A short item read, after which the array's memo is still rewritten. */
  lemma MemoUpdated(item: Step, r: Step, x: nat, st: State, p: seq<byte>, used: nat)
    requires used <= |p| && Short(item, st, p, used, st.level) && RegisteredSize(st) > 0
    requires RegisteredSize(item.st) > 0 ==> r.code == item.code && r.st == UpdateAt(item.st, x, 0)
    ensures Short(r, st, p, used, st.level - 1)
  {
    KeepsBelow(item.st, x, 0);
    KeepsChain(r.st.reg, item.st.reg, st.reg, st.level - 1);
  }

  lemma {:induction false} ShortArrayItems(o: Order, t: Ty, i: nat, elems: seq<Val>, vs: seq<Val>, p: seq<byte>, st: State)
    requires Agrees(o) && WellFormed(t) && Clean(st) && st.level > 0
    requires forall k :: 0 <= k < |vs| ==> HasType(t, vs[k])
    requires RegisteredSize(st) == 1
    requires |elems| == i + |vs| && forall k :: i <= k < |elems| ==> elems[k] == Fresh(t)
    requires st.unread == p && StrictPrefix(p, EncodeItems(o, t, vs))
    ensures Short(ArrayLoop(o, t, elems, i, |elems|, st), st, p, WholeFields(ItemChunks(o, t, vs), |p|), st.level - 1)
    decreases t, 2, |vs|
  {
    hide Decode, ArrayLoop, HasType, Encode, WellFormed, Fresh, WholeFields, Chunks, EncodeItems, ItemChunks, StrictPrefix,
      UpdateAt;
    ItemsPrefix(o, t, vs, p);
    var n := |Encode(o, t, vs[0])|;
    if |p| < n {
      ShortRead(o, t, vs[0], p, st);
      ArrayFails(o, t, elems, i, st);
      MemoUpdated(Decode(o, t, elems[i], st), ArrayLoop(o, t, elems, i, |elems|, st), |elems| - 1, st, p,
                  WholeFields(Chunks(o, t, vs[0]), |p|));
    } else {
      RoundTrip(o, t, vs[0], p[n..], st);
      var st1 := Advance(st, n, p[n..]);
      ArrayStep(o, t, elems, i, st, vs[0], st1);
      UpdateSameBelow(st1, |elems| - 1, 0);
      KeepsBelow(st1, |elems| - 1, 0);
      var st2 := UpdateAt(st1, |elems| - 1, 0);
      ShortArrayItems(o, t, i + 1, elems[i := vs[0]], vs[1..], p[n..], st2);
      ShortAfter(ArrayLoop(o, t, elems, i, |elems|, st), st, st2, p, n,
                 WholeFields(ItemChunks(o, t, vs[1..]), |p| - n), st.level - 1);
    }
  }

  lemma {:induction false} ShortArray(o: Order, t: Ty, vs: seq<Val>, p: seq<byte>, st: State)
    requires Agrees(o) && WellFormed(t) && st.level > 0
    requires Clean(st) && st.level !in st.reg
    requires forall i :: 0 <= i < |vs| ==> HasType(t, vs[i])
    requires st.unread == p && StrictPrefix(p, EncodeItems(o, t, vs))
    ensures Short(ArrayBody(o, t, |vs|, VList(seq(|vs|, i => Fresh(t))), st), st, p,
                  WholeFields(ItemChunks(o, t, vs), |p|), st.level - 1)
    decreases t, 3
  {
    hide Decode, ArrayLoop, HasType, EncodeItems, WellFormed, Fresh, WholeFields, ItemChunks;
    var blank := seq(|vs|, i => Fresh(t));
    var st1 := Register(st, |vs|);
    RegisterSameBelow(st, |vs|);
    assert ArrayBody(o, t, |vs|, VList(blank), st) == ArrayLoop(o, t, blank, 0, |vs|, st1);
    ShortArrayItems(o, t, 0, blank, vs, p, st1);
  }
}
