/** The reader on arbitrary bytes: between two values it does what the grammar says, and its answers are exact. */
module AnyBytes {
  import opened Bytes
  import opened Codec
  import opened Reader
  import opened OneShot
  import opened PrefixFree
  import opened Grammar

  /** r is p on the level of st, below which no memo changes. */
  ghost predicate Follows(r: Step, p: Parsed, st: State) {
    p.used <= |st.unread| && r.code == p.code &&
    if p.code.Ok? then r.target == p.v && SameButMemo(r.st, Advance(st, p.used, st.unread[p.used..]))
    else r.st.unread == st.unread[p.used..] && r.st.level == st.level && Keeps(r.st.reg, st.reg, st.level - 1)
  }

  /** r is p with everything settled. */
  ghost predicate Delivers(r: Step, p: Parsed, ty: Ty, st: State) {
    p.used <= |st.unread| && r.code == p.code &&
    if p.code.Ok? then r == Step(Ok, p.v, After(ty, st, p.used, st.unread[p.used..]))
    else r.st.unread == st.unread[p.used..] && r.st.level == st.level && Keeps(r.st.reg, st.reg, st.level)
  }

  lemma Settles(ty: Ty, r: Step, p: Parsed, st: State)
    requires Clean(st) && !ty.Num? && Follows(r, p, st.(level := st.level + 1))
    ensures Delivers(Leave(r), p, ty, st)
  {
    if p.code.Ok? {
      Settle(ty, r, st, p.used, st.unread[p.used..]);
    }
  }

  lemma NumFollows(o: Order, w: nat, st: State)
    ensures var (n, p) := (NumRead(o, w, st), ParseNum(o, w, st.unread));
            n.code == p.code &&
            n == if p.code.Ok? then NumStep(Ok, p.v.raw, Advance(st, w, st.unread[w..])) else NumStep(p.code, 0, st)
  {}

  /** One call on a fresh target, whatever the bytes. */
  lemma {:induction false} DecodeFollows(o: Order, ty: Ty, st: State)
    requires WellFormed(ty) && Clean(st)
    ensures Delivers(Decode(o, ty, Fresh(ty), st), Parse(o, ty, st.unread), ty, st)
    decreases ty, 4
  {
    hide Body, Leave, NumRead, NumValue;
    if ty.Num? {
      NumFollows(o, ty.width, st);
      assert st.unread[0..] == st.unread;
    } else {
      hide Parse;
      var inside := st.(level := st.level + 1);
      BodyFollows(o, ty, inside);
      Settles(ty, Body(o, ty, Fresh(ty), inside), Parse(o, ty, st.unread), st);
    }
  }

  lemma {:induction false} BodyFollows(o: Order, ty: Ty, st: State)
    requires WellFormed(ty) && !ty.Num? && Clean(st) && st.level > 0 && st.level !in st.reg
    ensures Follows(Body(o, ty, Fresh(ty), st), Parse(o, ty, st.unread), st)
    decreases ty, 3
  {
    hide Decode, OptBody, RangeBody, ArrayBody, FieldLoop, VariantBody, ParseItems, ParseFields, NumRead, NumValue;
    match ty
    case Time =>
      NumFollows(o, 8, st);
      assert st.unread[0..] == st.unread;
    case Opt(holder, t) => OptFollows(o, holder, t, st);
    case Range(forward, t) => RangeFollows(o, forward, t, st);
    case Array(t, n) => ArrayFollows(o, t, n, st);
    case Struct(fs, pair) => FieldsFollow(o, fs, st);
    case Variant(alts) => VariantFollows(o, alts, Fresh(ty), st);
  }

  /** A header of w bytes, then one value. */
  lemma HeaderThen(st: State, w: nat, inner: Step, p: Parsed, ty: Ty, r: Step, v: Val)
    requires w <= |st.unread| && st.level > 0 && Clean(st)
    requires Delivers(inner, p, ty, Advance(st, w, st.unread[w..]))
    requires r == inner.(target := r.target) && (p.code.Ok? ==> r.target == v)
    ensures Follows(r, Parsed(p.code, v, w + p.used), st)
  {
    assert st.unread[w..][p.used..] == st.unread[w + p.used..];
  }

  lemma {:induction false} OptFollows(o: Order, holder: Holder, t: Ty, st: State)
    requires WellFormed(t) && Clean(st) && st.level > 0
    ensures Follows(OptBody(o, holder, t, VNone, st), Parse(o, Opt(holder, t), st.unread), st)
    decreases t, 5
  {
    hide Decode, Fresh, WellFormed, NumRead, NumValue;
    NumFollows(o, 1, st);
    var flag := ParseNum(o, 1, st.unread);
    if !flag.code.Ok? {
      assert st.unread[0..] == st.unread;
    } else if flag.v.raw != 0 {
      var st1 := Advance(st, 1, st.unread[1..]);
      DecodeFollows(o, t, st1);
      var p := Parse(o, t, st.unread[1..]);
      HeaderThen(st, 1, Decode(o, t, Fresh(t), st1), p, t, OptBody(o, holder, t, VNone, st), VSome(p.v));
    }
  }

  lemma {:induction false} VariantFollows(o: Order, alts: seq<Ty>, target: Val, st: State)
    requires WellFormed(Variant(alts)) && Clean(st) && st.level > 0
    ensures Follows(VariantBody(o, alts, target, st), Parse(o, Variant(alts), st.unread), st)
    decreases alts, 5
  {
    hide Decode, Fresh, NumRead, NumValue;
    NumFollows(o, 8, st);
    var index := ParseNum(o, 8, st.unread);
    if !index.code.Ok? {
      assert st.unread[0..] == st.unread;
    } else if index.v.raw < |alts| {
      var t := alts[index.v.raw];
      var st1 := Advance(st, 8, st.unread[8..]);
      DecodeFollows(o, t, st1);
      var p := Parse(o, t, st.unread[8..]);
      HeaderThen(st, 8, Decode(o, t, Fresh(t), st1), p, t, VariantBody(o, alts, target, st), VAlt(index.v.raw, p.v));
    }
  }

  lemma SameIsKept(a: map<int, seq<nat>>, b: map<int, seq<nat>>, level: int)
    requires SameBelow(a, b, level)
    ensures Keeps(a, b, level - 1)
  {
    forall l | l < level ensures (l in a <==> l in b) && (l in b ==> a[l] == b[l]) {
      assert l in a <==> l in a - {level};
      assert l in b <==> l in b - {level};
    }
  }

  lemma SameTwice(a: map<int, seq<nat>>, b: map<int, seq<nat>>, c: map<int, seq<nat>>, level: int)
    requires SameBelow(a, b, level) && SameBelow(b, c, level)
    ensures SameBelow(a, c, level)
  {}

  /** What follows the first n bytes, read in a state that differs from the one after them in this level's memo only. */
  lemma FollowsAfter(r: Step, rest: Parsed, st: State, n: nat, st1: State, p: Parsed, r': Step)
    requires n <= |st.unread| && SameButMemo(st1, Advance(st, n, st.unread[n..]))
    requires Follows(r, rest, st1) && p.code == rest.code && p.used == n + rest.used
    requires r' == r.(target := r'.target) && (p.code.Ok? ==> r'.target == p.v)
    ensures Follows(r', p, st)
  {
    assert st.unread[n..][rest.used..] == st.unread[n + rest.used..];
    SameIsKept(st1.reg, st.reg, st.level);
    if p.code.Ok? {
      SameTwice(r.st.reg, st1.reg, st.reg, st.level);
    } else {
      KeepsChain(r.st.reg, st1.reg, st.reg, st.level - 1);
    }
  }

  /** A first item that fails, with at most this level's memo written after it. */
  lemma FailsAtOnce(item: Step, first: Parsed, t: Ty, st: State, r: Step, p: Parsed)
    requires Delivers(item, first, t, st) && !first.code.Ok?
    requires p.code == first.code && p.used == first.used && r.code == item.code
    requires r.st == item.st.(reg := r.st.reg) && Keeps(r.st.reg, item.st.reg, st.level - 1)
    ensures Follows(r, p, st)
  {}

  lemma {:induction false} FieldsFollow(o: Order, fs: seq<Ty>, st: State)
    requires Clean(st) && st.level > 0 && forall i :: 0 <= i < |fs| ==> WellFormed(fs[i])
    ensures var targets := seq(|fs|, i requires 0 <= i < |fs| => Fresh(fs[i]));
            Follows(FieldLoop(o, fs, targets, st), ParseFields(o, fs, st.unread), st)
    decreases fs, 0
  {
    hide Decode, WellFormed, Fresh, Parse;
    var targets := seq(|fs|, i requires 0 <= i < |fs| => Fresh(fs[i]));
    if fs == [] {
      assert st.unread[0..] == st.unread;
    } else {
      DecodeFollows(o, fs[0], st);
      var (item, first) := (Decode(o, fs[0], targets[0], st), Parse(o, fs[0], st.unread));
      var (r, p) := (FieldLoop(o, fs, targets, st), ParseFields(o, fs, st.unread));
      assert targets[1..] == seq(|fs[1..]|, i requires 0 <= i < |fs[1..]| => Fresh(fs[1..][i]));
      if first.code.Ok? {
        FieldsFollow(o, fs[1..], item.st);
        var more := FieldLoop(o, fs[1..], targets[1..], item.st);
        FollowsAfter(more, ParseFields(o, fs[1..], item.st.unread), st, first.used, item.st, p, r);
      } else {
        FailsAtOnce(item, first, fs[0], st, r, p);
      }
    }
  }

  lemma {:induction false} ItemFailsAnyhow(o: Order, forward: bool, t: Ty, held: seq<Val>, todo: nat, st: State)
    requires WellFormed(t) && todo > 0 && !Decode(o, t, Fresh(t), st).code.Ok?
    ensures ItemLoop(o, forward, t, held, todo, 0, st) == Decode(o, t, Fresh(t), st).(target := VList(held))
  {}

  function Together(forward: bool, held: seq<Val>, vs: seq<Val>): seq<Val> {
    if forward then Reverse(vs) + held else held + vs
  }

  lemma TogetherStep(forward: bool, held: seq<Val>, x: Val, vs: seq<Val>)
    ensures Together(forward, held, [x] + vs) == Together(forward, if forward then [x] + held else held + [x], vs)
    ensures Together(forward, held, []) == held
  {
    if forward {
      ReverseFront(x, vs);
      Joined(Reverse(vs), [x], held);
    } else {
      Joined(held, [x], vs);
    }
    Joined([], held, []);
  }

  lemma Joined(a: seq<Val>, b: seq<Val>, c: seq<Val>)
    ensures (a + b) + c == a + (b + c) && (a == [] ==> a + b == b) && (c == [] ==> b + c == b)
  {}

  /** n items behind (or, for a forward_list, before) those held. */
  lemma {:induction false} ItemsFollow(o: Order, forward: bool, t: Ty, held: seq<Val>, n: nat, st: State)
    requires WellFormed(t) && Clean(st) && st.level > 0 && (forward ==> RegisteredSize(st) == 2)
    ensures var p := ParseItems(o, t, n, st.unread);
            Follows(ItemLoop(o, forward, t, held, n, 0, st), p.(v := VList(Together(forward, held, p.v.vs))), st)
    decreases t, 5, n, 1
  {
    hide Decode, ItemLoop, WellFormed, Fresh, Parse, UpdateAt, Together, Reverse, SameButMemo, Keeps;
    var (r, p) := (ItemLoop(o, forward, t, held, n, 0, st), ParseItems(o, t, n, st.unread));
    if n == 0 {
      NothingLeft(o, forward, t, held, [], st);
      TogetherStep(forward, held, VNone, []);
      SameButMemoSelf(st);
      assert st.unread[0..] == st.unread;
    } else {
      DecodeFollows(o, t, st);
      var (item, first) := (Decode(o, t, Fresh(t), st), Parse(o, t, st.unread));
      if first.code.Ok? {
        MoreItemsFollow(o, forward, t, held, n, st, item, first);
      } else {
        ItemFailsAnyhow(o, forward, t, held, n, st);
        KeepsSelf(item.st.reg, st.level - 1);
        FailsAtOnce(item, first, t, st, r, p.(v := VList(Together(forward, held, p.v.vs))));
      }
    }
  }

  lemma {:induction false} MoreItemsFollow(
      o: Order, forward: bool, t: Ty, held: seq<Val>, n: nat, st: State, item: Step, first: Parsed)
    requires WellFormed(t) && Clean(st) && st.level > 0 && (forward ==> RegisteredSize(st) == 2) && n > 0
    requires item == Decode(o, t, Fresh(t), st) && first == Parse(o, t, st.unread)
    requires first.code.Ok? && Delivers(item, first, t, st)
    ensures var p := ParseItems(o, t, n, st.unread);
            Follows(ItemLoop(o, forward, t, held, n, 0, st), p.(v := VList(Together(forward, held, p.v.vs))), st)
    decreases t, 5, n, 0
  {
    hide Decode, ItemLoop, WellFormed, Fresh, Parse, UpdateAt, Together, Keeps;
    var (r, p) := (ItemLoop(o, forward, t, held, n, 0, st), ParseItems(o, t, n, st.unread));
    var rest := ParseItems(o, t, n - 1, item.st.unread);
    var all := VList(Together(forward, held, p.v.vs));
    TogetherStep(forward, held, first.v, rest.v.vs);
    if forward {
      ForwardStep(o, t, held, n, st, first.v, item.st);
      UpdateSameBelow(item.st, 1, 1);
      var st1 := UpdateAt(item.st, 1, 1);
      ItemsFollow(o, true, t, [first.v] + held, n - 1, st1);
      FollowsAfter(r, rest.(v := all), st, first.used, st1, p.(v := all), r);
    } else {
      ItemStep(o, t, held, n, st, first.v, item.st);
      ItemsFollow(o, false, t, held + [first.v], n - 1, item.st);
      FollowsAfter(r, rest.(v := all), st, first.used, item.st, p.(v := all), r);
    }
  }

  lemma {:induction false} ReverseFront(x: Val, s: seq<Val>)
    ensures Reverse([x] + s) == Reverse(s) + [x]
  {
    assert ([x] + s)[1..] == s;
  }

  /** The items behind a size header, in the memo the header has left. */
  lemma {:induction false} CountedItemsFollow(o: Order, forward: bool, t: Ty, n: nat, st: State)
    requires WellFormed(t) && Clean(st) && st.level > 0 && st.level !in st.reg
    ensures var st1 := Register(st, n);
            var p := ParseItems(o, t, n, st.unread);
            Follows(ItemLoop(o, forward, t, [], n, 0, if forward then Register(st1, 0) else st1),
                    p.(v := VList(if forward then Reverse(p.v.vs) else p.v.vs)), st)
    decreases t, 6
  {
    hide ItemLoop, WellFormed, ParseItems, Reverse, Register;
    var p := ParseItems(o, t, n, st.unread);
    var st1 := Register(st, n);
    RegisterSameBelow(st, n);
    assert st.unread[0..] == st.unread;
    if forward {
      var st2 := Register(st1, 0);
      RegisterSameBelow(st1, 0);
      ItemsFollow(o, true, t, [], n, st2);
      assert Reverse(p.v.vs) + [] == Reverse(p.v.vs);
      var all := p.(v := VList(Reverse(p.v.vs)));
      FollowsAfter(ItemLoop(o, true, t, [], n, 0, st2), all, st, 0, st2, all, ItemLoop(o, true, t, [], n, 0, st2));
    } else {
      ItemsFollow(o, false, t, [], n, st1);
      assert [] + p.v.vs == p.v.vs;
      FollowsAfter(ItemLoop(o, false, t, [], n, 0, st1), p, st, 0, st1, p, ItemLoop(o, false, t, [], n, 0, st1));
    }
  }

  function RangeLoop(o: Order, forward: bool, t: Ty, n: nat, st: State): Step
    requires WellFormed(t)
  {
    var st1 := Register(st, n);
    ItemLoop(o, forward, t, [], n, 0, if forward then Register(st1, 0) else st1)
  }

  lemma {:induction false} RangeFollows(o: Order, forward: bool, t: Ty, st: State)
    requires WellFormed(t) && Clean(st) && st.level > 0 && st.level !in st.reg
    ensures Follows(RangeBody(o, forward, t, VList([]), st), Parse(o, Range(forward, t), st.unread), st)
    decreases t, 7
  {
    hide Decode, RangeBody, ItemLoop, Fresh, NumRead, NumValue, ParseItems, Reverse, Register, SameButMemo;
    NumFollows(o, 8, st);
    var (r, s) := (RangeBody(o, forward, t, VList([]), st), st.unread);
    if |s| < 8 {
      RangeHeaderFails(o, forward, t, VList([]), st);
      assert s[0..] == s;
      KeepsSelf(st.reg, st.level - 1);
    } else {
      var (n, st0) := (NumValue(o, s[..8]), Advance(st, 8, s[8..]));
      NumIsTyped(o, 8, s);
      SmallNumbers();
      RangeStart(o, forward, t, n, VList([]), st, st0);
      CountedItemsFollow(o, forward, t, n, st0);
      var items := ParseItems(o, t, n, s[8..]);
      ReverseTwice(items.v.vs);
      SameButMemoSelf(st0);
      var read := VList(if forward then Reverse(items.v.vs) else items.v.vs);
      FollowsAfter(RangeLoop(o, forward, t, n, st0), items.(v := read), st, 8, st0, Parse(o, Range(forward, t), s), r);
    }
  }

  lemma SameButMemoSelf(st: State)
    requires forall l :: l in st.reg ==> l <= st.level
    ensures SameButMemo(st, st)
  {}

  /** A failed element, after which the array's memo is still rewritten. */
  lemma {:induction false} ElementFails(o: Order, t: Ty, elems: seq<Val>, i: nat, st: State)
    requires WellFormed(t) && i < |elems| && !Decode(o, t, elems[i], st).code.Ok?
    requires RegisteredSize(Decode(o, t, elems[i], st).st) > 0
    ensures var (item, r) := (Decode(o, t, elems[i], st), ArrayLoop(o, t, elems, i, |elems|, st));
            r.code == item.code && r.st == UpdateAt(item.st, |elems| - 1, 0)
  {}

  lemma OneMoreElement(done: seq<Val>, x: Val, y: Val, n: nat, vs: seq<Val>)
    requires n > 0
    ensures var elems := done + seq(n, i => y);
            elems[|done|] == y && elems[|done| := x] == (done + [x]) + seq(n - 1, i => y)
    ensures (done + [x]) + vs == done + ([x] + vs)
  {}

  lemma MemoRewritten(st: State, x: nat, i: nat)
    requires i < RegisteredSize(st) && forall l :: l in st.reg ==> l <= st.level
    ensures SameButMemo(UpdateAt(st, x, i), st) && UpdateAt(st, x, i) == st.(reg := UpdateAt(st, x, i).reg)
    ensures RegisteredSize(UpdateAt(st, x, i)) == RegisteredSize(st)
    ensures forall l :: l in UpdateAt(st, x, i).reg ==> l <= st.level
  {
    UpdateSameBelow(st, x, i);
  }

  lemma {:induction false} ElementsFollow(o: Order, t: Ty, done: seq<Val>, n: nat, st: State)
    requires WellFormed(t) && Clean(st) && st.level > 0 && RegisteredSize(st) == 1
    ensures var elems := done + seq(n, i => Fresh(t));
            var p := ParseItems(o, t, n, st.unread);
            Follows(ArrayLoop(o, t, elems, |done|, |elems|, st), p.(v := VList(done + p.v.vs)), st)
    decreases t, 5, n
  {
    hide Decode, ArrayLoop, WellFormed, Fresh, Parse, UpdateAt, Keeps, SameButMemo;
    var elems := done + seq(n, i => Fresh(t));
    var (r, p) := (ArrayLoop(o, t, elems, |done|, |elems|, st), ParseItems(o, t, n, st.unread));
    var all := p.(v := VList(done + p.v.vs));
    if n == 0 {
      assert elems == done == done + p.v.vs;
      NothingLeft(o, false, t, elems, [], st);
      SameButMemoSelf(st);
      assert st.unread[0..] == st.unread;
      return;
    }
    DecodeFollows(o, t, st);
    var (item, first) := (Decode(o, t, Fresh(t), st), Parse(o, t, st.unread));
    var rest := if first.code.Ok? then ParseItems(o, t, n - 1, st.unread[first.used..]).v.vs else [];
    OneMoreElement(done, first.v, Fresh(t), n, rest);
    if first.code.Ok? {
      ArrayStep(o, t, elems, |done|, st, first.v, item.st);
      MemoRewritten(item.st, |elems| - 1, 0);
      var st1 := UpdateAt(item.st, |elems| - 1, 0);
      ElementsFollow(o, t, done + [first.v], n - 1, st1);
      FollowsAfter(r, ParseItems(o, t, n - 1, st1.unread).(v := all.v), st, first.used, st1, all, r);
    } else {
      KeptMemo(item.st.reg, st.reg, st.level);
      ElementFails(o, t, elems, |done|, st);
      KeepsBelow(item.st, |elems| - 1, 0);
      FailsAtOnce(item, first, t, st, r, all);
    }
  }

  lemma KeptMemo(a: map<int, seq<nat>>, b: map<int, seq<nat>>, level: int)
    requires Keeps(a, b, level) && level in b
    ensures level in a && a[level] == b[level]
  {}

  lemma {:induction false} ArrayFollows(o: Order, t: Ty, n: nat, st: State)
    requires WellFormed(t) && Clean(st) && st.level > 0 && st.level !in st.reg && n < SIZE_LIMIT
    ensures Follows(ArrayBody(o, t, n, VList(seq(n, i => Fresh(t))), st), ParseItems(o, t, n, st.unread), st)
    decreases t, 6
  {
    hide Decode, ArrayLoop, WellFormed, Fresh, ParseItems;
    var blank := seq(n, i => Fresh(t));
    var (st1, p) := (Register(st, n), ParseItems(o, t, n, st.unread));
    RegisterSameBelow(st, n);
    var r := ArrayLoop(o, t, blank, 0, n, st1);
    assert ArrayBody(o, t, n, VList(blank), st) == r;
    assert [] + blank == blank && [] + p.v.vs == p.v.vs && st.unread[0..] == st.unread;
    ElementsFollow(o, t, [], n, st1);
    FollowsAfter(r, p, st, 0, st1, p, r);
  }

  function Extended(st: State, more: seq<byte>): (r: State) {
    st.(unread := st.unread + more)
  }

  /** Every answer to a fresh target, for all bytes. */
  ghost predicate Exact(o: Order, ty: Ty, st: State)
    requires WellFormed(ty)
  {
    var r := Decode(o, ty, Fresh(ty), st);
    match r.code
    case Ok =>
      // a value of the type was read, and as many bytes as its encoding has
      HasType(ty, r.target) && |Encode(o, ty, r.target)| <= |st.unread| &&
      r.st == After(ty, st, |Encode(o, ty, r.target)|, st.unread[|Encode(o, ty, r.target)|..])
    case BufferSizeLesser =>
      // some further bytes would have led to another answer
      exists more :: !Decode(o, ty, Fresh(ty), Extended(st, more)).code.BufferSizeLesser?
    case UnmatchedType =>
      // no further bytes would have
      forall more :: Decode(o, ty, Fresh(ty), Extended(st, more)).code.UnmatchedType?
    case Aborted => false
  }

  lemma {:induction false} AnswersAreExact(o: Order, ty: Ty, st: State)
    requires WellFormed(ty) && Clean(st)
    ensures Exact(o, ty, st)
    ensures var r := Decode(o, ty, Fresh(ty), st);
            r.st.level == st.level && |r.st.unread| <= |st.unread| &&
            r.st.unread == st.unread[|st.unread| - |r.st.unread|..]
  {
    hide Decode, WellFormed, Parse, HasType, Encode, Fresh, Clean;
    DecodeFollows(o, ty, st);
    var p := Parse(o, ty, st.unread);
    match p.code
    case Ok => ParsedIsTyped(o, ty, st.unread);
    case BufferSizeLesser =>
      var more := Completion(o, ty, st.unread);
      ExtendedFollows(o, ty, st, more);
    case UnmatchedType =>
      forall more ensures Decode(o, ty, Fresh(ty), Extended(st, more)).code.UnmatchedType? {
        ParsedIsFinal(o, ty, st.unread, more);
        ExtendedFollows(o, ty, st, more);
      }
  }

  lemma {:induction false} ExtendedFollows(o: Order, ty: Ty, st: State, more: seq<byte>)
    requires WellFormed(ty) && Clean(st)
    ensures Decode(o, ty, Fresh(ty), Extended(st, more)).code == Parse(o, ty, st.unread + more).code
  {
    hide Decode, WellFormed, Parse, Fresh;
    DecodeFollows(o, ty, Extended(st, more));
  }

  /** An index that names no alternative is reported, with the target as it was and exactly the index read. */
  lemma {:induction false} WrongIndex(o: Order, alts: seq<Ty>, target: Val, k: nat, rest: seq<byte>, st: State)
    requires Agrees(o) && WellFormed(Variant(alts)) && Clean(st)
    requires |alts| <= k < SIZE_LIMIT && st.unread == NumBytes(o, 8, k) + rest
    ensures var r := Decode(o, Variant(alts), target, st);
            r.code.UnmatchedType? && r.target == target && r.st.unread == rest && r.st.level == st.level
  {
    hide NumBytes, NumRead;
    SmallNumbers();
    var inside := st.(level := st.level + 1);
    NumReadExact(o, 8, k, rest, inside);
    assert Body(o, Variant(alts), target, inside) == VariantBody(o, alts, target, inside);
  }
}
