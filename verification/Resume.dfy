/**
 * Resuming a message that arrived in pieces. For single-spine types the retries after each short read
 * rebuild exactly the value that one-shot decoding gives.
 */
module Resume {
  import opened Bytes
  import opened Codec
  import opened Reader
  import opened OneShot
  import opened PrefixFree

  /** Read with at most one numeric read and no header of its own. */
  predicate IsItem(t: Ty) {
    t.Num? || t.Time? || IsEmptyClass(t)
  }

  /** At most one item, or one range of items, under any nesting of optional, pointer and variant. */
  predicate Spine(ty: Ty) {
    match ty
    case Num(_) => true
    case Time => true
    case Opt(_, t) => Spine(t)
    case Range(forward, t) => !forward && IsItem(t)
    case Array(_, _) => false
    case Struct(fs, _) => fs == []
    case Variant(alts) => forall i :: 0 <= i < |alts| ==> Spine(alts[i])
  }

  /** target and memo record the first c bytes of the encoding of v, read at `level` and deeper. */
  ghost predicate Progress(o: Order, ty: Ty, v: Val, target: Val, c: nat, level: int, reg: map<int, seq<nat>>)
    requires WellFormed(ty) && HasType(ty, v) && Spine(ty)
    decreases ty
  {
    if c == 0 then target == Fresh(ty) && reg == map[]
    else
      match ty
      case Opt(_, t) =>
        v.VSome? && target.VSome? && Progress(o, t, v.inner, target.inner, c - 1, level + 1, reg)
      case Range(_, t) =>
        target.VList? && |target.vs| <= |v.vs| && target.vs == v.vs[..|target.vs|] &&
        c == 8 + |EncodeItems(o, t, v.vs[..|target.vs|])| && reg == map[level := [|v.vs|]]
      case Variant(alts) =>
        c >= 8 && target.VAlt? && target.index == v.index &&
        Progress(o, alts[v.index], v.inner, target.inner, c - 8, level + 1, reg)
      case _ => false
  }

  /** Leaving a level below the message that kept no memo. */
  lemma LeaveQuietly(x: Val, n: nat, rest: seq<byte>, st: State)
    requires st.level > 0 && forall l :: l in st.reg ==> l <= st.level
    ensures Leave(Step(Ok, x, Advance(st.(level := st.level + 1), n, rest))) == Step(Ok, x, Advance(st, n, rest))
  {
    assert st.reg - {st.level + 1} == st.reg;
  }

  lemma {:induction false} TimeBody(o: Order, x: Val, rest: seq<byte>, st: State)
    requires Agrees(o) && HasType(Time, x) && st.unread == Encode(o, Time, x) + rest
    ensures |Encode(o, Time, x)| == 8 && WellFormed(Time)
    ensures Body(o, Time, Fresh(Time), st) == Step(Ok, x, Advance(st, 8, rest))
  {
    hide NumRead, NumBytes, Fresh;
    NumReadExact(o, 8, x.raw, rest, st);
  }

  lemma {:induction false} TimeRead(o: Order, x: Val, rest: seq<byte>, st: State)
    requires Agrees(o) && HasType(Time, x) && st.level > 0 && forall l :: l in st.reg ==> l <= st.level
    requires st.unread == Encode(o, Time, x) + rest
    ensures WellFormed(Time) && Decode(o, Time, Fresh(Time), st) == Step(Ok, x, Advance(st, |Encode(o, Time, x)|, rest))
  {
    hide Body, Leave, Encode, Fresh, HasType;
    TimeBody(o, x, rest, st.(level := st.level + 1));
    LeaveQuietly(x, 8, rest, st);
  }

  lemma {:induction false} EmptyRead(o: Order, t: Ty, x: Val, rest: seq<byte>, st: State)
    requires WellFormed(t) && HasType(t, x) && IsEmptyClass(t)
    requires st.level > 0 && forall l :: l in st.reg ==> l <= st.level
    requires st.unread == Encode(o, t, x) + rest
    ensures Decode(o, t, Fresh(t), st) == Step(Ok, x, Advance(st, |Encode(o, t, x)|, rest))
  {
    hide Leave;
    var inside := st.(level := st.level + 1);
    assert x == VList([]) && Fresh(t) == VList([]) && Encode(o, t, x) == [] && [] + rest == rest;
    assert FieldLoop(o, [], [], inside) == Step(Ok, VList([]), inside);
    assert Body(o, t, VList([]), inside) == FieldLoop(o, [], [], inside);
    assert Advance(inside, 0, rest) == inside;
    LeaveQuietly(x, 0, rest, st);
  }

  lemma {:induction false} ItemRead(o: Order, t: Ty, x: Val, rest: seq<byte>, st: State)
    requires Agrees(o) && WellFormed(t) && HasType(t, x) && IsItem(t)
    requires st.level > 0 && forall l :: l in st.reg ==> l <= st.level
    requires st.unread == Encode(o, t, x) + rest
    ensures Decode(o, t, Fresh(t), st) == Step(Ok, x, Advance(st, |Encode(o, t, x)|, rest))
  {
    match t
    case Num(w) => NumReadExact(o, w, x.raw, rest, st);
    case Time => TimeRead(o, x, rest, st);
    case Struct(fs, _) => EmptyRead(o, t, x, rest, st);
  }

  lemma {:induction false} ItemShort(o: Order, t: Ty, x: Val, p: seq<byte>, st: State)
    requires WellFormed(t) && HasType(t, x) && IsItem(t)
    requires st.unread == p && StrictPrefix(p, Encode(o, t, x))
    ensures var r := Decode(o, t, Fresh(t), st);
            r.code.BufferSizeLesser? && r.st == st.(iter := r.st.iter)
  {
    match t
    case Num(_) =>
    case Time =>
    case Struct(fs, _) => EmptyStruct(o, t, x); assert false;
  }

  lemma {:induction false} SpineItems(o: Order, t: Ty, held: seq<Val>, vs: seq<Val>, rest: seq<byte>, st: State)
    requires Agrees(o) && WellFormed(t) && IsItem(t)
    requires st.level > 0 && forall l :: l in st.reg ==> l <= st.level
    requires forall i :: 0 <= i < |vs| ==> HasType(t, vs[i])
    requires st.unread == EncodeItems(o, t, vs) + rest
    ensures var r := ItemLoop(o, false, t, held, |vs|, 0, st);
            r.code.Ok? && r.target == VList(held + vs) && r.st == Advance(st, |EncodeItems(o, t, vs)|, rest)
    decreases |vs|
  {
    hide Decode, ItemLoop, HasType, Encode, EncodeItems, WellFormed, Fresh;
    if vs == [] {
      NothingLeft(o, false, t, held, rest, st);
      assert held + vs == held;
    } else {
      SplitItems(o, t, vs, rest);
      var tail := EncodeItems(o, t, vs[1..]) + rest;
      ItemRead(o, t, vs[0], tail, st);
      var st1 := Advance(st, |Encode(o, t, vs[0])|, tail);
      ItemStep(o, t, held, |vs|, st, vs[0], st1);
      SpineItems(o, t, held + [vs[0]], vs[1..], rest, st1);
      assert (held + [vs[0]]) + vs[1..] == held + vs;
    }
  }

  /** A short read of items keeps the k whole items it saw, and nothing of the next one. */
  ghost predicate ItemsKept(o: Order, t: Ty, held: seq<Val>, vs: seq<Val>, p: seq<byte>, st: State, r: Step)
    requires forall i :: 0 <= i < |vs| ==> HasType(t, vs[i])
  {
    exists k: nat :: k <= |vs| && ItemsKeptAt(o, t, held, vs, p, st, r, k)
  }

  ghost predicate ItemsKeptAt(o: Order, t: Ty, held: seq<Val>, vs: seq<Val>, p: seq<byte>, st: State, r: Step, k: nat)
    requires k <= |vs| && forall i :: 0 <= i < |vs| ==> HasType(t, vs[i])
  {
    var n := |EncodeItems(o, t, vs[..k])|;
    r.code.BufferSizeLesser? && r.target == VList(held + vs[..k]) && n <= |p| &&
    r.st == st.(unread := p[n..], end := st.end + n, iter := r.st.iter)
  }

  lemma {:induction false} SpineItemsShort(o: Order, t: Ty, held: seq<Val>, vs: seq<Val>, p: seq<byte>, st: State)
    requires Agrees(o) && WellFormed(t) && IsItem(t)
    requires st.level > 0 && forall l :: l in st.reg ==> l <= st.level
    requires forall i :: 0 <= i < |vs| ==> HasType(t, vs[i])
    requires st.unread == p && StrictPrefix(p, EncodeItems(o, t, vs))
    ensures ItemsKept(o, t, held, vs, p, st, ItemLoop(o, false, t, held, |vs|, 0, st))
    decreases |vs|
  {
    hide Decode, ItemLoop, HasType, Encode, EncodeItems, WellFormed, Fresh, StrictPrefix, IsItem, WholeFields, Chunks, ItemChunks;
    ItemsPrefix(o, t, vs, p);
    ItemFails(o, t, held, |vs|, st);
    var n := |Encode(o, t, vs[0])|;
    var r := ItemLoop(o, false, t, held, |vs|, 0, st);
    if |p| < n {
      ItemShort(o, t, vs[0], p, st);
      NothingLeft(o, false, t, held, p, st);
      assert vs[..0] == [] && held + [] == held && p[0..] == p;
      assert ItemsKeptAt(o, t, held, vs, p, st, r, 0);
    } else {
      ItemRead(o, t, vs[0], p[n..], st);
      var st1 := Advance(st, n, p[n..]);
      SpineItemsShort(o, t, held + [vs[0]], vs[1..], p[n..], st1);
      var k: nat :| k <= |vs[1..]| && ItemsKeptAt(o, t, held + [vs[0]], vs[1..], p[n..], st1, r, k);
      KeptOneMore(o, t, held, vs, p, st, r, k);
    }
  }

  lemma {:induction false} KeptOneMore(o: Order, t: Ty, held: seq<Val>, vs: seq<Val>, p: seq<byte>,
                                       st: State, r: Step, k: nat)
    requires vs != [] && forall i :: 0 <= i < |vs| ==> HasType(t, vs[i])
    requires |Encode(o, t, vs[0])| <= |p| && k <= |vs[1..]|
    requires var n := |Encode(o, t, vs[0])|;
             ItemsKeptAt(o, t, held + [vs[0]], vs[1..], p[n..], Advance(st, n, p[n..]), r, k)
    ensures ItemsKeptAt(o, t, held, vs, p, st, r, k + 1)
  {
    hide Encode, EncodeItems, HasType;
    var n := |Encode(o, t, vs[0])|;
    SplitItems(o, t, vs[..k + 1], []);
    assert vs[..k + 1][1..] == vs[1..][..k] && vs[..k + 1][0] == vs[0];
    var m := |EncodeItems(o, t, vs[1..][..k])|;
    assert p[n..][m..] == p[n + m..];
    assert (held + [vs[0]]) + vs[1..][..k] == held + vs[..k + 1];
  }

  /** A reader part-way through a message: c bytes of it are behind the cursor and on record. */
  ghost predicate Ready(o: Order, ty: Ty, v: Val, target: Val, c: nat, st: State) {
    Agrees(o) && WellFormed(ty) && HasType(ty, v) && Spine(ty) && |Encode(o, ty, v)| < SIZE_LIMIT &&
    st.level >= 0 && st.end == st.iter + c && c <= |Encode(o, ty, v)| &&
    Progress(o, ty, v, target, c, st.level + 1, st.reg)
  }

  /** v is complete after n more bytes, and the reader is as fresh as the level allows. */
  predicate Done(ty: Ty, v: Val, r: Step, st: State, n: nat, rest: seq<byte>) {
    var closed := !ty.Num? && st.level == 0;
    r.code.Ok? && r.target == v && r.st.unread == rest && r.st.end == st.end + n && r.st.level == st.level &&
    r.st.reg == map[] && r.st.begin == (if closed then r.st.end else st.begin) && (closed ==> r.st.iter == r.st.end)
  }

  /** The reader still waits, with d more bytes of v on record. */
  ghost predicate Waiting(o: Order, ty: Ty, v: Val, r: Step, c: nat, d: nat, st: State, p: seq<byte>)
    requires WellFormed(ty) && HasType(ty, v) && Spine(ty)
  {
    r.code.BufferSizeLesser? && d <= |p| && r.st.unread == p[d..] && r.st.end == st.end + d &&
    r.st.begin == st.begin && r.st.level == st.level && (!ty.Num? ==> r.st.iter == st.begin) &&
    Progress(o, ty, v, r.target, c + d, st.level + 1, r.st.reg)
  }

  lemma EnoughSkipped(st: State, c: nat, w: nat)
    requires st.end == st.iter + c && c < SIZE_LIMIT
    ensures CanSkip(st, w) <==> c >= w
  {}

  function Inside(st: State): State {
    st.(level := st.level + 1)
  }

  lemma DropHead(head: seq<byte>, tail: seq<byte>, c: nat)
    requires |head| <= c <= |head| + |tail|
    ensures (head + tail)[c..] == tail[c - |head|..]
  {}

  /** The type and value under an optional's flag or a variant's index, and the width of that header. */
  function HeaderWidth(ty: Ty): nat {
    if ty.Opt? then 1 else 8
  }

  predicate Wraps(ty: Ty, v: Val) {
    (ty.Opt? && v.VSome?) || (ty.Variant? && v.VAlt? && v.index < |ty.alts|)
  }

  function InnerType(ty: Ty, v: Val): Ty
    requires Wraps(ty, v)
  {
    if ty.Opt? then ty.held else ty.alts[v.index]
  }

  function Rewrap(v: Val, r: Step): Step
    requires v.VSome? || v.VAlt?
  {
    r.(target := if v.VSome? then VSome(r.target) else VAlt(v.index, r.target))
  }

  /** A record of more than nothing, under a header, is a record of the inner value. */
  lemma {:induction false} Unwrap(o: Order, ty: Ty, v: Val, target: Val, c: nat, st: State)
    requires Ready(o, ty, v, target, c, st) && c > 0 && !ty.Range?
    ensures Wraps(ty, v) && Wraps(ty, target)
    ensures InnerType(ty, v) == InnerType(ty, target) && c >= HeaderWidth(ty)
    ensures ty.Variant? ==> v.index == target.index
    ensures Ready(o, InnerType(ty, v), v.inner, target.inner, c - HeaderWidth(ty), Skip(Inside(st), HeaderWidth(ty)))
    ensures Encode(o, ty, v)[c..] == Encode(o, InnerType(ty, v), v.inner)[c - HeaderWidth(ty)..]
    ensures |Encode(o, ty, v)| == HeaderWidth(ty) + |Encode(o, InnerType(ty, v), v.inner)|
  {
    if ty.Opt? {
      DropHead(NumBytes(o, 1, 1), Encode(o, ty.held, v.inner), c);
    } else {
      DropHead(NumBytes(o, 8, v.index), Encode(o, ty.alts[v.index], v.inner), c);
    }
  }

  /** Retrying past a header that was already read goes straight to the held value. */
  lemma {:induction false} SkipHeader(o: Order, ty: Ty, target: Val, st: State)
    requires WellFormed(ty) && Wraps(ty, target) && CanSkip(st, HeaderWidth(ty))
    ensures WellFormed(InnerType(ty, target))
    ensures var r := Decode(o, InnerType(ty, target), target.inner, Skip(Inside(st), HeaderWidth(ty)));
            Decode(o, ty, target, st) == Leave(Rewrap(target, r))
  {
    if ty.Opt? {
      assert Body(o, ty, target, Inside(st)) == OptBody(o, ty.holder, ty.held, target, Inside(st));
    } else {
      assert Body(o, ty, target, Inside(st)) == VariantBody(o, ty.alts, target, Inside(st));
    }
  }

  lemma DoneOutside(ty: Ty, v: Val, t: Ty, r: Step, st: State, w: nat, n: nat, rest: seq<byte>)
    requires Wraps(ty, v) && st.level >= 0
    requires Done(t, v.inner, r, Skip(Inside(st), w), n, rest)
    ensures Done(ty, v, Leave(Rewrap(v, r)), st, n, rest)
  {
    assert r.st.reg - {st.level + 1} == map[];
  }

  /** With the missing bytes at hand, a retry completes exactly v. */
  lemma {:induction false} ResumeFull(o: Order, ty: Ty, v: Val, target: Val, c: nat, rest: seq<byte>, st: State)
    requires Ready(o, ty, v, target, c, st) && st.unread == Encode(o, ty, v)[c..] + rest
    ensures Done(ty, v, Decode(o, ty, target, st), st, |Encode(o, ty, v)| - c, rest)
    decreases ty
  {
    hide Decode, Encode, Progress, HasType, WellFormed, Spine, Leave, Rewrap, Done;
    if c == 0 {
      ResumeFromStart(o, ty, v, target, rest, st);
    } else if ty.Range? {
      ResumeRange(o, ty, v, target, c, rest, st);
    } else {
      Unwrap(o, ty, v, target, c, st);
      var (w, t) := (HeaderWidth(ty), InnerType(ty, v));
      ResumeFull(o, t, v.inner, target.inner, c - w, rest, Skip(Inside(st), w));
      EnoughSkipped(st, c, w);
      SkipHeader(o, ty, target, st);
      var r := Decode(o, t, target.inner, Skip(Inside(st), w));
      DoneOutside(ty, v, t, r, st, w, |Encode(o, ty, v)| - c, rest);
      assert Rewrap(v, r) == Rewrap(target, r) by { SameWrap(ty, v, target, r); }
    }
  }

  lemma SameWrap(ty: Ty, v: Val, target: Val, r: Step)
    requires Wraps(ty, v) && Wraps(ty, target) && (ty.Variant? ==> v.index == target.index)
    ensures Rewrap(v, r) == Rewrap(target, r)
  {}

  lemma {:induction false} ResumeFromStart(o: Order, ty: Ty, v: Val, target: Val, rest: seq<byte>, st: State)
    requires Ready(o, ty, v, target, 0, st) && st.unread == Encode(o, ty, v)[0..] + rest
    ensures Done(ty, v, Decode(o, ty, target, st), st, |Encode(o, ty, v)|, rest)
  {
    hide Decode, Encode, HasType, WellFormed, Spine;
    assert Encode(o, ty, v)[0..] == Encode(o, ty, v);
    RoundTrip(o, ty, v, rest, st);
  }

  lemma SkippedHeader(o: Order, target: Val, n: nat, st: State)
    requires CanSkip(st, 8) && st.reg == map[st.level := [n]]
    ensures RangeHeader(o, target, st) == (NumStep(Ok, n, Skip(st, 8)), target)
  {}

  /** Retrying past a size header takes the size from the memo and reads only the missing items. */
  lemma {:induction false} SkipRange(o: Order, ty: Ty, target: Val, n: nat, st: State)
    requires WellFormed(ty) && ty.Range? && !ty.forward && CanSkip(st, 8)
    requires target.VList? && |target.vs| <= n < SIZE_LIMIT && st.reg == map[st.level + 1 := [n]]
    ensures Decode(o, ty, target, st)
            == Leave(ItemLoop(o, false, ty.elem, target.vs, n - |target.vs|, 0, Skip(Inside(st), 8)))
  {
    hide ItemLoop, Leave, RangeHeader, ForwardBody, Skip;
    SkippedHeader(o, target, n, Inside(st));
    assert (n - |target.vs|) % SIZE_LIMIT == n - |target.vs|;
    assert RangeBody(o, false, ty.elem, target, Inside(st))
        == ItemLoop(o, false, ty.elem, target.vs, n - |target.vs|, 0, Skip(Inside(st), 8));
    assert Body(o, ty, target, Inside(st)) == RangeBody(o, false, ty.elem, target, Inside(st));
  }

  lemma {:induction false} RangeSplit(o: Order, t: Ty, vs: seq<Val>, m: nat, head: seq<byte>)
    requires m <= |vs| && forall i :: 0 <= i < |vs| ==> HasType(t, vs[i])
    ensures |EncodeItems(o, t, vs)| == |EncodeItems(o, t, vs[..m])| + |EncodeItems(o, t, vs[m..])|
    ensures (head + EncodeItems(o, t, vs))[|head| + |EncodeItems(o, t, vs[..m])|..] == EncodeItems(o, t, vs[m..])
  {
    EncodeItemsConcat(o, t, vs[..m], vs[m..]);
    assert vs[..m] + vs[m..] == vs;
  }

  /** A record under a size header: m whole items, the size on record, the rest of the items still to come. */
  lemma {:induction false} RangeRecord(o: Order, ty: Ty, v: Val, target: Val, c: nat, st: State)
    requires Ready(o, ty, v, target, c, st) && ty.Range? && c > 0
    ensures target.VList? && |target.vs| <= |v.vs| < SIZE_LIMIT && target.vs == v.vs[..|target.vs|]
    ensures st.reg == map[st.level + 1 := [|v.vs|]] && !ty.forward && IsItem(ty.elem)
    ensures c == 8 + |EncodeItems(o, ty.elem, v.vs[..|target.vs|])|
    ensures Encode(o, ty, v)[c..] == EncodeItems(o, ty.elem, v.vs[|target.vs|..])
    ensures |Encode(o, ty, v)| == c + |EncodeItems(o, ty.elem, v.vs[|target.vs|..])|
  {
    RangeSplit(o, ty.elem, v.vs, |target.vs|, NumBytes(o, 8, |v.vs|));
  }

  lemma {:induction false} ResumeRange(o: Order, ty: Ty, v: Val, target: Val, c: nat, rest: seq<byte>, st: State)
    requires Ready(o, ty, v, target, c, st) && st.unread == Encode(o, ty, v)[c..] + rest
    requires ty.Range? && c > 0
    ensures Done(ty, v, Decode(o, ty, target, st), st, |Encode(o, ty, v)| - c, rest)
  {
    hide Decode, ItemLoop, HasType, WellFormed, Encode, EncodeItems, Progress, IsItem, Spine;
    RangeRecord(o, ty, v, target, c, st);
    RangeTypes(ty, v);
    var (t, vs, m) := (ty.elem, v.vs, |target.vs|);
    EnoughSkipped(st, c, 8);
    SkipRange(o, ty, target, |vs|, st);
    SpineItems(o, t, vs[..m], vs[m..], rest, Skip(Inside(st), 8));
    assert vs[..m] + vs[m..] == vs;
    assert map[st.level + 1 := [|vs|]] - {st.level + 1} == map[];
  }

  lemma {:induction false} RangeTypes(ty: Ty, v: Val)
    requires WellFormed(ty) && ty.Range? && HasType(ty, v)
    ensures WellFormed(ty.elem) && v.VList? && |v.vs| < SIZE_LIMIT
    ensures forall i :: 0 <= i < |v.vs| ==> HasType(ty.elem, v.vs[i])
  {}

  /** Short of the last byte, a retry reports it and keeps a correct record of everything that arrived. */
  lemma {:induction false} ResumeShort(o: Order, ty: Ty, v: Val, target: Val, c: nat, p: seq<byte>, st: State)
      returns (d: nat)
    requires Ready(o, ty, v, target, c, st) && st.unread == p && StrictPrefix(p, Encode(o, ty, v)[c..])
    ensures Waiting(o, ty, v, Decode(o, ty, target, st), c, d, st, p)
    decreases ty
  {
    hide Decode, Encode, Progress, HasType, WellFormed, Spine, Leave, Rewrap, Waiting, Fresh, StrictPrefix, CanSkip;
    if ty.Range? {
      d := ShortRangeRetry(o, ty, v, target, c, p, st);
    } else if c == 0 && (!Wraps(ty, v) || |p| < HeaderWidth(ty)) {
      ShortAtStart(o, ty, v, target, p, st);
      d := 0;
    } else {
      if c != 0 {
        Unwrap(o, ty, v, target, c, st);
      }
      var (w, t) := (HeaderWidth(ty), InnerType(ty, v));
      if c == 0 {
        ReadHeader(o, ty, v, target, p, st);
        var st1 := Advance(Inside(st), w, p[w..]);
        var e := ResumeShort(o, t, v.inner, Fresh(t), 0, p[w..], st1);
        WaitingOutside(o, ty, v, Decode(o, t, Fresh(t), st1), 0, e, st1, st, p, w);
        d := w + e;
      } else {
        var st1 := Skip(Inside(st), w);
        var e := ResumeShort(o, t, v.inner, target.inner, c - w, p, st1);
        EnoughSkipped(st, c, w);
        SkipHeader(o, ty, target, st);
        SameWrap(ty, v, target, Decode(o, t, target.inner, st1));
        assert p[0..] == p;
        WaitingOutside(o, ty, v, Decode(o, t, target.inner, st1), c - w, e, st1, st, p, 0);
        d := e;
      }
    }
  }

  /** Items kept by a short read extend a record of m items to one of m + k. */
  lemma ItemsOnRecord(o: Order, ty: Ty, v: Val, m: nat, r: Step, c: nat, st: State, st1: State, p: seq<byte>)
      returns (d: nat)
    requires WellFormed(ty) && HasType(ty, v) && ty.Range? && Spine(ty) && m <= |v.vs|
    requires c == 8 + |EncodeItems(o, ty.elem, v.vs[..m])|
    requires st1.level == st.level + 1 && st1.begin == st.begin && st1.reg == map[st1.level := [|v.vs|]]
    requires forall i :: 0 <= i < |v.vs[m..]| ==> HasType(ty.elem, v.vs[m..][i])
    requires ItemsKept(o, ty.elem, v.vs[..m], v.vs[m..], p, st1, r)
    ensures d <= |p| && Leave(r).st.unread == p[d..] && Leave(r).st.end == st1.end + d
    ensures Leave(r).code.BufferSizeLesser? && Leave(r).st.level == st.level
    ensures Leave(r).st.iter == st.begin == Leave(r).st.begin
    ensures Progress(o, ty, v, Leave(r).target, c + d, st.level + 1, Leave(r).st.reg)
  {
    hide Encode, EncodeItems, HasType, WellFormed;
    RangeTypes(ty, v);
    var (t, vs) := (ty.elem, v.vs);
    var k: nat :| k <= |vs[m..]| && ItemsKeptAt(o, t, vs[..m], vs[m..], p, st1, r, k);
    d := |EncodeItems(o, t, vs[m..][..k])|;
    assert vs[..m] + vs[m..][..k] == vs[..m + k];
    EncodeItemsConcat(o, t, vs[..m], vs[m..][..k]);
  }

  lemma ShortRangeRetry(o: Order, ty: Ty, v: Val, target: Val, c: nat, p: seq<byte>, st: State) returns (d: nat)
    requires Ready(o, ty, v, target, c, st) && st.unread == p && StrictPrefix(p, Encode(o, ty, v)[c..]) && ty.Range?
    ensures Waiting(o, ty, v, Decode(o, ty, target, st), c, d, st, p)
  {
    hide Decode, ItemLoop, HasType, WellFormed, Encode, EncodeItems, Progress, IsItem, Spine, Leave, StrictPrefix;
    if c == 0 {
      d := ShortRangeFirst(o, ty, v, target, p, st);
    } else {
      RangeRecord(o, ty, v, target, c, st);
      RangeTypes(ty, v);
      var (t, vs, m) := (ty.elem, v.vs, |target.vs|);
      EnoughSkipped(st, c, 8);
      SkipRange(o, ty, target, |vs|, st);
      var st1 := Skip(Inside(st), 8);
      SpineItemsShort(o, t, vs[..m], vs[m..], p, st1);
      d := ItemsOnRecord(o, ty, v, m, ItemLoop(o, false, t, vs[..m], |vs| - m, 0, st1), c, st, st1, p);
    }
  }

  lemma ShortRangeFirst(o: Order, ty: Ty, v: Val, target: Val, p: seq<byte>, st: State) returns (d: nat)
    requires Ready(o, ty, v, target, 0, st) && st.unread == p && StrictPrefix(p, Encode(o, ty, v)[0..]) && ty.Range?
    ensures Waiting(o, ty, v, Decode(o, ty, target, st), 0, d, st, p)
  {
    hide Decode, RangeBody, ItemLoop, HasType, WellFormed, Encode, EncodeItems, IsItem, NumBytes, NumRead, Fresh, StrictPrefix,
      Register, Leave, Progress, Spine;
    RangeTypes(ty, v);
    RangeOpens(o, ty, v, target, st);
    var (t, vs) := (ty.elem, v.vs);
    SplitPrefix(p, NumBytes(o, 8, |vs|), EncodeItems(o, t, vs));
    EnoughSkipped(Inside(st), 0, 8);
    if |p| < 8 {
      RangeUntouched(o, ty, v, p, st);
      d := 0;
    } else {
      assert |vs| < Pow256(8) by { SmallNumbers(); }
      NumReadExact(o, 8, |vs|, p[8..], Inside(st));
      var st0 := Advance(Inside(st), 8, p[8..]);
      RangeStart(o, false, t, |vs|, VList([]), Inside(st), st0);
      var e := ShortItemsFirst(o, ty, v, p[8..], st, st0);
      assert p[8..][e..] == p[8 + e..];
      d := 8 + e;
    }
  }

  lemma {:induction false} RangeOpens(o: Order, ty: Ty, v: Val, target: Val, st: State)
    requires Ready(o, ty, v, target, 0, st) && ty.Range?
    ensures Fresh(ty) == VList([]) && !ty.forward && IsItem(ty.elem)
    ensures Decode(o, ty, target, st) == Leave(RangeBody(o, false, ty.elem, VList([]), Inside(st)))
    ensures st.reg == map[]
    ensures v.VList? && Encode(o, ty, v)[0..] == NumBytes(o, 8, |v.vs|) + EncodeItems(o, ty.elem, v.vs)
  {
    hide RangeBody, Leave, EncodeItems, NumBytes, NumRead;
    assert Body(o, ty, target, Inside(st)) == RangeBody(o, false, ty.elem, VList([]), Inside(st));
  }

  lemma ShortItemsFirst(o: Order, ty: Ty, v: Val, p: seq<byte>, st: State, st0: State) returns (d: nat)
    requires Agrees(o) && WellFormed(ty) && HasType(ty, v) && ty.Range? && Spine(ty) && st.level >= 0
    requires st0.level == st.level + 1 && st0.begin == st.begin && st0.reg == map[] && st0.unread == p
    requires StrictPrefix(p, EncodeItems(o, ty.elem, v.vs))
    ensures var r := Leave(ItemLoop(o, false, ty.elem, [], |v.vs|, 0, Register(st0, |v.vs|)));
            d <= |p| && r.st.unread == p[d..] && r.st.end == st0.end + d && r.code.BufferSizeLesser? &&
            r.st.level == st.level && r.st.iter == st.begin == r.st.begin &&
            Progress(o, ty, v, r.target, 8 + d, st.level + 1, r.st.reg)
  {
    RangeTypes(ty, v);
    var (t, vs) := (ty.elem, v.vs);
    hide ItemLoop, HasType, WellFormed, EncodeItems, IsItem, StrictPrefix, Leave, Progress, Register;
    RegisterFirst(st0, |vs|);
    var st1 := Register(st0, |vs|);
    assert vs[..0] == [] && vs[0..] == vs;
    NothingLeft(o, false, t, [], p, st1);
    SpineItemsShort(o, t, [], vs, p, st1);
    d := ItemsOnRecord(o, ty, v, 0, ItemLoop(o, false, t, [], |vs|, 0, st1), 8, st, st1, p);
  }

  lemma RegisterFirst(st: State, x: nat)
    requires st.reg == map[]
    ensures Register(st, x) == st.(reg := map[st.level := [x]])
  {
    assert [] + [x] == [x];
  }

  lemma {:induction false} EmptyStruct(o: Order, ty: Ty, v: Val)
    requires HasType(ty, v) && ty.Struct? && ty.fields == []
    ensures Encode(o, ty, v) == []
  {}

  lemma {:induction false} RangeUntouched(o: Order, ty: Ty, v: Val, p: seq<byte>, st: State)
    requires WellFormed(ty) && HasType(ty, v) && ty.Range? && Spine(ty) && st.unread == p && |p| < 8
    requires st.iter == st.end && st.reg == map[] && st.level >= 0
    ensures Waiting(o, ty, v, Leave(RangeBody(o, false, ty.elem, VList([]), Inside(st))), 0, 0, st, p)
  {
    assert p[0..] == p;
    assert RangeBody(o, false, ty.elem, VList([]), Inside(st)) == Step(BufferSizeLesser, VList([]), Inside(st));
  }

  /** The very first numeric field of the message is incomplete, so nothing moves. */
  lemma {:induction false} ShortAtStart(o: Order, ty: Ty, v: Val, target: Val, p: seq<byte>, st: State)
    requires Ready(o, ty, v, target, 0, st) && st.unread == p && StrictPrefix(p, Encode(o, ty, v)[0..])
    requires !ty.Range? && (!Wraps(ty, v) || |p| < HeaderWidth(ty))
    ensures Waiting(o, ty, v, Decode(o, ty, target, st), 0, 0, st, p)
  {
    assert p[0..] == p;
    EnoughSkipped(st, 0, 1);
    EnoughSkipped(st, 0, 8);
    match ty
    case Num(_) =>
    case Time =>
    case Opt(h, t) =>
      assert Body(o, ty, target, Inside(st)) == OptBody(o, h, t, target, Inside(st));
    case Variant(alts) =>
      assert Body(o, ty, target, Inside(st)) == VariantBody(o, alts, target, Inside(st));
    case Struct(fs, _) => EmptyStruct(o, ty, v); assert false;
    case _ => assert false;
  }

  /** A header that arrives for the first time is read, and the held value starts from nothing. */
  lemma {:induction false} ReadHeader(o: Order, ty: Ty, v: Val, target: Val, p: seq<byte>, st: State)
    requires Ready(o, ty, v, target, 0, st) && st.unread == p && StrictPrefix(p, Encode(o, ty, v)[0..])
    requires Wraps(ty, v) && |p| >= HeaderWidth(ty)
    ensures var (w, t) := (HeaderWidth(ty), InnerType(ty, v));
            WellFormed(t) && HasType(t, v.inner) &&
            Ready(o, t, v.inner, Fresh(t), 0, Advance(Inside(st), w, p[w..])) &&
            StrictPrefix(p[w..], Encode(o, t, v.inner)[0..]) &&
            Decode(o, ty, target, st) == Leave(Rewrap(v, Decode(o, t, Fresh(t), Advance(Inside(st), w, p[w..]))))
  {
    hide Decode, NumRead, NumBytes, Fresh;
    var (w, t) := (HeaderWidth(ty), InnerType(ty, v));
    SmallNumbers();
    EnoughSkipped(st, 0, w);
    var x := if ty.Opt? then 1 else v.index;
    var head := NumBytes(o, w, x);
    assert Encode(o, ty, v)[0..] == head + Encode(o, t, v.inner);
    SplitPrefix(p, head, Encode(o, t, v.inner));
    assert Encode(o, t, v.inner)[0..] == Encode(o, t, v.inner);
    NumReadExact(o, w, x, p[w..], Inside(st));
    HeaderStep(o, ty, v, target, Inside(st), Advance(Inside(st), w, p[w..]));
    DecodeIsBody(o, ty, target, st);
  }

  lemma {:induction false} DecodeIsBody(o: Order, ty: Ty, target: Val, st: State)
    requires WellFormed(ty) && !ty.Num?
    ensures Decode(o, ty, target, st) == Leave(Body(o, ty, target, Inside(st)))
  {}

  lemma {:induction false} HeaderStep(o: Order, ty: Ty, v: Val, target: Val, st: State, st1: State)
    requires WellFormed(ty) && Wraps(ty, v) && !CanSkip(st, HeaderWidth(ty))
    requires NumRead(o, HeaderWidth(ty), st) == NumStep(Ok, if ty.Opt? then 1 else v.index, st1)
    ensures WellFormed(InnerType(ty, v))
    ensures Body(o, ty, target, st) == Rewrap(v, Decode(o, InnerType(ty, v), Fresh(InnerType(ty, v)), st1))
  {
    hide Fresh, NumRead;
    if ty.Opt? {
      assert Body(o, ty, target, st) == OptBody(o, ty.holder, ty.held, target, st);
    } else {
      assert Body(o, ty, target, st) == VariantBody(o, ty.alts, target, st);
    }
  }

  /** An inner record is a record of the wrapping value, once the header is counted. */
  lemma {:induction false} WaitingOutside(o: Order, ty: Ty, v: Val, r: Step, c: nat, d: nat,
                                          st1: State, st: State, p: seq<byte>, w: nat)
    requires WellFormed(ty) && HasType(ty, v) && Spine(ty) && Wraps(ty, v)
    requires w <= |p| && (w == 0 || w == HeaderWidth(ty))
    requires st1.level == st.level + 1 && st1.begin == st.begin && st1.end == st.end + w
    requires WellFormed(InnerType(ty, v)) && HasType(InnerType(ty, v), v.inner) && Spine(InnerType(ty, v))
    requires Waiting(o, InnerType(ty, v), v.inner, r, c, d, st1, p[w..])
    ensures var c0 := if w == 0 then c + HeaderWidth(ty) else c;
            Waiting(o, ty, v, Leave(Rewrap(v, r)), c0, w + d, st, p)
  {
    hide Encode, EncodeItems, HasType, WellFormed, Spine, Fresh;
    assert p[w..][d..] == p[w + d..];
  }
}
