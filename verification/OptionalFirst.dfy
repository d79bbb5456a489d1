/**
 * A struct of an optional and a numeric in two views: the flag is skipped on the retry, whether or not it announced a
 * value, but a value behind it is read anew.
 */
module OptionalFirst {
  import opened Bytes
  import opened Codec
  import opened Reader
  import opened OneShot
  import opened StreamSession
  import opened ResumeFailures

  lemma {:induction false} LastNumeric(o: Order, w: nat, y: Val, st: State)
    requires 0 < w <= 16
    ensures var n := NumRead(o, w, st);
            FieldLoop(o, [Num(w)], [y], st) == Step(n.code, VList([if n.code.Ok? then VNum(n.x) else y]), n.st)
  {
    hide NumRead;
    assert [Num(w)][1..] == [] && [y][1..] == [];
    var n := NumRead(o, w, st);
    assert FieldLoop(o, [], [], n.st) == Step(Ok, VList([]), n.st);
    assert Decode(o, Num(w), y, st) == Step(n.code, if n.code.Ok? then VNum(n.x) else y, n.st);
    assert [VNum(n.x)] + [] == [VNum(n.x)] && [y] + [] == [y];
  }

  lemma {:induction false} TwoFields(o: Order, t: Ty, w: nat, target: Val, y: Val, st: State)
    requires WellFormed(t) && 0 < w <= 16
    ensures forall i :: 0 <= i < 2 ==> WellFormed([t, Num(w)][i])
    ensures var first := Decode(o, t, target, st);
            var n := NumRead(o, w, first.st);
            FieldLoop(o, [t, Num(w)], [target, y], st)
            == if !first.code.Ok? then first.(target := VList([first.target, y]))
               else Step(n.code, VList([first.target, if n.code.Ok? then VNum(n.x) else y]), n.st)
  {
    hide NumRead, Decode, WellFormed;
    var (fs, targets) := ([t, Num(w)], [target, y]);
    assert forall i :: 0 <= i < 2 ==> WellFormed(fs[i]) by { assert WellFormed(Num(w)) by { NumericFits(w); } }
    assert fs[1..] == [Num(w)] && targets[1..] == [y];
    var first := Decode(o, t, target, st);
    LastNumeric(o, w, y, first.st);
    assert forall x :: [first.target] + [x] == [first.target, x];
  }

  lemma NumericFits(w: nat)
    requires 0 < w <= 16
    ensures WellFormed(Num(w))
  {}

  /** The optional, read for the first time at the start of its flag, or again behind it. */
  lemma {:induction false} OptionalDecode(o: Order, holder: Holder, u: nat, target: Val, st: State)
    requires 0 < u <= 16 && st.level == 1 && st.reg == map[]
    ensures var r := Decode(o, Opt(holder, Num(u)), target, st);
            if CanSkip(st, 1) then
              if target.VSome? then
                var n := NumRead(o, u, Skip(st, 1));
                r.code == n.code && r.target == VSome(if n.code.Ok? then VNum(n.x) else target.inner) &&
                r.st == if n.code.Ok? then n.st else n.st.(iter := n.st.begin)
              else r == Step(Ok, target, Skip(st, 1))
            else if |st.unread| == 0 then r == Step(BufferSizeLesser, target, st.(iter := st.begin))
            else
              var flag := NumRead(o, 1, st);
              if flag.x == 0 then r == Step(Ok, if holder.SmartPointer? then VNone else target, flag.st)
              else
                var n := NumRead(o, u, flag.st);
                r.code == n.code && r.target == VSome(VNum(n.x)) &&
                r.st == if n.code.Ok? then n.st else n.st.(iter := n.st.begin)
  {
    hide NumRead, NumValue;
    var inside := st.(level := 2);
    assert Body(o, Opt(holder, Num(u)), target, inside) == OptBody(o, holder, Num(u), target, inside);
    assert st.reg - {2} == st.reg && Fresh(Num(u)) == VNum(0);
    SameRead(o, 1, inside, st);
    if CanSkip(st, 1) {
      if target.VSome? {
        NumberDecode(o, u, target.inner, Skip(inside, 1));
        SameRead(o, u, Skip(inside, 1), Skip(st, 1));
      }
    } else if |st.unread| > 0 {
      var (flag, flag') := (NumRead(o, 1, st), NumRead(o, 1, inside));
      NumberDecode(o, u, Fresh(Num(u)), flag'.st);
      SameRead(o, u, flag'.st, flag.st);
    }
  }

  /** Numerics are read the same on every level. */
  lemma SameRead(o: Order, w: nat, a: State, b: State)
    requires a == b.(level := a.level)
    ensures NumRead(o, w, a) == NumRead(o, w, b).(st := NumRead(o, w, b).st.(level := a.level))
    ensures NumRead(o, w, a).code == if |a.unread| < w then BufferSizeLesser else Ok
    ensures NumRead(o, w, a).st.reg == a.reg && NumRead(o, w, a).st.begin == a.begin && NumRead(o, w, a).st.level == a.level
    ensures NumRead(o, w, b).st.reg == b.reg && NumRead(o, w, b).st.level == b.level
    ensures !NumRead(o, w, a).code.Ok? ==> NumRead(o, w, a).x == 0 && NumRead(o, w, a).st == a
  {}

  lemma {:induction false} NumberDecode(o: Order, u: nat, target: Val, st: State)
    requires 0 < u <= 16
    ensures var n := NumRead(o, u, st);
            Decode(o, Num(u), target, st) == Step(n.code, if n.code.Ok? then VNum(n.x) else target, n.st)
  {}

  function Both(t: Ty, w: nat, pair: bool): (ty: Ty) { Struct([t, Num(w)], pair) }

  /** The struct is its two fields, inside the level it opens. */
  lemma {:induction false} BothDecode(o: Order, t: Ty, w: nat, pair: bool, a: Val, y: Val, st: State)
    requires WellFormed(t) && 0 < w <= 16 && st.level == 0
    ensures WellFormed(Both(t, w, pair)) && Fresh(Both(t, w, pair)) == VList([Fresh(t), VNum(0)])
    ensures var first := Decode(o, t, a, st.(level := 1));
            var n := NumRead(o, w, first.st);
            Decode(o, Both(t, w, pair), VList([a, y]), st)
            == Leave(if !first.code.Ok? then first.(target := VList([first.target, y]))
                     else Step(n.code, VList([first.target, if n.code.Ok? then VNum(n.x) else y]), n.st))
  {
    var fs := [t, Num(w)];
    TwoFields(o, t, w, a, y, st.(level := 1));
    assert forall i :: 0 <= i < |fs| ==> WellFormed(fs[i]);
    assert WellFormed(Both(t, w, pair));
    hide NumRead, WellFormed, Leave;
    assert Body(o, Both(t, w, pair), VList([a, y]), st.(level := 1)) == FieldLoop(o, fs, [a, y], st.(level := 1));
  }

  /** The bytes of the two fields. */
  lemma {:induction false} BothEncode(o: Order, t: Ty, w: nat, pair: bool, v: Val)
    requires HasType(Both(t, w, pair), v)
    ensures HasType(t, v.vs[0]) && HasType(Num(w), v.vs[1]) && v == VList([v.vs[0], v.vs[1]])
    ensures Encode(o, Both(t, w, pair), v) == Encode(o, t, v.vs[0]) + NumBytes(o, w, v.vs[1].raw)
  {
    hide NumBytes;
    var (fs, vs) := ([t, Num(w)], v.vs);
    assert HasType(fs[0], vs[0]) && HasType(fs[1], vs[1]);
    assert fs[1..] == [Num(w)] && vs[1..] == [vs[1]] && [Num(w)][1..] == [] && [vs[1]][1..] == [];
    assert EncodeFields(o, [], []) == [];
    assert EncodeFields(o, [Num(w)], [vs[1]]) == Encode(o, Num(w), vs[1]) + [] == NumBytes(o, w, vs[1].raw);
    assert EncodeFields(o, fs, vs) == Encode(o, fs[0], vs[0]) + EncodeFields(o, fs[1..], vs[1..]);
  }

  /** With nothing of the struct at hand, nothing happens. */
  lemma {:induction false} NothingYet(o: Order, holder: Holder, u: nat, w: nat, pair: bool, v: Val, st: State)
    requires Agrees(o) && 0 < u <= 16 && 0 < w <= 16 && Idle(st)
    requires HasType(Both(Opt(holder, Num(u)), w, pair), v)
    ensures var ty := Both(Opt(holder, Num(u)), w, pair);
            WellFormed(ty) && |Encode(o, ty, v)| > 0 && Recovers(Retry(o, ty, Encode(o, ty, v), 0, st), v)
  {
    var t := Opt(holder, Num(u));
    var ty := Both(t, w, pair);
    BothEncode(o, t, w, pair, v);
    var e := Encode(o, ty, v);
    BothDecode(o, t, w, pair, VNone, VNum(0), st);
    OptionalDecode(o, holder, u, VNone, st.(level := 1));
    hide Decode, Encode, HasType, WellFormed, Fresh, NumRead;
    PushedFirst(st, e[..0]);
    assert e[..0] == [];
    assert |e| > 0;
    UntouchedRetryRecovers(o, ty, v, 0, st);
  }

  function Bytes2(o: Order, w: nat, y: nat): seq<byte> {
    NumBytes(o, 1, 0) + NumBytes(o, w, y)
  }

  lemma FlagCuts(o: Order, w: nat, y: nat, k: nat)
    requires 1 <= k <= w
    ensures var e := Bytes2(o, w, y);
            |e| == 1 + w && e[..k] == NumBytes(o, 1, 0) + e[1..k] && e[1..k] + e[k..] == NumBytes(o, w, y) + []
  {
    hide NumBytes;
  }

  /** The first attempt, if it ends behind the flag of an empty optional. */
  lemma {:induction false} FlagRead(o: Order, holder: Holder, u: nat, w: nat, pair: bool, y: nat, k: nat, st: State)
    requires Agrees(o) && 0 < u <= 16 && 0 < w <= 16 && Idle(st) && y < Pow256(w) && 1 <= k <= w
    ensures var (ty, e) := (Both(Opt(holder, Num(u)), w, pair), Bytes2(o, w, y));
            WellFormed(ty) && FirstTry(o, ty, e, k, st)
            == Step(BufferSizeLesser, VList([VNone, VNum(0)]), st.(unread := e[1..k], end := st.end + 1))
  {
    var (t, e) := (Opt(holder, Num(u)), Bytes2(o, w, y));
    hide NumBytes, NumRead, Decode, Bytes2;
    FlagCuts(o, w, y, k);
    PushedFirst(st, e[..k]);
    var st1 := PushView(st, e[..k]);
    BothDecode(o, t, w, pair, VNone, VNum(0), st1);
    OptionalDecode(o, holder, u, VNone, st1.(level := 1));
    SmallNumbers();
    NumReadExact(o, 1, 0, e[1..k], st1.(level := 1));
    ShortNumber(o, w, Advance(st1.(level := 1), 1, e[1..k]));
  }

  /** Without a value in the optional, the flag alone is skipped on the retry. */
  lemma {:induction false} FlagSkipped(o: Order, holder: Holder, u: nat, w: nat, pair: bool, y: nat, k: nat, st: State)
    requires Agrees(o) && 0 < u <= 16 && 0 < w <= 16 && Idle(st) && y < Pow256(w) && 1 <= k <= w
    ensures var (ty, e) := (Both(Opt(holder, Num(u)), w, pair), Bytes2(o, w, y));
            WellFormed(ty) && Recovers(Retry(o, ty, e, k, st), VList([VNone, VNum(y)]))
  {
    var (t, e) := (Opt(holder, Num(u)), Bytes2(o, w, y));
    hide NumBytes, NumRead, Decode, Bytes2, FirstTry;
    FlagCuts(o, w, y, k);
    FlagRead(o, holder, u, w, pair, y, k, st);
    var st1 := PushView(st.(unread := e[1..k], end := st.end + 1), e[k..]);
    BothDecode(o, t, w, pair, VNone, VNum(0), st1);
    OptionalDecode(o, holder, u, VNone, st1.(level := 1));
    NumReadExact(o, w, y, [], Skip(st1.(level := 1), 1));
  }

  lemma ShortNumber(o: Order, w: nat, st: State)
    requires |st.unread| < w
    ensures NumRead(o, w, st) == NumStep(BufferSizeLesser, 0, st)
  {}

  function Bytes3(o: Order, u: nat, w: nat, x: nat, y: nat): seq<byte> {
    NumBytes(o, 1, 1) + NumBytes(o, u, x) + NumBytes(o, w, y)
  }

  /** Where the parts of such an encoding lie, cut at k. */
  lemma Cuts(o: Order, u: nat, w: nat, x: nat, y: nat, k: nat)
    requires 1 <= k < 1 + u + w
    ensures var e := Bytes3(o, u, w, x, y);
            |e| == 1 + u + w && e[..k] == NumBytes(o, 1, 1) + e[1..k] && e[1..k] + e[k..] == e[1..] &&
            e[1..] == NumBytes(o, u, x) + NumBytes(o, w, y) && e[1 + u..] == NumBytes(o, w, y) + []
    ensures var e := Bytes3(o, u, w, x, y);
            k >= 1 + u ==> e[1..k] == NumBytes(o, u, x) + e[1 + u..k] && e[1 + u..k] + e[k..] == e[1 + u..]
  {
    hide NumBytes;
  }

  /** The first attempt, if it ends inside the optional's value. */
  lemma {:induction false} ValueShort(
      o: Order, holder: Holder, u: nat, w: nat, pair: bool, x: nat, y: nat, k: nat, st: State)
    requires Agrees(o) && 0 < u <= 16 && 0 < w <= 16 && Idle(st) && x < Pow256(u) && y < Pow256(w) && 1 <= k <= u
    ensures var (ty, e) := (Both(Opt(holder, Num(u)), w, pair), Bytes3(o, u, w, x, y));
            WellFormed(ty) && FirstTry(o, ty, e, k, st)
            == Step(BufferSizeLesser, VList([VSome(VNum(0)), VNum(0)]), st.(unread := e[1..k], end := st.end + 1))
  {
    var (t, e) := (Opt(holder, Num(u)), Bytes3(o, u, w, x, y));
    hide NumBytes, NumRead, Decode, Bytes3;
    Cuts(o, u, w, x, y, k);
    PushedFirst(st, e[..k]);
    var st1 := PushView(st, e[..k]);
    BothDecode(o, t, w, pair, VNone, VNum(0), st1);
    OptionalDecode(o, holder, u, VNone, st1.(level := 1));
    SmallNumbers();
    NumReadExact(o, 1, 1, e[1..k], st1.(level := 1));
    ShortNumber(o, u, Advance(st1.(level := 1), 1, e[1..k]));
  }

  /** A value that has not been read when the first attempt fails is read whole by the retry. */
  lemma {:induction false} ValueReadAnew(
      o: Order, holder: Holder, u: nat, w: nat, pair: bool, x: nat, y: nat, k: nat, st: State)
    requires Agrees(o) && 0 < u <= 16 && 0 < w <= 16 && Idle(st) && x < Pow256(u) && y < Pow256(w) && 1 <= k <= u
    ensures var (ty, e) := (Both(Opt(holder, Num(u)), w, pair), Bytes3(o, u, w, x, y));
            WellFormed(ty) && Recovers(Retry(o, ty, e, k, st), VList([VSome(VNum(x)), VNum(y)]))
  {
    var (t, e) := (Opt(holder, Num(u)), Bytes3(o, u, w, x, y));
    hide NumBytes, NumRead, Decode, Bytes3, FirstTry;
    Cuts(o, u, w, x, y, k);
    ValueShort(o, holder, u, w, pair, x, y, k, st);
    var st2 := PushView(st.(unread := e[1..k], end := st.end + 1), e[k..]);
    BothDecode(o, t, w, pair, VSome(VNum(0)), VNum(0), st2);
    OptionalDecode(o, holder, u, VSome(VNum(0)), st2.(level := 1));
    var st3 := Skip(st2.(level := 1), 1);
    NumReadExact(o, u, x, NumBytes(o, w, y), st3);
    NumReadExact(o, w, y, [], Advance(st3, u, NumBytes(o, w, y)));
  }

  /** The first attempt, if it ends behind the optional's value. */
  lemma {:induction false} ValueRead(
      o: Order, holder: Holder, u: nat, w: nat, pair: bool, x: nat, y: nat, k: nat, st: State)
    requires Agrees(o) && 0 < u <= 16 && 0 < w <= 16 && Idle(st) && x < Pow256(u) && y < Pow256(w) && 1 + u <= k < 1 + u + w
    ensures var (ty, e) := (Both(Opt(holder, Num(u)), w, pair), Bytes3(o, u, w, x, y));
            WellFormed(ty) && FirstTry(o, ty, e, k, st)
            == Step(BufferSizeLesser, VList([VSome(VNum(x)), VNum(0)]), st.(unread := e[1 + u..k], end := st.end + 1 + u))
  {
    var (t, e) := (Opt(holder, Num(u)), Bytes3(o, u, w, x, y));
    hide NumBytes, NumRead, Decode, Bytes3;
    Cuts(o, u, w, x, y, k);
    PushedFirst(st, e[..k]);
    var st1 := PushView(st, e[..k]);
    BothDecode(o, t, w, pair, VNone, VNum(0), st1);
    OptionalDecode(o, holder, u, VNone, st1.(level := 1));
    SmallNumbers();
    NumReadExact(o, 1, 1, e[1..k], st1.(level := 1));
    var st2 := Advance(st1.(level := 1), 1, e[1..k]);
    NumReadExact(o, u, x, e[1 + u..k], st2);
    ShortNumber(o, w, Advance(st2, u, e[1 + u..k]));
  }

  /** A value that has been read is read again, from what follows it, and then there is too little left. */
  lemma {:induction false} ValueReadTwice(
      o: Order, holder: Holder, u: nat, w: nat, pair: bool, x: nat, y: nat, k: nat, st: State)
    requires Agrees(o) && 0 < u <= 16 && 0 < w <= 16 && Idle(st) && x < Pow256(u) && y < Pow256(w) && 1 + u <= k < 1 + u + w
    ensures var (ty, e) := (Both(Opt(holder, Num(u)), w, pair), Bytes3(o, u, w, x, y));
            WellFormed(ty) && Retry(o, ty, e, k, st).code.BufferSizeLesser?
  {
    var (t, e) := (Opt(holder, Num(u)), Bytes3(o, u, w, x, y));
    hide NumBytes, NumRead, Decode, Bytes3, FirstTry;
    Cuts(o, u, w, x, y, k);
    ValueRead(o, holder, u, w, pair, x, y, k, st);
    var st1 := PushView(st.(unread := e[1 + u..k], end := st.end + 1 + u), e[k..]);
    BothDecode(o, t, w, pair, VSome(VNum(x)), VNum(0), st1);
    OptionalDecode(o, holder, u, VSome(VNum(x)), st1.(level := 1));
    assert |st1.unread| == w;
    ShorterAfter(o, u, w, Skip(st1.(level := 1), 1));
  }

  lemma ShorterAfter(o: Order, u: nat, w: nat, st: State)
    requires |st.unread| <= w && u > 0
    ensures var n := NumRead(o, u, st);
            n.code.BufferSizeLesser? || (n.code.Ok? && NumRead(o, w, n.st).code.BufferSizeLesser?)
  {}

  /**
   * A struct of an optional and a numeric that arrives in two views is recovered if and only if the optional is empty
   * or its value had not been read whole, and is otherwise reported short.
   */
  lemma {:induction false} OptionalFirstResumesExactly(
      o: Order, holder: Holder, u: nat, w: nat, pair: bool, v: Val, k: nat, st: State)
    requires Agrees(o) && 0 < u <= 16 && 0 < w <= 16 && Idle(st)
    requires HasType(Both(Opt(holder, Num(u)), w, pair), v) && k < |Encode(o, Both(Opt(holder, Num(u)), w, pair), v)|
    ensures var ty := Both(Opt(holder, Num(u)), w, pair);
            WellFormed(ty) &&
            var r := Retry(o, ty, Encode(o, ty, v), k, st);
            (Recovers(r, v) <==> v.vs[0].VNone? || k < 1 + u) && (!Recovers(r, v) ==> r.code.BufferSizeLesser?)
  {
    hide NumBytes, NumRead, Decode, WellFormed;
    var t := Opt(holder, Num(u));
    BothEncode(o, t, w, pair, v);
    NothingYet(o, holder, u, w, pair, v, st);
    if k > 0 {
      if v.vs[0].VNone? {
        FlagSkipped(o, holder, u, w, pair, v.vs[1].raw, k, st);
      } else {
        var (x, y) := (v.vs[0].inner.raw, v.vs[1].raw);
        if k < 1 + u {
          ValueReadAnew(o, holder, u, w, pair, x, y, k, st);
        } else {
          ValueReadTwice(o, holder, u, w, pair, x, y, k, st);
        }
      }
    }
  }
}
