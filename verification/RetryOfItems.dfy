/** Retries of arrays and forward_lists of numerics: exactly which splits of a message into two views are resumed. */
module RetryOfItems {
  import opened Bytes
  import opened Codec
  import opened Reader
  import opened OneShot
  import opened PrefixFree
  import opened Resume
  import opened StreamSession
  import opened ResumeFailures

  predicate AllNums(w: nat, vs: seq<Val>) {
    forall i :: 0 <= i < |vs| ==> HasType(Num(w), vs[i])
  }

  /** The encodings of numerics of one width, one after the other. */
  function Packed(o: Order, w: nat, vs: seq<Val>): (s: seq<byte>)
    requires AllNums(w, vs)
  {
    EncodeItems(o, Num(w), vs)
  }

  lemma SomeNums(w: nat, vs: seq<Val>, q: nat)
    requires AllNums(w, vs) && q <= |vs|
    ensures AllNums(w, vs[..q]) && AllNums(w, vs[q..])
  {}

  lemma {:induction false} OnePacked(o: Order, w: nat, vs: seq<Val>, tail: seq<byte>)
    requires AllNums(w, vs) && vs != []
    ensures |Packed(o, w, vs)| == w + |Packed(o, w, vs[1..])|
    ensures Packed(o, w, vs) + tail == Encode(o, Num(w), vs[0]) + (Packed(o, w, vs[1..]) + tail)
  {
    SplitItems(o, Num(w), vs, tail);
    assert |Encode(o, Num(w), vs[0])| == w;
  }

  lemma OneMore(n: nat, w: nat)
    ensures (n + 1) * w == w + n * w
  {}

  lemma {:induction false} PackedLength(o: Order, w: nat, vs: seq<Val>)
    requires AllNums(w, vs)
    ensures |Packed(o, w, vs)| == |vs| * w
    decreases |vs|
  {
    hide HasType, Encode;
    if vs != [] {
      PackedLength(o, w, vs[1..]);
      OnePacked(o, w, vs, []);
      OneMore(|vs[1..]|, w);
    }
  }

  lemma PackedSplit(o: Order, w: nat, vs: seq<Val>, q: nat)
    requires AllNums(w, vs) && q <= |vs|
    ensures Packed(o, w, vs) == Packed(o, w, vs[..q]) + Packed(o, w, vs[q..])
    ensures Packed(o, w, vs)[|Packed(o, w, vs[..q])|..] == Packed(o, w, vs[q..])
  {
    assert vs[..q] + vs[q..] == vs;
    EncodeItemsConcat(o, Num(w), vs[..q], vs[q..]);
  }

  /** One numeric item. */
  lemma {:induction false} ItemThere(o: Order, w: nat, target: Val, x: Val, tail: seq<byte>, st: State)
    requires Agrees(o) && WellFormed(Num(w)) && HasType(Num(w), x) && st.unread == Encode(o, Num(w), x) + tail
    ensures Decode(o, Num(w), target, st) == Step(Ok, x, Advance(st, w, tail))
  {
    NumReadExact(o, w, x.raw, tail, st);
  }

  lemma {:induction false} ItemMissing(o: Order, w: nat, target: Val, st: State)
    requires WellFormed(Num(w)) && |st.unread| < w
    ensures Decode(o, Num(w), target, st) == Step(BufferSizeLesser, target, st)
  {}

  lemma UpdateTwice(st: State, n: nat, rest: seq<byte>, x: nat, i: nat)
    requires i < RegisteredSize(st)
    ensures i < RegisteredSize(UpdateAt(st, x, i)) && i < RegisteredSize(Advance(UpdateAt(st, x, i), n, rest))
    ensures UpdateAt(Advance(UpdateAt(st, x, i), n, rest), x, i) == UpdateAt(Advance(st, n, rest), x, i)
    ensures Advance(UpdateAt(st, x, i), n, rest) == UpdateAt(Advance(st, n, rest), x, i)
  {
    var memo: seq<nat> := st.reg[st.level];
    var memo1 := memo[..i] + [x] + memo[i + 1..];
    assert memo1[..i] + [x] + memo1[i + 1..] == memo1;
  }

  lemma AdvanceTwice(st: State, m: nat, a: seq<byte>, n: nat, b: seq<byte>)
    ensures Advance(Advance(st, m, a), n, b) == Advance(st, m + n, b)
  {}

  /** The state after n bytes, with the memo entry i rewritten if anything was read at all. */
  function AfterItems(st: State, some: bool, n: nat, rest: seq<byte>, x: nat, i: nat): State
    requires i < RegisteredSize(st)
  {
    if some then UpdateAt(Advance(st, n, rest), x, i) else Advance(st, n, rest)
  }

  /** The array loop over the items that are there, as many of them as fit before `remain`. */
  lemma {:induction false} ArrayRuns(
      o: Order, w: nat, elems: seq<Val>, i: nat, remain: nat, xs: seq<Val>, tail: seq<byte>, st: State)
    requires Agrees(o) && WellFormed(Num(w)) && AllNums(w, xs) && i + |xs| <= remain <= |elems|
    requires RegisteredSize(st) > 0 && st.unread == Packed(o, w, xs) + tail
    ensures ArrayLoop(o, Num(w), elems, i, remain, st)
            == ArrayLoop(o, Num(w), elems[..i] + xs + elems[i + |xs|..], i + |xs|, remain,
                         AfterItems(st, xs != [], |Packed(o, w, xs)|, tail, if remain > 0 then remain - 1 else 0, 0))
    decreases |xs|
  {
    hide Decode, ArrayLoop, HasType, Encode, EncodeItems, NumBytes;
    if xs == [] {
      NothingLeft(o, false, Num(w), [], tail, st);
      assert elems[..i] + [] + elems[i..] == elems;
      assert Advance(st, 0, tail) == st;
    } else {
      OnePacked(o, w, xs, tail);
      var rest := Packed(o, w, xs[1..]) + tail;
      ItemThere(o, w, elems[i], xs[0], rest, st);
      var st1 := Advance(st, w, rest);
      var (elems1, st2) := (elems[i := xs[0]], UpdateAt(st1, remain - 1, 0));
      ArrayGoesOn(o, w, elems, i, remain, st, xs[0], st1);
      ArrayRuns(o, w, elems1, i + 1, remain, xs[1..], tail, st2);
      assert elems1[..i + 1] + xs[1..] + elems1[i + 1 + |xs[1..]|..] == elems[..i] + xs + elems[i + |xs|..];
      var n := |Packed(o, w, xs[1..])|;
      UpdateTwice(st1, n, tail, remain - 1, 0);
      AdvanceTwice(st, w, rest, n, tail);
    }
  }

  lemma ArrayGoesOn(o: Order, w: nat, elems: seq<Val>, i: nat, remain: nat, st: State, x: Val, st1: State)
    requires WellFormed(Num(w)) && i < remain <= |elems|
    requires Decode(o, Num(w), elems[i], st) == Step(Ok, x, st1) && RegisteredSize(st1) > 0
    ensures ArrayLoop(o, Num(w), elems, i, remain, st)
            == ArrayLoop(o, Num(w), elems[i := x], i + 1, remain, UpdateAt(st1, remain - 1, 0))
  {}

  lemma {:induction false} ArrayStops(o: Order, w: nat, elems: seq<Val>, i: nat, remain: nat, st: State)
    requires WellFormed(Num(w)) && remain <= |elems| && RegisteredSize(st) > 0
    ensures i >= remain ==> ArrayLoop(o, Num(w), elems, i, remain, st) == Step(Ok, VList(elems), st)
    ensures i < remain && |st.unread| < w ==>
              ArrayLoop(o, Num(w), elems, i, remain, st) == Step(BufferSizeLesser, VList(elems), UpdateAt(st, remain - 1, 0))
  {
    if i < remain && |st.unread| < w {
      ItemMissing(o, w, elems[i], st);
      assert elems[i := elems[i]] == elems;
    }
  }

  const ZERO := VNum(0)

  function Zeros(n: nat): (zs: seq<Val>)
    ensures |zs| == n && forall i :: 0 <= i < n ==> zs[i] == ZERO
  {
    seq(n, i => ZERO)
  }

  /** The target after a first attempt that saw q items. */
  function Partial(vs: seq<Val>, q: nat): (targets: seq<Val>)
    requires q < |vs|
    ensures |targets| == |vs| && targets[|vs| - 1] == ZERO && (q > 0 ==> targets[0] == vs[0])
  {
    vs[..q] + Zeros(|vs|)[q..]
  }

  lemma FreshNum(w: nat)
    requires 0 < w <= 16
    ensures WellFormed(Num(w)) && Fresh(Num(w)) == ZERO
  {}

  lemma {:induction false} ArrayOpens(o: Order, w: nat, n: nat, targets: seq<Val>, st: State)
    requires 0 < w <= 16 && 0 < n < SIZE_LIMIT && |targets| == n && st.reg == map[]
    ensures WellFormed(Array(Num(w), n)) && Fresh(Array(Num(w), n)) == VList(Zeros(n))
    ensures Decode(o, Array(Num(w), n), VList(targets), st)
            == Leave(ArrayLoop(o, Num(w), targets, 0, n, Inside(st).(reg := map[st.level + 1 := [n]])))
  {
    hide ArrayLoop, Leave;
    var (ty, inside) := (Array(Num(w), n), Inside(st));
    FreshNum(w);
    assert seq(n, i => Fresh(Num(w))) == Zeros(n);
    RegisterFirst(inside, n);
    assert (n - n) % SIZE_LIMIT == 0;
    assert ArrayBody(o, Num(w), n, VList(targets), inside) == ArrayLoop(o, Num(w), targets, 0, n, Register(inside, n));
    assert Body(o, ty, VList(targets), inside) == ArrayBody(o, Num(w), n, VList(targets), inside);
  }

  /** On a retry the memo holds n - 1 whatever was read, so the loop covers the positions from 1 up to n - 2. */
  lemma {:induction false} ArrayReopens(o: Order, w: nat, n: nat, targets: seq<Val>, st: State)
    requires 0 < w <= 16 && 0 < n < SIZE_LIMIT && |targets| == n && st.reg == map[st.level + 1 := [n - 1]]
    ensures WellFormed(Array(Num(w), n))
    ensures Decode(o, Array(Num(w), n), VList(targets), st)
            == Leave(ArrayLoop(o, Num(w), targets, 1 % SIZE_LIMIT, n - 1, Inside(st)))
  {
    hide ArrayLoop, Leave;
    var (ty, inside) := (Array(Num(w), n), Inside(st));
    assert WellFormed(ty);
    assert inside.reg[inside.level][0] == n - 1;
    assert ArrayBody(o, Num(w), n, VList(targets), inside) == ArrayLoop(o, Num(w), targets, 1 % SIZE_LIMIT, n - 1, inside);
    assert Body(o, ty, VList(targets), inside) == ArrayBody(o, Num(w), n, VList(targets), inside);
  }

  lemma MemoOfOne(st: State, n: nat, some: bool, used: nat, tail: seq<byte>)
    requires n > 0 && st.reg == map[st.level := [n]]
    ensures RegisteredSize(st) == 1
    ensures var st2 := AfterItems(st, some, used, tail, n - 1, 0);
            RegisteredSize(st2) == 1 && UpdateAt(st2, n - 1, 0) == Advance(st, used, tail).(reg := map[st.level := [n - 1]])
  {
    assert [n][..0] + [n - 1] + [n][1..] == [n - 1];
    assert [n - 1][..0] + [n - 1] + [n - 1][1..] == [n - 1];
  }

  /** The first attempt at an array of which q items and r more bytes have arrived. */
  lemma {:induction false} ArrayFirstTry(o: Order, w: nat, vs: seq<Val>, q: nat, r: nat, st: State)
    requires Agrees(o) && 0 < w <= 16 && AllNums(w, vs) && |vs| < SIZE_LIMIT && q < |vs| && r < w && Idle(st)
    requires |Packed(o, w, vs[..q])| + r <= |Packed(o, w, vs)|
    ensures var (n, used) := (|vs|, |Packed(o, w, vs[..q])|);
            var first := Decode(o, Array(Num(w), n), VList(Zeros(n)), PushView(st, Packed(o, w, vs)[..used + r]));
            WellFormed(Array(Num(w), n)) && first.code.BufferSizeLesser? &&
            first.target == VList(Partial(vs, q)) &&
            first.st == st.(unread := Packed(o, w, vs)[used..used + r], end := st.end + used, reg := map[1 := [n - 1]])
  {
    hide ArrayLoop, Packed, HasType;
    var (n, e) := (|vs|, Packed(o, w, vs));
    var used := |Packed(o, w, vs[..q])|;
    var (p, tail) := (e[..used + r], e[used..used + r]);
    PushedFirst(st, p);
    var st1 := PushView(st, p);
    ArrayOpens(o, w, n, Zeros(n), st1);
    var inside := Inside(st1).(reg := map[1 := [n]]);
    PackedSplit(o, w, vs, q);
    assert p == Packed(o, w, vs[..q]) + tail;
    ArrayRuns(o, w, Zeros(n), 0, n, vs[..q], tail, inside);
    var elems := vs[..q] + Zeros(n)[q..];
    assert Zeros(n)[..0] + vs[..q] + Zeros(n)[0 + |vs[..q]|..] == elems;
    var st2 := AfterItems(inside, vs[..q] != [], used, tail, n - 1, 0);
    MemoOfOne(inside, n, vs[..q] != [], used, tail);
    ArrayStops(o, w, elems, q, n, st2);
  }

  /** A list that equals itself with its second item taken out and a zero appended is zero from there on. */
  lemma ShiftedEqual(vs: seq<Val>)
    requires |vs| >= 3
    ensures [vs[0]] + vs[2..] + [ZERO] == vs <==> forall i :: 1 <= i < |vs| ==> vs[i] == ZERO
  {
    var (n, ws) := (|vs|, [vs[0]] + vs[2..] + [ZERO]);
    assert forall i :: 1 <= i < n - 1 ==> ws[i] == vs[i + 1];
    if ws == vs {
      var i := n - 1;
      while i > 1
        invariant 1 <= i < n && forall k :: i <= k < n ==> vs[k] == ZERO
      {
        assert ws[i - 1] == vs[i];
        i := i - 1;
      }
    }
  }

  lemma LeaveKeeps(r: Step)
    ensures Leave(r).code == r.code && Leave(r).target == r.target && Leave(r).st.unread == r.st.unread
  {}

  lemma OneEntry(st: State, x: nat)
    requires st.reg == map[st.level := [x]]
    ensures RegisteredSize(st) == 1
  {}

  lemma StillOneEntry(st: State, some: bool, used: nat, tail: seq<byte>, x: nat)
    requires RegisteredSize(st) == 1
    ensures var st2 := AfterItems(st, some, used, tail, x, 0);
            RegisteredSize(st2) == 1 && st2.unread == tail && st2.level == st.level
  {}

  /** Enough items are there: the positions from 1 to n - 2 are overwritten and the retry reports success. */
  lemma {:induction false} ArrayOverwrites(o: Order, w: nat, targets: seq<Val>, xs: seq<Val>, rest: seq<byte>, st: State)
    requires Agrees(o) && WellFormed(Num(w)) && AllNums(w, xs) && |targets| == |xs| + 2
    requires RegisteredSize(st) == 1 && st.unread == Packed(o, w, xs) + rest
    ensures var (n, r) := (|targets|, ArrayLoop(o, Num(w), targets, 1, |targets| - 1, st));
            r.code.Ok? && r.st.unread == rest && r.target == VList([targets[0]] + xs + [targets[n - 1]])
  {
    hide ArrayLoop, Packed, HasType, RegisteredSize, AfterItems;
    var n := |targets|;
    ArrayRuns(o, w, targets, 1, n - 1, xs, rest, st);
    var elems := targets[..1] + xs + targets[1 + |xs|..];
    StillOneEntry(st, xs != [], |Packed(o, w, xs)|, rest, n - 2);
    ArrayStops(o, w, elems, n - 1, n - 1, AfterItems(st, xs != [], |Packed(o, w, xs)|, rest, n - 2, 0));
    assert elems == [targets[0]] + xs + [targets[n - 1]];
  }

  /** Fewer items are there than the retry wants. */
  lemma {:induction false} ArrayRunsDry(o: Order, w: nat, targets: seq<Val>, xs: seq<Val>, st: State)
    requires Agrees(o) && WellFormed(Num(w)) && AllNums(w, xs) && |targets| > |xs| + 2
    requires RegisteredSize(st) == 1 && st.unread == Packed(o, w, xs)
    ensures ArrayLoop(o, Num(w), targets, 1, |targets| - 1, st).code.BufferSizeLesser?
  {
    hide ArrayLoop, Packed, HasType, RegisteredSize, AfterItems;
    var n := |targets|;
    assert Packed(o, w, xs) == Packed(o, w, xs) + [];
    ArrayRuns(o, w, targets, 1, n - 1, xs, [], st);
    var elems := targets[..1] + xs + targets[1 + |xs|..];
    StillOneEntry(st, xs != [], |Packed(o, w, xs)|, [], n - 2);
    ArrayStops(o, w, elems, 1 + |xs|, n - 1, AfterItems(st, xs != [], |Packed(o, w, xs)|, [], n - 2, 0));
  }

  lemma SliceParts(vs: seq<Val>, q: nat, m: nat)
    requires q + m <= |vs|
    ensures vs[q..][..m] == vs[q..q + m] && vs[q..][m..] == vs[q + m..]
  {}

  /** The retry of an array, from q items on record: it reads n - 2 items into the positions from 1 on. */
  lemma {:induction false} ArrayAgain(o: Order, w: nat, vs: seq<Val>, q: nat, st: State)
    requires Agrees(o) && 0 < w <= 16 && AllNums(w, vs) && |vs| < SIZE_LIMIT && q < |vs|
    requires st.level == 0 && st.reg == map[1 := [|vs| - 1]] && st.unread == Packed(o, w, vs[q..])
    ensures var n := |vs|;
            var targets := Partial(vs, q);
            var r := Decode(o, Array(Num(w), n), VList(targets), st);
            WellFormed(Array(Num(w), n)) &&
            (n <= 2 ==> r.code.Ok? && r.st.unread == st.unread) &&
            (n >= 3 && q <= 2 ==>
               r.code.Ok? && r.st.unread == Packed(o, w, vs[q + n - 2..]) &&
               r.target == VList([targets[0]] + vs[q..q + n - 2] + [ZERO])) &&
            (n >= 3 && q > 2 ==> r.code.BufferSizeLesser?)
  {
    hide ArrayLoop, Packed, HasType, Decode, RegisteredSize, Partial, Leave;
    var n := |vs|;
    var targets := Partial(vs, q);
    ArrayReopens(o, w, n, targets, st);
    var inside := Inside(st);
    OneEntry(inside, n - 1);
    LeaveKeeps(ArrayLoop(o, Num(w), targets, 1, n - 1, inside));
    if n <= 2 {
      ArrayStops(o, w, targets, 1, n - 1, inside);
    } else if q <= 2 {
      SliceParts(vs, q, n - 2);
      PackedSplit(o, w, vs[q..], n - 2);
      ArrayOverwrites(o, w, targets, vs[q..q + n - 2], Packed(o, w, vs[q + n - 2..]), inside);
    } else {
      ArrayRunsDry(o, w, targets, vs[q..], inside);
    }
  }

  /** An array of which q whole items and r bytes arrive in the first view. */
  lemma ArrayRetry(o: Order, w: nat, vs: seq<Val>, q: nat, r: nat, st: State)
    requires Agrees(o) && 0 < w <= 16 && AllNums(w, vs) && |vs| < SIZE_LIMIT && q < |vs| && r < w && Idle(st)
    ensures var (n, ty) := (|vs|, Array(Num(w), |vs|));
            var k := |Packed(o, w, vs[..q])| + r;
            WellFormed(ty) && k < |Packed(o, w, vs)| &&
            var again := Retry(o, ty, Packed(o, w, vs), k, st);
            (again.code.Ok? <==> n <= 2 || q <= 2) && (!again.code.Ok? ==> again.code.BufferSizeLesser?) &&
            (Recovers(again, VList(vs)) <==> n >= 3 && q == 2 && forall i :: 1 <= i < n ==> vs[i] == ZERO)
  {
    hide Packed, HasType, Decode, WellFormed, Fresh, Partial, AllNums;
    SomeNums(w, vs, q);
    var (n, e) := (|vs|, Packed(o, w, vs));
    var used := |Packed(o, w, vs[..q])|;
    PackedSplit(o, w, vs, q);
    OnePacked(o, w, vs[q..], []);
    ArrayOpens(o, w, n, Zeros(n), st);
    ArrayFirstTry(o, w, vs, q, r, st);
    var first := FirstTry(o, Array(Num(w), n), e, used + r, st);
    assert e[used..used + r] == e[..used + r][used..];
    PushedAfter(first.st, e[..used + r], used, e, used + r);
    var st2 := PushView(first.st, e[used + r..]);
    ArrayAgain(o, w, vs, q, st2);
    ArrayVerdict(o, w, vs, q);
  }

  lemma ArrayVerdict(o: Order, w: nat, vs: seq<Val>, q: nat)
    requires 0 < w && AllNums(w, vs) && q < |vs|
    ensures |Packed(o, w, vs[q..])| > 0
    ensures var (n, targets) := (|vs|, Partial(vs, q));
            n >= 3 && q <= 2 ==>
              (Packed(o, w, vs[q + n - 2..]) == [] <==> q == 2) &&
              (q == 2 ==> ([targets[0]] + vs[q..q + n - 2] + [ZERO] == vs <==> forall i :: 1 <= i < n ==> vs[i] == ZERO))
  {
    hide HasType;
    var n := |vs|;
    OnePacked(o, w, vs[q..], []);
    if n >= 3 && q <= 2 {
      if q < 2 {
        OnePacked(o, w, vs[q + n - 2..], []);
      } else {
        assert vs[q + n - 2..] == [] && vs[2..n] == vs[2..];
        ShiftedEqual(vs);
      }
    }
  }

  lemma Quotient(k: nat, w: nat, n: nat)
    requires 0 < w && k < n * w
    ensures k / w < n && k == (k / w) * w + k % w
  {
    var q := k / w;
  }

  /** A position in packed numerics: behind q whole items and r bytes of the next one. */
  lemma SplitPoint(o: Order, w: nat, vs: seq<Val>, k: nat) returns (q: nat, r: nat)
    requires 0 < w && AllNums(w, vs) && k < |Packed(o, w, vs)|
    ensures q == k / w && q < |vs| && r < w && k == |Packed(o, w, vs[..q])| + r
  {
    hide Packed, HasType;
    PackedLength(o, w, vs);
    Quotient(k, w, |vs|);
    q, r := k / w, k % w;
    PackedLength(o, w, vs[..q]);
  }

  lemma {:induction false} ArrayEncoding(o: Order, w: nat, n: nat, v: Val)
    requires WellFormed(Array(Num(w), n)) && HasType(Array(Num(w), n), v)
    ensures 0 < w <= 16 && v.VList? && |v.vs| == n < SIZE_LIMIT && AllNums(w, v.vs)
    ensures Encode(o, Array(Num(w), n), v) == Packed(o, w, v.vs)
  {}

  /**
   * An array of numerics that arrives in two views is never resumed where it stopped. The retry reports success if the
   * first view holds no more than two whole items, or the array has no more than two; but it recovers the array only by
   * accident, when exactly two items came first and everything from the second one on is zero.
   */
  lemma {:induction false} ArrayResumesExactly(o: Order, w: nat, n: nat, v: Val, k: nat, st: State)
    requires Agrees(o) && 0 < w && WellFormed(Array(Num(w), n)) && HasType(Array(Num(w), n), v) && Idle(st)
    requires k < |Encode(o, Array(Num(w), n), v)|
    ensures var r := Retry(o, Array(Num(w), n), Encode(o, Array(Num(w), n), v), k, st);
            (r.code.Ok? <==> n <= 2 || k / w <= 2) && (!r.code.Ok? ==> r.code.BufferSizeLesser?) &&
            (Recovers(r, v) <==> n >= 3 && k / w == 2 && forall i :: 1 <= i < n ==> v.vs[i] == ZERO)
  {
    hide Retry, Recovers, Packed, Encode, HasType, WellFormed, AllNums;
    ArrayEncoding(o, w, n, v);
    var vs := v.vs;
    var q, r := SplitPoint(o, w, vs, k);
    ArrayRetry(o, w, vs, q, r, st);
  }

  /** The forward_list loop over the items that are there: it grows at the front and sets the second memo entry to sz + 1. */
  lemma {:induction false} ForwardRuns(
      o: Order, w: nat, held: seq<Val>, more: nat, sz: nat, xs: seq<Val>, tail: seq<byte>, st: State)
    requires Agrees(o) && WellFormed(Num(w)) && AllNums(w, xs)
    requires RegisteredSize(st) == 2 && st.unread == Packed(o, w, xs) + tail
    ensures ItemLoop(o, true, Num(w), held, |xs| + more, sz, st)
            == ItemLoop(o, true, Num(w), Reverse(xs) + held, more, sz,
                        AfterItems(st, xs != [], |Packed(o, w, xs)|, tail, (sz + 1) % SIZE_LIMIT, 1))
    decreases |xs|
  {
    hide Decode, ItemLoop, HasType, Encode, EncodeItems, NumBytes, RegisteredSize, UpdateAt;
    if xs == [] {
      NothingLeft(o, false, Num(w), [], tail, st);
      assert Reverse(xs) + held == held;
      assert Advance(st, 0, tail) == st;
    } else {
      OnePacked(o, w, xs, tail);
      var rest := Packed(o, w, xs[1..]) + tail;
      ItemThere(o, w, Fresh(Num(w)), xs[0], rest, st);
      var (st1, x) := (Advance(st, w, rest), (sz + 1) % SIZE_LIMIT);
      assert RegisteredSize(st1) == 2 by { SameMemo(st, w, rest); }
      ForwardGoesOn(o, w, held, |xs| + more, sz, st, xs[0], st1);
      var st2 := UpdateAt(st1, x, 1);
      SameEntries(st1, x, 1);
      ForwardRuns(o, w, [xs[0]] + held, more, sz, xs[1..], tail, st2);
      assert Reverse(xs[1..]) + ([xs[0]] + held) == Reverse(xs) + held;
      var n := |Packed(o, w, xs[1..])|;
      UpdateTwice(st1, n, tail, x, 1);
      AdvanceTwice(st, w, rest, n, tail);
    }
  }

  lemma SameMemo(st: State, n: nat, rest: seq<byte>)
    ensures RegisteredSize(Advance(st, n, rest)) == RegisteredSize(st)
  {}

  lemma SameEntries(st: State, x: nat, i: nat)
    requires i < RegisteredSize(st)
    ensures RegisteredSize(UpdateAt(st, x, i)) == RegisteredSize(st) && UpdateAt(st, x, i).unread == st.unread
  {}

  lemma ForwardGoesOn(o: Order, w: nat, held: seq<Val>, todo: nat, sz: nat, st: State, x: Val, st1: State)
    requires WellFormed(Num(w)) && todo > 0
    requires Decode(o, Num(w), Fresh(Num(w)), st) == Step(Ok, x, st1) && RegisteredSize(st1) == 2
    ensures ItemLoop(o, true, Num(w), held, todo, sz, st)
            == ItemLoop(o, true, Num(w), [x] + held, todo - 1, sz, UpdateAt(st1, (sz + 1) % SIZE_LIMIT, 1))
  {}

  lemma {:induction false} ForwardStops(o: Order, w: nat, held: seq<Val>, todo: nat, sz: nat, st: State)
    requires WellFormed(Num(w))
    ensures todo == 0 ==> ItemLoop(o, true, Num(w), held, todo, sz, st) == Step(Ok, VList(held), st)
    ensures todo > 0 && |st.unread| < w ==>
              ItemLoop(o, true, Num(w), held, todo, sz, st) == Step(BufferSizeLesser, VList(held), st)
  {
    if todo > 0 && |st.unread| < w {
      ItemMissing(o, w, Fresh(Num(w)), st);
    }
  }

  function ForwardList(w: nat): Ty {
    Range(true, Num(w))
  }

  /** Where the count on record stands after a failed first attempt that saw q items. */
  function Counted(q: nat): nat {
    if q == 0 then 0 else 1
  }

  lemma {:induction false} ForwardOpens(o: Order, w: nat, n: nat, items: seq<byte>, st: State)
    requires Agrees(o) && 0 < w <= 16 && n < SIZE_LIMIT && Clean(st) && st.level == 0 && st.reg == map[]
    requires st.unread == NumBytes(o, 8, n) + items
    ensures WellFormed(ForwardList(w)) && Fresh(ForwardList(w)) == VList([])
    ensures var r := ItemLoop(o, true, Num(w), [], n, 0, Advance(Inside(st), 8, items).(reg := map[1 := [n, 0]]));
            Decode(o, ForwardList(w), VList([]), st)
            == Leave(if r.code.Ok? then r.(target := VList(Reverse(Components(r.target)))) else r)
  {
    hide ItemLoop, Leave, NumBytes, NumRead, RangeBody;
    assert n < Pow256(8) by { SmallNumbers(); }
    var inside := Inside(st);
    NumReadExact(o, 8, n, items, inside);
    var st0 := Advance(inside, 8, items);
    RangeStart(o, true, Num(w), n, VList([]), inside, st0);
    RegisterFirst(st0, n);
    assert Register(Register(st0, n), 0) == st0.(reg := map[1 := [n, 0]]) by { assert [n] + [0] == [n, 0]; }
    assert Body(o, ForwardList(w), VList([]), inside) == RangeBody(o, true, Num(w), VList([]), inside);
  }

  lemma {:induction false} ForwardReopens(o: Order, w: nat, n: nat, held: seq<Val>, c: nat, x: nat, st: State)
    requires 0 < w <= 16 && n < SIZE_LIMIT && x <= n && st.level == 0 && st.reg == map[1 := [n, x]]
    requires st.end == st.iter + c && 8 <= c < SIZE_LIMIT
    ensures WellFormed(ForwardList(w))
    ensures var r := ItemLoop(o, true, Num(w), held, n - x, x, Skip(Inside(st), 8));
            Decode(o, ForwardList(w), VList(held), st)
            == Leave(if r.code.Ok? then r.(target := VList(Reverse(Components(r.target)))) else r)
  {
    hide ItemLoop, Leave;
    var inside := Inside(st);
    EnoughSkipped(inside, c, 8);
    var skipped := Skip(inside, 8);
    assert RangeHeader(o, VList(held), inside) == (NumStep(Ok, n, skipped), VList(held));
    assert skipped.reg[skipped.level][1] == x && (n - x) % SIZE_LIMIT == n - x;
    var r := ItemLoop(o, true, Num(w), held, n - x, x, skipped);
    assert ForwardBody(o, Num(w), held, n, skipped)
        == if r.code.Ok? then r.(target := VList(Reverse(Components(r.target)))) else r;
    assert RangeBody(o, true, Num(w), VList(held), inside) == ForwardBody(o, Num(w), held, n, skipped);
    assert Body(o, ForwardList(w), VList(held), inside) == RangeBody(o, true, Num(w), VList(held), inside);
  }

  lemma TwoEntries(st: State, n: nat, x: nat, y: nat, some: bool, used: nat, tail: seq<byte>)
    requires st.reg == map[st.level := [n, x]]
    ensures RegisteredSize(st) == 2
    ensures AfterItems(st, some, used, tail, y, 1)
            == Advance(st, used, tail).(reg := map[st.level := [n, if some then y else x]])
  {
    assert [n, x][..1] + [y] + [n, x][2..] == [n, y];
  }

  /** A forward_list whose header, q whole items and r more bytes are there at the first attempt. */
  lemma {:induction false} ForwardFirstTry(o: Order, w: nat, vs: seq<Val>, q: nat, tail: seq<byte>, st: State)
    requires Agrees(o) && 0 < w <= 16 && AllNums(w, vs) && |vs| < SIZE_LIMIT && q < |vs| && |tail| < w
    requires Clean(st) && st.level == 0 && st.reg == map[]
    requires st.unread == NumBytes(o, 8, |vs|) + (Packed(o, w, vs[..q]) + tail)
    ensures WellFormed(ForwardList(w)) && Fresh(ForwardList(w)) == VList([])
    ensures Decode(o, ForwardList(w), VList([]), st)
            == Step(BufferSizeLesser, VList(Reverse(vs[..q])),
                    st.(unread := tail, end := st.end + 8 + |Packed(o, w, vs[..q])|, iter := st.begin,
                        reg := map[1 := [|vs|, Counted(q)]]))
  {
    hide ItemLoop, Packed, HasType, NumBytes, Decode, RegisteredSize, AfterItems, Reverse;
    var (n, xs) := (|vs|, vs[..q]);
    var items := Packed(o, w, xs) + tail;
    ForwardOpens(o, w, n, items, st);
    var st1 := Advance(Inside(st), 8, items).(reg := map[1 := [n, 0]]);
    TwoEntries(st1, n, 0, 1, xs != [], |Packed(o, w, xs)|, tail);
    ForwardRuns(o, w, [], n - q, 0, xs, tail, st1);
    assert Reverse(xs) + [] == Reverse(xs);
    ForwardStops(o, w, Reverse(xs), n - q, 0, AfterItems(st1, xs != [], |Packed(o, w, xs)|, tail, 1, 1));
  }

  /** The retry reads as many items as the count on record leaves, which is one short of all as soon as one was read. */
  lemma {:induction false} ForwardAgain(o: Order, w: nat, vs: seq<Val>, q: nat, c: nat, st: State)
    requires Agrees(o) && 0 < w <= 16 && AllNums(w, vs) && |vs| < SIZE_LIMIT && q < |vs|
    requires st.level == 0 && st.reg == map[1 := [|vs|, Counted(q)]] && st.unread == Packed(o, w, vs[q..])
    requires st.end == st.iter + c && 8 <= c < SIZE_LIMIT
    ensures WellFormed(ForwardList(w))
    ensures var r := Decode(o, ForwardList(w), VList(Reverse(vs[..q])), st);
            if q <= 1 then Recovers(r, VList(vs)) else r.code.BufferSizeLesser?
  {
    hide ItemLoop, Packed, HasType, NumBytes, Decode, RegisteredSize, AfterItems, Reverse;
    var (n, xs, x) := (|vs|, vs[q..], Counted(q));
    var held := Reverse(vs[..q]);
    ForwardReopens(o, w, n, held, c, x, st);
    var st1 := Skip(Inside(st), 8);
    assert Packed(o, w, xs) + [] == Packed(o, w, xs);
    TwoEntries(st1, n, x, (x + 1) % SIZE_LIMIT, xs != [], |Packed(o, w, xs)|, []);
    ForwardRuns(o, w, held, n - x - |xs|, x, xs, [], st1);
    var st2 := AfterItems(st1, xs != [], |Packed(o, w, xs)|, [], (x + 1) % SIZE_LIMIT, 1);
    ForwardStops(o, w, Reverse(xs) + held, n - x - |xs|, x, st2);
    if q <= 1 {
      ReversedParts(vs, q);
    }
  }

  lemma {:induction false} ReversedParts(vs: seq<Val>, q: nat)
    requires q <= |vs|
    ensures Reverse(Reverse(vs[q..]) + Reverse(vs[..q])) == vs
  {
    ReversedConcat(vs[..q], vs[q..]);
    assert vs[..q] + vs[q..] == vs;
    ReverseTwice(vs);
  }

  lemma {:induction false} ReversedConcat(a: seq<Val>, b: seq<Val>)
    ensures Reverse(a + b) == Reverse(b) + Reverse(a)
    decreases |a|
  {
    if a == [] {
      assert a + b == b && Reverse(b) + [] == Reverse(b);
    } else {
      assert (a + b)[0] == a[0] && (a + b)[1..] == a[1..] + b;
      ReversedConcat(a[1..], b);
      assert Reverse(b) + Reverse(a[1..]) + [a[0]] == Reverse(b) + (Reverse(a[1..]) + [a[0]]);
    }
  }

  lemma SplitThree(h: seq<byte>, x: seq<byte>, y: seq<byte>, r: nat)
    requires r <= |y|
    ensures var (e, used) := (h + (x + y), |h| + |x|);
            e[..used + r] == h + (x + y[..r]) && e[..used + r][used..] == y[..r] && e[used..] == y
  {}

  /** A forward_list of which the header, q whole items and r bytes arrive in the first view. */
  lemma ForwardRetry(o: Order, w: nat, vs: seq<Val>, q: nat, r: nat, st: State)
    requires Agrees(o) && 0 < w <= 16 && AllNums(w, vs) && |vs| < SIZE_LIMIT && q < |vs| && r < w && Idle(st)
    requires 8 + |Packed(o, w, vs)| < SIZE_LIMIT
    ensures var e := NumBytes(o, 8, |vs|) + Packed(o, w, vs);
            var k := 8 + |Packed(o, w, vs[..q])| + r;
            WellFormed(ForwardList(w)) && k < |e| &&
            var again := Retry(o, ForwardList(w), e, k, st);
            (Recovers(again, VList(vs)) <==> q <= 1) && (q > 1 ==> again.code.BufferSizeLesser?)
  {
    hide Packed, HasType, Decode, NumBytes, Fresh, Reverse, Counted;
    var (n, e) := (|vs|, NumBytes(o, 8, |vs|) + Packed(o, w, vs));
    var used := 8 + |Packed(o, w, vs[..q])|;
    PackedSplit(o, w, vs, q);
    OnePacked(o, w, vs[q..], []);
    SplitThree(NumBytes(o, 8, n), Packed(o, w, vs[..q]), Packed(o, w, vs[q..]), r);
    var (p, tail) := (e[..used + r], Packed(o, w, vs[q..])[..r]);
    PushedFirst(st, p);
    ForwardFirstTry(o, w, vs, q, tail, PushView(st, p));
    var first := FirstTry(o, ForwardList(w), e, used + r, st);
    PushedAfter(first.st, p, used, e, used + r);
    ForwardAgain(o, w, vs, q, used, PushView(first.st, e[used + r..]));
  }

  /** With less than the size header nothing is kept. */
  lemma {:induction false} ForwardHeaderMissing(o: Order, w: nat, st: State)
    requires 0 < w <= 16 && |st.unread| < 8 && Clean(st) && st.level == 0 && st.reg == map[]
    ensures WellFormed(ForwardList(w)) && Fresh(ForwardList(w)) == VList([])
    ensures Decode(o, ForwardList(w), VList([]), st) == Step(BufferSizeLesser, VList([]), st.(iter := st.begin))
  {
    var inside := Inside(st);
    EnoughSkipped(inside, 0, 8);
    assert RangeBody(o, true, Num(w), VList([]), inside) == Step(BufferSizeLesser, VList([]), inside);
    assert Body(o, ForwardList(w), VList([]), inside) == RangeBody(o, true, Num(w), VList([]), inside);
  }

  lemma SmallQuotient(k: nat, w: nat)
    requires 0 < w
    ensures k / w <= 1 <==> k < 2 * w
  {
    var q := k / w;
    assert k == q * w + k % w;
    if q >= 2 {
      assert q * w >= 2 * w;
    }
  }

  lemma {:induction false} ForwardEncoding(o: Order, w: nat, v: Val)
    requires WellFormed(ForwardList(w)) && HasType(ForwardList(w), v)
    ensures 0 < w <= 16 && v.VList? && |v.vs| < SIZE_LIMIT && AllNums(w, v.vs)
    ensures Encode(o, ForwardList(w), v) == NumBytes(o, 8, |v.vs|) + Packed(o, w, v.vs)
  {}

  lemma {:induction false} ForwardInHeader(o: Order, w: nat, v: Val, k: nat, st: State)
    requires Agrees(o) && WellFormed(ForwardList(w)) && HasType(ForwardList(w), v) && Idle(st)
    requires k < |Encode(o, ForwardList(w), v)| && k < 8 && 0 < w <= 16
    ensures Recovers(Retry(o, ForwardList(w), Encode(o, ForwardList(w), v), k, st), v)
  {
    hide Decode, Encode, HasType, WellFormed, Fresh;
    var e := Encode(o, ForwardList(w), v);
    PushedFirst(st, e[..k]);
    ForwardHeaderMissing(o, w, PushView(st, e[..k]));
    UntouchedRetryRecovers(o, ForwardList(w), v, k, st);
  }

  /**
   * A forward_list of numerics that arrives in two views is recovered if and only if fewer than two whole items came in
   * the first one: the count in the memo never passes one.
   */
  lemma {:induction false} ForwardListResumesExactly(o: Order, w: nat, v: Val, k: nat, st: State)
    requires Agrees(o) && WellFormed(ForwardList(w)) && HasType(ForwardList(w), v) && Idle(st)
    requires k < |Encode(o, ForwardList(w), v)| < SIZE_LIMIT
    ensures var r := Retry(o, ForwardList(w), Encode(o, ForwardList(w), v), k, st);
            (Recovers(r, v) <==> k < 8 + 2 * w) && (k >= 8 + 2 * w ==> r.code.BufferSizeLesser?)
  {
    hide Decode, Retry, Packed, NumBytes, Recovers;
    ForwardEncoding(o, w, v);
    var (vs, e) := (v.vs, Encode(o, ForwardList(w), v));
    hide Encode, HasType, WellFormed, AllNums;
    if k < 8 {
      ForwardInHeader(o, w, v, k, st);
    } else {
      var q, r := SplitPoint(o, w, vs, k - 8);
      SmallQuotient(k - 8, w);
      ForwardRetry(o, w, vs, q, r, st);
    }
  }
}
