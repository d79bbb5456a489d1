/**
 * What one call of StreamSerializer::deserialize does to the reader's state, as a function.
 * The class in StreamSerializer.dfy is proved equal to it; the theorems are stated about it.
 */
module Reader {
  import opened Bytes
  import opened Codec

  /** SerializationEC as far as decoding uses it; Aborted is std::terminate out of a failed `at`. */
  datatype EC = Ok | BufferSizeLesser | UnmatchedType | Aborted

  /**
   * unread is what the multi-buffer cursor has not passed. begin, end and iter only ever grow by equal
   * steps or are copied, so they are kept unbounded and their size_t difference is taken modulo 2^64.
   */
  datatype State = State(unread: seq<byte>, begin: nat, end: nat, iter: nat, level: int, reg: map<int, seq<nat>>)

  const INITIAL := State([], 0, 0, 0, 0, map[])

  datatype Step = Step(code: EC, target: Val, st: State)

  datatype NumStep = NumStep(code: EC, x: nat, st: State)

  predicate CanSkip(st: State, w: nat) {
    (st.end - st.iter) % SIZE_LIMIT >= w
  }

  function Skip(st: State, w: nat): State {
    st.(iter := st.iter + w)
  }

  function NumRead(o: Order, w: nat, st: State): (r: NumStep) {
    if |st.unread| < w then NumStep(BufferSizeLesser, 0, st)
    else
      NumStep(Ok, NumValue(o, st.unread[..w]),
              st.(unread := st.unread[w..], end := st.end + w, iter := st.iter + w))
  }

  function RegisteredSize(st: State): nat {
    if st.level in st.reg then |st.reg[st.level]| else 0
  }

  function Register(st: State, x: nat): State {
    var known := if st.level in st.reg then st.reg[st.level] else [];
    st.(reg := st.reg[st.level := known + [x]])
  }

  function UpdateAt(st: State, x: nat, i: nat): State
    requires i < RegisteredSize(st)
  {
    var memo: seq<nat> := st.reg[st.level];
    st.(reg := st.reg[st.level := memo[..i] + [x] + memo[i + 1..]])
  }

  /** deserialize: numerics read directly, everything else enters a level and settles on the way out. */
  function Decode(o: Order, ty: Ty, target: Val, st: State): (r: Step)
    requires WellFormed(ty)
    decreases ty, 4
  {
    if ty.Num? then
      var n := NumRead(o, ty.width, st);
      Step(n.code, if n.code.Ok? then VNum(n.x) else target, n.st)
    else
      Leave(Body(o, ty, target, st.(level := st.level + 1)))
  }

  /** Success at level 1 closes the message, success deeper drops that level's memo, failure rewinds iter. */
  function Leave(r: Step): (r': Step) {
    var st := r.st;
    var settled :=
      if r.code.Ok? then
        if st.level == 1 then st.(begin := st.end, iter := st.end, reg := map[])
        else st.(reg := st.reg - {st.level})
      else st.(iter := st.begin);
    r.(st := settled.(level := st.level - 1))
  }

  function Body(o: Order, ty: Ty, target: Val, st: State): (r: Step)
    requires WellFormed(ty) && !ty.Num?
    decreases ty, 3
  {
    match ty
    case Time =>
      var n := NumRead(o, 8, st);
      Step(n.code, if n.code.Ok? then VNum(n.x) else target, n.st)
    case Opt(holder, t) => OptBody(o, holder, t, target, st)
    case Range(forward, t) => RangeBody(o, forward, t, target, st)
    case Array(t, n) => ArrayBody(o, t, n, target, st)
    case Struct(fs, _) => FieldLoop(o, fs, Components(target), st)
    case Variant(alts) => VariantBody(o, alts, target, st)
  }

  function Components(v: Val): seq<Val> {
    if v.VList? then v.vs else []
  }

  function OptBody(o: Order, holder: Holder, t: Ty, target: Val, st: State): (r: Step)
    requires WellFormed(t)
    decreases t, 5
  {
    if CanSkip(st, 1) then
      if target.VSome? then
        var r := Decode(o, t, target.inner, Skip(st, 1));
        r.(target := VSome(r.target))
      else Step(Ok, target, Skip(st, 1))
    else
      var flag := NumRead(o, 1, st);
      if !flag.code.Ok? then Step(flag.code, target, flag.st)
      else if flag.x == 0 then Step(Ok, if holder.SmartPointer? then VNone else target, flag.st)
      else
        var r := Decode(o, t, Fresh(t), flag.st);
        r.(target := VSome(r.target))
  }

  function VariantBody(o: Order, alts: seq<Ty>, target: Val, st: State): (r: Step)
    requires forall i :: 0 <= i < |alts| ==> WellFormed(alts[i])
    decreases alts, 5
  {
    if CanSkip(st, 8) then
      if target.VAlt? && target.index < |alts| then
        var r := Decode(o, alts[target.index], target.inner, Skip(st, 8));
        r.(target := VAlt(target.index, r.target))
      else Step(Aborted, target, st)
    else
      var index := NumRead(o, 8, st);
      if !index.code.Ok? then Step(index.code, target, index.st)
      else if index.x >= |alts| then Step(UnmatchedType, target, index.st)
      else
        var r := Decode(o, alts[index.x], Fresh(alts[index.x]), index.st);
        r.(target := VAlt(index.x, r.target))
  }

  function FieldLoop(o: Order, fs: seq<Ty>, targets: seq<Val>, st: State): (r: Step)
    requires forall i :: 0 <= i < |fs| ==> WellFormed(fs[i])
    decreases fs, 0
  {
    if fs == [] then Step(Ok, VList([]), st)
    else if targets == [] then Step(Aborted, VList([]), st)
    else
      var first := Decode(o, fs[0], targets[0], st);
      if !first.code.Ok? then first.(target := VList([first.target] + targets[1..]))
      else
        var rest := FieldLoop(o, fs[1..], targets[1..], first.st);
        rest.(target := VList([first.target] + Components(rest.target)))
  }

  /** The size header: skipped if it was read before, and then taken from the memo of this level. */
  function RangeHeader(o: Order, target: Val, st: State): (r: (NumStep, Val)) {
    if CanSkip(st, 8) then
      var skipped := Skip(st, 8);
      if RegisteredSize(skipped) == 0 then (NumStep(Aborted, 0, skipped), target)
      else (NumStep(Ok, skipped.reg[skipped.level][0], skipped), target)
    else
      var n := NumRead(o, 8, st);
      if n.code.Ok? then (n.(st := Register(n.st, n.x)), VList([])) else (n, VList([]))
  }

  function RangeBody(o: Order, forward: bool, t: Ty, target: Val, st: State): (r: Step)
    requires WellFormed(t)
    decreases t, 7
  {
    var (n, target1) := RangeHeader(o, target, st);
    var held := Components(target1);
    if !n.code.Ok? then Step(n.code, target1, n.st)
    else if forward then ForwardBody(o, t, held, n.x, n.st)
    else ItemLoop(o, false, t, held, (n.x - |held|) % SIZE_LIMIT, 0, n.st)
  }

  /** A forward_list keeps its count in the second memo entry and is reversed once complete. */
  function ForwardBody(o: Order, t: Ty, held: seq<Val>, n: nat, st: State): (r: Step)
    requires WellFormed(t)
    decreases t, 6
  {
    var first := RegisteredSize(st) == 1;
    var st1 := if first then Register(st, |held|) else st;
    if RegisteredSize(st1) < 2 then Step(Aborted, VList(held), st1)
    else
      var sz := if first then 0 else st1.reg[st1.level][1];
      var r := ItemLoop(o, true, t, held, (n - sz) % SIZE_LIMIT, sz, st1);
      if r.code.Ok? then r.(target := VList(Reverse(Components(r.target)))) else r
  }

  /** Reads `todo` more items; a forward_list grows at the front and rewrites its memo with sz + 1. */
  function ItemLoop(o: Order, forward: bool, t: Ty, held: seq<Val>, todo: nat, sz: nat, st: State): (r: Step)
    requires WellFormed(t)
    decreases t, 5, todo
  {
    if todo == 0 then Step(Ok, VList(held), st)
    else
      var item := Decode(o, t, Fresh(t), st);
      if !item.code.Ok? then item.(target := VList(held))
      else if !forward then ItemLoop(o, forward, t, held + [item.target], todo - 1, sz, item.st)
      else if RegisteredSize(item.st) < 2 then Step(Aborted, VList([item.target] + held), item.st)
      else ItemLoop(o, forward, t, [item.target] + held, todo - 1, sz, UpdateAt(item.st, (sz + 1) % SIZE_LIMIT, 1))
  }

  function ArrayBody(o: Order, t: Ty, n: nat, target: Val, st: State): (r: Step)
    requires WellFormed(t)
    decreases t, 6
  {
    var known := RegisteredSize(st) > 0;
    var remain := if known then st.reg[st.level][0] else n;
    var st1 := if known then st else Register(st, remain);
    ArrayLoop(o, t, Components(target), (n - remain) % SIZE_LIMIT, remain, st1)
  }

  /** The loop runs i up to remain and writes remain - 1 to the memo before it looks at the error code. */
  function ArrayLoop(o: Order, t: Ty, elems: seq<Val>, i: nat, remain: nat, st: State): (r: Step)
    requires WellFormed(t)
    decreases t, 5, remain - i
  {
    if i >= remain then Step(Ok, VList(elems), st)
    else if i >= |elems| then Step(Aborted, VList(elems), st)
    else
      var item := Decode(o, t, elems[i], st);
      var elems1 := elems[i := item.target];
      if RegisteredSize(item.st) == 0 then Step(Aborted, VList(elems1), item.st)
      else
        var st1 := UpdateAt(item.st, remain - 1, 0);
        if !item.code.Ok? then Step(item.code, VList(elems1), st1)
        else ArrayLoop(o, t, elems1, i + 1, remain, st1)
  }
}
