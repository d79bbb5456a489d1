/** StreamSerializer with its fields updated in place, proved to do what the functions of Reader.dfy say. */
module StreamSerializerClass {
  import opened Bytes
  import opened Codec
  import opened Reader
  import opened MultiBuffer
  import Session = StreamSession

  /** An index read now selects the alternative, or is refused with nothing but the index used up. */
  lemma {:induction false} IndexSelects(o: Order, alts: seq<Ty>, target: Val, st: State)
    requires forall i :: 0 <= i < |alts| ==> WellFormed(alts[i])
    requires !CanSkip(st, 8) && |st.unread| >= 8
    ensures var (k, r) := (NumValue(o, st.unread[..8]), VariantBody(o, alts, target, st));
            if k >= |alts| then r.code.UnmatchedType? && r.target == target && r.st.unread == st.unread[8..]
            else r.target.VAlt? && r.target.index == k
  {
    hide Decode, NumValue, Fresh, WellFormed;
  }

  class StreamSerializer {
    var mbv: MultiBufferView
    var registered: map<int, seq<nat>>
    var begin: nat
    var end: nat
    var iterator_: nat
    var level: int

    ghost predicate Valid()
      reads this, mbv
    {
      mbv.Valid()
    }

    ghost function Abs(): State
      reads this, mbv
      requires Valid()
    {
      State(mbv.Unread(), begin, end, iterator_, level, registered)
    }

    constructor ()
      ensures Valid() && fresh(mbv) && Abs() == INITIAL
    {
      mbv := new MultiBufferView([]);
      registered, begin, end, iterator_, level := map[], 0, 0, 0, 0;
    }

    method PushView(view: seq<byte>)
      requires Valid()
      modifies this, mbv
      ensures Valid() && mbv == old(mbv) && Abs() == Session.PushView(old(Abs()), view)
    {
      if view != [] {
        mbv.Push(view);
        iterator_ := begin;
      }
    }

    /** flush: forgets consumed bytes, which no later decoding can tell. */
    method Flush() returns (dropped: nat)
      requires Valid()
      modifies this, mbv
      ensures Valid() && mbv == old(mbv) && Abs() == old(Abs()) && dropped == old(mbv.Pos())
    {
      dropped := mbv.FlushDeserialized();
    }

    method TryAdvance(w: nat) returns (skipped: bool)
      requires Valid()
      modifies this`iterator_
      ensures Valid() && skipped == old(CanSkip(Abs(), w))
      ensures Abs() == if skipped then Skip(old(Abs()), w) else old(Abs())
    {
      skipped := (end - iterator_) % SIZE_LIMIT >= w;
      if skipped {
        iterator_ := iterator_ + w;
      }
    }

    method RegisterValue(x: nat)
      requires Valid()
      modifies this`registered
      ensures Valid() && Abs() == Register(old(Abs()), x)
    {
      var known := if level in registered then registered[level] else [];
      registered := registered[level := known + [x]];
    }

    method UpdateValueAt(x: nat, i: nat)
      requires Valid() && i < RegisteredSize(Abs())
      modifies this`registered
      ensures Valid() && Abs() == UpdateAt(old(Abs()), x, i)
    {
      var memo: seq<nat> := registered[level];
      registered := registered[level := memo[..i] + [x] + memo[i + 1..]];
    }

    method RegisteredCount() returns (n: nat)
      requires Valid()
      ensures n == RegisteredSize(Abs())
    {
      n := if level in registered then |registered[level]| else 0;
    }

    /** The numeric overload of deserialize. */
    method DeserializeNum(o: Order, w: nat) returns (code: EC, x: nat)
      requires Valid()
      modifies this, mbv
      ensures Valid() && mbv == old(mbv)
      ensures NumStep(code, x, Abs()) == NumRead(o, w, old(Abs()))
    {
      var ok;
      ok, x := mbv.ReadTrivial(o, w);
      if ok {
        end, iterator_ := end + w, iterator_ + w;
        code := Ok;
      } else {
        code := BufferSizeLesser;
      }
    }

    /** deserialize of any type: level, Deserialize, then settle. */
    method Deserialize(o: Order, ty: Ty, target: Val) returns (code: EC, result: Val)
      requires Valid() && WellFormed(ty)
      modifies this, mbv
      ensures Valid() && mbv == old(mbv)
      ensures Step(code, result, Abs()) == Decode(o, ty, target, old(Abs()))
      decreases ty, 4
    {
      hide Body, NumRead, Leave, WellFormed;
      if ty.Num? {
        var x;
        code, x := DeserializeNum(o, ty.width);
        result := if code.Ok? then VNum(x) else target;
        return;
      }
      level := level + 1;
      code, result := DeserializeBody(o, ty, target);
      Settle(code, result);
    }

    /** The end of deserialize: close the message, drop this level's memo, or rewind. */
    method Settle(code: EC, result: Val)
      requires Valid()
      modifies this, mbv
      ensures Valid() && mbv == old(mbv)
      ensures Step(code, result, Abs()) == Leave(Step(code, result, old(Abs())))
    {
      if code.Ok? {
        if level == 1 {
          var _ := mbv.FlushDeserialized();
          begin := end;
          iterator_ := begin;
          registered := map[];
        } else {
          registered := registered - {level};
        }
      } else {
        iterator_ := begin;
      }
      level := level - 1;
    }

    method DeserializeBody(o: Order, ty: Ty, target: Val) returns (code: EC, result: Val)
      requires Valid() && WellFormed(ty) && !ty.Num?
      modifies this, mbv
      ensures Valid() && mbv == old(mbv)
      ensures Step(code, result, Abs()) == Body(o, ty, target, old(Abs()))
      decreases ty, 3
    {
      match ty
      case Time =>
        var x;
        code, x := DeserializeNum(o, 8);
        result := if code.Ok? then VNum(x) else target;
      case Opt(holder, t) => code, result := DeserializeOpt(o, holder, t, target);
      case Range(forward, t) => code, result := DeserializeRange(o, forward, t, target);
      case Array(t, n) => code, result := DeserializeArray(o, t, n, target);
      case Struct(fs, _) => code, result := DeserializeFields(o, fs, Components(target));
      case Variant(alts) => code, result := DeserializeVariant(o, alts, target);
    }

    method DeserializeOpt(o: Order, holder: Holder, t: Ty, target: Val) returns (code: EC, result: Val)
      requires Valid() && WellFormed(t)
      modifies this, mbv
      ensures Valid() && mbv == old(mbv)
      ensures Step(code, result, Abs()) == OptBody(o, holder, t, target, old(Abs()))
      decreases t, 5
    {
      hide Decode, Fresh, WellFormed;
      var skipped := TryAdvance(1);
      if skipped {
        if target.VSome? {
          var inner;
          code, inner := Deserialize(o, t, target.inner);
          return code, VSome(inner);
        }
        return Ok, target;
      }
      var flag;
      code, flag := DeserializeNum(o, 1);
      if !code.Ok? {
        return code, target;
      }
      if flag == 0 {
        return Ok, if holder.SmartPointer? then VNone else target;
      }
      var inner;
      code, inner := Deserialize(o, t, Fresh(t));
      result := VSome(inner);
    }

    method DeserializeVariant(o: Order, alts: seq<Ty>, target: Val) returns (code: EC, result: Val)
      requires Valid() && forall i :: 0 <= i < |alts| ==> WellFormed(alts[i])
      modifies this, mbv
      ensures Valid() && mbv == old(mbv)
      ensures Step(code, result, Abs()) == VariantBody(o, alts, target, old(Abs()))
      ensures var s := old(mbv.Unread());
              !old(CanSkip(Abs(), 8)) && |s| >= 8 ==>
                if NumValue(o, s[..8]) >= |alts| then code.UnmatchedType? && result == target && mbv.Unread() == s[8..]
                else result.VAlt? && result.index == NumValue(o, s[..8])
      decreases alts, 5
    {
      hide Decode, Fresh, WellFormed, NumRead, NumValue;
      ghost var st := Abs();
      if !CanSkip(st, 8) && |st.unread| >= 8 {
        IndexSelects(o, alts, target, st);
      }
      if target.VAlt? && target.index < |alts| {
        var skipped := TryAdvance(8);
        if skipped {
          var inner;
          code, inner := Deserialize(o, alts[target.index], target.inner);
          return code, VAlt(target.index, inner);
        }
      } else if (end - iterator_) % SIZE_LIMIT >= 8 {
        return Aborted, target;
      }
      var index;
      code, index := DeserializeNum(o, 8);
      if !code.Ok? {
        return code, target;
      }
      if index >= |alts| {
        return UnmatchedType, target;
      }
      var inner;
      code, inner := Deserialize(o, alts[index], Fresh(alts[index]));
      result := VAlt(index, inner);
    }

    /** The variadic overload: fields in order until one fails. */
    method DeserializeFields(o: Order, fs: seq<Ty>, targets: seq<Val>) returns (code: EC, result: Val)
      requires Valid() && forall i :: 0 <= i < |fs| ==> WellFormed(fs[i])
      modifies this, mbv
      ensures Valid() && mbv == old(mbv)
      ensures Step(code, result, Abs()) == FieldLoop(o, fs, targets, old(Abs()))
      decreases fs, 0
    {
      hide Decode, WellFormed;
      if fs == [] {
        return Ok, VList([]);
      }
      if targets == [] {
        return Aborted, VList([]);
      }
      var first;
      code, first := Deserialize(o, fs[0], targets[0]);
      if !code.Ok? {
        return code, VList([first] + targets[1..]);
      }
      var rest;
      code, rest := DeserializeFields(o, fs[1..], targets[1..]);
      result := VList([first] + Components(rest));
    }

    method DeserializeHeader(o: Order, target: Val) returns (code: EC, n: nat, result: Val)
      requires Valid()
      modifies this, mbv
      ensures Valid() && mbv == old(mbv)
      ensures (NumStep(code, n, Abs()), result) == RangeHeader(o, target, old(Abs()))
    {
      var skipped := TryAdvance(8);
      if skipped {
        var known := RegisteredCount();
        if known == 0 {
          return Aborted, 0, target;
        }
        return Ok, registered[level][0], target;
      }
      code, n := DeserializeNum(o, 8);
      if code.Ok? {
        RegisterValue(n);
      }
      result := VList([]);
    }

    /** The item count of a forward_list: kept in the second memo entry, and started at the first pass. */
    method ForwardCount(held: nat) returns (code: EC, sz: nat)
      requires Valid()
      modifies this`registered
      ensures Valid()
      ensures var st := old(Abs());
              var first := RegisteredSize(st) == 1;
              Abs() == (if first then Register(st, held) else st) &&
              code == (if RegisteredSize(Abs()) < 2 then Aborted else Ok) &&
              (code.Ok? ==> sz == if first then 0 else st.reg[st.level][1])
    {
      sz := 0;
      code := Ok;
      var count := RegisteredCount();
      if count == 1 {
        RegisterValue(held);
      } else if count < 2 {
        code := Aborted;
      } else {
        sz := registered[level][1];
      }
    }

    method DeserializeRange(o: Order, forward: bool, t: Ty, target: Val) returns (code: EC, result: Val)
      requires Valid() && WellFormed(t)
      modifies this, mbv
      ensures Valid() && mbv == old(mbv)
      ensures Step(code, result, Abs()) == RangeBody(o, forward, t, target, old(Abs()))
      decreases t, 7
    {
      hide Decode, WellFormed, ItemLoop, RangeHeader, ForwardBody;
      var n;
      code, n, result := DeserializeHeader(o, target);
      if !code.Ok? {
        return;
      }
      var held := Components(result);
      if forward {
        code, result := DeserializeForward(o, t, held, n);
      } else {
        code, result := DeserializeItems(o, false, t, held, (n - |held|) % SIZE_LIMIT, 0);
      }
    }

    method DeserializeForward(o: Order, t: Ty, held: seq<Val>, n: nat) returns (code: EC, result: Val)
      requires Valid() && WellFormed(t)
      modifies this, mbv
      ensures Valid() && mbv == old(mbv)
      ensures Step(code, result, Abs()) == ForwardBody(o, t, held, n, old(Abs()))
      decreases t, 6
    {
      hide Decode, WellFormed, ItemLoop, Reverse, Register;
      result := VList(held);
      var sz;
      code, sz := ForwardCount(|held|);
      if code.Ok? {
        code, result := DeserializeItems(o, true, t, held, (n - sz) % SIZE_LIMIT, sz);
        if code.Ok? {
          result := VList(Reverse(Components(result)));
        }
      }
    }

    method DeserializeItems(o: Order, forward: bool, t: Ty, held: seq<Val>, todo: nat, sz: nat)
        returns (code: EC, result: Val)
      requires Valid() && WellFormed(t)
      modifies this, mbv
      ensures Valid() && mbv == old(mbv)
      ensures Step(code, result, Abs()) == ItemLoop(o, forward, t, held, todo, sz, old(Abs()))
      decreases t, 5, todo
    {
      hide Decode, WellFormed, Fresh;
      var items := held;
      var i := 0;
      while i < todo
        invariant i <= todo && Valid() && mbv == old(mbv)
        invariant ItemLoop(o, forward, t, items, todo - i, sz, Abs())
                  == ItemLoop(o, forward, t, held, todo, sz, old(Abs()))
      {
        var item;
        code, item := Deserialize(o, t, Fresh(t));
        if !code.Ok? {
          return code, VList(items);
        }
        if forward {
          items := [item] + items;
          var count := RegisteredCount();
          if count < 2 {
            return Aborted, VList(items);
          }
          UpdateValueAt((sz + 1) % SIZE_LIMIT, 1);
        } else {
          items := items + [item];
        }
        i := i + 1;
      }
      return Ok, VList(items);
    }

    method DeserializeArray(o: Order, t: Ty, n: nat, target: Val) returns (code: EC, result: Val)
      requires Valid() && WellFormed(t)
      modifies this, mbv
      ensures Valid() && mbv == old(mbv)
      ensures Step(code, result, Abs()) == ArrayBody(o, t, n, target, old(Abs()))
      decreases t, 6
    {
      hide Decode, WellFormed, ArrayLoop;
      var remain := n;
      var known := RegisteredCount();
      if known > 0 {
        remain := registered[level][0];
      } else {
        RegisterValue(remain);
      }
      code, result := DeserializeElements(o, t, Components(target), (n - remain) % SIZE_LIMIT, remain);
    }

    method DeserializeElements(o: Order, t: Ty, targets: seq<Val>, first: nat, remain: nat)
        returns (code: EC, result: Val)
      requires Valid() && WellFormed(t)
      modifies this, mbv
      ensures Valid() && mbv == old(mbv)
      ensures Step(code, result, Abs()) == ArrayLoop(o, t, targets, first, remain, old(Abs()))
      decreases t, 5
    {
      hide Decode, WellFormed;
      var elems := targets;
      var i := first;
      while i < remain
        invariant Valid() && mbv == old(mbv)
        invariant ArrayLoop(o, t, elems, i, remain, Abs()) == ArrayLoop(o, t, targets, first, remain, old(Abs()))
      {
        if i >= |elems| {
          return Aborted, VList(elems);
        }
        var item;
        code, item := Deserialize(o, t, elems[i]);
        elems := elems[i := item];
        var count := RegisteredCount();
        if count == 0 {
          return Aborted, VList(elems);
        }
        UpdateValueAt(remain - 1, 0);
        if !code.Ok? {
          return code, VList(elems);
        }
        i := i + 1;
      }
      return Ok, VList(elems);
    }
  }
}
