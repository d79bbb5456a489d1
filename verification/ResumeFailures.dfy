/**
 * Outside the single-spine types a retry starts from the wrong place. For structs of numerics this module says exactly
 * which splits of a message into two views are resumed.
 */
module ResumeFailures {
  import opened Bytes
  import opened Codec
  import opened Reader
  import opened OneShot
  import opened PrefixFree
  import opened Resume
  import opened StreamSession

  /** A reader between two messages. */
  predicate Idle(st: State) {
    st.unread == [] && st.level == 0 && st.begin == st.end == st.iter && st.reg == map[]
  }

  /** The first k bytes of e arrive, and an attempt is made. */
  function FirstTry(o: Order, ty: Ty, e: seq<byte>, k: nat, st: State): (r: Step)
    requires WellFormed(ty) && k <= |e|
  {
    Decode(o, ty, Fresh(ty), PushView(st, e[..k]))
  }

  /** The rest of e arrives, and the attempt is repeated on the same target. */
  function Retry(o: Order, ty: Ty, e: seq<byte>, k: nat, st: State): (r: Step)
    requires WellFormed(ty) && k <= |e|
  {
    var first := FirstTry(o, ty, e, k, st);
    Decode(o, ty, first.target, PushView(first.st, e[k..]))
  }

  /** The retry gives exactly v and has used up its bytes. */
  predicate Recovers(r: Step, v: Val) {
    r.code.Ok? && r.target == v && r.st.unread == []
  }

  lemma PushedAfter(st: State, p: seq<byte>, used: nat, e: seq<byte>, k: nat)
    requires used <= k < |e| && p == e[..k] && st.unread == p[used..]
    ensures PushView(st, e[k..]) == st.(unread := e[used..], iter := st.begin)
  {
    assert p[used..] + e[k..] == e[used..];
  }

  lemma PushedFirst(st: State, p: seq<byte>)
    requires Idle(st)
    ensures PushView(st, p) == st.(unread := p) && Clean(PushView(st, p))
  {}

  /** If the first attempt leaves reader and target as they were, the retry is a one-shot decoding. */
  lemma {:induction false} UntouchedRetryRecovers(o: Order, ty: Ty, v: Val, k: nat, st: State)
    requires Agrees(o) && WellFormed(ty) && HasType(ty, v) && Idle(st) && k < |Encode(o, ty, v)|
    requires FirstTry(o, ty, Encode(o, ty, v), k, st).target == Fresh(ty)
    requires FirstTry(o, ty, Encode(o, ty, v), k, st).st == st.(unread := Encode(o, ty, v)[..k])
    ensures Recovers(Retry(o, ty, Encode(o, ty, v), k, st), v)
  {
    hide Decode, WellFormed, HasType, Encode, Fresh;
    var e := Encode(o, ty, v);
    var first := FirstTry(o, ty, e, k, st);
    assert e[..k] == e[..k][0..];
    PushedAfter(first.st, e[..k], 0, e, k);
    assert e[0..] == e == e + [];
    RoundTrip(o, ty, v, [], PushView(first.st, e[k..]));
  }

  predicate Numerics(fs: seq<Ty>) {
    forall i :: 0 <= i < |fs| ==> fs[i].Num? && WellFormed(fs[i])
  }

  function Width(fs: seq<Ty>): (n: nat)
    requires Numerics(fs)
  {
    if fs == [] then 0 else fs[0].width + Width(fs[1..])
  }

  /** A struct of numerics is read if and only if all of its bytes are unread, whatever was read before. */
  lemma {:induction false} FieldsNeedAllBytes(o: Order, fs: seq<Ty>, targets: seq<Val>, st: State)
    requires Numerics(fs) && |targets| == |fs|
    ensures var r := FieldLoop(o, fs, targets, st);
            r.target.VList? && |r.target.vs| == |fs| &&
            (|st.unread| >= Width(fs) <==> r.code.Ok?) && (|st.unread| < Width(fs) <==> r.code.BufferSizeLesser?)
    decreases |fs|
  {
    hide NumValue, WellFormed;
    if fs != [] {
      var first := Decode(o, fs[0], targets[0], st);
      assert Numerics(fs[1..]);
      if first.code.Ok? {
        FieldsNeedAllBytes(o, fs[1..], targets[1..], first.st);
      }
    }
  }

  lemma {:induction false} WidthIsTheLength(o: Order, fs: seq<Ty>, vs: seq<Val>)
    requires Numerics(fs) && |fs| == |vs| && forall i :: 0 <= i < |fs| ==> HasType(fs[i], vs[i])
    ensures |EncodeFields(o, fs, vs)| == Width(fs)
    decreases |fs|
  {
    if fs != [] {
      WidthIsTheLength(o, fs[1..], vs[1..]);
    }
  }

  lemma {:induction false} StructDecode(o: Order, fs: seq<Ty>, pair: bool, targets: seq<Val>, st: State)
    requires Numerics(fs) && (pair ==> |fs| == 2) && |targets| == |fs|
    ensures WellFormed(Struct(fs, pair))
    ensures var r := Decode(o, Struct(fs, pair), VList(targets), st);
            r.target.VList? && |r.target.vs| == |fs| &&
            (|st.unread| >= Width(fs) <==> r.code.Ok?) && (|st.unread| < Width(fs) <==> r.code.BufferSizeLesser?)
  {
    hide FieldLoop, Width;
    var ty := Struct(fs, pair);
    assert WellFormed(ty);
    FieldsNeedAllBytes(o, fs, targets, Inside(st));
    assert Body(o, ty, VList(targets), Inside(st)) == FieldLoop(o, fs, targets, Inside(st));
  }

  lemma FreshStruct(fs: seq<Ty>, pair: bool)
    requires Numerics(fs) && (pair ==> |fs| == 2)
    ensures WellFormed(Struct(fs, pair))
    ensures Fresh(Struct(fs, pair)).VList? && |Fresh(Struct(fs, pair)).vs| == |fs|
  {}

  /** With less than the first field at hand nothing happens. */
  lemma {:induction false} FirstFieldMissing(o: Order, fs: seq<Ty>, pair: bool, targets: seq<Val>, st: State)
    requires Numerics(fs) && (pair ==> |fs| == 2) && |targets| == |fs| && fs != [] && |st.unread| < fs[0].width
    ensures WellFormed(Struct(fs, pair))
    ensures Decode(o, Struct(fs, pair), VList(targets), st) == Step(BufferSizeLesser, VList(targets), st.(iter := st.begin))
  {
    var (ty, inside) := (Struct(fs, pair), Inside(st));
    assert WellFormed(ty);
    assert Decode(o, fs[0], targets[0], inside) == Step(BufferSizeLesser, targets[0], inside);
    assert [targets[0]] + targets[1..] == targets;
    assert FieldLoop(o, fs, targets, inside) == Step(BufferSizeLesser, VList(targets), inside);
    assert Body(o, ty, VList(targets), inside) == FieldLoop(o, fs, targets, inside);
  }

  /** The bytes of the whole fields that arrived first are gone when the retry begins. */
  lemma {:induction false} FieldsUsed(o: Order, fs: seq<Ty>, vs: seq<Val>, n: nat)
    requires Numerics(fs) && fs != [] && |fs| == |vs| && forall i :: 0 <= i < |fs| ==> HasType(fs[i], vs[i])
    ensures n >= fs[0].width ==> WholeFields(FieldChunks(o, fs, vs), n) > 0
  {
    var cs := Chunks(o, fs[0], vs[0]) + FieldChunks(o, fs[1..], vs[1..]);
    assert cs == FieldChunks(o, fs, vs);
    assert cs[0] == NumBytes(o, fs[0].width, vs[0].raw);
  }

  /** A struct of numerics that arrives in two views is recovered if and only if the first view ends inside its first field. */
  lemma {:induction false} StructResumesExactly(o: Order, fs: seq<Ty>, pair: bool, v: Val, k: nat, st: State)
    requires Agrees(o) && Numerics(fs) && fs != [] && (pair ==> |fs| == 2) && HasType(Struct(fs, pair), v) && Idle(st)
    requires k < |Encode(o, Struct(fs, pair), v)|
    ensures WellFormed(Struct(fs, pair))
    ensures var r := Retry(o, Struct(fs, pair), Encode(o, Struct(fs, pair), v), k, st);
            (Recovers(r, v) <==> k < fs[0].width) && (k >= fs[0].width ==> r.code.BufferSizeLesser?)
  {
    var ty := Struct(fs, pair);
    var e := Encode(o, ty, v);
    FreshStruct(fs, pair);
    PushedFirst(st, e[..k]);
    var st1 := PushView(st, e[..k]);
    WidthIsTheLength(o, fs, v.vs);
    if k < fs[0].width {
      FirstFieldMissing(o, fs, pair, Fresh(ty).vs, st1);
      UntouchedRetryRecovers(o, ty, v, k, st);
    } else {
      StructLosesFields(o, fs, pair, v, k, st);
    }
  }

  lemma {:induction false} StructLosesFields(o: Order, fs: seq<Ty>, pair: bool, v: Val, k: nat, st: State)
    requires Agrees(o) && Numerics(fs) && fs != [] && (pair ==> |fs| == 2) && HasType(Struct(fs, pair), v) && Idle(st)
    requires fs[0].width <= k < |Encode(o, Struct(fs, pair), v)|
    ensures WellFormed(Struct(fs, pair))
    ensures Retry(o, Struct(fs, pair), Encode(o, Struct(fs, pair), v), k, st).code.BufferSizeLesser?
  {
    var ty := Struct(fs, pair);
    FreshStruct(fs, pair);
    WidthIsTheLength(o, fs, v.vs);
    FieldsUsed(o, fs, v.vs, k);
    var (e, cs) := (Encode(o, ty, v), Chunks(o, ty, v));
    assert e == EncodeFields(o, fs, v.vs) && cs == FieldChunks(o, fs, v.vs);
    hide Decode, Encode, Chunks, HasType, WellFormed, Fresh, Width, WholeFields, FieldChunks, EncodeFields;
    PushedFirst(st, e[..k]);
    var st1 := PushView(st, e[..k]);
    ShortRead(o, ty, v, e[..k], st1);
    StructDecode(o, fs, pair, Fresh(ty).vs, st1);
    var first := FirstTry(o, ty, e, k, st);
    var used := WholeFields(cs, k);
    PushedAfter(first.st, e[..k], used, e, k);
    StructDecode(o, fs, pair, first.target.vs, PushView(first.st, e[k..]));
  }
}
