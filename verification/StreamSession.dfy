/** Whole runs of a reader: views pushed in any chunking, flushes and retries in any order. */
module StreamSession {
  import opened Bytes
  import opened Codec
  import opened Reader
  import opened PrefixFree
  import opened Resume

  datatype Event = Push(chunk: seq<byte>) | Flush | Attempt

  datatype Msg = Msg(ty: Ty, v: Val)

  /** The reader, the target of the message being decoded, and the values delivered so far. */
  datatype Session = Session(st: State, target: Val, got: seq<Val>)

  /** push_view: a non-empty view is appended and rewinds iter. */
  function PushView(st: State, chunk: seq<byte>): State {
    if chunk == [] then st else st.(unread := st.unread + chunk, iter := st.begin)
  }

  function TargetFor(ms: seq<Msg>, k: nat): Val
    requires forall i :: 0 <= i < |ms| ==> WellFormed(ms[i].ty)
  {
    if k < |ms| then Fresh(ms[k].ty) else VNone
  }

  function TryNext(o: Order, ms: seq<Msg>, s: Session): (r: Step)
    requires |s.got| < |ms| && forall i :: 0 <= i < |ms| ==> WellFormed(ms[i].ty)
  {
    Decode(o, ms[|s.got|].ty, s.target, s.st)
  }

  /** The receiver knows only the types; a failed attempt keeps its half-filled target for the next one. */
  function Next(o: Order, ms: seq<Msg>, s: Session, e: Event): (s': Session)
    requires forall i :: 0 <= i < |ms| ==> WellFormed(ms[i].ty)
  {
    match e
    case Push(chunk) => s.(st := PushView(s.st, chunk))
    case Flush => s
    case Attempt =>
      if |s.got| >= |ms| then s
      else
        var r := TryNext(o, ms, s);
        if r.code.Ok? then Session(r.st, TargetFor(ms, |s.got| + 1), s.got + [r.target])
        else Session(r.st, r.target, s.got)
  }

  function Run(o: Order, ms: seq<Msg>, es: seq<Event>): (s: Session)
    requires forall i :: 0 <= i < |ms| ==> WellFormed(ms[i].ty)
  {
    if es == [] then Session(INITIAL, TargetFor(ms, 0), [])
    else Next(o, ms, Run(o, ms, es[..|es| - 1]), es[|es| - 1])
  }

  function Fed(es: seq<Event>): (s: seq<byte>) {
    if es == [] then []
    else
      var e := es[|es| - 1];
      Fed(es[..|es| - 1]) + if e.Push? then e.chunk else []
  }

  /** Composite single-spine messages whose size fits in size_t. */
  ghost predicate Sendable(o: Order, m: Msg) {
    WellFormed(m.ty) && HasType(m.ty, m.v) && Spine(m.ty) && !m.ty.Num? && |Encode(o, m.ty, m.v)| < SIZE_LIMIT
  }

  ghost function Wire(o: Order, m: Msg): (s: seq<byte>)
    requires Sendable(o, m)
  {
    Encode(o, m.ty, m.v)
  }

  ghost predicate AllSendable(o: Order, ms: seq<Msg>) {
    forall i :: 0 <= i < |ms| ==> Sendable(o, ms[i])
  }

  ghost function EncodeAll(o: Order, ms: seq<Msg>): (s: seq<byte>)
    requires AllSendable(o, ms)
  {
    if ms == [] then []
    else EncodeAll(o, ms[..|ms| - 1]) + Wire(o, ms[|ms| - 1])
  }

  function Values(ms: seq<Msg>): (vs: seq<Val>)
    ensures |vs| == |ms|
  {
    seq(|ms|, i requires 0 <= i < |ms| => ms[i].v)
  }

  /** The session has delivered the first messages and keeps a correct record of the next one. */
  ghost predicate InStep(o: Order, ms: seq<Msg>, s: Session, fed: seq<byte>)
    requires AllSendable(o, ms)
  {
    var (k, c) := (|s.got|, s.st.end - s.st.begin);
    k <= |ms| && s.got == Values(ms)[..k] &&
    s.st.level == 0 && s.st.iter == s.st.begin && c >= 0 &&
    if k < |ms| then
      Ready(o, ms[k].ty, ms[k].v, s.target, c, s.st) &&
      fed == EncodeAll(o, ms[..k]) + Wire(o, ms[k])[..c] + s.st.unread
    else
      c == 0 && s.st.reg == map[] && fed == EncodeAll(o, ms) + s.st.unread
  }

  ghost predicate IsPrefix(p: seq<byte>, s: seq<byte>) {
    |p| <= |s| && p == s[..|p|]
  }

  lemma {:induction false} EncodeAllStep(o: Order, ms: seq<Msg>, k: nat)
    requires AllSendable(o, ms) && k < |ms|
    ensures EncodeAll(o, ms[..k + 1]) == EncodeAll(o, ms[..k]) + Wire(o, ms[k])
  {
    hide Wire, Sendable;
    assert ms[..k + 1][..k] == ms[..k] && ms[..k + 1][k] == ms[k];
  }

  lemma {:induction false} EncodeAllFrom(o: Order, ms: seq<Msg>, k: nat) returns (rest: seq<byte>)
    requires AllSendable(o, ms) && k <= |ms|
    ensures EncodeAll(o, ms) == EncodeAll(o, ms[..k]) + rest
    decreases |ms| - k
  {
    hide Wire, Sendable, EncodeAll;
    if k == |ms| {
      assert ms[..k] == ms;
      rest := [];
    } else {
      EncodeAllStep(o, ms, k);
      var more := EncodeAllFrom(o, ms, k + 1);
      rest := Wire(o, ms[k]) + more;
      assert EncodeAll(o, ms[..k]) + Wire(o, ms[k]) + more == EncodeAll(o, ms[..k]) + rest;
    }
  }

  /** What is unread either completes the current message or is a strict prefix of what it lacks. */
  lemma Outlook(done: seq<byte>, e: seq<byte>, c: nat, unread: seq<byte>, rest: seq<byte>, fed: seq<byte>)
    requires c <= |e| && fed == done + e[..c] + unread && IsPrefix(fed, done + e + rest)
    ensures |fed| >= |done| + |e| ==> unread == e[c..] + unread[|e| - c..]
    ensures |fed| < |done| + |e| ==> StrictPrefix(unread, e[c..])
  {
    forall i | 0 <= i < |unread| && c + i < |e| ensures unread[i] == e[c..][i] {
      assert fed[|done| + c + i] == unread[i];
      assert (done + e + rest)[|done| + c + i] == e[c + i];
      assert (done + e + rest)[..|fed|][|done| + c + i] == (done + e + rest)[|done| + c + i];
    }
  }

  /** A session in step either waits for the last byte of its message or delivers exactly that message. */
  lemma {:induction false} AttemptExact(o: Order, ms: seq<Msg>, s: Session, fed: seq<byte>)
    requires Agrees(o) && AllSendable(o, ms) && IsPrefix(fed, EncodeAll(o, ms))
    requires InStep(o, ms, s, fed) && |s.got| < |ms|
    ensures var (k, r) := (|s.got|, TryNext(o, ms, s));
            if |fed| >= |EncodeAll(o, ms[..k + 1])| then r.code.Ok? && r.target == ms[k].v
            else r.code.BufferSizeLesser?
    ensures InStep(o, ms, Next(o, ms, s, Attempt), fed)
  {
    hide Decode, Encode, EncodeAll, Progress, Ready, Spine, HasType, WellFormed, Fresh;
    var (k, c) := (|s.got|, s.st.end - s.st.begin);
    var m := ms[k];
    assert Sendable(o, m);
    var e := Wire(o, m);
    Recorded(o, m, s.target, c, s.st);
    EncodeAllStep(o, ms, k);
    var rest := EncodeAllFrom(o, ms, k + 1);
    Outlook(EncodeAll(o, ms[..k]), e, c, s.st.unread, rest, fed);
    if |fed| >= |EncodeAll(o, ms[..k + 1])| {
      ResumeFull(o, m.ty, m.v, s.target, c, s.st.unread[|e| - c..], s.st);
      Delivered(o, ms, s, fed);
    } else {
      var d := ResumeShort(o, m.ty, m.v, s.target, c, s.st.unread, s.st);
      StillWaiting(o, ms, s, fed, d);
    }
  }

  lemma {:induction false} Recorded(o: Order, m: Msg, target: Val, c: nat, st: State)
    requires Ready(o, m.ty, m.v, target, c, st)
    ensures WellFormed(m.ty) && HasType(m.ty, m.v) && Spine(m.ty) && c <= |Encode(o, m.ty, m.v)|
  {}

  lemma Delivered(o: Order, ms: seq<Msg>, s: Session, fed: seq<byte>)
    requires Agrees(o) && AllSendable(o, ms) && InStep(o, ms, s, fed) && |s.got| < |ms|
    requires var (k, c) := (|s.got|, s.st.end - s.st.begin);
             var e := Wire(o, ms[k]);
             |e| - c <= |s.st.unread| && s.st.unread == e[c..] + s.st.unread[|e| - c..] &&
             Done(ms[k].ty, ms[k].v, TryNext(o, ms, s), s.st, |e| - c, s.st.unread[|e| - c..])
    ensures InStep(o, ms, Next(o, ms, s, Attempt), fed)
  {
    hide Decode, Encode, EncodeAll, Spine, HasType, WellFormed, Fresh;
    var (k, c) := (|s.got|, s.st.end - s.st.begin);
    var e := Wire(o, ms[k]);
    EncodeAllStep(o, ms, k);
    var s' := Next(o, ms, s, Attempt);
    assert s'.got == Values(ms)[..k + 1];
    assert e[..c] + e[c..] == e;
    assert fed == EncodeAll(o, ms[..k + 1]) + s'.st.unread;
    if k + 1 < |ms| {
      assert Sendable(o, ms[k + 1]);
      assert Wire(o, ms[k + 1])[..0] == [];
    } else {
      assert ms[..k + 1] == ms;
    }
  }

  lemma StillWaiting(o: Order, ms: seq<Msg>, s: Session, fed: seq<byte>, d: nat)
    requires Agrees(o) && AllSendable(o, ms) && InStep(o, ms, s, fed) && |s.got| < |ms|
    requires var (k, c) := (|s.got|, s.st.end - s.st.begin);
             var e := Wire(o, ms[k]);
             StrictPrefix(s.st.unread, e[c..]) &&
             Waiting(o, ms[k].ty, ms[k].v, TryNext(o, ms, s), c, d, s.st, s.st.unread)
    ensures InStep(o, ms, Next(o, ms, s, Attempt), fed)
  {
    hide Decode, Encode, EncodeAll, Spine, HasType, WellFormed, Fresh, Progress;
    var (k, c) := (|s.got|, s.st.end - s.st.begin);
    var (e, u) := (Wire(o, ms[k]), s.st.unread);
    assert e[c..][..d] == u[..d];
    assert e[..c + d] == e[..c] + u[..d];
    assert u == u[..d] + u[d..];
  }

  lemma PushKeepsStep(o: Order, ms: seq<Msg>, s: Session, fed: seq<byte>, chunk: seq<byte>)
    requires AllSendable(o, ms) && InStep(o, ms, s, fed)
    ensures InStep(o, ms, Next(o, ms, s, Push(chunk)), fed + chunk)
  {
    hide Encode, EncodeAll, Spine, HasType, WellFormed, Fresh, Progress;
    assert chunk == [] ==> fed + chunk == fed;
  }

  lemma KnownTypes(o: Order, ms: seq<Msg>)
    requires AllSendable(o, ms)
    ensures forall i :: 0 <= i < |ms| ==> WellFormed(ms[i].ty)
  {
    forall i | 0 <= i < |ms| ensures WellFormed(ms[i].ty) {
      assert Sendable(o, ms[i]);
    }
  }

  lemma QuietStep(o: Order, ms: seq<Msg>, s: Session, e: Event)
    requires AllSendable(o, ms) && (e.Flush? || (e.Attempt? && |s.got| >= |ms|))
    ensures Next(o, ms, s, e) == s
  {}

  lemma {:induction false} StartInStep(o: Order, ms: seq<Msg>)
    requires Agrees(o) && AllSendable(o, ms)
    ensures InStep(o, ms, Run(o, ms, []), [])
  {
    hide Encode, Spine, HasType, WellFormed, Fresh;
    assert ms[..0] == [];
    if ms != [] {
      assert Sendable(o, ms[0]);
      assert Wire(o, ms[0])[..0] == [];
    }
  }

  /** Every run whose views carry a prefix of the encoded stream stays in step with it. */
  lemma {:induction false} RunStaysInStep(o: Order, ms: seq<Msg>, es: seq<Event>)
    requires Agrees(o) && AllSendable(o, ms) && IsPrefix(Fed(es), EncodeAll(o, ms))
    ensures InStep(o, ms, Run(o, ms, es), Fed(es))
    decreases |es|
  {
    hide Encode, EncodeAll, InStep, Next, Sendable, Values, TargetFor;
    KnownTypes(o, ms);
    if es == [] {
      StartInStep(o, ms);
    } else {
      var (before, e) := (es[..|es| - 1], es[|es| - 1]);
      assert IsPrefix(Fed(before), EncodeAll(o, ms));
      RunStaysInStep(o, ms, before);
      var s := Run(o, ms, before);
      match e
      case Push(chunk) => PushKeepsStep(o, ms, s, Fed(before), chunk);
      case Flush => QuietStep(o, ms, s, e);
      case Attempt =>
        if |s.got| < |ms| {
          AttemptExact(o, ms, s, Fed(before));
        } else {
          QuietStep(o, ms, s, e);
        }
    }
  }

  /**
   * Resumable decoding is exact: after any run, the delivered values are the first messages in order, and the
   * next attempt succeeds if and only if the last byte of the next message has been fed.
   */
  lemma {:induction false} ResumableDecodingIsExact(o: Order, ms: seq<Msg>, es: seq<Event>)
    requires Agrees(o) && AllSendable(o, ms) && IsPrefix(Fed(es), EncodeAll(o, ms))
    ensures var s := Run(o, ms, es);
            |s.got| <= |ms| && s.got == Values(ms)[..|s.got|] &&
            (|s.got| < |ms| ==>
               var r := TryNext(o, ms, s);
               if |Fed(es)| >= |EncodeAll(o, ms[..|s.got| + 1])| then r.code.Ok? && r.target == ms[|s.got|].v
               else r.code.BufferSizeLesser?)
  {
    hide Encode, EncodeAll, Run, Next, TryNext, Ready;
    RunStaysInStep(o, ms, es);
    var s := Run(o, ms, es);
    if |s.got| < |ms| {
      AttemptExact(o, ms, s, Fed(es));
    }
  }

  function Attempts(n: nat): (es: seq<Event>)
    ensures |es| == n && forall i :: 0 <= i < n ==> es[i] == Attempt
  {
    seq(n, i => Attempt)
  }

  /** One more attempt after a run: the bytes fed stay the same, and a message whose bytes are all there is delivered. */
  lemma {:induction false} OneMoreAttempt(o: Order, ms: seq<Msg>, es: seq<Event>)
    requires Agrees(o) && AllSendable(o, ms) && Fed(es) == EncodeAll(o, ms)
    ensures Fed(es + [Attempt]) == Fed(es)
    ensures var (k, k') := (|Run(o, ms, es).got|, |Run(o, ms, es + [Attempt]).got|);
            k <= |ms| && k' == if k < |ms| then k + 1 else k
  {
    hide Encode, EncodeAll, TryNext, Ready;
    assert (es + [Attempt])[..|es|] == es;
    ResumableDecodingIsExact(o, ms, es);
    var s := Run(o, ms, es);
    if |s.got| < |ms| {
      var rest := EncodeAllFrom(o, ms, |s.got| + 1);
    }
  }

  /** Once every byte has been fed, as many attempts as messages are missing deliver all of them, in order. */
  lemma {:induction false} EveryMessageArrives(o: Order, ms: seq<Msg>, es: seq<Event>, n: nat)
    requires Agrees(o) && AllSendable(o, ms) && Fed(es) == EncodeAll(o, ms)
    requires n >= |ms| - |Run(o, ms, es).got|
    ensures Run(o, ms, es + Attempts(n)).got == Values(ms)
    decreases n
  {
    hide Encode, EncodeAll, Run, Fed, AllSendable;
    if n == 0 {
      assert es + Attempts(0) == es;
      ResumableDecodingIsExact(o, ms, es);
    } else {
      OneMoreAttempt(o, ms, es);
      EveryMessageArrives(o, ms, es + [Attempt], n - 1);
      assert es + [Attempt] + Attempts(n - 1) == es + Attempts(n);
    }
  }
}
