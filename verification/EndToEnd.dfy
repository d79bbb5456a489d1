/** What a client of StreamSerializer gets: the theorems about the reader, for the objects with their fields. */
module EndToEnd {
  import opened Bytes
  import opened Codec
  import opened Reader
  import opened OneShot
  import opened PrefixFree
  import opened MultiBuffer
  import opened StreamSerializerClass
  import opened StreamSession
  import opened AnyBytes

  /** A fresh reader with all views pushed. */
  function Started(views: seq<seq<byte>>): State {
    INITIAL.(unread := Flatten(views))
  }

  /**
   * A fresh StreamSerializer over any segmentation of the input: a whole encoding gives back the value and leaves
   * exactly what follows it; a strict prefix of an encoding gives BUFFER_SIZE_LESSER and uses up exactly the whole
   * numeric fields in it; a variant's index that names no alternative gives UNMATCHED_TYPE. On any bytes the answer is
   * exact, and a value that is returned has the type and took as many bytes as its encoding has.
   */
  method DecodeViews(o: Order, ty: Ty, views: seq<seq<byte>>) returns (code: EC, value: Val, reader: StreamSerializer)
    requires Agrees(o) && WellFormed(ty)
    ensures reader.Valid()
    ensures forall v, rest :: HasType(ty, v) && Flatten(views) == Encode(o, ty, v) + rest ==>
              code.Ok? && value == v && reader.mbv.Unread() == rest && reader.level == 0 && reader.registered == map[]
    ensures forall v :: HasType(ty, v) && StrictPrefix(Flatten(views), Encode(o, ty, v)) ==>
              code.BufferSizeLesser? && reader.level == 0 &&
              reader.mbv.Unread() == Flatten(views)[WholeFields(Chunks(o, ty, v), |Flatten(views)|)..]
    ensures forall k, rest :: ty.Variant? && |ty.alts| <= k < SIZE_LIMIT && Flatten(views) == NumBytes(o, 8, k) + rest ==>
              code.UnmatchedType? && value == Fresh(ty) && reader.mbv.Unread() == rest && reader.level == 0
    ensures Step(code, value, reader.Abs()) == Decode(o, ty, Fresh(ty), Started(views)) && Exact(o, ty, Started(views))
    ensures code.Ok? ==>
              HasType(ty, value) && |Encode(o, ty, value)| <= |Flatten(views)| &&
              reader.mbv.Unread() == Flatten(views)[|Encode(o, ty, value)|..]
  {
    hide Decode, WellFormed, HasType, Encode, NumBytes, Fresh, StrictPrefix, Chunks, WholeFields;
    reader := new StreamSerializer();
    for i := 0 to |views|
      invariant fresh(reader) && fresh(reader.mbv) && reader.Valid()
      invariant reader.Abs() == INITIAL.(unread := Flatten(views[..i]))
    {
      PositionAfter(views, i);
      reader.PushView(views[i]);
    }
    assert views[..|views|] == views;
    ghost var st := reader.Abs();
    code, value := reader.Deserialize(o, ty, Fresh(ty));
    AnswersAreExact(o, ty, st);
    forall k, rest | ty.Variant? && |ty.alts| <= k < SIZE_LIMIT && Flatten(views) == NumBytes(o, 8, k) + rest
      ensures code.UnmatchedType? && value == Fresh(ty) && reader.mbv.Unread() == rest && reader.level == 0
    {
      WrongIndex(o, ty.alts, Fresh(ty), k, rest, st);
    }
    forall v, rest | HasType(ty, v) && Flatten(views) == Encode(o, ty, v) + rest
      ensures code.Ok? && value == v && reader.mbv.Unread() == rest && reader.level == 0 && reader.registered == map[]
    {
      RoundTrip(o, ty, v, rest, st);
    }
    forall v | HasType(ty, v) && StrictPrefix(Flatten(views), Encode(o, ty, v))
      ensures code.BufferSizeLesser? && reader.level == 0
      ensures reader.mbv.Unread() == Flatten(views)[WholeFields(Chunks(o, ty, v), |Flatten(views)|)..]
    {
      ShortRead(o, ty, v, Flatten(views), st);
    }
  }

  lemma {:induction false} OneMoreEvent(o: Order, ms: seq<Msg>, es: seq<Event>, i: nat)
    requires i < |es| && forall k :: 0 <= k < |ms| ==> WellFormed(ms[k].ty)
    ensures Run(o, ms, es[..i + 1]) == Next(o, ms, Run(o, ms, es[..i]), es[i])
  {
    assert es[..i + 1][..i] == es[..i];
  }

  lemma {:induction false} DeliversInOrder(o: Order, ms: seq<Msg>, es: seq<Event>)
    requires forall k :: 0 <= k < |ms| ==> WellFormed(ms[k].ty)
    ensures Agrees(o) && AllSendable(o, ms) && IsPrefix(Fed(es), EncodeAll(o, ms)) ==>
              |Run(o, ms, es).got| <= |ms| && Run(o, ms, es).got == Values(ms)[..|Run(o, ms, es).got|]
    ensures es[..|es|] == es && Run(o, ms, es[..0]) == Session(INITIAL, TargetFor(ms, 0), [])
  {
    hide Next, Fed, EncodeAll, AllSendable;
    if Agrees(o) && AllSendable(o, ms) && IsPrefix(Fed(es), EncodeAll(o, ms)) {
      ResumableDecodingIsExact(o, ms, es);
    }
  }

  /** One event at the object. */
  method Handle(o: Order, ms: seq<Msg>, e: Event, reader: StreamSerializer, target: Val, got: seq<Val>)
    returns (target': Val, got': seq<Val>)
    requires reader.Valid() && forall i :: 0 <= i < |ms| ==> WellFormed(ms[i].ty)
    modifies reader, reader.mbv
    ensures reader.Valid() && reader.mbv == old(reader.mbv)
    ensures Session(reader.Abs(), target', got') == Next(o, ms, Session(old(reader.Abs()), target, got), e)
  {
    hide Decode, WellFormed, Fresh;
    target', got' := target, got;
    match e {
      case Push(chunk) => reader.PushView(chunk);
      case Flush => var _ := reader.Flush();
      case Attempt =>
        if |got| < |ms| {
          var code, value := reader.Deserialize(o, ms[|got|].ty, target);
          if code.Ok? {
            got' := got + [value];
            target' := TargetFor(ms, |got'|);
          } else {
            target' := value;
          }
        }
    }
  }

  /** A receiver that pushes, flushes and retries as the events say, into one target per message. */
  method Receive(o: Order, ms: seq<Msg>, es: seq<Event>) returns (got: seq<Val>)
    requires forall i :: 0 <= i < |ms| ==> WellFormed(ms[i].ty)
    ensures got == Run(o, ms, es).got
    ensures Agrees(o) && AllSendable(o, ms) && IsPrefix(Fed(es), EncodeAll(o, ms)) ==>
              |got| <= |ms| && got == Values(ms)[..|got|]
  {
    hide Decode, WellFormed, Fresh, EncodeAll, AllSendable, Fed, IsPrefix, Run, Next, TargetFor, Values;
    DeliversInOrder(o, ms, es);
    var reader := new StreamSerializer();
    var target := TargetFor(ms, 0);
    got := [];
    for i := 0 to |es|
      invariant fresh(reader) && fresh(reader.mbv) && reader.Valid()
      invariant Session(reader.Abs(), target, got) == Run(o, ms, es[..i])
    {
      OneMoreEvent(o, ms, es, i);
      target, got := Handle(o, ms, es[i], reader, target, got);
    }
  }
}
