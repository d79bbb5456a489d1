/** The closed type universe of the serialization library, its values and their encoding. */
module Codec {
  import opened Bytes

  datatype Holder = Optional | SmartPointer

  /** A serializable type. `Range(true, t)` is std::forward_list; `Struct(fs, true)` is std::pair. */
  datatype Ty =
    | Num(width: nat)
    | Time
    | Opt(holder: Holder, held: Ty)
    | Range(forward: bool, elem: Ty)
    | Array(item: Ty, count: nat)
    | Struct(fields: seq<Ty>, pair: bool)
    | Variant(alts: seq<Ty>)

  /** A value: numerics by their raw bits, structs, arrays and ranges by their components. */
  datatype Val =
    | VNum(raw: nat)
    | VNone
    | VSome(inner: Val)
    | VList(vs: seq<Val>)
    | VAlt(index: nat, inner: Val)

  /** std::is_empty: no bytes are written or read. */
  predicate IsEmptyClass(ty: Ty) {
    ty.Struct? && ty.fields == []
  }

  /** Types the templates can be instantiated with, except arrays of empty classes: those are written but not read. */
  predicate WellFormed(ty: Ty) {
    match ty
    case Num(w) => 0 < w <= 16
    case Time => true
    case Opt(_, t) => WellFormed(t)
    case Range(_, t) => WellFormed(t)
    case Array(t, n) => WellFormed(t) && 0 < n < SIZE_LIMIT && !IsEmptyClass(t)
    case Struct(fs, pair) =>
      (pair ==> |fs| == 2) && forall i :: 0 <= i < |fs| ==> WellFormed(fs[i])
    case Variant(alts) =>
      0 < |alts| < SIZE_LIMIT && forall i :: 0 <= i < |alts| ==> WellFormed(alts[i])
  }

  predicate HasType(ty: Ty, v: Val)
    decreases ty
  {
    match ty
    case Num(w) => v.VNum? && v.raw < Pow256(w)
    case Time => v.VNum? && v.raw < Pow256(8)
    case Opt(_, t) => v.VNone? || (v.VSome? && HasType(t, v.inner))
    case Range(_, t) => v.VList? && |v.vs| < SIZE_LIMIT && forall i :: 0 <= i < |v.vs| ==> HasType(t, v.vs[i])
    case Array(t, n) => v.VList? && |v.vs| == n && forall i :: 0 <= i < |v.vs| ==> HasType(t, v.vs[i])
    case Struct(fs, _) => v.VList? && |v.vs| == |fs| && forall i :: 0 <= i < |fs| ==> HasType(fs[i], v.vs[i])
    case Variant(alts) => v.VAlt? && v.index < |alts| && HasType(alts[v.index], v.inner)
  }

  /** A default-constructed value. */
  function Fresh(ty: Ty): (v: Val)
    requires WellFormed(ty)
  {
    match ty
    case Num(_) => VNum(0)
    case Time => VNum(0)
    case Opt(_, _) => VNone
    case Range(_, _) => VList([])
    case Array(t, n) => VList(seq(n, i => Fresh(t)))
    case Struct(fs, _) => VList(seq(|fs|, i requires 0 <= i < |fs| => Fresh(fs[i])))
    case Variant(alts) => VAlt(0, Fresh(alts[0]))
  }

  /** What Serialize appends to the buffer. */
  function Encode(o: Order, ty: Ty, v: Val): (s: seq<byte>)
    requires HasType(ty, v)
    decreases ty, 1
  {
    match ty
    case Num(w) => NumBytes(o, w, v.raw)
    case Time => NumBytes(o, 8, v.raw)
    case Opt(_, t) => if v.VSome? then NumBytes(o, 1, 1) + Encode(o, t, v.inner) else NumBytes(o, 1, 0)
    case Range(_, t) => NumBytes(o, 8, |v.vs|) + EncodeItems(o, t, v.vs)
    case Array(t, _) => EncodeItems(o, t, v.vs)
    case Struct(fs, _) => EncodeFields(o, fs, v.vs)
    case Variant(alts) => NumBytes(o, 8, v.index) + Encode(o, alts[v.index], v.inner)
  }

  function EncodeItems(o: Order, t: Ty, vs: seq<Val>): (s: seq<byte>)
    requires forall i :: 0 <= i < |vs| ==> HasType(t, vs[i])
    decreases t, 2, |vs|
  {
    if vs == [] then [] else Encode(o, t, vs[0]) + EncodeItems(o, t, vs[1..])
  }

  function EncodeFields(o: Order, fs: seq<Ty>, vs: seq<Val>): (s: seq<byte>)
    requires |fs| == |vs| && forall i :: 0 <= i < |fs| ==> HasType(fs[i], vs[i])
    decreases fs, 0
  {
    if fs == [] then [] else Encode(o, fs[0], vs[0]) + EncodeFields(o, fs[1..], vs[1..])
  }

  lemma {:induction false} SplitItems(o: Order, t: Ty, vs: seq<Val>, rest: seq<byte>)
    requires vs != [] && forall i :: 0 <= i < |vs| ==> HasType(t, vs[i])
    ensures EncodeItems(o, t, vs) + rest == Encode(o, t, vs[0]) + (EncodeItems(o, t, vs[1..]) + rest)
    ensures |EncodeItems(o, t, vs)| == |Encode(o, t, vs[0])| + |EncodeItems(o, t, vs[1..])|
  {}

  lemma {:induction false} SplitFields(o: Order, fs: seq<Ty>, vs: seq<Val>, rest: seq<byte>)
    requires |fs| == |vs| && fs != [] && forall i :: 0 <= i < |fs| ==> HasType(fs[i], vs[i])
    ensures EncodeFields(o, fs, vs) + rest == Encode(o, fs[0], vs[0]) + (EncodeFields(o, fs[1..], vs[1..]) + rest)
    ensures |EncodeFields(o, fs, vs)| == |Encode(o, fs[0], vs[0])| + |EncodeFields(o, fs[1..], vs[1..])|
  {}

  lemma {:induction false} FirstItem(o: Order, t: Ty, vs: seq<Val>)
    requires vs != [] && forall i :: 0 <= i < |vs| ==> HasType(t, vs[i])
    ensures EncodeItems(o, t, vs) == Encode(o, t, vs[0]) + EncodeItems(o, t, vs[1..])
  {}

  lemma {:induction false} EncodeItemsConcat(o: Order, t: Ty, a: seq<Val>, b: seq<Val>)
    requires forall i :: 0 <= i < |a| ==> HasType(t, a[i])
    requires forall i :: 0 <= i < |b| ==> HasType(t, b[i])
    ensures EncodeItems(o, t, a + b) == EncodeItems(o, t, a) + EncodeItems(o, t, b)
  {
    hide Encode, HasType;
    if a == [] {
      assert a + b == b;
    } else {
      hide EncodeItems;
      var ab := a + b;
      EncodeItemsConcat(o, t, a[1..], b);
      assert ab[0] == a[0] && ab[1..] == a[1..] + b;
      FirstItem(o, t, a);
      FirstItem(o, t, ab);
    }
  }
}
