/** The wire format, read off the bytes: which byte stands where, on either host and in either order. */
module WireFormat {
  import opened Bytes
  import opened Codec
  import opened PrefixFree

  /** The encodings of the parts of a value, first part first. */
  function Items(o: Order, t: Ty, vs: seq<Val>): (parts: seq<seq<byte>>)
    requires forall i :: 0 <= i < |vs| ==> HasType(t, vs[i])
    ensures |parts| == |vs| && forall i :: 0 <= i < |vs| ==> parts[i] == Encode(o, t, vs[i])
  {
    seq(|vs|, i requires 0 <= i < |vs| => Encode(o, t, vs[i]))
  }

  function Fields(o: Order, fs: seq<Ty>, vs: seq<Val>): (parts: seq<seq<byte>>)
    requires |fs| == |vs| && forall i :: 0 <= i < |fs| ==> HasType(fs[i], vs[i])
    ensures |parts| == |fs| && forall i :: 0 <= i < |fs| ==> parts[i] == Encode(o, fs[i], vs[i])
  {
    seq(|fs|, i requires 0 <= i < |fs| => Encode(o, fs[i], vs[i]))
  }

  /** s is a header of eight bytes that spells x, and then body. */
  predicate Headed(o: Order, x: nat, body: seq<byte>, s: seq<byte>) {
    |s| >= 8 && Spells(o, 8, x, s[..8]) && s[8..] == body
  }

  /** How the bytes of a value are laid out. */
  predicate LaidOut(o: Order, ty: Ty, v: Val, s: seq<byte>)
    requires HasType(ty, v)
  {
    match ty
    case Num(w) => Spells(o, w, v.raw, s)
    case Time => Spells(o, 8, v.raw, s)
    case Opt(_, t) => s == if v.VSome? then [1] + Encode(o, t, v.inner) else [0]
    case Range(_, t) => Headed(o, |v.vs|, Flat(Items(o, t, v.vs)), s)
    case Array(t, _) => s == Flat(Items(o, t, v.vs))
    case Struct(fs, _) => s == Flat(Fields(o, fs, v.vs))
    case Variant(alts) => Headed(o, v.index, Encode(o, alts[v.index], v.inner), s)
  }

  lemma {:induction false} ItemsInARow(o: Order, t: Ty, vs: seq<Val>)
    requires forall i :: 0 <= i < |vs| ==> HasType(t, vs[i])
    ensures EncodeItems(o, t, vs) == Flat(Items(o, t, vs))
  {
    hide Encode, HasType;
    if vs != [] {
      ItemsInARow(o, t, vs[1..]);
      assert Items(o, t, vs)[1..] == Items(o, t, vs[1..]);
    }
  }

  lemma {:induction false} FieldsInARow(o: Order, fs: seq<Ty>, vs: seq<Val>)
    requires |fs| == |vs| && forall i :: 0 <= i < |fs| ==> HasType(fs[i], vs[i])
    ensures EncodeFields(o, fs, vs) == Flat(Fields(o, fs, vs))
    decreases |fs|
  {
    hide Encode, HasType;
    if fs != [] {
      FieldsInARow(o, fs[1..], vs[1..]);
      assert Fields(o, fs, vs)[1..] == Fields(o, fs[1..], vs[1..]);
    }
  }

  lemma HeaderFirst(o: Order, x: nat, body: seq<byte>)
    ensures Headed(o, x, body, NumBytes(o, 8, x) + body)
  {
    NumBytesSpell(o, 8, x);
    var s := NumBytes(o, 8, x) + body;
    assert s[..8] == NumBytes(o, 8, x) && s[8..] == body;
  }

  lemma FlagBytes(o: Order)
    ensures NumBytes(o, 1, 0) == [0] && NumBytes(o, 1, 1) == [1]
  {
    assert Pow256(1) == 256 * Pow256(0);
    ByteImage(o, 0);
    ByteImage(o, 1);
  }

  /** A string is the encoding of a value if and only if it is laid out like that. */
  lemma {:induction false} EncodingIsLaidOut(o: Order, ty: Ty, v: Val, s: seq<byte>)
    requires HasType(ty, v)
    ensures s == Encode(o, ty, v) <==> LaidOut(o, ty, v, s)
  {
    hide NumBytes, EncodeItems, EncodeFields, Items, Fields, Flat, Spells;
    match ty
    case Num(w) => SpellingIsUnique(o, w, v.raw, s);
    case Time => SpellingIsUnique(o, 8, v.raw, s);
    case Opt(_, _) => FlagBytes(o);
    case Range(_, t) =>
      ItemsInARow(o, t, v.vs);
      HeadedIsUnique(o, |v.vs|, EncodeItems(o, t, v.vs), s);
    case Array(t, _) => ItemsInARow(o, t, v.vs);
    case Struct(fs, _) => FieldsInARow(o, fs, v.vs);
    case Variant(alts) => HeadedIsUnique(o, v.index, Encode(o, alts[v.index], v.inner), s);
  }

  lemma SpellingIsUnique(o: Order, w: nat, x: nat, s: seq<byte>)
    ensures s == NumBytes(o, w, x) <==> Spells(o, w, x, s)
  {
    hide NumBytes;
    NumBytesSpell(o, w, x);
    if Spells(o, w, x, s) {
      assert forall i :: 0 <= i < w ==> s[i] == NumBytes(o, w, x)[i];
    }
  }

  lemma HeadedIsUnique(o: Order, x: nat, body: seq<byte>, s: seq<byte>)
    ensures s == NumBytes(o, 8, x) + body <==> Headed(o, x, body, s)
  {
    hide NumBytes, Spells;
    HeaderFirst(o, x, body);
    if Headed(o, x, body, s) {
      SpellingIsUnique(o, 8, x, s[..8]);
      assert s == s[..8] + s[8..];
    }
  }
}
