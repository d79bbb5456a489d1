/** Serialize as the templates run it: appending to a buffer, with loops over items and a block copy for byte arrays. */
module Serializer {
  import opened Bytes
  import opened Codec
  import opened WireFormat

  /** The raw memory of an array of one-byte values. */
  function RawBytes(vs: seq<Val>): (s: seq<byte>)
    requires forall i :: 0 <= i < |vs| ==> IsByte(vs[i])
    ensures |s| == |vs|
  {
    if vs == [] then [] else assert IsByte(vs[0]); [vs[0].raw] + RawBytes(vs[1..])
  }

  predicate IsByte(v: Val) { v.VNum? && v.raw < 256 }

  /** Copying the memory of a byte array is encoding its items one by one. */
  lemma {:induction false} RawBytesAreTheEncoding(o: Order, vs: seq<Val>)
    requires forall i :: 0 <= i < |vs| ==> HasType(Num(1), vs[i])
    ensures (forall i :: 0 <= i < |vs| ==> IsByte(vs[i])) && RawBytes(vs) == EncodeItems(o, Num(1), vs)
  {
    forall i | 0 <= i < |vs| ensures IsByte(vs[i]) {
      assert HasType(Num(1), vs[i]);
      ByteImage(o, vs[i].raw);
    }
    if vs != [] {
      ByteImage(o, vs[0].raw);
      RawBytesAreTheEncoding(o, vs[1..]);
    }
  }

  lemma {:induction false} NoItems(o: Order, t: Ty, vs: seq<Val>)
    requires vs == []
    ensures EncodeItems(o, t, vs) == []
  {}

  lemma {:induction false} OneItem(o: Order, t: Ty, x: Val)
    requires HasType(t, x)
    ensures EncodeItems(o, t, [x]) == Encode(o, t, x)
  {
    assert EncodeItems(o, t, [x]) == Encode(o, t, x) + EncodeItems(o, t, []);
  }

  lemma {:induction false} ItemsUpTo(o: Order, t: Ty, vs: seq<Val>, i: nat)
    requires i < |vs| && forall k :: 0 <= k < |vs| ==> HasType(t, vs[k])
    ensures EncodeItems(o, t, vs[..i + 1]) == EncodeItems(o, t, vs[..i]) + Encode(o, t, vs[i])
  {
    hide Encode, HasType, EncodeItems;
    assert vs[..i + 1] == vs[..i] + [vs[i]];
    EncodeItemsConcat(o, t, vs[..i], [vs[i]]);
    OneItem(o, t, vs[i]);
  }

  lemma Appended(buf: seq<byte>, head: seq<byte>, tail: seq<byte>)
    ensures buf + head + tail == buf + (head + tail)
  {}

  lemma Behind(buf: seq<byte>, more: seq<byte>)
    ensures (buf + more)[|buf|..] == more
  {}

  /** Serialize appends exactly the encoding, laid out as the wire format says, whatever the buffer holds already. */
  method Serialize(o: Order, ty: Ty, v: Val, buf: seq<byte>) returns (r: seq<byte>)
    requires HasType(ty, v)
    ensures r == buf + Encode(o, ty, v)
    ensures |buf| <= |r| && LaidOut(o, ty, v, r[|buf|..])
    decreases ty, 3
  {
    hide NumBytes, EncodeItems, EncodeFields, LaidOut;
    EncodingIsLaidOut(o, ty, v, Encode(o, ty, v));
    Behind(buf, Encode(o, ty, v));
    match ty
    case Num(w) => r := buf + NumBytes(o, w, v.raw);
    case Time => r := buf + NumBytes(o, 8, v.raw);
    case Opt(_, t) =>
      var flag := NumBytes(o, 1, if v.VSome? then 1 else 0);
      r := buf + flag;
      if v.VSome? {
        r := Serialize(o, t, v.inner, r);
        Appended(buf, flag, Encode(o, t, v.inner));
      }
    case Range(_, t) =>
      r := buf + NumBytes(o, 8, |v.vs|);
      r := SerializeItems(o, t, v.vs, r);
      Appended(buf, NumBytes(o, 8, |v.vs|), EncodeItems(o, t, v.vs));
    case Array(t, _) => r := SerializeArray(o, t, v.vs, buf);
    case Struct(fs, _) => r := SerializeFields(o, fs, v.vs, buf);
    case Variant(alts) =>
      r := buf + NumBytes(o, 8, v.index);
      r := Serialize(o, alts[v.index], v.inner, r);
      Appended(buf, NumBytes(o, 8, v.index), Encode(o, alts[v.index], v.inner));
  }

  method SerializeItems(o: Order, t: Ty, vs: seq<Val>, buf: seq<byte>) returns (r: seq<byte>)
    requires forall i :: 0 <= i < |vs| ==> HasType(t, vs[i])
    ensures r == buf + EncodeItems(o, t, vs)
    decreases t, 4
  {
    hide Encode, HasType, EncodeItems;
    r := buf;
    assert EncodeItems(o, t, vs[..0]) == [] by { NoItems(o, t, vs[..0]); }
    for i := 0 to |vs|
      invariant r == buf + EncodeItems(o, t, vs[..i])
    {
      r := Serialize(o, t, vs[i], r);
      ItemsUpTo(o, t, vs, i);
      Appended(buf, EncodeItems(o, t, vs[..i]), Encode(o, t, vs[i]));
    }
    assert vs[..|vs|] == vs;
  }

  method SerializeArray(o: Order, t: Ty, vs: seq<Val>, buf: seq<byte>) returns (r: seq<byte>)
    requires forall i :: 0 <= i < |vs| ==> HasType(t, vs[i])
    ensures r == buf + EncodeItems(o, t, vs)
    decreases t, 5
  {
    if t == Num(1) {
      RawBytesAreTheEncoding(o, vs);
      r := buf + RawBytes(vs);
    } else {
      r := SerializeItems(o, t, vs, buf);
    }
  }

  method SerializeFields(o: Order, fs: seq<Ty>, vs: seq<Val>, buf: seq<byte>) returns (r: seq<byte>)
    requires |fs| == |vs| && forall i :: 0 <= i < |fs| ==> HasType(fs[i], vs[i])
    ensures r == buf + EncodeFields(o, fs, vs)
    decreases fs, 0
  {
    hide Encode, HasType;
    r := buf;
    if fs != [] {
      r := Serialize(o, fs[0], vs[0], r);
      r := SerializeFields(o, fs[1..], vs[1..], r);
      Appended(buf, Encode(o, fs[0], vs[0]), EncodeFields(o, fs[1..], vs[1..]));
    }
  }
}
