/** Byte strings and the numeric wire format of the serialization library. */
module Bytes {

  type byte = x: int | 0 <= x < 256

  /** size_t is 64 bits wide. */
  const SIZE_LIMIT: nat := 0x1_0000_0000_0000_0000

  /** NETWORK_ORDER is the template argument, littleEndian the host's order. */
  datatype Order = Order(network: bool, littleEndian: bool)

  function Pow256(w: nat): (p: nat)
    ensures p >= 1
  {
    if w == 0 then 1 else 256 * Pow256(w - 1)
  }

  function Reverse<T>(s: seq<T>): (r: seq<T>)
    ensures |r| == |s|
    ensures forall i :: 0 <= i < |s| ==> r[i] == s[|s| - 1 - i]
  {
    if s == [] then [] else Reverse(s[1..]) + [s[0]]
  }

  /** Big-endian image of the low w bytes of x. */
  function BigEndian(w: nat, x: nat): (s: seq<byte>)
    ensures |s| == w
  {
    if w == 0 then [] else BigEndian(w - 1, x / 256) + [x % 256]
  }

  function FromBigEndian(s: seq<byte>): (x: nat)
  {
    if s == [] then 0 else 256 * FromBigEndian(s[..|s| - 1]) + s[|s| - 1]
  }

  /** How the host keeps a raw value of w bytes in memory. */
  function Image(littleEndian: bool, w: nat, x: nat): (s: seq<byte>)
    ensures |s| == w
  {
    if littleEndian then Reverse(BigEndian(w, x)) else BigEndian(w, x)
  }

  function FromImage(littleEndian: bool, s: seq<byte>): (x: nat) {
    FromBigEndian(if littleEndian then Reverse(s) else s)
  }

  /** Serialize of a numeric: byteswap (reversal of the image) only for network order on a little-endian host. */
  function NumBytes(o: Order, w: nat, x: nat): (s: seq<byte>)
    ensures |s| == w
  {
    var image := Image(o.littleEndian, w, x);
    if w > 1 && o.network && o.littleEndian then Reverse(image) else image
  }

  /** __deserialize_trivial__: its native branch swaps on a big-endian host, which Serialize never does. */
  function NumValue(o: Order, s: seq<byte>): (x: nat) {
    var swap := |s| > 1 && (if o.network then o.littleEndian else !o.littleEndian);
    FromImage(o.littleEndian, if swap then Reverse(s) else s)
  }

  /** Orders for which writing and reading agree. */
  predicate Agrees(o: Order) { o.network || o.littleEndian }

  lemma {:induction false} BigEndianRoundTrip(w: nat, x: nat)
    requires x < Pow256(w)
    ensures FromBigEndian(BigEndian(w, x)) == x
  {
    if w > 0 {
      BigEndianRoundTrip(w - 1, x / 256);
      assert BigEndian(w, x)[..w - 1] == BigEndian(w - 1, x / 256);
    }
  }

  lemma Multiples(d: nat, a: nat, b: nat)
    requires a <= b
    ensures d * a <= d * b
  {}

  lemma QuotientIs(x: nat, d: nat, q: nat, r: nat)
    requires x == d * q + r && r < d
    ensures x / d == q
  {
    var (k, t) := (x / d, x % d);
    assert x == d * k + t && t < d;
    if k > q {
      Multiples(d, q + 1, k);
    } else if k < q {
      Multiples(d, k + 1, q);
    }
  }

  lemma DivideTwice(x: nat, p: nat)
    requires p > 0
    ensures x / (256 * p) == x / 256 / p
  {
    var (y, r) := (x / 256, x % 256);
    var (q, t) := (y / p, y % p);
    assert y == p * q + t && t < p;
    assert x == (256 * p) * q + (256 * t + r) by {
      assert 256 * (p * q) == (256 * p) * q;
    }
    QuotientIs(x, 256 * p, q, 256 * t + r);
  }

  /** Byte i of a big-endian image is the digit of x to base 256 that i names from the most significant end. */
  lemma {:induction false} BigEndianDigits(w: nat, x: nat)
    ensures forall i :: 0 <= i < w ==> BigEndian(w, x)[i] == x / Pow256(w - 1 - i) % 256
  {
    forall i | 0 <= i < w ensures BigEndian(w, x)[i] == x / Pow256(w - 1 - i) % 256 {
      if i < w - 1 {
        BigEndianDigits(w - 1, x / 256);
        DivideTwice(x, Pow256(w - 2 - i));
      }
    }
  }

  /** s spells x in w digits to base 256: from the least significant one in a little-endian host's own order only. */
  predicate Spells(o: Order, w: nat, x: nat, s: seq<byte>) {
    |s| == w &&
    forall i :: 0 <= i < w ==>
      s[i] == x / Pow256(if !o.network && o.littleEndian then i else w - 1 - i) % 256
  }

  lemma {:induction false} EitherWay(o: Order, w: nat, x: nat)
    ensures NumBytes(o, w, x) == if !o.network && o.littleEndian then Reverse(BigEndian(w, x)) else BigEndian(w, x)
  {
    hide BigEndian, Reverse;
    ReverseTwice(BigEndian(w, x));
    if w <= 1 {
      ReverseShort(BigEndian(w, x));
    }
  }

  /** What Serialize writes for a numeric, digit by digit, on either host. */
  lemma NumBytesSpell(o: Order, w: nat, x: nat)
    ensures Spells(o, w, x, NumBytes(o, w, x))
  {
    BigEndianDigits(w, x);
    EitherWay(o, w, x);
    hide BigEndian, Pow256, NumBytes, Reverse;
  }

  /** A 32-bit number in network order. */
  lemma FourBytes(littleEndian: bool, x: nat)
    requires x < 0x1_0000_0000
    ensures NumBytes(Order(true, littleEndian), 4, x)
            == [x / 0x100_0000, x / 0x1_0000 % 0x100, x / 0x100 % 0x100, x % 0x100]
  {
    NumBytesSpell(Order(true, littleEndian), 4, x);
    assert Pow256(0) == 1 && Pow256(1) == 0x100 && Pow256(2) == 0x1_0000 && Pow256(3) == 0x100_0000;
  }

  lemma {:induction false} FromBigEndianBounded(s: seq<byte>)
    ensures FromBigEndian(s) < Pow256(|s|)
  {
    if s != [] {
      FromBigEndianBounded(s[..|s| - 1]);
    }
  }

  /** Whatever the bytes, what is read from them fits in as many bytes. */
  lemma {:induction false} NumValueBounded(o: Order, s: seq<byte>)
    ensures NumValue(o, s) < Pow256(|s|)
  {
    var swap := |s| > 1 && (if o.network then o.littleEndian else !o.littleEndian);
    var t := if swap then Reverse(s) else s;
    FromBigEndianBounded(if o.littleEndian then Reverse(t) else t);
  }

  lemma {:induction false} ReverseTwice<T>(s: seq<T>)
    ensures Reverse(Reverse(s)) == s
  {}

  lemma {:induction false} ReverseShort<T>(s: seq<T>)
    requires |s| <= 1
    ensures Reverse(s) == s
  {}

  lemma ByteImage(o: Order, x: nat)
    requires x < Pow256(1)
    ensures Pow256(1) == 256 && NumBytes(o, 1, x) == [x]
  {
    assert Pow256(1) == 256 * Pow256(0);
    assert BigEndian(1, x) == BigEndian(0, x / 256) + [x % 256] == [x];
    ReverseShort(BigEndian(1, x));
  }

  lemma {:induction false} NumRoundTrip(o: Order, w: nat, x: nat)
    requires Agrees(o) || w <= 1
    requires x < Pow256(w)
    ensures NumValue(o, NumBytes(o, w, x)) == x
  {
    BigEndianRoundTrip(w, x);
    ReverseTwice(BigEndian(w, x));
    ReverseTwice(Image(o.littleEndian, w, x));
    if w <= 1 {
      ReverseShort(BigEndian(w, x));
    }
  }

  lemma {:induction false} BigEndianOfOne(w: nat)
    requires w > 0
    ensures BigEndian(w, 1)[w - 1] == 1
    ensures forall i :: 0 <= i < w - 1 ==> BigEndian(w, 1)[i] == 0
  {
    BigEndianOfZero(w - 1);
  }

  lemma {:induction false} BigEndianOfZero(w: nat)
    ensures forall i :: 0 <= i < w ==> BigEndian(w, 0)[i] == 0
  {
    if w > 0 {
      BigEndianOfZero(w - 1);
    }
  }

  lemma {:induction false} FromBigEndianAtLeast(s: seq<byte>)
    requires |s| > 0 && s[0] > 0
    ensures FromBigEndian(s) >= Pow256(|s| - 1)
  {
    if |s| > 1 {
      FromBigEndianAtLeast(s[..|s| - 1]);
    }
  }

  /** Exactly which orders round trip: native order on a big-endian host does not, from two bytes up. */
  lemma {:induction false} NumRoundTripExactly(o: Order, w: nat)
    requires w > 0
    ensures (forall x: nat :: x < Pow256(w) ==> NumValue(o, NumBytes(o, w, x)) == x)
            <==> Agrees(o) || w == 1
  {
    if Agrees(o) || w == 1 {
      forall x: nat | x < Pow256(w) ensures NumValue(o, NumBytes(o, w, x)) == x {
        NumRoundTrip(o, w, x);
      }
    } else {
      BigEndianOfOne(w);
      var s := Reverse(BigEndian(w, 1));
      FromBigEndianAtLeast(s);
      assert Pow256(w - 1) == 256 * Pow256(w - 2);
      assert NumValue(o, NumBytes(o, w, 1)) != 1;
      assert 1 < Pow256(w);
    }
  }
}
