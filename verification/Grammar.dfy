/**
 * The byte grammar the reader accepts, without its counters, levels and memos, and the proof that a reader between two
 * values follows it: on bytes that encode nothing too.
 */
module Grammar {
  import opened Bytes
  import opened Codec
  import opened Reader
  import opened OneShot
  import opened PrefixFree

  /** The value at the start of a string, or why there is none; used counts the bytes of whole numeric fields. */
  datatype Parsed = Parsed(code: EC, v: Val, used: nat)

  function ParseNum(o: Order, w: nat, s: seq<byte>): (p: Parsed)
    ensures p.used <= |s|
  {
    if |s| < w then Parsed(BufferSizeLesser, VNone, 0) else Parsed(Ok, VNum(NumValue(o, s[..w])), w)
  }

  function Parse(o: Order, ty: Ty, s: seq<byte>): (p: Parsed)
    requires WellFormed(ty)
    ensures p.used <= |s| && !p.code.Aborted?
    decreases ty, 1
  {
    match ty
    case Num(w) => ParseNum(o, w, s)
    case Time => ParseNum(o, 8, s)
    case Opt(_, t) =>
      var flag := ParseNum(o, 1, s);
      if !flag.code.Ok? then flag
      else if flag.v.raw == 0 then Parsed(Ok, VNone, 1)
      else
        var p := Parse(o, t, s[1..]);
        Parsed(p.code, VSome(p.v), 1 + p.used)
    case Range(_, t) =>
      var count := ParseNum(o, 8, s);
      if !count.code.Ok? then count
      else
        var p := ParseItems(o, t, count.v.raw, s[8..]);
        Parsed(p.code, p.v, 8 + p.used)
    case Array(t, n) => ParseItems(o, t, n, s)
    case Struct(fs, _) => ParseFields(o, fs, s)
    case Variant(alts) =>
      var index := ParseNum(o, 8, s);
      if !index.code.Ok? then index
      else if index.v.raw >= |alts| then Parsed(UnmatchedType, VNone, 8)
      else
        var p := Parse(o, alts[index.v.raw], s[8..]);
        Parsed(p.code, VAlt(index.v.raw, p.v), 8 + p.used)
  }

  function ParseItems(o: Order, t: Ty, n: nat, s: seq<byte>): (p: Parsed)
    requires WellFormed(t)
    ensures p.used <= |s| && p.v.VList? && !p.code.Aborted?
    decreases t, 2, n
  {
    if n == 0 then Parsed(Ok, VList([]), 0)
    else
      var first := Parse(o, t, s);
      if !first.code.Ok? then Parsed(first.code, VList([]), first.used)
      else
        var rest := ParseItems(o, t, n - 1, s[first.used..]);
        Parsed(rest.code, VList([first.v] + rest.v.vs), first.used + rest.used)
  }

  function ParseFields(o: Order, fs: seq<Ty>, s: seq<byte>): (p: Parsed)
    requires forall i :: 0 <= i < |fs| ==> WellFormed(fs[i])
    ensures p.used <= |s| && p.v.VList? && !p.code.Aborted?
    decreases fs, 0
  {
    if fs == [] then Parsed(Ok, VList([]), 0)
    else
      var first := Parse(o, fs[0], s);
      if !first.code.Ok? then Parsed(first.code, VList([]), first.used)
      else
        var rest := ParseFields(o, fs[1..], s[first.used..]);
        Parsed(rest.code, VList([first.v] + rest.v.vs), first.used + rest.used)
  }

  // What is parsed is a value of the type, and as long as its encoding

  lemma {:induction false} ParsedIsTyped(o: Order, ty: Ty, s: seq<byte>)
    requires WellFormed(ty)
    ensures var p := Parse(o, ty, s);
            p.code.Ok? ==> HasType(ty, p.v) && |Encode(o, ty, p.v)| == p.used
    decreases ty, 1
  {
    hide NumBytes, NumValue;
    match ty
    case Num(w) => NumIsTyped(o, w, s);
    case Time => NumIsTyped(o, 8, s);
    case Opt(_, t) => if s != [] { ParsedIsTyped(o, t, s[1..]); }
    case Range(_, t) =>
      if |s| >= 8 {
        NumIsTyped(o, 8, s);
        SmallNumbers();
        ItemsAreTyped(o, t, NumValue(o, s[..8]), s[8..]);
      }
    case Array(t, n) => ItemsAreTyped(o, t, n, s);
    case Struct(fs, _) => FieldsAreTyped(o, fs, s);
    case Variant(alts) =>
      if |s| >= 8 && NumValue(o, s[..8]) < |alts| {
        ParsedIsTyped(o, alts[NumValue(o, s[..8])], s[8..]);
      }
  }

  lemma {:induction false} NumIsTyped(o: Order, w: nat, s: seq<byte>)
    ensures |s| >= w ==> NumValue(o, s[..w]) < Pow256(w)
  {
    if |s| >= w {
      NumValueBounded(o, s[..w]);
    }
  }

  lemma {:induction false} ItemsAreTyped(o: Order, t: Ty, n: nat, s: seq<byte>)
    requires WellFormed(t)
    ensures var p := ParseItems(o, t, n, s);
            p.code.Ok? ==>
              |p.v.vs| == n && (forall i :: 0 <= i < n ==> HasType(t, p.v.vs[i])) &&
              |EncodeItems(o, t, p.v.vs)| == p.used
    decreases t, 2, n
  {
    hide HasType, Encode, Parse, WellFormed;
    if n > 0 {
      var first := Parse(o, t, s);
      ParsedIsTyped(o, t, s);
      if first.code.Ok? {
        ItemsAreTyped(o, t, n - 1, s[first.used..]);
      }
    }
  }

  lemma {:induction false} FieldsAreTyped(o: Order, fs: seq<Ty>, s: seq<byte>)
    requires forall i :: 0 <= i < |fs| ==> WellFormed(fs[i])
    ensures var p := ParseFields(o, fs, s);
            p.code.Ok? ==>
              |p.v.vs| == |fs| && (forall i :: 0 <= i < |fs| ==> HasType(fs[i], p.v.vs[i])) &&
              |EncodeFields(o, fs, p.v.vs)| == p.used
    decreases fs, 0
  {
    hide HasType, Encode, Parse, WellFormed;
    if fs != [] {
      var first := Parse(o, fs[0], s);
      ParsedIsTyped(o, fs[0], s);
      if first.code.Ok? {
        FieldsAreTyped(o, fs[1..], s[first.used..]);
      }
    }
  }

  // An answer other than BUFFER_SIZE_LESSER is final

  lemma MoreBytes(s: seq<byte>, more: seq<byte>, k: nat)
    requires k <= |s|
    ensures (s + more)[k..] == s[k..] + more && (s + more)[..k] == s[..k]
  {}

  lemma {:induction false} ParsedIsFinal(o: Order, ty: Ty, s: seq<byte>, more: seq<byte>)
    requires WellFormed(ty) && !Parse(o, ty, s).code.BufferSizeLesser?
    ensures Parse(o, ty, s + more) == Parse(o, ty, s)
    decreases ty, 1
  {
    hide NumValue;
    match ty
    case Num(w) => MoreBytes(s, more, w);
    case Time => MoreBytes(s, more, 8);
    case Opt(_, t) =>
      MoreBytes(s, more, 1);
      if ParseNum(o, 1, s).v.raw != 0 {
        ParsedIsFinal(o, t, s[1..], more);
      }
    case Range(_, t) =>
      MoreBytes(s, more, 8);
      ItemsAreFinal(o, t, NumValue(o, s[..8]), s[8..], more);
    case Array(t, n) => ItemsAreFinal(o, t, n, s, more);
    case Struct(fs, _) => FieldsAreFinal(o, fs, s, more);
    case Variant(alts) =>
      MoreBytes(s, more, 8);
      if NumValue(o, s[..8]) < |alts| {
        ParsedIsFinal(o, alts[NumValue(o, s[..8])], s[8..], more);
      }
  }

  lemma {:induction false} ItemsAreFinal(o: Order, t: Ty, n: nat, s: seq<byte>, more: seq<byte>)
    requires WellFormed(t) && !ParseItems(o, t, n, s).code.BufferSizeLesser?
    ensures ParseItems(o, t, n, s + more) == ParseItems(o, t, n, s)
    decreases t, 2, n
  {
    hide Parse, WellFormed;
    if n > 0 {
      var first := Parse(o, t, s);
      ParsedIsFinal(o, t, s, more);
      if first.code.Ok? {
        MoreBytes(s, more, first.used);
        ItemsAreFinal(o, t, n - 1, s[first.used..], more);
      }
    }
  }

  lemma {:induction false} FieldsAreFinal(o: Order, fs: seq<Ty>, s: seq<byte>, more: seq<byte>)
    requires forall i :: 0 <= i < |fs| ==> WellFormed(fs[i])
    requires !ParseFields(o, fs, s).code.BufferSizeLesser?
    ensures ParseFields(o, fs, s + more) == ParseFields(o, fs, s)
    decreases fs, 0
  {
    hide Parse, WellFormed;
    if fs != [] {
      var first := Parse(o, fs[0], s);
      ParsedIsFinal(o, fs[0], s, more);
      if first.code.Ok? {
        MoreBytes(s, more, first.used);
        FieldsAreFinal(o, fs[1..], s[first.used..], more);
      }
    }
  }

  // BUFFER_SIZE_LESSER is only ever said where more bytes would help

  function Zeros(n: nat): (s: seq<byte>)
    ensures |s| == n
  {
    seq(n, i => 0)
  }

  /** Bytes after which the answer is no longer BUFFER_SIZE_LESSER. */
  lemma {:induction false} Completion(o: Order, ty: Ty, s: seq<byte>) returns (more: seq<byte>)
    requires WellFormed(ty)
    ensures !Parse(o, ty, s + more).code.BufferSizeLesser?
    decreases ty, 1
  {
    hide NumValue;
    var head := Zeros(16);
    var s1 := s + head;
    match ty
    case Num(_) => more := head;
    case Time => more := head;
    case Opt(_, t) =>
      var rest := Completion(o, t, s1[1..]);
      MoreBytes(s1, rest, 1);
      more := head + rest;
      assert s + more == s1 + rest;
    case Range(_, t) =>
      var rest := ItemsCompletion(o, t, NumValue(o, s1[..8]), s1[8..]);
      MoreBytes(s1, rest, 8);
      more := head + rest;
      assert s + more == s1 + rest;
    case Array(t, n) => more := ItemsCompletion(o, t, n, s);
    case Struct(fs, _) => more := FieldsCompletion(o, fs, s);
    case Variant(alts) =>
      var index := NumValue(o, s1[..8]);
      var rest := [];
      if index < |alts| {
        rest := Completion(o, alts[index], s1[8..]);
      }
      MoreBytes(s1, rest, 8);
      more := head + rest;
      assert s + more == s1 + rest;
  }

  lemma {:induction false} ItemsCompletion(o: Order, t: Ty, n: nat, s: seq<byte>) returns (more: seq<byte>)
    requires WellFormed(t)
    ensures !ParseItems(o, t, n, s + more).code.BufferSizeLesser?
    decreases t, 2, n
  {
    hide Parse, WellFormed;
    more := [];
    if n > 0 {
      var head := Completion(o, t, s);
      var s1 := s + head;
      var first := Parse(o, t, s1);
      var rest := [];
      if first.code.Ok? {
        rest := ItemsCompletion(o, t, n - 1, s1[first.used..]);
      }
      ParsedIsFinal(o, t, s1, rest);
      MoreBytes(s1, rest, first.used);
      more := head + rest;
      assert s + more == s1 + rest;
    }
  }

  lemma {:induction false} FieldsCompletion(o: Order, fs: seq<Ty>, s: seq<byte>) returns (more: seq<byte>)
    requires forall i :: 0 <= i < |fs| ==> WellFormed(fs[i])
    ensures !ParseFields(o, fs, s + more).code.BufferSizeLesser?
    decreases fs, 0
  {
    hide Parse, WellFormed;
    more := [];
    if fs != [] {
      var head := Completion(o, fs[0], s);
      var s1 := s + head;
      var first := Parse(o, fs[0], s1);
      var rest := [];
      if first.code.Ok? {
        rest := FieldsCompletion(o, fs[1..], s1[first.used..]);
      }
      ParsedIsFinal(o, fs[0], s1, rest);
      MoreBytes(s1, rest, first.used);
      more := head + rest;
      assert s + more == s1 + rest;
    }
  }
}
