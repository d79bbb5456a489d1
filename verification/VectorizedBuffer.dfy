/** VectorizedBuffer: owned byte buffers and the iovecs into them, refining a byte stream sent in arbitrary pieces. */
module VectorizedBufferClass {
  /** An iovec: `buf` tells which pushed buffer its base points into, counted over the object's whole life. */
  datatype Slice = Slice(buf: nat, start: nat, len: nat)

  /** active_el_ is a uint32_t. */
  const INDEX_LIMIT: nat := 0x1_0000_0000

  /** v is a non-empty stretch of a buffer that is still owned; `dropped` buffers were released before. */
  predicate InBuffer<B>(bufs: seq<seq<B>>, dropped: nat, v: Slice) {
    dropped <= v.buf < dropped + |bufs| && v.len > 0 && v.start + v.len <= |bufs[v.buf - dropped]|
  }

  function BytesOf<B>(bufs: seq<seq<B>>, dropped: nat, v: Slice): (s: seq<B>)
    ensures InBuffer(bufs, dropped, v) ==> |s| == v.len
  {
    if InBuffer(bufs, dropped, v) then bufs[v.buf - dropped][v.start..v.start + v.len] else []
  }

  /** What a vectored write of these slices sends. */
  function Gather<B>(bufs: seq<seq<B>>, dropped: nat, vs: seq<Slice>): (s: seq<B>) {
    if vs == [] then [] else BytesOf(bufs, dropped, vs[0]) + Gather(bufs, dropped, vs[1..])
  }

  lemma Assoc<B>(a: seq<B>, b: seq<B>, c: seq<B>)
    ensures a + (b + c) == (a + b) + c
  {}

  lemma {:induction false} GatherFirst<B>(bufs: seq<seq<B>>, dropped: nat, v: Slice, vs: seq<Slice>)
    ensures Gather(bufs, dropped, [v] + vs) == BytesOf(bufs, dropped, v) + Gather(bufs, dropped, vs)
  {
    assert ([v] + vs)[1..] == vs;
  }

  lemma {:induction false} GatherAppend<B>(bufs: seq<seq<B>>, dropped: nat, vs: seq<Slice>, ws: seq<Slice>)
    ensures Gather(bufs, dropped, vs + ws) == Gather(bufs, dropped, vs) + Gather(bufs, dropped, ws)
  {
    hide BytesOf;
    if vs == [] {
      assert vs + ws == ws;
    } else {
      GatherAppend(bufs, dropped, vs[1..], ws);
      assert (vs + ws)[0] == vs[0] && (vs + ws)[1..] == vs[1..] + ws;
      Assoc(BytesOf(bufs, dropped, vs[0]), Gather(bufs, dropped, vs[1..]), Gather(bufs, dropped, ws));
    }
  }

  predicate SameBytes<B(==)>(bufs: seq<seq<B>>, d: nat, bufs': seq<seq<B>>, d': nat, v: Slice) {
    BytesOf(bufs, d, v) == BytesOf(bufs', d', v)
  }

  /** Slices read the same bytes from any two deques that agree on the buffers they point into. */
  lemma {:induction false} GatherSame<B>(bufs: seq<seq<B>>, d: nat, bufs': seq<seq<B>>, d': nat, vs: seq<Slice>)
    requires forall i :: 0 <= i < |vs| ==> SameBytes(bufs, d, bufs', d', vs[i])
    ensures Gather(bufs, d, vs) == Gather(bufs', d', vs)
  {
    hide BytesOf;
    if vs != [] {
      assert SameBytes(bufs, d, bufs', d', vs[0]);
      GatherSame(bufs, d, bufs', d', vs[1..]);
    }
  }

  /** A new buffer at the end, with a slice for all of it, adds its bytes and disturbs no other slice. */
  lemma {:induction false} Pushed<B>(bufs: seq<seq<B>>, dropped: nat, range: seq<B>, vs: seq<Slice>)
    requires range != [] && forall i :: 0 <= i < |vs| ==> InBuffer(bufs, dropped, vs[i])
    ensures var v := Slice(dropped + |bufs|, 0, |range|);
            InBuffer(bufs + [range], dropped, v) &&
            Gather(bufs + [range], dropped, vs + [v]) == Gather(bufs, dropped, vs) + range
  {
    var (v, bufs') := (Slice(dropped + |bufs|, 0, |range|), bufs + [range]);
    GatherSame(bufs, dropped, bufs', dropped, vs);
    GatherAppend(bufs', dropped, vs, [v]);
    assert Gather(bufs', dropped, [v]) == BytesOf(bufs', dropped, v) + Gather(bufs', dropped, []);
  }

  /** Releasing buffers in front disturbs no slice behind them. */
  lemma Released<B>(bufs: seq<seq<B>>, dropped: nat, k: nat, vs: seq<Slice>)
    requires k <= |bufs| && forall i :: 0 <= i < |vs| ==> InBuffer(bufs, dropped, vs[i]) && vs[i].buf >= dropped + k
    ensures forall i :: 0 <= i < |vs| ==> InBuffer(bufs[k..], dropped + k, vs[i])
    ensures Gather(bufs[k..], dropped + k, vs) == Gather(bufs, dropped, vs)
  {
    forall i | 0 <= i < |vs|
      ensures InBuffer(bufs[k..], dropped + k, vs[i]) && SameBytes(bufs, dropped, bufs[k..], dropped + k, vs[i])
    {
      assert bufs[k..][vs[i].buf - (dropped + k)] == bufs[vs[i].buf - dropped];
    }
    hide InBuffer, SameBytes, BytesOf;
    GatherSame(bufs, dropped, bufs[k..], dropped + k, vs);
  }

  class VectorizedBuffer<B> {
    var vbuf: seq<Slice>
    var bufs: seq<seq<B>>
    var active: nat
    var dropped: nat  // released buffers: gives every buffer an address that outlives erasures before it
    ghost var pushed: seq<B>
    ghost var sent: seq<B>

    /** The two lists run in parallel, and no slice is empty or outside its buffer. */
    ghost predicate Valid()
      reads this
    {
      |vbuf| == |bufs| && active <= |vbuf| && active < INDEX_LIMIT &&
      forall i :: 0 <= i < |vbuf| ==> vbuf[i].buf == dropped + i && InBuffer(bufs, dropped, vbuf[i])
    }

    ghost function Pending(): seq<B>
      reads this
    {
      if active <= |vbuf| then Gather(bufs, dropped, vbuf[active..]) else []
    }

    /** Every byte pushed was sent or is pending, once and in order. */
    ghost predicate Conserved()
      reads this
    {
      sent + Pending() == pushed
    }

    constructor ()
      ensures Valid() && Conserved() && Pending() == [] && pushed == []
    {
      vbuf, bufs, active, dropped, pushed, sent := [], [], 0, 0, [], [];
    }

    method PushBuffer(range: seq<B>)
      requires Valid()
      modifies this
      ensures Valid() && Pending() == old(Pending()) + range
      ensures pushed == old(pushed) + range && sent == old(sent) && (old(Conserved()) ==> Conserved())
    {
      hide Gather, BytesOf;
      if range != [] {
        ghost var (bs, vs, v) := (bufs, vbuf[active..], Slice(dropped + |bufs|, 0, |range|));
        vbuf := vbuf + [Slice(dropped + |bufs|, 0, |range|)];
        bufs := bufs + [range];
        Pushed(bs, dropped, range, vs);
        assert vbuf[active..] == vs + [v];
      }
      pushed := pushed + range;
    }

    /** One turn of the loop of consume that finishes the active slice. */
    lemma FirstPending()
      requires Valid() && active < |vbuf|
      ensures Pending() == BytesOf(bufs, dropped, vbuf[active]) + Gather(bufs, dropped, vbuf[active + 1..])
      ensures |BytesOf(bufs, dropped, vbuf[active])| == vbuf[active].len > 0
    {
      assert vbuf[active..][1..] == vbuf[active + 1..];
    }

    /** A slice with its first k bytes taken off. */
    lemma Shortened(k: nat)
      requires Valid() && active < |vbuf| && k < vbuf[active].len
      ensures var v := vbuf[active];
              var w := Slice(v.buf, v.start + k, v.len - k);
              InBuffer(bufs, dropped, w) &&
              Gather(bufs, dropped, vbuf[active := w][active..]) == Pending()[k..]
    {
      hide Gather;
      var v := vbuf[active];
      var w := Slice(v.buf, v.start + k, v.len - k);
      FirstPending();
      assert vbuf[active := w][active..] == [w] + vbuf[active + 1..];
      GatherFirst(bufs, dropped, w, vbuf[active + 1..]);
      assert BytesOf(bufs, dropped, w) == BytesOf(bufs, dropped, v)[k..];
    }

    /** One turn of the loop of consume: finish the active slice, or cut it short. */
    method Turn(left: nat) returns (rest: nat)
      requires Valid() && left > 0 && active < |vbuf|
      modifies this`vbuf, this`active
      ensures Valid() && rest < left && |vbuf| == |old(vbuf)|
      ensures |vbuf| < INDEX_LIMIT ==> left - rest <= |old(Pending())| && Pending() == old(Pending())[left - rest..]
    {
      hide Gather, BytesOf, InBuffer;
      FirstPending();
      var current := vbuf[active];
      if left >= current.len {
        active := (active + 1) % INDEX_LIMIT;
        return left - current.len;
      }
      Shortened(left);
      vbuf := vbuf[active := Slice(current.buf, current.start + left, current.len - left)];
      return 0;
    }

    static lemma DropTwice(all: seq<B>, m: nat, n: nat)
      requires m + n <= |all|
      ensures all[m..][n..] == all[m + n..]
    {}

    static lemma SentSoFar(before: seq<B>, all: seq<B>, k: nat, total: seq<B>)
      requires k <= |all|
      ensures before + all == total ==> (before + all[..k]) + all[k..] == total
    {
      assert all[..k] + all[k..] == all;
    }

    lemma EmptyGather()
      ensures Gather(bufs, dropped, []) == []
    {}

    lemma AtEnd()
      requires Valid()
      ensures Pending() == [] <==> active == |vbuf|
    {
      if active < |vbuf| {
        FirstPending();
      }
    }

    /** The loop of consume: it ends with nothing left to take off, or with nothing pending. */
    method TakeOff(bytesSent: nat) returns (left: nat)
      requires Valid()
      modifies this`vbuf, this`active
      ensures Valid() && left <= bytesSent && |vbuf| == |old(vbuf)| && (left > 0 ==> active >= |vbuf|)
      ensures |vbuf| < INDEX_LIMIT ==>
                bytesSent - left <= |old(Pending())| && Pending() == old(Pending())[bytesSent - left..]
    {
      hide Gather, BytesOf, InBuffer;
      ghost var all := Pending();
      left := bytesSent;
      while left > 0 && active < |vbuf|
        invariant Valid() && left <= bytesSent && |vbuf| == |old(vbuf)|
        invariant |vbuf| < INDEX_LIMIT ==> bytesSent - left <= |all| && Pending() == all[bytesSent - left..]
      {
        ghost var before := left;
        left := Turn(left);
        if |vbuf| < INDEX_LIMIT {
          DropTwice(all, bytesSent - before, before - left);
        }
      }
    }

    /** consume: the first bytesSent pending bytes are gone; with 2^32 slices or more active_el_ may wrap. */
    method Consume(bytesSent: nat)
      requires Valid()
      modifies this`vbuf, this`active, this`sent
      ensures Valid() && |vbuf| == |old(vbuf)|
      ensures |vbuf| < INDEX_LIMIT ==>
                var k := if bytesSent < |old(Pending())| then bytesSent else |old(Pending())|;
                Pending() == old(Pending())[k..] && sent == old(sent) + old(Pending())[..k] &&
                (old(Conserved()) ==> Conserved())
    {
      hide Gather, BytesOf, InBuffer;
      ghost var all := Pending();
      var left := TakeOff(bytesSent);
      AtEnd();
      ghost var k := bytesSent - left;
      if k <= |all| {
        assert |all[k..]| == |all| - k;
        sent := sent + all[..k];
        SentSoFar(old(sent), all, k, pushed);
      }
    }

    /** compact: the finished prefix is released from both lists, and no pending byte changes. */
    method Compact()
      requires Valid()
      modifies this`vbuf, this`bufs, this`active, this`dropped
      ensures Valid() && active == 0 && Pending() == old(Pending()) && (old(Conserved()) ==> Conserved())
      ensures bufs == old(bufs)[old(active)..] && vbuf == old(vbuf)[old(active)..]
    {
      hide Gather, BytesOf;
      if active > 0 {
        Released(bufs, dropped, active, vbuf[active..]);
        vbuf, bufs, dropped := vbuf[active..], bufs[active..], dropped + active;
        active := 0;
        assert vbuf[0..] == vbuf;
      }
    }

    method HasToWrite() returns (r: bool)
      requires Valid()
      ensures r <==> Pending() != []
    {
      AtEnd();
      r := active < |vbuf|;
    }

    /** remaining: the iovec array to hand to a vectored write, by its first index and length. */
    method Remaining() returns (first: nat, count: nat)
      requires Valid()
      ensures first + count <= |vbuf| && Gather(bufs, dropped, vbuf[first..first + count]) == Pending()
      ensures forall i :: first <= i < first + count ==> vbuf[i].len > 0
      ensures count == 0 <==> Pending() == []
    {
      hide Gather, BytesOf;
      AtEnd();
      EmptyGather();
      if active >= |vbuf| {
        return 0, 0;
      }
      first, count := active, |bufs| - active;
      assert vbuf[first..first + count] == vbuf[active..];
    }

    /** clear_buffer forgets what is pending. */
    method ClearBuffer()
      requires Valid()
      modifies this
      ensures Valid() && Conserved() && Pending() == [] && sent == old(sent) && bufs == []
    {
      dropped := dropped + |bufs|;
      vbuf, bufs, active, pushed := [], [], 0, sent;
      assert vbuf[0..] == [];
    }
  }
}
