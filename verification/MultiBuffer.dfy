/** MultiBufferView: a cursor over a deque of byte views, refining one flat byte string with a position. */
module MultiBuffer {
  import opened Bytes

  function Flatten(views: seq<seq<byte>>): (s: seq<byte>) {
    if views == [] then [] else views[0] + Flatten(views[1..])
  }

  lemma {:induction false} NoViews(views: seq<seq<byte>>)
    requires views == []
    ensures Flatten(views) == []
  {}

  lemma {:induction false} FirstView(views: seq<seq<byte>>)
    requires views != []
    ensures Flatten(views) == views[0] + Flatten(views[1..])
  {}

  lemma {:induction false} FlattenSplit(views: seq<seq<byte>>, k: nat)
    requires k <= |views|
    ensures Flatten(views) == Flatten(views[..k]) + Flatten(views[k..])
  {
    hide Flatten;
    if k == 0 {
      assert views[..0] == [] && views[0..] == views;
      NoViews(views[..0]);
    } else {
      FlattenSplit(views[1..], k - 1);
      assert views[..k][1..] == views[1..][..k - 1] && views[1..][k - 1..] == views[k..] && views[..k][0] == views[0];
      FirstView(views);
      FirstView(views[..k]);
    }
  }

  /** A cursor (span index, offset) that points into the views or just past the last one. */
  predicate InViews(views: seq<seq<byte>>, idx: nat, offset: nat) {
    idx <= |views| && if idx < |views| then offset <= |views[idx]| else offset == 0
  }

  function PositionOf(views: seq<seq<byte>>, idx: nat, offset: nat): (n: nat)
    requires InViews(views, idx, offset)
  {
    |Flatten(views[..idx])| + offset
  }

  /** What lies behind the cursor is a prefix of the flat string of that length. */
  lemma {:induction false} PositionBounded(views: seq<seq<byte>>, idx: nat, offset: nat)
    requires InViews(views, idx, offset)
    ensures PositionOf(views, idx, offset) <= |Flatten(views)|
    ensures idx < |views| ==> Flatten(views[idx..]) == views[idx] + Flatten(views[idx + 1..])
    ensures Flatten(views)[PositionOf(views, idx, offset)..] == Flatten(views[idx..])[offset..]
  {
    FlattenSplit(views, idx);
    if idx < |views| {
      assert views[idx..][1..] == views[idx + 1..];
    }
  }

  lemma PositionAfter(views: seq<seq<byte>>, idx: nat)
    requires idx < |views|
    ensures Flatten(views[..idx + 1]) == Flatten(views[..idx]) + views[idx]
  {
    FlattenSplit(views[..idx + 1], idx);
    assert views[..idx + 1][..idx] == views[..idx] && views[..idx + 1][idx..] == [views[idx]];
    assert Flatten([views[idx]]) == views[idx] + Flatten([]);
  }

  lemma {:induction false} FlattenPush(views: seq<seq<byte>>, v: seq<byte>)
    ensures Flatten(views + [v]) == Flatten(views) + v
  {
    PositionAfter(views + [v], |views|);
    assert (views + [v])[..|views| + 1] == views + [v] && (views + [v])[..|views|] == views;
  }

  lemma SameLast(a: seq<(nat, nat)>, x: (nat, nat), b: seq<(nat, nat)>, y: (nat, nat))
    requires a + [x] == b + [y]
    ensures a == b && x == y
  {
    assert (a + [x])[|a|] == x && (b + [y])[|b|] == y;
    assert a == (a + [x])[..|a|] && b == (b + [y])[..|b|];
  }

  lemma DropTwice(s: seq<byte>, m: nat, n: nat)
    requires m + n <= |s|
    ensures s[m..][n..] == s[m + n..] && s[..m] + s[m..][..n] == s[..m + n]
  {}

  /** Cutting the front view is cutting the flat string. */
  lemma {:induction false} FrontCut(views: seq<seq<byte>>, offset: nat)
    requires views != [] && offset <= |views[0]|
    ensures Flatten([views[0][offset..]] + views[1..]) == Flatten(views)[offset..]
  {
    var cut := [views[0][offset..]] + views[1..];
    assert cut[0] == views[0][offset..] && cut[1..] == views[1..];
    assert Flatten(cut) == views[0][offset..] + Flatten(views[1..]);
    assert Flatten(views) == views[0] + Flatten(views[1..]);
  }

  class MultiBufferView {
    var buffers: seq<seq<byte>>
    var spanIdx: nat
    var offset: nat
    var checkpoints: seq<(nat, nat)>

    ghost predicate Valid()
      reads this
    {
      InViews(buffers, spanIdx, offset)
    }

    /** Every saved cursor still points into the views. */
    ghost predicate CheckpointsValid()
      reads this
    {
      forall i :: 0 <= i < |checkpoints| ==> InViews(buffers, checkpoints[i].0, checkpoints[i].1)
    }

    ghost function Content(): seq<byte>
      reads this
    {
      Flatten(buffers)
    }

    ghost function Pos(): nat
      reads this
      requires Valid()
    {
      PositionOf(buffers, spanIdx, offset)
    }

    ghost function Unread(): (s: seq<byte>)
      reads this
      requires Valid()
    {
      PositionBounded(buffers, spanIdx, offset);
      Content()[Pos()..]
    }

    constructor (views: seq<seq<byte>>)
      ensures Valid() && CheckpointsValid() && buffers == views && Pos() == 0 && checkpoints == []
    {
      buffers := views;
      spanIdx, offset, checkpoints := 0, 0, [];
    }

    method Available() returns (total: nat)
      requires Valid()
      ensures total == |Unread()|
    {
      PositionBounded(buffers, spanIdx, offset);
      total := 0;
      var i := spanIdx;
      while i < |buffers|
        invariant spanIdx <= i <= |buffers|
        invariant total + |Flatten(buffers[i..])| == |Flatten(buffers[spanIdx..])|
      {
        assert buffers[i..][1..] == buffers[i + 1..];
        total := total + |buffers[i]|;
        i := i + 1;
      }
      assert buffers[i..] == [];
      total := total - offset;
    }

    method Position() returns (pos: nat)
      requires Valid()
      ensures pos == Pos() && pos + |Unread()| == |Content()|
    {
      pos := 0;
      for i := 0 to spanIdx
        invariant pos == |Flatten(buffers[..i])|
      {
        PositionAfter(buffers, i);
        pos := pos + |buffers[i]|;
      }
      pos := pos + offset;
      PositionBounded(buffers, spanIdx, offset);
    }

    /** One turn of the copy loop: take k bytes of the current view and step over it when it is used up. */
    method Take(k: nat)
      requires Valid() && spanIdx < |buffers| && offset + k <= |buffers[spanIdx]|
      modifies this`spanIdx, this`offset
      ensures Valid() && Pos() == old(Pos()) + k
      ensures k <= |old(Unread())| && Unread() == old(Unread())[k..]
      ensures old(Unread())[..k] == buffers[old(spanIdx)][old(offset)..old(offset) + k]
      ensures spanIdx >= old(spanIdx)
      ensures old(offset) + k == |buffers[old(spanIdx)]| ==> spanIdx == old(spanIdx) + 1
    {
      PositionBounded(buffers, spanIdx, offset);
      offset := offset + k;
      if offset == |buffers[spanIdx]| {
        PositionAfter(buffers, spanIdx);
        spanIdx := spanIdx + 1;
        offset := 0;
      }
      PositionBounded(buffers, spanIdx, offset);
    }

    lemma NotAtEnd()
      requires Valid() && Unread() != []
      ensures spanIdx < |buffers|
    {
      assert buffers[..|buffers|] == buffers;
    }

    /** read: all n bytes or nothing, across any segmentation. */
    method Read(n: nat) returns (ok: bool, dest: seq<byte>)
      requires Valid()
      modifies this`spanIdx, this`offset
      ensures Valid() && ok == (n <= |old(Unread())|)
      ensures ok ==> dest == old(Unread())[..n] && Unread() == old(Unread())[n..] && Pos() == old(Pos()) + n
      ensures !ok ==> dest == [] && spanIdx == old(spanIdx) && offset == old(offset)
    {
      hide Flatten, PositionOf;
      dest := [];
      var available := Available();
      if available < n {
        return false, [];
      }
      var remaining: nat := n;
      ghost var all := Unread();
      ghost var start := Pos();
      while remaining > 0
        invariant Valid() && remaining <= n <= |all| && Pos() == start + (n - remaining)
        invariant Unread() == all[n - remaining..] && dest == all[..n - remaining]
        decreases remaining, |buffers| - spanIdx
      {
        NotAtEnd();
        var cur := buffers[spanIdx];
        var availInCur := |cur| - offset;
        var toCopy := if remaining < availInCur then remaining else availInCur;
        dest := dest + cur[offset..offset + toCopy];
        ghost var done := n - remaining;
        remaining := remaining - toCopy;
        Take(toCopy);
        DropTwice(all, done, toCopy);
      }
      ok := true;
    }

    method Advance(n: nat) returns (ok: bool)
      requires Valid()
      modifies this`spanIdx, this`offset
      ensures Valid() && ok == (n <= |old(Unread())|)
      ensures ok ==> Unread() == old(Unread())[n..] && Pos() == old(Pos()) + n
      ensures !ok ==> spanIdx == old(spanIdx) && offset == old(offset)
    {
      hide Flatten, PositionOf;
      var available := Available();
      if available < n {
        return false;
      }
      var remaining: nat := n;
      ghost var all := Unread();
      ghost var start := Pos();
      while remaining > 0
        invariant Valid() && remaining <= n <= |all| && Pos() == start + (n - remaining)
        invariant Unread() == all[n - remaining..]
        decreases remaining, |buffers| - spanIdx
      {
        NotAtEnd();
        var availInCur := |buffers[spanIdx]| - offset;
        var toSkip := if remaining < availInCur then remaining else availInCur;
        ghost var done := n - remaining;
        remaining := remaining - toSkip;
        Take(toSkip);
        DropTwice(all, done, toSkip);
      }
      ok := true;
    }

    method Checkpoint()
      requires Valid()
      modifies this`checkpoints
      ensures checkpoints == old(checkpoints) + [(spanIdx, offset)]
      ensures Valid() && (old(CheckpointsValid()) ==> CheckpointsValid())
    {
      checkpoints := checkpoints + [(spanIdx, offset)];
    }

    /** rollback returns to the cursor of the matching checkpoint and forgets it. */
    method Rollback() returns (ok: bool)
      requires Valid()
      modifies this`checkpoints, this`spanIdx, this`offset
      ensures ok == (old(checkpoints) != [])
      ensures old(CheckpointsValid()) ==> Valid() && CheckpointsValid()
      ensures ok ==> old(checkpoints) == checkpoints + [(spanIdx, offset)]
      ensures !ok ==> spanIdx == old(spanIdx) && offset == old(offset) && checkpoints == []
    {
      if checkpoints == [] {
        return false;
      }
      var last := |checkpoints| - 1;
      spanIdx, offset := checkpoints[last].0, checkpoints[last].1;
      checkpoints := checkpoints[..last];
      ok := true;
    }

    method Commit() returns (ok: bool)
      requires Valid()
      modifies this`checkpoints
      ensures ok == (old(checkpoints) != []) && (old(CheckpointsValid()) ==> CheckpointsValid())
      ensures checkpoints == if ok then old(checkpoints)[..|old(checkpoints)| - 1] else []
    {
      if checkpoints == [] {
        return false;
      }
      checkpoints := checkpoints[..|checkpoints| - 1];
      ok := true;
    }

    /** push keeps every cursor where it is and appends to the unread bytes. */
    method Push(view: seq<byte>)
      requires Valid()
      modifies this`buffers
      ensures Valid() && (old(CheckpointsValid()) ==> CheckpointsValid())
      ensures Content() == old(Content()) + view && Pos() == old(Pos()) && Unread() == old(Unread()) + view
    {
      PositionBounded(buffers, spanIdx, offset);
      if view != [] {
        FlattenPush(buffers, view);
        assert (buffers + [view])[..spanIdx] == buffers[..spanIdx];
        buffers := buffers + [view];
      }
    }

    /** read_trivial: a failed read changes nothing, a successful one decodes the next w bytes. */
    method ReadTrivial(o: Order, w: nat) returns (ok: bool, x: nat)
      requires Valid()
      modifies this`spanIdx, this`offset, this`checkpoints
      ensures Valid() && checkpoints == old(checkpoints)
      ensures ok == (w <= |old(Unread())|)
      ensures ok ==> x == NumValue(o, old(Unread())[..w]) && Unread() == old(Unread())[w..]
      ensures !ok ==> x == 0 && spanIdx == old(spanIdx) && offset == old(offset)
    {
      ghost var (saved, here) := (checkpoints, (spanIdx, offset));
      Checkpoint();
      var raw;
      ok, raw := Read(w);
      if ok {
        x := NumValue(o, raw);
        var _ := Commit();
        assert (saved + [here])[..|saved|] == saved;
      } else {
        x := 0;
        var _ := Rollback();
        SameLast(saved, here, checkpoints, (spanIdx, offset));
      }
    }

    /** The loop of flush_deserialized: the views in front of the cursor go. */
    method DropPassed() returns (dropped: nat)
      requires Valid()
      modifies this`buffers, this`spanIdx
      ensures spanIdx == 0 && buffers == old(buffers)[old(spanIdx)..]
      ensures dropped == |Flatten(old(buffers)[..old(spanIdx)])|
    {
      hide Flatten;
      dropped := 0;
      ghost var (views, k) := (buffers, spanIdx);
      assert Flatten(views[..0]) == [] by { NoViews(views[..0]); }
      while spanIdx > 0
        invariant spanIdx <= k <= |views| && buffers == views[k - spanIdx..]
        invariant dropped == |Flatten(views[..k - spanIdx])|
      {
        PositionAfter(views, k - spanIdx);
        dropped := dropped + |buffers[0]|;
        buffers := buffers[1..];
        spanIdx := spanIdx - 1;
      }
    }

    /** flush_deserialized drops what is behind the cursor and reports how much that was. */
    method FlushDeserialized() returns (dropped: nat)
      requires Valid()
      modifies this`buffers, this`spanIdx, this`offset
      ensures Valid() && (checkpoints == [] ==> CheckpointsValid())
      ensures dropped == old(Pos()) && Pos() == 0
      ensures Content() == old(Unread()) == Unread()
    {
      hide Flatten;
      PositionBounded(buffers, spanIdx, offset);
      dropped := DropPassed();
      if buffers != [] {
        FrontCut(buffers, offset);
        buffers := [buffers[0][offset..]] + buffers[1..];
      }
      dropped := dropped + offset;
      offset := 0;
      assert buffers[..0] == [];
      NoViews(buffers[..0]);
    }
  }
}
