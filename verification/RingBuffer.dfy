/** RingBuffer: an array with a head, a tail and a full flag, refining a bounded queue. */
module RingBufferClass {

  function Overwrite<T>(s: seq<T>, at: nat, xs: seq<T>): (r: seq<T>)
    requires at + |xs| <= |s|
    ensures |r| == |s|
  {
    s[..at] + xs + s[at + |xs|..]
  }

  /** A contiguous stretch of the array, as an iovec describes it. */
  datatype Region = Region(start: nat, len: nat)

  predicate Covers(r: Region, k: nat) {
    r.start <= k < r.start + r.len
  }

  function WrapAt(cap: nat, i: nat): (r: nat)
    requires cap > 0 && i < 2 * cap
    ensures r < cap
  {
    if i < cap then i else i - cap
  }

  lemma ModIsWrap(cap: nat, i: nat)
    requires cap > 0 && i < 2 * cap
    ensures i % cap == WrapAt(cap, i)
  {
    var k := i / cap;
  }

  function Rotated<T>(s: seq<T>, k: nat): (r: seq<T>)
    requires k <= |s|
    ensures |r| == |s|
  {
    s[k..] + s[..k]
  }

  lemma RotatedAt<T>(s: seq<T>, k: nat, i: nat)
    requires k < |s| && i < |s|
    ensures Rotated(s, k)[i] == s[WrapAt(|s|, k + i)]
  {}

  /** Rotating further is rotating the rotation. */
  lemma RotatedTwice<T>(s: seq<T>, k: nat, n: nat)
    requires k < |s| && n <= |s|
    ensures Rotated(s, WrapAt(|s|, k + n)) == Rotated(Rotated(s, k), n)
  {
    var m := WrapAt(|s|, k + n);
    var (a, b) := (Rotated(s, m), Rotated(Rotated(s, k), n));
    forall i | 0 <= i < |s| ensures a[i] == b[i] {
      RotatedAt(s, m, i);
      RotatedAt(s, k, WrapAt(|s|, n + i));
    }
  }

  /** Writing a cell changes the rotation at the matching place only. */
  lemma RotatedUpdate<T>(s: seq<T>, k: nat, n: nat, x: T)
    requires k < |s| && n < |s|
    ensures Rotated(s[WrapAt(|s|, k + n) := x], k) == Rotated(s, k)[n := x]
  {}

  lemma RotatedSlices<T>(c: seq<T>, n: nat, size: nat)
    requires n <= size <= |c|
    ensures Rotated(c, n)[..size - n] == c[..size][n..]
    ensures Rotated(c, n)[size - n..] == c[size..] + c[..size][..n]
  {}

  lemma GrowSlices<T>(c: seq<T>, size: nat, k: nat)
    requires size + k <= |c|
    ensures c[..size + k] == c[..size] + c[size..][..k] && c[size + k..] == c[size..][k..]
  {}

  /** The first n cells of a rotation, as one or two stretches of the array. */
  lemma QueueStretch<T>(s: seq<T>, h: nat, n: nat)
    requires h < |s| && n <= |s|
    ensures Rotated(s, h)[..n] == if h + n <= |s| then s[h..h + n] else s[h..] + s[..h + n - |s|]
  {}

  /** The cells of a rotation behind the first n, as one or two stretches of the array. */
  lemma FreeStretch<T>(s: seq<T>, h: nat, n: nat)
    requires h < |s| && n <= |s|
    ensures Rotated(s, h)[n..] == if h + n < |s| then s[h + n..] + s[..h] else s[h + n - |s|..h]
  {}

  lemma UpdateGrows<T>(c: seq<T>, n: nat, x: T)
    requires n < |c|
    ensures c[n := x][..n + 1] == c[..n] + [x]
  {}

  /** A copy into consecutive cells is a copy into the matching places of the rotation. */
  lemma OverwriteRotated<T>(s: seq<T>, h: nat, n: nat, xs: seq<T>)
    requires h < |s| && n < |s| && n + |xs| <= |s| && WrapAt(|s|, h + n) + |xs| <= |s|
    ensures Rotated(Overwrite(s, WrapAt(|s|, h + n), xs), h) == Overwrite(Rotated(s, h), n, xs)
  {}

  lemma TwoOverwrites<T>(c: seq<T>, size: nat, a: seq<T>, b: seq<T>)
    requires size + |a| + |b| <= |c|
    ensures Overwrite(c, size, []) == c && Overwrite(Overwrite(c, size, a), size + |a|, []) == Overwrite(c, size, a)
    ensures var r := Overwrite(Overwrite(c, size, a), size + |a|, b);
            r[..size] == c[..size] && r[size..][..|a| + |b|] == a + b
  {}

  class RingBuffer<T(0)> {
    var buffer: array<T>
    var head: nat
    var tail: nat
    var full: bool

    ghost predicate Valid()
      reads this
    {
      buffer.Length > 0 && head < buffer.Length && tail < buffer.Length && (full ==> head == tail)
    }

    function Size(): (n: nat)
      reads this
      requires Valid()
      ensures n <= buffer.Length && tail == WrapAt(buffer.Length, head + n) && (full <==> n == buffer.Length)
    {
      if full then buffer.Length
      else if tail >= head then tail - head
      else buffer.Length - head + tail
    }

    /** All cells, starting at the head: first the queue, then the free cells. */
    ghost function Cells(): (s: seq<T>)
      reads this, buffer
      requires Valid()
      ensures |s| == buffer.Length
    {
      Rotated(buffer[..], head)
    }

    ghost function Contents(): seq<T>
      reads this, buffer
      requires Valid()
    {
      Cells()[..Size()]
    }

    /** The free cells in the order in which they are filled. */
    ghost function Free(): seq<T>
      reads this, buffer
      requires Valid()
    {
      Cells()[Size()..]
    }

    constructor (capacity: nat)
      requires capacity > 0
      ensures Valid() && fresh(buffer) && buffer.Length == capacity && Contents() == []
    {
      buffer := new T[capacity];
      head, tail, full := 0, 0, false;
    }

    method IsEmpty() returns (r: bool)
      requires Valid()
      ensures r <==> Contents() == []
    {
      r := !full && head == tail;
    }

    method DataAt(i: nat) returns (x: T)
      requires Valid() && i < buffer.Length
      ensures x == Cells()[i] && (i < Size() ==> x == Contents()[i])
    {
      ModIsWrap(buffer.Length, head + i);
      RotatedAt(buffer[..], head, i);
      x := buffer[(head + i) % buffer.Length];
    }

    method PushBack(x: T) returns (ok: bool)
      requires Valid()
      modifies this`tail, this`full, buffer
      ensures Valid() && ok == (|old(Contents())| < buffer.Length)
      ensures Contents() == if ok then old(Contents()) + [x] else old(Contents())
    {
      if full {
        return false;
      }
      hide Rotated;
      ghost var (s, n) := (buffer[..], Size());
      RotatedUpdate(s, head, n, x);
      UpdateGrows(Cells(), n, x);
      buffer[tail] := x;
      assert buffer[..] == s[tail := x];
      tail := if tail == buffer.Length - 1 then 0 else tail + 1;
      full := tail == head;
      assert Size() == n + 1;
      ok := true;
    }

    method PopFront() returns (ok: bool)
      requires Valid()
      modifies this`head, this`full
      ensures Valid() && ok == (old(Contents()) != [])
      ensures Contents() == if ok then old(Contents())[1..] else old(Contents())
    {
      var empty := IsEmpty();
      if empty {
        return false;
      }
      ShiftHead(1);
      ok := true;
    }

    /** Moving the head n cells on: the queue loses its first n elements, the free cells gain them. */
    method ShiftHead(n: nat)
      requires Valid() && 0 < n <= Size()
      modifies this`head, this`full
      ensures Valid() && Contents() == old(Contents())[n..] && Free() == old(Free()) + old(Contents())[..n]
    {
      hide Rotated;
      ghost var (s, k, size) := (buffer[..], head, Size());
      ModIsWrap(buffer.Length, head + n);
      RotatedTwice(s, k, n);
      RotatedSlices(Cells(), n, size);
      head := (head + n) % buffer.Length;
      full := false;
      assert Size() == size - n;
    }

    method CommitRead(n: nat)
      requires Valid()
      modifies this`head, this`full
      ensures Valid() && Contents() == old(Contents())[if n < |old(Contents())| then n else |old(Contents())|..]
    {
      var k := if n > Size() then Size() else n;
      if k > 0 {
        ShiftHead(k);
      } else if n > 0 {
        ModIsWrap(buffer.Length, head);
        head := head % buffer.Length;
        full := false;
      }
    }

    /** commit_write: what was put into the free cells, as far as they go, joins the queue. */
    method CommitWrite(n: nat)
      requires Valid()
      modifies this`tail, this`full
      ensures Valid() && Cells() == old(Cells())
      ensures var k := if n < |old(Free())| then n else |old(Free())|;
              Contents() == old(Contents()) + old(Free())[..k] && Free() == old(Free())[k..]
    {
      hide Rotated;
      ghost var (cells, size) := (Cells(), Size());
      if n == 0 {
        GrowSlices(cells, size, 0);
        return;
      }
      var k := if n > buffer.Length - Size() then buffer.Length - Size() else n;
      GrowSlices(cells, size, k);
      ModIsWrap(buffer.Length, tail + k);
      tail := (tail + k) % buffer.Length;
      full := tail == head;
      assert Size() == size + k;
    }

    method Clear()
      requires Valid()
      modifies this`head, this`tail, this`full
      ensures Valid() && Contents() == []
    {
      head, tail, full := 0, 0, false;
    }

    /** The cell that holds the i-th element, or would if the queue were longer. */
    function Slot(i: nat): (k: nat)
      reads this
      requires Valid() && i < buffer.Length
      ensures k < buffer.Length
    {
      WrapAt(buffer.Length, head + i)
    }

    /** The array stretch a region covers. */
    ghost function At(r: Region): seq<T>
      reads this, buffer
    {
      if r.start + r.len <= buffer.Length then buffer[r.start..r.start + r.len] else []
    }

    /** write_vectored: the two regions, in order, are the free cells, and no cell of the queue is in them. */
    method WriteVectored() returns (first: Region, second: Region)
      requires Valid()
      ensures first.start + first.len <= buffer.Length && second.start + second.len <= buffer.Length
      ensures At(first) + At(second) == Free() && first.len + second.len == buffer.Length - Size()
      ensures forall i :: 0 <= i < Size() ==> !Covers(first, Slot(i)) && !Covers(second, Slot(i))
      ensures first.len > 0 ==> first.start == tail
      ensures second.len > 0 ==> second.start == 0 && first.len > 0 && first.start + first.len == buffer.Length
    {
      hide Rotated;
      first, second := Region(0, 0), Region(0, 0);
      FreeStretch(buffer[..], head, Size());
      if full {
        return;
      }
      var cap := buffer.Length;
      if head <= tail {
        first := Region(tail, cap - tail);
        if head > 0 {
          second := Region(0, head);
        }
      } else {
        first := Region(tail, head - tail);
      }
    }

    /** read_vectored: the two regions, in order, are the queue. */
    method ReadVectored() returns (first: Region, second: Region)
      requires Valid()
      ensures first.start + first.len <= buffer.Length && second.start + second.len <= buffer.Length
      ensures At(first) + At(second) == Contents() && first.len + second.len == Size()
    {
      hide Rotated;
      first, second := Region(0, 0), Region(0, 0);
      var empty := IsEmpty();
      if empty {
        return;
      }
      QueueStretch(buffer[..], head, Size());
      if head < tail {
        first := Region(head, tail - head);
      } else {
        first, second := Region(head, buffer.Length - head), Region(0, tail);
      }
    }

    /** data: the same two stretches, but an empty queue yields the whole array twice. */
    method Data() returns (first: Region, second: Region)
      requires Valid()
      ensures first.start + first.len <= buffer.Length && second.start + second.len <= buffer.Length
      ensures Contents() != [] ==> At(first) + At(second) == Contents()
      ensures Contents() == [] ==> At(first) == buffer[..] == At(second)
    {
      hide Rotated;
      first, second := Region(0, buffer.Length), Region(0, buffer.Length);
      var empty := IsEmpty();
      if empty {
        return;
      }
      QueueStretch(buffer[..], head, Size());
      if head < tail {
        first, second := Region(head, tail - head), Region(0, 0);
      } else {
        first, second := Region(head, buffer.Length - head), Region(0, tail);
      }
    }

    /** The copies of insert: as much of the container as fits, put into the free cells in order. */
    method Fill(container: seq<T>) returns (stop: nat)
      requires Valid()
      modifies buffer
      ensures Valid() && stop == if |container| <= buffer.Length - Size() then |container| else buffer.Length - Size()
      ensures Contents() == old(Contents()) && Free()[..stop] == container[..stop]
    {
      hide Rotated, Overwrite, WrapAt, RingBuffer.At, Covers;
      var first, second := WriteVectored();
      var n1 := if first.len < |container| then first.len else |container|;
      var n2 := if second.len < |container| - n1 then second.len else |container| - n1;
      stop := n1 + n2;
      ghost var (cells, size, a, b) := (Cells(), Size(), container[..n1], container[n1..stop]);
      if n1 > 0 {
        Copy(first.start, container[..n1], size);
      }
      if n2 > 0 {
        WrapEnd(head, size, n1);
        Copy(second.start, container[n1..stop], size + n1);
      }
      TwoOverwrites(cells, size, a, b);
      assert container[..stop] == a + b;
    }

    /** insert: the longest prefix of the container that fits is appended, and the rest is left to the caller. */
    method Insert(container: seq<T>) returns (stop: nat)
      requires Valid()
      modifies this`tail, this`full, buffer
      ensures Valid() && stop <= |container|
      ensures stop == |container| || |Contents()| == buffer.Length
      ensures Contents() == old(Contents()) + container[..stop]
    {
      hide Rotated, WrapAt;
      stop := Fill(container);
      CommitWrite(stop);
    }

    /** A first region that reaches the end of the array is followed by cell 0. */
    lemma WrapEnd(h: nat, size: nat, n1: nat)
      requires buffer.Length > 0 && h + size < 2 * buffer.Length && size + n1 < buffer.Length
      requires WrapAt(buffer.Length, h + size) + n1 == buffer.Length && h < buffer.Length
      ensures h + size + n1 < 2 * buffer.Length && WrapAt(buffer.Length, h + (size + n1)) == 0
    {}

    /** std::copy into consecutive cells, the first of them n places after the head. */
    method Copy(start: nat, xs: seq<T>, ghost n: nat)
      requires Valid() && start + |xs| <= buffer.Length && n < buffer.Length && n + |xs| <= buffer.Length
      requires start == Slot(n)
      modifies buffer
      ensures Cells() == Overwrite(old(Cells()), n, xs)
    {
      hide Rotated;
      OverwriteRotated(buffer[..], head, n, xs);
      ghost var s := buffer[..];
      forall i | 0 <= i < |xs| {
        buffer[start + i] := xs[i];
      }
      assert buffer[..] == Overwrite(s, start, xs);
    }
  }
}
