/** The stored history: an array of lines, shifted when full and reallocated when its limit changes. */
module History {

  const DEFAULT_MAX_LEN: nat := 100

  /** The added lines with adjacent repeats removed. */
  function Dedup<Text(==)>(lines: seq<Text>): (r: seq<Text>)
    ensures lines != [] ==> r != [] && r[|r| - 1] == lines[|lines| - 1]
  {
    if lines == [] then []
    else
      var (n, last) := (|lines| - 1, lines[|lines| - 1]);
      var before := Dedup(lines[..n]);
      if before != [] && before[|before| - 1] == last then before else before + [last]
  }

  /** s is the end of r. */
  predicate IsSuffix<Text(==)>(s: seq<Text>, r: seq<Text>) {
    |s| <= |r| && s == r[|r| - |s|..]
  }

  lemma SuffixOfSuffix<Text>(a: seq<Text>, b: seq<Text>, c: seq<Text>)
    requires IsSuffix(a, b) && IsSuffix(b, c)
    ensures IsSuffix(a, c)
  {}

  lemma SuffixExtends<Text>(a: seq<Text>, b: seq<Text>, x: Text)
    requires IsSuffix(a, b)
    ensures IsSuffix(a + [x], b + [x])
  {}

  lemma {:induction false} DedupLast<Text>(lines: seq<Text>)
    requires lines != []
    ensures var (n, last) := (|lines| - 1, lines[|lines| - 1]);
            var before := Dedup(lines[..n]);
            Dedup(lines) == if before != [] && before[|before| - 1] == last then before else before + [last]
  {}

  lemma {:induction false} DedupEnds<Text>(lines: seq<Text>)
    ensures if lines == [] then Dedup(lines) == []
            else Dedup(lines) != [] && Dedup(lines)[|Dedup(lines)| - 1] == lines[|lines| - 1]
  {}

  /** Repeating the last line adds nothing; any other line is appended. */
  lemma {:induction false} DedupStep<Text>(lines: seq<Text>, x: Text)
    ensures Dedup(lines + [x])
            == if lines != [] && lines[|lines| - 1] == x then Dedup(lines) else Dedup(lines) + [x]
  {
    hide Dedup;
    var all := lines + [x];
    assert all[..|lines|] == lines && all[|lines|] == x;
    DedupLast(all);
    DedupEnds(lines);
  }

  /** The newest stored entry is the line added last. */
  lemma {:induction false} Newest<Text>(s: seq<Text>, added: seq<Text>)
    requires IsSuffix(s, Dedup(added)) && s != []
    ensures added != [] && s[|s| - 1] == added[|added| - 1]
  {}

  lemma Tail<Text>(s: seq<Text>, k: nat)
    requires k <= |s|
    ensures IsSuffix(s[|s| - k..], s)
  {}

  lemma SuffixSelf<Text>(s: seq<Text>)
    ensures IsSuffix(s, s)
  {}

  lemma KeptIsSuffix<Text>(kept: seq<Text>, was: seq<Text>, all: seq<Text>, x: Text)
    requires IsSuffix(was, all) && (kept == was || (was != [] && kept == was[1..]))
    ensures IsSuffix(kept + [x], all + [x])
  {
    Tail(was, |kept|);
    SuffixOfSuffix(kept, was, all);
    SuffixExtends(kept, all, x);
  }

  method CopyNewest<Text(0)>(from: array<Text>, len: nat, toCopy: nat, capacity: nat) returns (to: array<Text>)
    requires toCopy <= len <= from.Length && toCopy <= capacity
    ensures fresh(to) && to.Length == capacity && to[..toCopy] == from[..len][len - toCopy..]
  {
    to := new Text[capacity];
    forall i | 0 <= i < toCopy {
      to[i] := from[len - toCopy + i];
    }
  }

  /** A line that is not a repeat of the newest one goes behind what is kept of the history. */
  lemma {:induction false} StoredIsSuffix<Text>(kept: seq<Text>, was: seq<Text>, added: seq<Text>, line: Text)
    requires IsSuffix(was, Dedup(added)) && (added != [] ==> was != [])
    requires kept == was || (was != [] && kept == was[1..])
    requires was == [] || was[|was| - 1] != line
    ensures IsSuffix(kept + [line], Dedup(added + [line]))
  {
    hide Dedup, IsSuffix;
    if was != [] {
      Newest(was, added);
    }
    DedupStep(added, line);
    KeptIsSuffix(kept, was, Dedup(added), line);
  }

  /** A repeat of the newest line changes nothing. */
  lemma {:induction false} RepeatIsSuffix<Text>(was: seq<Text>, added: seq<Text>, line: Text)
    requires IsSuffix(was, Dedup(added)) && was != [] && was[|was| - 1] == line
    ensures IsSuffix(was, Dedup(added + [line]))
  {
    hide Dedup, IsSuffix;
    Newest(was, added);
    DedupStep(added, line);
  }

  class LineHistory<Text(==, 0)> {
    var history: array<Text>  // of length 0 before the first allocation
    var len: nat
    var maxLen: nat
    ghost var added: seq<Text>

    ghost predicate Fits()
      reads this
    {
      maxLen >= 1 && len <= history.Length && (history.Length == 0 || history.Length == maxLen)
    }

    ghost function Contents(): seq<Text>
      reads this, history
      requires Fits()
    {
      history[..len]
    }

    /** What is stored is the end of what was added, and nothing that fits is missing entirely. */
    ghost predicate Valid()
      reads this, history
    {
      Fits() && IsSuffix(Contents(), Dedup(added)) && (added != [] ==> len > 0)
    }

    constructor ()
      ensures Valid() && fresh(history) && added == [] && Contents() == [] && maxLen == 100
    {
      history := new Text[0];
      len, maxLen, added := 0, DEFAULT_MAX_LEN, [];
    }

    /** The memmove of a full array: every line moves down one slot. */
    method DropOldest()
      requires 0 < len <= history.Length
      modifies this`len, history
      ensures len == old(len) - 1 && history[..len] == old(history[..len])[1..]
    {
      forall i | 0 <= i < len - 1 {
        history[i] := history[i + 1];
      }
      len := len - 1;
    }

    method Store(line: Text)
      requires len < history.Length
      modifies this`len, history
      ensures len == old(len) + 1 && history[..len] == old(history[..len]) + [line]
    {
      history[len] := line;
      len := len + 1;
    }

    method Allocate()
      requires Fits() && history.Length == 0
      modifies this`history
      ensures fresh(history) && history.Length == maxLen && Fits() && Contents() == old(Contents())
    {
      history := new Text[maxLen];
    }

    /** The oldest line makes room in a full history. */
    method Push(line: Text)
      requires Fits() && history.Length == maxLen
      modifies this`len, history
      ensures Fits() && len > 0
      ensures Contents() == (if old(len) == maxLen then old(Contents())[1..] else old(Contents())) + [line]
    {
      if len == maxLen {
        DropOldest();
      }
      Store(line);
    }

    /** linenoiseHistoryAdd, allocation succeeding: false means the line repeats the newest entry. */
    method Add(line: Text) returns (stored: bool)
      requires Valid()
      modifies this, history
      ensures Valid() && added == old(added) + [line] && maxLen == old(maxLen)
      ensures history != old(history) ==> fresh(history)
      ensures stored == !(old(Contents()) != [] && old(Contents())[|old(Contents())| - 1] == line)
      ensures Contents() == if !stored then old(Contents())
                            else (if |old(Contents())| == maxLen then old(Contents())[1..] else old(Contents())) + [line]
    {
      hide Dedup, IsSuffix;
      ghost var was := Contents();
      if history.Length == 0 {
        Allocate();
      }
      if len > 0 && history[len - 1] == line {
        assert was[len - 1] == line;
        RepeatIsSuffix(was, added, line);
        added := added + [line];
        return false;
      }
      assert was != [] ==> was[|was| - 1] == history[len - 1];
      StoredIsSuffix(if len == maxLen then was[1..] else was, was, added, line);
      Push(line);
      added := added + [line];
      stored := true;
    }

    /** linenoiseHistorySetMaxLen: shrinking keeps the newest entries. */
    method SetMaxLen(n: int) returns (ok: bool)
      requires Valid()
      modifies this
      ensures Valid() && added == old(added) && ok == (n >= 1)
      ensures history != old(history) ==> fresh(history)
      ensures maxLen == if ok then n else old(maxLen)
      ensures IsSuffix(Contents(), old(Contents()))
      ensures |Contents()| == if ok && n < |old(Contents())| then n else |old(Contents())|
    {
      hide Dedup, IsSuffix;
      ghost var was := Contents();
      if n < 1 {
        SuffixSelf(was);
        return false;
      }
      Reallocate(n);
      assert Contents() == was[|was| - len..];
      Tail(was, len);
      SuffixOfSuffix(Contents(), was, Dedup(added));
      ok := true;
    }

    method Reallocate(n: nat)
      requires Fits() && n >= 1
      modifies this`history, this`len, this`maxLen
      ensures Fits() && maxLen == n && (history != old(history) ==> fresh(history))
      ensures len == if n < old(len) then n else old(len)
      ensures Contents() == old(Contents())[old(len) - len..]
    {
      var toCopy := if n < len then n else len;
      if history.Length > 0 {
        history := CopyNewest(history, len, toCopy, n);
      }
      maxLen := n;
      len := toCopy;
    }
  }
}
