/** The line editor: a fixed character buffer, the edited history, and the screen it is drawn on. */
module LineEditor {
  import opened Terminal
  import opened Redraw

  const NUL: char := '\0'

  datatype Key =
    | Char(c: char) | Backspace | Delete | Transpose | MoveLeft | MoveRight | Home | End
    | KillLine | KillToEnd | KillWord

  /** Text left and right of the cursor. */
  datatype Edit = Edit(left: string, right: string)

  /** How much of s remains without its trailing blanks (or, if blanks is false, without its trailing word). */
  function Trim(s: string, blanks: bool): (n: nat)
    ensures n <= |s|
  {
    if s == "" || (s[|s| - 1] == ' ') != blanks then |s| else Trim(s[..|s| - 1], blanks)
  }

  function WordStart(s: string): (n: nat)
    ensures n <= |s|
  {
    Trim(s[..Trim(s, true)], false)
  }

  /** What each key means for the text around the cursor, in a buffer of `room` characters. */
  function Apply(key: Key, e: Edit, room: nat): Edit {
    var (l, r) := (e.left, e.right);
    match key
    case Char(c) => if |l| + |r| < room then Edit(l + [c], r) else e
    case Backspace => if l == "" then e else Edit(l[..|l| - 1], r)
    case Delete => if r == "" then e else Edit(l, r[1..])
    case Transpose =>
      if l == "" || r == "" then e
      else if |r| == 1 then Edit(l[..|l| - 1] + [r[0]], [l[|l| - 1]])
      else Edit(l[..|l| - 1] + [r[0], l[|l| - 1]], r[1..])
    case MoveLeft => if l == "" then e else Edit(l[..|l| - 1], [l[|l| - 1]] + r)
    case MoveRight => if r == "" then e else Edit(l + [r[0]], r[1..])
    case Home => Edit("", l + r)
    case End => Edit(l + r, "")
    case KillLine => Edit("", "")
    case KillToEnd => Edit(l, "")
    case KillWord => Edit(l[..WordStart(l)], r)
  }

  function TextOf(e: Edit): string { e.left + e.right }

  /** The cursor keys move the cursor, one step or all the way, and leave the text alone. */
  lemma MovesOnText(e: Edit, room: nat)
    ensures forall key :: key in {MoveLeft, MoveRight, Home, End} ==> TextOf(Apply(key, e, room)) == TextOf(e)
    ensures |Apply(MoveLeft, e, room).left| == if |e.left| > 0 then |e.left| - 1 else 0
    ensures |Apply(MoveRight, e, room).left| == if e.right != "" then |e.left| + 1 else |e.left|
    ensures |Apply(Home, e, room).left| == 0 && |Apply(End, e, room).left| == |TextOf(e)|
  {}

  /** A character goes in before the cursor if there is room. */
  lemma InsertOnText(c: char, e: Edit, room: nat)
    ensures var (t, p, r) := (TextOf(e), |e.left|, Apply(Char(c), e, room));
            if |t| < room then TextOf(r) == t[..p] + [c] + t[p..] && |r.left| == p + 1 else r == e
  {
    assert TextOf(e)[..|e.left|] == e.left && TextOf(e)[|e.left|..] == e.right;
  }

  /** The deleting keys take exactly the character left or right of the cursor, everything, or everything right of it. */
  lemma DeletionsOnText(e: Edit, room: nat)
    ensures var (t, p, r) := (TextOf(e), |e.left|, Apply(Backspace, e, room));
            if p > 0 then TextOf(r) == t[..p - 1] + t[p..] && |r.left| == p - 1 else r == e
    ensures var (t, p, r) := (TextOf(e), |e.left|, Apply(Delete, e, room));
            if p < |t| then TextOf(r) == t[..p] + t[p + 1..] && |r.left| == p else r == e
    ensures TextOf(Apply(KillLine, e, room)) == "" && TextOf(Apply(KillToEnd, e, room)) == TextOf(e)[..|e.left|]
  {
    var (t, p) := (TextOf(e), |e.left|);
    assert t[..p] == e.left && t[p..] == e.right;
    if p > 0 {
      assert t[..p - 1] == e.left[..p - 1];
    }
    if p < |t| {
      assert t[p + 1..] == e.right[1..];
    }
  }

  /** ctrl-t swaps the characters around the cursor, which moves on unless it is before the last character. */
  lemma TransposeOnText(e: Edit, room: nat)
    ensures var (t, p, r) := (TextOf(e), |e.left|, Apply(Transpose, e, room));
            if 0 < p < |t| then
              TextOf(r) == t[p - 1 := t[p]][p := t[p - 1]] && |r.left| == if p == |t| - 1 then p else p + 1
            else r == e
  {
    var (t, p, r) := (TextOf(e), |e.left|, Apply(Transpose, e, room));
    if 0 < p < |t| {
      assert e.right == [e.right[0]] + e.right[1..] && e.left == e.left[..p - 1] + [e.left[p - 1]];
      assert TextOf(r) == e.left[..p - 1] + [e.right[0], e.left[p - 1]] + e.right[1..];
      assert t == e.left[..p - 1] + [e.left[p - 1], e.right[0]] + e.right[1..];
    }
  }

  lemma {:induction false} TrimStops(s: string, blanks: bool)
    ensures var n := Trim(s, blanks);
            (forall i :: n <= i < |s| ==> (s[i] == ' ') == blanks) && (n > 0 ==> (s[n - 1] == ' ') != blanks)
    decreases |s|
  {
    if s != "" && (s[|s| - 1] == ' ') == blanks {
      TrimStops(s[..|s| - 1], blanks);
    }
  }

  /** From k on, s is a run of blanks from b to its end behind a run of other characters, and both are as long as can be. */
  predicate LastWord(s: string, k: nat, b: nat) {
    k <= b <= |s| &&
    (forall i :: b <= i < |s| ==> s[i] == ' ') && (b > 0 ==> s[b - 1] != ' ') &&
    (forall i :: k <= i < b ==> s[i] != ' ') && (k > 0 ==> s[k - 1] == ' ')
  }

  /** The deleted word goes from WordStart to the end, its trailing blanks included. */
  lemma {:induction false} WordStartIsLastWord(s: string)
    ensures LastWord(s, WordStart(s), Trim(s, true))
  {
    hide Trim;
    TrimStops(s, true);
    TrimStops(s[..Trim(s, true)], false);
  }

  /** Found in two steps: the blanks, and the word in what is before them. */
  lemma {:induction false} WordFound(s: string, head: string, b: nat, k: nat)
    requires b == Trim(s, true) && head == s[..b] && k == Trim(head, false)
    ensures k == WordStart(s) && LastWord(s, k, b)
  {
    hide Trim, LastWord;
    WordStartIsLastWord(s);
  }

  /** The C string that starts a character array. */
  function CString(s: seq<char>): (r: string)
    ensures |r| <= |s| && r == s[..|r|] && NUL !in r
    ensures |r| < |s| ==> s[|r|] == NUL
  {
    if s == [] || s[0] == NUL then [] else [s[0]] + CString(s[1..])
  }

  lemma {:induction false} CStringIs(s: seq<char>, n: nat)
    requires n < |s| && s[n] == NUL && NUL !in s[..n]
    ensures CString(s) == s[..n]
  {}

  /** The slots of buf that a move of n characters from src to dst leaves, as memmove does. */
  function Moved(s: seq<char>, dst: nat, src: nat, n: nat): (r: seq<char>)
    requires dst + n <= |s| && src + n <= |s|
    ensures |r| == |s|
  {
    s[..dst] + s[src..src + n] + s[dst + n..]
  }

  /** Opening a gap, filling it and terminating: the text with c between the two sides. */
  lemma InsertMoved(s: seq<char>, p: nat, n: nat, c: char)
    requires p <= n && n + 1 < |s|
    ensures Moved(s, p + 1, p, n - p)[p := c][n + 1 := NUL][..n + 1] == (s[..p] + [c]) + s[p..n]
    ensures p == n ==> Moved(s, p + 1, p, n - p) == s
  {}

  lemma NoNulCut(s: seq<char>, p: nat, q: nat, n: nat)
    requires p <= q <= n <= |s| && NUL !in s[..n]
    ensures NUL !in s[..p] + s[q..n]
  {
    forall c | c in s[..p] + s[q..n] ensures c in s[..n] {
      if c in s[..p] {
        assert s[..p] == s[..n][..p];
      } else {
        assert s[q..n] == s[..n][q..];
      }
    }
  }

  /** Closing the gap between p and q and terminating leaves the text without it. */
  lemma GapClosed(s: seq<char>, p: nat, q: nat, n: nat)
    requires p <= q <= n < |s| && NUL !in s[..n]
    ensures var (r, m) := (Moved(s, p, q, n - q)[n - (q - p) := NUL], n - (q - p));
            r[..m] == s[..p] + s[q..n] && r[m] == NUL && NUL !in r[..m]
  {
    NoNulCut(s, p, q, n);
  }

  /** The same when the terminator moves along with the right side. */
  lemma DeleteMoved(s: seq<char>, p: nat, q: nat, n: nat)
    requires p <= q <= n < |s| && s[n] == NUL && NUL !in s[..n]
    ensures var (r, m) := (Moved(s, p, q, n - q + 1), n - (q - p));
            r[..m] == s[..p] + s[q..n] && r[m] == NUL && NUL !in r[..m]
  {
    NoNulCut(s, p, q, n);
  }

  /** The two sides of a cut text, from the sides before the cut. */
  lemma CutSides(s: seq<char>, i: nat, p: nat, q: nat, n: nat)
    requires p <= i <= q <= n <= |s|
    ensures s[..p] == s[..i][..p] && s[q..n] == s[i..n][q - i..]
  {}

  lemma SwapText(s: seq<char>, p: nat, n: nat)
    requires 0 < p < n <= |s|
    ensures var r := s[p - 1 := s[p]][p := s[p - 1]];
            r[..n] == s[..p - 1] + [s[p], s[p - 1]] + s[p + 1..n] && (NUL !in s[..n] ==> NUL !in r[..n])
  {
    var r := s[p - 1 := s[p]][p := s[p - 1]];
    assert s[..n] == s[..p - 1] + [s[p - 1], s[p]] + s[p + 1..n];
    assert r[..n] == s[..p - 1] + [s[p], s[p - 1]] + s[p + 1..n];
  }

  class LineState {
    const buf: array<char>
    const buflen: nat
    const cols: nat
    const prompt: string
    var pos: nat
    var len: nat
    var oldpos: nat
    var oldrows: nat
    var history: seq<string>
    var historyIndex: nat
    var tty: Term
    ghost var origin: nat

    /** The buffer: cursor within the text, text within the buffer, terminator after it. */
    ghost predicate BufferValid()
      reads this, buf
    {
      buf.Length == buflen + 1 && pos <= len <= buflen && buf[len] == NUL && NUL !in buf[..len]
    }

    ghost function Text(): string
      reads this, buf
      requires BufferValid()
    {
      buf[..len]
    }

    ghost function Around(): Edit
      reads this, buf
      requires BufferValid()
    {
      Edit(buf[..pos], buf[pos..len])
    }

    /** The screen shows prompt and line at the origin, with the cursor before character i. */
    ghost predicate OnScreen(line: string, i: nat)
      reads this
    {
      |prompt| < cols && oldpos == i && Synced(cols, tty, origin, prompt + line, |prompt| + i, oldrows)
    }

    /** The history always holds the edited line's own entry; no entry contains NUL. */
    ghost predicate HistoryValid()
      reads this
    {
      historyIndex < |history| && forall i :: 0 <= i < |history| ==> NUL !in history[i]
    }

    ghost predicate Valid()
      reads this, buf
    {
      BufferValid() && HistoryValid() && OnScreen(Text(), pos)
    }

    /** The history with the edited entry replaced by the live buffer. */
    ghost function Entries(): seq<string>
      reads this, buf
      requires BufferValid() && historyIndex < |history|
    {
      history[|history| - 1 - historyIndex := Text()]
    }

    ghost function TheView(): View
      reads this, buf
      requires BufferValid()
    {
      View(cols, prompt, Text(), pos, oldpos, oldrows)
    }

    /** linenoiseEditStart: `lines` is the history with the empty line of this session added, `buffer` the caller's. */
    constructor (buffer: array<char>, text: string, width: nat, lines: seq<string>, screen: Term)
      requires buffer.Length > 0 && |text| < width && lines != [] && lines[|lines| - 1] == ""
      requires forall i :: 0 <= i < |lines| ==> NUL !in lines[i]
      requires screen.col == 0 && !screen.wrap && BlankFrom(width, screen, screen.row)
      modifies buffer
      ensures Valid() && buf == buffer && buflen == buffer.Length - 1 && cols == width && prompt == text
      ensures Around() == Edit("", "") && Entries() == lines && history == lines && origin == screen.row
    {
      hide Synced;
      buf, buflen, cols, prompt := buffer, buffer.Length - 1, width, text;
      pos, len, oldpos, oldrows := 0, 0, 0, 0;
      history, historyIndex := lines, 0;
      tty, origin := Run(width, screen, Puts(text)), screen.row;
      new;
      buf[0] := NUL;
      StartSyncs(width, screen, text);
      assert text + "" == text;
    }

    method MemMove(dst: nat, src: nat, n: nat)
      requires dst + n <= buf.Length && src + n <= buf.Length
      modifies buf
      ensures buf[..] == Moved(old(buf[..]), dst, src, n)
    {
      forall i | 0 <= i < n {
        buf[dst + i] := buf[src + i];
      }
    }

    /** The cleaning half of refreshMultiLine: down to the last old row, then clear and go up. */
    method AppendClean(rpos: nat) returns (ab: seq<Op>)
      requires BufferValid() && cols > 0 && rpos == CursorRow(cols, |prompt|, oldpos)
      ensures ab == CleanOps(TheView())
    {
      ab := if oldrows > rpos then [Down(oldrows - rpos)] else [];
      ghost var before := ab;
      var j := 0;
      while j < oldrows - 1
        invariant 0 <= j <= (if oldrows > 0 then oldrows - 1 else 0)
        invariant ab == before + ClearUp(j)
      {
        assert before + ClearUp(j) + [CR, EraseRight, Up(1)] == before + (ClearUp(j) + [CR, EraseRight, Up(1)]);
        ab := ab + [CR, EraseRight, Up(1)];
        j := j + 1;
      }
    }

    /** The writing half: the line, a newline if the cursor would sit past a full row, and the way back. */
    method AppendWrite(rows0: nat) returns (ab: seq<Op>, rows: nat)
      requires BufferValid() && cols > 0 && rows0 == Rows(cols, |prompt| + len)
      ensures ab == WriteOps(TheView()) && rows == RowsUsed(TheView())
    {
      assert |Redraw.Line(TheView())| == |prompt| + len;
      rows := rows0;
      ab := Puts(prompt + buf[..len]);
      if pos > 0 && pos == len && (pos + |prompt|) % cols == 0 {
        ab := ab + [LF, CR];
        rows := rows + 1;
      }
      var rpos2 := (|prompt| + pos + cols) / cols;
      var place := if rows > rpos2 then [Up(rows - rpos2)] else [];
      var col := (|prompt| + pos) % cols;
      place := place + if col > 0 then [CR, Right(col)] else [CR];
      ab := ab + place;
    }

    /** refreshMultiLine: the operations it appends are RefreshOps. */
    method RefreshMultiLine(flags: Flags) returns (ab: seq<Op>)
      requires BufferValid() && cols > 0
      modifies this`oldrows, this`oldpos
      ensures ab == RefreshOps(old(TheView()), flags)
      ensures oldrows == OldRowsAfter(old(TheView()), flags) && oldpos == pos
      ensures var full := pos > 0 && pos == len && (pos + |prompt|) % cols == 0;
              oldrows == (|prompt| + len + cols - 1) / cols + if full && flags != Flags.Clean then 1 else 0
    {
      RowsLeft(TheView(), flags);
      hide CleanOps, WriteOps, CursorRow, Rows, RowsUsed;
      assert |Redraw.Line(TheView())| == |prompt| + len;
      var rows := Rows(cols, |prompt| + len);
      ab := [];
      if flags != Write {
        ab := AppendClean(CursorRow(cols, |prompt|, oldpos));
      }
      ab := ab + [CR, EraseRight];
      if flags != Flags.Clean {
        var written;
        written, rows := AppendWrite(rows);
        ab := ab + written;
      }
      oldrows := rows;
      oldpos := pos;
    }

    /** refreshLine: redraw over whatever line was on the screen. */
    method RefreshLine(ghost line: string, ghost i: nat)
      requires BufferValid() && OnScreen(line, i)
      modifies this`oldrows, this`oldpos, this`tty
      ensures OnScreen(Text(), pos)
    {
      hide Synced, RefreshOps, OldRowsAfter;
      ShortPrompt(TheView());
      RefreshSyncs(tty, origin, prompt + line, TheView());
      var ab := RefreshMultiLine(All);
      tty := Run(cols, tty, ab);
    }

    /** linenoiseHide: everything the line covered is blank again. */
    method HideLine()
      requires Valid()
      modifies this`oldrows, this`oldpos, this`tty
      ensures BufferValid() && HistoryValid() && Around() == old(Around())
      ensures tty.row == origin && BlankFrom(cols, tty, origin) && SameAbove(old(tty), tty, origin)
    {
      hide Synced, RefreshOps, OldRowsAfter;
      HideBlanks(tty, origin, prompt + Text(), TheView());
      var ab := RefreshMultiLine(Flags.Clean);
      tty := Run(cols, tty, ab);
    }

    /** linenoiseShow: the line is drawn again, from whatever row the cursor is on by then. */
    method ShowLine()
      requires BufferValid() && HistoryValid() && |prompt| < cols && BlankFrom(cols, tty, tty.row + 1)
      modifies this`oldrows, this`oldpos, this`tty, this`origin
      ensures Valid() && origin == old(tty.row) && SameAbove(old(tty), tty, origin)
      ensures Around() == old(Around())
    {
      hide Synced, RefreshOps, OldRowsAfter;
      ShortPrompt(TheView());
      ShowSyncs(tty, TheView());
      origin := tty.row;
      var ab := RefreshMultiLine(Write);
      tty := Run(cols, tty, ab);
    }

    /** What an edit guarantees: the buffer stays valid and drawn, and only the current entry is touched. */
    twostate predicate Edited(key: Key)
      requires old(Valid())
      reads this, buf
    {
      Valid() && Around() == Apply(key, old(Around()), buflen) &&
      history == old(history) && historyIndex == old(historyIndex) && origin == old(origin)
    }

    /** Reading the two sides of the cursor off the buffer. */
    lemma Sides(l: string, r: string)
      requires BufferValid() && buf[..len] == l + r && pos == |l|
      ensures Around() == Edit(l, r)
    {
      assert buf[..pos] == buf[..len][..pos] && buf[pos..len] == buf[..len][pos..];
    }

    /** A buffer that reads l + r up to its terminator, with the cursor between the two. */
    lemma Settled(t: seq<char>, l: string, r: string)
      requires t == buf[..] && buf.Length == buflen + 1 && pos <= len <= buflen && t[len] == NUL && NUL !in t[..len]
      requires t[..len] == l + r && pos == |l|
      ensures BufferValid() && Around() == Edit(l, r)
    {
      assert buf[..len] == t[..len];
      Sides(l, r);
    }

    lemma Whole()
      requires BufferValid()
      ensures buf[..len] == Around().left + Around().right
    {}

    /** The buffer part of an insertion. */
    method PutAtCursor(c: char)
      requires BufferValid() && len < buflen && c != NUL
      modifies this`pos, this`len, buf
      ensures BufferValid() && Around() == Edit(old(Around()).left + [c], old(Around()).right)
    {
      hide Moved;
      ghost var (e, s, i, n) := (Around(), buf[..], pos, len);
      InsertMoved(s, i, n, c);
      if len == pos {
        buf[pos] := c;
      } else {
        MemMove(pos + 1, pos, len - pos);
        buf[pos] := c;
      }
      assert buf[..] == Moved(s, i + 1, i, n - i)[i := c];
      pos, len := pos + 1, len + 1;
      buf[len] := NUL;
      assert buf[..len] == buf[..][..len] == (e.left + [c]) + e.right;
      assert NUL !in e.left + e.right by { assert s[..n] == e.left + e.right; }
      Sides(e.left + [c], e.right);
    }

    method Insert(c: char)
      requires Valid() && c != NUL
      modifies this, buf
      ensures Edited(Char(c))
    {
      hide Synced;
      if len < buflen {
        ghost var (line, i) := (Text(), pos);
        PutAtCursor(c);
        RefreshLine(line, i);
      }
    }

    method MoveTo(to: nat, key: Key)
      requires Valid() && to <= len
      requires Apply(key, Around(), buflen) == Edit(buf[..to], buf[to..len])
      modifies this`pos, this`oldrows, this`oldpos, this`tty
      ensures Edited(key)
    {
      hide Synced, Apply;
      if to != pos {
        ghost var (line, i) := (Text(), pos);
        pos := to;
        RefreshLine(line, i);
      }
    }

    method EditMoveLeft()
      requires Valid()
      modifies this, buf
      ensures Edited(MoveLeft)
    {
      if pos > 0 {
        assert buf[pos - 1..len] == [buf[pos - 1]] + buf[pos..len];
        MoveTo(pos - 1, MoveLeft);
      }
    }

    method EditMoveRight()
      requires Valid()
      modifies this, buf
      ensures Edited(MoveRight)
    {
      if pos != len {
        assert buf[..pos + 1] == buf[..pos] + [buf[pos]];
        MoveTo(pos + 1, MoveRight);
      }
    }

    method EditMoveHome()
      requires Valid()
      modifies this, buf
      ensures Edited(Home)
    {
      Whole();
      assert buf[0..len] == buf[..len];
      MoveTo(0, Home);
    }

    method EditMoveEnd()
      requires Valid()
      modifies this, buf
      ensures Edited(End)
    {
      Whole();
      MoveTo(len, End);
    }

    /** The buffer part of a deletion right of the cursor. */
    method CutAfter()
      requires BufferValid() && pos < len
      modifies this`len, buf
      ensures BufferValid() && Around() == Edit(old(Around()).left, old(Around()).right[1..])
    {
      hide Moved;
      ghost var (s, i, n) := (buf[..], pos, len);
      assert s[..n] == buf[..n];
      GapClosed(s, i, i + 1, n);
      CutSides(s, i, i, i + 1, n);
      MemMove(pos, pos + 1, len - pos - 1);
      len := len - 1;
      buf[len] := NUL;
      Settled(buf[..], s[..i], s[i + 1..n]);
    }

    /** The buffer part of a deletion left of the cursor. */
    method CutBefore()
      requires BufferValid() && pos > 0
      modifies this`pos, this`len, buf
      ensures BufferValid() && Around() == Edit(old(Around()).left[..old(pos) - 1], old(Around()).right)
    {
      hide Moved;
      ghost var (s, i, n) := (buf[..], pos, len);
      assert s[..n] == buf[..n];
      GapClosed(s, i - 1, i, n);
      CutSides(s, i, i - 1, i, n);
      MemMove(pos - 1, pos, len - pos);
      pos, len := pos - 1, len - 1;
      buf[len] := NUL;
      Settled(buf[..], s[..i - 1], s[i..n]);
    }

    method EditDelete()
      requires Valid()
      modifies this, buf
      ensures Edited(Delete)
    {
      hide Synced;
      if len > 0 && pos < len {
        ghost var (line, i) := (Text(), pos);
        CutAfter();
        RefreshLine(line, i);
      }
    }

    method EditBackspace()
      requires Valid()
      modifies this, buf
      ensures Edited(Backspace)
    {
      hide Synced;
      if pos > 0 && len > 0 {
        ghost var (line, i) := (Text(), pos);
        CutBefore();
        RefreshLine(line, i);
      }
    }

    /** The buffer part of ctrl-t. */
    method SwapAtCursor()
      requires BufferValid() && 0 < pos < len
      modifies buf
      ensures BufferValid()
      ensures var e := old(Around());
              buf[..len] == e.left[..pos - 1] + [e.right[0], e.left[pos - 1]] + e.right[1..]
    {
      ghost var s := buf[..];
      SwapText(s, pos, len);
      var aux := buf[pos - 1];
      buf[pos - 1] := buf[pos];
      buf[pos] := aux;
      assert buf[..] == s[pos - 1 := s[pos]][pos := s[pos - 1]];
      assert buf[..len] == buf[..][..len] && s[..len] == old(buf[..len]);
      assert s[pos + 1..len] == old(Around()).right[1..] && s[..pos - 1] == old(Around()).left[..pos - 1];
    }

    method EditTranspose()
      requires Valid()
      modifies this, buf
      ensures Edited(Transpose)
    {
      hide Synced;
      if pos > 0 && pos < len {
        ghost var (line, i, e) := (Text(), pos, Around());
        SwapAtCursor();
        ghost var (l, r, aux) := (e.left[..i - 1], e.right[1..], e.left[i - 1]);
        if pos != len - 1 {
          pos := pos + 1;
          Sides(l + [e.right[0], aux], r);
        } else {
          assert l + [e.right[0], aux] + r == (l + [e.right[0]]) + [aux];
          Sides(l + [e.right[0]], [aux]);
        }
        RefreshLine(line, i);
      }
    }

    method EditKillLine()
      requires Valid()
      modifies this, buf
      ensures Edited(KillLine)
    {
      hide Synced;
      ghost var (line, i) := (Text(), pos);
      buf[0] := NUL;
      pos, len := 0, 0;
      RefreshLine(line, i);
    }

    method EditKillToEnd()
      requires Valid()
      modifies this, buf
      ensures Edited(KillToEnd)
    {
      hide Synced;
      ghost var (line, i) := (Text(), pos);
      assert NUL !in buf[..pos] by { assert buf[..pos] == buf[..len][..pos]; }
      buf[pos] := NUL;
      len := pos;
      RefreshLine(line, i);
    }

    method SkipBack(from: nat, blanks: bool) returns (p: nat)
      requires from < buf.Length
      ensures p == Trim(buf[..from], blanks)
    {
      p := from;
      while p > 0 && (buf[p - 1] == ' ') == blanks
        invariant p <= from && Trim(buf[..p], blanks) == Trim(buf[..from], blanks)
      {
        assert buf[..p][..p - 1] == buf[..p - 1];
        p := p - 1;
      }
    }

    /** memmove of everything right of the cursor, terminator included, down to p. */
    method DeleteBack(p: nat)
      requires BufferValid() && p <= pos
      modifies this`pos, this`len, buf
      ensures BufferValid() && Around() == Edit(old(Around()).left[..p], old(Around()).right)
    {
      hide Moved;
      ghost var (s, q, n) := (buf[..], pos, len);
      assert s[..n] == buf[..n];
      DeleteMoved(s, p, q, n);
      CutSides(s, q, p, q, n);
      MemMove(p, pos, len - pos + 1);
      len := len - (pos - p);
      pos := p;
      Settled(buf[..], s[..p], s[q..n]);
    }

    method EditDeletePrevWord()
      requires Valid()
      modifies this, buf
      ensures Edited(KillWord)
      ensures exists b :: LastWord(old(Around()).left, pos, b)
    {
      hide Synced, Trim, LastWord, WordStart;
      ghost var (line, i, left) := (Text(), pos, Around().left);
      var word := SkipBack(pos, true);
      ghost var head := buf[..word];
      var p := SkipBack(word, false);
      WordFound(left, head, word, p);
      DeleteBack(p);
      RefreshLine(line, i);
    }

    /** strncpy of a history entry, the forced terminator, and strlen. */
    method Load(entry: string)
      requires BufferValid() && buflen > 0 && NUL !in entry
      modifies this`pos, this`len, buf
      ensures BufferValid() && pos == len
      ensures Text() == if |entry| < buflen then entry else entry[..buflen - 1]
    {
      forall i | 0 <= i < buflen {
        buf[i] := if i < |entry| then entry[i] else NUL;
      }
      buf[buflen - 1] := NUL;
      var n := if |entry| < buflen then |entry| else buflen - 1;
      assert buf[..n] == entry[..n];
      CStringIs(buf[..], n);
      assert buf[..][..n] == buf[..n];
      len := |CString(buf[..])|;
      pos := len;
    }

    /** The edited line goes back into its history slot. */
    method SaveEntry()
      requires BufferValid() && HistoryValid()
      modifies this`history
      ensures HistoryValid() && history == old(Entries())
    {
      assert buf[..][..len] == buf[..len];
      CStringIs(buf[..], len);
      history := history[|history| - 1 - historyIndex := CString(buf[..])];
    }

    /** Where the index goes: one step back or forth, and not past either end. */
    function NextIndex(previous: bool): (r: nat)
      requires historyIndex < |history|
      reads this
      ensures r < |history|
    {
      if previous then (if historyIndex + 1 < |history| then historyIndex + 1 else historyIndex)
      else if historyIndex > 0 then historyIndex - 1 else 0
    }

    /**
     * Up and down: the edited entry is saved and another one loaded. The array of lines, with the live buffer in
     * its place, stays the same exactly when the entry that is loaded, if any, fits in the buffer.
     */
    method EditHistoryNext(previous: bool)
      requires Valid() && buflen > 0
      modifies this, buf
      ensures Valid() && origin == old(origin) && |history| == |old(history)|
      ensures |history| <= 1 ==> Entries() == old(Entries()) && historyIndex == old(historyIndex)
      ensures |history| > 1 ==> history == old(Entries()) && historyIndex == old(NextIndex(previous))
      ensures previous && old(historyIndex) + 1 < |history| ==> historyIndex == old(historyIndex) + 1
      ensures !previous && old(historyIndex) > 0 ==> historyIndex == old(historyIndex) - 1
      ensures (previous && old(historyIndex) + 1 == |history|) || (!previous && old(historyIndex) == 0) ==>
                historyIndex == old(historyIndex) && Around() == old(Around())
      ensures historyIndex != old(historyIndex) ==>
                var entry := history[|history| - 1 - historyIndex];
                Around() == Edit(if |entry| < buflen then entry else entry[..buflen - 1], "")
      ensures Entries() == old(Entries()) <==>
              historyIndex == old(historyIndex) || |history[|history| - 1 - historyIndex]| < buflen
    {
      hide Synced, Apply, CString;
      if |history| <= 1 {
        return;
      }
      ghost var (line, i) := (Text(), pos);
      var next := NextIndex(previous);
      SaveEntry();
      if next == historyIndex {
        return;
      }
      historyIndex := next;
      var slot := |history| - 1 - historyIndex;
      Load(history[slot]);
      assert history[slot := Text()][slot] == Text();
      RefreshLine(line, i);
    }
  }
}
