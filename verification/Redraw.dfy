/** refreshMultiLine against the terminal: what its escape sequences leave on the screen. */
module Redraw {
  import opened Terminal

  /** REFRESH_CLEAN, REFRESH_WRITE and both. */
  datatype Flags = Clean | Write | All

  /** The fields of linenoiseState that a refresh reads. */
  datatype View = View(cols: nat, prompt: string, text: string, pos: nat, oldpos: nat, oldrows: nat)

  /** An empty line after a prompt that ends at the right margin: no newline is emitted for it. */
  predicate FullPrompt(v: View)
    requires v.cols > 0
  {
    v.text == "" && v.prompt != "" && |v.prompt| % v.cols == 0
  }

  predicate WellFormed(v: View) {
    v.cols > 0 && v.pos <= |v.text| && !FullPrompt(v)
  }

  lemma ShortPrompt(v: View)
    requires |v.prompt| < v.cols && v.pos <= |v.text|
    ensures WellFormed(v)
  {
    DivUnique(v.cols, |v.prompt|, 0, |v.prompt|);
  }

  function Line(v: View): string { v.prompt + v.text }

  function Rows(cols: nat, n: nat): nat
    requires cols > 0
  {
    (n + cols - 1) / cols
  }

  /** One-based row of the cursor. */
  function CursorRow(cols: nat, plen: nat, pos: nat): nat
    requires cols > 0
  {
    (plen + pos + cols) / cols
  }

  function ClearUp(n: nat): seq<Op> {
    if n == 0 then [] else ClearUp(n - 1) + [CR, EraseRight, Up(1)]
  }

  function CleanOps(v: View): seq<Op>
    requires v.cols > 0
  {
    var rpos := CursorRow(v.cols, |v.prompt|, v.oldpos);
    (if v.oldrows > rpos then [Down(v.oldrows - rpos)] else []) +
    ClearUp(if v.oldrows > 0 then v.oldrows - 1 else 0)
  }

  predicate NeedsNewline(v: View)
    requires v.cols > 0
  {
    v.pos > 0 && v.pos == |v.text| && (v.pos + |v.prompt|) % v.cols == 0
  }

  function RowsUsed(v: View): nat
    requires v.cols > 0
  {
    Rows(v.cols, |Line(v)|) + if NeedsNewline(v) then 1 else 0
  }

  /** After the text: back up to the cursor's row, then to its column. */
  function PlaceOps(v: View): seq<Op>
    requires v.cols > 0
  {
    var rpos2 := CursorRow(v.cols, |v.prompt|, v.pos);
    var col := (|v.prompt| + v.pos) % v.cols;
    (if RowsUsed(v) > rpos2 then [Up(RowsUsed(v) - rpos2)] else []) +
    (if col > 0 then [CR, Right(col)] else [CR])
  }

  function WriteOps(v: View): seq<Op>
    requires v.cols > 0
  {
    Puts(Line(v)) + (if NeedsNewline(v) then [LF, CR] else []) + PlaceOps(v)
  }

  function RefreshOps(v: View, flags: Flags): seq<Op>
    requires v.cols > 0
  {
    (if flags.Write? then [] else CleanOps(v)) + [CR, EraseRight] + (if flags.Clean? then [] else WriteOps(v))
  }

  /** oldrows after a refresh. */
  function OldRowsAfter(v: View, flags: Flags): nat
    requires v.cols > 0
  {
    if flags.Clean? then Rows(v.cols, |Line(v)|) else RowsUsed(v)
  }

  /** The rows of the wrapped line, and one more for the newline behind a full last row. */
  lemma RowsLeft(v: View, flags: Flags)
    requires v.cols > 0
    ensures var full := v.pos > 0 && v.pos == |v.text| && (v.pos + |v.prompt|) % v.cols == 0;
            OldRowsAfter(v, flags)
            == (|v.prompt| + |v.text| + v.cols - 1) / v.cols + if full && flags != Flags.Clean then 1 else 0
  {}

  function AtLeastOne(n: nat): nat { if n == 0 then 1 else n }

  /**
   * The screen as the last refresh left it: `line` wrapped from row r0 with nothing else below, the cursor
   * before character i of it, and oldrows covering both.
   */
  ghost predicate Synced(cols: nat, t: Term, r0: nat, line: string, i: nat, oldrows: nat)
    requires cols > 0
  {
    Shows(cols, t, r0, line) && CursorAt(cols, t, r0, i) &&
    i / cols < AtLeastOne(oldrows) && |line| <= AtLeastOne(oldrows) * cols
  }

  /** Row r and everything below it is blank within the width. */
  ghost predicate BlankFrom(cols: nat, t: Term, r: nat) {
    forall r', c :: r' >= r && 0 <= c < cols ==> Cell(t, r', c) == BLANK
  }

  lemma BlankShowsNothing(cols: nat, t: Term, r0: nat)
    requires BlankFrom(cols, t, r0)
    ensures Shows(cols, t, r0, "")
  {}

  lemma SyncedBlankBelow(cols: nat, t: Term, r0: nat, line: string, i: nat, oldrows: nat)
    requires cols > 0 && Synced(cols, t, r0, line, i, oldrows)
    ensures BlankFrom(cols, t, r0 + AtLeastOne(oldrows))
  {
    var k := AtLeastOne(oldrows);
    forall r, c | r >= r0 + k && 0 <= c < cols ensures Cell(t, r, c) == BLANK {
      var dr: nat := r - r0;
      assert Cell(t, r0 + dr, c) == Expected(cols, line, dr, c);
      WholeRows(cols, k, dr);
    }
  }

  lemma EraseLine(cols: nat, t: Term)
    requires cols > 0
    ensures var t' := Step(cols, Step(cols, t, CR), EraseRight);
            t'.row == t.row && t'.col == 0 && !t'.wrap &&
            (forall r, c :: c >= 0 ==> Cell(t', r, c) == if r == t.row then BLANK else Cell(t, r, c))
    ensures forall r0: nat :: r0 <= t.row ==> SameAbove(t, Step(cols, Step(cols, t, CR), EraseRight), r0)
  {}

  lemma {:induction false} RunTwo(cols: nat, t: Term, a: Op, b: Op)
    requires cols > 0
    ensures Run(cols, t, [a, b]) == Step(cols, Step(cols, t, a), b)
  {
    assert [a, b] == [a] + [b];
    RunConcat(cols, t, [a], [b]);
    RunOne(cols, t, a);
    RunOne(cols, Step(cols, t, a), b);
  }

  /** Clearing n rows upwards ends n rows higher, with those rows blank and the ones above untouched. */
  lemma {:induction false} ClearUpBlanks(cols: nat, t: Term, r0: nat, n: nat)
    requires cols > 0 && t.row == r0 + n && BlankFrom(cols, t, t.row + 1)
    ensures var t' := Run(cols, t, ClearUp(n));
            t'.row == r0 && BlankFrom(cols, t', r0 + 1) && SameAbove(t, t', r0 + 1)
    decreases n
  {
    hide Step;
    if n > 0 {
      ClearUpBlanks(cols, t, r0 + 1, n - 1);
      var u := Run(cols, t, ClearUp(n - 1));
      RunConcat(cols, t, ClearUp(n - 1), [CR, EraseRight, Up(1)]);
      ClearOne(cols, u);
    }
  }

  lemma {:induction false} ClearOne(cols: nat, u: Term)
    requires cols > 0 && u.row > 0
    ensures var t' := Run(cols, u, [CR, EraseRight, Up(1)]);
            t'.row == u.row - 1 && SameAbove(u, t', u.row) &&
            forall r, c :: c >= 0 ==> Cell(t', r, c) == if r == u.row then BLANK else Cell(u, r, c)
  {
    RunTwo(cols, u, CR, EraseRight);
    EraseLine(cols, u);
    assert [CR, EraseRight, Up(1)] == [CR, EraseRight] + [Up(1)];
    RunConcat(cols, u, [CR, EraseRight], [Up(1)]);
    RunOne(cols, Run(cols, u, [CR, EraseRight]), Up(1));
  }

  /** The cleaning half: from a synced screen it returns to the origin and leaves only blank rows there. */
  lemma {:induction false} CleanBlanks(cols: nat, t: Term, r0: nat, line: string, v: View)
    requires v.cols == cols > 0 && Synced(cols, t, r0, line, |v.prompt| + v.oldpos, v.oldrows)
    ensures var t' := Run(cols, t, CleanOps(v));
            t'.row == r0 && BlankFrom(cols, t', r0 + 1) && SameAbove(t, t', r0)
  {
    hide Step;
    SyncedBlankBelow(cols, t, r0, line, |v.prompt| + v.oldpos, v.oldrows);
    AddWidth(cols, |v.prompt| + v.oldpos);
    var rpos := CursorRow(cols, |v.prompt|, v.oldpos);
    var down := if v.oldrows > rpos then [Down(v.oldrows - rpos)] else [];
    var n := if v.oldrows > 0 then v.oldrows - 1 else 0;
    RunConcat(cols, t, down, ClearUp(n));
    if v.oldrows > rpos {
      RunOne(cols, t, Down(v.oldrows - rpos));
      DownMoves(cols, t, v.oldrows - rpos);
    }
    var u := Run(cols, t, down);
    assert u.row == r0 + n && u.grid == t.grid;
    SameBlank(cols, t, u, r0 + n + 1);
    ClearUpBlanks(cols, u, r0, n);
    SameCells(cols, t, u, r0, line);
  }

  lemma SameBlank(cols: nat, t: Term, u: Term, r: nat)
    requires u.grid == t.grid && BlankFrom(cols, t, r)
    ensures BlankFrom(cols, u, r)
  {
    forall r', c | r' >= r && 0 <= c < cols ensures Cell(u, r', c) == BLANK {
      assert Cell(t, r', c) == BLANK;
    }
  }

  lemma DownMoves(cols: nat, t: Term, n: nat)
    requires cols > 0
    ensures Step(cols, t, Down(n)) == t.(row := t.row + n, wrap := false)
  {}

  /** The writing half, on blank rows: the line is shown, the cursor is placed, and oldrows covers it. */
  lemma {:induction false} WriteSyncs(cols: nat, t: Term, r0: nat, v: View)
    requires v.cols == cols && WellFormed(v)
    requires t.row == r0 && t.col == 0 && !t.wrap && BlankFrom(cols, t, r0)
    ensures var t' := Run(cols, t, WriteOps(v));
            Synced(cols, t', r0, Line(v), |v.prompt| + v.pos, RowsUsed(v)) && SameAbove(t, t', r0)
  {
    hide Step, Run, PlaceOps, RowsUsed, CursorRow, NeedsNewline, AfterPrinting, Puts, Line;
    BlankShowsNothing(cols, t, r0);
    PrintShows(cols, t, r0, Line(v));
    var printed := Run(cols, t, Puts(Line(v)));
    var newline := if NeedsNewline(v) then [LF, CR] else [];
    RunConcat(cols, t, Puts(Line(v)), newline);
    RunConcat(cols, t, Puts(Line(v)) + newline, PlaceOps(v));
    RowsArithmetic(cols, v);
    EndOfText(cols, printed, r0, v);
    var u := Run(cols, printed, newline);
    PlaceMoves(cols, u, r0, v);
    SameCells(cols, printed, Run(cols, u, PlaceOps(v)), r0, Line(v));
  }

  lemma SameCells(cols: nat, t: Term, t': Term, r0: nat, line: string)
    requires t.grid == t'.grid
    ensures Shows(cols, t, r0, line) ==> Shows(cols, t', r0, line)
    ensures SameAbove(t, t', r0)
  {}

  /** After the text and the optional newline, the cursor is on the last row in use. */
  lemma {:induction false} EndOfText(cols: nat, t: Term, r0: nat, v: View)
    requires v.cols == cols && WellFormed(v) && AfterPrinting(cols, t, r0, |Line(v)|)
    ensures var u := Run(cols, t, if NeedsNewline(v) then [LF, CR] else []);
            u.grid == t.grid && u.row == r0 + if RowsUsed(v) > 0 then RowsUsed(v) - 1 else 0
  {
    hide Step, CursorRow, Rows, Line;
    RowsArithmetic(cols, v);
    if NeedsNewline(v) {
      RunTwo(cols, t, LF, CR);
      NewlineMoves(cols, t);
    }
  }

  lemma NewlineMoves(cols: nat, t: Term)
    requires cols > 0
    ensures Step(cols, Step(cols, t, LF), CR) == t.(row := t.row + 1, col := 0, wrap := false)
  {}

  /** The row arithmetic: rows used, the row the text ends on, and the cursor's row. */
  lemma RowsArithmetic(cols: nat, v: View)
    requires v.cols == cols && WellFormed(v)
    ensures var (n, i) := (|Line(v)|, |v.prompt| + v.pos);
            n <= AtLeastOne(RowsUsed(v)) * cols && i / cols < AtLeastOne(RowsUsed(v)) &&
            CursorRow(cols, |v.prompt|, v.pos) == i / cols + 1 &&
            (n > 0 ==> Rows(cols, n) > 0) &&
            (n > 0 && n % cols == 0 ==> Rows(cols, n) == n / cols) &&
            (n % cols > 0 ==> Rows(cols, n) == n / cols + 1) &&
            (n == 0 ==> Rows(cols, n) == 0) &&
            (NeedsNewline(v) ==> i == n && i % cols == 0)
  {
    var (n, i) := (|Line(v)|, |v.prompt| + v.pos);
    AddWidth(cols, i);
    CeilParts(cols, n);
    if i < n {
      RowOrder(cols, i, n - 1);
      CeilLast(cols, n);
    } else if n == 0 {
      DivUnique(cols, n, 0, n);
    } else if n % cols == 0 && v.pos == 0 {
      assert FullPrompt(v);
    }
  }

  lemma CeilOf(cols: nat, n: nat, q: nat, m: nat)
    requires m < cols && n == q * cols + m
    ensures Rows(cols, n) == if m == 0 then q else q + 1
    ensures n <= Rows(cols, n) * cols
  {
    if m == 0 {
      DivUnique(cols, n + cols - 1, q, cols - 1);
    } else {
      assert (q + 1) * cols == q * cols + cols;
      DivUnique(cols, n + cols - 1, q + 1, m - 1);
    }
  }

  lemma CeilParts(cols: nat, n: nat)
    requires cols > 0
    ensures n % cols == 0 ==> Rows(cols, n) == n / cols
    ensures n % cols > 0 ==> Rows(cols, n) == n / cols + 1
    ensures n <= Rows(cols, n) * cols
    ensures n == 0 <==> Rows(cols, n) == 0
  {
    hide Rows;
    CeilOf(cols, n, n / cols, n % cols);
  }

  lemma CeilLast(cols: nat, n: nat)
    requires cols > 0 && n > 0
    ensures Rows(cols, n) == (n - 1) / cols + 1
  {
    NextCell(cols, n - 1);
    CeilParts(cols, n);
  }

  lemma RowOrder(cols: nat, i: nat, j: nat)
    requires cols > 0 && i <= j
    ensures i / cols <= j / cols
  {
    WholeRows(cols, j / cols, i / cols);
    assert i == (i / cols) * cols + i % cols && j == (j / cols) * cols + j % cols;
  }

  function MoveOps(up: nat, col: nat): seq<Op> {
    (if up > 0 then [Up(up)] else []) + (if col > 0 then [CR, Right(col)] else [CR])
  }

  lemma {:induction false} MoveTo(cols: nat, t: Term, up: nat, col: nat)
    requires up <= t.row && col < cols
    ensures Run(cols, t, MoveOps(up, col)) == Term(t.grid, t.row - up, col, false)
  {
    var first := if up > 0 then [Up(up)] else [];
    RunConcat(cols, t, first, if col > 0 then [CR, Right(col)] else [CR]);
    if up > 0 {
      RunOne(cols, t, Up(up));
    }
    var u := Run(cols, t, first);
    if col > 0 {
      RunTwo(cols, u, CR, Right(col));
    } else {
      RunOne(cols, u, CR);
    }
  }

  /** From the end of the printed text, PlaceOps puts the cursor where it belongs and changes no cell. */
  lemma {:induction false} PlaceMoves(cols: nat, t: Term, r0: nat, v: View)
    requires v.cols == cols && WellFormed(v)
    requires t.row == r0 + (if RowsUsed(v) > 0 then RowsUsed(v) - 1 else 0)
    requires CursorRow(cols, |v.prompt|, v.pos) == (|v.prompt| + v.pos) / cols + 1
    requires (|v.prompt| + v.pos) / cols < AtLeastOne(RowsUsed(v))
    ensures var t' := Run(cols, t, PlaceOps(v));
            t'.grid == t.grid && CursorAt(cols, t', r0, |v.prompt| + v.pos)
  {
    hide RowsUsed, CursorRow, Run;
    var row := (|v.prompt| + v.pos) / cols;
    var up := if RowsUsed(v) > row + 1 then RowsUsed(v) - (row + 1) else 0;
    var col := (|v.prompt| + v.pos) % cols;
    assert PlaceOps(v) == MoveOps(up, col);
    MoveTo(cols, t, up, col);
  }

  lemma {:induction false} EraseKeepsBelow(cols: nat, t: Term, r0: nat)
    requires cols > 0 && t.row == r0 && BlankFrom(cols, t, r0 + 1)
    ensures var t' := Run(cols, t, [CR, EraseRight]);
            t'.row == r0 && t'.col == 0 && !t'.wrap && BlankFrom(cols, t', r0) && SameAbove(t, t', r0)
  {
    RunTwo(cols, t, CR, EraseRight);
    EraseLine(cols, t);
  }

  /** The cleaning part of a full refresh: blank rows from the origin down, and the cursor at their start. */
  lemma {:induction false} CleanedUp(t: Term, r0: nat, line: string, v: View)
    requires v.cols > 0 && Synced(v.cols, t, r0, line, |v.prompt| + v.oldpos, v.oldrows)
    ensures var t' := Run(v.cols, t, CleanOps(v) + [CR, EraseRight]);
            t'.row == r0 && t'.col == 0 && !t'.wrap && BlankFrom(v.cols, t', r0) && SameAbove(t, t', r0) &&
            Run(v.cols, t, RefreshOps(v, All)) == Run(v.cols, t', WriteOps(v))
  {
    hide Step, CleanOps, WriteOps, Synced;
    var cols := v.cols;
    CleanBlanks(cols, t, r0, line, v);
    EraseKeepsBelow(cols, Run(cols, t, CleanOps(v)), r0);
    RunConcat(cols, t, CleanOps(v), [CR, EraseRight]);
    RunConcat(cols, t, CleanOps(v) + [CR, EraseRight], WriteOps(v));
  }

  /** Any refresh from a synced screen to any new text and cursor leaves the screen synced with them. */
  lemma {:induction false} RefreshSyncs(t: Term, r0: nat, line: string, v: View)
    requires WellFormed(v) && Synced(v.cols, t, r0, line, |v.prompt| + v.oldpos, v.oldrows)
    ensures var t' := Run(v.cols, t, RefreshOps(v, All));
            Synced(v.cols, t', r0, Line(v), |v.prompt| + v.pos, OldRowsAfter(v, All)) && SameAbove(t, t', r0)
  {
    hide Step, CleanOps, WriteOps, Synced, RowsUsed, RefreshOps;
    CleanedUp(t, r0, line, v);
    WriteSyncs(v.cols, Run(v.cols, t, CleanOps(v) + [CR, EraseRight]), r0, v);
  }

  /** A refresh goes right exactly when it is not an empty line after a prompt that ends at the margin. */
  lemma {:induction false} RefreshExactly(t: Term, r0: nat, line: string, v: View)
    requires v.cols > 0 && v.pos <= |v.text| && Synced(v.cols, t, r0, line, |v.prompt| + v.oldpos, v.oldrows)
    ensures var t' := Run(v.cols, t, RefreshOps(v, All));
            Synced(v.cols, t', r0, Line(v), |v.prompt| + v.pos, OldRowsAfter(v, All)) <==> !FullPrompt(v)
  {
    hide Step, CleanOps, WriteOps, RowsUsed, RefreshOps, Shows;
    if FullPrompt(v) {
      CleanedUp(t, r0, line, v);
      FullPromptMisplaced(v.cols, Run(v.cols, t, CleanOps(v) + [CR, EraseRight]), v);
    } else {
      RefreshSyncs(t, r0, line, v);
    }
  }

  /** Hiding removes everything the line covered and returns to its first row. */
  lemma {:induction false} HideBlanks(t: Term, r0: nat, line: string, v: View)
    requires v.cols > 0 && Synced(v.cols, t, r0, line, |v.prompt| + v.oldpos, v.oldrows)
    ensures var t' := Run(v.cols, t, RefreshOps(v, Flags.Clean));
            t'.row == r0 && t'.col == 0 && BlankFrom(v.cols, t', r0) && SameAbove(t, t', r0)
  {
    hide Step, CleanOps, Synced;
    var cols := v.cols;
    CleanBlanks(cols, t, r0, line, v);
    EraseKeepsBelow(cols, Run(cols, t, CleanOps(v)), r0);
    RunConcat(cols, t, CleanOps(v), [CR, EraseRight]);
    assert CleanOps(v) + [CR, EraseRight] + [] == CleanOps(v) + [CR, EraseRight];
  }

  /** Showing starts a synced line on the cursor's row, wherever that is, if the rows below are blank. */
  lemma {:induction false} ShowSyncs(t: Term, v: View)
    requires WellFormed(v) && BlankFrom(v.cols, t, t.row + 1)
    ensures var t' := Run(v.cols, t, RefreshOps(v, Write));
            Synced(v.cols, t', t.row, Line(v), |v.prompt| + v.pos, OldRowsAfter(v, Write)) &&
            SameAbove(t, t', t.row)
  {
    hide Step, WriteOps, Synced, RowsUsed;
    var cols := v.cols;
    EraseKeepsBelow(cols, t, t.row);
    WriteSyncs(cols, Run(cols, t, [CR, EraseRight]), t.row, v);
    RunConcat(cols, t, [CR, EraseRight], WriteOps(v));
    assert [] + [CR, EraseRight] == [CR, EraseRight];
  }

  /** linenoiseEditStart prints the prompt: that is a synced empty line with oldrows zero, if it fits in one row. */
  lemma {:induction false} StartSyncs(cols: nat, t: Term, prompt: string)
    requires cols > 0 && t.col == 0 && !t.wrap && BlankFrom(cols, t, t.row)
    ensures Synced(cols, Run(cols, t, Puts(prompt)), t.row, prompt, |prompt|, 0) <==> |prompt| < cols
  {
    BlankShowsNothing(cols, t, t.row);
    PrintShows(cols, t, t.row, prompt);
    if |prompt| < cols {
      DivUnique(cols, |prompt|, 0, |prompt|);
    } else {
      RowOrder(cols, cols, |prompt|);
      DivUnique(cols, cols, 1, 0);
    }
  }

  /** After a prompt that ends at the margin, the cursor of an empty line stays one row too high. */
  lemma {:induction false} FullPromptMisplaced(cols: nat, t: Term, v: View)
    requires v.cols == cols > 0 && FullPrompt(v) && v.pos == 0
    requires t.col == 0 && !t.wrap && BlankFrom(cols, t, t.row)
    ensures var t' := Run(cols, t, WriteOps(v));
            t'.row + 1 == t.row + |v.prompt| / cols && !CursorAt(cols, t', t.row, |v.prompt| + v.pos)
  {
    hide Step, Run;
    assert Line(v) == v.prompt;
    BlankShowsNothing(cols, t, t.row);
    PrintShows(cols, t, t.row, v.prompt);
    CeilParts(cols, |v.prompt|);
    AddWidth(cols, |v.prompt|);
    var printed := Run(cols, t, Puts(v.prompt));
    assert Puts(Line(v)) + [] == Puts(v.prompt);
    RunConcat(cols, t, Puts(v.prompt), PlaceOps(v));
    assert PlaceOps(v) == MoveOps(0, 0);
    MoveTo(cols, printed, 0, 0);
  }
}
