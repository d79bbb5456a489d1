/** A small terminal: a grid, a cursor, and the deferred wrap after the last column. */
module Terminal {

  datatype Op = Put(c: char) | CR | LF | Up(n: nat) | Down(n: nat) | Right(n: nat) | EraseRight

  /** Cells not in the grid are blank. wrap: the next character goes to the start of the next row. */
  datatype Term = Term(grid: map<(int, int), char>, row: nat, col: nat, wrap: bool)

  const BLANK: char := ' '

  function Cell(t: Term, r: int, c: int): char {
    if (r, c) in t.grid then t.grid[(r, c)] else BLANK
  }

  function Step(cols: nat, t: Term, op: Op): (t': Term)
    requires cols > 0
  {
    match op
    case Put(ch) =>
      var (r, c) := if t.wrap then (t.row + 1, 0) else (t.row, t.col);
      var g := t.grid[(r, c) := ch];
      if c + 1 >= cols then Term(g, r, c, true) else Term(g, r, c + 1, false)
    case CR => t.(col := 0, wrap := false)
    case LF => t.(row := t.row + 1, wrap := false)
    case Up(n) => t.(row := if n <= t.row then t.row - n else 0, wrap := false)
    case Down(n) => t.(row := t.row + n, wrap := false)
    case Right(n) => t.(col := if t.col + n < cols then t.col + n else cols - 1, wrap := false)
    case EraseRight => t.(grid := map k | k in t.grid && !(k.0 == t.row && k.1 >= t.col) :: t.grid[k])
  }

  function Run(cols: nat, t: Term, ops: seq<Op>): (t': Term)
    requires cols > 0
  {
    if ops == [] then t else Step(cols, Run(cols, t, ops[..|ops| - 1]), ops[|ops| - 1])
  }

  lemma {:induction false} RunConcat(cols: nat, t: Term, a: seq<Op>, b: seq<Op>)
    requires cols > 0
    ensures Run(cols, t, a + b) == Run(cols, Run(cols, t, a), b)
    decreases |b|
  {
    hide Step;
    if b == [] {
      assert a + b == a;
    } else {
      var n := |b| - 1;
      assert (a + b)[..|a| + n] == a + b[..n] && (a + b)[|a| + n] == b[n];
      RunConcat(cols, t, a, b[..n]);
    }
  }

  lemma {:induction false} RunOne(cols: nat, t: Term, op: Op)
    requires cols > 0
    ensures Run(cols, t, [op]) == Step(cols, t, op)
  {
    assert Run(cols, t, []) == t;
    assert [op][..0] == [];
  }

  function Puts(text: string): (ops: seq<Op>)
    ensures |ops| == |text|
  {
    seq(|text|, i requires 0 <= i < |text| => Put(text[i]))
  }

  /** Where row dr, column c of a text that starts at column 0 is found in it. */
  function Index(cols: nat, dr: nat, c: nat): nat {
    dr * cols + c
  }

  /** What a terminal of this width shows dr rows below the start of the text. */
  function Expected(cols: nat, text: string, dr: nat, c: nat): char {
    var i := Index(cols, dr, c);
    if i < |text| then text[i] else BLANK
  }

  /** From row r0 down, the screen holds exactly the text wrapped at the width, and nothing else. */
  ghost predicate Shows(cols: nat, t: Term, r0: nat, text: string) {
    forall dr: nat, c: nat :: c < cols ==> Cell(t, r0 + dr, c) == Expected(cols, text, dr, c)
  }

  /** The cursor rests before character i of a text that starts at row r0. */
  predicate CursorAt(cols: nat, t: Term, r0: nat, i: nat)
    requires cols > 0
  {
    t.row == r0 + i / cols && t.col == i % cols && !t.wrap
  }

  ghost predicate SameAbove(t: Term, t': Term, r0: nat) {
    forall r, c :: r < r0 ==> Cell(t', r, c) == Cell(t, r, c)
  }

  lemma {:induction false} IndexParts(cols: nat, dr: nat, c: nat)
    requires c < cols
    ensures Index(cols, dr, c) / cols == dr && Index(cols, dr, c) % cols == c
    decreases dr
  {
    if dr > 0 {
      IndexParts(cols, dr - 1, c);
      assert Index(cols, dr, c) == Index(cols, dr - 1, c) + cols;
      AddWidth(cols, Index(cols, dr - 1, c));
    }
  }

  lemma AddWidth(cols: nat, i: nat)
    requires cols > 0
    ensures (i + cols) / cols == i / cols + 1 && (i + cols) % cols == i % cols
  {
    var (q, m) := (i / cols, i % cols);
    assert i == q * cols + m;
    DivUnique(cols, i + cols, q + 1, m);
  }

  lemma WholeRows(cols: nat, a: nat, b: nat)
    ensures a < b ==> a * cols + cols <= b * cols
  {
    if a < b {
      var d := b - a - 1;
      assert d * cols >= 0;
      assert b * cols == (a + 1 + d) * cols == a * cols + cols + d * cols;
    }
  }

  lemma DivUnique(cols: nat, i: nat, q: nat, m: nat)
    requires cols > 0 && m < cols && i == q * cols + m
    ensures i / cols == q && i % cols == m
  {
    var (q', m') := (i / cols, i % cols);
    assert i == q' * cols + m';
    WholeRows(cols, q, q');
    WholeRows(cols, q', q);
  }

  /** The next index is the next column, or the start of the next row. */
  lemma NextCell(cols: nat, i: nat)
    requires cols > 0
    ensures (i + 1) / cols == (if i % cols + 1 < cols then i / cols else i / cols + 1)
    ensures (i + 1) % cols == if i % cols + 1 < cols then i % cols + 1 else 0
  {
    var (q, m) := (i / cols, i % cols);
    assert i == q * cols + m;
    if m + 1 < cols {
      DivUnique(cols, i + 1, q, m + 1);
    } else {
      assert (q + 1) * cols == q * cols + cols;
      DivUnique(cols, i + 1, q + 1, 0);
    }
  }

  lemma SameIndex(cols: nat, i: nat, dr: nat, c: nat)
    requires c < cols
    ensures Index(cols, dr, c) == i <==> dr == i / cols && c == i % cols
  {
    IndexParts(cols, dr, c);
    assert i == (i / cols) * cols + i % cols;
  }

  /** The cursor after printing k characters from column 0 of row r0: a full row leaves a deferred wrap. */
  predicate AfterPrinting(cols: nat, t: Term, r0: nat, k: nat)
    requires cols > 0
  {
    if k > 0 && k % cols == 0 then t.wrap && t.row + 1 == r0 + k / cols && t.col == cols - 1
    else CursorAt(cols, t, r0, k)
  }

  /** Printing a text on blank rows shows exactly that text. */
  lemma {:induction false} PrintShows(cols: nat, t: Term, r0: nat, text: string)
    requires cols > 0 && t.row == r0 && t.col == 0 && !t.wrap && Shows(cols, t, r0, "")
    ensures var t' := Run(cols, t, Puts(text));
            Shows(cols, t', r0, text) && AfterPrinting(cols, t', r0, |text|) && SameAbove(t, t', r0)
    decreases |text|
  {
    hide Step;
    if text == "" {
      assert Puts(text) == [];
    } else {
      var n := |text| - 1;
      PrintShows(cols, t, r0, text[..n]);
      assert Puts(text)[..n] == Puts(text[..n]) && Puts(text)[n] == Put(text[n]);
      PrintOne(cols, Run(cols, t, Puts(text[..n])), r0, text);
    }
  }

  lemma PrintOne(cols: nat, t: Term, r0: nat, text: string)
    requires cols > 0 && text != "" && Shows(cols, t, r0, text[..|text| - 1])
    requires AfterPrinting(cols, t, r0, |text| - 1)
    ensures var t' := Step(cols, t, Put(text[|text| - 1]));
            Shows(cols, t', r0, text) && AfterPrinting(cols, t', r0, |text|) && SameAbove(t, t', r0)
  {
    var n := |text| - 1;
    var t' := Step(cols, t, Put(text[n]));
    PutLands(cols, t, r0, n, text[n]);
    forall dr: nat, c: nat | c < cols ensures Cell(t', r0 + dr, c) == Expected(cols, text, dr, c) {
      SameIndex(cols, n, dr, c);
      assert Cell(t, r0 + dr, c) == Expected(cols, text[..n], dr, c);
    }
  }

  lemma PutLands(cols: nat, t: Term, r0: nat, n: nat, ch: char)
    requires cols > 0 && AfterPrinting(cols, t, r0, n)
    ensures var t' := Step(cols, t, Put(ch));
            t'.grid == t.grid[(r0 + n / cols, n % cols) := ch] && AfterPrinting(cols, t', r0, n + 1)
  {
    NextCell(cols, n);
  }
}
