/** The console as its users know it: a cursor on a plain grid of 25 lines and 80 columns.

    The grid is one sequence of cells, line after line.  Scrolling drops the first line and
    appends a blank one; there is no video memory here. */
module Screen {
  const COLS := 80
  const LINES := 25
  const CELLS := 2000

  /** A character and its attribute byte. */
  datatype Cell = Cell(glyph: int, attr: int)

  /** The low and high byte of video_erase_char, 0x0720. */
  const BLANK := Cell(0x20, 0x07)

  /** x may be 80: the line is full and the next character wraps. */
  datatype Grid = Grid(x: int, y: int, cells: seq<Cell>)

  predicate Ok(g: Grid) {
    0 <= g.x <= COLS && 0 <= g.y < LINES && |g.cells| == CELLS
  }

  function Blanks(n: nat): seq<Cell> { seq(n, _ => BLANK) }

  function ScrollUp(g: Grid): Grid
    requires Ok(g)
  {
    g.(cells := g.cells[COLS..] + Blanks(COLS))
  }

  function ScrollDown(g: Grid): Grid
    requires Ok(g)
  {
    g.(cells := Blanks(COLS) + g.cells[..CELLS - COLS])
  }

  function LineFeed(g: Grid): Grid
    requires Ok(g)
  {
    if g.y + 1 < LINES then g.(y := g.y + 1) else ScrollUp(g)
  }

  function Erase(g: Grid): Grid
    requires Ok(g)
  {
    if g.x > 0 then g.(x := g.x - 1, cells := g.cells[g.y * COLS + g.x - 1 := BLANK]) else g
  }

  function Print(g: Grid, c: int): Grid
    requires Ok(g)
  {
    var w := if g.x >= COLS then LineFeed(g.(x := 0)) else g;
    w.(x := w.x + 1, cells := w.cells[w.y * COLS + w.x := Cell(c, 2)])
  }

  function Tab(g: Grid): Grid
    requires Ok(g)
  {
    var x := g.x + 8 - g.x % 8;
    if x > COLS then LineFeed(g.(x := x - COLS)) else g.(x := x)
  }

  /** The cursor keys that would leave the grid. */
  predicate Escapes(g: Grid, c: int) {
    || (c == 0xE3 && g.y == LINES - 1)
    || (c == 0xE4 && g.x == 0 && g.y == 0)
    || (c == 0xE5 && g.x == COLS && g.y == LINES - 1)
  }

  function Step(g: Grid, c: int): Grid
    requires Ok(g)
  {
    if 10 <= c <= 13 then LineFeed(g.(x := 0))
    else if c == 127 || c == 8 then Erase(g)
    else if c == 9 then Tab(g)
    else if c == 7 then g
    else if c == 0xE0 then g.(x := 0)
    else if c == 0xE1 then g.(x := COLS - 1)
    else if c == 0xE2 then if g.y == 0 then ScrollDown(g) else g.(y := g.y - 1)
    else if c == 0xE3 then g.(y := g.y + 1)
    else if c == 0xE4 then if g.x == 0 then g.(x := COLS, y := g.y - 1) else g.(x := g.x - 1)
    else if c == 0xE5 then if g.x == COLS then g.(x := 0, y := g.y + 1) else g.(x := g.x + 1)
    else if 0xE6 <= c <= 0xE9 then g
    else Print(g, c)
  }

  /** The cursor stays on the grid exactly unless a cursor key pushes it off. */
  lemma StepStaysOk(g: Grid, c: int)
    requires Ok(g)
    ensures Ok(Step(g, c)) <==> !Escapes(g, c)
  {}

  // ----- what a byte does, over the cursor and the cells -----

  /** Every row is where the next one was, and the last is blank. */
  predicate MovedUp(a: seq<Cell>, b: seq<Cell>) {
    && |a| == |b| == 2000
    && (forall k :: 0 <= k < 1920 ==> b[k] == a[k + 80])
    && (forall k :: 1920 <= k < 2000 ==> b[k] == Cell(0x20, 7))
  }

  predicate MovedDown(a: seq<Cell>, b: seq<Cell>) {
    && |a| == |b| == 2000
    && (forall k :: 80 <= k < 2000 ==> b[k] == a[k - 80])
    && (forall k :: 0 <= k < 80 ==> b[k] == Cell(0x20, 7))
  }

  /** The cell at (x, y), and no other, has changed, to c. */
  predicate OneCell(a: seq<Cell>, b: seq<Cell>, x: int, y: int, c: Cell) {
    && |a| == |b| == 2000 && 0 <= 80 * y + x < 2000
    && b[80 * y + x] == c
    && (forall k :: 0 <= k < 2000 && k != 80 * y + x ==> b[k] == a[k])
  }

  /** The cursor is in column x of the next line, or the rows have moved up under it. */
  predicate NextLine(g: Grid, h: Grid, x: int) {
    h.x == x && if g.y < 24 then h.y == g.y + 1 && h.cells == g.cells else h.y == 24 && MovedUp(g.cells, h.cells)
  }

  predicate Printable(c: int) {
    !(7 <= c <= 13) && c != 127 && !(0xE0 <= c <= 0xE9)
  }

  /** What the screen shows before and after a byte. */
  ghost predicate Effect(g: Grid, c: int, h: Grid) {
    && (10 <= c <= 13 ==> NextLine(g, h, 0))
    && (Printable(c) ==> Printed(g, c, h))
    && (c == 9 ==> Tabbed(g, h))
    && (c == 8 || c == 127 ==> Erased(g, h))
    && (c == 7 || 0xE6 <= c <= 0xE9 ==> h == g)
    && (0xE0 <= c <= 0xE5 ==> KeyMoved(g, c, h))
  }

  /** The next multiple of 8, which may be on the next line. */
  predicate Tabbed(g: Grid, h: Grid) {
    if g.x < 80 then h.x % 8 == 0 && g.x < h.x <= g.x + 8 && h.y == g.y && h.cells == g.cells
    else NextLine(g, h, 8)
  }

  /** The cell that the cursor moves to is blank. */
  predicate Erased(g: Grid, h: Grid) {
    if g.x > 0 then h.x == g.x - 1 && h.y == g.y && OneCell(g.cells, h.cells, h.x, h.y, Cell(0x20, 7)) else h == g
  }

  predicate KeyMoved(g: Grid, c: int, h: Grid) {
    if c == 0xE2 && g.y == 0 then h.x == g.x && h.y == 0 && MovedDown(g.cells, h.cells)
    else h.cells == g.cells && (h.x, h.y) == Moved(g.x, g.y, c)
  }

  /** A character goes to the cursor, or, from column 80, to the start of the next line. */
  ghost predicate Printed(g: Grid, c: int, h: Grid) {
    if g.x < 80 then h.x == g.x + 1 && h.y == g.y && OneCell(g.cells, h.cells, g.x, g.y, Cell(c, 2))
    else exists w: Grid :: NextLine(g, w, 0) && h.x == 1 && h.y == w.y && OneCell(w.cells, h.cells, 0, w.y, Cell(c, 2))
  }

  /** HOME, END, UP, DOWN, LEFT and RIGHT. */
  function Moved(x: int, y: int, key: int): (int, int) {
    match key
    case 0xE0 => (0, y)
    case 0xE1 => (79, y)
    case 0xE2 => (x, y - 1)
    case 0xE3 => (x, y + 1)
    case 0xE4 => if x == 0 then (80, y - 1) else (x - 1, y)
    case _ => if x == 80 then (0, y + 1) else (x + 1, y)
  }

  lemma StepEffect(g: Grid, c: int)
    requires Ok(g)
    ensures Effect(g, c, Step(g, c))
  {
    var h := Step(g, c);
    if 10 <= c <= 13 {
      LineFeedEffect(g, 0);
    } else if c == 127 || c == 8 {
      EraseEffect(g);
    } else if c == 9 {
      TabEffect(g);
    } else if 0xE0 <= c <= 0xE5 {
      KeyEffect(g, c);
    } else if Printable(c) {
      PrintEffect(g, c);
    }
    hide NextLine, Printed, Tabbed, Erased, KeyMoved, Print, Tab, Erase, LineFeed, ScrollDown;
  }

  lemma LineFeedEffect(g: Grid, x: int)
    requires Ok(g) && 0 <= x <= COLS
    ensures NextLine(g, LineFeed(g.(x := x)), x)
  {}

  lemma EraseEffect(g: Grid)
    requires Ok(g)
    ensures Erased(g, Erase(g))
  {}

  lemma TabEffect(g: Grid)
    requires Ok(g)
    ensures Tabbed(g, Tab(g))
  {
    LineFeedEffect(g, 8);
  }

  lemma KeyEffect(g: Grid, c: int)
    requires Ok(g) && 0xE0 <= c <= 0xE5
    ensures KeyMoved(g, c, Step(g, c))
  {}

  /** LEFT takes back RIGHT, and UP takes back DOWN. */
  lemma KeysUndo(g: Grid)
    requires Ok(g)
    ensures !Escapes(g, 0xE5) ==> Step(Step(g, 0xE5), 0xE4) == g
    ensures !Escapes(g, 0xE3) ==> Step(Step(g, 0xE3), 0xE2) == g
  {}

  lemma PrintEffect(g: Grid, c: int)
    requires Ok(g)
    ensures Printed(g, c, Print(g, c))
  {
    if g.x == 80 {
      var w := LineFeed(g.(x := 0));
      assert NextLine(g, w, 0);
    }
  }

  ghost predicate AllStay(g: Grid, text: seq<int>)
    decreases |text|
  {
    Ok(g) && (text == [] || (!Escapes(g, text[0]) && AllStay(Step(g, text[0]), text[1..])))
  }

  ghost function Write(g: Grid, text: seq<int>): Grid
    requires AllStay(g, text)
    decreases |text|
  {
    if text == [] then g else Write(Step(g, text[0]), text[1..])
  }

  /** Text is written byte by byte, in order. */
  lemma {:induction false} WriteAppends(g: Grid, a: seq<int>, b: seq<int>)
    requires AllStay(g, a + b)
    ensures AllStay(g, a) && AllStay(Write(g, a), b) && Write(g, a + b) == Write(Write(g, a), b)
    ensures forall c :: !Escapes(g, c) ==> AllStay(g, [c]) && Write(g, [c]) == Step(g, c)
    decreases |a|
  {
    hide Step, Escapes;
    forall c | !Escapes(g, c) ensures AllStay(g, [c]) && Write(g, [c]) == Step(g, c) {
      StepStaysOk(g, c);
      assert Write(Step(g, c), []) == Step(g, c);
      assert [c][1..] == [];
    }
    if a == [] {
      assert a + b == b;
    } else {
      assert (a + b)[0] == a[0] && (a + b)[1..] == a[1..] + b;
      WriteAppends(Step(g, a[0]), a[1..], b);
    }
  }

  // ----- writing a screenful of spaces -----

  function Spaces(n: nat): seq<int> { seq(n, _ => 0x20) }

  ghost function AfterSpaces(g: Grid, n: nat): (r: Grid)
    requires Ok(g)
    ensures Ok(r)
  {
    if n == 0 then g else Step(AfterSpaces(g, n - 1), 0x20)
  }

  function CursorCell(g: Grid): int { g.y * COLS + g.x }

  /** Every cell written lately is a space, and unless nothing has scrolled yet, so is every
      cell behind the cursor. */
  ghost predicate Cleared(g: Grid, start: int, n: nat)
    requires Ok(g)
  {
    var k := CursorCell(g);
    && (forall i :: k - n <= i < k && 0 <= i ==> g.cells[i].glyph == 0x20)
    && (k == start + n || forall i :: k <= i < CELLS ==> g.cells[i].glyph == 0x20)
  }

  lemma SpaceClears(g: Grid, start: int, n: nat)
    requires Ok(g) && Cleared(g, start, n)
    ensures Ok(Step(g, 0x20)) && Cleared(Step(g, 0x20), start, n + 1)
  {
    var w := if g.x >= COLS then LineFeed(g.(x := 0)) else g;
    var k := CursorCell(g);
    if g.x >= COLS && g.y + 1 == LINES {
      forall i | 0 <= i < CELLS ensures w.cells[i] == if i < CELLS - COLS then g.cells[i + COLS] else BLANK {}
    }
  }

  lemma {:induction false} SpacesClear(g: Grid, n: nat)
    requires Ok(g)
    ensures Cleared(AfterSpaces(g, n), CursorCell(g), n)
  {
    if n > 0 {
      SpacesClear(g, n - 1);
      SpaceClears(AfterSpaces(g, n - 1), CursorCell(g), n - 1);
    }
  }

  /** 2000 spaces leave nothing but spaces, wherever the cursor was. */
  lemma ScreenfulOfSpaces(g: Grid)
    requires Ok(g)
    ensures forall i :: 0 <= i < CELLS ==> AfterSpaces(g, CELLS).cells[i].glyph == 0x20
  {
    SpacesClear(g, CELLS);
  }
}
