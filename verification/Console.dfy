/** kernel/console.c: a 4000-byte window that slides through 8192 bytes of video memory.

    Fields hold what the C variables hold: addresses, and coordinates as 32-bit unsigned
    values.  vmem[a - START] is the byte at address a. */
module Console {
  import opened Bytes
  import opened Screen

  const START := 0xb8000
  const END := 0xba000
  const ROW := 160
  const ALL := 4000
  const WRAP := 0x1_0000_0000

  type Word = w: int | 0 <= w < WRAP

  /** The character cells that a run of bytes shows. */
  function Cells(b: seq<Byte>): (r: seq<Cell>)
    ensures |r| == |b| / 2
    ensures forall i :: 0 <= i < |b| / 2 ==> r[i] == Cell(b[2 * i], b[2 * i + 1])
  {
    seq(|b| / 2, i requires 0 <= i < |b| / 2 => Cell(b[2 * i], b[2 * i + 1]))
  }

  function BlankBytes(n: nat): (r: seq<Byte>)
    ensures |r| == 2 * n
  {
    if n == 0 then [] else BlankBytes(n - 1) + [0x20] + [0x07]
  }

  lemma CellsJoin(a: seq<Byte>, b: seq<Byte>)
    requires |a| % 2 == 0
    ensures Cells(a + b) == Cells(a) + Cells(b)
  {}

  lemma {:induction false} BlankCells(n: nat)
    ensures Cells(BlankBytes(n)) == Blanks(n)
  {
    if n > 0 {
      BlankCells(n - 1);
      CellsJoin(BlankBytes(n - 1), [0x20, 0x07]);
      assert BlankBytes(n) == BlankBytes(n - 1) + [0x20, 0x07];
      assert Cells([0x20, 0x07]) == [BLANK];
    }
  }

  lemma CellStored(b: seq<Byte>, k: nat, lo: Byte, hi: Byte)
    requires 2 * k + 1 < |b|
    ensures Cells(b[2 * k := lo][2 * k + 1 := hi]) == Cells(b)[k := Cell(lo, hi)]
  {}

  lemma StoredInWindow(mem: seq<Byte>, o: nat, k: nat, lo: Byte, hi: Byte)
    requires o + ALL <= |mem| && k < CELLS
    ensures mem[o + 2 * k := lo][o + 2 * k + 1 := hi][o..o + ALL] == mem[o..o + ALL][2 * k := lo][2 * k + 1 := hi]
  {}

  lemma CellsFrom(b: seq<Byte>, k: nat)
    requires 2 * k <= |b| && |b| % 2 == 0
    ensures Cells(b[..2 * k]) == Cells(b)[..k] && Cells(b[2 * k..]) == Cells(b)[k..]
  {}

  /** A window of one row less, and a blank row below or above it. */
  lemma RowsUp(win: seq<Byte>)
    requires |win| == ALL
    ensures Cells(win[ROW..] + BlankBytes(COLS)) == Cells(win)[COLS..] + Blanks(COLS)
  {
    CellsJoin(win[ROW..], BlankBytes(COLS));
    BlankCells(COLS);
    CellsFrom(win, COLS);
  }

  lemma RowsDown(win: seq<Byte>)
    requires |win| == ALL
    ensures Cells(BlankBytes(COLS) + win[..ALL - ROW]) == Blanks(COLS) + Cells(win)[..CELLS - COLS]
  {
    CellsJoin(BlankBytes(COLS), win[..ALL - ROW]);
    BlankCells(COLS);
    CellsFrom(win, CELLS - COLS);
  }

  /** The same bytes of the window, however the video memory around it changed. */
  lemma WindowUp(mem: seq<Byte>, o: nat, mid: seq<Byte>, p: nat)
    requires o + ALL <= |mem| && p + ALL <= |mid| == |mem|
    requires mid[p..p + ALL - ROW] == mem[o + ROW..o + ALL]
    ensures var end := Splice(mid, p + ALL - ROW, BlankBytes(COLS));
      end[p..p + ALL] == mem[o..o + ALL][ROW..] + BlankBytes(COLS)
  {}

  lemma WindowDown(mem: seq<Byte>, o: nat, mid: seq<Byte>)
    requires o + ALL <= |mem| == |mid|
    requires mid[o + ROW..o + ALL] == mem[o..o + ALL - ROW]
    ensures Splice(mid, o, BlankBytes(COLS))[o..o + ALL] == BlankBytes(COLS) + mem[o..o + ALL][..ALL - ROW]
  {
    var end := Splice(mid, o, BlankBytes(COLS));
    SpliceOutside(mid, o, BlankBytes(COLS), o + ROW, o + ALL);
    SpliceInside(mid, o, BlankBytes(COLS));
    assert end[o..o + ALL] == end[o..o + ROW] + end[o + ROW..o + ALL];
    assert mem[o..o + ALL][..ALL - ROW] == mem[o..o + ALL - ROW];
  }

  class Display {
    const vmem: array<Byte>
    var x: Word
    var y: Word
    var pos: int
    var origin: int
    var scrEnd: int

    /** The window lies in video memory. */
    ghost predicate Window()
      reads this
    {
      && vmem.Length == END - START
      && START <= origin && scrEnd == origin + ALL <= END
    }

    /** And pos is the address of the cursor cell, which is one past the row when x is 80. */
    ghost predicate Valid()
      reads this
    {
      && Window()
      && x <= COLS && y < LINES
      && pos == origin + y * ROW + 2 * x
    }

    ghost function Shown(): Grid
      requires Window()
      reads this, vmem
    {
      Grid(x, y, Cells(vmem[origin - START..scrEnd - START]))
    }

    method GotoXY(newX: Word, newY: Word)
      requires Window()
      modifies this`x, this`y, this`pos
      ensures newX <= COLS && newY < LINES ==> Valid() && x == newX && y == newY
      ensures newX > COLS || newY >= LINES ==> x == old(x) && y == old(y) && pos == old(pos)
    {
      if newX > COLS || newY >= LINES {
        return;
      }
      x, y := newX, newY;
      pos := origin + y * ROW + 2 * x;
    }

    /** memset_word with video_erase_char. */
    method EraseWords(at: int, n: nat)
      requires START <= at && at + 2 * n <= START + vmem.Length
      modifies vmem
      ensures vmem[..] == Splice(old(vmem[..]), at - START, BlankBytes(n))
    {
      hide Splice;
      ghost var was := vmem[..];
      var i, d := 0, at - START;
      SpliceNothing(was, d);
      while i < n
        invariant 0 <= i <= n
        invariant vmem[..] == Splice(was, d, BlankBytes(i))
      {
        SplicePush(was, d, BlankBytes(i), 0x20);
        vmem[d + 2 * i] := 0x20;
        SplicePush(was, d, BlankBytes(i) + [0x20], 0x07);
        vmem[d + 2 * i + 1] := 0x07;
        i := i + 1;
      }
    }

    /** The window moves one row on, or with all its rows but the first back to the start. */
    method Slide()
      requires Valid()
      modifies this`pos, this`origin, this`scrEnd, vmem
      ensures Valid()
      ensures vmem[origin - START..scrEnd - ROW - START] == old(vmem[origin + ROW - START..scrEnd - START])
    {
      hide Splice;
      ghost var mem, o := vmem[..], origin - START;
      origin, pos, scrEnd := origin + ROW, pos + ROW, scrEnd + ROW;
      assert old(vmem[origin + ROW - START..scrEnd - START]) == mem[o + ROW..o + ALL];
      if scrEnd > END {
        MoveDown(vmem, 0, origin - START, (LINES - 1) * ROW);
        SpliceInside(mem, 0, mem[o + ROW..o + ALL]);
        assert vmem[0..ALL - ROW] == vmem[..][0..ALL - ROW];
        scrEnd := scrEnd - (origin - START);
        pos := pos - (origin - START);
        origin := START;
      }
    }

    method ScrUp()
      requires Valid()
      modifies this`pos, this`origin, this`scrEnd, vmem
      ensures Valid()
      ensures Shown() == ScrollUp(old(Shown()))
    {
      hide Splice, Cells, BlankBytes;
      ghost var mem, o := vmem[..], origin - START;
      assert vmem[o..o + ALL] == mem[o..o + ALL] && vmem[o + ROW..o + ALL] == mem[o + ROW..o + ALL];
      Slide();
      ghost var mid, p := vmem[..], origin - START;
      assert mid[p..p + ALL - ROW] == vmem[p..p + ALL - ROW];
      EraseWords(scrEnd - ROW, COLS);
      WindowUp(mem, o, mid, p);
      assert vmem[p..p + ALL] == vmem[..][p..p + ALL];
      RowsUp(mem[o..o + ALL]);
    }

    /** The backward string move of scrdown, four bytes at a time. */
    method ShiftRows()
      requires Valid()
      modifies vmem
      ensures vmem[origin + ROW - START..scrEnd - START] == old(vmem[origin - START..scrEnd - ROW - START])
    {
      var o, k := origin - START, ALL - ROW;
      while k > 0
        invariant 0 <= k <= ALL - ROW && k % 4 == 0
        invariant forall i :: o <= i < o + ROW + k ==> vmem[i] == old(vmem[i])
        invariant forall i :: o + ROW + k <= i < o + ALL ==> vmem[i] == old(vmem[i - ROW])
      {
        k := k - 4;
        var at := o + k;
        vmem[at + ROW], vmem[at + ROW + 1], vmem[at + ROW + 2], vmem[at + ROW + 3] :=
          vmem[at], vmem[at + 1], vmem[at + 2], vmem[at + 3];
      }
    }

    method ScrDown()
      requires Valid()
      modifies vmem
      ensures Shown() == ScrollDown(old(Shown()))
    {
      hide Splice, Cells, BlankBytes;
      ghost var mem, o := vmem[..], origin - START;
      assert vmem[o..o + ALL] == mem[o..o + ALL];
      assert vmem[o..o + ALL - ROW] == mem[o..o + ALL - ROW];
      ShiftRows();
      ghost var mid := vmem[..];
      assert mid[o + ROW..o + ALL] == mem[o..o + ALL - ROW];
      EraseWords(origin, COLS);
      WindowDown(mem, o, mid);
      assert vmem[o..o + ALL] == vmem[..][o..o + ALL];
      RowsDown(mem[o..o + ALL]);
    }

    method Lf()
      requires Valid()
      modifies this`y, this`pos, this`origin, this`scrEnd, vmem
      ensures Valid()
      ensures Shown() == LineFeed(old(Shown()))
    {
      if y + 1 < LINES {
        y := y + 1;
        pos := pos + ROW;
        return;
      }
      ScrUp();
    }

    method Cr()
      requires Valid()
      modifies this`x, this`pos
      ensures Valid() && x == 0
    {
      pos := pos - 2 * x;
      x := 0;
    }

    /** Stores a 16-bit cell at pos, which is cell k of the window. */
    method Store(lo: Byte, hi: Byte, ghost k: nat)
      requires Window() && k < CELLS && pos == origin + 2 * k
      modifies vmem
      ensures Shown() == old(Shown()).(cells := old(Shown()).cells[k := Cell(lo, hi)])
    {
      hide Cells;
      ghost var mem, o := vmem[..], origin - START;
      vmem[pos - START] := lo;
      vmem[pos + 1 - START] := hi;
      assert vmem[o..o + ALL] == vmem[..][o..o + ALL] && old(vmem[o..o + ALL]) == mem[o..o + ALL];
      StoredInWindow(mem, o, k, lo, hi);
      CellStored(mem[o..o + ALL], k, lo, hi);
    }

    /** del, and the same steps for the backspace character. */
    method Del()
      requires Valid()
      modifies this`x, this`pos, vmem
      ensures Valid()
      ensures Shown() == Erase(old(Shown()))
    {
      if x > 0 {
        pos := pos - 2;
        x := x - 1;
        Store(0x20, 0x07, y * COLS + x);
      }
    }

    method Tab()
      requires Valid()
      modifies this, vmem
      ensures Valid()
      ensures Shown() == Screen.Tab(old(Shown()))
    {
      hide Cells, LineFeed;
      var c := 8 - x % 8;
      x := x + c;
      pos := pos + 2 * c;
      if x > COLS {
        x := x - COLS;
        pos := pos - ROW;
        Lf();
      }
    }

    method Print(c: Byte)
      requires Valid()
      modifies this, vmem
      ensures Valid()
      ensures Shown() == Screen.Print(old(Shown()), c)
    {
      hide Cells, LineFeed;
      if x >= COLS {
        x := x - COLS;
        pos := pos - ROW;
        Lf();
      }
      PrintHere(c);
    }

    /** A character, left of column 80. */
    method PrintHere(c: Byte)
      requires Valid() && x < COLS
      modifies this, vmem
      ensures Valid() && origin == old(origin)
      ensures Shown() == Screen.Print(old(Shown()), c)
    {
      hide Cells, LineFeed;
      Store(c, 2, y * COLS + x);
      pos := pos + 2;
      x := x + 1;
    }

    /** The cursor keys of con_write. */
    method Key(c: Byte)
      requires 0xE0 <= c <= 0xE5
      requires Valid()
      modifies this, vmem
      ensures Window()
      ensures Valid() <==> !Escapes(old(Shown()), c)
      ensures Valid() ==> Shown() == Step(old(Shown()), c)
      ensures !Valid() ==> Shown().cells == old(Shown()).cells && pos == old(pos) && origin == old(origin)
      ensures !Valid() ==> x == Step(old(Shown()), c).x && y == Step(old(Shown()), c).y % WRAP
    {
      hide Cells, ScrollUp, ScrollDown, LineFeed, Erase, Screen.Print, Screen.Tab;
      if c == 0xE0 {
        x := 0;
      } else if c == 0xE1 {
        x := COLS - 1;
      } else if c == 0xE2 {
        if y == 0 {
          ScrDown();
          y := 0;
        } else {
          y := y - 1;
        }
      } else if c == 0xE3 {
        // y == LINES, where the source would scroll, needs a cursor already off the grid
        y := y + 1;
      } else if c == 0xE4 {
        if x == 0 {
          x := COLS;
          y := (y - 1) % WRAP;
        } else {
          x := x - 1;
        }
      } else {
        if x == COLS {
          x := 0;
          y := y + 1;
        } else {
          x := x + 1;
        }
      }
      GotoXY(x, y);
    }

    /** One turn of con_write's loop.  The window follows the plain grid, and the cursor leaves
        the grid in exactly the three cases where a cursor key pushes it off; then nothing on
        the screen changes and pos still names the old cell. */
    method PutChar(c: Byte)
      requires Valid()
      modifies this, vmem
      ensures Window()
      ensures Valid() <==> !Escapes(old(Shown()), c)
      ensures Valid() ==> Shown() == Step(old(Shown()), c) && Effect(old(Shown()), c, Shown())
      ensures !Valid() ==> Shown().cells == old(Shown()).cells && pos == old(pos) && origin == old(origin)
      ensures !Valid() ==> x == Step(old(Shown()), c).x && y == Step(old(Shown()), c).y % WRAP
    {
      hide Cells, ScrollUp, ScrollDown, LineFeed, Erase, Screen.Print, Screen.Tab, Effect;
      StepStaysOk(Shown(), c);
      StepEffect(Shown(), c);
      if 10 <= c <= 13 {
        Cr();
        Lf();
      } else if c == 127 || c == 8 {
        Del();
      } else if c == 9 {
        Tab();
      } else if c == 7 {
      } else if 0xE0 <= c <= 0xE5 {
        Key(c);
      } else if 0xE6 <= c <= 0xE9 {
      } else {
        Print(c);
      }
    }

    method ConWrite(buf: seq<Byte>)
      requires Valid() && AllStay(Shown(), buf)
      modifies this, vmem
      ensures Valid()
      ensures Shown() == Write(old(Shown()), buf)
    {
      var i := 0;
      while i < |buf|
        invariant 0 <= i <= |buf|
        invariant Valid() && AllStay(Shown(), buf[i..])
        invariant Write(Shown(), buf[i..]) == Write(old(Shown()), buf)
      {
        assert buf[i..][0] == buf[i] && buf[i..][1..] == buf[i + 1..];
        PutChar(buf[i]);
        i := i + 1;
      }
    }

    /** cls: as many spaces as there are cells, then the cursor home. */
    method Cls()
      requires Valid()
      modifies this, vmem
      ensures Valid() && x == 0 && y == 0
      ensures forall i :: 0 <= i < CELLS ==> Shown().cells[i].glyph == 0x20
    {
      var i := 0;
      while i < CELLS
        invariant 0 <= i <= CELLS && Valid()
        invariant Shown() == AfterSpaces(old(Shown()), i)
      {
        ConWrite([0x20]);
        i := i + 1;
      }
      ScreenfulOfSpaces(old(Shown()));
      GotoXY(0, 0);
    }

    /** con_init, on whatever the video memory holds. */
    constructor (memory: array<Byte>)
      requires memory.Length == END - START
      modifies memory
      ensures vmem == memory && Valid() && x == 0 && y == 0
      ensures forall i :: 0 <= i < CELLS ==> Shown().cells[i].glyph == 0x20
    {
      vmem := memory;
      x, y, pos := 0, 0, START;
      origin := START;
      scrEnd := START + LINES * ROW;
      new;
      hide Cells;
      GotoXY(0, 0);
      Cls();
      ghost var cleared := Shown().cells;
      GotoXY(0, 0);
      assert Shown().cells == cleared;
    }
  }

  /** LEFT at the top left corner leaves x at 80 and pos at the first cell, so that the next
      backspace would store below video memory. */
  method LeftFromTheCorner(memory: array<Byte>) returns (d: Display)
    requires memory.Length == END - START
    modifies memory
    ensures !d.Valid() && d.x == COLS && d.pos - 2 < d.origin
  {
    d := new Display(memory);
    d.PutChar(0xE4);
  }
}
