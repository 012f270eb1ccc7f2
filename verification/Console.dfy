/** The VGA text console of kernel/drivers/vga/vga.c: 25 rows of 80 cells in video memory,
    a cursor that wraps and a screen that scrolls.  It refines an unbounded tape. */
module Console {
  import opened Bits

  const WIDTH := 80
  const HEIGHT := 25
  const CELLS := 2000
  const WHITE_ON_BLACK := 0x0F
  const NEWLINE := 10

  datatype Cell = Cell(ch: uint8, color: uint8)

  const BLANK := Cell(32, WHITE_ON_BLACK)

  // ----- the screen as a value -----

  datatype Screen = Screen(cells: seq<Cell>, row: nat, col: nat)

  predicate Placed(s: Screen) {
    |s.cells| == CELLS && s.row < HEIGHT && s.col < WIDTH
  }

  /** All rows one line up, the last line blank. */
  function Scrolled(cells: seq<Cell>): (r: seq<Cell>)
    requires |cells| == CELLS
    ensures |r| == CELLS
  {
    cells[WIDTH..] + seq(WIDTH, (_: nat) => BLANK)
  }

  const CLEARED := Screen(seq(CELLS, (_: nat) => BLANK), 0, 0)

  /** One round of `vga_print_string`. */
  function Print1(s: Screen, ch: uint8, color: uint8): (r: Screen)
    requires Placed(s)
    ensures Placed(r)
  {
    var (cells, row, col) :=
      if ch == NEWLINE then (s.cells, s.row + 1, 0)
      else
        var drawn := s.cells[s.row * WIDTH + s.col := Cell(ch, color)];
        if s.col + 1 >= WIDTH then (drawn, s.row + 1, 0) else (drawn, s.row, s.col + 1);
    if row >= HEIGHT then Screen(Scrolled(cells), HEIGHT - 1, 0) else Screen(cells, row, col)
  }

  function Print(s: Screen, text: seq<uint8>, color: uint8): (r: Screen)
    requires Placed(s)
    ensures Placed(r)
    decreases |text|
  {
    if text == [] then s else Print(Print1(s, text[0], color), text[1..], color)
  }

  // ----- the unbounded tape -----

  /** An endless page of 80 columns: what was written where, and the next position. */
  datatype Tape = Tape(written: map<nat, Cell>, next: nat)

  const EMPTY := Tape(map[], 0)

  function Type1(t: Tape, ch: uint8, color: uint8): Tape {
    if ch == NEWLINE then t.(next := (t.next / WIDTH + 1) * WIDTH)
    else Tape(t.written[t.next := Cell(ch, color)], t.next + 1)
  }

  function TypeText(t: Tape, text: seq<uint8>, color: uint8): Tape
    decreases |text|
  {
    if text == [] then t else TypeText(Type1(t, text[0], color), text[1..], color)
  }

  function At(t: Tape, k: nat): Cell {
    if k in t.written then t.written[k] else BLANK
  }

  /** First visible row: the last 25 rows up to the cursor's. */
  function Top(t: Tape): nat {
    if t.next / WIDTH < HEIGHT then 0 else t.next / WIDTH - (HEIGHT - 1)
  }

  /** The screen shows the last 25 rows of the tape, with its cursor. */
  ghost predicate Shows(s: Screen, t: Tape) {
    && Placed(s)
    && (forall k :: k in t.written ==> k < t.next)
    && s.row == t.next / WIDTH - Top(t) && s.col == t.next % WIDTH
    && (forall k :: 0 <= k < CELLS ==> s.cells[k] == At(t, Top(t) * WIDTH + k))
  }

  lemma ClearedShowsEmpty()
    ensures Shows(CLEARED, EMPTY)
  {
  }

  /** The cells before any scrolling. */
  function Drawn(s: Screen, ch: uint8, color: uint8): (cells: seq<Cell>)
    requires Placed(s)
    ensures |cells| == CELLS
  {
    if ch == NEWLINE then s.cells else s.cells[s.row * WIDTH + s.col := Cell(ch, color)]
  }

  lemma DrawnShows(s: Screen, t: Tape, ch: uint8, color: uint8)
    requires Shows(s, t)
    ensures forall k :: 0 <= k < CELLS ==> Drawn(s, ch, color)[k] == At(Type1(t, ch, color), Top(t) * WIDTH + k)
    ensures forall k :: k in Type1(t, ch, color).written ==> k < Type1(t, ch, color).next
  {
    assert t.next == (Top(t) + s.row) * WIDTH + s.col;
  }

  /** One character on the screen is one character on the tape. */
  lemma Print1Shows(s: Screen, t: Tape, ch: uint8, color: uint8)
    requires Shows(s, t)
    ensures Shows(Print1(s, ch, color), Type1(t, ch, color))
  {
    var t' := Type1(t, ch, color);
    var cells := Drawn(s, ch, color);
    DrawnShows(s, t, ch, color);
    NextRow(t, ch, color);
    var wraps := ch == NEWLINE || t.next % WIDTH + 1 >= WIDTH;
    if wraps && s.row == HEIGHT - 1 {
      assert Top(t') == Top(t) + 1 && t'.next == (Top(t) + HEIGHT) * WIDTH;
      hide Type1;
      ScrollShows(cells, t', Top(t));
      assert Print1(s, ch, color) == Screen(Scrolled(cells), HEIGHT - 1, 0);
    } else {
      assert Top(t') == Top(t);
      hide Type1;
      assert Print1(s, ch, color) == Screen(cells, s.row + (if wraps then 1 else 0), if wraps then 0 else s.col + 1);
    }
  }

  lemma NextRow(t: Tape, ch: uint8, color: uint8)
    ensures var t' := Type1(t, ch, color);
            var wraps := ch == NEWLINE || t.next % WIDTH + 1 >= WIDTH;
            && t'.next / WIDTH == t.next / WIDTH + (if wraps then 1 else 0)
            && t'.next % WIDTH == if wraps then 0 else t.next % WIDTH + 1
  {
    assert t.next == t.next / WIDTH * WIDTH + t.next % WIDTH;
  }

  lemma ScrollShows(cells: seq<Cell>, t: Tape, top: nat)
    requires |cells| == CELLS
    requires forall k :: 0 <= k < CELLS ==> cells[k] == At(t, top * WIDTH + k)
    requires forall k :: k in t.written ==> k < t.next
    requires t.next <= (top + HEIGHT) * WIDTH
    ensures forall k :: 0 <= k < CELLS ==> Scrolled(cells)[k] == At(t, (top + 1) * WIDTH + k)
  {
    forall k | 0 <= k < CELLS
      ensures Scrolled(cells)[k] == At(t, (top + 1) * WIDTH + k)
    {
      if k < CELLS - WIDTH {
        assert Scrolled(cells)[k] == cells[k + WIDTH];
        assert top * WIDTH + (k + WIDTH) == (top + 1) * WIDTH + k;
      }
    }
  }

  lemma {:induction false} PrintShows(s: Screen, t: Tape, text: seq<uint8>, color: uint8)
    requires Shows(s, t)
    ensures Shows(Print(s, text, color), TypeText(t, text, color))
    decreases |text|
  {
    if text != [] {
      Print1Shows(s, t, text[0], color);
      PrintShows(Print1(s, text[0], color), Type1(t, text[0], color), text[1..], color);
    }
  }

  /** A text and the colour it is printed in. */
  datatype Line = Line(text: seq<uint8>, color: uint8)

  function PrintAll(s: Screen, lines: seq<Line>): (r: Screen)
    requires Placed(s)
    ensures Placed(r)
    decreases |lines|
  {
    if lines == [] then s else PrintAll(Print(s, lines[0].text, lines[0].color), lines[1..])
  }

  function TypeAll(t: Tape, lines: seq<Line>): Tape
    decreases |lines|
  {
    if lines == [] then t else TypeAll(TypeText(t, lines[0].text, lines[0].color), lines[1..])
  }

  /** After any sequence of printed texts in any colours, the screen shows the last rows of
      the tape, and the cursor is where the tape says. */
  lemma {:induction false} ScreenIsWindowOnTape(s: Screen, t: Tape, lines: seq<Line>)
    requires Shows(s, t)
    ensures Shows(PrintAll(s, lines), TypeAll(t, lines))
    decreases |lines|
  {
    if lines != [] {
      PrintShows(s, t, lines[0].text, lines[0].color);
      ScreenIsWindowOnTape(Print(s, lines[0].text, lines[0].color), TypeText(t, lines[0].text, lines[0].color), lines[1..]);
    }
  }

  /** From a cleared screen on, whatever is printed: the last rows of all of it. */
  lemma ScreenAfterClear(lines: seq<Line>)
    ensures Shows(PrintAll(CLEARED, lines), TypeAll(EMPTY, lines))
  {
    ClearedShowsEmpty();
    ScreenIsWindowOnTape(CLEARED, EMPTY, lines);
  }

  /** Printing a text in two parts is printing it at once. */
  lemma {:induction false} PrintInParts(s: Screen, a: seq<uint8>, b: seq<uint8>, color: uint8)
    requires Placed(s)
    ensures Print(Print(s, a, color), b, color) == Print(s, a + b, color)
    decreases |a|
  {
    if a == [] {
      assert a + b == b;
    } else {
      PrintInParts(Print1(s, a[0], color), a[1..], b, color);
      assert (a + b)[1..] == a[1..] + b;
    }
  }

  // ----- the tape, in plain terms -----

  /** A text without line feeds fills the cells from the next position on. */
  lemma {:induction false} TypePlain(t: Tape, text: seq<uint8>, color: uint8)
    requires 10 !in text
    ensures var t' := TypeText(t, text, color);
            && t'.next == t.next + |text|
            && forall k :: 0 <= k ==> At(t', k) == if t.next <= k < t.next + |text| then Cell(text[k - t.next], color) else At(t, k)
    decreases |text|
  {
    if text != [] {
      var t1 := Type1(t, text[0], color);
      TypePlain(t1, text[1..], color);
      assert forall k :: 0 <= k ==> At(t1, k) == if k == t.next then Cell(text[0], color) else At(t, k);
    }
  }

  /** A line feed moves to the next multiple of 80 and writes nothing. */
  lemma TypeLineFeed(t: Tape, color: uint8)
    ensures var t' := TypeText(t, [10], color);
            && t'.written == t.written && t'.next % 80 == 0 && t.next < t'.next <= t.next + 80
  {
    assert TypeText(t, [10], color) == TypeText(Type1(t, 10, color), [], color);
  }

  lemma {:induction false} TypeInParts(t: Tape, a: seq<uint8>, b: seq<uint8>, color: uint8)
    ensures TypeText(TypeText(t, a, color), b, color) == TypeText(t, a + b, color)
    decreases |a|
  {
    if a == [] {
      assert a + b == b;
    } else {
      TypeInParts(Type1(t, a[0], color), a[1..], b, color);
      assert (a + b)[1..] == a[1..] + b;
    }
  }

  /** The 2000 cells of the screen are those of the tape from row `top` on, which is 0 until
      the cursor leaves row 24; the tape starts blank: white-on-black spaces. */
  lemma ShowsRows(s: Screen, t: Tape)
    requires Shows(s, t)
    ensures var top := if t.next / 80 <= 24 then 0 else t.next / 80 - 24;
            && s.row == t.next / 80 - top && s.col == t.next % 80
            && |s.cells| == 2000 && forall k :: 0 <= k < 2000 ==> s.cells[k] == At(t, 80 * top + k)
    ensures forall k :: 0 <= k ==> At(EMPTY, k) == Cell(32, 0x0F)
  {
    var top := if t.next / 80 <= 24 then 0 else t.next / 80 - 24;
    assert top == Top(t);
  }

  // ----- video memory -----

  /** The text before the terminating zero. */
  function TextOf(str: seq<uint8>): (text: seq<uint8>)
    requires 0 in str
    ensures |text| < |str| && str[|text|] == 0 && text == str[..|text|] && 0 !in text
  {
    if str[0] == 0 then [] else [str[0]] + TextOf(str[1..])
  }

  /** Video memory while scrolling: the first `n` cells already hold the next row's. */
  function MovedUp(cells: seq<Cell>, n: nat): (r: seq<Cell>)
    requires |cells| == CELLS && n <= CELLS - WIDTH
    ensures |r| == CELLS
  {
    cells[WIDTH..WIDTH + n] + cells[n..]
  }

  lemma MoveOneMore(cells: seq<Cell>, n: nat)
    requires |cells| == CELLS && n < CELLS - WIDTH
    ensures MovedUp(cells, n)[n + WIDTH] == cells[n + WIDTH]
    ensures MovedUp(cells, n)[n := cells[n + WIDTH]] == MovedUp(cells, n + 1)
  {
  }

  /** The first `n` cells of the last line are blank. */
  function Blanked(cells: seq<Cell>, n: nat): seq<Cell>
    requires |cells| == CELLS && n <= WIDTH
  {
    cells[..CELLS - WIDTH] + seq(n, (_: nat) => BLANK) + cells[CELLS - WIDTH + n..]
  }

  class Vga {
    const vga: array<uint8>
    var cursorRow: nat
    var cursorCol: nat

    ghost predicate Valid()
      reads this
    {
      vga.Length == 2 * CELLS && cursorRow < HEIGHT && cursorCol < WIDTH
    }

    ghost function CellAt(k: nat): Cell
      requires vga.Length == 2 * CELLS && k < CELLS
      reads vga
    {
      Cell(vga[2 * k], vga[2 * k + 1])
    }

    ghost function Cells(): (s: seq<Cell>)
      requires vga.Length == 2 * CELLS
      reads vga
      ensures |s| == CELLS && forall k :: 0 <= k < CELLS ==> s[k] == CellAt(k)
    {
      seq(CELLS, k requires 0 <= k < CELLS && vga.Length == 2 * CELLS reads vga => CellAt(k))
    }

    ghost function Value(): (s: Screen)
      requires Valid()
      reads this, vga
      ensures Placed(s)
    {
      Screen(Cells(), cursorRow, cursorCol)
    }

    /** `vga_init` */
    constructor ()
      ensures Valid() && Value() == CLEARED && fresh(vga)
    {
      vga := new uint8[2 * CELLS];
      cursorRow, cursorCol := 0, 0;
      new;
      ClearScreen();
    }

    /** The two bytes of one cell. */
    method WriteCell(k: nat, c: uint8, color: uint8)
      requires vga.Length == 2 * CELLS && k < CELLS
      modifies vga
      ensures Cells() == old(Cells())[k := Cell(c, color)]
      ensures vga[2 * k] == c && vga[2 * k + 1] == color
      ensures forall j :: 0 <= j < 4000 && j / 2 != k ==> vga[j] == old(vga[j])
    {
      ghost var before := Cells();
      vga[2 * k] := c;
      vga[2 * k + 1] := color;
      forall j | 0 <= j < CELLS
        ensures Cells()[j] == before[k := Cell(c, color)][j]
      {
        assert CellAt(j) == if j == k then Cell(c, color) else old(CellAt(j));
      }
      assert Cells() == before[k := Cell(c, color)];
    }

    /** `vga_clear_screen` */
    method ClearScreen()
      requires Valid()
      modifies this, vga
      ensures Valid() && Value() == CLEARED && cursorRow == cursorCol == 0
      ensures forall j :: 0 <= j < 4000 ==> vga[j] == if j % 2 == 0 then 32 else 0x0F
    {
      for i := 0 to CELLS
        invariant Valid() && Cells()[..i] == CLEARED.cells[..i]
        invariant forall j :: 0 <= j < 2 * i ==> vga[j] == if j % 2 == 0 then 32 else 0x0F
      {
        WriteCell(i, BLANK.ch, WHITE_ON_BLACK);
      }
      cursorRow, cursorCol := 0, 0;
      assert Cells() == CLEARED.cells;
    }

    /** `vga_put_char` */
    method PutChar(c: uint8, color: uint8)
      requires Valid()
      modifies vga
      ensures Cells() == old(Cells())[cursorRow * WIDTH + cursorCol := Cell(c, color)]
      ensures var k := 80 * cursorRow + cursorCol;
              && vga[2 * k] == c && vga[2 * k + 1] == color
              && forall j :: 0 <= j < 4000 && j / 2 != k ==> vga[j] == old(vga[j])
    {
      WriteCell(cursorRow * WIDTH + cursorCol, c, color);
    }

    /** `vga_scroll_up` */
    method ScrollUp()
      requires vga.Length == 2 * CELLS
      modifies vga
      ensures Cells() == Scrolled(old(Cells()))
      ensures forall j :: 0 <= j < 3840 ==> vga[j] == old(vga[j + 160])
      ensures forall j :: 3840 <= j < 4000 ==> vga[j] == if j % 2 == 0 then 32 else 0x0F
    {
      ghost var before, raw := Cells(), vga[..];
      RawBytes();
      MoveRows();
      BlankLastLine();
      assert Cells() == Scrolled(before);
      RawBytes();
      RawScrolled(raw, before, vga[..], Cells());
    }

    lemma RawScrolled(raw: seq<uint8>, cells: seq<Cell>, raw': seq<uint8>, cells': seq<Cell>)
      requires |raw| == |raw'| == 4000 && |cells| == CELLS && cells' == Scrolled(cells)
      requires forall k :: 0 <= k < 2000 ==> raw[2 * k] == cells[k].ch && raw[2 * k + 1] == cells[k].color
      requires forall k :: 0 <= k < 2000 ==> raw'[2 * k] == cells'[k].ch && raw'[2 * k + 1] == cells'[k].color
      ensures forall j :: 0 <= j < 3840 ==> raw'[j] == raw[j + 160]
      ensures forall j :: 3840 <= j < 4000 ==> raw'[j] == if j % 2 == 0 then 32 else 0x0F
    {
      RawAreCells(raw, cells);
      RawAreCells(raw', cells');
      forall j | 0 <= j < 3840
        ensures raw'[j] == raw[j + 160]
      {
        assert (j + 160) / 2 == j / 2 + WIDTH && (j + 160) % 2 == j % 2;
      }
    }

    /** Character and colour of cell `k` are the bytes `2 * k` and `2 * k + 1`. */
    lemma RawBytes()
      requires vga.Length == 2 * CELLS
      ensures forall k :: 0 <= k < 2000 ==> vga[2 * k] == Cells()[k].ch && vga[2 * k + 1] == Cells()[k].color
    {
    }

    /** Byte by byte. */
    lemma RawAreCells(raw: seq<uint8>, cells: seq<Cell>)
      requires |raw| == 4000 && |cells| == CELLS
      requires forall k :: 0 <= k < 2000 ==> raw[2 * k] == cells[k].ch && raw[2 * k + 1] == cells[k].color
      ensures forall j :: 0 <= j < 4000 ==> raw[j] == if j % 2 == 0 then cells[j / 2].ch else cells[j / 2].color
    {
      forall j | 0 <= j < 4000
        ensures raw[j] == if j % 2 == 0 then cells[j / 2].ch else cells[j / 2].color
      {
        assert j == 2 * (j / 2) + j % 2;
      }
    }

    /** Its first loop: every row one line up. */
    method MoveRows()
      requires vga.Length == 2 * CELLS
      modifies vga
      ensures Cells() == MovedUp(old(Cells()), CELLS - WIDTH)
    {
      ghost var before := Cells();
      assert MovedUp(before, 0) == before;
      hide MovedUp;
      for row := 1 to HEIGHT
        invariant Cells() == MovedUp(before, (row - 1) * WIDTH)
      {
        for col := 0 to WIDTH
          invariant Cells() == MovedUp(before, (row - 1) * WIDTH + col)
        {
          MoveOneMore(before, (row - 1) * WIDTH + col);
          CopyCell(row * WIDTH + col, (row - 1) * WIDTH + col);
        }
      }
    }

    method CopyCell(src: nat, dst: nat)
      requires vga.Length == 2 * CELLS && src < CELLS && dst < CELLS
      modifies vga
      ensures Cells() == old(Cells())[dst := old(Cells())[src]]
    {
      assert Cells()[src] == CellAt(src);
      WriteCell(dst, vga[2 * src], vga[2 * src + 1]);
    }

    /** Its second loop: the last line becomes blank. */
    method BlankLastLine()
      requires vga.Length == 2 * CELLS
      modifies vga
      ensures Cells() == Blanked(old(Cells()), WIDTH)
    {
      ghost var before := Cells();
      assert Blanked(before, 0) == before;
      for col := 0 to WIDTH
        invariant Cells() == Blanked(before, col)
      {
        assert Blanked(before, col)[(HEIGHT - 1) * WIDTH + col := BLANK] == Blanked(before, col + 1);
        WriteCell((HEIGHT - 1) * WIDTH + col, BLANK.ch, WHITE_ON_BLACK);
      }
    }

    /** One round of the loop of `vga_print_string`. */
    method PrintChar(c: uint8, color: uint8)
      requires Valid()
      modifies this, vga
      ensures Valid() && Value() == Print1(old(Value()), c, color)
    {
      if c == NEWLINE {
        cursorRow := cursorRow + 1;
        cursorCol := 0;
      } else {
        PutChar(c, color);
        cursorCol := cursorCol + 1;
        if cursorCol >= WIDTH {
          cursorRow := cursorRow + 1;
          cursorCol := 0;
        }
      }
      if cursorRow >= HEIGHT {
        ScrollUp();
        cursorRow := HEIGHT - 1;
        cursorCol := 0;
      }
    }

    /** `vga_print_string` on a zero-terminated string. */
    method PrintString(str: seq<uint8>, color: uint8)
      requires Valid() && 0 in str
      modifies this, vga
      ensures Valid() && Value() == Print(old(Value()), TextOf(str), color)
      ensures forall t :: Shows(old(Value()), t) ==> Shows(Value(), TypeText(t, TextOf(str), color))
      ensures forall k :: 0 <= k < 2000 ==> vga[2 * k] == Value().cells[k].ch && vga[2 * k + 1] == Value().cells[k].color
    {
      ghost var s, text := Value(), TextOf(str);
      var i := 0;
      assert text[..0] == [];
      while str[i] != 0
        invariant Valid() && i <= |text| && Value() == Print(s, text[..i], color)
        decreases |text| - i
      {
        assert text[i] == str[i];
        PrintInParts(s, text[..i], [str[i]], color);
        assert text[..i] + [str[i]] == text[..i + 1];
        assert Print(Value(), [str[i]], color) == Print1(Value(), str[i], color);
        PrintChar(str[i], color);
        i := i + 1;
      }
      assert text[..i] == text;
      RawBytes();
      forall t | Shows(s, t)
        ensures Shows(Value(), TypeText(t, text, color))
      {
        PrintShows(s, t, text, color);
      }
    }
  }
}
