/** The text screen: 25 rows of 80 cells that scroll, as a window onto a log that never scrolls. */
module Screens {
  import opened Word

  const WIDTH := 80
  const HEIGHT := 25
  const CELLS := WIDTH * HEIGHT

  type u8 = x: int | 0 <= x < 256
  type u16 = x: int | 0 <= x < 0x1_0000
  type Row = seq<u16>

  /** A character in the low byte, its colours in the high byte. */
  function Cell(c: s8, attrib: u8): u16
    requires c >= 0
  {
    c + 0x100 * attrib
  }

  function Blank(attrib: u8): u16 { Cell(32, attrib) }

  /** Where a character moves the column, and whether it then goes on to the next row. A printable character
      also puts a cell at the old column. */
  predicate Printable(c: s8) { c >= 32 }

  function Column(c: s8, x: nat): nat {
    if c == 8 then (if x != 0 then x - 1 else x)
    else if c == 9 then (x + 8) - (x + 8) % 8
    else if c == 13 || c == 10 then 0
    else if Printable(c) then x + 1
    else x
  }

  predicate Breaks(c: s8, x: nat) {
    c == 10 || Column(c, x) >= WIDTH
  }

  function NewColumn(c: s8, x: nat): nat {
    if Column(c, x) >= WIDTH then 0 else Column(c, x)
  }

  /** A byte shifted left by four bits. */
  lemma ShiftedColour(b: u8)
    ensures (b * 16) % 256 == b % 16 * 16
  {
  }

  function Colours(foreground: u8, background: u8): u8 {
    background % 16 * 16 + foreground % 16
  }

  // ---------------------------------------------------------------- the screen

  /** The cells in reading order, the cursor and the current colours. */
  datatype State = State(cells: seq<u16>, x: nat, y: nat, attrib: u8) {
    predicate Valid() {
      |cells| == CELLS && x < WIDTH && y < HEIGHT
    }
  }

  function Scrolled(cells: seq<u16>, attrib: u8): seq<u16>
    requires |cells| == CELLS
  {
    cells[WIDTH..] + seq(WIDTH, _ => Blank(attrib))
  }

  function Put(st: State, c: s8): (st': State)
    requires st.Valid()
    ensures st'.Valid()
  {
    var cells := if Printable(c) then st.cells[st.y * WIDTH + st.x := Cell(c, st.attrib)] else st.cells;
    var y := if Breaks(c, st.x) then st.y + 1 else st.y;
    if y >= HEIGHT then State(Scrolled(cells, st.attrib), NewColumn(c, st.x), HEIGHT - 1, st.attrib)
    else State(cells, NewColumn(c, st.x), y, st.attrib)
  }

  // ---------------------------------------------------------------- the log

  /** Every row ever written, none of them ever moved or dropped. */
  datatype Log = Log(rows: seq<Row>, x: nat, y: nat, attrib: u8) {
    predicate Valid() {
      && HEIGHT <= |rows| && x < WIDTH && Top() <= y < |rows|
      && forall i :: 0 <= i < |rows| ==> |rows[i]| == WIDTH
    }

    /** The first row on the screen. */
    function Top(): int { |rows| - HEIGHT }
  }

  function SetCell(rows: seq<Row>, y: nat, x: nat, v: u16): seq<Row>
    requires y < |rows| && x < |rows[y]|
  {
    var row: Row := rows[y];
    var row': Row := row[x := v];
    rows[y := row']
  }

  function LogPut(log: Log, c: s8): Log
    requires log.Valid()
  {
    var rows := if Printable(c) then SetCell(log.rows, log.y, log.x, Cell(c, log.attrib)) else log.rows;
    var y := if Breaks(c, log.x) then log.y + 1 else log.y;
    Log(if y == |rows| then rows + [seq(WIDTH, _ => Blank(log.attrib))] else rows, NewColumn(c, log.x), y, log.attrib)
  }

  function WindowCells(rows: seq<Row>): seq<u16>
    requires HEIGHT <= |rows| && forall i :: 0 <= i < |rows| ==> |rows[i]| == WIDTH
  {
    seq(CELLS, k requires 0 <= k < CELLS => rows[|rows| - HEIGHT + k / WIDTH][k % WIDTH])
  }

  /** The last 25 rows of the log, and the cursor among them. */
  function Window(log: Log): State
    requires log.Valid()
  {
    State(WindowCells(log.rows), log.x, log.y - log.Top(), log.attrib)
  }

  // ---------------------------------------------------------------- one character

  lemma CellWritten(rows: seq<Row>, y: nat, x: nat, v: u16)
    requires HEIGHT <= |rows| && |rows| - HEIGHT <= y < |rows| && x < WIDTH
    requires forall i :: 0 <= i < |rows| ==> |rows[i]| == WIDTH
    ensures var rows' := SetCell(rows, y, x, v);
            WindowCells(rows') == WindowCells(rows)[(y - (|rows| - HEIGHT)) * WIDTH + x := v]
  {
  }

  lemma RowAppended(rows: seq<Row>, attrib: u8)
    requires HEIGHT <= |rows| && forall i :: 0 <= i < |rows| ==> |rows[i]| == WIDTH
    ensures WindowCells(rows + [seq(WIDTH, _ => Blank(attrib))]) == Scrolled(WindowCells(rows), attrib)
  {
  }

  /** Printing a character on the window shows what printing it in the log makes visible. */
  lemma PutCommutes(log: Log, c: s8)
    requires log.Valid()
    ensures LogPut(log, c).Valid() && Window(LogPut(log, c)) == Put(Window(log), c)
  {
    CellWritten(log.rows, log.y, log.x, if Printable(c) then Cell(c, log.attrib) else 0);
    var rows := if Printable(c) then SetCell(log.rows, log.y, log.x, Cell(c, log.attrib)) else log.rows;
    RowAppended(rows, log.attrib);
  }

  // ---------------------------------------------------------------- runs

  datatype Event = Character(c: s8) | Colour(foreground: u8, background: u8)

  function Shown(st: State, events: seq<Event>): State
    requires st.Valid()
    decreases |events|
  {
    if events == [] then st
    else Shown(match events[0]
               case Character(c) => Put(st, c)
               case Colour(f, b) => st.(attrib := Colours(f, b)), events[1..])
  }

  function Logged(log: Log, events: seq<Event>): Log
    requires log.Valid()
    decreases |events|
  {
    if events == [] then log
    else
      match events[0]
      case Character(c) => PutCommutes(log, c); Logged(LogPut(log, c), events[1..])
      case Colour(f, b) => Logged(log.(attrib := Colours(f, b)), events[1..])
  }

  /** Whatever is printed in whatever colours, the screen shows the last 25 rows of the log. */
  lemma {:induction false} ScreenIsWindow(log: Log, events: seq<Event>)
    requires log.Valid()
    ensures Logged(log, events).Valid() && Shown(Window(log), events) == Window(Logged(log, events))
    decreases |events|
  {
    if events == [] {
    } else {
      match events[0] {
        case Character(c) =>
          PutCommutes(log, c);
          ScreenIsWindow(LogPut(log, c), events[1..]);
        case Colour(f, b) =>
          ScreenIsWindow(log.(attrib := Colours(f, b)), events[1..]);
      }
    }
  }

  /** Rows above the screen are final: nothing printed later changes them. */
  lemma {:induction false} ScrolledRowsAreFinal(log: Log, events: seq<Event>, i: nat)
    requires log.Valid() && i < log.Top()
    ensures |log.rows| <= |Logged(log, events).rows| && Logged(log, events).rows[i] == log.rows[i]
    decreases |events|
  {
    if events == [] {
    } else {
      match events[0] {
        case Character(c) =>
          PutCommutes(log, c);
          ScrolledRowsAreFinal(LogPut(log, c), events[1..], i);
        case Colour(f, b) =>
          ScrolledRowsAreFinal(log.(attrib := Colours(f, b)), events[1..], i);
      }
    }
  }

  /** The log a run starts from: the screen as it is. */
  function Initial(st: State): (log: Log)
    requires st.Valid()
    ensures log.Valid()
  {
    Log(seq(HEIGHT, i requires 0 <= i < HEIGHT => st.cells[i * WIDTH..(i + 1) * WIDTH]), st.x, st.y, st.attrib)
  }

  /** From any screen on, what is shown is the last 25 rows of the log that starts with it. */
  lemma ScreenFromAnyStart(st: State, events: seq<Event>)
    requires st.Valid()
    ensures Logged(Initial(st), events).Valid() && Shown(st, events) == Window(Logged(Initial(st), events))
  {
    var w := WindowCells(Initial(st).rows);
    forall k | 0 <= k < CELLS
      ensures w[k] == st.cells[k]
    {
      assert k / WIDTH * WIDTH + k % WIDTH == k;
    }
    assert w == st.cells;
    ScreenIsWindow(Initial(st), events);
  }

  // ---------------------------------------------------------------- the driver

  class Screen {
    const vgaMem: array<u16>
    var csrX: u8
    var csrY: u8
    var attrib: u8

    predicate Valid()
      reads this
    {
      vgaMem.Length == CELLS && csrX < WIDTH && csrY < HEIGHT
    }

    ghost function View(): State
      reads this, vgaMem
    {
      State(vgaMem[..], csrX, csrY, attrib)
    }

    /** White on black, cursor in the corner, over whatever the memory holds. */
    constructor (vgaMem: array<u16>)
      requires vgaMem.Length == CELLS
      ensures Valid() && this.vgaMem == vgaMem && View() == State(vgaMem[..], 0, 0, 0x0F)
    {
      this.vgaMem := vgaMem;
      csrX, csrY, attrib := 0, 0, 0x0F;
    }

    method SetTextColor(foreground: u8, background: u8)
      requires Valid()
      modifies this`attrib
      ensures Valid() && View() == old(View()).(attrib := Colours(foreground, background))
    {
      ShiftedColour(background);
      attrib := (background * 16) % 256 + foreground % 16;
    }

    method PutChar(c: s8)
      requires Valid()
      modifies this`csrX, this`csrY, vgaMem
      ensures Valid() && View() == Put(old(View()), c)
    {
      ghost var st := View();
      if c == 0x08 {
        if csrX != 0 {
          csrX := csrX - 1;
        }
      } else if c == 0x09 {
        csrX := (csrX + 8) - (csrX + 8) % 8;
      } else if c == 13 {
        csrX := 0;
      } else if c == 10 {
        csrX := 0;
        csrY := csrY + 1;
      } else if c >= 32 {
        vgaMem[csrY * WIDTH + csrX] := c + 0x100 * attrib;
        csrX := csrX + 1;
      }
      if csrX >= WIDTH {
        csrX := 0;
        csrY := csrY + 1;
      }
      Scroll();
    }

    method Scroll()
      requires vgaMem.Length == CELLS && csrY <= HEIGHT
      modifies this`csrY, vgaMem
      ensures csrY < HEIGHT
      ensures old(csrY) < HEIGHT ==> csrY == old(csrY) && vgaMem[..] == old(vgaMem[..])
      ensures old(csrY) == HEIGHT ==> csrY == HEIGHT - 1 && vgaMem[..] == Scrolled(old(vgaMem[..]), attrib)
    {
      if csrY >= HEIGHT {
        ghost var was := vgaMem[..];
        for i := 0 to (HEIGHT - 1) * WIDTH
          invariant forall k :: 0 <= k < i ==> vgaMem[k] == was[k + WIDTH]
          invariant forall k :: i <= k < CELLS ==> vgaMem[k] == was[k]
        {
          vgaMem[i] := vgaMem[i + WIDTH];
        }
        for i := (HEIGHT - 1) * WIDTH to CELLS
          invariant forall k :: 0 <= k < (HEIGHT - 1) * WIDTH ==> vgaMem[k] == was[k + WIDTH]
          invariant forall k :: (HEIGHT - 1) * WIDTH <= k < i ==> vgaMem[k] == Blank(attrib)
        {
          vgaMem[i] := 0x20 + 0x100 * attrib;
        }
        csrY := HEIGHT - 1;
        assert vgaMem[..] == Scrolled(was, attrib);
      }
    }
  }
}
