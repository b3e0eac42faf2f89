/**
  The graphics text console of efi/graphics.c with the cursor of
  efi/efigraph.c: an 80x30 buffer of character cells. `graphics_putchar` and
  `graphics_scroll` call each other; only the `scroll` flag stops them.
 */
module Console {

  const COLUMNS: nat := 80
  const ROWS: nat := 30
  const CELLS: nat := 2400

  /** A cell: the character in the low byte, 0x100 for highlighting, 0x200 while the cursor is drawn. */
  type Cell = bv16

  const SPACE: bv32 := 0x20
  const LF: bv32 := 0x0a
  const CR: bv32 := 0x0d
  const CLEARED: Cell := 0x20

  function MakeCell(ch: bv32, highlight: bool): Cell {
    ((ch & 0xff) as Cell) | (if highlight then 0x100 else 0)
  }

  predicate Clean(c: Cell) {
    c & 0x200 == 0
  }

  // ----- the terminal

  datatype Screen = Screen(cells: seq<Cell>, x: nat, y: nat)

  ghost predicate Proper(s: Screen) {
    |s.cells| == CELLS && s.x < COLUMNS && s.y < ROWS && forall i :: 0 <= i < CELLS ==> Clean(s.cells[i])
  }

  /** One line up, a blank bottom line, and the cursor at its beginning. */
  function ScrollUp(s: Screen, blank: Cell): Screen
    requires |s.cells| == CELLS
  {
    Screen(s.cells[COLUMNS..] + seq(COLUMNS, _ => blank), 0, ROWS - 1)
  }

  /** What a character does to the terminal. A line feed keeps the column, except on the bottom line. */
  function Put(s: Screen, ch: bv32, highlight: bool): Screen
    requires |s.cells| == CELLS && s.x < COLUMNS && s.y < ROWS
  {
    var blank := MakeCell(SPACE, highlight);
    if ch & 0xff == LF then
      if s.y + 1 < ROWS then s.(y := s.y + 1) else ScrollUp(s, blank)
    else if ch & 0xff == CR then s.(x := 0)
    else
      var t := s.(cells := s.cells[s.x + s.y * COLUMNS := MakeCell(ch, highlight)]);
      if s.x + 1 < COLUMNS then t.(x := s.x + 1)
      else if s.y + 1 < ROWS then t.(x := 0, y := s.y + 1)
      else ScrollUp(t, blank)
  }

  lemma PutIsProper(s: Screen, ch: bv32, highlight: bool)
    requires Proper(s)
    ensures Proper(Put(s, ch, highlight))
  {
    MakeCellIsClean(ch, highlight);
    MakeCellIsClean(SPACE, highlight);
  }

  lemma MakeCellIsClean(ch: bv32, highlight: bool)
    ensures Clean(MakeCell(ch, highlight))
  {
    var low := (ch & 0xff) as Cell;
    assert low & 0x200 == 0;
  }

  lemma MakeCellIs(ch: bv32, highlight: bool)
    ensures MakeCell(ch, highlight) == if highlight then (ch & 0xff) as Cell | 0x100 else (ch & 0xff) as Cell
  {
    var low := (ch & 0xff) as Cell;
    assert low | 0 == low;
  }

  /** A whole text; the terminal stays in order for any characters whatever. */
  ghost function PutAll(s: Screen, text: seq<bv32>, highlight: bool): (t: Screen)
    requires Proper(s)
    ensures Proper(t)
  {
    if text == [] then s else
    var n := |text| - 1;
    var t := PutAll(s, text[..n], highlight);
    PutIsProper(t, text[n], highlight);
    Put(t, text[n], highlight)
  }

  /** Which characters move the cursor alone, and what the others are as a cell. */
  lemma Characters(s: Screen, ch: bv32, highlight: bool)
    requires Proper(s) && s.y < 29 && s.x < 79
    ensures Put(s, 0x0a, highlight) == s.(y := s.y + 1) && Put(s, 0x0d, highlight) == s.(x := 0)
    ensures ch < 0x100 && ch != 0x0a && ch != 0x0d ==>
              var cell := if highlight then ch as bv16 | 0x100 else ch as bv16;
              Put(s, ch, highlight) == s.(x := s.x + 1, cells := s.cells[s.y * 80 + s.x := cell])
  {
    MakeCellIs(ch, highlight);
    assert ch < 0x100 ==> ch & 0xff == ch;
    hide MakeCell;
  }

  // ----- wrapping and scrolling as a window over one endless sheet

  /** A sheet of 80 columns that never ends: what has been written on it, by its place (80 to a line), and where the
      next character goes. */
  datatype Sheet = Sheet(ink: map<nat, Cell>, line: nat, column: nat) {
    /** Nothing has been written below the current line. */
    ghost predicate Proper() {
      column < COLUMNS && forall k :: k in ink ==> k < (line + 1) * COLUMNS
    }

    /** Places not written on are as they were cleared, or, below the first screen, as scrolling brings them in. */
    ghost function At(k: nat, highlight: bool): Cell {
      if k in ink then ink[k] else if k < CELLS then CLEARED else MakeCell(SPACE, highlight)
    }

    /** A character on the sheet. From line 29 on a line feed goes to the beginning of the next line. */
    ghost function Type(ch: bv32, highlight: bool): Sheet {
      if ch & 0xff == LF then Sheet(ink, line + 1, if line + 1 < ROWS then column else 0)
      else if ch & 0xff == CR then Sheet(ink, line, 0)
      else
        var more := ink[line * COLUMNS + column := MakeCell(ch, highlight)];
        if column + 1 < COLUMNS then Sheet(more, line, column + 1) else Sheet(more, line + 1, 0)
    }
  }

  /** The sheet after `text`. */
  ghost function Typed(text: seq<bv32>, highlight: bool): Sheet {
    if text == [] then Sheet(map[], 0, 0) else Typed(text[..|text| - 1], highlight).Type(text[|text| - 1], highlight)
  }

  /** The first line in sight when `line` is the current one. */
  ghost function Top(line: nat): nat {
    if line < ROWS then 0 else line - (ROWS - 1)
  }

  /** The screen shows `cells` from line `top` of the sheet on. */
  ghost predicate Shows(cells: seq<Cell>, p: Sheet, highlight: bool, top: nat) {
    |cells| == CELLS && forall i :: 0 <= i < CELLS ==> cells[i] == p.At(top * COLUMNS + i, highlight)
  }

  /** The window over the sheet that keeps the current line in sight. */
  ghost predicate IsWindow(s: Screen, p: Sheet, highlight: bool) {
    && p.Proper() && s.x == p.column && s.y == p.line - Top(p.line)
    && Shows(s.cells, p, highlight, Top(p.line))
  }

  /** Writing at the cursor is writing on the sheet. */
  lemma InkShows(cells: seq<Cell>, p: Sheet, highlight: bool, top: nat, at: nat, cell: Cell, line: nat, column: nat)
    requires Shows(cells, p, highlight, top) && at < CELLS
    ensures Shows(cells[at := cell], Sheet(p.ink[top * COLUMNS + at := cell], line, column), highlight, top)
  {
    hide MakeCell;
  }

  /** Scrolling moves the window one line down. */
  lemma ScrollShows(s: Screen, p: Sheet, highlight: bool)
    requires p.line >= ROWS - 1 && p.Proper() && Shows(s.cells, p, highlight, p.line - ROWS + 1)
    ensures Shows(ScrollUp(s, MakeCell(SPACE, highlight)).cells, p, highlight, p.line - ROWS + 2)
  {
    var blank := MakeCell(SPACE, highlight);
    hide MakeCell;
    var t, top := ScrollUp(s, blank), p.line - ROWS + 1;
    forall i | 0 <= i < CELLS ensures t.cells[i] == p.At((top + 1) * COLUMNS + i, highlight) {
      if i < CELLS - COLUMNS {
        assert t.cells[i] == s.cells[i + COLUMNS];
      } else {
        assert t.cells[i] == blank && (top + 1) * COLUMNS + i !in p.ink;
      }
    }
  }

  /** What is shown does not depend on where the next character goes. */
  lemma ShowsAlike(cells: seq<Cell>, p: Sheet, q: Sheet, highlight: bool, top: nat)
    requires Shows(cells, p, highlight, top) && q.ink == p.ink
    ensures Shows(cells, q, highlight, top)
  {
  }

  /** To the next line of the sheet. */
  lemma WindowOnNextLine(s: Screen, p: Sheet, column: nat, highlight: bool)
    requires IsWindow(s, p, highlight) && column < COLUMNS
    ensures s.y < ROWS
    ensures var t := if s.y + 1 < ROWS then s.(x := column, y := s.y + 1)
                     else ScrollUp(s, MakeCell(SPACE, highlight));
      IsWindow(t, Sheet(p.ink, p.line + 1, if p.line + 1 < ROWS then column else 0), highlight)
  {
    var q := Sheet(p.ink, p.line + 1, if p.line + 1 < ROWS then column else 0);
    hide MakeCell;
    if p.line + 1 < ROWS {
      ShowsAlike(s.cells, p, q, highlight, 0);
    } else {
      ScrollShows(s, p, highlight);
      ShowsAlike(ScrollUp(s, MakeCell(SPACE, highlight)).cells, p, q, highlight, Top(q.line));
    }
    hide Shows;
  }

  /** The character at the cursor. */
  lemma WindowInked(s: Screen, p: Sheet, cell: Cell, highlight: bool)
    requires IsWindow(s, p, highlight)
    ensures |s.cells| == CELLS && s.x == p.column < COLUMNS && s.y < ROWS && (s.y + 1 < ROWS <==> p.line + 1 < ROWS)
    ensures var t := s.(cells := s.cells[s.x + s.y * COLUMNS := cell]);
      IsWindow(t, Sheet(p.ink[p.line * COLUMNS + p.column := cell], p.line, p.column), highlight)
  {
    assert |s.cells| == CELLS;
    hide MakeCell, Shows, Sheet.At;
    var top, at := Top(p.line), s.x + s.y * COLUMNS;
    assert p.line * COLUMNS + p.column == top * COLUMNS + at;
    InkShows(s.cells, p, highlight, top, at, cell, p.line, p.column);
  }

  /** The cursor inside its line. */
  lemma WindowInLine(s: Screen, p: Sheet, column: nat, highlight: bool)
    requires IsWindow(s, p, highlight) && column < COLUMNS
    ensures IsWindow(s.(x := column), Sheet(p.ink, p.line, column), highlight)
  {
    ShowsAlike(s.cells, p, Sheet(p.ink, p.line, column), highlight, Top(p.line));
  }

  /** One more character, whatever it is, moves the window over the sheet. */
  lemma WindowMoves(s: Screen, p: Sheet, ch: bv32, highlight: bool)
    requires IsWindow(s, p, highlight)
    ensures |s.cells| == CELLS && s.x < COLUMNS && s.y < ROWS
    ensures IsWindow(Put(s, ch, highlight), p.Type(ch, highlight), highlight)
  {
    hide MakeCell, IsWindow, ScrollUp;
    var cell := MakeCell(ch, highlight);
    WindowInked(s, p, cell, highlight);
    if ch & 0xff == LF {
      WindowOnNextLine(s, p, s.x, highlight);
    } else if ch & 0xff == CR {
      WindowInLine(s, p, 0, highlight);
    } else {
      var t := s.(cells := s.cells[s.x + s.y * COLUMNS := cell]);
      var q := Sheet(p.ink[p.line * COLUMNS + p.column := cell], p.line, p.column);
      if s.x + 1 < COLUMNS {
        WindowInLine(t, q, s.x + 1, highlight);
      } else {
        WindowOnNextLine(t, q, 0, highlight);
      }
    }
  }

  /** Printing any text on a cleared screen, however long and with any line feeds and carriage returns: the screen
      is a window over one endless sheet. */
  lemma {:induction false} EveryTextIsAWindow(s: Screen, text: seq<bv32>, highlight: bool)
    requires Proper(s) && s.x == s.y == 0 && forall i :: 0 <= i < CELLS ==> s.cells[i] == CLEARED
    ensures IsWindow(PutAll(s, text, highlight), Typed(text, highlight), highlight)
  {
    if text != [] {
      var n := |text| - 1;
      EveryTextIsAWindow(s, text[..n], highlight);
      WindowMoves(PutAll(s, text[..n], highlight), Typed(text[..n], highlight), text[n], highlight);
    }
  }

  /** The sheet holds the text, one character after the other. */
  ghost predicate Holds(p: Sheet, text: seq<bv32>, highlight: bool) {
    && |text| == p.line * COLUMNS + p.column && p.column < COLUMNS
    && (forall k: nat :: k in p.ink <==> k < |text|)
    && forall k: nat :: k < |text| ==> p.ink[k] == MakeCell(text[k], highlight)
  }

  lemma GlyphIsTyped(p: Sheet, ch: bv32, highlight: bool)
    requires ch & 0xff != LF && ch & 0xff != CR && p.column < COLUMNS
    ensures var q := p.Type(ch, highlight);
      && q.ink == p.ink[p.line * COLUMNS + p.column := MakeCell(ch, highlight)] && q.column < COLUMNS
      && q.line * COLUMNS + q.column == p.line * COLUMNS + p.column + 1
  {
    hide MakeCell;
  }

  lemma HoldsOneMore(p: Sheet, text: seq<bv32>, ch: bv32, highlight: bool)
    requires Holds(p, text, highlight) && ch & 0xff != LF && ch & 0xff != CR
    ensures Holds(p.Type(ch, highlight), text + [ch], highlight)
  {
    hide MakeCell, Sheet.Type;
    GlyphIsTyped(p, ch, highlight);
  }

  /** So it does if there are no control characters in it. */
  lemma {:induction false} PlainTextIsTyped(text: seq<bv32>, highlight: bool)
    requires forall i :: 0 <= i < |text| ==> text[i] & 0xff != LF && text[i] & 0xff != CR
    ensures Holds(Typed(text, highlight), text, highlight)
  {
    if text != [] {
      hide Holds, Sheet.Type;
      var n := |text| - 1;
      PlainTextIsTyped(text[..n], highlight);
      HoldsOneMore(Typed(text[..n], highlight), text[..n], text[n], highlight);
      assert text[..n] + [text[n]] == text;
    }
  }

  /** The screen after a text without control characters: line wrapping and scrolling together amount to moving a
      window over its characters. */
  lemma PrintingIsAWindow(s: Screen, text: seq<bv32>, highlight: bool)
    requires Proper(s) && s.x == s.y == 0 && forall i :: 0 <= i < CELLS ==> s.cells[i] == CLEARED
    requires forall i :: 0 <= i < |text| ==> text[i] & 0xff != LF && text[i] & 0xff != CR
    ensures var t, top := PutAll(s, text, highlight), if |text| / 80 < 30 then 0 else |text| / 80 - 29;
      && t.x == |text| % 80 && t.y == |text| / 80 - top && |t.cells| == 2400
      && forall i :: 0 <= i < 2400 ==>
           var k := top * 80 + i;
           t.cells[i] == if k < |text| then MakeCell(text[k], highlight) else if k < 2400 then CLEARED
                         else MakeCell(SPACE, highlight)
  {
    hide MakeCell, PutAll, Typed, Proper;
    var t, p := PutAll(s, text, highlight), Typed(text, highlight);
    EveryTextIsAWindow(s, text, highlight);
    PlainTextIsTyped(text, highlight);
    assert p.line == |text| / COLUMNS && p.column == |text| % COLUMNS;
    hide Top;
    var top := Top(p.line);
    forall i | 0 <= i < CELLS
      ensures t.cells[i] == if top * COLUMNS + i < |text| then MakeCell(text[top * COLUMNS + i], highlight)
                            else if top * COLUMNS + i < CELLS then CLEARED else MakeCell(SPACE, highlight)
    {
      assert t.cells[i] == p.At(top * COLUMNS + i, highlight);
    }
  }

  // ----- the console

  class Graphics {
    const text: array<Cell>
    var fontx: nat
    var fonty: nat
    var scroll: bool
    var currentColor: bv32

    ghost function View(): Screen
      reads this, text
    {
      Screen(text[..], fontx, fonty)
    }

    ghost predicate Valid()
      reads this, text
    {
      Proper(View())
    }

    predicate Highlight()
      reads this
    {
      currentColor & 0xf0 != 0
    }

    /** `graphics_alloc_text_buf`. */
    constructor (currentColor: bv32)
      ensures Valid() && scroll && fresh(text) && this.currentColor == currentColor
      ensures View() == Screen(seq(CELLS, _ => CLEARED), 0, 0)
    {
      text := new Cell[CELLS](_ => CLEARED);
      fontx, fonty, scroll := 0, 0, true;
      this.currentColor := currentColor;
    }

    method SetXy(x: nat, y: nat)
      modifies this`fontx, this`fonty
      ensures fontx == x && fonty == y
    {
      fontx, fonty := x, y;
    }

    /** `cursor`: the mark is in the buffer only while the cell is drawn. */
    method Cursor(set_: bool)
      requires Valid()
      modifies text
      ensures View() == old(View())
    {
      if set_ && !scroll {
        return;
      }
      var offset := fonty * COLUMNS + fontx;
      assert Clean(text[..][offset]);
      if set_ {
        text[offset] := text[offset] | 0x200;
      }
      // the cell is drawn here
      if set_ {
        text[offset] := text[offset] & 0xfdff;
      }
    }

    /** What `Putchar` does to the screen. Inside of `Scroll` there is no further scrolling: the cursor goes
        back to the beginning of the bottom line instead. */
    ghost function Expected(s: Screen, ch: bv32, scrolling: bool): Screen
      requires Proper(s)
      reads this
    {
      var t := Put(s, ch, Highlight());
      if scrolling then t
      else if ch & 0xff == LF && s.y + 1 == ROWS then s
      else if ch & 0xff != LF && ch & 0xff != CR && s.x + 1 == COLUMNS && s.y + 1 == ROWS then
        s.(cells := s.cells[s.x + s.y * COLUMNS := MakeCell(ch, Highlight())], x := 0)
      else t
    }

    method WriteCell(ch: bv32)
      requires Valid()
      modifies text
      ensures Valid() && text[..] == old(text[..])[fontx + fonty * COLUMNS := MakeCell(ch, Highlight())]
    {
      hide Clean, MakeCell;
      MakeCellIsClean(ch, Highlight());
      MakeCellIs(ch, Highlight());
      var offset := fontx + fonty * COLUMNS;
      var cell := (ch & 0xff) as Cell;
      if Highlight() {
        cell := cell | 0x100;
      }
      text[offset] := cell;
    }

    /** To the next line, scrolling at the bottom. */
    method NextLine(x: nat)
      requires Valid() && x < COLUMNS
      modifies text, this`fontx, this`fonty, this`scroll
      ensures Valid() && scroll == old(scroll)
      ensures View() == if old(fonty) + 1 < ROWS then old(View()).(x := x, y := old(fonty) + 1)
                        else if scroll then ScrollUp(old(View()), MakeCell(SPACE, Highlight()))
                        else old(View())
      decreases scroll, 1
    {
      if fonty + 1 < ROWS {
        SetXy(x, fonty + 1);
      } else {
        Scroll();
      }
    }

    /** A character that is neither a line feed nor a carriage return. */
    method PutGlyph(ch: bv32)
      requires Valid() && ch & 0xff != LF && ch & 0xff != CR
      modifies text, this`fontx, this`fonty, this`scroll
      ensures Valid() && scroll == old(scroll)
      ensures View() == Expected(old(View()), ch, scroll)
      decreases scroll, 3
    {
      hide MakeCell, Clean;
      Cursor(false);
      WriteCell(ch);
      Cursor(false);
      MoveOn();
      Cursor(true);
    }

    /** The cursor moves behind the character just written. */
    method MoveOn()
      requires Valid()
      modifies text, this`fontx, this`fonty, this`scroll
      ensures Valid() && scroll == old(scroll)
      ensures View() == if old(fontx) + 1 < COLUMNS then old(View()).(x := old(fontx) + 1)
                        else if old(fonty) + 1 < ROWS then old(View()).(x := 0, y := old(fonty) + 1)
                        else if scroll then ScrollUp(old(View()), MakeCell(SPACE, Highlight()))
                        else old(View()).(x := 0)
      decreases scroll, 2
    {
      hide MakeCell, Clean;
      if fontx + 1 >= COLUMNS {
        SetXy(0, fonty);
        NextLine(0);
      } else {
        SetXy(fontx + 1, fonty);
      }
    }

    /** `graphics_putchar`. */
    method Putchar(ch0: bv32)
      requires Valid()
      modifies text, this`fontx, this`fonty, this`scroll
      ensures Valid() && scroll == old(scroll)
      ensures View() == Expected(old(View()), ch0, scroll)
      decreases scroll, 4
    {
      var ch := ch0 & 0xff;
      assert MakeCell(ch, Highlight()) == MakeCell(ch0, Highlight());
      hide MakeCell, Clean;
      Cursor(false);
      if ch == LF {
        NextLine(fontx);
        Cursor(true);
      } else if ch == CR {
        SetXy(0, fonty);
        Cursor(true);
      } else {
        PutGlyph(ch);
      }
    }

    /** `memmove` of line `i` to the line above. */
    method MoveLine(i: nat)
      requires text.Length == CELLS && 1 <= i < ROWS
      modifies text
      ensures forall k :: 0 <= k < CELLS ==>
                text[k] == if (i - 1) * COLUMNS <= k < i * COLUMNS then old(text[k + COLUMNS]) else old(text[k])
    {
      var to := (i - 1) * COLUMNS;
      var j := 0;
      while j < COLUMNS
        invariant j <= COLUMNS
        invariant forall k :: 0 <= k < CELLS ==>
                    text[k] == if to <= k < to + j then old(text[k + COLUMNS]) else old(text[k])
      {
        text[to + j] := text[to + COLUMNS + j];
        j := j + 1;
      }
    }

    /** All lines one up; the bottom line stays. */
    method MoveLinesUp()
      requires text.Length == CELLS
      modifies text
      ensures forall k :: 0 <= k < CELLS ==>
                text[k] == if k < CELLS - COLUMNS then old(text[k + COLUMNS]) else old(text[k])
    {
      var i := 1;
      while i < ROWS
        invariant 1 <= i <= ROWS
        invariant forall k :: 0 <= k < CELLS ==>
                    text[k] == if k < (i - 1) * COLUMNS then old(text[k + COLUMNS]) else old(text[k])
      {
        MoveLine(i);
        i := i + 1;
      }
    }

    /** `graphics_scroll`: nothing while it is running already. */
    method Scroll()
      requires Valid() && fonty == ROWS - 1
      modifies text, this`fontx, this`fonty, this`scroll
      ensures Valid() && scroll == old(scroll)
      ensures View() == if old(scroll) then ScrollUp(old(View()), MakeCell(SPACE, Highlight())) else old(View())
      decreases scroll, 0
    {
      if !scroll {
        return;
      }
      scroll := false;
      ghost var before, blank := text[..], MakeCell(SPACE, Highlight());
      MakeCellIsClean(SPACE, Highlight());
      MoveLinesUp();
      SetXy(0, ROWS - 1);
      var i := 0;
      while i < COLUMNS
        invariant i <= COLUMNS && Valid() && !scroll
        invariant fonty == ROWS - 1 && fontx == if i < COLUMNS then i else 0
        invariant forall k :: 0 <= k < CELLS - COLUMNS ==> text[k] == before[k + COLUMNS]
        invariant forall k :: CELLS - COLUMNS <= k < CELLS - COLUMNS + i ==> text[k] == blank
        decreases COLUMNS - i
      {
        ghost var t := text[..];
        Putchar(SPACE);
        assert text[..] == t[CELLS - COLUMNS + i := blank];
        i := i + 1;
      }
      // the screen is drawn again here
      SetXy(0, ROWS - 1);
      scroll := true;
      assert text[..] == before[COLUMNS..] + seq(COLUMNS, _ => blank);
    }
  }

  /** Printing through the console is printing on the terminal. */
  method Print(g: Graphics, text: seq<bv32>)
    requires g.Valid() && g.scroll
    modifies g`fontx, g`fonty, g`scroll, g.text
    ensures g.Valid() && g.scroll && g.View() == PutAll(old(g.View()), text, g.Highlight())
  {
    for i := 0 to |text|
      invariant g.Valid() && g.scroll && g.View() == PutAll(old(g.View()), text[..i], g.Highlight())
    {
      g.Putchar(text[i]);
      assert text[..i + 1][..i] == text[..i];
    }
    assert text[..|text|] == text;
  }

  /** The first character on a new console: grey on black, and black on grey, which is highlighted. */
  method FirstCell(color: bv32, ch: bv32) returns (cell: Cell)
    requires ch < 0x100 && ch != 0x0a && ch != 0x0d
    ensures color == 0x07 ==> cell == ch as bv16
    ensures color == 0x70 ==> cell == ch as bv16 | 0x100
  {
    var g := new Graphics(color);
    ghost var s := g.View();
    Characters(s, ch, g.Highlight());
    assert ch & 0xff == ch;
    hide Put, MakeCell, Clean;
    g.Putchar(ch);
    assert g.View().cells[0] == g.text[0];
    cell := g.text[0];
  }
}
