/** The screen of a terminal with a full-height scroll region and autowrap, and what printed
    characters and the control functions of a serialized screen do to it. */
module Screen {
  import opened Attributes
  import opened BufferLines
  import opened ParserMachine
  import Sgr

  datatype Line = Line(cells: Row, wrapped: bool)

  /** `lines` is the scrollback followed by the `rows` lines of the viewport, which starts at `yBase`. */
  datatype Term = Term(cols: nat, rows: nat, scrollback: nat, lines: seq<Line>, yBase: nat, x: nat, y: nat, attr: Attr)

  ghost predicate Valid(t: Term) {
    && t.cols >= 2 && t.rows >= 1
    && |t.lines| == t.yBase + t.rows && t.yBase <= t.scrollback
    && t.y < t.rows && t.x <= t.cols
    && forall i :: 0 <= i < |t.lines| ==> |t.lines[i].cells| == t.cols
  }

  /** An empty cell in the current background colour. */
  function EraseCell(a: Attr): Cell {
    Cell(0, 1, DEFAULT_FG, DEFAULT_BG.(mode := a.bg.mode, color := a.bg.color))
  }

  function BlankLine(t: Term, wrapped: bool): Line {
    Line(Blank(t.cols, EraseCell(t.attr)), wrapped)
  }

  function Fresh(cols: nat, rows: nat, scrollback: nat): (t: Term)
    requires cols >= 2 && rows >= 1
    ensures Valid(t)
  {
    Term(cols, rows, scrollback, seq(rows, _ => Line(Blank(cols, NULL_CELL), false)), 0, 0, 0, DEFAULT_ATTR)
  }

  /** One more line below; the oldest goes once the scrollback is full. */
  function Scroll(t: Term, wrapped: bool): Term
    requires |t.lines| > 0
  {
    var line := BlankLine(t, wrapped);
    if |t.lines| == t.rows + t.scrollback then t.(lines := t.lines[1..] + [line])
    else t.(lines := t.lines + [line], yBase := t.yBase + 1)
  }

  function NextLine(t: Term, wrapped: bool): Term
    requires Valid(t)
  {
    if t.y == t.rows - 1 then Scroll(t, wrapped)
    else
      var at := t.yBase + t.y + 1;
      t.(y := t.y + 1, lines := t.lines[at := t.lines[at].(wrapped := wrapped)])
  }

  function WithCell(t: Term, cell: Cell): Term
    requires Valid(t) && t.x < t.cols
  {
    var at := t.yBase + t.y;
    t.(lines := t.lines[at := t.lines[at].(cells := t.lines[at].cells[t.x := cell])], x := t.x + 1)
  }

  const SOFT_HYPHEN := 0xAD

  /** One character of width one. */
  function Print(t: Term, code: nat): Term
    requires Valid(t)
  {
    if code == SOFT_HYPHEN then t
    else
      var moved := if t.x + 1 > t.cols then NextLine(t, true).(x := 0) else t;
      WithCell(moved, Cell(code, 1, t.attr.fg, t.attr.bg))
  }

  function LineFeed(t: Term): Term
    requires Valid(t)
  {
    var down := NextLine(t, false);
    if down.x >= t.cols then down.(x := down.x - 1) else down
  }

  function CarriageReturn(t: Term): Term {
    t.(x := 0)
  }

  function AtLeastOne(n: int): int {
    if n < 1 then 1 else n
  }

  function Clamped(v: int, max: nat): nat {
    if v < 0 then 0 else if v > max then max else v
  }

  /** Cursor movement first takes back a pending wrap. */
  function Move(t: Term, dx: int, dy: int): Term
    requires Valid(t)
  {
    t.(x := Clamped(Clamped(t.x, t.cols - 1) + dx, t.cols - 1), y := Clamped(t.y + dy, t.rows - 1))
  }

  function Min(a: int, b: int): int {
    if a < b then a else b
  }

  function CursorUp(t: Term, n: int): Term
    requires Valid(t)
  {
    Move(t, 0, -Min(t.y, AtLeastOne(n)))
  }

  function CursorDown(t: Term, n: int): Term
    requires Valid(t)
  {
    Move(t, 0, Min(t.rows - 1 - t.y, AtLeastOne(n)))
  }

  function EraseChars(t: Term, n: int): Term
    requires Valid(t)
  {
    var x := Clamped(t.x, t.cols - 1);
    var at := t.yBase + t.y;
    var cells := Replaced(t.lines[at].cells, x, x + AtLeastOne(n), EraseCell(t.attr));
    t.(x := x, lines := t.lines[at := t.lines[at].(cells := cells)])
  }

  // Final bytes of the control sequences of this model.
  const CUU := 0x41
  const CUD := 0x42
  const CUF := 0x43
  const CUB := 0x44
  const ECH := 0x58
  const SGR := 0x6d

  /** What the handlers do with one event of the parser. */
  function Handle(t: Term, e: Event): Term
    requires Valid(t)
  {
    match e
    case Printed(code) => Print(t, code)
    case Executed(code) =>
      if code == 0x0d then CarriageReturn(t)
      else if code == 0x0a || code == 0x0b || code == 0x0c then LineFeed(t)
      else t
    case CsiCalled(ident, values, subs) =>
      if |values| != |subs| || values == [] then t
      else if ident == CUU then CursorUp(t, values[0])
      else if ident == CUD then CursorDown(t, values[0])
      else if ident == CUF then Move(t, AtLeastOne(values[0]), 0)
      else if ident == CUB then Move(t, -AtLeastOne(values[0]), 0)
      else if ident == ECH then EraseChars(t, values[0])
      else if ident == SGR then t.(attr := Sgr.Applied(values, subs, t.attr))
      else t
    case _ => t
  }

  /** The sizes of the terminal, and its shape. */
  ghost predicate Keeps(t: Term, t': Term) {
    Valid(t') && t'.cols == t.cols && t'.rows == t.rows && t'.scrollback == t.scrollback
  }

  lemma NextLineKeeps(t: Term, wrapped: bool)
    requires Valid(t)
    ensures Keeps(t, NextLine(t, wrapped))
    ensures NextLine(t, wrapped).attr == t.attr && NextLine(t, wrapped).x == t.x
  {
  }

  lemma WithCellKeeps(t: Term, cell: Cell)
    requires Valid(t) && t.x < t.cols
    ensures Keeps(t, WithCell(t, cell)) && WithCell(t, cell).attr == t.attr
  {
  }

  lemma PrintKeeps(t: Term, code: nat)
    requires Valid(t)
    ensures Keeps(t, Print(t, code)) && Print(t, code).attr == t.attr
  {
    hide NextLine, WithCell;
    if code != SOFT_HYPHEN {
      NextLineKeeps(t, true);
      var moved := if t.x + 1 > t.cols then NextLine(t, true).(x := 0) else t;
      WithCellKeeps(moved, Cell(code, 1, t.attr.fg, t.attr.bg));
    }
  }

  lemma LineFeedKeeps(t: Term)
    requires Valid(t)
    ensures Keeps(t, LineFeed(t)) && LineFeed(t).attr == t.attr
  {
    hide NextLine;
    NextLineKeeps(t, false);
  }

  lemma MoveKeeps(t: Term, dx: int, dy: int)
    requires Valid(t)
    ensures Keeps(t, Move(t, dx, dy)) && Move(t, dx, dy).attr == t.attr
  {
  }

  lemma EraseKeeps(t: Term, n: int)
    requires Valid(t)
    ensures Keeps(t, EraseChars(t, n)) && EraseChars(t, n).attr == t.attr
  {
  }

  /** No event leads out of the valid screens. */
  lemma {:induction false} HandleKeeps(t: Term, e: Event)
    requires Valid(t)
    ensures Keeps(t, Handle(t, e))
  {
    hide Print, LineFeed, Move, EraseChars, Sgr.Applied;
    match e
    case Printed(code) => PrintKeeps(t, code);
    case Executed(code) => LineFeedKeeps(t);
    case CsiCalled(ident, values, subs) =>
      if values != [] {
        MoveKeeps(t, AtLeastOne(values[0]), 0);
        MoveKeeps(t, -AtLeastOne(values[0]), 0);
        MoveKeeps(t, 0, -Min(t.y, AtLeastOne(values[0])));
        MoveKeeps(t, 0, Min(t.rows - 1 - t.y, AtLeastOne(values[0])));
        EraseKeeps(t, values[0]);
      }
    case _ =>
  }

  /** A line feed, a vertical tab and a form feed go down one row and keep the column; only behind the
      last column the cursor comes back onto it. The row reached continues no other. On the last row the
      lines move up by one: a blank line in the current background follows, and the oldest line goes if
      the scrollback is full. */
  lemma {:induction false} LineFeedIs(t: Term, code: nat)
    requires Valid(t) && 0x0a <= code <= 0x0c
    ensures var t' := Handle(t, Executed(code)); var at := t.yBase + t.y + 1;
            && t'.x == (if t.x == t.cols then t.cols - 1 else t.x) && t'.attr == t.attr
            && if t.y + 1 < t.rows then
                 && t'.y == t.y + 1 && t'.yBase == t.yBase && |t'.lines| == |t.lines|
                 && !t'.lines[at].wrapped && t'.lines[at].cells == t.lines[at].cells
                 && forall i :: 0 <= i < |t.lines| && i != at ==> t'.lines[i] == t.lines[i]
               else
                 var lost := if t.yBase == t.scrollback then 1 else 0;
                 && t'.y == t.y && t'.yBase == t.yBase + 1 - lost && |t'.lines| == |t.lines| + 1 - lost
                 && (forall i :: lost <= i < |t.lines| ==> t'.lines[i - lost] == t.lines[i])
                 && t'.lines[at - lost] == Line(Blank(t.cols, EraseCell(t.attr)), false)
  {
  }

  /** The four cursor movements, by at least one and not beyond the edges; behind the last column the
      cursor counts as being on it. */
  lemma {:induction false} CursorMoves(t: Term, n: int, subs: seq<int>)
    requires Valid(t)
    ensures var k, x := if n < 1 then 1 else n, if t.x == t.cols then t.cols - 1 else t.x;
            && Handle(t, CsiCalled(CUU, [n], [subs])) == t.(x := x, y := if t.y < k then 0 else t.y - k)
            && Handle(t, CsiCalled(CUD, [n], [subs])) ==
              t.(x := x, y := if t.y + k < t.rows then t.y + k else t.rows - 1)
            && Handle(t, CsiCalled(CUF, [n], [subs])) == t.(x := if x + k < t.cols then x + k else t.cols - 1)
            && Handle(t, CsiCalled(CUB, [n], [subs])) == t.(x := if x < k then 0 else x - k)
  {
  }

  function HandleAll(t: Term, events: seq<Event>): (r: Term)
    requires Valid(t)
    ensures Valid(r) && r.cols == t.cols && r.rows == t.rows && r.scrollback == t.scrollback
  {
    if events == [] then t
    else
      var before := HandleAll(t, events[..|events| - 1]);
      HandleKeeps(before, events[|events| - 1]);
      Handle(before, events[|events| - 1])
  }

  lemma {:induction false} HandleAppend(t: Term, a: seq<Event>, b: seq<Event>)
    requires Valid(t)
    ensures HandleAll(t, a + b) == HandleAll(HandleAll(t, a), b)
  {
    hide Handle, Valid;
    if b == [] {
      assert a + b == a;
    } else {
      assert (a + b)[..|a + b| - 1] == a + b[..|b| - 1];
      HandleAppend(t, a, b[..|b| - 1]);
    }
  }

  lemma {:induction false} HandleOne(t: Term, e: Event)
    requires Valid(t)
    ensures HandleAll(t, [e]) == Handle(t, e) && HandleAll(t, []) == t
  {
    hide Handle, Valid;
    assert [e][..0] == [];
  }

  // ---- underlining ----

  /** The underline flag of a cell and the mark of its extended attributes agree. */
  predicate CellUnderlined(cell: Cell) {
    cell.fg.underline <==> cell.bg.hasExtended
  }

  ghost predicate RowUnderlined(row: Row) {
    forall j :: 0 <= j < |row| ==> CellUnderlined(row[j])
  }

  ghost predicate Underlined(t: Term) {
    Sgr.InStep(t.attr) && forall i :: 0 <= i < |t.lines| ==> RowUnderlined(t.lines[i].cells)
  }

  lemma NextLineUnderlined(t: Term, wrapped: bool)
    requires Valid(t) && Underlined(t)
    ensures Underlined(NextLine(t, wrapped))
  {
  }

  lemma WithCellUnderlined(t: Term, code: nat)
    requires Valid(t) && Underlined(t) && t.x < t.cols
    ensures Underlined(WithCell(t, Cell(code, 1, t.attr.fg, t.attr.bg)))
  {
    var row := t.lines[t.yBase + t.y].cells;
    assert RowUnderlined(row);
    assert RowUnderlined(row[t.x := Cell(code, 1, t.attr.fg, t.attr.bg)]);
  }

  lemma PrintUnderlined(t: Term, code: nat)
    requires Valid(t) && Underlined(t)
    ensures Underlined(Print(t, code))
  {
    hide NextLine, WithCell, RowUnderlined;
    if code != SOFT_HYPHEN {
      NextLineKeeps(t, true);
      NextLineUnderlined(t, true);
      var moved := if t.x + 1 > t.cols then NextLine(t, true).(x := 0) else t;
      WithCellUnderlined(moved, code);
    }
  }

  lemma EraseUnderlined(t: Term, n: int)
    requires Valid(t) && Underlined(t)
    ensures Underlined(EraseChars(t, n))
  {
    hide Replaced, RowUnderlined, Sgr.InStep;
    var at := t.yBase + t.y;
    ReplacedUnderlined(t.lines[at].cells, Clamped(t.x, t.cols - 1), n, t.attr);
    assert RowUnderlined(t.lines[at].cells);
  }

  lemma ReplacedUnderlined(row: Row, x: nat, n: int, a: Attr)
    requires x <= |row| && RowUnderlined(row)
    ensures RowUnderlined(Replaced(row, x, x + AtLeastOne(n), EraseCell(a)))
  {
  }

  lemma {:induction false} HandleUnderlined(t: Term, e: Event)
    requires Valid(t) && Underlined(t)
    ensures Underlined(Handle(t, e))
  {
    hide Print, NextLine, EraseChars, Sgr.Applied, RowUnderlined, Sgr.InStep;
    match e
    case Printed(code) => PrintUnderlined(t, code);
    case Executed(code) => NextLineUnderlined(t, false);
    case CsiCalled(ident, values, subs) =>
      if |values| == |subs| && values != [] {
        EraseUnderlined(t, values[0]);
        Sgr.RenditionsKeepInStep(values, subs, t.attr);
      }
    case _ =>
  }

  /** However characters, movements, erasures and renditions follow each other on a new terminal, no cell
      carries an underline flag without its extended mark, or the mark without the flag. */
  lemma {:induction false} UnderlinesAgree(cols: nat, rows: nat, scrollback: nat, events: seq<Event>)
    requires cols >= 2 && rows >= 1
    ensures Underlined(HandleAll(Fresh(cols, rows, scrollback), events))
    decreases |events|
  {
    hide Handle, Valid;
    if events != [] {
      UnderlinesAgree(cols, rows, scrollback, events[..|events| - 1]);
      HandleUnderlined(HandleAll(Fresh(cols, rows, scrollback), events[..|events| - 1]), events[|events| - 1]);
    }
  }

  // ---- the handlers themselves ----

  class InputHandler {
    const cols: nat
    const rows: nat
    const scrollback: nat
    var lines: seq<Line>
    var yBase: nat
    var x: nat
    var y: nat
    var curAttr: Attr

    ghost function Now(): Term
      reads this
    {
      Term(cols, rows, scrollback, lines, yBase, x, y, curAttr)
    }

    constructor (cols: nat, rows: nat, scrollback: nat)
      requires cols >= 2 && rows >= 1
      ensures Now() == Fresh(cols, rows, scrollback)
    {
      this.cols, this.rows, this.scrollback := cols, rows, scrollback;
      lines := seq(rows, _ => Line(Blank(cols, NULL_CELL), false));
      yBase, x, y, curAttr := 0, 0, 0, DEFAULT_ATTR;
    }

    method ScrollDown(isWrapped: bool)
      requires |lines| > 0
      modifies this
      ensures Now() == Scroll(old(Now()), isWrapped)
    {
      var newLine := Line(Blank(cols, EraseCell(curAttr)), isWrapped);
      var willBeTrimmed := |lines| == rows + scrollback;
      if willBeTrimmed {
        lines := lines[1..] + [newLine];
      } else {
        lines := lines + [newLine];
        yBase := yBase + 1;
      }
    }

    method PrintAll(data: seq<nat>, start: nat, end: nat)
      requires Valid(Now()) && start <= end <= |data|
      modifies this
      ensures Now() == HandleAll(old(Now()), PrintedCodes(data[start..end]))
    {
      hide Valid, HandleAll;
      HandleNothing(Now());
      assert data[start..start] == [];
      for pos := start to end
        invariant Valid(Now()) && Now() == HandleAll(old(Now()), PrintedCodes(data[start..pos]))
      {
        assert data[start..pos + 1] == data[start..pos] + [data[pos]];
        HandleOneMore(old(Now()), data[start..pos], data[pos]);
        PrintOne(data[pos]);
      }
    }

    method PrintOne(code: nat)
      requires Valid(Now())
      modifies this
      ensures Now() == Print(old(Now()), code)
    {
      if code == SOFT_HYPHEN {
        return;
      }
      if x + 1 > cols {
        x := 0;
        y := y + 1;
        if y == rows {
          y := y - 1;
          ScrollDown(true);
        } else {
          lines := lines[yBase + y := lines[yBase + y].(wrapped := true)];
        }
      }
      var at := yBase + y;
      lines := lines[at := lines[at].(cells := lines[at].cells[x := Cell(code, 1, curAttr.fg, curAttr.bg)])];
      x := x + 1;
    }

    method LineFeedDown()
      requires Valid(Now())
      modifies this
      ensures Now() == LineFeed(old(Now()))
    {
      y := y + 1;
      if y == rows {
        y := y - 1;
        ScrollDown(false);
      } else {
        lines := lines[yBase + y := lines[yBase + y].(wrapped := false)];
      }
      if x >= cols {
        x := x - 1;
      }
    }

    method MoveCursor(dx: int, dy: int)
      requires Valid(Now())
      modifies this`x, this`y
      ensures Now() == Move(old(Now()), dx, dy)
    {
      if x > cols - 1 {
        x := cols - 1;
      }
      var newX, newY := x + dx, y + dy;
      x := if newX < 0 then 0 else if newX > cols - 1 then cols - 1 else newX;
      y := if newY < 0 then 0 else if newY > rows - 1 then rows - 1 else newY;
    }

    method EraseCharacters(n: int)
      requires Valid(Now())
      modifies this`x, this`lines
      ensures Now() == EraseChars(old(Now()), n)
    {
      if x > cols - 1 {
        x := cols - 1;
      }
      var at := yBase + y;
      var cells := Replaced(lines[at].cells, x, x + (if n > 1 then n else 1), EraseCell(curAttr));
      lines := lines[at := lines[at].(cells := cells)];
    }

    /** One event of the parser, handed to its handler. */
    method HandleEvent(e: Event)
      requires Valid(Now())
      modifies this
      ensures Now() == Handle(old(Now()), e)
    {
      hide Print, LineFeed, EraseChars, Move, Sgr.Applied;
      match e
      case Printed(code) => PrintOne(code);
      case Executed(code) =>
        if code == 0x0d {
          x := 0;
        } else if code == 0x0a || code == 0x0b || code == 0x0c {
          LineFeedDown();
        }
      case CsiCalled(ident, values, subs) =>
        if |values| == |subs| && values != [] {
          var n := AtLeastOne(values[0]);
          if ident == CUU {
            MoveCursor(0, -Min(y, n));
          } else if ident == CUD {
            MoveCursor(0, Min(rows - 1 - y, n));
          } else if ident == CUF {
            MoveCursor(n, 0);
          } else if ident == CUB {
            MoveCursor(-n, 0);
          } else if ident == ECH {
            EraseCharacters(values[0]);
          } else if ident == SGR {
            curAttr := Sgr.CharAttributes(values, subs, curAttr);
          }
        }
      case _ =>
    }

    /** Any events, one after the other. */
    method HandleEvents(events: seq<Event>)
      requires Valid(Now())
      modifies this
      ensures Now() == HandleAll(old(Now()), events)
    {
      hide Valid, Handle;
      assert events[..0] == [];
      for i := 0 to |events|
        invariant Valid(Now()) && Now() == HandleAll(old(Now()), events[..i])
      {
        assert events[..i + 1][..i] == events[..i];
        HandleKeeps(Now(), events[i]);
        HandleEvent(events[i]);
      }
      assert events[..|events|] == events;
    }
  }

  function PrintedCodes(codes: seq<nat>): seq<Event> {
    seq(|codes|, k requires 0 <= k < |codes| => Printed(codes[k]))
  }

  lemma HandleNothing(t: Term)
    requires Valid(t)
    ensures HandleAll(t, PrintedCodes([])) == t
  {
  }

  lemma {:induction false} HandleOneMore(t: Term, codes: seq<nat>, code: nat)
    requires Valid(t)
    ensures var before := HandleAll(t, PrintedCodes(codes));
            var after := HandleAll(t, PrintedCodes(codes + [code]));
            Valid(before) && Valid(after) && after == Print(before, code)
  {
    hide Handle, Valid;
    assert PrintedCodes(codes + [code]) == PrintedCodes(codes) + [Printed(code)];
    HandleAppend(t, PrintedCodes(codes), [Printed(code)]);
    HandleOne(HandleAll(t, PrintedCodes(codes)), Printed(code));
    PrintHandled(HandleAll(t, PrintedCodes(codes)), code);
  }

  lemma PrintHandled(t: Term, code: nat)
    requires Valid(t)
    ensures Handle(t, Printed(code)) == Print(t, code)
  {
  }
}
