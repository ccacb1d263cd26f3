/** The serializer: a buffer written as text and control sequences that a terminal can replay. */
module Serializer {
  import opened Attributes
  import opened BufferLines
  import opened ParserMachine
  import Sgr
  import Screen

  /** A piece of the output. */
  datatype Token =
    | Char(code: nat)
    | Csi(final: nat, values: seq<int>)
    | CrLf

  /** What the parser tells the handlers about a piece. */
  function TokenEvents(tok: Token): seq<Event> {
    match tok
    case Char(code) => [Printed(code)]
    case Csi(final, values) =>
      if values == [] then [CsiCalled(final, [0], [[]])] else [CsiCalled(final, values, Sgr.NoSubs(|values|))]
    case CrLf => [Executed(0x0d), Executed(0x0a)]
  }

  function Events(tokens: seq<Token>): seq<Event> {
    if tokens == [] then [] else Events(tokens[..|tokens| - 1]) + TokenEvents(tokens[|tokens| - 1])
  }

  lemma {:induction false} EventsAppend(a: seq<Token>, b: seq<Token>)
    ensures Events(a + b) == Events(a) + Events(b)
  {
    hide TokenEvents;
    if b == [] {
      assert a + b == a;
    } else {
      assert (a + b)[..|a + b| - 1] == a + b[..|b| - 1];
      EventsAppend(a, b[..|b| - 1]);
    }
  }

  function Move(final: nat, n: int): Token {
    Csi(final, [n])
  }

  // ---- the handler that walks over the cells ----

  /** Where the handler is: the row being written, the empty cells not yet written, the style last
      written and the background that needs no erasing, and the cursor after the last piece and after
      the last piece of content. */
  datatype Writer = Writer(row: seq<Token>, nullCellCount: nat,
                           cursorStyle: Attr, styleRow: nat, styleCol: nat, background: Attr,
                           lastCursorRow: nat, lastCursorCol: nat, lastContentRow: nat, lastContentCol: nat)

  const NEW_WRITER := Writer([], 0, DEFAULT_ATTR, 0, 0, DEFAULT_ATTR, 0, 0, 0, 0)

  /** The attributes of a cell; underlines are single ones. */
  function AttrOf(cell: Cell): Attr {
    Attr(cell.fg, cell.bg, EMPTY_EXT.(style := if cell.bg.hasExtended then STYLE_SINGLE else STYLE_NONE))
  }

  /** The empty cells in front of the next piece: erased if they have a background, then skipped. */
  function Skip(w: Writer): seq<Token> {
    if w.nullCellCount == 0 then []
    else
      (if EqualBg(w.cursorStyle, w.background) then [] else [Move(Screen.ECH, w.nullCellCount)])
      + [Move(Screen.CUF, w.nullCellCount)]
  }

  function WithStyle(w: Writer, cell: Cell, row: nat, col: nat): Writer {
    var sgr := Sgr.DiffStyle(AttrOf(cell), w.cursorStyle);
    w.(row := w.row + Skip(w) + [Csi(Screen.SGR, sgr)], nullCellCount := 0,
       cursorStyle := AttrOf(cell), styleRow := row, styleCol := col,
       lastContentRow := row, lastContentCol := col, lastCursorRow := row, lastCursorCol := col)
  }

  function WithCell(w: Writer, cell: Cell, row: nat, col: nat): Writer {
    w.(row := w.row + Skip(w) + [Char(cell.code)], nullCellCount := 0,
       lastContentRow := row, lastContentCol := col + cell.width,
       lastCursorRow := row, lastCursorCol := col + cell.width)
  }

  predicate StyleChanges(w: Writer, cell: Cell) {
    if cell.HasContent() then Sgr.DiffStyle(AttrOf(cell), w.cursorStyle) != []
    else !EqualBg(w.cursorStyle, AttrOf(cell))
  }

  function NextCell(w: Writer, cell: Cell, row: nat, col: nat): Writer {
    if cell.width == 0 then w
    else
      var styled := if StyleChanges(w, cell) then WithStyle(w, cell, row, col) else w;
      if cell.HasContent() then WithCell(styled, cell, row, col)
      else styled.(nullCellCount := styled.nullCellCount + cell.width)
  }

  /** A row together with what goes between it and the next. */
  datatype Written = Written(tokens: seq<Token>, separator: seq<Token>)

  /** The next row continues this one without a gap, so that printing wraps by itself. */
  predicate WrapsByItself(nullCellCount: nat, row: Row, next: Row)
    requires row != [] && next != []
  {
    var last, first := row[|row| - 1], next[0];
    var second := if |row| >= 2 then row[|row| - 2] else NULL_CELL;
    var wide := first.width > 1;
    && first.HasContent() && nullCellCount <= (if wide then 1 else 0)
    && (((last.HasContent() || last.width == 0) && EqualBg(AttrOf(last), AttrOf(first)))
        || (wide && (second.HasContent() || second.width == 0)
            && EqualBg(AttrOf(last), AttrOf(first)) && EqualBg(AttrOf(second), AttrOf(first))))
  }

  predicate Filled(cell: Cell) {
    cell.HasContent() || cell.width == 0
  }

  /** Behind a row with `nulls` empty cells at its end, the next one continues by itself exactly if its
      first character does not fit there, and has the background of all those cells and of the last
      filled one. */
  lemma {:induction false} WrapsExactly(nulls: nat, row: Row, next: Row)
    requires row != [] && next != [] && 1 <= next[0].width <= 2
    requires nulls <= |row| && (nulls < |row| ==> Filled(row[|row| - 1 - nulls]))
    requires forall j :: |row| - nulls <= j < |row| ==> !Filled(row[j])
    ensures WrapsByItself(nulls, row, next) <==>
            && next[0].HasContent() && nulls < next[0].width && nulls < |row|
            && forall j :: |row| - 1 - nulls <= j < |row| ==> EqualBg(AttrOf(row[j]), AttrOf(next[0]))
  {
    hide EqualBg, AttrOf;
    assert |row| - 1 - nulls == |row| - 1 || |row| - 1 - nulls == |row| - 2 || nulls > 1;
  }

  function Dashes(n: nat): seq<Token> {
    seq(n, _ => Char(0x2d))
  }

  /** Text that makes the terminal wrap, and then takes that text away again. */
  function ForcedWrap(nullCellCount: nat, cols: nat): seq<Token> {
    Dashes(nullCellCount + 1) + [Move(Screen.CUB, 1), Move(Screen.ECH, 1)]
    + if nullCellCount == 0 then [] else
        [Csi(Screen.CUU, []), Move(Screen.CUF, cols - nullCellCount), Move(Screen.ECH, nullCellCount),
         Move(Screen.CUB, cols - nullCellCount), Csi(Screen.CUD, [])]
  }

  /** Past the first screenful, scrolling fills new lines with the background colour. */
  function Background(w: Writer, lines: seq<Screen.Line>, rows: nat, row: nat): Attr {
    if row >= rows && w.styleRow < |lines| && w.styleCol < |lines[w.styleRow].cells| then
      AttrOf(lines[w.styleRow].cells[w.styleCol])
    else w.background
  }

  /** What leads on to the next row: a line break, nothing, or a forced wrap. */
  function Continued(w: Writer, lines: seq<Screen.Line>, row: nat): (Writer, seq<Token>)
    requires row + 1 < |lines|
    requires forall i :: 0 <= i < |lines| ==> lines[i].cells != []
  {
    if !lines[row + 1].wrapped then (w.(lastCursorRow := row + 1, lastCursorCol := 0), [CrLf])
    else if WrapsByItself(w.nullCellCount, lines[row].cells, lines[row + 1].cells) then (w, [])
    else
      (w.(lastCursorRow := row + 1, lastCursorCol := 0, lastContentRow := row + 1, lastContentCol := 0),
       ForcedWrap(w.nullCellCount, |lines[row].cells|))
  }

  function EndOfRow(w: Writer, lines: seq<Screen.Line>, rows: nat, row: nat): (Writer, Written)
    requires row < |lines|
    requires forall i :: 0 <= i < |lines| ==> lines[i].cells != []
  {
    var erased := if w.nullCellCount > 0 && !EqualBg(w.cursorStyle, w.background)
                  then [Move(Screen.ECH, w.nullCellCount)] else [];
    var tokens := w.row + erased;
    if row == |lines| - 1 then (w.(row := [], nullCellCount := 0), Written(tokens, []))
    else
      var next := Continued(w.(row := tokens, background := Background(w, lines, rows, row)), lines, row);
      (next.0.(row := [], nullCellCount := 0), Written(tokens, next.1))
  }

  /** The cells of a row up to column `n`. */
  function AfterCells(w: Writer, cells: Row, row: nat, n: nat): Writer
    requires n <= |cells|
  {
    if n == 0 then w else NextCell(AfterCells(w, cells, row, n - 1), cells[n - 1], row, n - 1)
  }

  /** The first `n` rows. */
  function Rows(lines: seq<Screen.Line>, rows: nat, n: nat): (r: (Writer, seq<Written>))
    requires n <= |lines| && forall i :: 0 <= i < |lines| ==> lines[i].cells != []
    ensures |r.1| == n
  {
    if n == 0 then (NEW_WRITER, [])
    else
      var before := Rows(lines, rows, n - 1);
      var ended := EndOfRow(AfterCells(before.0, lines[n - 1].cells, n - 1, |lines[n - 1].cells|), lines, rows, n - 1);
      (ended.0, before.1 + [ended.1])
  }

  /** Rows with their separators. */
  function Lead(ws: seq<Written>): seq<Token> {
    if ws == [] then [] else Lead(ws[..|ws| - 1]) + ws[|ws| - 1].tokens + ws[|ws| - 1].separator
  }

  /** Rows with the separators between them. */
  function Joined(ws: seq<Written>): seq<Token>
    requires ws != []
  {
    Lead(ws[..|ws| - 1]) + ws[|ws| - 1].tokens
  }

  /** How many rows are written: trailing empty ones are not if everything fits the viewport. */
  function RowsWritten(lines: seq<Screen.Line>, rows: nat, w: Writer): nat
    requires lines != []
  {
    if |lines| > rows || w.lastContentRow + 1 > |lines| then |lines| else w.lastContentRow + 1
  }

  /** From the last written position to the cursor. */
  function ToCursor(fromRow: int, fromCol: int, row: int, col: int): seq<Token> {
    (if row > fromRow then [Move(Screen.CUD, row - fromRow)]
     else if row < fromRow then [Move(Screen.CUU, fromRow - row)] else [])
    + (if col > fromCol then [Move(Screen.CUF, col - fromCol)]
       else if col < fromCol then [Move(Screen.CUB, fromCol - col)] else [])
  }

  /** From the last written style to the current attributes; the extended attributes are not taken along. */
  function ToStyle(was: Attr, current: Attr): seq<Token> {
    var sgr := Sgr.DiffStyle(current.(ext := EMPTY_EXT), was);
    if sgr == [] then [] else [Csi(Screen.SGR, sgr)]
  }

  /** The whole buffer, the cursor, and the current attributes. */
  function Serialized(t: Screen.Term): seq<Token>
    requires t.lines != [] && forall i :: 0 <= i < |t.lines| ==> t.lines[i].cells != []
  {
    var all := Rows(t.lines, t.rows, |t.lines|);
    var w := all.0;
    var fits := |t.lines| <= t.rows;
    Joined(all.1[..RowsWritten(t.lines, t.rows, w)])
    + ToCursor(if fits then w.lastContentRow else w.lastCursorRow, if fits then w.lastContentCol else w.lastCursorCol,
               t.yBase + t.y, t.x)
    + ToStyle(w.cursorStyle, t.attr)
  }

  // ---- the handler itself ----

  class StringSerializeHandler {
    const lines: seq<Screen.Line>
    const rows: nat
    var allRows: seq<Written>
    var currentRow: seq<Token>
    var nullCellCount: nat
    var cursorStyle: Attr
    var styleRow: nat
    var styleCol: nat
    var backgroundCell: Attr
    var lastCursorRow: nat
    var lastCursorCol: nat
    var lastContentRow: nat
    var lastContentCol: nat

    ghost function Now(): Writer
      reads this
    {
      Writer(currentRow, nullCellCount, cursorStyle, styleRow, styleCol, backgroundCell,
             lastCursorRow, lastCursorCol, lastContentRow, lastContentCol)
    }

    constructor (lines: seq<Screen.Line>, rows: nat)
      ensures this.lines == lines && this.rows == rows && Now() == NEW_WRITER && allRows == []
    {
      this.lines, this.rows := lines, rows;
      allRows, currentRow, nullCellCount := [], [], 0;
      cursorStyle, styleRow, styleCol, backgroundCell := DEFAULT_ATTR, 0, 0, DEFAULT_ATTR;
      lastCursorRow, lastCursorCol, lastContentRow, lastContentCol := 0, 0, 0, 0;
    }

    method SkipNulls()
      modifies this`currentRow, this`nullCellCount
      ensures currentRow == old(currentRow) + Skip(old(Now())) && nullCellCount == 0
    {
      if nullCellCount > 0 {
        if !EqualBg(cursorStyle, backgroundCell) {
          currentRow := currentRow + [Move(Screen.ECH, nullCellCount)];
        }
        currentRow := currentRow + [Move(Screen.CUF, nullCellCount)];
        nullCellCount := 0;
      }
    }

    method WriteStyle(cell: Cell, row: nat, col: nat)
      modifies this
      ensures Now() == WithStyle(old(Now()), cell, row, col) && allRows == old(allRows)
    {
      hide Sgr.DiffStyle, AttrOf, Skip;
      var sgr := Sgr.DiffStyle(AttrOf(cell), cursorStyle);
      SkipNulls();
      lastContentRow, lastContentCol, lastCursorRow, lastCursorCol := row, col, row, col;
      currentRow := currentRow + [Csi(Screen.SGR, sgr)];
      cursorStyle, styleRow, styleCol := AttrOf(cell), row, col;
    }

    method WriteContent(cell: Cell, row: nat, col: nat)
      modifies this
      ensures Now() == WithCell(old(Now()), cell, row, col) && allRows == old(allRows)
    {
      hide Skip;
      SkipNulls();
      currentRow := currentRow + [Char(cell.code)];
      lastContentRow, lastContentCol := row, col + cell.width;
      lastCursorRow, lastCursorCol := row, col + cell.width;
    }

    method VisitCell(cell: Cell, row: nat, col: nat)
      modifies this
      ensures Now() == NextCell(old(Now()), cell, row, col) && allRows == old(allRows)
    {
      hide Sgr.DiffStyle, EqualBg, AttrOf, WithStyle, WithCell;
      if cell.width == 0 {
        return;
      }
      var isEmpty := !cell.HasContent();
      var sgr := Sgr.DiffStyle(AttrOf(cell), cursorStyle);
      var styleChanged := if isEmpty then !EqualBg(cursorStyle, AttrOf(cell)) else |sgr| > 0;
      if styleChanged {
        WriteStyle(cell, row, col);
      }
      if isEmpty {
        nullCellCount := nullCellCount + cell.width;
      } else {
        WriteContent(cell, row, col);
      }
    }

    method EnableBce(row: nat)
      modifies this`backgroundCell
      ensures backgroundCell == Background(old(Now()), lines, rows, row)
    {
      if row >= rows && styleRow < |lines| && styleCol < |lines[styleRow].cells| {
        backgroundCell := AttrOf(lines[styleRow].cells[styleCol]);
      }
    }

    /** The empty end of a row is erased if it has a background. */
    method EraseRest()
      modifies this`currentRow
      ensures currentRow == old(currentRow) + (if nullCellCount > 0 && !EqualBg(cursorStyle, backgroundCell)
                                               then [Move(Screen.ECH, nullCellCount)] else [])
    {
      assert currentRow + [] == currentRow;
      if nullCellCount > 0 && !EqualBg(cursorStyle, backgroundCell) {
        currentRow := currentRow + [Move(Screen.ECH, nullCellCount)];
      }
    }

    method LeadOn(row: nat) returns (rowSeparator: seq<Token>)
      requires row + 1 < |lines| && forall i :: 0 <= i < |lines| ==> lines[i].cells != []
      modifies this`lastCursorRow, this`lastCursorCol, this`lastContentRow, this`lastContentCol
      ensures (Now(), rowSeparator) == Continued(old(Now()), lines, row)
    {
      hide ForcedWrap, WrapsByItself;
      rowSeparator := [];
      if !lines[row + 1].wrapped {
        rowSeparator := [CrLf];
        lastCursorRow, lastCursorCol := row + 1, 0;
      } else if !WrapsByItself(nullCellCount, lines[row].cells, lines[row + 1].cells) {
        rowSeparator := ForcedWrap(nullCellCount, |lines[row].cells|);
        lastContentRow, lastContentCol := row + 1, 0;
        lastCursorRow, lastCursorCol := row + 1, 0;
      }
    }

    method RowEnd(row: nat)
      requires row < |lines| && forall i :: 0 <= i < |lines| ==> lines[i].cells != []
      modifies this
      ensures Now() == EndOfRow(old(Now()), lines, rows, row).0
      ensures allRows == old(allRows) + [EndOfRow(old(Now()), lines, rows, row).1]
    {
      hide EqualBg, Continued, AttrOf;
      EraseRest();
      var rowSeparator: seq<Token> := [];
      if row != |lines| - 1 {
        EnableBce(row);
        rowSeparator := LeadOn(row);
      }
      allRows := allRows + [Written(currentRow, rowSeparator)];
      currentRow, nullCellCount := [], 0;
    }

    method SerializeRows()
      requires Now() == NEW_WRITER && allRows == [] && forall i :: 0 <= i < |lines| ==> lines[i].cells != []
      modifies this
      ensures (Now(), allRows) == Rows(lines, rows, |lines|)
    {
      hide NextCell, EndOfRow;
      for row := 0 to |lines|
        invariant (Now(), allRows) == Rows(lines, rows, row)
      {
        ghost var w := Now();
        for col := 0 to |lines[row].cells|
          invariant Now() == AfterCells(w, lines[row].cells, row, col) && allRows == Rows(lines, rows, row).1
        {
          VisitCell(lines[row].cells[col], row, col);
        }
        RowEnd(row);
      }
    }

    /** The rows that are kept, with the separators between them. */
    method JoinRows(end: nat) returns (content: seq<Token>)
      requires 0 < end <= |allRows|
      ensures content == Joined(allRows[..end])
    {
      content := [];
      ghost var kept := allRows[..end];
      for i := 0 to end - 1
        invariant content == Lead(allRows[..i])
      {
        content := content + allRows[i].tokens + allRows[i].separator;
        assert allRows[..i + 1][..i] == allRows[..i];
      }
      content := content + allRows[end - 1].tokens;
      assert kept[..end - 1] == allRows[..end - 1];
    }
  }

  /** The serializer of a buffer. */
  method Serialize(t: Screen.Term) returns (content: seq<Token>)
    requires t.lines != [] && forall i :: 0 <= i < |t.lines| ==> t.lines[i].cells != []
    ensures content == Serialized(t)
  {
    hide Rows, Joined, ToStyle, ToCursor;
    var h := new StringSerializeHandler(t.lines, t.rows);
    h.SerializeRows();
    var rowEnd := |h.allRows|;
    if |t.lines| <= t.rows {
      if h.lastContentRow + 1 < rowEnd {
        rowEnd := h.lastContentRow + 1;
      }
      h.lastCursorRow, h.lastCursorCol := h.lastContentRow, h.lastContentCol;
    }
    content := h.JoinRows(rowEnd);
    content := content + ToCursor(h.lastCursorRow, h.lastCursorCol, t.yBase + t.y, t.x)
               + ToStyle(h.cursorStyle, t.attr);
  }
}
