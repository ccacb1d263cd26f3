/** Replaying a whole serialized screen. */
module SerializeReplayScreen {
  import opened Attributes
  import opened BufferLines
  import opened Screen
  import opened SerializeReplay
  import opened SerializeReplayRows
  import Sgr
  import S = Serializer

  lemma LinesAreNotEmpty(s: Term)
    requires Valid(s)
    ensures s.lines != [] && forall i :: 0 <= i < |s.lines| ==> s.lines[i].cells != []
  {
  }

  /** The terminal that a serialized screen is fed to. */
  function Start(s: Term): (t: Term)
    requires Valid(s)
    ensures Valid(t)
  {
    Fresh(s.cols, s.rows, s.scrollback)
  }

  /** The writer in front of row `r`, and the rows before it. */
  function Before(s: Term, r: nat): (b: (S.Writer, seq<S.Written>))
    requires Valid(s) && r <= |s.lines|
    ensures |b.1| == r
  {
    LinesAreNotEmpty(s);
    S.Rows(s.lines, s.rows, r)
  }

  /** The writer at the end of row `r`. */
  function AtEnd(s: Term, r: nat): S.Writer
    requires Valid(s) && r < |s.lines|
  {
    S.AfterCells(Before(s, r).0, s.lines[r].cells, r, s.cols)
  }

  lemma {:induction false} NextRow(s: Term, r: nat)
    requires Valid(s) && r < |s.lines|
    ensures var e := (LinesAreNotEmpty(s); S.EndOfRow(AtEnd(s, r), s.lines, s.rows, r));
            Before(s, r + 1) == (e.0, Before(s, r).1 + [e.1])
  {
    hide S.EndOfRow, S.AfterCells;
  }

  lemma {:induction false} LeadOneMore(ws: seq<S.Written>, w: S.Written)
    ensures S.Lead(ws + [w]) == S.Lead(ws) + w.tokens + w.separator
    ensures S.Joined(ws + [w]) == S.Lead(ws) + w.tokens
  {
    assert (ws + [w])[..|ws + [w]| - 1] == ws;
  }

  /** In front of every row the terminal and the writer are in step. */
  lemma {:induction false} ReadyForRow(s: Term, r: nat) returns (t: Term)
    requires Drawable(s) && r < |s.lines|
    ensures t == Draw(Start(s), S.Lead(Before(s, r).1)) && InStep(t, s, r, 0, Before(s, r).0) &&
            Before(s, r).0.row == []
    decreases r, 0
  {
    hide DrawableCell, Styled, Draw, S.Lead, Follows, Fresh, At, InStep, Before, AtEnd, RowTail, OnBg, Length;
    if r == 0 {
      t := Start(s);
      ReadyAtStart(s);
    } else {
      var done := RowDrawn(s, r - 1);
      t := RowLeadsOn(s, r - 1, done);
    }
  }

  /** What is written between two rows leads from the end of one to the start of the next. */
  lemma {:induction false} RowLeadsOn(s: Term, r: nat, done: Term) returns (t: Term)
    requires Drawable(s) && r + 1 < |s.lines|
    requires var w := AtEnd(s, r);
             && done == Draw(Start(s), S.Lead(Before(s, r).1) + (w.row + RowTail(w)))
             && At(done, s, r, s.cols, Length(s, r)) && OnBg(done.attr, LastCell(s, r))
             && Styled(done.attr, w.cursorStyle) && Follows(s, r, s.cols, w)
    ensures t == Draw(Start(s), S.Lead(Before(s, r + 1).1))
    ensures InStep(t, s, r + 1, 0, Before(s, r + 1).0) && Before(s, r + 1).0.row == []
  {
    hide DrawableCell, Ready, Styled, Draw, S.Lead, S.EndOfRow, Between, Follows, Fresh, At, InStep, RowTail, OnBg,
         Length, S.AfterCells;
    var w := AtEnd(s, r);
    t := RowEnded(done, s, r);
    LinesAreNotEmpty(s);
    EndOfRowIs(w, s, r);
    NextRow(s, r);
    var ws := Before(s, r).1;
    var e := S.EndOfRow(w, s.lines, s.rows, r);
    LeadOneMore(ws, e.1);
    DrawAppend(Start(s), S.Lead(ws) + e.1.tokens, e.1.separator);
    ReadyInStep(t, s, r + 1, e.0);
  }

  lemma ReadyInStep(t: Term, s: Term, r: nat, w: S.Writer)
    requires Valid(s) && r < |s.lines| && Ready(t, s, r) && Styled(t.attr, w.cursorStyle) && Follows(s, r, 0, w)
    ensures InStep(t, s, r, 0, w)
  {
    hide Ready, Styled, Follows;
    ReadyIsValid(t, s, r);
  }

  lemma ReadyIsValid(t: Term, s: Term, r: nat)
    requires Ready(t, s, r)
    ensures Valid(t)
  {
    ReadyMayChange(t, s, r, t.attr);
  }

  lemma ReadyAtStart(s: Term)
    requires Drawable(s)
    ensures InStep(Start(s), s, 0, 0, Before(s, 0).0) && Start(s) == Draw(Start(s), S.Lead(Before(s, 0).1))
    ensures Before(s, 0).0.row == []
  {
    hide DrawableCell, Draw, At;
    FreshIsAtStart(s);
    DrawNothing(Start(s));
  }

  /** After the cells of a row they still are. */
  lemma {:induction false} CellsInStep(s: Term, r: nat, j: nat) returns (t: Term)
    requires Drawable(s) && r < |s.lines| && j <= s.cols
    ensures var w := S.AfterCells(Before(s, r).0, s.lines[r].cells, r, j);
            t == Draw(Start(s), S.Lead(Before(s, r).1) + w.row) && InStep(t, s, r, j, w)
    decreases r, 1
  {
    hide Draw, S.Lead, DrawableCell, InStep, Fresh, S.AfterCells;
    var before := ReadyForRow(s, r);
    t := CellsDrawn(before, s, r, j, Before(s, r).0);
    DrawAppend(Start(s), S.Lead(Before(s, r).1), S.AfterCells(Before(s, r).0, s.lines[r].cells, r, j).row);
  }

  /** After its last piece the terminal shows all of the row. */
  lemma {:induction false} RowDrawn(s: Term, r: nat) returns (t: Term)
    requires Drawable(s) && r < |s.lines|
    ensures var w := AtEnd(s, r);
            && t == Draw(Start(s), S.Lead(Before(s, r).1) + (w.row + RowTail(w)))
            && At(t, s, r, s.cols, Length(s, r)) && OnBg(t.attr, LastCell(s, r)) && Styled(t.attr, w.cursorStyle)
            && Follows(s, r, s.cols, w)
    decreases r, 2
  {
    hide Styled, Draw, S.Lead, DrawableCell, Fresh, S.AfterCells, At, OnBg, RowTail, Reached, Follows;
    var w := AtEnd(s, r);
    var cells := CellsInStep(s, r, s.cols);
    t := TailDrawn(cells, s, r, w);
    var lead := S.Lead(Before(s, r).1);
    DrawAppend(Start(s), lead + w.row, RowTail(w));
    assert lead + w.row + RowTail(w) == lead + (w.row + RowTail(w));
  }

  // ---- where the writer thinks the cursor is ----

  /** Nothing is written for row `i`: it is empty, in the background of the cell before, and wraps nothing. */
  predicate EmptyLine(s: Term, i: nat)
    requires Valid(s) && i < |s.lines|
  {
    Length(s, i) == 0 && !s.lines[i].wrapped && SameBg(s.lines[i].cells[0], Visited(s, i, 0))
  }

  ghost predicate AllEmptyBetween(s: Term, from: nat, to: nat)
    requires Valid(s) && to <= |s.lines|
  {
    forall i :: from <= i < to ==> EmptyLine(s, i)
  }

  /** In front of row `r`: the cursor is in its first column, or behind the full row that wraps into it;
      behind the last row with content or a forced wrap there are only empty rows. */
  ghost predicate PlacedBefore(s: Term, r: nat, w: S.Writer)
    requires Valid(s) && r < |s.lines|
  {
    && w.lastContentRow <= r
    && w.lastContentCol == (if w.lastContentRow < r then Length(s, w.lastContentRow) else 0)
    && AllEmptyBetween(s, w.lastContentRow + 1, r)
    && (w.lastContentRow == 0 || w.lastContentRow == r || !EmptyLine(s, w.lastContentRow))
    && (0 < w.lastContentRow == r ==> s.lines[r].wrapped)
    && if 0 < r && s.lines[r].wrapped && w.lastContentRow < r then
         w.lastContentRow == r - 1 && s.lines[r].cells[0].HasContent()
       else w.lastCursorRow == r && w.lastCursorCol == 0
  }

  ghost predicate PlacedAfter(s: Term, r: nat, w: S.Writer)
    requires Valid(s) && r < |s.lines|
  {
    && w.lastContentRow <= r && w.lastContentCol == Length(s, w.lastContentRow)
    && AllEmptyBetween(s, w.lastContentRow + 1, r + 1)
    && (w.lastContentRow == 0 || !EmptyLine(s, w.lastContentRow))
    && w.lastCursorRow == r && w.lastCursorCol == Length(s, r)
  }

  /** Something has been written for the first `j` cells of row `r`. */
  predicate Touched(s: Term, r: nat, j: nat)
    requires Valid(s) && r < |s.lines| && j <= s.cols
  {
    RunStart(s.lines[r].cells, j) > 0 || (j > 0 && !SameBg(s.lines[r].cells[0], Visited(s, r, 0)))
  }

  predicate SamePlaces(w: S.Writer, w': S.Writer) {
    && w'.lastContentRow == w.lastContentRow && w'.lastContentCol == w.lastContentCol
    && w'.lastCursorRow == w.lastCursorRow && w'.lastCursorCol == w.lastCursorCol
  }

  predicate PlacedAt(w: S.Writer, r: nat, c: nat) {
    w.lastContentRow == r && w.lastContentCol == c && w.lastCursorRow == r && w.lastCursorCol == c
  }

  /** What the first `j` cells of a row do to the positions that the writer notes. */
  predicate PlacedIn(s: Term, r: nat, j: nat, w: S.Writer, w': S.Writer)
    requires Valid(s) && r < |s.lines| && j <= s.cols
  {
    if Touched(s, r, j) then PlacedAt(w', r, RunStart(s.lines[r].cells, j)) else SamePlaces(w, w')
  }

  lemma {:induction false} CellsPlace(s: Term, r: nat, j: nat)
    requires Drawable(s) && r < |s.lines| && j <= s.cols
    ensures PlacedIn(s, r, j, Before(s, r).0, S.AfterCells(Before(s, r).0, s.lines[r].cells, r, j))
  {
    hide S.NextCell, DrawableCell, PlacedIn, Before, Reached, Styled, Follows;
    var w := Before(s, r).0;
    if j == 0 {
      NothingPlaced(s, r, w);
    } else {
      CellsPlace(s, r, j - 1);
      var t := CellsInStep(s, r, j - 1);
      CellPlaces(s, r, j - 1, w, S.AfterCells(w, s.lines[r].cells, r, j - 1));
    }
  }

  lemma NothingPlaced(s: Term, r: nat, w: S.Writer)
    requires Valid(s) && r < |s.lines|
    ensures PlacedIn(s, r, 0, w, w)
  {
  }

  lemma {:induction false} CellPlaces(s: Term, r: nat, j: nat, w: S.Writer, w1: S.Writer)
    requires Drawable(s) && r < |s.lines| && j < s.cols && PlacedIn(s, r, j, w, w1) && Follows(s, r, j, w1)
    ensures PlacedIn(s, r, j + 1, w, S.NextCell(w1, s.lines[r].cells[j], r, j))
  {
    hide S.NextCell, DrawableCell, OnBg, SameBg, Expected, StyleNoted;
    var cell := s.lines[r].cells[j];
    if cell.HasContent() {
      assert DrawableCell(cell);
      CharacterIsNarrow(cell);
      ContentWrites(w1, cell, r, j);
    } else {
      EmptyIsWiped(s, r, j);
      StyleOnCell(w1.cursorStyle, Visited(s, r, j), cell);
      if OnBg(w1.cursorStyle, cell) {
        EmptyWaits(w1, cell, r, j);
      } else {
        EmptyRestyles(w1, cell, r, j);
      }
    }
  }

  lemma StyleOnCell(a: Attr, cell: Cell, other: Cell)
    requires OnBg(a, cell)
    ensures OnBg(a, other) <==> SameBg(cell, other)
    ensures SameBg(cell, other) <==> SameBg(other, cell)
  {
  }

  lemma {:induction false} RowPlaces(s: Term, r: nat)
    requires Drawable(s) && r < |s.lines| && PlacedBefore(s, r, Before(s, r).0)
    ensures PlacedAfter(s, r, AtEnd(s, r))
  {
    hide S.AfterCells, DrawableCell, RunStart, SameBg, Before;
    CellsPlace(s, r, s.cols);
    if s.lines[r].cells[0].HasContent() {
      RunGrows(s.lines[r].cells, s.cols);
    }
  }

  lemma {:induction false} RunGrows(cells: Row, n: nat)
    requires 0 < n <= |cells| && cells[0].HasContent()
    ensures RunStart(cells, n) > 0
  {
    hide SameBg;
    if n > 1 {
      RunGrows(cells, n - 1);
    }
  }

  lemma {:induction false} EndPlaces(s: Term, r: nat, w: S.Writer)
    requires Drawable(s) && r + 1 < |s.lines| && PlacedAfter(s, r, w)
    requires w.nullCellCount == s.cols - Length(s, r)
    ensures var e := (LinesAreNotEmpty(s); S.EndOfRow(w, s.lines, s.rows, r)); PlacedBefore(s, r + 1, e.0)
  {
    hide DrawableCell, S.WrapsByItself, RunStart, S.ForcedWrap, S.Background, SameBg;
    LinesAreNotEmpty(s);
    ByItself(s, r, w.nullCellCount);
    if s.lines[r].cells[s.cols - 1].HasContent() {
      RunIs(s.lines[r].cells, s.cols);
      assert !EmptyLine(s, r);
    }
  }

  lemma {:induction false} Placed(s: Term, r: nat)
    requires Drawable(s) && r < |s.lines|
    ensures PlacedBefore(s, r, Before(s, r).0) && PlacedAfter(s, r, AtEnd(s, r))
  {
    hide DrawableCell, S.AfterCells, S.EndOfRow, PlacedAfter, PlacedBefore, Before, AtEnd, Length, At, RowTail, Draw;
    if r == 0 {
      PlacedAtStart(s);
    } else {
      Placed(s, r - 1);
      var done := RowDrawn(s, r - 1);
      LengthIs(s, r - 1);
      EndPlaces(s, r - 1, AtEnd(s, r - 1));
      NextRow(s, r - 1);
    }
    RowPlaces(s, r);
  }

  lemma AtEndIs(s: Term, r: nat)
    requires Valid(s) && r < |s.lines|
    ensures AtEnd(s, r) == S.AfterCells(Before(s, r).0, s.lines[r].cells, r, s.cols)
  {
  }

  lemma PlacedAtStart(s: Term)
    requires Valid(s)
    ensures PlacedBefore(s, 0, Before(s, 0).0)
  {
  }

  // ---- the end of the text ----

  lemma {:induction false} RowsBefore(s: Term, r: nat, n: nat)
    requires Valid(s) && r <= n <= |s.lines|
    ensures Before(s, n).1[..r] == Before(s, r).1
    decreases n
  {
    hide *;
    if r < n {
      RowsBefore(s, r, n - 1);
      NextRow(s, n - 1);
    }
  }

  /** The last of the first `n` lines that is not empty; the first line if all are. */
  function LastFilled(s: Term, n: nat): (r: nat)
    requires Valid(s) && 0 < n <= |s.lines|
    ensures r < n
  {
    if n == 1 || !EmptyLine(s, n - 1) then n - 1 else LastFilled(s, n - 1)
  }

  lemma {:induction false} LastFilledIs(s: Term, n: nat, r: nat)
    requires Valid(s) && r < n <= |s.lines|
    requires AllEmptyBetween(s, r + 1, n) && (r == 0 || !EmptyLine(s, r))
    ensures LastFilled(s, n) == r
  {
    hide EmptyLine;
    if r < n - 1 {
      assert EmptyLine(s, n - 1);
      LastFilledIs(s, n - 1, r);
    }
  }

  /** The last row that has to be written: with scrollback the last one, otherwise the last that is
      not empty. */
  function LastRow(s: Term): (r: nat)
    requires Valid(s)
    ensures r < |s.lines|
  {
    if |s.lines| > s.rows then |s.lines| - 1 else LastFilled(s, |s.lines|)
  }

  /** The last row that the writer writes. */
  function WrittenRow(s: Term): (r: nat)
    requires Valid(s)
    ensures r < |s.lines|
  {
    LinesAreNotEmpty(s);
    S.RowsWritten(s.lines, s.rows, Before(s, |s.lines|).0) - 1
  }

  function TextOf(s: Term): seq<S.Token>
    requires Valid(s)
  {
    S.Joined(Before(s, |s.lines|).1[..WrittenRow(s) + 1])
  }

  /** At the end, the writer is where it was after the cells of the last row. */
  lemma {:induction false} AtLast(s: Term)
    requires Drawable(s)
    ensures var n := |s.lines|; PlacedAfter(s, n - 1, AtEnd(s, n - 1))
    ensures var w, w' := Before(s, |s.lines|).0, AtEnd(s, |s.lines| - 1);
            SamePlaces(w, w') && w.cursorStyle == w'.cursorStyle
  {
    hide DrawableCell, S.AfterCells, Before, AtEnd, PlacedAfter, PlacedBefore;
    var n := |s.lines|;
    Placed(s, n - 1);
    NextRow(s, n - 1);
    LinesAreNotEmpty(s);
    LastEnds(AtEnd(s, n - 1), s);
  }

  lemma LastEnds(w: S.Writer, s: Term)
    requires Valid(s) && forall i :: 0 <= i < |s.lines| ==> s.lines[i].cells != []
    ensures S.EndOfRow(w, s.lines, s.rows, |s.lines| - 1).0 == w.(row := [], nullCellCount := 0)
  {
  }

  lemma {:induction false} WrittenRowIs(s: Term)
    requires Drawable(s)
    ensures if |s.lines| > s.rows then WrittenRow(s) == |s.lines| - 1
            else WrittenRow(s) == 0 || !EmptyLine(s, WrittenRow(s))
    ensures AllEmptyBetween(s, WrittenRow(s) + 1, |s.lines|)
    ensures var w := Before(s, |s.lines|).0;
            var fits := |s.lines| <= s.rows;
            && (if fits then w.lastContentRow else w.lastCursorRow) == WrittenRow(s)
            && (if fits then w.lastContentCol else w.lastCursorCol) == Length(s, WrittenRow(s))
  {
    hide DrawableCell, S.AfterCells, Before, AtEnd, EmptyLine, Length;
    AtLast(s);
    LinesAreNotEmpty(s);
  }

  /** The writer stops behind the last row that has to be written; the rows behind it are empty, and the
      positions it notes are the end of that row. */
  lemma {:induction false} RestIsEmpty(s: Term)
    requires Drawable(s)
    ensures WrittenRow(s) == LastRow(s)
    ensures AllEmptyBetween(s, LastRow(s) + 1, |s.lines|)
    ensures var w := Before(s, |s.lines|).0;
            var fits := |s.lines| <= s.rows;
            && (if fits then w.lastContentRow else w.lastCursorRow) == LastRow(s)
            && (if fits then w.lastContentCol else w.lastCursorCol) == Length(s, LastRow(s))
  {
    hide DrawableCell, WrittenRow, Before, EmptyLine, Length, LastFilled;
    WrittenRowIs(s);
    if |s.lines| <= s.rows {
      LastFilledIs(s, |s.lines|, WrittenRow(s));
    }
  }

  lemma {:induction false} StyleStays(s: Term, r: nat, n: nat)
    requires Drawable(s) && r <= n < |s.lines| && AllEmptyBetween(s, r + 1, n + 1)
    ensures AtEnd(s, n).cursorStyle == AtEnd(s, r).cursorStyle
    decreases n
  {
    hide DrawableCell, S.AfterCells, Before, AtEnd, Length, Follows, Reached, Styled, S.EndOfRow, EmptyLine;
    if r < n {
      StyleStays(s, r, n - 1);
      NextRow(s, n - 1);
      LinesAreNotEmpty(s);
      EndKeepsStyle(AtEnd(s, n - 1), s, n - 1);
      AtEndIs(s, n);
      EmptyKeepsStyle(s, n, s.cols);
    }
  }

  /** An empty row changes no style. */
  lemma {:induction false} EmptyKeepsStyle(s: Term, r: nat, j: nat)
    requires Drawable(s) && r < |s.lines| && EmptyLine(s, r) && j <= s.cols
    ensures S.AfterCells(Before(s, r).0, s.lines[r].cells, r, j).cursorStyle == Before(s, r).0.cursorStyle
  {
    hide DrawableCell, Before, Reached, Styled, S.NextCell, OnBg, SameBg, Expected, StyleNoted, RunStart;
    if j > 0 {
      EmptyKeepsStyle(s, r, j - 1);
      var t := CellsInStep(s, r, j - 1);
      var w := S.AfterCells(Before(s, r).0, s.lines[r].cells, r, j - 1);
      var cell := s.lines[r].cells[j - 1];
      EmptyRowIs(s, r, j - 1);
      EmptyIsWiped(s, r, j - 1);
      StyleOnCell(w.cursorStyle, Visited(s, r, j - 1), cell);
      EmptyWaits(w, cell, r, j - 1);
    }
  }

  /** Every cell of an empty row is empty, in the background of the cell before. */
  lemma {:induction false} EmptyRowIs(s: Term, r: nat, j: nat)
    requires Drawable(s) && r < |s.lines| && EmptyLine(s, r) && j < s.cols
    ensures !s.lines[r].cells[j].HasContent() && SameBg(s.lines[r].cells[j], Visited(s, r, j))
  {
    hide DrawableCell, SameBg, RunStart;
    LengthIs(s, r);
    var cells := s.lines[r].cells;
    RunIs(cells, s.cols);
    if j > 0 {
      assert SameBg(LastCell(s, r), cells[j]) && SameBg(LastCell(s, r), cells[j - 1]);
      SameBgThrough(cells[j], LastCell(s, r), cells[j - 1]);
    }
  }

  // ---- the style that was written last ----

  /** The attributes in use after the first `n` cells: a character needs its own, an empty cell only its
      background. */
  function RowStyle(cells: Row, n: nat, before: Attr): Attr
    requires n <= |cells|
  {
    if n == 0 then before
    else
      var last := RowStyle(cells, n - 1, before);
      if !cells[n - 1].HasContent() && EqualBg(last, AttrOf(cells[n - 1])) then last else AttrOf(cells[n - 1])
  }

  /** The attributes in use after the first `r` rows. */
  function LastStyle(s: Term, r: nat): Attr
    requires Valid(s) && r <= |s.lines|
  {
    if r == 0 then DEFAULT_ATTR else RowStyle(s.lines[r - 1].cells, s.cols, LastStyle(s, r - 1))
  }

  lemma StyledItself(style: Attr, last: Attr)
    requires Styled(style, last)
    ensures Styled(style, style)
    ensures forall cell: Cell :: OnBg(style, cell) <==> EqualBg(last, AttrOf(cell))
  {
  }

  lemma {:induction false} CellStyle(s: Term, r: nat, j: nat, w: S.Writer, last: Attr)
    requires Drawable(s) && r < |s.lines| && j < s.cols && Styled(w.cursorStyle, last)
    ensures var cell := s.lines[r].cells[j];
            Styled(S.NextCell(w, cell, r, j).cursorStyle,
                   if !cell.HasContent() && EqualBg(last, AttrOf(cell)) then last else AttrOf(cell))
  {
    hide S.NextCell, DrawableCell, Styled, Sgr.DiffStyle, Sgr.Read, S.AttrOf, EqualBg, OnBg;
    var cell := s.lines[r].cells[j];
    StyledItself(w.cursorStyle, last);
    assert DrawableCell(cell);
    NextStyle(w.cursorStyle, w.cursorStyle, cell);
    CellStyled(cell, Sgr.Read(Sgr.DiffStyle(S.AttrOf(cell), w.cursorStyle), w.cursorStyle));
    if cell.HasContent() {
      CharacterIsNarrow(cell);
      ContentWrites(w, cell, r, j);
      if Sgr.DiffStyle(S.AttrOf(cell), w.cursorStyle) == [] {
        Sgr.ReadNothing(w.cursorStyle);
      }
    } else {
      EmptyIsWiped(s, r, j);
      if OnBg(w.cursorStyle, cell) {
        EmptyWaits(w, cell, r, j);
      } else {
        EmptyRestyles(w, cell, r, j);
      }
    }
  }

  lemma CellStyled(cell: Cell, a: Attr)
    requires Styled(a, S.AttrOf(cell))
    ensures Styled(S.AttrOf(cell), S.AttrOf(cell))
  {
  }

  lemma {:induction false} RowStyled(s: Term, r: nat, j: nat, w: S.Writer, last: Attr)
    requires Drawable(s) && r < |s.lines| && j <= s.cols && Styled(w.cursorStyle, last)
    ensures Styled(S.AfterCells(w, s.lines[r].cells, r, j).cursorStyle, RowStyle(s.lines[r].cells, j, last))
  {
    hide S.NextCell, DrawableCell, Styled, S.AttrOf, EqualBg;
    if j > 0 {
      RowStyled(s, r, j - 1, w, last);
      CellStyle(s, r, j - 1, S.AfterCells(w, s.lines[r].cells, r, j - 1), RowStyle(s.lines[r].cells, j - 1, last));
    }
  }

  /** The style that the writer notes looks like the one in use. */
  lemma {:induction false} NotedStyle(s: Term, r: nat)
    requires Drawable(s) && r <= |s.lines|
    ensures Styled(Before(s, r).0.cursorStyle, LastStyle(s, r))
  {
    hide S.AfterCells, S.EndOfRow, DrawableCell, Styled, RowStyle, Before;
    if r == 0 {
      NewWriterStyle(s);
    } else {
      NotedStyle(s, r - 1);
      RowStyled(s, r - 1, s.cols, Before(s, r - 1).0, LastStyle(s, r - 1));
      LinesAreNotEmpty(s);
      NextRow(s, r - 1);
      EndKeepsStyle(AtEnd(s, r - 1), s, r - 1);
    }
  }

  lemma NewWriterStyle(s: Term)
    requires Valid(s)
    ensures Styled(Before(s, 0).0.cursorStyle, LastStyle(s, 0))
  {
  }

  lemma EndKeepsStyle(w: S.Writer, s: Term, r: nat)
    requires Valid(s) && r < |s.lines| && forall i :: 0 <= i < |s.lines| ==> s.lines[i].cells != []
    ensures S.EndOfRow(w, s.lines, s.rows, r).0.cursorStyle == w.cursorStyle
  {
  }

  /** What can be expressed only depends on what the style looks like. */
  lemma ExpressibleFromSeen(cell: Attr, style: Attr, last: Attr)
    requires Seen(style) == Seen(last)
    ensures Sgr.Expressible(cell, style) <==> Sgr.Expressible(cell, last)
  {
  }

  /** The whole text leaves the terminal in the last written row, at its empty end. */
  lemma {:induction false} TextDrawn(s: Term) returns (t: Term)
    requires Drawable(s)
    ensures t == Draw(Start(s), TextOf(s))
    ensures var r := LastRow(s); At(t, s, r, s.cols, Length(s, r))
    ensures Styled(t.attr, Before(s, |s.lines|).0.cursorStyle)
  {
    hide DrawableCell, S.AfterCells, AtEnd, Length, Styled, At, S.Lead, S.Joined, Draw, S.EndOfRow, S.RowsWritten,
         Start, Follows, RowTail, OnBg;
    var r, n := LastRow(s), |s.lines|;
    t := RowDrawn(s, r);
    var w := AtEnd(s, r);
    LinesAreNotEmpty(s);
    EndOfRowIs(w, s, r);
    NextRow(s, r);
    RowsBefore(s, r + 1, n);
    LeadOneMore(Before(s, r).1, S.EndOfRow(w, s.lines, s.rows, r).1);
    RestIsEmpty(s);
    StyleStays(s, r, n - 1);
    AtLast(s);
  }

  // ---- the screen comes back ----

  /** The same rows with the same wrap marks, split into scrollback and viewport at the same place. */
  ghost predicate Rebuilt(t: Term, s: Term) {
    && |t.lines| == |s.lines| && t.yBase == s.yBase
    && (forall i :: 0 <= i < |s.lines| ==> t.lines[i].wrapped == s.lines[i].wrapped)
    && forall i :: 0 <= i < |s.lines| ==> SameCells(t.lines[i].cells, s.lines[i].cells)
  }

  predicate SameCells(a: Row, b: Row) {
    |a| == |b| && forall j :: 0 <= j < |a| ==> SameCell(a[j], b[j])
  }

  /** Row `i` wraps into the next one and can be left without a trace: it is full, or the screen has
      more rows and it is not of one empty colour. */
  predicate WrapsCleanly(s: Term, i: nat)
    requires Valid(s) && i < |s.lines|
  {
    i + 1 < |s.lines| && s.lines[i + 1].wrapped ==>
      if s.rows == 1 then s.lines[i].cells[s.cols - 1].HasContent() else Length(s, i) > 0
  }

  /** An empty cell without a background comes back with that of the last cell of the row above: in the
      first row that is scrolled in, and in column 0 behind a forced wrap in the first screenful. A row
      that itself forces a wrap is erased again from its empty end on. */
  predicate Stained(s: Term, i: nat, j: nat)
    requires Valid(s) && i < |s.lines| && j < s.cols
  {
    var cell := s.lines[i].cells[j];
    && 0 < i <= s.rows && (i == s.rows || (j == 0 && ForcesWrap(s, i - 1)))
    && !SameBg(LastCell(s, i - 1), NULL_CELL)
    && !cell.HasContent() && SameBg(cell, NULL_CELL)
    && !(ForcesWrap(s, i) && Length(s, i) <= j)
  }

  ghost predicate Unstained(s: Term)
    requires Valid(s)
  {
    forall i, j :: 0 <= i < |s.lines| && 0 <= j < s.cols ==> !Stained(s, i, j)
  }

  /** The rows that are not written have no background. */
  predicate RestIsPlain(s: Term)
    requires Valid(s)
  {
    LastRow(s) + 1 < |s.lines| ==> SameBg(LastCell(s, LastRow(s)), NULL_CELL)
  }

  ghost predicate Rebuildable(s: Term)
    requires Valid(s)
  {
    && !s.lines[0].wrapped && (forall i :: 0 <= i < |s.lines| ==> WrapsCleanly(s, i))
    && Unstained(s) && RestIsPlain(s)
  }

  lemma {:induction false} NoDashIfClean(s: Term, i: nat)
    requires Drawable(s) && i < |s.lines| && WrapsCleanly(s, i)
    ensures forall j :: 0 <= j < s.cols ==> !DashLeft(s, i, j)
  {
    hide DrawableCell, RunStart, SameBg;
    RunIs(s.lines[i].cells, s.cols);
    LengthIs(s, i);
  }

  /** The column of a dash that stays in a row that does not wrap cleanly. */
  lemma {:induction false} DashIfNotClean(s: Term, i: nat) returns (j: nat)
    requires Drawable(s) && i < |s.lines| && !WrapsCleanly(s, i)
    ensures j < s.cols && DashLeft(s, i, j) && !s.lines[i].cells[j].HasContent()
  {
    hide DrawableCell, RunStart, SameBg;
    RunIs(s.lines[i].cells, s.cols);
    LengthIs(s, i);
    j := if s.rows == 1 then s.cols - 1 else 0;
  }

  lemma DashIsNotEmpty(cell: Cell, other: Cell)
    requires IsDash(cell) && !other.HasContent()
    ensures !SameCell(cell, other)
  {
  }

  lemma SameCellItself(cell: Cell)
    ensures SameCell(cell, cell)
  {
  }

  /** A cell that has been drawn for good is what it should be exactly if it is not stained. */
  lemma {:induction false} FinalIs(cell: Cell, s: Term, i: nat, j: nat)
    requires Drawable(s) && i < |s.lines| && j < s.cols && SameCell(cell, Final(s, i, j))
    ensures SameCell(cell, s.lines[i].cells[j]) <==> !Stained(s, i, j)
  {
    hide DrawableCell, SameCell, Length, ForcesWrap;
    var wanted := s.lines[i].cells[j];
    if !wanted.HasContent() {
      EmptyIsWiped(s, i, j);
      EmptyShows(cell, Under(s, i, j), wanted);
    }
  }

  lemma EmptyShows(cell: Cell, under: Cell, wanted: Cell)
    requires wanted == Wiped(wanted)
    ensures SameCell(cell, under) && under == Wiped(under) ==> (SameCell(cell, wanted) <==> SameBg(under, wanted))
  {
  }

  /** What a terminal that has drawn everything down to row `r` shows in row `i`. */
  lemma {:induction false} ShownLine(t: Term, s: Term, r: nat, i: nat)
    requires Drawable(s) && r < |s.lines| && At(t, s, r, s.cols, Length(s, r)) && i <= r && !ForcesWrap(s, r)
    ensures i < |t.lines| && |t.lines[i].cells| == s.cols
    ensures t.lines[i].wrapped == s.lines[i].wrapped <==> i > 0 || !s.lines[0].wrapped
    ensures forall j :: 0 <= j < s.cols && !DashLeft(s, i, j) ==>
              (SameCell(t.lines[i].cells[j], s.lines[i].cells[j]) <==> !Stained(s, i, j))
    ensures forall j :: 0 <= j < s.cols && DashLeft(s, i, j) ==> IsDash(t.lines[i].cells[j])
  {
    hide SameCell, IsDash, DrawableCell, Length, ForcesWrap, Stained, Drawn;
    OnLine(t, s, r, i);
    forall j | 0 <= j < s.cols
      ensures !DashLeft(s, i, j) ==>
                (SameCell(t.lines[i].cells[j], s.lines[i].cells[j]) <==> !Stained(s, i, j))
      ensures DashLeft(s, i, j) ==> IsDash(t.lines[i].cells[j])
    {
      assert CellShows(t.lines[i].cells[j], s, i, j, r, if i == r then s.cols else 0);
      if !DashLeft(s, i, j) {
        FinalIs(t.lines[i].cells[j], s, i, j);
      }
    }
  }

  lemma OnLine(t: Term, s: Term, r: nat, i: nat)
    requires Valid(s) && r < |s.lines| && At(t, s, r, s.cols, Length(s, r)) && i < |t.lines|
    ensures i < |s.lines| && LineShows(t.lines[i], s, i, r, if i == r then s.cols else 0)
  {
    hide LineShows;
  }

  /** The rows behind the last one that is written have its background. */
  lemma {:induction false} RestIsOneColour(s: Term, i: nat, j: nat)
    requires Drawable(s) && LastRow(s) < i < |s.lines| && j < s.cols && AllEmptyBetween(s, LastRow(s) + 1, |s.lines|)
    ensures !s.lines[i].cells[j].HasContent() && SameBg(LastCell(s, LastRow(s)), s.lines[i].cells[j])
    decreases i, j
  {
    hide DrawableCell, LastRow, SameBg, EmptyLine;
    EmptyRowIs(s, i, j);
    var cell, before := s.lines[i].cells[j], Visited(s, i, j);
    if j > 0 {
      RestIsOneColour(s, i, j - 1);
    } else if LastRow(s) < i - 1 {
      RestIsOneColour(s, i - 1, s.cols - 1);
    } else {
      SameBgItself(before);
    }
    SameBgBack(LastCell(s, LastRow(s)), before, cell);
  }

  lemma SameBgBack(a: Cell, b: Cell, c: Cell)
    requires SameBg(a, b) && SameBg(c, b)
    ensures SameBg(a, c)
  {
  }

  /** They are left as they are on an empty terminal. */
  lemma {:induction false} RestShown(t: Term, s: Term, r: nat, i: nat)
    requires Drawable(s) && r == LastRow(s) && At(t, s, r, s.cols, Length(s, r)) && r < i < |s.lines| == |t.lines|
    requires AllEmptyBetween(s, r + 1, |s.lines|)
    ensures !t.lines[i].wrapped && !s.lines[i].wrapped
    ensures SameCells(t.lines[i].cells, s.lines[i].cells) <==> SameBg(LastCell(s, r), NULL_CELL)
  {
    hide SameCell, DrawableCell, Length, LastRow, SameBg;
    OnLine(t, s, r, i);
    assert EmptyLine(s, i);
    forall j | 0 <= j < s.cols
      ensures SameCell(t.lines[i].cells[j], s.lines[i].cells[j]) <==> SameBg(LastCell(s, r), NULL_CELL)
    {
      assert CellShows(t.lines[i].cells[j], s, i, j, r, 0);
      RestIsOneColour(s, i, j);
      EmptyIsWiped(s, i, j);
      NullShows(t.lines[i].cells[j], LastCell(s, r), s.lines[i].cells[j]);
    }
    assert SameCells(t.lines[i].cells, s.lines[i].cells) ==> SameCell(t.lines[i].cells[0], s.lines[i].cells[0]);
  }

  lemma NullShows(cell: Cell, bg: Cell, wanted: Cell)
    requires SameCell(cell, NULL_CELL) && wanted == Wiped(wanted) && SameBg(bg, wanted)
    ensures SameCell(cell, wanted) <==> SameBg(bg, NULL_CELL)
  {
  }

  /** No stain, no dash: the row is as it should be. */
  lemma {:induction false} LineRebuilt(t: Term, s: Term, r: nat, i: nat)
    requires Drawable(s) && r < |s.lines| && At(t, s, r, s.cols, Length(s, r)) && i <= r && !ForcesWrap(s, r)
    requires Rebuildable(s)
    ensures i < |t.lines| && t.lines[i].wrapped == s.lines[i].wrapped && SameCells(t.lines[i].cells, s.lines[i].cells)
  {
    hide SameCell, DashLeft, IsDash, DrawableCell, Length, ForcesWrap, Stained, WrapsCleanly, RestIsPlain, LineShows;
    ShownLine(t, s, r, i);
    NoDashIfClean(s, i);
  }

  /** A dash or a stain stays visible. */
  lemma {:induction false} LineIsLost(t: Term, s: Term, r: nat, i: nat, j: nat)
    requires Drawable(s) && r < |s.lines| && At(t, s, r, s.cols, Length(s, r)) && i <= r && !ForcesWrap(s, r) &&
             j < s.cols
    requires Stained(s, i, j) || (DashLeft(s, i, j) && !s.lines[i].cells[j].HasContent())
    ensures i < |t.lines| && !SameCells(t.lines[i].cells, s.lines[i].cells)
  {
    hide SameCell, IsDash, DrawableCell, Length, ForcesWrap, LineShows, SameBg;
    ShownLine(t, s, r, i);
    if DashLeft(s, i, j) {
      DashIsNotEmpty(t.lines[i].cells[j], s.lines[i].cells[j]);
    }
  }

  /** Behind the last written row nothing is forced, wrapped or stained. */
  lemma {:induction false} NothingBehind(s: Term, i: nat, j: nat)
    requires Drawable(s) && i < |s.lines| && j < s.cols && AllEmptyBetween(s, LastRow(s) + 1, |s.lines|)
    ensures !ForcesWrap(s, LastRow(s))
    ensures i >= LastRow(s) ==> WrapsCleanly(s, i)
    ensures i > LastRow(s) ==> !Stained(s, i, j)
  {
    hide DrawableCell, SameBg, Length, LastFilled;
    if LastRow(s) + 1 < |s.lines| {
      assert EmptyLine(s, LastRow(s) + 1);
    }
    if i >= LastRow(s) && i + 1 < |s.lines| {
      assert EmptyLine(s, i + 1);
    }
    if i > LastRow(s) {
      assert EmptyLine(s, i);
    }
  }

  lemma {:induction false} TextRebuilds(t: Term, s: Term)
    requires Drawable(s) && At(t, s, LastRow(s), s.cols, Length(s, LastRow(s)))
    requires |s.lines| == |t.lines| && t.yBase == s.yBase && AllEmptyBetween(s, LastRow(s) + 1, |s.lines|)
    ensures Rebuilt(t, s) <==> Rebuildable(s)
  {
    hide SameCell, SameCells, DashLeft, Drawable, EmptyLine, WrapsCleanly, At, LastRow, AllEmptyBetween, Stained,
         Length,
         ForcesWrap, SameBg;
    DrawableIsValid(s);
    var r := LastRow(s);
    NothingBehind(s, r, 0);
    if Rebuildable(s) {
      forall i | 0 <= i < |s.lines|
        ensures t.lines[i].wrapped == s.lines[i].wrapped && SameCells(t.lines[i].cells, s.lines[i].cells)
      {
        if i <= r {
          LineRebuilt(t, s, r, i);
        } else {
          RestShown(t, s, r, i);
        }
      }
    } else if s.lines[0].wrapped {
      ShownLine(t, s, r, 0);
    } else if !RestIsPlain(s) {
      RestShown(t, s, r, r + 1);
    } else if !Unstained(s) {
      var i, j :| 0 <= i < |s.lines| && 0 <= j < s.cols && Stained(s, i, j);
      NothingBehind(s, i, j);
      LineIsLost(t, s, r, i, j);
    } else {
      var i :| 0 <= i < |s.lines| && !WrapsCleanly(s, i);
      var j := DashIfNotClean(s, i);
      NothingBehind(s, i, j);
      LineIsLost(t, s, r, i, j);
    }
  }

  lemma DrawableIsValid(s: Term)
    requires Drawable(s)
    ensures Valid(s)
  {
  }

  // ---- the cursor and the style come back ----

  /** The cursor is put back if it is where the text ends, or if neither it nor the end of the text
      is behind the last column; from there, only the first column is reached. */
  predicate CursorComesBack(s: Term)
    requires Valid(s)
  {
    var r := LastRow(s);
    || (s.yBase + s.y == r && s.x == Length(s, r))
    || (s.x < s.cols && (Length(s, r) < s.cols || s.x == 0))
  }

  /** The current attributes are put back if the difference from the last character's can be written. */
  predicate StyleComesBack(s: Term)
    requires Valid(s)
  {
    Sgr.Expressible(s.attr.(ext := EMPTY_EXT), LastStyle(s, |s.lines|))
  }

  function ToCursorFrom(s: Term, r: nat, c: nat): seq<S.Token> {
    S.ToCursor(r, c, s.yBase + s.y, s.x)
  }

  lemma {:induction false} RowMoved(t: Term, from: nat, to: nat) returns (t': Term, tokens: seq<S.Token>)
    requires Valid(t) && t.yBase + t.y == from && t.yBase <= to < t.yBase + t.rows
    ensures tokens == (if to > from then [S.Move(CUD, to - from)] else if to < from then [S.Move(CUU, from - to)]
                       else [])
    ensures t' == Draw(t, tokens)
    ensures t' == t.(y := to - t.yBase, x := if to == from then t.x else Min(t.x, t.cols - 1))
  {
    hide Valid, Draw, S.Move;
    MoveIsValid(t);
    if to == from {
      DrawNothing(t);
      t', tokens := t, [];
    } else {
      var n := if to > from then to - from else from - to;
      DrawMove(t, n);
      tokens := if to > from then [S.Move(CUD, n)] else [S.Move(CUU, n)];
      t' := if to > from then CursorDown(t, n) else CursorUp(t, n);
    }
  }

  lemma MoveIsValid(t: Term)
    requires Valid(t)
    ensures t.cols >= 2 && t.y < t.rows && t.x <= t.cols
  {
  }

  lemma {:induction false} ColumnMoved(t: Term, from: nat, to: nat) returns (t': Term, tokens: seq<S.Token>)
    requires Valid(t) && from <= t.cols && to <= t.cols && (t.x == from || t.x == Min(from, t.cols - 1))
    ensures tokens == (if to > from then [S.Move(CUF, to - from)] else if to < from then [S.Move(CUB, from - to)]
                       else [])
    ensures t' == Draw(t, tokens) && t' == t.(x := t'.x)
    ensures t'.x == to <==> if to == from then t.x == from else to < t.cols && (from < t.cols || to == 0)
  {
    hide Valid, Draw, S.Move;
    MoveIsValid(t);
    if to == from {
      DrawNothing(t);
      t', tokens := t, [];
    } else {
      var n := if to > from then to - from else from - to;
      DrawMove(t, n);
      tokens := if to > from then [S.Move(CUF, n)] else [S.Move(CUB, n)];
      t' := if to > from then Move(t, n, 0) else Move(t, -n, 0);
    }
  }

  lemma {:induction false} CursorMoved(t: Term, s: Term, r: nat, c: nat) returns (t': Term)
    requires Valid(t) && Valid(s) && t.cols == s.cols && t.rows == s.rows && t.yBase == s.yBase
    requires t.yBase + t.y == r && t.x == c
    ensures t' == Draw(t, ToCursorFrom(s, r, c)) && t' == t.(x := t'.x, y := s.y)
    ensures t'.x == s.x <==>
            (s.yBase + s.y == r && s.x == c) || (s.x < s.cols && (c < s.cols || s.x == 0))
  {
    hide Valid, Draw, S.Move;
    MoveIsValid(t);
    MoveIsValid(s);
    var t1, down := RowMoved(t, r, s.yBase + s.y);
    DrawIsValid(t, down);
    var along;
    t', along := ColumnMoved(t1, c, s.x);
    DrawAppend(t, down, along);
  }

  lemma DrawIsValid(t: Term, tokens: seq<S.Token>)
    requires Valid(t)
    ensures Keeps(t, Draw(t, tokens)) && Valid(Draw(t, tokens))
  {
  }

  /** What the final style says of the current attributes, whose extended part it leaves out. */
  lemma {:induction false} StyleMoved(t: Term, style: Attr, current: Attr) returns (t': Term)
    requires Valid(t) && Styled(t.attr, style) && Plain(current)
    ensures t' == Draw(t, S.ToStyle(style, current)) && t' == t.(attr := t'.attr)
    ensures Seen(t'.attr) == Seen(current) <==> Sgr.Expressible(current.(ext := EMPTY_EXT), style)
  {
    hide Valid, Draw, Sgr.DiffStyle, Sgr.Read, Sgr.Expressible;
    var cell := current.(ext := EMPTY_EXT);
    var diff := Sgr.DiffStyle(cell, style);
    Sgr.SgrRoundTrips(cell, style, t.attr);
    WithoutExtended(current);
    if diff == [] {
      DrawNothing(t);
      Sgr.ReadNothing(t.attr);
      t' := t;
    } else {
      DrawSgr(t, diff);
      t' := t.(attr := Sgr.Read(diff, t.attr));
    }
  }

  lemma WithoutExtended(a: Attr)
    requires Plain(a)
    ensures Sgr.Describable(a.(ext := EMPTY_EXT)) && Seen(a.(ext := EMPTY_EXT)) == Seen(a)
  {
  }

  function Output(s: Term): seq<S.Token>
    requires Valid(s)
  {
    LinesAreNotEmpty(s);
    S.Serialized(s)
  }

  /** The serialized screen is text, cursor, style. */
  lemma SerializedParts(s: Term)
    requires Drawable(s)
    ensures Output(s) ==
            TextOf(s) + ToCursorFrom(s, LastRow(s), Length(s, LastRow(s)))
            + S.ToStyle(Before(s, |s.lines|).0.cursorStyle, s.attr)
  {
    hide DrawableCell, S.Rows, S.Joined, S.RowsWritten, Length;
    LinesAreNotEmpty(s);
    RestIsEmpty(s);
  }

  /** Feeding a fresh terminal of the same size with a serialized screen rebuilds the screen, with every
      background, exactly if its first row does not claim to continue another, every wrap can be forced
      cleanly, no empty cell is stained and the rows not written have no background; it puts the cursor
      and the attributes back exactly under the conditions named. */
  lemma {:induction false} ReplayRebuilds(s: Term) returns (t: Term)
    requires Drawable(s) && Plain(s.attr)
    ensures t == Draw(Start(s), Output(s))
    ensures Rebuilt(t, s) <==> Rebuildable(s)
    ensures t.yBase == s.yBase && t.y == s.y && (t.x == s.x <==> CursorComesBack(s))
    ensures Seen(t.attr) == Seen(s.attr) <==> StyleComesBack(s)
  {
    hide DrawableCell, S.Serialized, Styled, At, Draw, Start, Length, Before, TextOf, ToCursorFrom, S.ToStyle,
         Rebuilt, Rebuildable, Plain, Seen, AllEmptyBetween, Sgr.Expressible, LastStyle;
    var r := LastRow(s);
    var c := Length(s, r);
    var t1 := TextDrawn(s);
    AtLastRow(t1, s);
    TextRebuilds(t1, s);
    var t2 := CursorMoved(t1, s, r, c);
    DrawIsValid(t1, ToCursorFrom(s, r, c));
    t := StyleMoved(t2, Before(s, |s.lines|).0.cursorStyle, s.attr);
    SerializedParts(s);
    DrawAppend(Start(s), TextOf(s), ToCursorFrom(s, r, c));
    DrawAppend(Start(s), TextOf(s) + ToCursorFrom(s, r, c), S.ToStyle(Before(s, |s.lines|).0.cursorStyle, s.attr));
    SameLinesRebuilt(t1, t, s);
    NotedStyle(s, |s.lines|);
    StyledSeen(Before(s, |s.lines|).0.cursorStyle, LastStyle(s, |s.lines|));
    ExpressibleFromSeen(s.attr.(ext := EMPTY_EXT), Before(s, |s.lines|).0.cursorStyle, LastStyle(s, |s.lines|));
  }

  lemma StyledSeen(a: Attr, style: Attr)
    requires Styled(a, style)
    ensures Seen(a) == Seen(style)
  {
  }

  lemma SameLinesRebuilt(t: Term, t': Term, s: Term)
    requires t.lines == t'.lines && t.yBase == t'.yBase
    ensures Rebuilt(t, s) == Rebuilt(t', s)
  {
  }

  lemma {:induction false} AtLastRow(t: Term, s: Term)
    requires Drawable(s) && At(t, s, LastRow(s), s.cols, Length(s, LastRow(s)))
    ensures Valid(t) && t.cols == s.cols && t.rows == s.rows && |t.lines| == |s.lines| && t.yBase == s.yBase
    ensures t.yBase + t.y == LastRow(s) && t.x == Length(s, LastRow(s))
    ensures AllEmptyBetween(s, LastRow(s) + 1, |s.lines|)
  {
    hide DrawableCell, LineShows, Before, Length, EmptyLine;
    RestIsEmpty(s);
    LinesAreNotEmpty(s);
  }

  // ---- screens that do not come back ----

  const LETTER := Cell(0x61, 1, DEFAULT_FG, DEFAULT_BG)

  /** An empty cell on a blue background. */
  const BLUE := Cell(0, 1, DEFAULT_FG, DEFAULT_BG.(mode := P16, color := 4))

  /** A screen of two columns with the cursor in its top left corner. */
  function Small(rows: nat, scrollback: nat, lines: seq<Line>, yBase: nat): Term {
    Term(2, rows, scrollback, lines, yBase, 0, 0, DEFAULT_ATTR)
  }

  /** An empty row that the next one continues keeps a dash of the forced wrap. */
  lemma EmptyWrapIsLost()
    ensures var s := Small(2, 0, [Line([NULL_CELL, NULL_CELL], false), Line([LETTER, NULL_CELL], true)], 0);
            Drawable(s) && !Rebuilt(Draw(Start(s), Output(s)), s)
  {
    hide Rebuilt, Draw, Start, Output, CursorComesBack, StyleComesBack;
    var s := Small(2, 0, [Line([NULL_CELL, NULL_CELL], false), Line([LETTER, NULL_CELL], true)], 0);
    assert Drawable(s);
    var t := ReplayRebuilds(s);
    assert RunStart(s.lines[0].cells, 1) == 0 == Length(s, 0) && !WrapsCleanly(s, 0);
  }

  /** The row that is scrolled in first takes over the background above it. */
  lemma ScrolledRowIsStained()
    ensures var s := Small(1, 1, [Line([BLUE, BLUE], false), Line([NULL_CELL, NULL_CELL], false)], 1);
            Drawable(s) && !Rebuilt(Draw(Start(s), Output(s)), s)
  {
    hide Rebuilt, Draw, Start, Output, CursorComesBack, StyleComesBack;
    var s := Small(1, 1, [Line([BLUE, BLUE], false), Line([NULL_CELL, NULL_CELL], false)], 1);
    assert Drawable(s);
    var t := ReplayRebuilds(s);
    assert LastCell(s, 0) == BLUE && Stained(s, 1, 0);
  }

  /** So does column 0 behind a forced wrap. */
  lemma ForcedWrapStains()
    ensures var s := Small(2, 0, [Line([LETTER, BLUE], false), Line([NULL_CELL, LETTER], true)], 0);
            Drawable(s) && !Rebuilt(Draw(Start(s), Output(s)), s)
  {
    hide Rebuilt, Draw, Start, Output, CursorComesBack, StyleComesBack;
    var s := Small(2, 0, [Line([LETTER, BLUE], false), Line([NULL_CELL, LETTER], true)], 0);
    assert Drawable(s);
    var t := ReplayRebuilds(s);
    assert LastCell(s, 0) == BLUE && ForcesWrap(s, 0) && Stained(s, 1, 0);
  }

  /** A screen of one background keeps it only in its first row: the others are not written. */
  lemma ColouredRestIsLost()
    ensures var s := Small(2, 0, [Line([BLUE, BLUE], false), Line([BLUE, BLUE], false)], 0);
            Drawable(s) && !Rebuilt(Draw(Start(s), Output(s)), s)
  {
    hide Rebuilt, Draw, Start, Output, CursorComesBack, StyleComesBack;
    var s := Small(2, 0, [Line([BLUE, BLUE], false), Line([BLUE, BLUE], false)], 0);
    assert Drawable(s);
    var t := ReplayRebuilds(s);
    assert RunStart(s.lines[1].cells, 1) == 0 == Length(s, 1) && LastCell(s, 0) == BLUE && EmptyLine(s, 1);
    assert LastFilled(s, 2) == LastFilled(s, 1) == 0 && !RestIsPlain(s);
  }

  /** Behind a full row the cursor is behind the last column; going back one column takes it two. */
  lemma CursorMissesColumn()
    ensures var s := Term(2, 1, 0, [Line([LETTER, LETTER], false)], 0, 1, 0, DEFAULT_ATTR);
            Drawable(s) && Draw(Start(s), Output(s)).x != s.x
  {
    hide Rebuilt, Draw, Start, Output, Rebuildable, StyleComesBack;
    var s := Term(2, 1, 0, [Line([LETTER, LETTER], false)], 0, 1, 0, DEFAULT_ATTR);
    assert Drawable(s);
    var t := ReplayRebuilds(s);
    assert LastRow(s) == 0 && Length(s, 0) == 2;
  }

  /** An index below sixteen of the palette of 256 comes back as one of sixteen. */
  lemma PaletteIsLost()
    ensures var s := Term(2, 1, 0, [Line([NULL_CELL, NULL_CELL], false)], 0, 0, 0,
                          Attr(DEFAULT_FG.(mode := P256, color := 3), DEFAULT_BG, EMPTY_EXT));
            Drawable(s) && Plain(s.attr) && Seen(Draw(Start(s), Output(s)).attr) != Seen(s.attr)
  {
    hide Rebuilt, Draw, Start, Output, Rebuildable, CursorComesBack;
    var s := Term(2, 1, 0, [Line([NULL_CELL, NULL_CELL], false)], 0, 0, 0,
                  Attr(DEFAULT_FG.(mode := P256, color := 3), DEFAULT_BG, EMPTY_EXT));
    assert Drawable(s) && Plain(s.attr);
    var t := ReplayRebuilds(s);
    assert RowStyle(s.lines[0].cells, 0, DEFAULT_ATTR) == RowStyle(s.lines[0].cells, 1, DEFAULT_ATTR)
        == RowStyle(s.lines[0].cells, 2, DEFAULT_ATTR) == LastStyle(s, 1);
  }
}
