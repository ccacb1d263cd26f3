/** Replaying a serialized screen row by row. */
module SerializeReplayRows {
  import opened Attributes
  import opened BufferLines
  import opened ParserMachine
  import opened Screen
  import opened SerializeReplay
  import Sgr
  import S = Serializer

  /** What a terminal makes of a piece of output. */
  function Draw(t: Term, tokens: seq<S.Token>): (r: Term)
    requires Valid(t)
    ensures Keeps(t, r)
  {
    HandleAll(t, S.Events(tokens))
  }

  lemma {:induction false} DrawAppend(t: Term, a: seq<S.Token>, b: seq<S.Token>)
    requires Valid(t)
    ensures Draw(t, a + b) == Draw(Draw(t, a), b)
  {
    hide HandleAll, S.Events, Valid;
    S.EventsAppend(a, b);
    HandleAppend(t, S.Events(a), S.Events(b));
  }

  lemma {:induction false} EventsOne(tok: S.Token)
    ensures S.Events([tok]) == S.TokenEvents(tok) && S.Events([]) == []
  {
    hide S.TokenEvents;
    assert [tok][..0] == [];
  }

  lemma {:induction false} DrawNothing(t: Term)
    requires Valid(t)
    ensures Draw(t, []) == t
  {
    hide Valid, Handle;
    EventsOne(S.CrLf);
    HandleOne(t, Executed(0));
  }

  lemma {:induction false} DrawChar(t: Term, code: nat)
    requires Valid(t)
    ensures Draw(t, [S.Char(code)]) == Print(t, code)
  {
    hide Valid, HandleAll, Handle, Print;
    EventsOne(S.Char(code));
    HandleOne(t, Printed(code));
    PrintHandled(t, code);
  }

  lemma {:induction false} DrawCsi(t: Term, final: nat, values: seq<int>)
    requires Valid(t)
    ensures Draw(t, [S.Csi(final, values)]) ==
            Handle(t, if values == [] then CsiCalled(final, [0], [[]])
                   else CsiCalled(final, values, Sgr.NoSubs(|values|)))
  {
    hide Valid, HandleAll, Handle;
    EventsOne(S.Csi(final, values));
    HandleOne(t, if values == [] then CsiCalled(final, [0], [[]]) else CsiCalled(final, values, Sgr.NoSubs(|values|)));
  }

  /** What the control sequences of the serializer do. */
  lemma {:induction false} DrawMove(t: Term, n: int)
    requires Valid(t)
    ensures Draw(t, [S.Move(CUF, n)]) == Move(t, AtLeastOne(n), 0)
    ensures Draw(t, [S.Move(CUB, n)]) == Move(t, -AtLeastOne(n), 0)
    ensures Draw(t, [S.Move(ECH, n)]) == EraseChars(t, n)
    ensures Draw(t, [S.Move(CUU, n)]) == CursorUp(t, n)
    ensures Draw(t, [S.Move(CUD, n)]) == CursorDown(t, n)
    ensures Draw(t, [S.Csi(CUU, [])]) == CursorUp(t, 0)
    ensures Draw(t, [S.Csi(CUD, [])]) == CursorDown(t, 0)
  {
    hide Valid, Draw, CursorUp, CursorDown, Move, EraseChars, AtLeastOne;
    DrawCsi(t, CUF, [n]);
    DrawCsi(t, CUB, [n]);
    DrawCsi(t, ECH, [n]);
    DrawCsi(t, CUU, [n]);
    DrawCsi(t, CUD, [n]);
    DrawCsi(t, CUU, []);
    DrawCsi(t, CUD, []);
  }

  lemma {:induction false} DrawSgr(t: Term, values: seq<int>)
    requires Valid(t) && values != []
    ensures Draw(t, [S.Csi(SGR, values)]) == t.(attr := Sgr.Read(values, t.attr))
  {
    hide Valid, Draw, Sgr.Applied;
    DrawCsi(t, SGR, values);
  }

  lemma {:induction false} DrawCrLf(t: Term)
    requires Valid(t)
    ensures Draw(t, [S.CrLf]) == LineFeed(CarriageReturn(t))
  {
    hide Valid, HandleAll, LineFeed, CarriageReturn;
    EventsOne(S.CrLf);
    assert S.TokenEvents(S.CrLf) == [Executed(0x0d)] + [Executed(0x0a)];
    HandleAppend(t, [Executed(0x0d)], [Executed(0x0a)]);
    HandleOne(t, Executed(0x0d));
    HandleOne(HandleAll(t, [Executed(0x0d)]), Executed(0x0a));
  }

  // ---- the writer and the terminal in step ----

  /** The cell that was visited before (r, j). */
  function Visited(s: Term, r: nat, j: nat): Cell
    requires Valid(s) && r < |s.lines| && j <= s.cols
  {
    if j > 0 then s.lines[r].cells[j - 1] else if r > 0 then LastCell(s, r - 1) else NULL_CELL
  }

  /** The terminal draws in the style that was written last. */
  predicate Styled(a: Attr, style: Attr) {
    Plain(a) && Plain(style) && Seen(a) == Seen(style) && !style.bg.dim
  }

  lemma StyledOnBg(a: Attr, style: Attr, cell: Cell)
    requires Styled(a, style)
    ensures OnBg(a, cell) == OnBg(style, cell)
  {
  }

  /** In front of row `r`: in its first column, or still at the end of the row that flows on into it. */
  ghost predicate Ready(t: Term, s: Term, r: nat) {
    || At(t, s, r, 0, 0)
    || (Valid(s) && 0 < r < |s.lines| && At(t, s, r - 1, s.cols, s.cols) && s.lines[r].wrapped && FlowsOn(s, r - 1))
  }

  /** In front of the empty cells that end the first `j` of row `r`. */
  ghost predicate Reached(t: Term, s: Term, r: nat, j: nat)
    requires Valid(s) && r < |s.lines| && j <= s.cols
  {
    var c := RunStart(s.lines[r].cells, j);
    if c == 0 then Ready(t, s, r) else At(t, s, r, c, c)
  }

  /** The cell noted for the style has its background. */
  predicate StyleNoted(s: Term, w: S.Writer)
    requires Valid(s)
  {
    w.styleRow < |s.lines| && w.styleCol < s.cols && OnBg(w.cursorStyle, s.lines[w.styleRow].cells[w.styleCol])
  }

  /** Style, background and pending empty cells are what the first `j` cells of row `r` leave. */
  ghost predicate Follows(s: Term, r: nat, j: nat, w: S.Writer)
    requires Valid(s) && r < |s.lines| && j <= s.cols
  {
    && w.nullCellCount == j - RunStart(s.lines[r].cells, j)
    && OnBg(w.background, Expected(s, r)) && OnBg(w.cursorStyle, Visited(s, r, j))
    && if r == 0 && j == 0 then w.styleRow == 0 && w.styleCol == 0 else StyleNoted(s, w)
  }

  ghost predicate InStep(t: Term, s: Term, r: nat, j: nat, w: S.Writer)
    requires Valid(s) && r < |s.lines| && j <= s.cols
  {
    Valid(t) && Reached(t, s, r, j) && Styled(t.attr, w.cursorStyle) && Follows(s, r, j, w)
  }

  lemma {:induction false} AttrMayChange(t: Term, s: Term, r: nat, c: nat, x: nat, a: Attr)
    requires At(t, s, r, c, x)
    ensures At(t.(attr := a), s, r, c, x)
  {
    hide LineShows;
  }

  lemma ReadyMayChange(t: Term, s: Term, r: nat, a: Attr)
    requires Ready(t, s, r)
    ensures Ready(t.(attr := a), s, r) && Valid(t)
  {
    hide At;
    if At(t, s, r, 0, 0) {
      AttrMayChange(t, s, r, 0, 0, a);
      AtIsValid(t, s, r, 0, 0);
    } else {
      AttrMayChange(t, s, r - 1, s.cols, s.cols, a);
      AtIsValid(t, s, r - 1, s.cols, s.cols);
    }
  }

  lemma AtIsValid(t: Term, s: Term, r: nat, c: nat, x: nat)
    requires At(t, s, r, c, x)
    ensures Valid(t) && Valid(s) && r < |s.lines| && c <= s.cols && x <= s.cols && t.cols == s.cols && t.x == x
  {
  }

  // ---- the empty cells that are pending ----

  /** They are empty cells of one background, and the terminal is in front of them. */
  lemma {:induction false} PendingRun(t: Term, s: Term, r: nat, j: nat, w: S.Writer)
    requires Drawable(s) && r < |s.lines| && j <= s.cols && InStep(t, s, r, j, w) && w.nullCellCount > 0
    ensures var c := RunStart(s.lines[r].cells, j);
            && c < j && At(t, s, r, c, c) && EmptyRun(s, r, c, j - c)
            && (forall q :: c <= q < j ==> OnBg(t.attr, s.lines[r].cells[q]))
            && forall q :: c <= q < j ==>
                 (SameBg(s.lines[r].cells[q], Expected(s, r)) <==> EqualBg(w.cursorStyle, w.background))
  {
    hide At, SameBg, OnBg, Styled, RunStart, Expected, StyleNoted;
    var c := RunStart(s.lines[r].cells, j);
    RunIs(s.lines[r].cells, j);
    forall q | c <= q < j
      ensures OnBg(t.attr, s.lines[r].cells[q])
      ensures SameBg(s.lines[r].cells[q], Expected(s, r)) <==> EqualBg(w.cursorStyle, w.background)
    {
      StyledOnBg(t.attr, w.cursorStyle, s.lines[r].cells[q]);
      OnSameBg(w.cursorStyle, s.lines[r].cells[j - 1], s.lines[r].cells[q]);
      BgThrough(w.cursorStyle, s.lines[r].cells[q], w.background, Expected(s, r));
    }
    if c == 0 {
      assert !s.lines[r].cells[0].HasContent();
      ReadyAtEmpty(t, s, r);
    }
  }

  lemma ReadyAtEmpty(t: Term, s: Term, r: nat)
    requires Ready(t, s, r) && Valid(s) && r < |s.lines| && !s.lines[r].cells[0].HasContent()
    ensures At(t, s, r, 0, 0)
  {
    hide At;
  }

  lemma BgThrough(a: Attr, cell: Cell, b: Attr, other: Cell)
    requires OnBg(a, cell) && OnBg(b, other)
    ensures EqualBg(a, b) <==> SameBg(cell, other)
  {
  }

  /** In front of the next piece they are erased, if need be, and skipped. */
  lemma {:induction false} Skipped(t: Term, s: Term, r: nat, j: nat, w: S.Writer) returns (t': Term)
    requires Drawable(s) && r < |s.lines| && j < s.cols && InStep(t, s, r, j, w)
    ensures t' == Draw(t, S.Skip(w)) && t'.attr == t.attr
    ensures if j == 0 then Ready(t', s, r) else At(t', s, r, j, j)
  {
    hide DrawableCell, Styled, At, Ready, Draw, Move, S.Move, OnBg, SameBg, Expected, EraseChars, StyleNoted, EmptyRun;
    var k := w.nullCellCount;
    if k == 0 {
      DrawNothing(t);
      t' := t;
    } else {
      PendingRun(t, s, r, j, w);
      var c := RunStart(s.lines[r].cells, j);
      t' := RunSkipped(t, s, r, c, k, EqualBg(w.cursorStyle, w.background));
    }
  }

  lemma {:induction false} RunSkipped(t: Term, s: Term, r: nat, c: nat, k: nat, expected: bool) returns (t': Term)
    requires Drawable(s) && At(t, s, r, c, c) && k > 0 && c + k < s.cols && EmptyRun(s, r, c, k)
    requires forall q :: c <= q < c + k ==>
               (SameBg(s.lines[r].cells[q], Expected(s, r)) <==> expected) && OnBg(t.attr, s.lines[r].cells[q])
    ensures Valid(t) && t' == Draw(t, (if expected then [] else [S.Move(ECH, k)]) + [S.Move(CUF, k)])
    ensures t'.attr == t.attr && At(t', s, r, c + k, c + k)
  {
    hide DrawableCell, At, Draw, Move, S.Move, OnBg, SameBg, Expected, EraseChars, EmptyRun;
    AtIsValid(t, s, r, c, c);
    DrawMove(t, k);
    if expected {
      SkipForward(t, s, r, c, k);
      MoveKeeps(t, k, 0);
      t' := Move(t, k, 0);
      assert [] + [S.Move(CUF, k)] == [S.Move(CUF, k)];
    } else {
      RunErased(t, s, r, c, k);
      var t1 := EraseChars(t, k);
      AtIsValid(t1, s, r, c + k, c);
      MovedOn(t1, s, r, c + k, c, k);
      DrawMove(t1, k);
      DrawAppend(t, [S.Move(ECH, k)], [S.Move(CUF, k)]);
      t' := Move(t1, k, 0);
    }
  }

  // ---- a filled cell ----

  /** The next style, from a style the terminal has. */
  lemma {:induction false} NextStyle(a: Attr, style: Attr, cell: Cell)
    requires Styled(a, style) && DrawableCell(cell)
    ensures Styled(Sgr.Read(Sgr.DiffStyle(S.AttrOf(cell), style), a), S.AttrOf(cell))
  {
    hide Sgr.Read, Sgr.DiffStyle;
    Sgr.SgrRoundTrips(S.AttrOf(cell), style, a);
  }

  lemma StyledBg(a: Attr, cell: Cell)
    requires Styled(a, S.AttrOf(cell))
    ensures OnBg(a, cell) && Styled(S.AttrOf(cell), S.AttrOf(cell))
  {
  }

  /** The style is changed if the cell's differs. */
  lemma {:induction false} Restyled(t: Term, s: Term, r: nat, j: nat, w: S.Writer) returns (t': Term, sgr: seq<S.Token>)
    requires Drawable(s) && r < |s.lines| && j < s.cols && Styled(t.attr, w.cursorStyle)
    requires if j == 0 then Ready(t, s, r) else At(t, s, r, j, j)
    ensures var diff := Sgr.DiffStyle(S.AttrOf(s.lines[r].cells[j]), w.cursorStyle);
            sgr == if diff == [] then [] else [S.Csi(SGR, diff)]
    ensures Valid(t) && t' == Draw(t, sgr) && Styled(t'.attr, S.AttrOf(s.lines[r].cells[j]))
    ensures sgr == [] ==> t' == t
    ensures if j == 0 then Ready(t', s, r) else At(t', s, r, j, j)
  {
    hide LineShows, Sgr.DiffStyle, Sgr.Read, Draw, S.AttrOf, DrawableCell, At, Ready, Styled;
    var cell := s.lines[r].cells[j];
    var diff := Sgr.DiffStyle(S.AttrOf(cell), w.cursorStyle);
    NextStyle(t.attr, w.cursorStyle, cell);
    var a := Sgr.Read(diff, t.attr);
    if j == 0 {
      ReadyMayChange(t, s, r, a);
    } else {
      AttrMayChange(t, s, r, j, j, a);
      AtIsValid(t, s, r, j, j);
    }
    if diff == [] {
      DrawNothing(t);
      Sgr.ReadNothing(t.attr);
      t', sgr := t, [];
    } else {
      DrawSgr(t, diff);
      t', sgr := t.(attr := a), [S.Csi(SGR, diff)];
    }
  }

  /** The character itself. */
  lemma {:induction false} CharacterDrawn(t: Term, s: Term, r: nat, j: nat)
    requires Drawable(s) && r < |s.lines| && j < s.cols && s.lines[r].cells[j].HasContent()
    requires Styled(t.attr, S.AttrOf(s.lines[r].cells[j]))
    requires if j == 0 then Ready(t, s, r) else At(t, s, r, j, j)
    ensures Valid(t)
    ensures var t' := Draw(t, [S.Char(s.lines[r].cells[j].code)]); At(t', s, r, j + 1, j + 1) && t'.attr == t.attr
  {
    hide At, Draw, S.AttrOf, DrawableCell, Print;
    var cell := s.lines[r].cells[j];
    if At(t, s, r, j, j) {
      AtIsValid(t, s, r, j, j);
      PrintHere(t, s, r, j);
    } else {
      AtIsValid(t, s, r - 1, s.cols, s.cols);
      PrintWraps(t, s, r - 1);
    }
    DrawChar(t, cell.code);
    PrintKeeps(t, cell.code);
  }

  /** What the handler writes for a cell with content, wide or not; the second half of a wide character is
      passed over. */
  lemma {:induction false} ContentWrites(w: S.Writer, cell: Cell, row: nat, col: nat)
    requires cell.width > 0 && cell.HasContent()
    ensures forall half: Cell :: half.width == 0 ==> S.NextCell(w, half, row, col) == w
    ensures var diff := Sgr.DiffStyle(S.AttrOf(cell), w.cursorStyle);
            var sgr := if diff == [] then [] else [S.Csi(SGR, diff)];
            var w' := S.NextCell(w, cell, row, col);
            && w'.row == w.row + (S.Skip(w) + sgr + [S.Char(cell.code)])
            && w'.nullCellCount == 0 && w'.background == w.background
            && (if diff == [] then w'.cursorStyle == w.cursorStyle && w'.styleRow == w.styleRow &&
                w'.styleCol == w.styleCol
                else w'.cursorStyle == S.AttrOf(cell) && w'.styleRow == row && w'.styleCol == col)
            && w'.lastContentRow == row && w'.lastContentCol == col + cell.width
            && w'.lastCursorRow == row && w'.lastCursorCol == col + cell.width
  {
    hide Sgr.DiffStyle, S.AttrOf, EqualBg;
  }

  lemma {:induction false} ContentCell(t: Term, s: Term, r: nat, j: nat, w: S.Writer)
    returns (t': Term, extra: seq<S.Token>)
    requires Drawable(s) && r < |s.lines| && j < s.cols && s.lines[r].cells[j].HasContent() && InStep(t, s, r, j, w)
    ensures var w' := S.NextCell(w, s.lines[r].cells[j], r, j);
            w'.row == w.row + extra && t' == Draw(t, extra) && InStep(t', s, r, j + 1, w')
  {
    hide DrawableCell, Styled, At, Ready, S.Skip, Draw, S.NextCell, Sgr.DiffStyle, S.AttrOf, Follows, Reached;
    var cell := s.lines[r].cells[j];
    CharacterIsNarrow(cell);
    ContentWrites(w, cell, r, j);
    var t1 := Skipped(t, s, r, j, w);
    var t2, sgr := Restyled(t1, s, r, j, w);
    CharacterDrawn(t2, s, r, j);
    t' := Draw(t2, [S.Char(cell.code)]);
    extra := S.Skip(w) + sgr + [S.Char(cell.code)];
    DrawAppend(t, S.Skip(w), sgr);
    DrawAppend(t, S.Skip(w) + sgr, [S.Char(cell.code)]);
    ContentFollows(t', s, r, j, w, sgr == []);
    ReachedContent(t', s, r, j);
  }

  /** The style now is the character's, whether it had to be written or not. */
  lemma {:induction false} ContentFollows(t: Term, s: Term, r: nat, j: nat, w: S.Writer, same: bool)
    requires Drawable(s) && r < |s.lines| && j < s.cols && s.lines[r].cells[j].HasContent() && Follows(s, r, j, w)
    requires same <==> Sgr.DiffStyle(S.AttrOf(s.lines[r].cells[j]), w.cursorStyle) == []
    requires Styled(t.attr, S.AttrOf(s.lines[r].cells[j])) && (same ==> Styled(t.attr, w.cursorStyle))
    ensures var w' := S.NextCell(w, s.lines[r].cells[j], r, j);
            Styled(t.attr, w'.cursorStyle) && Follows(s, r, j + 1, w')
  {
    hide Styled, S.NextCell, Sgr.DiffStyle, S.AttrOf, OnBg, Expected, DrawableCell;
    var cell := s.lines[r].cells[j];
    assert DrawableCell(cell);
    CharacterIsNarrow(cell);
    ContentWrites(w, cell, r, j);
    StyledBg(t.attr, cell);
    ItselfOnBg(cell);
    if same {
      StyledOnBg(t.attr, w.cursorStyle, cell);
      NotedStays(s, r, j, w, cell);
    }
  }

  lemma ItselfOnBg(cell: Cell)
    ensures OnBg(S.AttrOf(cell), cell)
  {
  }

  /** A style that suits the next cell, too, is noted as before; the first cell is noted from the start. */
  lemma NotedStays(s: Term, r: nat, j: nat, w: S.Writer, cell: Cell)
    requires Valid(s) && r < |s.lines| && j < s.cols && cell == s.lines[r].cells[j] && OnBg(w.cursorStyle, cell)
    requires if r == 0 && j == 0 then w.styleRow == 0 && w.styleCol == 0 else StyleNoted(s, w)
    ensures StyleNoted(s, w)
  {
    hide OnBg;
  }

  lemma ReachedContent(t: Term, s: Term, r: nat, j: nat)
    requires Valid(s) && r < |s.lines| && j < s.cols && s.lines[r].cells[j].HasContent() && At(t, s, r, j + 1, j + 1)
    ensures Reached(t, s, r, j + 1) && Valid(t)
  {
    hide LineShows;
  }

  // ---- an empty cell ----

  /** On the background in use, it only becomes pending. */
  lemma EmptyWaits(w: S.Writer, cell: Cell, row: nat, col: nat)
    requires OnBg(w.cursorStyle, cell) && !cell.HasContent() && cell.width == 1
    ensures S.NextCell(w, cell, row, col) == w.(nullCellCount := w.nullCellCount + 1)
  {
    hide Sgr.DiffStyle;
  }

  lemma {:induction false} WaitingCell(t: Term, s: Term, r: nat, j: nat, w: S.Writer)
    requires Drawable(s) && r < |s.lines| && j < s.cols && !s.lines[r].cells[j].HasContent() && InStep(t, s, r, j, w)
    requires OnBg(w.cursorStyle, s.lines[r].cells[j])
    ensures InStep(t, s, r, j + 1, S.NextCell(w, s.lines[r].cells[j], r, j))
    ensures S.NextCell(w, s.lines[r].cells[j], r, j).row == w.row
  {
    hide Styled, At, Ready, S.NextCell, OnBg, Expected, DrawableCell, SameBg;
    var cell := s.lines[r].cells[j];
    EmptyIsWiped(s, r, j);
    EmptyWaits(w, cell, r, j);
    NotedStays(s, r, j, w, cell);
    if j > 0 {
      BgShared(w.cursorStyle, s.lines[r].cells[j - 1], cell);
    }
  }

  lemma BgShared(a: Attr, cell: Cell, other: Cell)
    requires OnBg(a, cell) && OnBg(a, other)
    ensures SameBg(cell, other)
  {
  }

  /** On another background, the pending cells are done with, and the style changes. */
  lemma {:induction false} EmptyRestyles(w: S.Writer, cell: Cell, row: nat, col: nat)
    requires !OnBg(w.cursorStyle, cell) && !cell.HasContent() && cell.width == 1
    ensures var diff := Sgr.DiffStyle(S.AttrOf(cell), w.cursorStyle);
            var w' := S.NextCell(w, cell, row, col);
            && diff != [] && w'.row == w.row + (S.Skip(w) + [S.Csi(SGR, diff)])
            && w'.nullCellCount == 1 && w'.background == w.background
            && w'.cursorStyle == S.AttrOf(cell) && w'.styleRow == row && w'.styleCol == col
            && w'.lastContentRow == row && w'.lastContentCol == col && w'.lastCursorRow == row &&
              w'.lastCursorCol == col
  {
    DiffOfBg(cell, w.cursorStyle);
    hide Sgr.DiffStyle, S.AttrOf;
  }

  lemma DiffOfBg(cell: Cell, style: Attr)
    requires !OnBg(style, cell)
    ensures Sgr.DiffStyle(S.AttrOf(cell), style) != []
  {
    hide EqualFlags, Sgr.FlagParams;
  }

  lemma {:induction false} RestyledCell(t: Term, s: Term, r: nat, j: nat, w: S.Writer)
    returns (t': Term, extra: seq<S.Token>)
    requires Drawable(s) && r < |s.lines| && j < s.cols && !s.lines[r].cells[j].HasContent() && InStep(t, s, r, j, w)
    requires !OnBg(w.cursorStyle, s.lines[r].cells[j])
    ensures var w' := S.NextCell(w, s.lines[r].cells[j], r, j);
            w'.row == w.row + extra && t' == Draw(t, extra) && InStep(t', s, r, j + 1, w')
  {
    hide DrawableCell, Styled, At, Ready, S.Skip, Draw, S.NextCell, Sgr.DiffStyle, S.AttrOf, Follows, Reached, OnBg;
    var cell := s.lines[r].cells[j];
    EmptyIsWiped(s, r, j);
    EmptyRestyles(w, cell, r, j);
    var t1 := Skipped(t, s, r, j, w);
    var sgr;
    t', sgr := Restyled(t1, s, r, j, w);
    extra := S.Skip(w) + sgr;
    DrawAppend(t, S.Skip(w), sgr);
    RestyledFollows(t', s, r, j, w);
  }

  lemma {:induction false} RestyledFollows(t: Term, s: Term, r: nat, j: nat, w: S.Writer)
    requires Drawable(s) && r < |s.lines| && j < s.cols && !s.lines[r].cells[j].HasContent() && Follows(s, r, j, w)
    requires !OnBg(w.cursorStyle, s.lines[r].cells[j]) && (if j == 0 then Ready(t, s, r) else At(t, s, r, j, j))
    requires Styled(t.attr, S.AttrOf(s.lines[r].cells[j]))
    ensures InStep(t, s, r, j + 1, S.NextCell(w, s.lines[r].cells[j], r, j))
  {
    hide Styled, S.NextCell, Sgr.DiffStyle, S.AttrOf, OnBg, Expected, DrawableCell, At, SameBg, Ready;
    var cell := s.lines[r].cells[j];
    EmptyIsWiped(s, r, j);
    EmptyRestyles(w, cell, r, j);
    ItselfOnBg(cell);
    if j == 0 {
      ReadyMayChange(t, s, r, t.attr);
    } else {
      AtIsValid(t, s, r, j, j);
      if SameBg(s.lines[r].cells[j - 1], cell) {
        OnSameBg(w.cursorStyle, s.lines[r].cells[j - 1], cell);
      }
    }
  }

  /** After any number of cells of a row. */
  lemma {:induction false} CellsDrawn(t: Term, s: Term, r: nat, j: nat, w: S.Writer) returns (t': Term)
    requires Drawable(s) && r < |s.lines| && j <= s.cols && w.row == [] && InStep(t, s, r, 0, w)
    ensures var w' := S.AfterCells(w, s.lines[r].cells, r, j);
            t' == Draw(t, w'.row) && InStep(t', s, r, j, w')
  {
    hide Styled, Reached, Follows, S.NextCell, Draw, DrawableCell, OnBg;
    if j == 0 {
      DrawNothing(t);
      t' := t;
    } else {
      var before := CellsDrawn(t, s, r, j - 1, w);
      var w1 := S.AfterCells(w, s.lines[r].cells, r, j - 1);
      var extra: seq<S.Token>;
      if s.lines[r].cells[j - 1].HasContent() {
        t', extra := ContentCell(before, s, r, j - 1, w1);
        DrawAppend(t, w1.row, extra);
      } else if OnBg(w1.cursorStyle, s.lines[r].cells[j - 1]) {
        WaitingCell(before, s, r, j - 1, w1);
        t' := before;
      } else {
        t', extra := RestyledCell(before, s, r, j - 1, w1);
        DrawAppend(t, w1.row, extra);
      }
    }
  }

  // ---- the end of a row ----

  /** Pending empty cells at its end are erased, if need be. */
  function RowTail(w: S.Writer): seq<S.Token> {
    if w.nullCellCount > 0 && !EqualBg(w.cursorStyle, w.background) then [S.Move(ECH, w.nullCellCount)] else []
  }

  /** At the end of a row the terminal shows all of it, and draws in the background of its last cell. */
  lemma {:induction false} TailDrawn(t: Term, s: Term, r: nat, w: S.Writer) returns (t': Term)
    requires Drawable(s) && r < |s.lines| && InStep(t, s, r, s.cols, w)
    ensures t' == Draw(t, RowTail(w)) && t'.attr == t.attr && OnBg(t'.attr, LastCell(s, r))
    ensures At(t', s, r, s.cols, Length(s, r)) && w.nullCellCount == s.cols - Length(s, r)
  {
    hide DrawableCell, Styled, At, Ready, Draw, S.Move, OnBg, SameBg, Expected, EraseChars, StyleNoted, EmptyRun;
    var c, k := Length(s, r), w.nullCellCount;
    LengthIs(s, r);
    StyledOnBg(t.attr, w.cursorStyle, LastCell(s, r));
    if k == 0 {
      DrawNothing(t);
      t' := t;
    } else {
      PendingRun(t, s, r, s.cols, w);
      if EqualBg(w.cursorStyle, w.background) {
        DrawNothing(t);
        RunLeft(t, s, r, c, k, c);
        t' := t;
      } else {
        DrawMove(t, k);
        RunErased(t, s, r, c, k);
        t' := EraseChars(t, k);
      }
    }
  }

  lemma LengthIs(s: Term, r: nat)
    requires Valid(s) && r < |s.lines|
    ensures Length(s, r) == RunStart(s.lines[r].cells, s.cols)
  {
  }

  lemma {:induction false} DashesDrawn(t: Term, s: Term, r: nat, n: nat) returns (t': Term)
    requires Valid(s) && r < |s.lines| && Dashing(t, s, r, Length(s, r)) && Length(s, r) + n <= s.cols
    ensures Valid(t) && t' == Draw(t, S.Dashes(n)) && Dashing(t', s, r, Length(s, r) + n) && t'.attr == t.attr
  {
    hide Dashing, Draw, Print, Length;
    DashingIsValid(t, s, r, Length(s, r));
    if n == 0 {
      assert S.Dashes(0) == [];
      DrawNothing(t);
      t' := t;
    } else {
      var before := DashesDrawn(t, s, r, n - 1);
      assert S.Dashes(n) == S.Dashes(n - 1) + [S.Char(DASH)];
      DrawAppend(t, S.Dashes(n - 1), [S.Char(DASH)]);
      DashingIsValid(before, s, r, Length(s, r) + (n - 1));
      DrawChar(before, DASH);
      PrintDash(before, s, r, Length(s, r) + (n - 1));
      t' := Print(before, DASH);
    }
  }

  lemma DashingIsValid(t: Term, s: Term, r: nat, d: nat)
    requires Dashing(t, s, r, d)
    ensures Valid(t) && t.cols == s.cols
  {
  }

  lemma DrawDashOver(t: Term)
    requires Valid(t)
    ensures Valid(Print(t, DASH)) && Valid(Move(Print(t, DASH), -1, 0))
    ensures Draw(t, [S.Char(DASH)] + [S.Move(CUB, 1)] + [S.Move(ECH, 1)]) == EraseChars(Move(Print(t, DASH), -1, 0), 1)
    ensures Draw(t, [S.Char(DASH)] + [S.Move(CUB, 1)] + [S.Move(ECH, 1)]).attr == t.attr
  {
    hide Valid, Draw, Print, Move, EraseChars;
    PrintKeeps(t, DASH);
    var t1 := Print(t, DASH);
    MoveKeeps(t1, -1, 0);
    EraseKeeps(Move(t1, -1, 0), 1);
    DrawChar(t, DASH);
    DrawMove(t1, 1);
    DrawMove(Move(t1, -1, 0), 1);
    DrawAppend(t, [S.Char(DASH)], [S.Move(CUB, 1)]);
    DrawAppend(t, [S.Char(DASH)] + [S.Move(CUB, 1)], [S.Move(ECH, 1)]);
  }

  /** The sequences that clean up behind a forced wrap. */
  function CleanUpTokens(nullCellCount: nat, cols: nat): seq<S.Token> {
    [S.Csi(CUU, [])] + [S.Move(CUF, cols - nullCellCount)] + [S.Move(ECH, nullCellCount)]
    + [S.Move(CUB, cols - nullCellCount)] + [S.Csi(CUD, [])]
  }

  lemma {:induction false} DrawCleanUp(t: Term, c: nat)
    requires Valid(t) && c < t.cols
    ensures Draw(t, CleanUpTokens(t.cols - c, t.cols)) == CleanUp(t, c)
  {
    hide Valid, Draw, Move, EraseChars, CursorUp, CursorDown, AtLeastOne, S.Move;
    var k := t.cols - c;
    var a, b, d, e, f := [S.Csi(CUU, [])], [S.Move(CUF, c)], [S.Move(ECH, k)], [S.Move(CUB, c)], [S.Csi(CUD, [])];
    var up := Draw(t, a);
    var there := Draw(up, b);
    var erased := Draw(there, d);
    var back := Draw(erased, e);
    DrawMove(t, 0);
    DrawMove(up, c);
    DrawMove(there, k);
    DrawMove(erased, c);
    DrawMove(back, 0);
    DrawAppend(t, a, b);
    DrawAppend(t, a + b, d);
    DrawAppend(t, a + b + d, e);
    DrawAppend(t, a + b + d + e, f);
  }

  lemma ForcedWrapParts(k: nat, cols: nat)
    ensures S.ForcedWrap(k, cols) ==
            S.Dashes(k) + ([S.Char(DASH)] + [S.Move(CUB, 1)] + [S.Move(ECH, 1)])
            + if k == 0 then [] else CleanUpTokens(k, cols)
  {
  }

  predicate Unstyled(tok: S.Token) {
    !(tok.Csi? && tok.final == SGR)
  }

  lemma ForcedWrapPlain(k: nat, cols: nat)
    ensures forall tok :: tok in S.ForcedWrap(k, cols) ==> Unstyled(tok)
  {
  }

  lemma {:induction false} TokenKeepsAttr(t: Term, tok: S.Token)
    requires Valid(t) && Unstyled(tok)
    ensures Draw(t, [tok]).attr == t.attr
  {
    hide Valid, Draw, Print, Move, EraseChars, LineFeed, CarriageReturn;
    match tok
    case Char(code) =>
      DrawChar(t, code);
      PrintKeeps(t, code);
    case CrLf =>
      DrawCrLf(t);
      LineFeedFromStart(t);
    case Csi(final, values) =>
      DrawCsi(t, final, values);
      HandleKeepsAttr(t, final, if values == [] then [0] else values);
      assert Sgr.NoSubs(1) == [[]];
  }

  lemma LineFeedFromStart(t: Term)
    requires Valid(t)
    ensures Valid(CarriageReturn(t)) && LineFeed(CarriageReturn(t)).attr == t.attr
  {
    hide LineFeed;
    LineFeedKeeps(CarriageReturn(t));
  }

  lemma HandleKeepsAttr(t: Term, final: nat, values: seq<int>)
    requires Valid(t) && final != SGR && values != []
    ensures Handle(t, CsiCalled(final, values, Sgr.NoSubs(|values|))).attr == t.attr
  {
    hide Valid;
  }

  lemma {:induction false} KeepsAttr(t: Term, tokens: seq<S.Token>)
    requires Valid(t) && forall tok :: tok in tokens ==> Unstyled(tok)
    ensures Draw(t, tokens).attr == t.attr
  {
    hide Valid, Draw, Unstyled;
    if tokens == [] {
      DrawNothing(t);
    } else {
      var front, last := tokens[..|tokens| - 1], tokens[|tokens| - 1];
      assert tokens == front + [last] && last in tokens;
      KeepsAttr(t, front);
      TokenKeepsAttr(Draw(t, front), last);
      DrawAppend(t, front, [last]);
    }
  }

  lemma {:induction false} ForcedWrapDrawn(t: Term, s: Term, r: nat) returns (t': Term)
    requires Drawable(s) && r + 1 < |s.lines| && ForcesWrap(s, r) && OnBg(t.attr, LastCell(s, r))
    requires At(t, s, r, s.cols, Length(s, r))
    ensures Valid(t) && t' == Draw(t, S.ForcedWrap(s.cols - Length(s, r), s.cols)) && At(t', s, r + 1, 0, 0) &&
            t'.attr == t.attr
  {
    hide At, Beyond, Draw, Print, Move, EraseChars, CleanUpTokens, S.Dashes, S.Move, CleanUp, S.ForcedWrap, Dashing,
         Length,
         OnBg, ForcesWrap, DrawableCell;
    AtIsValid(t, s, r, s.cols, Length(s, r));
    var c := Length(s, r);
    var k := s.cols - c;
    ForcedWrapParts(k, s.cols);
    StartsDashing(t, s, r);
    var t1 := DashesDrawn(t, s, r, k);
    DashingIsValid(t1, s, r, s.cols);
    DashOver(t1, s, r);
    DrawDashOver(t1);
    var over := [S.Char(DASH)] + [S.Move(CUB, 1)] + [S.Move(ECH, 1)];
    var t3 := Draw(t1, over);
    DrawAppend(t, S.Dashes(k), over);
    if k == 0 {
      WrapForced(t3, s, r);
      t' := t3;
      assert S.Dashes(k) + over + [] == S.Dashes(k) + over;
    } else {
      BeyondIsValid(t3, s, r);
      CleanedUp(t3, s, r);
      DrawCleanUp(t3, c);
      DrawAppend(t, S.Dashes(k) + over, CleanUpTokens(k, s.cols));
      t' := CleanUp(t3, c);
    }
    ForcedWrapPlain(k, s.cols);
    KeepsAttr(t, S.ForcedWrap(k, s.cols));
  }

  lemma BeyondIsValid(t: Term, s: Term, r: nat)
    requires Beyond(t, s, r)
    ensures Valid(t) && t.cols == s.cols
  {
  }

  /** What goes between two rows. */
  function Between(s: Term, r: nat): seq<S.Token>
    requires Valid(s) && r + 1 < |s.lines|
  {
    if !s.lines[r + 1].wrapped then [S.CrLf]
    else if FlowsOn(s, r) then []
    else S.ForcedWrap(s.cols - Length(s, r), s.cols)
  }

  /** A row wraps by itself exactly if it is full and the next one begins with a character on the same
      background. */
  lemma {:induction false} ByItself(s: Term, r: nat, nulls: nat)
    requires Drawable(s) && r + 1 < |s.lines| && nulls == s.cols - Length(s, r)
    ensures s.lines[r].cells != [] && s.lines[r + 1].cells != []
    ensures S.WrapsByItself(nulls, s.lines[r].cells, s.lines[r + 1].cells) <==> FlowsOn(s, r)
  {
    assert DrawableCell(s.lines[r].cells[s.cols - 1]) && DrawableCell(s.lines[r + 1].cells[0]);
    RunIs(s.lines[r].cells, s.cols);
    hide RunStart, DrawableCell;
  }

  lemma {:induction false} EndOfRowIs(w: S.Writer, s: Term, r: nat)
    requires Drawable(s) && r < |s.lines| && Follows(s, r, s.cols, w)
    requires forall i :: 0 <= i < |s.lines| ==> s.lines[i].cells != []
    ensures var e := S.EndOfRow(w, s.lines, s.rows, r);
            && e.1.tokens == w.row + RowTail(w) && e.0.row == [] && e.0.nullCellCount == 0
            && e.0.cursorStyle == w.cursorStyle
            && e.1.separator == (if r + 1 < |s.lines| then Between(s, r) else [])
            && (r + 1 < |s.lines| ==> Follows(s, r + 1, 0, e.0))
  {
    hide S.ForcedWrap, S.WrapsByItself, S.Background, EqualBg, OnBg, DrawableCell, FlowsOn, Expected;
    LengthIs(s, r);
    if r + 1 < |s.lines| {
      ByItself(s, r, w.nullCellCount);
      BackgroundFollows(w, s, r);
    }
  }

  lemma {:induction false} BackgroundFollows(w: S.Writer, s: Term, r: nat)
    requires Valid(s) && r + 1 < |s.lines| && Follows(s, r, s.cols, w)
    ensures OnBg(S.Background(w, s.lines, s.rows, r), Expected(s, r + 1))
  {
    hide RunStart;
  }

  lemma {:induction false} RowEnded(t: Term, s: Term, r: nat) returns (t': Term)
    requires Drawable(s) && r + 1 < |s.lines| && At(t, s, r, s.cols, Length(s, r)) && OnBg(t.attr, LastCell(s, r))
    ensures Valid(t) && t' == Draw(t, Between(s, r)) && Ready(t', s, r + 1) && t'.attr == t.attr
  {
    hide At, DrawableCell, Draw, S.ForcedWrap, LineFeed, CarriageReturn, OnBg, SameBg, RunStart;
    AtIsValid(t, s, r, s.cols, Length(s, r));
    if !s.lines[r + 1].wrapped {
      DrawCrLf(t);
      LineFeedFromStart(t);
      NewLine(t, s, r, Length(s, r));
      t' := LineFeed(CarriageReturn(t));
    } else if FlowsOn(s, r) {
      DrawNothing(t);
      RunIs(s.lines[r].cells, s.cols);
      t' := t;
    } else {
      t' := ForcedWrapDrawn(t, s, r);
    }
  }
}
