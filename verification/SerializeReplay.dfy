/** A terminal that is being fed a serialized screen, compared with that screen. */
module SerializeReplay {
  import opened Attributes
  import opened BufferLines
  import opened Screen
  import Sgr
  import Serializer

  function AttrOf(cell: Cell): Attr {
    Serializer.AttrOf(cell)
  }

  /** The same character in the same colours and flags. */
  predicate SameCell(a: Cell, b: Cell) {
    a.code == b.code && a.width == b.width && Seen(AttrOf(a)) == Seen(AttrOf(b))
  }

  predicate SameBg(a: Cell, b: Cell) {
    EqualBg(AttrOf(a), AttrOf(b))
  }

  const DASH := 0x2d

  predicate IsDash(cell: Cell) {
    cell.code == DASH && cell.width == 1
  }

  // ---- the screens that are drawn ----

  /** An empty cell in the background of another. */
  function Wiped(cell: Cell): Cell {
    Cell(0, 1, DEFAULT_FG, DEFAULT_BG.(mode := cell.bg.mode, color := cell.bg.color))
  }

  /** An empty cell with any background, or a character of width one in an attribute the serializer
      can describe. */
  predicate DrawableCell(c: Cell) {
    && Sgr.Writable(c.fg.mode, c.fg.color) && Sgr.Writable(c.bg.mode, c.bg.color)
    && if c.HasContent() then
         c.code != SOFT_HYPHEN && c.width == 1 && !c.bg.dim && (c.fg.underline <==> c.bg.hasExtended)
       else c == Wiped(c)
  }

  ghost predicate Drawable(s: Term) {
    Valid(s) && forall i, j :: 0 <= i < |s.lines| && 0 <= j < |s.lines[i].cells| ==> DrawableCell(s.lines[i].cells[j])
  }

  // ---- what replaying shows of them ----

  /** Where the empty cells of one background begin that end the first `n` cells. */
  function RunStart(cells: Row, n: nat): (c: nat)
    requires n <= |cells|
    ensures c <= n
  {
    if n == 0 || cells[n - 1].HasContent() then n
    else if n > 1 && (cells[n - 2].HasContent() || !SameBg(cells[n - 2], cells[n - 1])) then n - 1
    else RunStart(cells, n - 1)
  }

  function LastCell(s: Term, r: nat): Cell
    requires Valid(s) && r < |s.lines|
  {
    s.lines[r].cells[s.cols - 1]
  }

  /** Row `i` is full, and the next one begins with a character on the same background: printing wraps. */
  predicate FlowsOn(s: Term, i: nat)
    requires Valid(s) && i + 1 < |s.lines|
  {
    LastCell(s, i).HasContent() && s.lines[i + 1].cells[0].HasContent() &&
      SameBg(LastCell(s, i), s.lines[i + 1].cells[0])
  }

  /** The writer has to force the wrap from row `i` into the next. */
  predicate ForcesWrap(s: Term, i: nat)
    requires Valid(s) && i < |s.lines|
  {
    i + 1 < |s.lines| && s.lines[i + 1].wrapped && !FlowsOn(s, i)
  }

  /** A row that had to be scrolled in has the background that was in use then. */
  function Base(s: Term, i: nat): Cell
    requires Valid(s) && i < |s.lines|
  {
    if i > 0 && i >= s.rows then Wiped(LastCell(s, i - 1)) else NULL_CELL
  }

  /** What is on the terminal before row `i` is drawn: a forced wrap erases column 0. */
  function Under(s: Term, i: nat, j: nat): Cell
    requires Valid(s) && i < |s.lines|
  {
    if i > 0 && j == 0 && ForcesWrap(s, i - 1) then Wiped(LastCell(s, i - 1)) else Base(s, i)
  }

  /** The background that the writer expects there; it does not know of the first row scrolled in. */
  function Expected(s: Term, i: nat): Cell
    requires Valid(s) && i < |s.lines|
  {
    if i > s.rows then Wiped(LastCell(s, i - 1)) else NULL_CELL
  }

  /** What cell (i, j) shows once it has been drawn: empty cells on the expected background are skipped. */
  function Drawn(s: Term, i: nat, j: nat): Cell
    requires Valid(s) && i < |s.lines| && j < s.cols
  {
    var cell := s.lines[i].cells[j];
    if cell.HasContent() || !SameBg(cell, Expected(s, i)) then cell else Under(s, i, j)
  }

  function Length(s: Term, i: nat): (c: nat)
    requires Valid(s) && i < |s.lines|
    ensures c <= s.cols
  {
    RunStart(s.lines[i].cells, s.cols)
  }

  /** A row that forces the wrap into the next one leaves dashes behind: all those of its empty end on
      a screen of one row, the one in column 0 if it is all empty. */
  predicate DashLeft(s: Term, i: nat, j: nat)
    requires Valid(s) && i < |s.lines|
  {
    ForcesWrap(s, i) && if s.rows == 1 then Length(s, i) <= j else j == 0 && Length(s, i) == 0
  }

  /** What it shows for good: the empty end of such a row is erased again. */
  function Final(s: Term, i: nat, j: nat): Cell
    requires Valid(s) && i < |s.lines| && j < s.cols
  {
    if ForcesWrap(s, i) && Length(s, i) <= j then s.lines[i].cells[j] else Drawn(s, i, j)
  }

  /** The cell at (i, j) of a terminal that has drawn everything before column `c` of row `r`. */
  predicate CellShows(cell: Cell, s: Term, i: nat, j: nat, r: nat, c: nat)
    requires Valid(s) && i < |s.lines| && j < s.cols
  {
    if i < r then if DashLeft(s, i, j) then IsDash(cell) else SameCell(cell, Final(s, i, j))
    else if i > r then SameCell(cell, NULL_CELL)
    else SameCell(cell, if j < c then Drawn(s, i, j) else Under(s, i, j))
  }

  predicate Marked(line: Line, s: Term, i: nat, r: nat)
    requires Valid(s) && i < |s.lines|
  {
    |line.cells| == s.cols && line.wrapped == (0 < i <= r && s.lines[i].wrapped)
  }

  predicate LineShows(line: Line, s: Term, i: nat, r: nat, c: nat)
    requires Valid(s) && i < |s.lines|
  {
    Marked(line, s, i, r) && forall j :: 0 <= j < s.cols ==> CellShows(line.cells[j], s, i, j, r, c)
  }

  function Max(a: int, b: int): int {
    if a > b then a else b
  }

  /** The terminal is in row `r`; the rows above show what they should, those below are empty. */
  ghost predicate On(t: Term, s: Term, r: nat) {
    && Valid(t) && Valid(s) && t.cols == s.cols && t.rows == s.rows && t.scrollback == s.scrollback
    && r < |s.lines| && |t.lines| == Max(s.rows, r + 1) <= Max(s.rows, |s.lines|) && t.yBase + t.y == r
    && forall i :: 0 <= i < |t.lines| && i != r ==> i < |s.lines| && LineShows(t.lines[i], s, i, r, 0)
  }

  /** It has drawn row `r` up to column `c`, and its cursor is in column `x`. */
  ghost predicate At(t: Term, s: Term, r: nat, c: nat, x: nat) {
    On(t, s, r) && c <= s.cols && x <= s.cols && t.x == x && LineShows(t.lines[r], s, r, r, c)
  }

  lemma FreshIsAtStart(s: Term)
    requires Valid(s)
    ensures At(Fresh(s.cols, s.rows, s.scrollback), s, 0, 0, 0)
  {
    hide SameBg;
  }

  /** It draws in the background of that cell. */
  predicate OnBg(a: Attr, cell: Cell) {
    EqualBg(a, AttrOf(cell))
  }

  /** What printing a character here looks like. */
  lemma PrintedCell(a: Attr, cell: Cell)
    requires Plain(a) && Seen(a) == Seen(AttrOf(cell)) && cell.width == 1
    ensures SameCell(Cell(cell.code, 1, a.fg, a.bg), cell) && OnBg(a, cell)
  {
  }

  lemma ErasedLooks(a: Attr, cell: Cell)
    requires OnBg(a, cell)
    ensures SameCell(EraseCell(a), Wiped(cell))
  {
  }

  lemma WipedLooks(cell: Cell, other: Cell)
    requires SameBg(cell, other) && DrawableCell(other) && !other.HasContent()
    ensures SameCell(Wiped(cell), other)
  {
  }

  // ---- within a row ----

  /** Only row `r` changes. */
  lemma {:induction false} OnStays(t: Term, s: Term, r: nat, t': Term)
    requires On(t, s, r) && Keeps(t, t') && |t'.lines| == |t.lines| && t'.yBase + t'.y == r
    requires forall i :: 0 <= i < |t.lines| && i != r ==> t'.lines[i] == t.lines[i]
    ensures On(t', s, r)
  {
    hide LineShows;
  }

  lemma {:induction false} PrintHere(t: Term, s: Term, r: nat, c: nat)
    requires At(t, s, r, c, c) && c < s.cols && DrawableCell(s.lines[r].cells[c]) && s.lines[r].cells[c].HasContent()
    requires Plain(t.attr) && Seen(t.attr) == Seen(AttrOf(s.lines[r].cells[c]))
    ensures At(Print(t, s.lines[r].cells[c].code), s, r, c + 1, c + 1)
  {
    hide SameCell, Under, Plain, On;
    OnIsValid(t, s, r);
    var cell := s.lines[r].cells[c];
    PrintedCell(t.attr, cell);
    PrintKeeps(t, cell.code);
    var t' := Print(t, cell.code);
    OnStays(t, s, r, t');
    forall j | 0 <= j < s.cols
      ensures CellShows(t'.lines[r].cells[j], s, r, j, r, c + 1)
    {
      assert CellShows(t.lines[r].cells[j], s, r, j, r, c);
    }
  }

  lemma OnIsValid(t: Term, s: Term, r: nat)
    requires On(t, s, r)
    ensures Valid(t) && Valid(s) && t.cols == s.cols && t.rows == s.rows && t.scrollback == s.scrollback
    ensures r < |t.lines| && r < |s.lines| && t.yBase + t.y == r && |t.lines| == Max(s.rows, r + 1)
  {
  }

  lemma {:induction false} MovedOn(t: Term, s: Term, r: nat, c: nat, x: nat, k: nat)
    requires At(t, s, r, c, x) && x + k < s.cols
    ensures At(Move(t, k, 0), s, r, c, x + k) && Move(t, k, 0).attr == t.attr
  {
    hide LineShows, On;
    OnIsValid(t, s, r);
    MoveKeeps(t, k, 0);
    OnStays(t, s, r, Move(t, k, 0));
  }

  /** The cells from column `c` to `c + k` are empty. */
  predicate EmptyRun(s: Term, r: nat, c: nat, k: nat)
    requires Valid(s) && r < |s.lines| && c + k <= s.cols
  {
    forall j :: c <= j < c + k ==> !s.lines[r].cells[j].HasContent()
  }

  /** Empty cells on the expected background are as they should be without being touched. */
  lemma {:induction false} RunLeft(t: Term, s: Term, r: nat, c: nat, k: nat, x: nat)
    requires At(t, s, r, c, x) && c + k <= s.cols && EmptyRun(s, r, c, k)
    requires forall j :: c <= j < c + k ==> SameBg(s.lines[r].cells[j], Expected(s, r))
    ensures At(t, s, r, c + k, x)
  {
    hide SameCell, Under, SameBg, Expected, On;
    OnIsValid(t, s, r);
    forall j | 0 <= j < s.cols
      ensures CellShows(t.lines[r].cells[j], s, r, j, r, c + k)
    {
      assert CellShows(t.lines[r].cells[j], s, r, j, r, c);
    }
  }

  lemma {:induction false} SkipForward(t: Term, s: Term, r: nat, c: nat, k: nat)
    requires At(t, s, r, c, c) && k > 0 && c + k < s.cols && EmptyRun(s, r, c, k)
    requires forall j :: c <= j < c + k ==> SameBg(s.lines[r].cells[j], Expected(s, r))
    ensures At(Move(t, k, 0), s, r, c + k, c + k)
  {
    hide At, SameBg, Expected, EmptyRun;
    RunLeft(t, s, r, c, k, c);
    MovedOn(t, s, r, c + k, c, k);
  }

  /** Erasing between narrow cells erases just the range. */
  lemma ReplacedNarrow(row: Row, start: nat, end: nat, fill: Cell)
    requires start <= |row|
    requires start > 0 ==> row[start - 1].width != 2
    requires 0 < end < |row| && end > start ==> row[end - 1].width != 2
    ensures start < end ==> forall j :: 0 <= j < |row| ==>
              Replaced(row, start, end, fill)[j] == if start <= j < end then fill else row[j]
  {
  }

  lemma ShownIsNarrow(cell: Cell, s: Term, i: nat, j: nat, r: nat, c: nat)
    requires Drawable(s) && i < |s.lines| && j < s.cols && CellShows(cell, s, i, j, r, c)
    ensures cell.width == 1
  {
    hide SameBg, Seen, RunStart, ForcesWrap;
    assert DrawableCell(s.lines[i].cells[j]);
  }

  /** Other empty cells are erased, in the background they have. */
  lemma {:induction false} RunErased(t: Term, s: Term, r: nat, c: nat, k: nat)
    requires Drawable(s) && At(t, s, r, c, c) && k > 0 && c + k <= s.cols && EmptyRun(s, r, c, k)
    requires forall j :: c <= j < c + k ==>
               !SameBg(s.lines[r].cells[j], Expected(s, r)) && OnBg(t.attr, s.lines[r].cells[j])
    ensures At(EraseChars(t, k), s, r, c + k, c) && EraseChars(t, k).attr == t.attr
  {
    hide SameCell, Under, SameBg, Expected, On, OnBg, DrawableCell, EraseChars;
    OnIsValid(t, s, r);
    EraseKeeps(t, k);
    var t' := EraseChars(t, k);
    var cells := t.lines[r].cells;
    if c > 0 {
      ShownIsNarrow(cells[c - 1], s, r, c - 1, r, c);
    }
    ShownIsNarrow(cells[c + k - 1], s, r, c + k - 1, r, c);
    ErasedCells(t, k);
    var cells' := t'.lines[r].cells;
    OnStays(t, s, r, t');
    forall j | 0 <= j < s.cols
      ensures CellShows(cells'[j], s, r, j, r, c + k)
    {
      assert CellShows(cells[j], s, r, j, r, c);
      if c <= j < c + k {
        ErasedLooks(t.attr, s.lines[r].cells[j]);
        EmptyIsWiped(s, r, j);
      }
    }
  }

  lemma {:induction false} ErasedCells(t: Term, k: nat)
    requires Valid(t) && k > 0 && t.x + k <= t.cols
    requires t.x > 0 ==> t.lines[t.yBase + t.y].cells[t.x - 1].width == 1
    requires t.lines[t.yBase + t.y].cells[t.x + k - 1].width == 1
    ensures var at := t.yBase + t.y; var t' := EraseChars(t, k);
            && t'.x == t.x && t'.y == t.y && t'.yBase == t.yBase && t'.attr == t.attr && |t'.lines| == |t.lines|
            && |t'.lines[at].cells| == t.cols && t'.lines[at].wrapped == t.lines[at].wrapped
            && (forall i :: 0 <= i < |t.lines| && i != at ==> t'.lines[i] == t.lines[i])
            && forall j :: 0 <= j < t.cols ==>
                 t'.lines[at].cells[j] == if t.x <= j < t.x + k then EraseCell(t.attr) else t.lines[at].cells[j]
  {
    hide Replaced;
    ReplacedNarrow(t.lines[t.yBase + t.y].cells, t.x, t.x + k, EraseCell(t.attr));
  }

  lemma EmptyIsWiped(s: Term, r: nat, j: nat)
    requires Drawable(s) && r < |s.lines| && j < s.cols && !s.lines[r].cells[j].HasContent()
    ensures s.lines[r].cells[j] == Wiped(s.lines[r].cells[j])
  {
    assert DrawableCell(s.lines[r].cells[j]);
  }

  // ---- onto the next row ----

  /** From column `x` on the cells look like that. */
  ghost predicate LookFrom(cells: Row, x: nat, look: Cell) {
    forall j :: x <= j < |cells| ==> SameCell(cells[j], look)
  }

  /** The next line is reached without losing any: it is the empty one below, or a new one in the
      background in use. */
  lemma {:induction false} NextLineIs(t: Term, s: Term, r: nat, wrapped: bool)
    requires On(t, s, r) && r + 1 < |s.lines| && OnBg(t.attr, LastCell(s, r))
    ensures var t' := NextLine(t, wrapped);
            && Keeps(t, t') && t'.yBase + t'.y == r + 1 && t'.x == t.x && t'.attr == t.attr
            && |t'.lines| == Max(s.rows, r + 2)
            && (forall i :: 0 <= i < |t'.lines| && i != r + 1 ==> i < |t.lines| && t'.lines[i] == t.lines[i])
            && t'.lines[r + 1].wrapped == wrapped
            && LookFrom(t'.lines[r + 1].cells, 0, Base(s, r + 1))
  {
    hide SameCell, DashLeft, OnBg;
    NextLineKeeps(t, wrapped);
    ErasedLooks(t.attr, LastCell(s, r));
    var t' := NextLine(t, wrapped);
    if r + 1 < |t.lines| {
      assert LineShows(t.lines[r + 1], s, r + 1, r, 0);
      var cells := t'.lines[r + 1].cells;
      forall j | 0 <= j < |cells|
        ensures SameCell(cells[j], NULL_CELL)
      {
        assert CellShows(t.lines[r + 1].cells[j], s, r + 1, j, r, 0);
      }
    }
  }

  /** A row is done: nothing of it will be a dash or be erased again. */
  lemma {:induction false} RowIsDone(line: Line, s: Term, r: nat, r': nat)
    requires Valid(s) && r < r' && r < |s.lines| && LineShows(line, s, r, r, s.cols)
    requires ForcesWrap(s, r) ==> Length(s, r) == s.cols
    ensures LineShows(line, s, r, r', 0)
  {
    hide SameCell, Drawn, Length, ForcesWrap;
    forall j | 0 <= j < s.cols
      ensures CellShows(line.cells[j], s, r, j, r', 0)
    {
      assert CellShows(line.cells[j], s, r, j, r, s.cols);
    }
  }

  /** The lines that a step to the next row leaves alone. */
  lemma {:induction false} LineElsewhere(line: Line, s: Term, i: nat, r: nat)
    requires Valid(s) && ((i < r && i < |s.lines|) || r + 1 < i < |s.lines|)
    requires LineShows(line, s, i, r, 0)
    ensures LineShows(line, s, i, r + 1, 0)
  {
    hide SameCell, DashLeft, Final;
    forall j | 0 <= j < s.cols
      ensures CellShows(line.cells[j], s, i, j, r + 1, 0)
    {
      assert CellShows(line.cells[j], s, i, j, r, 0);
    }
  }

  /** Once row `r` is done, the terminal is on the next one. */
  lemma {:induction false} OnNext(t: Term, s: Term, r: nat, t': Term)
    requires On(t, s, r) && r + 1 < |s.lines| && Keeps(t, t') && t'.yBase + t'.y == r + 1 &&
             |t'.lines| == Max(s.rows, r + 2)
    requires forall i :: 0 <= i < |t'.lines| && i != r && i != r + 1 ==> i < |t.lines| && t'.lines[i] == t.lines[i]
    requires LineShows(t'.lines[r], s, r, r + 1, 0)
    ensures On(t', s, r + 1)
  {
    hide LineShows;
    forall i | 0 <= i < |t'.lines| && i != r + 1
      ensures i < |s.lines| && LineShows(t'.lines[i], s, i, r + 1, 0)
    {
      if i != r {
        assert LineShows(t.lines[i], s, i, r, 0);
        LineElsewhere(t.lines[i], s, i, r);
      }
    }
  }

  /** A line on which nothing has been drawn yet. */
  lemma {:induction false} NothingDrawn(line: Line, s: Term, r: nat)
    requires Valid(s) && r < |s.lines| && Marked(line, s, r, r)
    requires forall j :: 0 <= j < s.cols ==> SameCell(line.cells[j], Under(s, r, j))
    ensures LineShows(line, s, r, r, 0)
  {
    hide SameCell, Under;
  }

  lemma {:induction false} NewLine(t: Term, s: Term, r: nat, x: nat)
    requires At(t, s, r, s.cols, x) && r + 1 < |s.lines| && !s.lines[r + 1].wrapped && OnBg(t.attr, LastCell(s, r))
    ensures At(LineFeed(CarriageReturn(t)), s, r + 1, 0, 0) && LineFeed(CarriageReturn(t)).attr == t.attr
  {
    hide SameCell, NextLine, On, LineShows, OnBg, Base;
    OnIsValid(t, s, r);
    NextLineIs(t, s, r, false);
    var down := NextLine(t, false);
    NextLineIgnoresX(t, false);
    var t' := LineFeed(CarriageReturn(t));
    assert t' == down.(x := 0);
    RowIsDone(t.lines[r], s, r, r + 1);
    OnNext(t, s, r, t');
    NothingDrawn(t'.lines[r + 1], s, r + 1);
  }

  lemma NextLineIgnoresX(t: Term, wrapped: bool)
    requires Valid(t)
    ensures Valid(t.(x := 0)) && NextLine(t.(x := 0), wrapped) == NextLine(t, wrapped).(x := 0)
  {
  }

  /** A character that does not fit the row any more starts the next one. */
  lemma {:induction false} PrintOver(t: Term, s: Term, r: nat, code: nat)
    requires On(t, s, r) && t.x == s.cols && r + 1 < |s.lines| && code != SOFT_HYPHEN && OnBg(t.attr, LastCell(s, r))
    ensures var t' := Print(t, code);
            && Keeps(t, t') && t'.yBase + t'.y == r + 1 && t'.x == 1 && t'.attr == t.attr
            && |t'.lines| == Max(s.rows, r + 2)
            && (forall i :: 0 <= i < |t'.lines| && i != r + 1 ==> i < |t.lines| && t'.lines[i] == t.lines[i])
            && t'.lines[r + 1].wrapped
            && t'.lines[r + 1].cells[0] == Cell(code, 1, t.attr.fg, t.attr.bg)
            && LookFrom(t'.lines[r + 1].cells, 1, Base(s, r + 1))
  {
    hide SameCell, On, NextLine, OnBg, Base;
    OnIsValid(t, s, r);
    NextLineIs(t, s, r, true);
    PrintKeeps(t, code);
    var moved := NextLine(t, true).(x := 0);
    var cells, cells' := moved.lines[r + 1].cells, Print(t, code).lines[r + 1].cells;
    forall j | 1 <= j < s.cols
      ensures SameCell(cells'[j], Base(s, r + 1))
    {
      assert cells'[j] == cells[j];
    }
  }

  /** The row was full to the last cell, so the next one follows by itself. */
  lemma {:induction false} PrintWraps(t: Term, s: Term, r: nat)
    requires At(t, s, r, s.cols, s.cols) && r + 1 < |s.lines| && s.lines[r + 1].wrapped && FlowsOn(s, r)
    requires DrawableCell(s.lines[r + 1].cells[0])
    requires Plain(t.attr) && Seen(t.attr) == Seen(AttrOf(s.lines[r + 1].cells[0]))
    ensures At(Print(t, s.lines[r + 1].cells[0].code), s, r + 1, 1, 1)
  {
    hide SameCell, Plain, Print, On, LineShows, DrawableCell, OnBg, SameBg, Base;
    OnIsValid(t, s, r);
    var cell := s.lines[r + 1].cells[0];
    CharacterIsNarrow(cell);
    PrintedCell(t.attr, cell);
    OnSameBg(t.attr, LastCell(s, r), cell);
    PrintOver(t, s, r, cell.code);
    var t' := Print(t, cell.code);
    RowIsDone(t.lines[r], s, r, r + 1);
    OnNext(t, s, r, t');
    FirstDrawn(t'.lines[r + 1], s, r + 1);
  }

  lemma OnSameBg(a: Attr, cell: Cell, other: Cell)
    requires SameBg(cell, other)
    ensures OnBg(a, cell) == OnBg(a, other)
  {
  }

  /** Only the first character has been drawn. */
  lemma {:induction false} FirstDrawn(line: Line, s: Term, r: nat)
    requires Valid(s) && r < |s.lines| && Marked(line, s, r, r) && s.lines[r].cells[0].HasContent()
    requires SameCell(line.cells[0], s.lines[r].cells[0])
    requires LookFrom(line.cells, 1, Base(s, r))
    ensures LineShows(line, s, r, r, 1)
  {
    hide SameCell, Base;
  }

  lemma CharacterIsNarrow(cell: Cell)
    requires DrawableCell(cell) && cell.HasContent()
    ensures cell.width == 1 && cell.code != SOFT_HYPHEN
  {
  }

  // ---- the wrap that is forced ----

  /** Row `r` has been drawn, and then dashes from its empty end to column `d`. */
  predicate DashedTo(line: Line, s: Term, r: nat, d: nat)
    requires Valid(s) && r < |s.lines|
  {
    && Marked(line, s, r, r)
    && (forall j :: 0 <= j < Length(s, r) ==> SameCell(line.cells[j], Drawn(s, r, j)))
    && forall j :: Length(s, r) <= j < d && j < s.cols ==> IsDash(line.cells[j])
  }

  ghost predicate Dashing(t: Term, s: Term, r: nat, d: nat) {
    On(t, s, r) && Length(s, r) <= d <= s.cols && t.x == d && DashedTo(t.lines[r], s, r, d)
  }

  lemma {:induction false} StartsDashing(t: Term, s: Term, r: nat)
    requires Valid(s) && r < |s.lines| && At(t, s, r, s.cols, Length(s, r))
    ensures Dashing(t, s, r, Length(s, r))
  {
    hide SameCell, Drawn, Length, On;
    OnIsValid(t, s, r);
    forall j | 0 <= j < Length(s, r)
      ensures SameCell(t.lines[r].cells[j], Drawn(s, r, j))
    {
      assert CellShows(t.lines[r].cells[j], s, r, j, r, s.cols);
    }
  }

  lemma {:induction false} PrintDash(t: Term, s: Term, r: nat, d: nat)
    requires Dashing(t, s, r, d) && d < s.cols
    ensures Dashing(Print(t, DASH), s, r, d + 1) && Print(t, DASH).attr == t.attr
  {
    hide SameCell, Drawn, Length, On;
    OnIsValid(t, s, r);
    PrintKeeps(t, DASH);
    OnStays(t, s, r, Print(t, DASH));
  }

  /** Row `r` has been left with dashes at its end; the cursor is at the start of row `r + 1`. */
  ghost predicate Beyond(t: Term, s: Term, r: nat) {
    && Valid(t) && Valid(s) && t.cols == s.cols && t.rows == s.rows && t.scrollback == s.scrollback
    && r + 1 < |s.lines| && ForcesWrap(s, r)
    && |t.lines| == Max(s.rows, r + 2) && t.yBase + t.y == r + 1 && t.x == 0
    && OnBg(t.attr, LastCell(s, r))
    && DashedTo(t.lines[r], s, r, s.cols)
    && LineShows(t.lines[r + 1], s, r + 1, r + 1, 0)
    && forall i :: 0 <= i < |t.lines| && i != r && i != r + 1 ==> i < |s.lines| && LineShows(t.lines[i], s, i, r + 1, 0)
  }

  lemma {:induction false} DashOver(t: Term, s: Term, r: nat)
    requires Dashing(t, s, r, s.cols) && r + 1 < |s.lines| && ForcesWrap(s, r) && OnBg(t.attr, LastCell(s, r))
    ensures Beyond(EraseChars(Move(Print(t, DASH), -1, 0), 1), s, r)
  {
    hide SameCell, DashedTo, Print, On, LineShows, OnBg, Base, ForcesWrap, Move, EraseChars;
    OnIsValid(t, s, r);
    PrintOver(t, s, r, DASH);
    var t1 := Print(t, DASH);
    DashWiped(t1, s, r);
    var t3 := EraseChars(Move(t1, -1, 0), 1);
    RowsElsewhere(t, s, r, t3);
  }

  /** The dash that went over into the next row is taken back. */
  lemma {:induction false} DashWiped(t: Term, s: Term, r: nat)
    requires Valid(t) && Valid(s) && t.cols == s.cols && t.yBase + t.y == r + 1 && t.x == 1 && r + 1 < |s.lines|
    requires ForcesWrap(s, r) && OnBg(t.attr, LastCell(s, r)) && t.lines[r + 1].wrapped
    requires t.lines[r + 1].cells[0].width == 1 && LookFrom(t.lines[r + 1].cells, 1, Base(s, r + 1))
    ensures Valid(Move(t, -1, 0))
    ensures var t' := EraseChars(Move(t, -1, 0), 1);
            && Keeps(t, t') && t'.x == 0 && t'.yBase + t'.y == r + 1 && t'.attr == t.attr && |t'.lines| == |t.lines|
            && (forall i :: 0 <= i < |t.lines| && i != r + 1 ==> t'.lines[i] == t.lines[i])
            && LineShows(t'.lines[r + 1], s, r + 1, r + 1, 0)
  {
    hide SameCell, OnBg, Base, LineShows, FlowsOn, Replaced;
    MoveKeeps(t, -1, 0);
    var t2 := Move(t, -1, 0);
    EraseKeeps(t2, 1);
    var t3 := EraseChars(t2, 1);
    ReplacedNarrow(t2.lines[r + 1].cells, 0, 1, EraseCell(t.attr));
    ErasedLooks(t.attr, LastCell(s, r));
    NothingDrawn(t3.lines[r + 1], s, r + 1);
  }

  lemma {:induction false} RowsElsewhere(t: Term, s: Term, r: nat, t': Term)
    requires On(t, s, r) && r + 1 < |s.lines| && |t'.lines| == Max(s.rows, r + 2)
    requires forall i :: 0 <= i < |t'.lines| && i != r + 1 ==> i < |t.lines| && t'.lines[i] == t.lines[i]
    ensures forall i :: 0 <= i < |t'.lines| && i != r && i != r + 1 ==>
            i < |s.lines| && LineShows(t'.lines[i], s, i, r + 1, 0)
  {
    hide LineShows;
    forall i | 0 <= i < |t'.lines| && i != r && i != r + 1
      ensures i < |s.lines| && LineShows(t'.lines[i], s, i, r + 1, 0)
    {
      assert LineShows(t.lines[i], s, i, r, 0);
      LineElsewhere(t.lines[i], s, i, r);
    }
  }

  /** Once row `r` shows what it should, the wrap is done. */
  lemma {:induction false} LeaveRow(t: Term, s: Term, r: nat, t': Term)
    requires Beyond(t, s, r) && Keeps(t, t') && |t'.lines| == |t.lines| && t'.yBase + t'.y == r + 1 && t'.x == 0
    requires forall i :: 0 <= i < |t.lines| && i != r && i != r + 1 ==> t'.lines[i] == t.lines[i]
    requires LineShows(t'.lines[r], s, r, r + 1, 0) && LineShows(t'.lines[r + 1], s, r + 1, r + 1, 0)
    ensures At(t', s, r + 1, 0, 0)
  {
    hide LineShows, DashedTo, OnBg;
  }

  /** The row was full: nothing is left to clean up. */
  lemma {:induction false} WrapForced(t: Term, s: Term, r: nat)
    requires Beyond(t, s, r) && Length(s, r) == s.cols
    ensures At(t, s, r + 1, 0, 0)
  {
    hide SameCell, Drawn, Length, ForcesWrap, OnBg;
    forall j | 0 <= j < s.cols
      ensures CellShows(t.lines[r].cells[j], s, r, j, r + 1, 0)
    {
    }
    LeaveRow(t, s, r, t);
  }

  /** The row as it stays on a screen of one row: its dashes are out of reach. */
  lemma {:induction false} DashesStay(line: Line, s: Term, r: nat)
    requires Valid(s) && r + 1 < |s.lines| && ForcesWrap(s, r) && s.rows == 1 && DashedTo(line, s, r, s.cols)
    ensures LineShows(line, s, r, r + 1, 0)
  {
    hide SameCell, IsDash, Drawn, Length, ForcesWrap;
  }

  /** The row as it is once its dashes have been erased: all but the one in column 0 of an empty row. */
  lemma {:induction false} DashesErased(line: Line, line': Line, s: Term, r: nat, fill: Cell)
    requires Drawable(s) && r + 1 < |s.lines| && ForcesWrap(s, r) && s.rows > 1 && DashedTo(line, s, r, s.cols)
    requires Length(s, r) < s.cols && SameCell(fill, Wiped(LastCell(s, r)))
    requires |line'.cells| == s.cols && line'.wrapped == line.wrapped
    requires forall j :: 0 <= j < s.cols ==> line'.cells[j] == if Max(Length(s, r), 1) <= j then fill else line.cells[j]
    ensures LineShows(line', s, r, r + 1, 0)
  {
    hide SameCell, IsDash, Drawn, RunStart, ForcesWrap, DrawableCell;
    RunIsOneColour(s, r);
    forall j | 0 <= j < s.cols
      ensures CellShows(line'.cells[j], s, r, j, r + 1, 0)
    {
      if Length(s, r) <= j {
        SameLook(fill, Wiped(LastCell(s, r)), s.lines[r].cells[j]);
      }
    }
  }

  lemma SameLook(a: Cell, b: Cell, c: Cell)
    requires SameCell(a, b) && SameCell(b, c)
    ensures SameCell(a, c)
  {
  }

  /** The empty end of a row has the look of its last cell. */
  lemma {:induction false} RunIsOneColour(s: Term, r: nat)
    requires Drawable(s) && r < |s.lines|
    ensures forall j :: Length(s, r) <= j < s.cols ==>
              && !s.lines[r].cells[j].HasContent() && SameBg(LastCell(s, r), s.lines[r].cells[j])
              && SameCell(Wiped(LastCell(s, r)), s.lines[r].cells[j])
  {
    hide SameCell, SameBg, DrawableCell;
    RunIs(s.lines[r].cells, s.cols);
    forall j | Length(s, r) <= j < s.cols
      ensures SameCell(Wiped(LastCell(s, r)), s.lines[r].cells[j])
    {
      assert DrawableCell(s.lines[r].cells[j]);
      WipedLooks(LastCell(s, r), s.lines[r].cells[j]);
    }
  }

  lemma {:induction false} RunIs(cells: Row, n: nat)
    requires n <= |cells|
    ensures forall j :: RunStart(cells, n) <= j < n ==> !cells[j].HasContent() && SameBg(cells[n - 1], cells[j])
    ensures RunStart(cells, n) == n <==> n == 0 || cells[n - 1].HasContent()
  {
    hide SameBg;
    if n > 0 {
      SameBgItself(cells[n - 1]);
      if n > 1 && !cells[n - 1].HasContent() && !cells[n - 2].HasContent() && SameBg(cells[n - 2], cells[n - 1]) {
        RunIs(cells, n - 1);
        forall j | RunStart(cells, n) <= j < n - 1
          ensures SameBg(cells[n - 1], cells[j])
        {
          SameBgThrough(cells[n - 1], cells[n - 2], cells[j]);
        }
      }
    }
  }

  lemma SameBgItself(a: Cell)
    ensures SameBg(a, a)
  {
  }

  lemma SameBgThrough(a: Cell, b: Cell, c: Cell)
    requires SameBg(b, a) && SameBg(b, c)
    ensures SameBg(a, c)
  {
  }

  /** The cell before which erasing starts is narrow. */
  lemma {:induction false} NarrowBefore(line: Line, s: Term, r: nat)
    requires Drawable(s) && r < |s.lines| && DashedTo(line, s, r, s.cols) && Length(s, r) < s.cols
    ensures line.cells[Max(Length(s, r), 1) - 1].width == 1
  {
    hide DrawableCell, Length, Seen, SameBg, ForcesWrap;
    var j := Max(Length(s, r), 1) - 1;
    assert DrawableCell(s.lines[r].cells[j]);
    DrawnIsNarrow(s, r, j);
  }

  lemma DrawnIsNarrow(s: Term, r: nat, j: nat)
    requires Drawable(s) && r < |s.lines| && j < s.cols
    ensures Drawn(s, r, j).width == 1
  {
    hide SameBg, ForcesWrap, Expected;
    assert DrawableCell(s.lines[r].cells[j]);
  }

  /** Up, to the dashes, erase them, and back down. */
  function CleanUp(t: Term, c: nat): (r: Term)
    requires Valid(t) && c < t.cols
    ensures Valid(r)
  {
    var up := CursorUp(t, 0);
    MoveKeeps(t, 0, -Min(t.y, 1));
    var there := Move(up, AtLeastOne(c), 0);
    MoveKeeps(up, AtLeastOne(c), 0);
    var erased := EraseChars(there, t.cols - c);
    EraseKeeps(there, t.cols - c);
    var back := Move(erased, -AtLeastOne(c), 0);
    MoveKeeps(erased, -AtLeastOne(c), 0);
    MoveKeeps(back, 0, Min(back.rows - 1 - back.y, 1));
    CursorDown(back, 0)
  }

  /** What the clean-up does: only the row it erases changes. */
  lemma {:induction false} CleanUpIs(t: Term, c: nat)
    requires Valid(t) && c < t.cols && t.x == 0 && (t.y == 0 ==> t.rows == 1)
    ensures var at := if t.y == 0 then t.yBase else t.yBase + t.y - 1;
            CleanUp(t, c) ==
            t.(lines := t.lines[at := t.lines[at].(cells :=
                 Replaced(t.lines[at].cells, Max(c, 1), Max(c, 1) + (t.cols - c), EraseCell(t.attr)))])
  {
    hide Replaced;
  }

  lemma {:induction false} CleanedUp(t: Term, s: Term, r: nat)
    requires Drawable(s) && Beyond(t, s, r) && Length(s, r) < s.cols
    ensures At(CleanUp(t, Length(s, r)), s, r + 1, 0, 0)
  {
    hide SameCell, Replaced, CleanUp, DashedTo, LineShows, Length, OnBg, DrawableCell, ForcesWrap;
    var c := Length(s, r);
    var at := if t.y == 0 then t.yBase else t.yBase + t.y - 1;
    CleanUpIs(t, c);
    var t' := CleanUp(t, c);
    var x := Max(c, 1);
    var cells, fill := t.lines[at].cells, EraseCell(t.attr);
    ErasedLooks(t.attr, LastCell(s, r));
    if t.y == 0 {
      FillIsNarrow(t.lines[r + 1], s, r + 1, x);
      ReplacedNarrow(cells, x, x + (s.cols - c), fill);
      DashesStay(t.lines[r], s, r);
      ErasedStaysBlank(t.lines[r + 1], t'.lines[r + 1], s, r + 1, x, fill);
    } else {
      NarrowBefore(t.lines[r], s, r);
      ReplacedNarrow(cells, x, x + (s.cols - c), fill);
      DashesErased(t.lines[r], t'.lines[r], s, r, fill);
    }
    LeaveRow(t, s, r, t');
  }

  lemma FillIsNarrow(line: Line, s: Term, r: nat, x: nat)
    requires Valid(s) && r < |s.lines| && LineShows(line, s, r, r, 0) && 0 < x <= s.cols
    ensures line.cells[x - 1].width == 1
  {
    hide Seen, ForcesWrap;
    assert CellShows(line.cells[x - 1], s, r, x - 1, r, 0);
  }

  /** On a screen of one row the row below has that background already. */
  lemma {:induction false} ErasedStaysBlank(line: Line, line': Line, s: Term, r: nat, x: nat, fill: Cell)
    requires Valid(s) && 0 < r < |s.lines| && s.rows == 1 && LineShows(line, s, r, r, 0)
    requires SameCell(fill, Wiped(LastCell(s, r - 1))) && |line'.cells| == s.cols && line'.wrapped == line.wrapped
    requires forall j :: 0 <= j < s.cols ==> line'.cells[j] == if x <= j then fill else line.cells[j]
    ensures LineShows(line', s, r, r, 0)
  {
    hide SameCell, ForcesWrap;
    forall j | 0 <= j < s.cols
      ensures CellShows(line'.cells[j], s, r, j, r, 0)
    {
      assert CellShows(line.cells[j], s, r, j, r, 0);
    }
  }
}
