/** Counting replacement characters: on a screen, in what is written for it, and on the way back. None
    appears on the way, so a screen that loses one is not rebuilt. */
module SerializeReplayCounts {
  import opened Attributes
  import opened BufferLines
  import opened ByteWords
  import opened ParserMachine
  import opened Screen
  import D = TextDecoder
  import Replay = SerializeReplay
  import S = Serializer
  import Sgr
  import Whole = SerializeReplayScreen

  // ---- sums ----

  function Total<T>(items: seq<T>, n: T -> nat): nat {
    if items == [] then 0 else Total(items[..|items| - 1], n) + n(items[|items| - 1])
  }

  lemma {:induction false} TotalAppend<T>(a: seq<T>, b: seq<T>, n: T -> nat)
    ensures Total(a + b, n) == Total(a, n) + Total(b, n)
  {
    if b == [] {
      assert a + b == a;
    } else {
      assert (a + b)[..|a + b| - 1] == a + b[..|b| - 1];
      TotalAppend(a, b[..|b| - 1], n);
    }
  }

  lemma {:induction false} TotalOne<T>(item: T, n: T -> nat)
    ensures Total([item], n) == n(item) && Total([], n) == 0
  {
    assert [item][..0] == [];
  }

  lemma {:induction false} TotalAtMost<T>(a: seq<T>, b: seq<T>, n: T -> nat)
    requires |a| == |b| && forall i :: 0 <= i < |a| ==> n(a[i]) <= n(b[i])
    ensures Total(a, n) <= Total(b, n)
  {
    if a != [] {
      TotalAtMost(a[..|a| - 1], b[..|b| - 1], n);
    }
  }

  lemma {:induction false} TotalNothing<T>(items: seq<T>, n: T -> nat)
    requires forall i :: 0 <= i < |items| ==> n(items[i]) == 0
    ensures Total(items, n) == 0
  {
    if items != [] {
      TotalNothing(items[..|items| - 1], n);
    }
  }

  lemma {:induction false} TotalSplits<T>(items: seq<T>, k: nat, n: T -> nat)
    requires k <= |items|
    ensures Total(items, n) == Total(items[..k], n) + Total(items[k..], n)
  {
    hide Total;
    assert items == items[..k] + items[k..];
    TotalAppend(items[..k], items[k..], n);
  }

  lemma {:induction false} TotalUpdated<T>(items: seq<T>, k: nat, item: T, n: T -> nat)
    requires k < |items|
    ensures Total(items[k := item], n) + n(items[k]) == Total(items, n) + n(item)
  {
    hide Total;
    TotalSplits(items, k, n);
    TotalSplits(items[k := item], k, n);
    TotalSplits(items[k..], 1, n);
    TotalSplits(items[k := item][k..], 1, n);
    assert items[k := item][..k] == items[..k] && items[k := item][k..][1..] == items[k..][1..];
    assert items[k..][..1] == [items[k]] && items[k := item][k..][..1] == [item];
    TotalOne(items[k], n);
    TotalOne(item, n);
  }

  // ---- what is counted ----

  function CodeErrors(code: nat): nat {
    if code == D.RUNE_ERROR then 1 else 0
  }

  function CellErrors(cell: Cell): nat {
    CodeErrors(cell.code)
  }

  function LineErrors(line: Line): nat {
    Total(line.cells, CellErrors)
  }

  function EventErrors(e: Event): nat {
    if e.Printed? then CodeErrors(e.code) else 0
  }

  function TokenErrors(tok: S.Token): nat {
    if tok.Char? then CodeErrors(tok.code) else 0
  }

  function RowErrors(w: S.Written): nat {
    Total(w.tokens, TokenErrors) + Total(w.separator, TokenErrors)
  }

  // ---- the parser invents none ----

  lemma StepErrors(m: Machine, code: nat)
    ensures Total(Step(m, code).events, EventErrors) <= CodeErrors(code)
  {
    StepEvents(m, code);
    var events := Step(m, code).events;
    if events != [] {
      assert events == [events[0]];
      TotalOne(events[0], EventErrors);
    }
  }

  lemma StepEvents(m: Machine, code: nat)
    ensures |Step(m, code).events| <= 1
    ensures forall e :: e in Step(m, code).events ==> EventErrors(e) <= CodeErrors(code)
  {
  }

  lemma {:induction false} FeedErrors(m: Machine, data: seq<nat>)
    ensures Total(Feed(m, data).events, EventErrors) <= Total(data, CodeErrors)
  {
    hide Step;
    if data != [] {
      var before := Feed(m, data[..|data| - 1]);
      FeedErrors(m, data[..|data| - 1]);
      StepErrors(before.to, data[|data| - 1]);
      TotalAppend(before.events, Step(before.to, data[|data| - 1]).events, EventErrors);
    }
  }

  // ---- the terminal invents none ----

  lemma BlankHasNone(t: Term, wrapped: bool)
    ensures LineErrors(BlankLine(t, wrapped)) == 0
  {
    TotalNothing(BlankLine(t, wrapped).cells, CellErrors);
  }

  lemma {:induction false} NextLineErrors(t: Term, wrapped: bool)
    requires Valid(t)
    ensures Total(NextLine(t, wrapped).lines, LineErrors) <= Total(t.lines, LineErrors)
  {
    hide Total, LineErrors, BlankLine;
    if t.y == t.rows - 1 {
      var blank := BlankLine(t, wrapped);
      BlankHasNone(t, wrapped);
      TotalSplits(t.lines, 1, LineErrors);
      TotalAppend(t.lines, [blank], LineErrors);
      TotalAppend(t.lines[1..], [blank], LineErrors);
      TotalOne(blank, LineErrors);
    } else {
      var at := t.yBase + t.y + 1;
      TotalUpdated(t.lines, at, t.lines[at].(wrapped := wrapped), LineErrors);
      SameLineErrors(t.lines[at], wrapped);
    }
  }

  lemma SameLineErrors(line: Line, wrapped: bool)
    ensures LineErrors(line.(wrapped := wrapped)) == LineErrors(line)
  {
  }

  lemma LineErrorsAre(line: Line)
    ensures LineErrors(line) == Total(line.cells, CellErrors)
  {
  }

  lemma {:induction false} WithCellErrors(t: Term, cell: Cell)
    requires Valid(t) && t.x < t.cols
    ensures Total(WithCell(t, cell).lines, LineErrors) <= Total(t.lines, LineErrors) + CellErrors(cell)
  {
    hide Total, LineErrors, CellErrors;
    var at := t.yBase + t.y;
    var line, line' := t.lines[at], t.lines[at].(cells := t.lines[at].cells[t.x := cell]);
    TotalUpdated(t.lines, at, line', LineErrors);
    TotalUpdated(line.cells, t.x, cell, CellErrors);
    LineErrorsAre(line);
    LineErrorsAre(line');
  }

  lemma {:induction false} PrintErrors(t: Term, code: nat)
    requires Valid(t)
    ensures Total(Print(t, code).lines, LineErrors) <= Total(t.lines, LineErrors) + CodeErrors(code)
  {
    hide NextLine, WithCell, Total, LineErrors, CodeErrors;
    if code != SOFT_HYPHEN {
      NextLineKeeps(t, true);
      NextLineErrors(t, true);
      var moved := if t.x + 1 > t.cols then NextLine(t, true).(x := 0) else t;
      WithCellErrors(moved, Cell(code, 1, t.attr.fg, t.attr.bg));
    }
  }

  lemma {:induction false} EraseErrors(t: Term, n: int)
    requires Valid(t)
    ensures Total(EraseChars(t, n).lines, LineErrors) <= Total(t.lines, LineErrors)
  {
    hide Total, LineErrors, Replaced;
    var x, at := Clamped(t.x, t.cols - 1), t.yBase + t.y;
    var line := t.lines[at];
    var line' := line.(cells := Replaced(line.cells, x, x + AtLeastOne(n), EraseCell(t.attr)));
    TotalUpdated(t.lines, at, line', LineErrors);
    ReplacedErrors(line.cells, x, n, t.attr);
    LineErrorsAre(line);
    LineErrorsAre(line');
  }

  lemma {:induction false} ReplacedErrors(row: Row, x: nat, n: int, a: Attr)
    requires x <= |row|
    ensures Total(Replaced(row, x, x + AtLeastOne(n), EraseCell(a)), CellErrors) <= Total(row, CellErrors)
  {
    hide Total;
    TotalAtMost(Replaced(row, x, x + AtLeastOne(n), EraseCell(a)), row, CellErrors);
  }

  lemma {:induction false} HandleErrors(t: Term, e: Event)
    requires Valid(t)
    ensures Total(Handle(t, e).lines, LineErrors) <= Total(t.lines, LineErrors) + EventErrors(e)
  {
    hide Print, NextLine, EraseChars, Total, LineErrors, CodeErrors, Sgr.Applied;
    match e
    case Printed(code) => PrintErrors(t, code);
    case Executed(code) => NextLineErrors(t, false);
    case CsiCalled(ident, values, subs) =>
      if values != [] {
        EraseErrors(t, values[0]);
      }
    case _ =>
  }

  /** A terminal shows no more of them than it has been given. */
  lemma {:induction false} ShownErrors(t: Term, events: seq<Event>)
    requires Valid(t)
    ensures Total(HandleAll(t, events).lines, LineErrors) <= Total(t.lines, LineErrors) + Total(events, EventErrors)
  {
    hide Handle, Valid, LineErrors, EventErrors;
    if events != [] {
      ShownErrors(t, events[..|events| - 1]);
      HandleErrors(HandleAll(t, events[..|events| - 1]), events[|events| - 1]);
    }
  }

  lemma {:induction false} FreshHasNone(cols: nat, rows: nat, scrollback: nat)
    requires cols >= 2 && rows >= 1
    ensures Total(Fresh(cols, rows, scrollback).lines, LineErrors) == 0
  {
    hide LineErrors, Total;
    var lines := Fresh(cols, rows, scrollback).lines;
    forall i | 0 <= i < |lines|
      ensures LineErrors(lines[i]) == 0
    {
      LineErrorsAre(lines[i]);
      TotalNothing(lines[i].cells, CellErrors);
    }
    TotalNothing(lines, LineErrors);
  }

  // ---- the writer invents none ----

  lemma SkipHasNone(w: S.Writer)
    ensures Total(S.Skip(w), TokenErrors) == 0
  {
    TotalNothing(S.Skip(w), TokenErrors);
  }

  lemma {:induction false} MoreTokens(row: seq<S.Token>, skip: seq<S.Token>, tok: S.Token)
    requires Total(skip, TokenErrors) == 0
    ensures Total(row + skip + [tok], TokenErrors) == Total(row, TokenErrors) + TokenErrors(tok)
  {
    hide Total;
    TotalAppend(row, skip, TokenErrors);
    TotalAppend(row + skip, [tok], TokenErrors);
    TotalOne(tok, TokenErrors);
  }

  lemma {:induction false} NextCellErrors(w: S.Writer, cell: Cell, row: nat, col: nat)
    ensures Total(S.NextCell(w, cell, row, col).row, TokenErrors) <= Total(w.row, TokenErrors) + CellErrors(cell)
  {
    hide Total, S.Skip, S.StyleChanges, Sgr.DiffStyle, S.AttrOf;
    var styled := S.WithStyle(w, cell, row, col);
    SkipHasNone(w);
    SkipHasNone(styled);
    MoreTokens(w.row, S.Skip(w), S.Csi(SGR, Sgr.DiffStyle(S.AttrOf(cell), w.cursorStyle)));
    MoreTokens(styled.row, S.Skip(styled), S.Char(cell.code));
    MoreTokens(w.row, S.Skip(w), S.Char(cell.code));
  }

  lemma {:induction false} AfterCellsErrors(w: S.Writer, cells: Row, row: nat, n: nat)
    requires n <= |cells|
    ensures Total(S.AfterCells(w, cells, row, n).row, TokenErrors) <= Total(w.row, TokenErrors) +
            Total(cells[..n], CellErrors)
  {
    hide S.NextCell, TokenErrors, CellErrors;
    if n > 0 {
      AfterCellsErrors(w, cells, row, n - 1);
      NextCellErrors(S.AfterCells(w, cells, row, n - 1), cells[n - 1], row, n - 1);
      assert cells[..n][..n - 1] == cells[..n - 1];
    }
  }

  lemma {:induction false} EndOfRowErrors(w: S.Writer, lines: seq<Line>, rows: nat, row: nat)
    requires row < |lines| && forall i :: 0 <= i < |lines| ==> lines[i].cells != []
    ensures var e := S.EndOfRow(w, lines, rows, row);
            RowErrors(e.1) == Total(w.row, TokenErrors) && e.0.row == []
  {
    hide Total, S.WrapsByItself, S.Background;
    var e := S.EndOfRow(w, lines, rows, row);
    TotalNothing(e.1.separator, TokenErrors);
    var erased := e.1.tokens[|w.row|..];
    TotalNothing(erased, TokenErrors);
    assert e.1.tokens == w.row + erased;
    TotalAppend(w.row, erased, TokenErrors);
  }

  lemma {:induction false} RowsErrors(lines: seq<Line>, rows: nat, n: nat)
    requires n <= |lines| && forall i :: 0 <= i < |lines| ==> lines[i].cells != []
    ensures Total(S.Rows(lines, rows, n).1, RowErrors) <= Total(lines[..n], LineErrors)
    ensures S.Rows(lines, rows, n).0.row == []
  {
    hide S.EndOfRow, S.AfterCells, RowErrors;
    if n > 0 {
      RowsErrors(lines, rows, n - 1);
      var w, cells := S.Rows(lines, rows, n - 1).0, lines[n - 1].cells;
      AfterCellsErrors(w, cells, n - 1, |cells|);
      EndOfRowErrors(S.AfterCells(w, cells, n - 1, |cells|), lines, rows, n - 1);
      assert lines[..n][..n - 1] == lines[..n - 1] && cells[..|cells|] == cells;
    }
  }

  lemma {:induction false} LeadErrors(ws: seq<S.Written>)
    ensures Total(S.Lead(ws), TokenErrors) == Total(ws, RowErrors)
  {
    hide TokenErrors;
    if ws != [] {
      var front, last := ws[..|ws| - 1], ws[|ws| - 1];
      LeadErrors(front);
      TotalAppend(S.Lead(front), last.tokens, TokenErrors);
      TotalAppend(S.Lead(front) + last.tokens, last.separator, TokenErrors);
    }
  }

  lemma {:induction false} JoinedErrors(ws: seq<S.Written>)
    requires ws != []
    ensures Total(S.Joined(ws), TokenErrors) <= Total(ws, RowErrors)
  {
    hide TokenErrors, S.Lead;
    LeadErrors(ws[..|ws| - 1]);
    TotalAppend(S.Lead(ws[..|ws| - 1]), ws[|ws| - 1].tokens, TokenErrors);
  }

  /** What is written for a screen holds no more of them than the screen. */
  lemma {:induction false} OutputErrors(s: Term)
    requires Replay.Drawable(s)
    ensures Total(Whole.Output(s), TokenErrors) <= Total(s.lines, LineErrors)
  {
    hide *;
    DrawableIsValid(s);
    Whole.LinesAreNotEmpty(s);
    var n, r := |s.lines|, Whole.LastRow(s);
    var ws := Whole.Before(s, n).1;
    TextErrors(s);
    Whole.SerializedParts(s);
    var toCursor := Whole.ToCursorFrom(s, r, Replay.Length(s, r));
    var toStyle := S.ToStyle(Whole.Before(s, n).0.cursorStyle, s.attr);
    ControlsHaveNone(s, r, toStyle);
    TotalAppend(Whole.TextOf(s), toCursor, TokenErrors);
    TotalAppend(Whole.TextOf(s) + toCursor, toStyle, TokenErrors);
  }

  lemma DrawableIsValid(s: Term)
    requires Replay.Drawable(s)
    ensures Valid(s)
  {
  }

  lemma ControlsHaveNone(s: Term, r: nat, toStyle: seq<S.Token>)
    requires Valid(s) && r < |s.lines| && toStyle == S.ToStyle(Whole.Before(s, |s.lines|).0.cursorStyle, s.attr)
    ensures Total(Whole.ToCursorFrom(s, r, Replay.Length(s, r)), TokenErrors) == 0 && Total(toStyle, TokenErrors) == 0
  {
    hide Whole.Before, Replay.Length, Sgr.DiffStyle, Total;
    TotalNothing(Whole.ToCursorFrom(s, r, Replay.Length(s, r)), TokenErrors);
    TotalNothing(toStyle, TokenErrors);
  }

  lemma {:induction false} TextErrors(s: Term)
    requires Valid(s)
    ensures Total(Whole.TextOf(s), TokenErrors) <= Total(s.lines, LineErrors)
  {
    hide Total, S.Joined, S.Rows, Whole.WrittenRow, RowErrors, LineErrors, TokenErrors;
    Whole.LinesAreNotEmpty(s);
    var n := |s.lines|;
    var ws := Whole.Before(s, n).1;
    var k := Whole.WrittenRow(s) + 1;
    RowsErrors(s.lines, s.rows, n);
    TotalSplits(ws, k, RowErrors);
    JoinedErrors(ws[..k]);
    assert s.lines[..n] == s.lines;
  }

  // ---- on the screens ----

  /** A rebuilt screen shows as many. */
  lemma {:induction false} RebuiltErrors(t: Term, s: Term)
    requires Whole.Rebuilt(t, s)
    ensures Total(t.lines, LineErrors) == Total(s.lines, LineErrors)
  {
    hide Total, LineErrors, Replay.SameCell, CellErrors;
    forall i | 0 <= i < |t.lines|
      ensures LineErrors(t.lines[i]) == LineErrors(s.lines[i])
    {
      assert Whole.SameCells(t.lines[i].cells, s.lines[i].cells);
      LineErrorsAre(t.lines[i]);
      LineErrorsAre(s.lines[i]);
      forall j | 0 <= j < |t.lines[i].cells|
        ensures CellErrors(t.lines[i].cells[j]) == CellErrors(s.lines[i].cells[j])
      {
        SameErrors(t.lines[i].cells[j], s.lines[i].cells[j]);
      }
      TotalAtMost(t.lines[i].cells, s.lines[i].cells, CellErrors);
      TotalAtMost(s.lines[i].cells, t.lines[i].cells, CellErrors);
    }
    TotalAtMost(t.lines, s.lines, LineErrors);
    TotalAtMost(s.lines, t.lines, LineErrors);
  }

  lemma SameErrors(a: Cell, b: Cell)
    requires Replay.SameCell(a, b)
    ensures CellErrors(a) == CellErrors(b)
  {
  }

  // ---- a cut loses one ----

  /** Code point `i` is a replacement character that a chunk boundary cuts. */
  ghost predicate ErrorCut(ss: seq<nat>, chunks: seq<seq<Byte>>, i: nat)
    requires D.Scalars(ss) && i < |ss|
  {
    ss[i] == D.RUNE_ERROR && D.IsCut(ss, chunks, i)
  }

  ghost predicate SomeErrorCut(ss: seq<nat>, chunks: seq<seq<Byte>>, k: nat)
    requires D.Scalars(ss) && k <= |ss|
  {
    exists i: nat :: i < k && ErrorCut(ss, chunks, i)
  }

  lemma KeptStep(ss: seq<nat>, chunks: seq<seq<Byte>>, k: nat)
    requires D.Scalars(ss) && 0 < k <= |ss|
    ensures D.Kept(ss, chunks, k) == D.Kept(ss, chunks, k - 1) ||
            D.Kept(ss, chunks, k) == D.Kept(ss, chunks, k - 1) + [ss[k - 1]]
    ensures ErrorCut(ss, chunks, k - 1) ==> D.Kept(ss, chunks, k) == D.Kept(ss, chunks, k - 1)
  {
    hide D.IsCut;
  }

  lemma {:induction false} KeptErrors(ss: seq<nat>, chunks: seq<seq<Byte>>, k: nat)
    requires D.Scalars(ss) && k <= |ss|
    ensures Total(D.Kept(ss, chunks, k), CodeErrors) <= Total(ss[..k], CodeErrors)
    ensures SomeErrorCut(ss, chunks, k) ==> Total(D.Kept(ss, chunks, k), CodeErrors) < Total(ss[..k], CodeErrors)
  {
    hide D.Kept, D.Scalars, Total, ErrorCut;
    if k == 0 {
      NothingKept(ss, chunks);
    } else {
      KeptErrors(ss, chunks, k - 1);
      KeptStep(ss, chunks, k);
      var last := ss[k - 1];
      assert ss[..k] == ss[..k - 1] + [last];
      TotalAppend(D.Kept(ss, chunks, k - 1), [last], CodeErrors);
      TotalAppend(ss[..k - 1], [last], CodeErrors);
      TotalOne(last, CodeErrors);
      if ErrorCut(ss, chunks, k - 1) {
        CutIsError(ss, chunks, k - 1);
      }
    }
  }

  lemma CutIsError(ss: seq<nat>, chunks: seq<seq<Byte>>, i: nat)
    requires D.Scalars(ss) && i < |ss| && ErrorCut(ss, chunks, i)
    ensures CodeErrors(ss[i]) == 1
  {
  }

  lemma NothingKept(ss: seq<nat>, chunks: seq<seq<Byte>>)
    requires D.Scalars(ss)
    ensures D.Kept(ss, chunks, 0) == [] && Total<nat>([], CodeErrors) == 0
  {
  }
}
