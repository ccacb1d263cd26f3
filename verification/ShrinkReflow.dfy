/** Reflow when the terminal gets narrower: a wrapped group gets the rows it needs and is
    re-wrapped in place, copying backwards. */
module ShrinkReflow {
  import opened BufferLines
  import opened Wrapping
  import opened GrowingRows
  import opened ShrinkingRows
  import opened GrowReflow

  ghost function ShrinkOf(rows: seq<Row>, cols: nat, n: nat): Shrink
    requires TextDefined(rows, cols)
  {
    Shrink(rows, cols, n, Text(rows, cols))
  }

  lemma {:induction false} MeasureFacts(g: Shrink)
    requires Shrinkable(g)
    ensures 2 <= g.n < g.cols && g.was != [] && TextDefined(g.was, g.cols) && g.text != []
    ensures Offset(g.was, |g.was|, g.cols) == |g.text|
    ensures forall k :: 0 <= k < |g.was| ==> |g.was[k]| == g.cols
  {
    forall k | 0 <= k < |g.was| ensures |g.was[k]| == g.cols {
      assert WellFormedRow(g.was[k], g.cols, g.cols);
    }
  }

  lemma {:induction false} MeasuringFacts(g: Shrink, lengths: seq<nat>, srcLine: nat, srcCol: nat, available: nat)
    requires Shrinkable(g) && Measuring(g, lengths, srcLine, srcCol, available)
    ensures srcLine < |g.was| && available <= |g.text|
    ensures available == |g.text| ==> LengthsOf(g, lengths)
  {
    hide WideFilled, WellFormedGroup, TextDefined, TextOfFirst, UsedLength, RowStart, NewLength;
    OffsetStep(g.was, srcLine, g.cols);
    OffsetMonotone(g.was, srcLine + 1, |g.was|, g.cols);
    MeasureFacts(g);
  }

  method CellsNeeded(lines: seq<BufferLine>, ghost g: Shrink, oldCols: nat) returns (cellsNeeded: nat)
    requires Shrinkable(g) && g.was == RowsOf(lines) && g.cols == oldCols
    ensures cellsNeeded == |g.text|
  {
    hide Shrinkable, UsedLength, TextDefined, TextOfFirst;
    MeasureFacts(g);
    cellsNeeded := 0;
    OffsetStart(g);
    for i := 0 to |lines|
      invariant cellsNeeded == Offset(g.was, i, oldCols)
    {
      var used := UsedLengthOf(lines, i, oldCols);
      OffsetStep(g.was, i, oldCols);
      cellsNeeded := cellsNeeded + used;
    }
  }

  /** One full row: finds its last cell in the old layout and looks whether it is half a wide
      character. */
  method MeasureStep(lines: seq<BufferLine>, ghost g: Shrink, ghost lengths: seq<nat>, srcLine: nat, srcCol: nat,
                     ghost available: nat, oldCols: nat, newCols: nat)
    returns (srcLine': nat, srcCol': nat, lineLength: nat)
    requires Shrinkable(g) && g.was == RowsOf(lines) && g.cols == oldCols && g.n == newCols
    requires Measuring(g, lengths, srcLine, srcCol, available) && |g.text| - available >= newCols
    ensures 0 < lineLength && Measuring(g, lengths + [lineLength], srcLine', srcCol', available + lineLength)
  {
    hide Shrinkable, Measuring, UsedLength, TextDefined;
    MeasureFacts(g);
    MeasuringFacts(g, lengths, srcLine, srcCol, available);
    MeasureRow(g, lengths, srcLine, srcCol, available);
    srcLine', srcCol' := srcLine, srcCol + newCols;
    var oldTrimmedLength := UsedLengthOf(lines, srcLine', oldCols);
    if srcCol' > oldTrimmedLength {
      srcCol' := srcCol' - oldTrimmedLength;
      srcLine' := srcLine' + 1;
    }
    var endsWithWide := srcLine' < |lines| && lines[srcLine'].data[srcCol' - 1].width == 2;
    if endsWithWide {
      srcCol' := srcCol' - 1;
    }
    lineLength := if endsWithWide then newCols - 1 else newCols;
  }

  /** `reflowSmallerGetNewLineLengths`. */
  method GetNewLineLengths(lines: seq<BufferLine>, ghost g: Shrink, oldCols: nat, newCols: nat)
    returns (lengths: seq<nat>)
    requires Shrinkable(g) && g.was == RowsOf(lines) && g.cols == oldCols && g.n == newCols
    ensures LengthsOf(g, lengths)
  {
    hide Shrinkable, Measuring, LengthsOf;
    MeasureStart(g);
    lengths := [];
    var cellsNeeded := CellsNeeded(lines, g, oldCols);
    var srcCol: nat, srcLine: nat, cellsAvailable: nat := 0, 0, 0;
    while cellsAvailable < cellsNeeded
      invariant Measuring(g, lengths, srcLine, srcCol, cellsAvailable)
    {
      if cellsNeeded - cellsAvailable < newCols {
        MeasureLast(g, lengths, srcLine, srcCol, cellsAvailable);
        lengths := lengths + [cellsNeeded - cellsAvailable];
        return;
      }
      var lineLength;
      srcLine, srcCol, lineLength := MeasureStep(lines, g, lengths, srcLine, srcCol, cellsAvailable, oldCols, newCols);
      lengths := lengths + [lineLength];
      cellsAvailable := cellsAvailable + lineLength;
    }
    MeasuringFacts(g, lengths, srcLine, srcCol, cellsAvailable);
  }

  // ---- the backward copy ----

  lemma {:induction false} BackFacts(l: Layout, cur: seq<Row>, b: Back)
    requires Copying(l, cur, b) && b.s > 0
    ensures b.s <= |l.g.was| <= |cur| == |l.lengths| && b.s <= b.d <= |cur| && (b.d == b.s ==> b.dc >= b.sc)
    ensures 2 <= l.g.n < l.g.cols && TextDefined(l.g.was, l.g.cols)
    ensures forall k :: 0 <= k < |cur| ==> |cur[k]| == l.g.cols
    ensures b.sc <= l.g.cols && 0 < b.dc <= l.g.cols && b.dc <= l.lengths[b.d - 1]
  {
    hide Shrinkable, LengthsOf, RowStart, RowDone, UsedLength, TextDefined, Unread, Unwritten;
    BackReadFits(l, cur, b);
    BackCols(l, cur, b);
    CopyingDefined(l, cur, b);
    LaidOutFacts(l);
  }

  /** What the loop computes as its next position, from the rows after the copy. */
  lemma {:induction false} AfterBackIs(l: Layout, cur': seq<Row>, b: Back, k: nat)
    requires 0 < b.d <= |l.lengths| && 0 < b.s <= |l.g.was| && TextDefined(l.g.was, l.g.cols)
    requires k == Smaller(b.sc, b.dc) && Copying(l, cur', AfterBack(l, b, k))
    ensures k == b.sc && b.s > 1 ==>
              && 0 < l.g.cols && (forall i :: 0 <= i < |cur'| ==> |cur'[i]| == l.g.cols) && b.s - 2 < |cur'|
              && AfterBack(l, b, k).sc == UsedLength(cur', b.s - 2, l.g.cols)
  {
    hide Copying, UsedLength, TextDefined;
    if k == b.sc && b.s > 1 {
      BackUsedLength(l, cur', AfterBack(l, b, k));
    }
  }

  method CopyBackRound(lines: seq<BufferLine>, lengths: seq<nat>, ghost l: Layout, ghost b: Back,
                       destLineIndex: nat, destCol: nat, srcLineIndex: nat, srcCol: nat, oldCols: nat)
    returns (destLineIndex': int, destCol': nat, srcLineIndex': int, srcCol': nat, ghost b': Back)
    requires Separate(lines) && Copying(l, RowsOf(lines), b) && l.lengths == lengths && l.g.cols == oldCols
    requires b.d == destLineIndex + 1 && b.dc == destCol && b.s == srcLineIndex + 1 && b.sc == srcCol
    modifies set i | 0 <= i < |lines| :: lines[i].data
    ensures Copying(l, RowsOf(lines), b') && (b'.s < b.s || (b'.s == b.s && b'.sc < b.sc))
    ensures b'.d == destLineIndex' + 1 && (b'.d > 0 ==> b'.dc == destCol')
    ensures b'.s == srcLineIndex' + 1 && (b'.s > 0 ==> b'.sc == srcCol')
  {
    hide Copying, UsedLength, TextDefined, Blit;
    ghost var cur := RowsOf(lines);
    BackFacts(l, cur, b);
    var cellsToCopy := if srcCol <= destCol then srcCol else destCol;
    BackRound(l, cur, b, cellsToCopy);
    CopyBetween(lines, destLineIndex, srcLineIndex, srcCol - cellsToCopy, destCol - cellsToCopy, cellsToCopy, true);
    b' := AfterBack(l, b, cellsToCopy);
    AfterBackIs(l, RowsOf(lines), b, cellsToCopy);
    destLineIndex', destCol' := destLineIndex, destCol - cellsToCopy;
    srcLineIndex', srcCol' := srcLineIndex, srcCol - cellsToCopy;
    if destCol' == 0 {
      destLineIndex' := destLineIndex' - 1;
      if destLineIndex' >= 0 {
        destCol' := lengths[destLineIndex'];
      }
    }
    if srcCol' == 0 {
      srcLineIndex' := srcLineIndex' - 1;
      var wrappedLinesIndex := if srcLineIndex' >= 0 then srcLineIndex' else 0;
      srcCol' := UsedLengthOf(lines, wrappedLinesIndex, oldCols);
    }
  }

  lemma {:induction false} CopyEnds(l: Layout, cur: seq<Row>, b: Back)
    requires Copying(l, cur, b) && b.s == 0
    ensures |cur| == |l.lengths| == |l.rows| && forall j :: 0 <= j < |cur| ==> RowDone(l, cur[j], j, 0)
  {
    hide Shrinkable, NewLength, RowStart, RowDone;
  }

  method CopyBack(lines: seq<BufferLine>, lengths: seq<nat>, ghost l: Layout, srcLines: nat, lastLineLength: nat,
                  oldCols: nat)
    requires Separate(lines) && LaidOut(l) && RowsOf(lines) == l.rows && l.lengths == lengths && l.g.cols == oldCols
    requires srcLines == |l.g.was| > 0 && |lengths| > 0
    requires TextDefined(l.g.was, l.g.cols) && lastLineLength == UsedLength(l.g.was, |l.g.was| - 1, l.g.cols)
    modifies set i | 0 <= i < |lines| :: lines[i].data
    ensures var cur := RowsOf(lines);
            |cur| == |l.lengths| == |l.rows| && forall j :: 0 <= j < |cur| ==> RowDone(l, cur[j], j, 0)
  {
    hide LaidOut, Copying, UsedLength, TextDefined, RowDone;
    CopyingStarts(l);
    var destLineIndex: int, destCol: nat := |lengths| - 1, lengths[|lengths| - 1];
    var srcLineIndex: int, srcCol: nat := srcLines - 1, lastLineLength;
    ghost var b := Back(|lengths|, destCol, srcLines, srcCol);
    assert |l.rows| == |lengths| by {
      LaidOutSize(l);
    }
    while srcLineIndex >= 0
      invariant Copying(l, RowsOf(lines), b)
      invariant b.d == destLineIndex + 1 && (b.d > 0 ==> b.dc == destCol)
      invariant b.s == srcLineIndex + 1 && (b.s > 0 ==> b.sc == srcCol)
      decreases b.s, b.sc
    {
      BackFacts(l, RowsOf(lines), b);
      destLineIndex, destCol, srcLineIndex, srcCol, b :=
        CopyBackRound(lines, lengths, l, b, destLineIndex, destCol, srcLineIndex, srcCol, oldCols);
    }
    CopyEnds(l, RowsOf(lines), b);
  }

  lemma {:induction false} LaidOutSize(l: Layout)
    requires LaidOut(l)
    ensures |l.rows| == |l.lengths|
  {
  }

  /** Nulls the cell behind each row that is short of `newCols`. */
  method NullRowEnds(lines: seq<BufferLine>, lengths: seq<nat>, newCols: nat)
    requires Separate(lines) && |lengths| == |lines| && forall i :: 0 <= i < |lines| ==> newCols <= lines[i].data.Length
    modifies set i | 0 <= i < |lines| :: lines[i].data
    ensures forall j :: 0 <= j < |lines| ==> RowsOf(lines)[j] == NulledRow(old(RowsOf(lines))[j], lengths[j], newCols)
  {
    ghost var was := RowsOf(lines);
    for i := 0 to |lines|
      invariant forall j :: 0 <= j < i ==> RowsOf(lines)[j] == NulledRow(was[j], lengths[j], newCols)
      invariant forall j :: i <= j < |lines| ==> RowsOf(lines)[j] == was[j]
    {
      if lengths[i] < newCols {
        SetCellOf(lines, i, lengths[i], NULL_CELL);
      }
    }
  }

  method AddBlankLines(lines0: seq<BufferLine>, count: nat, cols: nat) returns (lines: seq<BufferLine>)
    requires Separate(lines0)
    ensures Separate(lines) && |lines| == |lines0| + count && lines0 <= lines
    ensures fresh(lines[|lines0|..]) && forall i :: |lines0| <= i < |lines| ==> fresh(lines[i].data)
    ensures RowsOf(lines0) == old(RowsOf(lines0))
    ensures RowsOf(lines) == old(RowsOf(lines0)) + seq(count, _ => Blank(cols, NULL_CELL))
  {
    lines := lines0;
    for i := 0 to count
      invariant Separate(lines) && |lines| == |lines0| + i && lines0 <= lines
      invariant fresh(lines[|lines0|..]) && forall i :: |lines0| <= i < |lines| ==> fresh(lines[i].data)
      invariant forall j :: 0 <= j < |lines0| ==> lines[j].data == lines0[j].data == old(lines0[j].data)
      invariant forall j :: |lines0| <= j < |lines| ==> lines[j].data[..] == Blank(cols, NULL_CELL)
    {
      var line := new BufferLine(cols, NULL_CELL, true);
      lines := lines + [line];
    }
  }

  lemma {:induction false} BlanksLaidOut(g: Shrink, lengths: seq<nat>)
    requires Shrinkable(g) && LengthsOf(g, lengths)
    ensures |lengths| >= |g.was| > 0
    ensures LaidOut(Layout(g, WithBlanks(g, |lengths| - |g.was|), lengths))
  {
    NoFewerRows(g, lengths);
    MeasureFacts(g);
    hide Shrinkable, LengthsOf;
    var rows := WithBlanks(g, |lengths| - |g.was|);
    assert rows[..|g.was|] == g.was;
  }

  method FillLines(lines: seq<BufferLine>, lengths: seq<nat>, ghost l: Layout, srcLines: nat, lastLineLength: nat,
                   oldCols: nat, newCols: nat)
    requires Separate(lines) && LaidOut(l) && RowsOf(lines) == l.rows && l.lengths == lengths
    requires l.g.cols == oldCols && l.g.n == newCols && srcLines == |l.g.was| > 0 && |lengths| > 0
    requires TextDefined(l.g.was, l.g.cols) && lastLineLength == UsedLength(l.g.was, |l.g.was| - 1, l.g.cols)
    modifies set i | 0 <= i < |lines| :: lines[i].data
    ensures ShrunkTo(l.g, RowsOf(lines), lengths)
  {
    hide UsedLength, TextDefined, LaidOut, ShrunkTo, RowDone, NulledRow;
    CopyBack(lines, lengths, l, srcLines, lastLineLength, oldCols);
    ghost var cur := RowsOf(lines);
    RowsDoneWidth(l, cur);
    NullRowEnds(lines, lengths, newCols);
    AllShrunk(l, cur, RowsOf(lines));
  }

  /** The rows of a group and the blank ones added behind them. */
  ghost function WithBlanks(g: Shrink, count: nat): seq<Row> {
    g.was + seq(count, _ => Blank(g.cols, NULL_CELL))
  }

  method MeasureGroup(wrapped: seq<BufferLine>, ghost g: Shrink, oldCols: nat, newCols: nat)
    returns (lengths: seq<nat>, lastLineLength: nat)
    requires Shrinkable(g) && g.was == RowsOf(wrapped) && g.cols == oldCols && g.n == newCols
    ensures |lengths| >= |wrapped| == |g.was| > 0 && TextDefined(g.was, g.cols)
    ensures lastLineLength == UsedLength(g.was, |g.was| - 1, g.cols)
    ensures LaidOut(Layout(g, WithBlanks(g, |lengths| - |g.was|), lengths))
  {
    hide Shrinkable, UsedLength, TextDefined, LaidOut, LengthsOf;
    MeasureFacts(g);
    lastLineLength := UsedLengthOf(wrapped, |wrapped| - 1, oldCols);
    lengths := GetNewLineLengths(wrapped, g, oldCols, newCols);
    BlanksLaidOut(g, lengths);
  }

  /** Re-wraps one group at `newCols` columns; the lines it needs beyond its own are new. */
  method ShrinkGroup(wrapped: seq<BufferLine>, oldCols: nat, newCols: nat)
    returns (lines: seq<BufferLine>, lengths: seq<nat>)
    requires Separate(wrapped) && TextDefined(RowsOf(wrapped), oldCols) &&
             Shrinkable(ShrinkOf(RowsOf(wrapped), oldCols, newCols))
    modifies set i | 0 <= i < |wrapped| :: wrapped[i].data
    ensures Separate(lines) && wrapped <= lines && fresh(lines[|wrapped|..])
    ensures TextDefined(old(RowsOf(wrapped)), oldCols)
    ensures ShrunkTo(ShrinkOf(old(RowsOf(wrapped)), oldCols, newCols), RowsOf(lines), lengths)
  {
    hide Shrinkable, UsedLength, TextDefined, LaidOut, ShrunkTo;
    ghost var g := ShrinkOf(RowsOf(wrapped), oldCols, newCols);
    var lastLineLength;
    lengths, lastLineLength := MeasureGroup(wrapped, g, oldCols, newCols);
    lines := AddBlankLines(wrapped, |lengths| - |wrapped|, oldCols);
    FillLines(lines, lengths, Layout(g, RowsOf(lines), lengths), |wrapped|, lastLineLength, oldCols, newCols);
  }

  lemma {:induction false} RowsDoneWidth(l: Layout, cur: seq<Row>)
    requires LaidOut(l) && |cur| == |l.lengths| && |cur| == |l.rows|
    requires forall j :: 0 <= j < |cur| ==> RowDone(l, cur[j], j, 0)
    ensures forall j :: 0 <= j < |cur| ==> |cur[j]| >= l.g.n
  {
    hide RowStart, RowWritten;
    LaidOutFacts(l);
  }

  lemma {:induction false} AllShrunk(l: Layout, cur: seq<Row>, cur': seq<Row>)
    requires LaidOut(l) && |cur| == |l.lengths| == |l.rows| == |cur'|
    requires forall j :: 0 <= j < |cur| ==> RowDone(l, cur[j], j, 0)
    requires forall j :: 0 <= j < |cur| ==> l.g.n <= |cur[j]| && cur'[j] == NulledRow(cur[j], l.lengths[j], l.g.n)
    ensures ShrunkTo(l.g, cur', l.lengths)
  {
    hide Shrinkable, RowDone, NulledRow, ShrunkRow;
    forall j | 0 <= j < |cur| ensures ShrunkRow(l.g, cur'[j], j) {
      NulledRowIsShrunk(l, cur[j], j);
    }
  }
}
