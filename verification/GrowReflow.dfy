/** Reflow when the terminal gets wider: each wrapped group is re-wrapped in place, copying
    forwards, and the rows it no longer needs are reported. */
module GrowReflow {
  import opened BufferLines
  import opened Wrapping
  import opened GrowingRows

  ghost function RowsOf(lines: seq<BufferLine>): (rows: seq<Row>)
    reads lines, set k | 0 <= k < |lines| :: lines[k].data
    ensures |rows| == |lines| && forall i :: 0 <= i < |lines| ==> rows[i] == lines[i].data[..]
  {
    seq(|lines|, i requires 0 <= i < |lines| reads lines, set k | 0 <= k < |lines| ::
        lines[k].data => lines[i].data[..])
  }

  /** No two lines share cells. */
  ghost predicate Separate(lines: seq<BufferLine>)
    reads lines
  {
    forall i, j :: 0 <= i < j < |lines| ==> lines[i].data != lines[j].data
  }

  /** `CopyCellsFrom` between two lines of a group, seen as an update of its rows. */
  method CopyBetween(lines: seq<BufferLine>, d: nat, s: nat, srcCol: nat, destCol: nat, length: nat,
                     applyInReverse: bool)
    requires Separate(lines) && d < |lines| && s < |lines|
    requires srcCol + length <= lines[s].data.Length && destCol + length <= lines[d].data.Length
    requires SafeOrder(d == s, srcCol, destCol, applyInReverse)
    modifies lines[d].data
    ensures RowsOf(lines) == old(RowsOf(lines))[d := Blit(old(RowsOf(lines))[d], destCol,
                                                          old(RowsOf(lines))[s][srcCol..srcCol + length])]
  {
    hide Blit;
    lines[d].CopyCellsFrom(lines[s], srcCol, destCol, length, applyInReverse);
  }

  method SetCellOf(lines: seq<BufferLine>, d: nat, index: nat, cell: Cell)
    requires Separate(lines) && d < |lines| && index < lines[d].data.Length
    modifies lines[d].data
    ensures RowsOf(lines) == old(RowsOf(lines))[d := old(RowsOf(lines))[d][index := cell]]
  {
    lines[d].SetCell(index, cell);
  }

  method ClearBehind(lines: seq<BufferLine>, d: nat, start: nat, end: nat)
    requires Separate(lines) && d < |lines| && start <= lines[d].data.Length
    modifies lines[d].data
    ensures RowsOf(lines) == old(RowsOf(lines))[d := Replaced(old(RowsOf(lines))[d], start, end, NULL_CELL)]
  {
    hide Replaced;
    lines[d].ReplaceCells(start, end, NULL_CELL);
  }

  /** `getWrappedLineTrimmedLength`. */
  method UsedLengthOf(lines: seq<BufferLine>, i: nat, cols: nat) returns (n: nat)
    requires i < |lines| && 0 < cols && forall k :: 0 <= k < |lines| ==> cols <= lines[k].data.Length
    ensures n == UsedLength(RowsOf(lines), i, cols)
  {
    if i == |lines| - 1 {
      n := lines[i].GetTrimmedLength();
      return;
    }
    var endsInNull := !lines[i].data[cols - 1].HasContent() && lines[i].data[cols - 1].width == 1;
    var followingStartsWithWide := i + 1 < |lines| && lines[i + 1].data[0].width == 2;
    n := if endsInNull && followingStartsWithWide then cols - 1 else cols;
  }

  ghost function GrowOf(rows: seq<Row>, cols: nat, n: nat): Grow
    requires TextDefined(rows, cols)
  {
    Grow(rows, cols, n, Text(rows, cols))
  }

  method MoveWideHalf(lines: seq<BufferLine>, d: nat, newCols: nat)
    requires Separate(lines) && d + 1 < |lines| && 0 < newCols
    requires lines[d].data.Length == newCols && lines[d + 1].data.Length == newCols
    modifies lines[d].data, lines[d + 1].data
    ensures var was := old(RowsOf(lines));
            RowsOf(lines) ==
              was[d + 1 := Blit(was[d + 1], 0, [was[d][newCols - 1]])][d := was[d][newCols - 1 := NULL_CELL]]
  {
    hide Blit;
    ghost var cur := RowsOf(lines);
    CopyBetween(lines, d + 1, d, newCols - 1, 0, 1, false);
    assert cur[d][newCols - 1..newCols - 1 + 1] == [cur[d][newCols - 1]];
    SetCellOf(lines, d, newCols - 1, NULL_CELL);
  }

  /** The write position after a round; `wide` says that half a wide character was moved. */
  ghost function SettledAt(g: Grow, at: At, filled: bool, wide: bool): At
    requires g.n >= 1
  {
    if filled then NextAt(g, at, wide) else at
  }

  ghost predicate Settling(g: Grow, cur: seq<Row>, at: At, filled: bool, d: nat, c: nat) {
    && Growing(g, cur, at)
    && (if filled then at.c == g.n && d == at.d + 1 && c == 0 else at.c == c < g.n && d == at.d)
  }

  ghost function WideMoved(cur: seq<Row>, d: nat, n: nat): seq<Row>
    requires 1 <= d < |cur| && 1 <= n == |cur[d - 1]| == |cur[d]|
  {
    cur[d := Blit(cur[d], 0, [cur[d - 1][n - 1]])][d - 1 := cur[d - 1][n - 1 := NULL_CELL]]
  }

  lemma {:induction false} SettlingFacts(g: Grow, cur: seq<Row>, at: At, filled: bool, d: nat, c: nat)
    requires Settling(g, cur, at, filled, d, c)
    ensures 2 <= g.n && d < |cur| && |cur[d]| == g.n && (d > 0 ==> |cur[d - 1]| == g.n)
  {
    hide Reading, Behind, Growable;
    if filled {
      FullRowBehind(g, cur, at, false);
    }
  }

  /** A row already left behind does not end in half a wide character. */
  lemma {:induction false} LeftRowFacts(g: Grow, cur: seq<Row>, at: At)
    requires Growing(g, cur, at) && at.d > 0
    ensures at.d < |cur| && 2 <= g.n && |cur[at.d - 1]| == g.n && cur[at.d - 1][g.n - 1].width != 2
  {
    hide Reading, Behind, Growable, RowStart, Padded, WrappedRow;
    WrappedRowEnd(g.text, g.n, at.d - 1);
  }

  lemma {:induction false} Settled(g: Grow, cur: seq<Row>, at: At, filled: bool, d: nat, c: nat, wide: bool)
    requires Settling(g, cur, at, filled, d, c)
    requires 2 <= g.n && d < |cur| && |cur[d]| == g.n && (d > 0 ==> |cur[d - 1]| == g.n)
    requires wide <==> c == 0 && d != 0 && cur[d - 1][g.n - 1].width == 2
    ensures Growing(g, if wide then WideMoved(cur, d, g.n) else cur, SettledAt(g, at, filled, wide))
    ensures wide ==> filled
  {
    hide Growing;
    if filled {
      if wide {
        NextRowWide(g, cur, at);
      } else {
        NextRow(g, cur, at);
      }
    } else if d > 0 {
      LeftRowFacts(g, cur, at);
    }
  }

  /** The end of a round: a wide character cut at the edge of a full row moves to the next row. */
  method SettleRow(lines: seq<BufferLine>, ghost g: Grow, ghost at: At, ghost filled: bool, d: nat, c: nat,
                   newCols: nat)
    returns (wide: bool)
    requires Separate(lines) && Settling(g, RowsOf(lines), at, filled, d, c) && g.n == newCols
    modifies set i | 0 <= i < |lines| :: lines[i].data
    ensures Growing(g, RowsOf(lines), SettledAt(g, at, filled, wide)) && (wide ==> filled)
  {
    hide Settling, Growing, SettledAt, Blit;
    ghost var cur := RowsOf(lines);
    SettlingFacts(g, cur, at, filled, d, c);
    wide := c == 0 && d != 0 && lines[d - 1].data[newCols - 1].width == 2;
    Settled(g, cur, at, filled, d, c, wide);
    if wide {
      MoveWideHalf(lines, d - 1, newCols);
    }
  }

  /** The state after the copy of a round, before settling. */
  lemma {:induction false} CopiedIsSettling(g: Grow, cur: seq<Row>, at: At, k: nat, cur': seq<Row>)
    requires Growing(g, cur, at) && at.s < |g.was| && TextDefined(g.was, g.cols)
    requires at.c + k <= g.n && at.srcCol + k <= UsedLength(g.was, at.s, g.cols)
    requires at.srcCol + k <= |cur[at.s]| && at.d < |cur| && at.c + k <= |cur[at.d]| && at.s < |cur|
    requires cur' == cur[at.d := Blit(cur[at.d], at.c, cur[at.s][at.srcCol..at.srcCol + k])]
    ensures var filled := at.c + k == g.n;
            && Settling(g, cur', AfterCopy(g, at, k), filled,
                        if filled then at.d + 1 else at.d, if filled then 0 else at.c + k)
  {
    hide Growing, UsedLength, TextDefined, Blit;
    CopyKeepsGrowing(g, cur, at, k);
  }

  /** What a round needs to know of the state, without unfolding it. */
  lemma {:induction false} RoundFacts(g: Grow, cur: seq<Row>, at: At)
    requires Growing(g, cur, at) && at.s < |g.was| && at.c < g.n
    ensures 2 <= g.cols < g.n && |cur| == |g.was| && at.d <= at.s && (at.d == at.s ==> at.c <= at.srcCol)
    ensures TextDefined(g.was, g.cols)
    ensures forall k :: 0 <= k < |cur| ==> |cur[k]| == g.n
    ensures UsedLength(cur, at.s, g.cols) == UsedLength(g.was, at.s, g.cols)
    ensures at.srcCol <= UsedLength(g.was, at.s, g.cols) <= g.n
  {
    WriteStaysBehindRead(g, at);
    UsedLengthUnchanged(g, cur, at);
    UsedLengthWithin(g.was, at.s, g.cols, g.n);
  }

  /** One round of the copy: as many cells as the source row has left and the target row takes. */
  method CopyRound(lines: seq<BufferLine>, ghost g: Grow, ghost at: At, d: nat, c: nat, s: nat, srcCol: nat,
                   oldCols: nat, newCols: nat)
    returns (d': nat, c': nat, s': nat, srcCol': nat, ghost at': At)
    requires Separate(lines) && Growing(g, RowsOf(lines), at) && s < |g.was| && c < newCols
    requires at.d == d && at.c == c && at.s == s && at.srcCol == srcCol && g.cols == oldCols && g.n == newCols
    modifies set i | 0 <= i < |lines| :: lines[i].data
    ensures Growing(g, RowsOf(lines), at') && c' < newCols
    ensures at'.d == d' && at'.c == c' && at'.s == s' && at'.srcCol == srcCol'
    ensures (s' == s + 1 && srcCol' == 0) || (s' == s && srcCol < srcCol' <= newCols)
  {
    hide Growing, Settling, UsedLength, TextDefined, Blit;
    ghost var cur := RowsOf(lines);
    RoundFacts(g, cur, at);
    var srcTrimmedLength := UsedLengthOf(lines, s, oldCols);
    var cellsToCopy := if srcTrimmedLength - srcCol <= newCols - c then srcTrimmedLength - srcCol else newCols - c;

    CopyBetween(lines, d, s, srcCol, c, cellsToCopy, false);
    CopiedIsSettling(g, cur, at, cellsToCopy, RowsOf(lines));
    at' := AfterCopy(g, at, cellsToCopy);
    d', c', s', srcCol' := d, c + cellsToCopy, s, srcCol + cellsToCopy;
    ghost var filled := c' == newCols;
    if c' == newCols {
      d', c' := d' + 1, 0;
    }
    if srcCol' == srcTrimmedLength {
      s', srcCol' := s' + 1, 0;
    }
    var wide := SettleRow(lines, g, at', filled, d', c', newCols);
    if wide {
      c' := 1;
    }
    at' := SettledAt(g, at', filled, wide);
  }

  lemma {:induction false} StartFacts(g: Grow)
    requires Growable(g) && |g.was| >= 2
    ensures Growing(g, g.was, At(0, UsedLength(g.was, 0, g.cols), 0, 1, 0))
    ensures UsedLength(g.was, 0, g.cols) < g.n && 2 <= g.cols < g.n
    ensures forall k :: 0 <= k < |g.was| ==> |g.was[k]| == g.n
  {
    InitialGrowing(g);
  }

  lemma {:induction false} ReadingBound(g: Grow, cur: seq<Row>, at: At)
    requires Growing(g, cur, at)
    ensures at.s <= |g.was| == |cur|
  {
  }

  /** The copy loop for one wrapped group. */
  method GrowCopy(lines: seq<BufferLine>, ghost g: Grow, oldCols: nat, newCols: nat)
    returns (destLineIndex: nat, destCol: nat, ghost at: At)
    requires |lines| >= 2 && Separate(lines) && Growable(g) && g.was == RowsOf(lines)
    requires g.cols == oldCols && g.n == newCols
    modifies set i | 0 <= i < |lines| :: lines[i].data
    ensures Growing(g, RowsOf(lines), at) && at.s == |g.was|
    ensures at.d == destLineIndex && at.c == destCol < newCols
  {
    hide Growing, Growable, UsedLength;
    StartFacts(g);
    destLineIndex := 0;
    destCol := UsedLengthOf(lines, 0, oldCols);
    var srcLineIndex, srcCol := 1, 0;
    at := At(0, destCol, 0, 1, 0);
    while srcLineIndex < |lines|
      invariant Growing(g, RowsOf(lines), at) && srcLineIndex <= |lines| && srcCol <= newCols
      invariant at.d == destLineIndex && at.c == destCol < newCols && at.s == srcLineIndex && at.srcCol == srcCol
      decreases |lines| - srcLineIndex, newCols - srcCol
    {
      destLineIndex, destCol, srcLineIndex, srcCol, at :=
        CopyRound(lines, g, at, destLineIndex, destCol, srcLineIndex, srcCol, oldCols, newCols);
      ReadingBound(g, RowsOf(lines), at);
    }
  }

  /** Counts the trailing rows that are past the text or empty. */
  method CountRemovable(lines: seq<BufferLine>, ghost g: Grow, d: nat) returns (countToRemove: nat)
    requires Grown(g, RowsOf(lines), d)
    ensures countToRemove < |lines|
    ensures GrownTo(g, RowsOf(lines), |lines| - countToRemove)
  {
    hide Grown, Droppable, GrownTo, TrimmedLength;
    ghost var cur := RowsOf(lines);
    CountFacts(g, cur, d);
    countToRemove := 0;
    var i := |lines| - 1;
    while i > 0
      invariant 0 <= i < |lines| && countToRemove == |lines| - 1 - i
      invariant Droppable(g, i + 1)
    {
      var removable := i > d;
      if !removable {
        var trimmed := lines[i].GetTrimmedLength();
        GrownTrimmedZero(g, cur, d, i);
        removable := trimmed == 0;
      }
      if !removable {
        KeptRows(g, cur, d, i + 1);
        return;
      }
      if i > d {
        BeyondIsDroppable(g, cur, d, i);
      } else {
        EmptyIsDroppable(g, cur, d, i);
      }
      countToRemove := countToRemove + 1;
      i := i - 1;
    }
    KeptRows(g, cur, d, 1);
  }

  lemma {:induction false} CountFacts(g: Grow, cur: seq<Row>, d: nat)
    requires Grown(g, cur, d)
    ensures 2 <= g.n && 0 < |cur| && Droppable(g, |cur|)
  {
    BeyondIsDroppable(g, cur, d, |cur|);
  }

  /** Re-wraps one group of at least two lines at `newCols` columns, in place, and counts the
      trailing lines to remove. */
  method GrowGroup(lines: seq<BufferLine>, oldCols: nat, newCols: nat) returns (countToRemove: nat)
    requires |lines| >= 2 && Separate(lines)
    requires oldCols < newCols && WellFormedGroup(RowsOf(lines), oldCols, newCols)
    modifies set i | 0 <= i < |lines| :: lines[i].data
    ensures countToRemove < |lines|
    ensures TextDefined(old(RowsOf(lines)), oldCols)
    ensures GrownTo(GrowOf(old(RowsOf(lines)), oldCols, newCols), RowsOf(lines), |lines| - countToRemove)
  {
    hide WellFormedGroup, TextDefined, Growing, Grown, GrownTo, Replaced;
    TextIsDefined(RowsOf(lines), oldCols, newCols);
    ghost var g := GrowOf(RowsOf(lines), oldCols, newCols);
    var destLineIndex, destCol; ghost var at;
    destLineIndex, destCol, at := GrowCopy(lines, g, oldCols, newCols);
    FinishGrown(g, RowsOf(lines), at);
    ClearBehind(lines, destLineIndex, destCol, newCols);
    countToRemove := CountRemovable(lines, g, destLineIndex);
  }
}
