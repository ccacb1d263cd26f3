/** What the backward copy of a shrinking group keeps true, on the values of its rows. */
module ShrinkingRows {
  import opened BufferLines
  import opened Wrapping
  import opened GrowingRows

  /** A wide character is never an empty cell. */
  ghost predicate WideFilled(rows: seq<Row>) {
    forall i, x :: 0 <= i < |rows| && 0 <= x < |rows[i]| && rows[i][x].width == 2 ==> rows[i][x].HasContent()
  }

  /** A group being shrunk from `cols` to `n` columns, and the text it spells. */
  datatype Shrink = Shrink(was: seq<Row>, cols: nat, n: nat, text: Row)

  ghost predicate Shrinkable(g: Shrink) {
    && 2 <= g.n < g.cols && WellFormedGroup(g.was, g.cols, g.cols) && WideFilled(g.was)
    && TextDefined(g.was, g.cols) && g.text == Text(g.was, g.cols) && g.text != []
  }

  /** The length of row `j` of the new layout. */
  ghost function NewLength(g: Shrink, j: nat): nat
    requires 2 <= g.n
  {
    |WrappedRow(g.text, g.n, j)|
  }

  /** The line lengths of the new layout, exactly as many as the text needs. */
  ghost predicate LengthsOf(g: Shrink, lengths: seq<nat>)
  {
    && 2 <= g.n
    && (forall j :: 0 <= j < |lengths| ==> 0 < lengths[j] == NewLength(g, j))
    && RowStart(g.text, g.n, |lengths|) == |g.text|
  }

  // ---- computing the lengths ----

  /** While the lengths are computed: `srcCol` cells into row `srcLine` is where row |lengths| of
      the new layout starts. */
  ghost predicate Measuring(g: Shrink, lengths: seq<nat>, srcLine: nat, srcCol: nat, available: nat)
    requires Shrinkable(g)
  {
    && (forall j :: 0 <= j < |lengths| ==> 0 < lengths[j] == NewLength(g, j))
    && available == RowStart(g.text, g.n, |lengths|)
    && srcLine < |g.was| && srcCol <= UsedLength(g.was, srcLine, g.cols)
    && available == Offset(g.was, srcLine, g.cols) + srcCol
  }

  lemma {:induction false} LastOffset(g: Shrink)
    requires Shrinkable(g)
    ensures g.was != [] && Offset(g.was, |g.was| - 1, g.cols) + UsedLength(g.was, |g.was| - 1, g.cols) == |g.text|
  {
    OffsetStep(g.was, |g.was| - 1, g.cols);
  }

  /** Where the last cell of a full new row lies in the old layout. */
  ghost function NextLine(g: Shrink, srcLine: nat, srcCol: nat): (nat, nat)
    requires Shrinkable(g) && srcLine < |g.was|
  {
    var used := UsedLength(g.was, srcLine, g.cols);
    if srcCol + g.n > used then (srcLine + 1, srcCol + g.n - used) else (srcLine, srcCol + g.n)
  }

  lemma {:induction false} NextLineIs(g: Shrink, lengths: seq<nat>, srcLine: nat, srcCol: nat, available: nat)
    requires Shrinkable(g) && Measuring(g, lengths, srcLine, srcCol, available)
    requires |g.text| - available >= g.n
    ensures var (line, col) := NextLine(g, srcLine, srcCol);
            && line < |g.was| && 1 <= col <= UsedLength(g.was, line, g.cols) <= g.cols == |g.was[line]|
            && available + g.n == Offset(g.was, line, g.cols) + col
            && g.was[line][col - 1] == g.text[available + g.n - 1]
  {
    hide RowStart, WideFilled, TextOfFirst, UsedLength, NewLength, TextDefined, Text;
    LastOffset(g);
    OffsetStep(g.was, srcLine, g.cols);
    UsedLengthWithin(g.was, srcLine, g.cols, g.cols);
    var (line, col) := NextLine(g, srcLine, srcCol);
    assert line < |g.was|;
    UsedLengthWithin(g.was, line, g.cols, g.cols);
    if line < |g.was| - 1 {
      assert UsedLength(g.was, line, g.cols) >= g.cols - 1;
    }
    assert WellFormedRow(g.was[line], g.cols, g.cols);
    TextAt(g.was, line, col - 1, g.cols);
  }

  /** A full row of the new layout, one cell shorter when a wide character would straddle. */
  lemma {:induction false} MeasureRow(g: Shrink, lengths: seq<nat>, srcLine: nat, srcCol: nat, available: nat)
    requires Shrinkable(g) && Measuring(g, lengths, srcLine, srcCol, available)
    requires |g.text| - available >= g.n
    ensures var (line, col) := NextLine(g, srcLine, srcCol);
            && line < |g.was| && 1 <= col <= g.cols == |g.was[line]|
            && var cut := if g.was[line][col - 1].width == 2 then 1 else 0;
            Measuring(g, lengths + [g.n - cut], line, col - cut, available + g.n - cut)
  {
    hide RowStart, WideFilled, WellFormedGroup, TextDefined, Text, TextOfFirst, UsedLength, NextLine;
    NextLineIs(g, lengths, srcLine, srcCol, available);
    RowStartNext(g.text, g.n, |lengths|);
  }

  /** The last row of the new layout takes what is left. */
  lemma {:induction false} MeasureLast(g: Shrink, lengths: seq<nat>, srcLine: nat, srcCol: nat, available: nat)
    requires Shrinkable(g) && Measuring(g, lengths, srcLine, srcCol, available)
    requires 0 < |g.text| - available < g.n
    ensures LengthsOf(g, lengths + [|g.text| - available])
  {
    hide RowStart, WideFilled, TextOfFirst, UsedLength, WellFormedGroup, TextDefined, Text;
    RowStartNext(g.text, g.n, |lengths|);
  }

  lemma {:induction false} MeasureStart(g: Shrink)
    requires Shrinkable(g)
    ensures Measuring(g, [], 0, 0, 0)
  {
  }

  // ---- how the two layouts compare ----

  /** Row `j` of the new layout starts no later in the text than row `j` of the old one. */
  lemma {:induction false} NewStartsEarlier(g: Shrink, j: nat)
    requires Shrinkable(g) && j < |g.was|
    ensures RowStart(g.text, g.n, j) <= Offset(g.was, j, g.cols)
  {
    hide WideFilled, TextOfFirst, UsedLength, TextDefined, Text;
    if j > 0 {
      NewStartsEarlier(g, j - 1);
      OffsetStep(g.was, j - 1, g.cols);
      UsedLengthWithin(g.was, j - 1, g.cols, g.cols);
      RowStartNext(g.text, g.n, j - 1);
    }
  }

  lemma {:induction false} RowStartStrict(g: Shrink, lengths: seq<nat>, i: nat, j: nat)
    requires LengthsOf(g, lengths) && i < j <= |lengths|
    ensures RowStart(g.text, g.n, i) < RowStart(g.text, g.n, j)
    decreases j
  {
    assert lengths[j - 1] == NewLength(g, j - 1);
    if i < j - 1 {
      RowStartStrict(g, lengths, i, j - 1);
    }
  }

  /** Before an empty last row stands a full one. */
  lemma {:induction false} FullBeforeEmpty(g: Shrink)
    requires Shrinkable(g) && |g.was| >= 2 && UsedLength(g.was, |g.was| - 1, g.cols) == 0
    ensures UsedLength(g.was, |g.was| - 2, g.cols) == g.cols
  {
    var last := g.was[|g.was| - 1];
    assert WellFormedRow(last, g.cols, g.cols);
    TrimmedLengthIs(last);
    assert !last[0].HasContent();
  }

  /** The new layout has at least as many rows as the old one. */
  lemma {:induction false} NoFewerRows(g: Shrink, lengths: seq<nat>)
    requires Shrinkable(g) && LengthsOf(g, lengths)
    ensures |lengths| >= |g.was|
  {
    hide WideFilled, TextOfFirst, UsedLength, TextDefined, Text, RowStart, WellFormedGroup;
    LastOffset(g);
    var last := |g.was| - 1;
    if |lengths| <= last {
      RowStartMonotone(g.text, g.n, |lengths|, last);
      NewStartsEarlier(g, last);
      if last > 0 {
        FullBeforeEmpty(g);
        NewStartsEarlier(g, last - 1);
        OffsetStep(g.was, last - 1, g.cols);
        RowStartNext(g.text, g.n, last - 1);
      } else {
        StartsAtZero(g);
      }
    }
  }

  lemma {:induction false} StartsAtZero(g: Shrink)
    requires 2 <= g.n
    ensures RowStart(g.text, g.n, 0) == 0
  {
  }

  // ---- the backward copy ----

  /** The group extended by blank rows to the length of its new layout. */
  datatype Layout = Layout(g: Shrink, rows: seq<Row>, lengths: seq<nat>)

  ghost predicate LaidOut(l: Layout) {
    && Shrinkable(l.g) && LengthsOf(l.g, l.lengths)
    && |l.rows| == |l.lengths| >= |l.g.was|
    && l.rows[..|l.g.was|] == l.g.was
    && (forall j :: 0 <= j < |l.rows| ==> |l.rows[j]| == l.g.cols)
    && (forall j :: |l.g.was| <= j < |l.rows| ==> EmptyFrom(l.rows[j], 0))
  }

  /** Where the copy stands, counting rows from one so that zero means none left: column `dc` of
      target row `d - 1`, column `sc` of source row `s - 1`. */
  datatype Back = Back(d: nat, dc: nat, s: nat, sc: nat)

  /** How much of the text is still to be read, or written. */
  ghost function Unread(l: Layout, b: Back): nat
    requires TextDefined(l.g.was, l.g.cols) && b.s <= |l.g.was|
  {
    if b.s == 0 then 0 else Offset(l.g.was, b.s - 1, l.g.cols) + b.sc
  }

  ghost function Unwritten(l: Layout, b: Back): nat
    requires 2 <= l.g.n
  {
    if b.d == 0 then 0 else RowStart(l.g.text, l.g.n, b.d - 1) + b.dc
  }

  ghost predicate BackReading(l: Layout, b: Back)
    requires LaidOut(l)
  {
    && b.s <= |l.g.was|
    && b.d <= |l.lengths| && (b.d > 0 ==> 0 < b.dc <= l.lengths[b.d - 1])
    && (b.s > 0 ==> b.sc <= UsedLength(l.g.was, b.s - 1, l.g.cols))
    && (b.s > 0 && b.sc == 0 ==> b.s == |l.g.was| && UsedLength(l.g.was, b.s - 1, l.g.cols) == 0)
    && Unread(l, b) == Unwritten(l, b)
  }

  /** Cells [from, to) of row `j` hold their part of the text. */
  ghost predicate RowWritten(g: Shrink, row: Row, j: nat, from: nat, to: nat) {
    && 2 <= g.n && to <= |row| && RowStart(g.text, g.n, j) + to <= |g.text|
    && forall x :: from <= x < to ==> row[x] == g.text[RowStart(g.text, g.n, j) + x]
  }

  ghost predicate SameOutside(row: Row, was: Row, from: nat, to: nat) {
    |row| == |was| && forall x :: 0 <= x < |row| && !(from <= x < to) ==> row[x] == was[x]
  }

  /** Row `j` once column `from` and everything behind it is written, and nothing else touched. */
  ghost predicate RowDone(l: Layout, row: Row, j: nat, from: nat)
    requires j < |l.lengths| && j < |l.rows|
  {
    RowWritten(l.g, row, j, from, l.lengths[j]) && SameOutside(row, l.rows[j], from, l.lengths[j])
  }

  ghost predicate BackWritten(l: Layout, cur: seq<Row>, b: Back) {
    && |cur| == |l.rows| == |l.lengths| && b.d <= |cur|
    && (forall j :: b.d <= j < |cur| ==> RowDone(l, cur[j], j, 0))
    && (b.d > 0 ==> RowDone(l, cur[b.d - 1], b.d - 1, b.dc))
    && (forall j :: 0 <= j < b.d - 1 ==> cur[j] == l.rows[j])
  }

  ghost predicate Copying(l: Layout, cur: seq<Row>, b: Back) {
    LaidOut(l) && BackReading(l, b) && BackWritten(l, cur, b)
  }

  lemma {:induction false} LengthIs(g: Shrink, lengths: seq<nat>, j: nat)
    requires LengthsOf(g, lengths) && j < |lengths|
    ensures 0 < lengths[j] <= g.n && RowStart(g.text, g.n, j + 1) == RowStart(g.text, g.n, j) + lengths[j]
  {
    RowStartMonotone(g.text, g.n, j, j + 1);
    hide RowStart;
  }

  /** Reading stays ahead of writing. */
  lemma {:induction false} ReadStaysAhead(l: Layout, b: Back)
    requires LaidOut(l) && BackReading(l, b) && b.s > 0
    ensures b.d >= b.s && (b.d == b.s ==> b.dc >= b.sc)
  {
    hide WideFilled, TextOfFirst, UsedLength, TextDefined, Text, WellFormedGroup, RowStart, NewLength;
    NewStartsEarlier(l.g, b.s - 1);
    if b.d > 0 {
      LengthIs(l.g, l.lengths, b.d - 1);
    }
    if b.d < b.s {
      RowStartMonotone(l.g.text, l.g.n, b.d, b.s - 1);
      if b.sc == 0 {
        LastOffset(l.g);
        RowStartStrict(l.g, l.lengths, b.d, |l.lengths|);
      }
    }
  }

  lemma {:induction false} CopyingStarts(l: Layout)
    requires LaidOut(l)
    ensures |l.lengths| > 0 && |l.g.was| > 0
    ensures Copying(l, l.rows, Back(|l.rows|, l.lengths[|l.lengths| - 1], |l.g.was|,
                                    UsedLength(l.g.was, |l.g.was| - 1, l.g.cols)))
  {
    hide WideFilled, TextOfFirst, UsedLength, TextDefined, Text, WellFormedGroup, RowStart, NewLength;
    StartsAtZero(l.g);
    LastOffset(l.g);
    LengthIs(l.g, l.lengths, |l.lengths| - 1);
    hide LengthsOf;
  }

  /** What a round copies, and how it leaves off. */
  ghost function Smaller(a: nat, b: nat): nat {
    if a <= b then a else b
  }

  lemma {:induction false} BackReadCell(l: Layout, cur: seq<Row>, b: Back, x: nat)
    requires Copying(l, cur, b) && b.s > 0 && x < b.sc
    ensures b.s - 1 < |cur| && x < |cur[b.s - 1]| && Offset(l.g.was, b.s - 1, l.g.cols) + x < |l.g.text|
    ensures cur[b.s - 1][x] == l.g.text[Offset(l.g.was, b.s - 1, l.g.cols) + x]
  {
    hide WideFilled, TextOfFirst, UsedLength, TextDefined, RowStart, NewLength, LengthsOf;
    ReadStaysAhead(l, b);
    UsedLengthWithin(l.g.was, b.s - 1, l.g.cols, l.g.cols);
    TextAt(l.g.was, b.s - 1, x, l.g.cols);
    assert l.rows[b.s - 1] == l.rows[..|l.g.was|][b.s - 1];
  }

  /** Copying `cells` extends what is done of the target row to the left. */
  lemma {:induction false} BlitRowDone(l: Layout, row: Row, j: nat, dc: nat, cells: Row)
    requires j < |l.lengths| && j < |l.rows| && |cells| <= dc <= l.lengths[j] && RowDone(l, row, j, dc)
    requires var to := RowStart(l.g.text, l.g.n, j) + dc; cells == l.g.text[to - |cells|..to]
    ensures RowDone(l, Blit(row, dc - |cells|, cells), j, dc - |cells|)
  {
    hide RowStart;
    var start := RowStart(l.g.text, l.g.n, j);
    var row' := Blit(row, dc - |cells|, cells);
    forall x | dc - |cells| <= x < l.lengths[j] ensures row'[x] == l.g.text[start + x] {
      if x < dc {
        assert row'[x] == cells[x - (dc - |cells|)];
      }
    }
  }

  lemma {:induction false} UntouchedRowDone(l: Layout, j: nat)
    requires LaidOut(l) && j < |l.rows|
    ensures RowDone(l, l.rows[j], j, l.lengths[j])
  {
    hide Shrinkable, RowStart, NewLength;
    LengthIs(l.g, l.lengths, j);
    assert l.g.n < l.g.cols by {
      LaidOutFacts(l);
    }
  }

  lemma {:induction false} LaidOutFacts(l: Layout)
    requires LaidOut(l)
    ensures 2 <= l.g.n < l.g.cols && TextDefined(l.g.was, l.g.cols) && |l.g.was| > 0
    ensures forall j :: 0 <= j < |l.lengths| ==> 0 < l.lengths[j] <= l.g.n
  {
    forall j | 0 <= j < |l.lengths| ensures 0 < l.lengths[j] <= l.g.n {
      LengthIs(l.g, l.lengths, j);
    }
  }

  /** Where a round that copies `k` cells leaves off. */
  ghost function AfterBack(l: Layout, b: Back, k: nat): Back
    requires TextDefined(l.g.was, l.g.cols)
    requires 0 < b.d <= |l.lengths| && 0 < b.s <= |l.g.was| && k <= b.dc && k <= b.sc
  {
    var (d, dc) := if k < b.dc then (b.d, b.dc - k) else (b.d - 1, if b.d - 1 > 0 then l.lengths[b.d - 2] else 0);
    var (s, sc) := if k < b.sc then (b.s, b.sc - k)
                   else (b.s - 1, if b.s - 1 > 0 then UsedLength(l.g.was, b.s - 2, l.g.cols) else 0);
    Back(d, dc, s, sc)
  }

  lemma {:induction false} AfterBackReading(l: Layout, b: Back, k: nat)
    requires LaidOut(l) && BackReading(l, b) && b.s > 0 && b.d > 0 && k == Smaller(b.sc, b.dc)
    ensures TextDefined(l.g.was, l.g.cols) && BackReading(l, AfterBack(l, b, k))
  {
    hide WideFilled, TextOfFirst, UsedLength, TextDefined, Text, RowStart, NewLength, WellFormedGroup;
    LaidOutFacts(l);
    StartsAtZero(l.g);
    if b.d > 1 {
      LengthIs(l.g, l.lengths, b.d - 2);
    }
    if b.s > 1 {
      OffsetStep(l.g.was, b.s - 2, l.g.cols);
      MiddleRowUsed(l.g, b.s - 2);
    }
    OffsetStart(l.g);
  }

  lemma {:induction false} MiddleRowUsed(g: Shrink, i: nat)
    requires Shrinkable(g) && i < |g.was| - 1
    ensures UsedLength(g.was, i, g.cols) > 0
  {
    UsedLengthWithin(g.was, i, g.cols, g.cols);
  }

  lemma {:induction false} OffsetStart(g: Shrink)
    requires TextDefined(g.was, g.cols)
    ensures Offset(g.was, 0, g.cols) == 0
  {
  }

  lemma {:induction false} AfterBackWritten(l: Layout, cur: seq<Row>, b: Back, k: nat, cells: Row, b': Back)
    requires LaidOut(l) && BackWritten(l, cur, b) && b.d > 0 && |cells| == k <= b.dc <= l.lengths[b.d - 1]
    requires Unwritten(l, b) <= |l.g.text| && cells == l.g.text[Unwritten(l, b) - k..Unwritten(l, b)]
    requires b'.d == if k < b.dc then b.d else b.d - 1
    requires if k < b.dc then b'.dc == b.dc - k else b'.d > 0 ==> b'.dc == l.lengths[b'.d - 1]
    ensures b.d - 1 < |cur| && b.dc <= |cur[b.d - 1]|
    ensures BackWritten(l, cur[b.d - 1 := Blit(cur[b.d - 1], b.dc - k, cells)], b')
  {
    hide Shrinkable, RowStart, NewLength, Blit;
    assert b.dc <= |cur[b.d - 1]|;
    BlitRowDone(l, cur[b.d - 1], b.d - 1, b.dc, cells);
    if k == b.dc && b'.d > 0 {
      UntouchedRowDone(l, b'.d - 1);
    }
    hide RowDone;
  }

  /** The stretch of a row about to be copied is the last unwritten stretch of the text. */
  lemma {:induction false} BackRead(l: Layout, cur: seq<Row>, b: Back, k: nat)
    requires Copying(l, cur, b) && b.s > 0 && b.d > 0 && k <= b.sc && k <= b.dc
    ensures b.s - 1 < |cur| && b.sc <= |cur[b.s - 1]|
    ensures k <= Unwritten(l, b) <= |l.g.text|
    ensures cur[b.s - 1][b.sc - k..b.sc] == l.g.text[Unwritten(l, b) - k..Unwritten(l, b)]
  {
    hide WideFilled, TextOfFirst, UsedLength, TextDefined, RowStart, NewLength, LengthsOf, Text, WellFormedGroup,
         RowDone;
    BackReadFits(l, cur, b);
    var to := Unwritten(l, b);
    var read, next := cur[b.s - 1][b.sc - k..b.sc], l.g.text[to - k..to];
    forall x | 0 <= x < k ensures read[x] == next[x] {
      BackReadCell(l, cur, b, b.sc - k + x);
    }
  }

  lemma {:induction false} BackReadFits(l: Layout, cur: seq<Row>, b: Back)
    requires Copying(l, cur, b) && b.s > 0
    ensures b.s - 1 < |cur| && b.sc <= |cur[b.s - 1]| && Unread(l, b) == Unwritten(l, b) <= |l.g.text|
    ensures b.d >= b.s && b.d <= |cur| && (b.d == b.s ==> b.dc >= b.sc)
  {
    hide WideFilled, TextOfFirst, UsedLength, RowStart, NewLength, LengthsOf, RowWritten;
    ReadStaysAhead(l, b);
    UsedLengthWithin(l.g.was, b.s - 1, l.g.cols, l.g.cols);
    OffsetStep(l.g.was, b.s - 1, l.g.cols);
    OffsetMonotone(l.g.was, b.s, |l.g.was|, l.g.cols);
  }

  /** One round of the backward copy. */
  lemma {:induction false} BackRound(l: Layout, cur: seq<Row>, b: Back, k: nat)
    requires Copying(l, cur, b) && b.s > 0 && k == Smaller(b.sc, b.dc)
    ensures TextDefined(l.g.was, l.g.cols) && b.s <= |l.g.was|
    ensures b.s - 1 < |cur| && b.sc <= |cur[b.s - 1]| && 0 < b.d <= |cur| && b.dc <= |cur[b.d - 1]| &&
            b.d <= |l.lengths|
    ensures Copying(l, cur[b.d - 1 := Blit(cur[b.d - 1], b.dc - k, cur[b.s - 1][b.sc - k..b.sc])], AfterBack(l, b, k))
  {
    hide LaidOut, BackReading, BackWritten, Blit, Unwritten, Unread, TextDefined, UsedLength;
    BackRoundFacts(l, cur, b);
    AfterBackReading(l, b, k);
    BackRead(l, cur, b, k);
    AfterBackWritten(l, cur, b, k, cur[b.s - 1][b.sc - k..b.sc], AfterBack(l, b, k));
  }

  lemma {:induction false} BackRoundFacts(l: Layout, cur: seq<Row>, b: Back)
    requires Copying(l, cur, b) && b.s > 0
    ensures b.d <= |l.lengths| && b.s <= |l.g.was| && TextDefined(l.g.was, l.g.cols)
    ensures 0 < b.d <= |cur| && b.dc <= l.lengths[b.d - 1]
    ensures 2 <= l.g.n
    ensures |cur| == |l.lengths| == |l.rows|
  {
    hide TextDefined, RowStart, NewLength, UsedLength, RowDone, WideFilled, WellFormedGroup, TextOfFirst, Text;
    ReadStaysAhead(l, b);
  }

  // ---- the lengths the loop reads ----

  lemma {:induction false} BackLayout(l: Layout, cur: seq<Row>, b: Back, j: nat)
    requires Copying(l, cur, b) && j < |cur|
    ensures 2 <= l.g.n < l.g.cols == |cur[j]| && |cur| == |l.rows| >= |l.g.was|
    ensures j < |l.g.was| ==> l.rows[j] == l.g.was[j]
    ensures cur[j][l.g.cols - 1] == l.rows[j][l.g.cols - 1]
  {
    hide WideFilled, RowStart, NewLength, UsedLength, RowWritten, BackReading, WellFormedGroup, TextOfFirst;
    LaidOutFacts(l);
    if j < |l.g.was| {
      assert l.rows[j] == l.rows[..|l.g.was|][j];
    }
    if j >= b.d {
      assert RowDone(l, cur[j], j, 0);
    }
  }

  /** When a source row is used up, the first cell of the one behind it still reads as it did. */
  lemma {:induction false} FirstCellReads(l: Layout, cur: seq<Row>, b: Back)
    requires Copying(l, cur, b) && 0 < b.s < |l.g.was| && b.sc == UsedLength(l.g.was, b.s - 1, l.g.cols)
    ensures b.s < |cur| && 0 < |cur[b.s]| && 0 < |l.g.was[b.s]| && cur[b.s][0] == l.g.was[b.s][0]
  {
    hide Shrinkable, NewLength, UsedLength, TextOfFirst, RowStart, Unread, Unwritten;
    CopyingDefined(l, cur, b);
    BackReadFits(l, cur, b);
    BackLayout(l, cur, b, b.s);
    if b.d == b.s {
      FirstCellIsText(l, b);
      assert RowDone(l, cur[b.s], b.s, 0);
    }
  }

  lemma {:induction false} FirstCellIsText(l: Layout, b: Back)
    requires LaidOut(l) && BackReading(l, b) && 0 < b.s < |l.g.was| && b.d == b.s
    requires b.sc == UsedLength(l.g.was, b.s - 1, l.g.cols)
    ensures RowStart(l.g.text, l.g.n, b.s) < |l.g.text| && 0 < |l.g.was[b.s]|
    ensures l.g.text[RowStart(l.g.text, l.g.n, b.s)] == l.g.was[b.s][0]
  {
    hide WideFilled, UsedLength, TextOfFirst, RowStart, NewLength;
    LengthIs(l.g, l.lengths, b.d - 1);
    NewStartsEarlier(l.g, b.s);
    OffsetStep(l.g.was, b.s - 1, l.g.cols);
    RowStartStrict(l.g, l.lengths, b.s, |l.lengths|);
    LastOffset(l.g);
    OffsetStep(l.g.was, b.s, l.g.cols);
    if b.s < |l.g.was| - 1 {
      MiddleRowUsed(l.g, b.s);
    }
    TextAt(l.g.was, b.s, 0, l.g.cols);
  }

  /** The loop reads the length of the next source row off the half-rewritten rows; it is the old one. */
  lemma {:induction false} BackUsedLength(l: Layout, cur: seq<Row>, b: Back)
    requires Copying(l, cur, b) && 0 < b.s < |l.g.was| && b.sc == UsedLength(l.g.was, b.s - 1, l.g.cols)
    ensures 0 < l.g.cols && forall k :: 0 <= k < |cur| ==> |cur[k]| == l.g.cols
    ensures b.s < |cur| && UsedLength(cur, b.s - 1, l.g.cols) == UsedLength(l.g.was, b.s - 1, l.g.cols)
  {
    hide Copying;
    BackCols(l, cur, b);
    FirstCellReads(l, cur, b);
    BackLayout(l, cur, b, b.s - 1);
    CopyingDefined(l, cur, b);
  }

  lemma {:induction false} CopyingDefined(l: Layout, cur: seq<Row>, b: Back)
    requires Copying(l, cur, b)
    ensures TextDefined(l.g.was, l.g.cols) && |l.g.was| <= |cur| == |l.lengths| && b.s <= |l.g.was|
    ensures BackReading(l, b)
  {
    hide TextDefined;
  }

  lemma {:induction false} BackCols(l: Layout, cur: seq<Row>, b: Back)
    requires Copying(l, cur, b)
    ensures 2 <= l.g.n < l.g.cols && forall k :: 0 <= k < |cur| ==> |cur[k]| == l.g.cols
  {
    hide Copying;
    forall k | 0 <= k < |cur| ensures |cur[k]| == l.g.cols {
      BackLayout(l, cur, b, k);
    }
    CopyingBounds(l, cur, b);
  }

  lemma {:induction false} CopyingBounds(l: Layout, cur: seq<Row>, b: Back)
    requires Copying(l, cur, b)
    ensures 2 <= l.g.n < l.g.cols && |cur| == |l.rows|
  {
  }

  // ---- the end of the copy ----

  /** Every row starts with exactly its stretch of the text and is empty behind it. */
  ghost predicate ShrunkTo(g: Shrink, cur: seq<Row>, lengths: seq<nat>) {
    && LengthsOf(g, lengths) && |cur| == |lengths|
    && forall j :: 0 <= j < |cur| ==> ShrunkRow(g, cur[j], j)
  }

  ghost predicate ShrunkRow(g: Shrink, row: Row, j: nat)
    requires 2 <= g.n
  {
    && |row| == g.cols && g.n <= g.cols
    && WrappedRow(g.text, g.n, j) <= row
    && EmptyFrom(row[..g.n], NewLength(g, j))
    && (NewLength(g, j) < g.n ==> row[NewLength(g, j)] == NULL_CELL)
  }

  ghost function NulledRow(row: Row, length: nat, n: nat): Row
    requires n <= |row|
  {
    if length < n then row[length := NULL_CELL] else row
  }

  /** What stands behind the text of the last row was empty before, or is blank. */
  lemma {:induction false} TailIsEmpty(l: Layout, j: nat)
    requires LaidOut(l) && j < |l.rows| && l.lengths[j] + 1 < l.g.n
    ensures EmptyFrom(l.rows[j], l.lengths[j])
  {
    hide WideFilled, TextOfFirst, TextDefined, Text, RowStart;
    RowStartNext(l.g.text, l.g.n, j);
    LengthIs(l.g, l.lengths, j);
    assert RowStart(l.g.text, l.g.n, j + 1) == |l.g.text|;
    assert j + 1 == |l.lengths| by {
      if j + 1 < |l.lengths| {
        RowStartStrict(l.g, l.lengths, j + 1, |l.lengths|);
      }
    }
    if j < |l.g.was| {
      LastOffset(l.g);
      NewStartsEarlier(l.g, j);
      assert l.rows[j] == l.rows[..|l.g.was|][j];
      assert WellFormedRow(l.g.was[j], l.g.cols, l.g.cols);
      TrimmedWithin(l.g.was[j], l.g.cols, l.g.cols);
    }
  }

  lemma {:induction false} NulledRowFacts(l: Layout, row: Row, j: nat)
    requires LaidOut(l) && j < |l.rows| && RowDone(l, row, j, 0)
    ensures j < |l.lengths| && 2 <= l.g.n <= l.g.cols == |row| && 0 < l.lengths[j] == NewLength(l.g, j) <= l.g.n
    ensures RowStart(l.g.text, l.g.n, j + 1) == RowStart(l.g.text, l.g.n, j) + l.lengths[j]
    ensures l.lengths[j] + 1 < l.g.n ==> EmptyFrom(row, l.lengths[j])
  {
    hide WideFilled, RowStart, WrappedRow, WellFormedGroup, TextDefined, TextOfFirst;
    LaidOutFacts(l);
    LengthIs(l.g, l.lengths, j);
    if l.lengths[j] + 1 < l.g.n {
      TailIsEmpty(l, j);
    }
  }

  lemma {:induction false} NulledRowIsShrunk(l: Layout, row: Row, j: nat)
    requires LaidOut(l) && j < |l.rows| && RowDone(l, row, j, 0)
    ensures l.g.n <= |row| && ShrunkRow(l.g, NulledRow(row, l.lengths[j], l.g.n), j)
  {
    hide LaidOut, RowStart, SameOutside;
    NulledRowFacts(l, row, j);
    var row' := NulledRow(row, l.lengths[j], l.g.n);
    assert WrappedRow(l.g.text, l.g.n, j) == row'[..l.lengths[j]];
  }
}
