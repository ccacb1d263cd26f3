/** What the in-place forward copy of a growing group keeps true, on the values of its rows. */
module GrowingRows {
  import opened BufferLines
  import opened Wrapping

  ghost function Offset(rows: seq<Row>, k: nat, cols: nat): nat
    requires TextDefined(rows, cols) && k <= |rows|
  {
    |TextOfFirst(rows, k, cols)|
  }

  lemma {:induction false} OffsetStep(rows: seq<Row>, k: nat, cols: nat)
    requires TextDefined(rows, cols) && k < |rows|
    ensures Offset(rows, k + 1, cols) == Offset(rows, k, cols) + UsedLength(rows, k, cols)
  {
  }

  lemma {:induction false} OffsetMonotone(rows: seq<Row>, i: nat, j: nat, cols: nat)
    requires TextDefined(rows, cols) && i <= j <= |rows|
    ensures Offset(rows, i, cols) <= Offset(rows, j, cols)
    ensures TextOfFirst(rows, i, cols) == TextOfFirst(rows, j, cols)[..Offset(rows, i, cols)]
    decreases j
  {
    hide UsedLength;
    if i < j {
      OffsetMonotone(rows, i, j - 1, cols);
      OffsetStep(rows, j - 1, cols);
    }
  }

  /** Where a cell of a row stands in the text. */
  lemma {:induction false} TextAt(rows: seq<Row>, k: nat, x: nat, cols: nat)
    requires TextDefined(rows, cols) && k < |rows| && x < UsedLength(rows, k, cols)
    ensures Offset(rows, k, cols) + x < |Text(rows, cols)|
    ensures Text(rows, cols)[Offset(rows, k, cols) + x] == rows[k][x]
  {
    OffsetStep(rows, k, cols);
    OffsetMonotone(rows, k + 1, |rows|, cols);
    var upTo := TextOfFirst(rows, k + 1, cols);
    assert upTo[Offset(rows, k, cols) + x] == rows[k][x];
    assert Text(rows, cols)[..|upTo|][Offset(rows, k, cols) + x] == upTo[Offset(rows, k, cols) + x];
  }

  lemma {:induction false} TrimmedAt(row: Row, i: nat)
    requires i < |row| && row[i].HasContent() && EmptyFrom(row, i + 1)
    ensures TrimmedLength(row) == i + row[i].width
  {
    if i < |row| - 1 {
      TrimmedAt(row[..|row| - 1], i);
    }
  }

  // ---- the state of the copy ----

  /** A group being grown from `cols` to `n` columns, and the text it spells. */
  datatype Grow = Grow(was: seq<Row>, cols: nat, n: nat, text: Row)

  ghost predicate Growable(g: Grow) {
    && g.cols < g.n && WellFormedGroup(g.was, g.cols, g.n)
    && TextDefined(g.was, g.cols) && g.text == Text(g.was, g.cols)
  }

  /** Where the copy stands: it reads next at column `srcCol` of row `s`, and has written `c` cells
      of row `d`, which holds the text from `start` on. */
  datatype At = At(d: nat, c: nat, start: nat, s: nat, srcCol: nat)

  ghost predicate Reading(g: Grow, at: At)
    requires Growable(g)
  {
    && at.s <= |g.was|
    && (at.s == |g.was| ==> at.srcCol == 0)
    && (at.s < |g.was| && at.srcCol > 0 ==> at.srcCol < UsedLength(g.was, at.s, g.cols))
    && Offset(g.was, at.s, g.cols) + at.srcCol == at.start + at.c
  }

  /** Rows before `d` hold their wrapped text, row `d` holds its first `c` cells, and everything
      behind column `c` of row `d` is untouched. */
  ghost predicate Written(g: Grow, cur: seq<Row>, at: At) {
    && |cur| == |g.was| && at.d < |cur| && at.c <= g.n && 2 <= g.n
    && at.start == RowStart(g.text, g.n, at.d)
    && at.start + at.c <= |g.text|
    && (forall j :: 0 <= j < |cur| ==> |cur[j]| == g.n && |g.was[j]| == g.n)
    && (forall j :: 0 <= j < at.d ==> cur[j] == Padded(WrappedRow(g.text, g.n, j), g.n))
    && (forall x :: 0 <= x < at.c ==> cur[at.d][x] == g.text[at.start + x])
    && (forall x :: at.c <= x < g.n ==> cur[at.d][x] == g.was[at.d][x])
    && (forall j :: at.d < j < |cur| ==> cur[j] == g.was[j])
  }

  /** Row `d` of the new layout starts no earlier in the text than row `d` of the old one, and
      strictly later while nothing of it is written: writing never overtakes reading. */
  ghost predicate Behind(g: Grow, at: At)
    requires Growable(g)
  {
    && at.d <= |g.was|
    && Offset(g.was, at.d, g.cols) <= at.start
    && (at.c == 0 ==> Offset(g.was, at.d, g.cols) < at.start)
  }

  ghost predicate Growing(g: Grow, cur: seq<Row>, at: At) {
    Growable(g) && Reading(g, at) && Written(g, cur, at) && Behind(g, at)
  }

  lemma {:induction false} WriteStaysBehindRead(g: Grow, at: At)
    requires Growable(g) && Reading(g, at) && Behind(g, at)
    ensures at.d <= at.s && (at.d == at.s ==> at.c <= at.srcCol) && at.d < |g.was|
  {
    hide TextDefined, TextOfFirst, UsedLength, WellFormedGroup, Text;
    if at.d > at.s {
      OffsetStep(g.was, at.s, g.cols);
      OffsetMonotone(g.was, at.s + 1, at.d, g.cols);
    }
  }

  lemma {:induction false} InitialGrowing(g: Grow)
    requires Growable(g) && |g.was| >= 2
    ensures Growing(g, g.was, At(0, UsedLength(g.was, 0, g.cols), 0, 1, 0))
    ensures UsedLength(g.was, 0, g.cols) < g.n
  {
    UsedLengthWithin(g.was, 0, g.cols, g.n);
    OffsetStep(g.was, 0, g.cols);
    OffsetMonotone(g.was, 1, |g.was|, g.cols);
    forall j | 0 <= j < |g.was| ensures |g.was[j]| == g.n {
      assert WellFormedRow(g.was[j], g.cols, g.n);
    }
    forall x | 0 <= x < UsedLength(g.was, 0, g.cols) ensures g.was[0][x] == g.text[x] {
      TextAt(g.was, 0, x, g.cols);
    }
  }

  /** A row's length survives rewriting cells short of its end, the last of them with itself. */
  lemma {:induction false} TrimmedSame(row: Row, row': Row, c: nat)
    requires FilledHasWidth(row) && |row| == |row'|
    requires c == 0 || c < TrimmedLength(row)
    requires forall x :: 0 <= x < |row| && c <= x + 1 ==> row'[x] == row[x]
    ensures TrimmedLength(row') == TrimmedLength(row)
  {
    if c == 0 {
      assert row' == row;
    } else {
      TrimmedLengthIs(row);
      var i :| 0 <= i < |row| && row[i].HasContent() && EmptyFrom(row, i + 1) && TrimmedLength(row) == i + row[i].width;
      TrimmedAt(row', i);
    }
  }

  /** The last row's length survives the writes made in front of the read position. */
  lemma {:induction false} TrimmedUnchanged(g: Grow, cur: seq<Row>, at: At)
    requires Growing(g, cur, at) && at.s == at.d == |g.was| - 1 && at.c <= at.srcCol
    ensures TrimmedLength(cur[at.s]) == TrimmedLength(g.was[at.s])
  {
    assert WellFormedRow(g.was[at.s], g.cols, g.n);
    if 0 < at.c == at.srcCol {
      TextAt(g.was, at.s, at.c - 1, g.cols);
    }
    hide WellFormedGroup, TextDefined, TextOfFirst, Text, RowStart, Padded, WrappedRow, TrimmedLength;
    TrimmedSame(g.was[at.s], cur[at.s], if at.c == at.srcCol then at.c else at.c + 1);
  }

  /** The lengths the loop reads off the half-rewritten rows are those of the old rows. */
  lemma {:induction false} UsedLengthUnchanged(g: Grow, cur: seq<Row>, at: At)
    requires Growing(g, cur, at) && at.s < |g.was|
    ensures forall k :: 0 <= k < |cur| ==> g.cols <= |cur[k]|
    ensures UsedLength(cur, at.s, g.cols) == UsedLength(g.was, at.s, g.cols)
  {
    WriteStaysBehindRead(g, at);
    UsedLengthWithin(g.was, at.s, g.cols, g.n);
    if at.s == |g.was| - 1 && at.d == at.s {
      TrimmedUnchanged(g, cur, at);
    }
  }

  // ---- one round of the copy ----

  lemma {:induction false} ReadFits(g: Grow, cur: seq<Row>, at: At, k: nat)
    requires Growing(g, cur, at) && at.s < |g.was| && at.srcCol + k <= UsedLength(g.was, at.s, g.cols)
    ensures at.srcCol + k <= g.n && at.s < |cur| && |cur[at.s]| == g.n
    ensures at.start + at.c + k <= |g.text|
  {
    hide WellFormedGroup, TextDefined, UsedLength, TextOfFirst, RowStart, Padded, WrappedRow;
    UsedLengthWithin(g.was, at.s, g.cols, g.n);
    OffsetStep(g.was, at.s, g.cols);
    OffsetMonotone(g.was, at.s + 1, |g.was|, g.cols);
  }

  lemma {:induction false} ReadCell(g: Grow, cur: seq<Row>, at: At, x: nat)
    requires Growing(g, cur, at) && at.s < |g.was| && at.srcCol <= x < UsedLength(g.was, at.s, g.cols)
    ensures x < g.n && |cur[at.s]| == g.n && at.start + at.c + (x - at.srcCol) < |g.text|
    ensures cur[at.s][x] == g.text[at.start + at.c + (x - at.srcCol)]
  {
    hide WellFormedGroup, TextDefined, UsedLength, TextOfFirst, RowStart, Padded, WrappedRow;
    ReadFits(g, cur, at, x - at.srcCol + 1);
    WriteStaysBehindRead(g, at);
    TextAt(g.was, at.s, x, g.cols);
  }

  /** The stretch of a row about to be copied is the next stretch of the text. */
  lemma {:induction false} ReadIsText(g: Grow, cur: seq<Row>, at: At, k: nat)
    requires Growing(g, cur, at) && at.s < |g.was| && at.srcCol + k <= UsedLength(g.was, at.s, g.cols)
    ensures at.srcCol + k <= g.n && |cur[at.s]| == g.n
    ensures at.start + at.c + k <= |g.text|
    ensures cur[at.s][at.srcCol..at.srcCol + k] == g.text[at.start + at.c..at.start + at.c + k]
  {
    hide Written, Reading, Behind, UsedLength, WellFormedGroup, TextDefined, TextOfFirst, Text;
    ReadFits(g, cur, at, k);
    var read, next := cur[at.s][at.srcCol..at.srcCol + k], g.text[at.start + at.c..at.start + at.c + k];
    forall i | 0 <= i < k ensures read[i] == next[i] {
      ReadCell(g, cur, at, at.srcCol + i);
    }
  }

  lemma {:induction false} CopyKeepsWritten(g: Grow, cur: seq<Row>, at: At, cells: Row, at': At)
    requires Written(g, cur, at) && at.c + |cells| <= g.n
    requires at.start + at.c + |cells| <= |g.text|
    requires cells == g.text[at.start + at.c..at.start + at.c + |cells|]
    requires at'.d == at.d && at'.c == at.c + |cells| && at'.start == at.start
    ensures Written(g, cur[at.d := Blit(cur[at.d], at.c, cells)], at')
  {
    hide RowStart, Padded, WrappedRow;
  }

  ghost function AfterCopy(g: Grow, at: At, k: nat): At
    requires at.s < |g.was| && TextDefined(g.was, g.cols)
  {
    if at.srcCol + k == UsedLength(g.was, at.s, g.cols) then At(at.d, at.c + k, at.start, at.s + 1, 0)
    else At(at.d, at.c + k, at.start, at.s, at.srcCol + k)
  }

  lemma {:induction false} CopyKeepsBehind(g: Grow, cur: seq<Row>, at: At, k: nat)
    requires Growing(g, cur, at) && at.s < |g.was| && at.srcCol + k <= UsedLength(g.was, at.s, g.cols)
    ensures Reading(g, AfterCopy(g, at, k)) && Behind(g, AfterCopy(g, at, k))
  {
    hide Written, WellFormedGroup, TextDefined, UsedLength, TextOfFirst, Text;
    OffsetStep(g.was, at.s, g.cols);
  }

  lemma {:induction false} CopyKeepsGrowing(g: Grow, cur: seq<Row>, at: At, k: nat)
    requires Growing(g, cur, at) && at.s < |g.was|
    requires at.c + k <= g.n && at.srcCol + k <= UsedLength(g.was, at.s, g.cols)
    ensures at.srcCol + k <= g.n && |cur[at.s]| == g.n
    ensures Growing(g, cur[at.d := Blit(cur[at.d], at.c, cur[at.s][at.srcCol..at.srcCol + k])], AfterCopy(g, at, k))
  {
    hide WellFormedGroup, TextDefined, UsedLength, TextOfFirst, RowStart, Padded, WrappedRow, Reading, Behind;
    ReadIsText(g, cur, at, k);
    CopyKeepsBehind(g, cur, at, k);
    CopyKeepsWritten(g, cur, at, cur[at.s][at.srcCol..at.srcCol + k], AfterCopy(g, at, k));
  }

  /** Where the write position goes when row `d` is full. */
  ghost function NextAt(g: Grow, at: At, wide: bool): At
    requires at.start + g.n >= 1
  {
    if wide then At(at.d + 1, 1, at.start + g.n - 1, at.s, at.srcCol)
    else At(at.d + 1, 0, at.start + g.n, at.s, at.srcCol)
  }

  lemma {:induction false} FullRowStart(g: Grow, cur: seq<Row>, at: At)
    requires Growing(g, cur, at) && at.c == g.n
    ensures NextAt(g, at, cur[at.d][g.n - 1].width == 2).start == RowStart(g.text, g.n, at.d + 1)
  {
    hide Reading, Behind, Growable, Padded, WrappedRow;
    assert cur[at.d][g.n - 1] == g.text[at.start + g.n - 1];
    assert RowStart(g.text, g.n, at.d + 1) == RowEnd(g.text, g.n, at.start);
  }

  /** There is a next row, and its text starts late enough. */
  lemma {:induction false} FullRowBehind(g: Grow, cur: seq<Row>, at: At, wide: bool)
    requires Growing(g, cur, at) && at.c == g.n
    ensures Reading(g, NextAt(g, at, wide)) && Behind(g, NextAt(g, at, wide)) && at.d + 1 < |g.was|
  {
    hide Written, WellFormedGroup, TextDefined, UsedLength, TextOfFirst, Text;
    WriteStaysBehindRead(g, at);
    UsedLengthWithin(g.was, at.d, g.cols, g.n);
    OffsetStep(g.was, at.d, g.cols);
    WriteStaysBehindRead(g, NextAt(g, at, wide));
  }

  /** The row that filled up holds its wrapped text. */
  lemma {:induction false} FullRowIsWrapped(text: Row, n: nat, d: nat, start: nat, row: Row)
    requires 2 <= n && |row| == n && start == RowStart(text, n, d) && start + n <= |text|
    requires forall x :: 0 <= x < n ==> row[x] == text[start + x]
    ensures row[n - 1].width != 2 ==> row == Padded(WrappedRow(text, n, d), n)
    ensures row[n - 1].width == 2 ==> row[n - 1 := NULL_CELL] == Padded(WrappedRow(text, n, d), n)
  {
    assert RowStart(text, n, d + 1) == RowEnd(text, n, start);
    hide RowStart;
    assert row[n - 1] == text[start + n - 1];
  }

  /** A row has filled up and its last cell is not the first half of a wide character. */
  lemma {:induction false} NextRow(g: Grow, cur: seq<Row>, at: At)
    requires Growing(g, cur, at) && at.c == g.n && cur[at.d][g.n - 1].width != 2
    ensures Growing(g, cur, NextAt(g, at, false))
  {
    hide RowStart, Padded, WrappedRow, Behind, Reading, Growable, Blit, Blank;
    FullRowStart(g, cur, at);
    FullRowBehind(g, cur, at, false);
    FullRowIsWrapped(g.text, g.n, at.d, at.start, cur[at.d]);
  }

  /** A row has filled up with half a wide character at its end: the half moves on. */
  lemma {:induction false} NextRowWide(g: Grow, cur: seq<Row>, at: At)
    requires Growing(g, cur, at) && at.c == g.n && cur[at.d][g.n - 1].width == 2
    ensures at.d + 1 < |cur|
    ensures var moved := cur[at.d + 1 := Blit(cur[at.d + 1], 0, [cur[at.d][g.n - 1]])];
            Growing(g, moved[at.d := cur[at.d][g.n - 1 := NULL_CELL]], NextAt(g, at, true))
  {
    hide RowStart, Padded, WrappedRow, Behind, Reading, Growable;
    FullRowStart(g, cur, at);
    FullRowBehind(g, cur, at, true);
    FullRowIsWrapped(g.text, g.n, at.d, at.start, cur[at.d]);
  }

  // ---- the end of the copy ----

  /** The first `kept` rows hold the group's text greedily wrapped at the new width, and what of
      the text would go to the dropped rows is empty; no kept row but the first is droppable. */
  ghost predicate GrownTo(g: Grow, cur: seq<Row>, kept: nat) {
    && 2 <= g.n && |cur| == |g.was| && 1 <= kept <= |cur|
    && (forall j :: 0 <= j < kept ==> cur[j] == Padded(WrappedRow(g.text, g.n, j), g.n))
    && EmptyFrom(g.text, RowStart(g.text, g.n, kept))
    && (kept > 1 ==> !EmptyFrom(cur[kept - 1], 0))
  }

  /** Clearing behind the last written cell leaves the last row wrapped, too. */
  lemma {:induction false} FinishGrowing(g: Grow, cur: seq<Row>, at: At)
    requires Growing(g, cur, at) && at.s == |g.was| && at.c < g.n
    ensures var last := Replaced(cur[at.d], at.c, g.n, NULL_CELL);
            last == Padded(WrappedRow(g.text, g.n, at.d), g.n)
    ensures RowStart(g.text, g.n, at.d + 1) == |g.text|
  {
    hide WellFormedGroup, TextDefined, TextOfFirst, UsedLength, Behind, Padded, WrappedRow, Replaced, RowStart;
    assert WideWhole(g.text) by {
      TextWideWhole(g.was, |g.was|, g.cols, g.n);
    }
    assert at.start + at.c == |g.text|;
    LastRowIsWrapped(g.text, g.n, at.d, at.start, at.c, cur[at.d]);
  }

  lemma {:induction false} LastRowIsWrapped(text: Row, n: nat, d: nat, start: nat, c: nat, row: Row)
    requires 2 <= n && |row| == n && start == RowStart(text, n, d) && start + c == |text| && c < n
    requires WideWhole(text)
    requires forall x :: 0 <= x < c ==> row[x] == text[start + x]
    ensures Replaced(row, c, n, NULL_CELL) == Padded(WrappedRow(text, n, d), n)
    ensures RowStart(text, n, d + 1) == |text|
  {
    assert RowStart(text, n, d + 1) == RowEnd(text, n, start);
    hide RowStart;
    assert c > 0 ==> row[c - 1] == text[|text| - 1];
  }

  lemma {:induction false} WrappedRowEnd(text: Row, n: nat, j: nat)
    requires 2 <= n
    ensures Padded(WrappedRow(text, n, j), n)[n - 1].width != 2
  {
    var start := RowStart(text, n, j);
    assert RowStart(text, n, j + 1) == RowEnd(text, n, start);
    hide RowStart;
  }

  /** A row without content takes nothing of the text with it. */
  lemma {:induction false} DropEmptyRow(g: Grow, row: Row, j: nat)
    requires 2 <= g.n && row == Padded(WrappedRow(g.text, g.n, j), g.n) && EmptyFrom(row, 0)
    requires EmptyFrom(g.text, RowStart(g.text, g.n, j + 1))
    ensures EmptyFrom(g.text, RowStart(g.text, g.n, j))
  {
    var a, b := RowStart(g.text, g.n, j), RowStart(g.text, g.n, j + 1);
    RowStartMonotone(g.text, g.n, j, j + 1);
    hide RowStart;
    forall k | a <= k < b ensures !g.text[k].HasContent() {
      assert row[k - a] == WrappedRow(g.text, g.n, j)[k - a] == g.text[k];
    }
  }

  /** The copy is complete and the last written row cleared behind its text. */
  ghost predicate Grown(g: Grow, cur: seq<Row>, d: nat) {
    && 2 <= g.n && |cur| == |g.was| && d < |cur|
    && (forall j :: 0 <= j <= d ==> cur[j] == Padded(WrappedRow(g.text, g.n, j), g.n))
    && RowStart(g.text, g.n, d + 1) == |g.text|
    && FilledHasWidth(g.text)
  }

  lemma {:induction false} FinishGrown(g: Grow, cur: seq<Row>, at: At)
    requires Growing(g, cur, at) && at.s == |g.was| && at.c < g.n
    ensures at.d < |cur| && at.c < |cur[at.d]| == g.n
    ensures Grown(g, cur[at.d := Replaced(cur[at.d], at.c, g.n, NULL_CELL)], at.d)
  {
    hide Reading, Behind, RowStart, Padded, WrappedRow, Replaced, TextDefined, WellFormedGroup, TextOfFirst;
    FinishGrowing(g, cur, at);
    TextFilledHasWidth(g.was, |g.was|, g.cols, g.n);
  }

  /** While trailing rows are being counted as removable: rows from `i` on carry no text. */
  ghost predicate Droppable(g: Grow, i: nat)
    requires 2 <= g.n
  {
    EmptyFrom(g.text, RowStart(g.text, g.n, i))
  }

  lemma {:induction false} BeyondIsDroppable(g: Grow, cur: seq<Row>, d: nat, i: nat)
    requires Grown(g, cur, d) && i > d
    ensures Droppable(g, i)
  {
    RowStartMonotone(g.text, g.n, d + 1, i);
  }

  lemma {:induction false} EmptyIsDroppable(g: Grow, cur: seq<Row>, d: nat, i: nat)
    requires Grown(g, cur, d) && i <= d && EmptyFrom(cur[i], 0) && Droppable(g, i + 1)
    ensures Droppable(g, i)
  {
    hide RowStart, Padded, WrappedRow;
    DropEmptyRow(g, cur[i], i);
  }

  lemma {:induction false} KeptRows(g: Grow, cur: seq<Row>, d: nat, kept: nat)
    requires Grown(g, cur, d) && 1 <= kept <= d + 1 && Droppable(g, kept)
    requires kept > 1 ==> !EmptyFrom(cur[kept - 1], 0)
    ensures GrownTo(g, cur, kept)
  {
    hide RowStart, Padded, WrappedRow;
  }

  lemma {:induction false} GrownTrimmedZero(g: Grow, cur: seq<Row>, d: nat, i: nat)
    requires Grown(g, cur, d) && i <= d
    ensures i < |cur| && (TrimmedLength(cur[i]) == 0 <==> EmptyFrom(cur[i], 0))
  {
    assert FilledHasWidth(cur[i]) by {
      assert cur[i] == Padded(WrappedRow(g.text, g.n, i), g.n);
    }
    TrimmedLengthIs(cur[i]);
  }

  // ---- how many rows a text needs ----

  /** The least number of rows, at least one and at most `most`, that hold the filled cells of the text. */
  ghost function Needed(text: Row, n: nat, most: nat): (k: nat)
    requires 2 <= n && most >= 1
    ensures 1 <= k <= most
  {
    if most > 1 && EmptyFrom(text, RowStart(text, n, most - 1)) then Needed(text, n, most - 1) else most
  }

  lemma {:induction false} NeededIs(text: Row, n: nat, most: nat, k: nat)
    requires 2 <= n && 1 <= k <= most && EmptyFrom(text, RowStart(text, n, k))
    requires k > 1 ==> !EmptyFrom(text, RowStart(text, n, k - 1))
    ensures Needed(text, n, most) == k
    decreases most
  {
    hide RowStart;
    if k < most {
      RowStartMonotone(text, n, k, most - 1);
      NeededIs(text, n, most - 1, k);
    }
  }

  /** A group that has grown keeps exactly the rows that its text needs. */
  lemma {:induction false} KeptIsNeeded(g: Grow, cur: seq<Row>, kept: nat)
    requires GrownTo(g, cur, kept)
    ensures kept == Needed(g.text, g.n, |g.was|)
  {
    hide RowStart, WrappedRow;
    if kept > 1 {
      var row := cur[kept - 1];
      var x :| 0 <= x < |row| && row[x].HasContent();
      RowStartMonotone(g.text, g.n, kept - 1, kept);
      FilledIsText(g.text, g.n, kept - 1, x);
    }
    NeededIs(g.text, g.n, |g.was|, kept);
  }

  lemma FilledIsText(text: Row, n: nat, j: nat, x: nat)
    requires 2 <= n && x < n && Padded(WrappedRow(text, n, j), n)[x].HasContent()
    requires RowStart(text, n, j) <= RowStart(text, n, j + 1)
    ensures !EmptyFrom(text, RowStart(text, n, j))
  {
    hide RowStart;
    var row := WrappedRow(text, n, j);
    assert Padded(row, n)[x] == if x < |row| then row[x] else NULL_CELL;
    assert row[x] == text[RowStart(text, n, j) + x];
  }
}
