/** Whether a re-wrapped group still spells its text when it is read back row by row. */
module ReflowText {
  import opened BufferLines
  import opened Wrapping
  import opened GrowingRows
  import opened ShrinkingRows

  /** The cells up to the last filled one. */
  function FilledLength(row: Row): (n: nat)
    ensures n <= |row| && EmptyFrom(row, n)
    ensures n > 0 ==> row[n - 1].HasContent()
  {
    if row == [] then 0
    else if row[|row| - 1].HasContent() then |row|
    else FilledLength(row[..|row| - 1])
  }

  /** A text without the empty cells at its end. */
  function Essential(row: Row): Row {
    row[..FilledLength(row)]
  }

  lemma FilledLengthIs(row: Row, n: nat)
    requires n <= |row| && EmptyFrom(row, n) && (n > 0 ==> row[n - 1].HasContent())
    ensures FilledLength(row) == n
  {
    var m := FilledLength(row);
    assert m > 0 ==> row[m - 1].HasContent();
  }

  // ---- rows that hold a wrapped text ----

  /** A row starts with its stretch of the text and is empty behind it. */
  ghost predicate LaidRow(text: Row, n: nat, row: Row, j: nat)
    requires 2 <= n
  {
    var len := |WrappedRow(text, n, j)|;
    && |row| == n && WrappedRow(text, n, j) <= row && EmptyFrom(row, len)
    && (len < n ==> row[len].width == 1)
  }

  ghost predicate AllWideFilled(cells: Row) {
    forall k :: 0 <= k < |cells| && cells[k].width == 2 ==> cells[k].HasContent()
  }

  /** Wide characters are whole and filled, and every filled cell has a width. */
  ghost predicate Spelled(text: Row) {
    WideWhole(text) && FilledHasWidth(text) && AllWideFilled(text)
  }

  /** The rows hold the whole text, wrapped at `n` columns. */
  ghost predicate Laid(text: Row, n: nat, rows: seq<Row>) {
    && 2 <= n && rows != [] && Spelled(text)
    && (forall j :: 0 <= j < |rows| ==> LaidRow(text, n, rows[j], j))
    && EmptyFrom(text, RowStart(text, n, |rows|))
  }

  /** Row `j` is full, ends in an empty cell, and a wide character follows: the empty cell looks like
      the one that pads a row when a wide character does not fit. */
  ghost predicate LooksPadded(text: Row, n: nat, j: nat)
    requires 2 <= n
  {
    var end := RowStart(text, n, j + 1);
    && 0 < end < |text| && end == RowStart(text, n, j) + n
    && !text[end - 1].HasContent() && text[end - 1].width == 1 && text[end].width == 2
  }

  lemma {:induction false} LaidRowLength(text: Row, n: nat, row: Row, j: nat)
    requires 2 <= n && Spelled(text) && LaidRow(text, n, row, j)
    ensures TrimmedLength(row) <= n && EmptyFrom(row, TrimmedLength(row)) && FilledHasWidth(row)
  {
    hide TrimmedLength, RowStart, WrappedRow;
    WrapNeverSplitsWide(text, n, j);
    var wrapped := WrappedRow(text, n, j);
    forall k | 0 <= k < |row| && row[k].HasContent()
      ensures 1 <= row[k].width <= 2 && k + row[k].width <= n
    {
      LaidCell(text, n, row, j, k);
    }
    TrimmedLengthIs(row);
  }

  lemma LaidCell(text: Row, n: nat, row: Row, j: nat, k: nat)
    requires 2 <= n && Spelled(text) && LaidRow(text, n, row, j) && WideWhole(WrappedRow(text, n, j))
    requires k < |row| && row[k].HasContent()
    ensures 1 <= row[k].width <= 2 && k + row[k].width <= n
  {
    var wrapped := WrappedRow(text, n, j);
    assert k < |wrapped| && row[k] == wrapped[k];
  }

  lemma {:induction false} LaidIsDefined(text: Row, n: nat, rows: seq<Row>)
    requires Laid(text, n, rows)
    ensures TextDefined(rows, n)
  {
    hide TrimmedLength, Spelled, RowStart;
    forall j | 0 <= j < |rows|
      ensures |rows[j]| == n && TrimmedLength(rows[j]) <= n
    {
      assert LaidRow(text, n, rows[j], j);
      LaidRowLength(text, n, rows[j], j);
    }
  }

  // ---- reading back ----

  /** What has been read of the first rows: a prefix of the text, or all of it and empty cells. */
  ghost predicate ReadTo(text: Row, start: nat, back: Row)
    requires start <= |text|
  {
    var filled := FilledLength(text);
    if start < filled then back == text[..start]
    else filled <= |back| && back[..filled] == text[..filled] && EmptyFrom(back, filled)
  }

  /** One more row of `used` cells has been read. */
  lemma {:induction false} ReadRow(text: Row, n: nat, row: Row, j: nat, back: Row, used: nat)
    requires 2 <= n && LaidRow(text, n, row, j) && ReadTo(text, RowStart(text, n, j), back) && used <= n
    requires used < |WrappedRow(text, n, j)| ==> FilledLength(text) <= RowStart(text, n, j) + used
    requires RowStart(text, n, j + 1) < FilledLength(text) ==> used == |WrappedRow(text, n, j)|
    ensures ReadTo(text, RowStart(text, n, j + 1), back + row[..used])
  {
    hide FilledLength;
    RowStartMonotone(text, n, j, j + 1);
    hide RowStart, EmptyFrom;
    var a, b := RowStart(text, n, j), RowStart(text, n, j + 1);
    var wrapped := WrappedRow(text, n, j);
    if b < FilledLength(text) {
      SliceConcat(text, a, b);
      assert row[..used] == wrapped;
    } else {
      FilledEnd(text);
      LastStretch(text, a, b, FilledLength(text), row, back, used);
    }
  }

  /** The row that completes the text, or comes after it. */
  lemma {:induction false} LastStretch(text: Row, a: nat, b: nat, filled: nat, row: Row, back: Row, used: nat)
    requires a <= b <= |text| && filled <= b && EmptyFrom(text, filled) && used <= |row|
    requires text[a..b] <= row && EmptyFrom(row, b - a)
    requires if a < filled then back == text[..a]
             else filled <= |back| && back[..filled] == text[..filled] && EmptyFrom(back, filled)
    requires used < b - a ==> filled <= a + used
    ensures var back' := back + row[..used];
            filled <= |back'| && back'[..filled] == text[..filled] && EmptyFrom(back', filled)
  {
    var back' := back + row[..used];
    assert forall x :: 0 <= x < b - a ==> row[x] == text[a..b][x] == text[a + x];
    if a < filled {
      assert back'[..filled] == text[..a] + text[a..filled];
      SliceConcat(text, a, filled);
      BehindIsEmpty(text, a, b, filled, row, used);
      assert |back| == a;
    } else {
      assert back'[..filled] == back[..filled];
      BehindIsEmpty(text, a, b, a, row, used);
    }
  }

  lemma BehindIsEmpty(text: Row, a: nat, b: nat, filled: nat, row: Row, used: nat)
    requires a <= filled <= |text| && b <= |text| && EmptyFrom(text, filled) && used <= |row|
    requires a <= b && b - a <= |row| && EmptyFrom(row, b - a) && forall x :: 0 <= x < b - a ==> row[x] == text[a + x]
    ensures EmptyFrom(row[..used], filled - a)
  {
  }

  lemma FilledEnd(text: Row)
    ensures EmptyFrom(text, FilledLength(text)) && FilledLength(text) <= |text|
  {
  }

  /** A row that is not the last, and does not look padded, is read for what it is. */
  lemma {:induction false} MiddleRow(text: Row, n: nat, rows: seq<Row>, j: nat)
    requires Laid(text, n, rows) && TextDefined(rows, n) && j + 1 < |rows|
    ensures n - 1 <= UsedLength(rows, j, n) <= n
    ensures LooksPadded(text, n, j) ==> UsedLength(rows, j, n) == |WrappedRow(text, n, j)| - 1
    ensures !LooksPadded(text, n, j) && RowStart(text, n, j + 1) < |text| ==>
            UsedLength(rows, j, n) == |WrappedRow(text, n, j)|
    ensures UsedLength(rows, j, n) < n ==> !rows[j][n - 1].HasContent()
  {
    hide RowStart, Spelled, TextDefined, EmptyFrom;
    var a, b := RowStart(text, n, j), RowStart(text, n, j + 1);
    assert LaidRow(text, n, rows[j], j) && LaidRow(text, n, rows[j + 1], j + 1);
    if b < |text| {
      NextFirst(text, n, rows[j + 1], j + 1);
      RowIsFull(text, n, rows[j], j);
    }
  }

  lemma NextFirst(text: Row, n: nat, row: Row, j: nat)
    requires 2 <= n && Spelled(text) && LaidRow(text, n, row, j) && RowStart(text, n, j) < |text|
    ensures |row| == n && row[0] == text[RowStart(text, n, j)]
  {
    WrapNeverSplitsWide(text, n, j);
    assert WrappedRow(text, n, j)[0] == text[RowStart(text, n, j)];
  }

  lemma {:induction false} RowIsFull(text: Row, n: nat, row: Row, j: nat)
    requires 2 <= n && Spelled(text) && LaidRow(text, n, row, j) && RowStart(text, n, j + 1) < |text|
    ensures var a, b := RowStart(text, n, j), RowStart(text, n, j + 1);
            && |row| == n && a <= b && |WrappedRow(text, n, j)| == b - a
            && (b == a + n ==> row[n - 1] == text[b - 1])
            && (b != a + n ==>
                  b == a + n - 1 && text[b].width == 2 && !row[n - 1].HasContent() && row[n - 1].width == 1)
  {
    hide RowStart;
    WrapNeverSplitsWide(text, n, j);
    RowStartMonotone(text, n, j, j + 1);
    var wrapped := WrappedRow(text, n, j);
    if |wrapped| == n {
      assert row[n - 1] == wrapped[n - 1];
    }
  }

  /** The rows up to `k` are read back as the text, if none of them looks padded. */
  lemma {:induction false} PrefixReads(text: Row, n: nat, rows: seq<Row>, k: nat)
    requires Laid(text, n, rows) && TextDefined(rows, n) && k < |rows|
    requires forall j :: 0 <= j < k ==> !LooksPadded(text, n, j)
    ensures ReadTo(text, RowStart(text, n, k), TextOfFirst(rows, k, n))
  {
    hide LooksPadded, FilledLength, RowStart, ReadTo, WrappedRow, UsedLength, LaidRow, Spelled;
    if k == 0 {
      ReadNothing(text, n);
    } else {
      PrefixReads(text, n, rows, k - 1);
      MiddleRow(text, n, rows, k - 1);
      assert LaidRow(text, n, rows[k - 1], k - 1);
      UsedCovers(text, n, rows[k - 1], k - 1, UsedLength(rows, k - 1, n));
      ReadRow(text, n, rows[k - 1], k - 1, TextOfFirst(rows, k - 1, n), UsedLength(rows, k - 1, n));
    }
  }

  lemma ReadNothing(text: Row, n: nat)
    requires 2 <= n
    ensures ReadTo(text, RowStart(text, n, 0), [])
  {
  }

  /** A row read without its last cell, which is empty, is read far enough. */
  lemma {:induction false} UsedCovers(text: Row, n: nat, row: Row, j: nat, used: nat)
    requires 2 <= n && LaidRow(text, n, row, j) && n - 1 <= used <= n && (used < n ==> !row[n - 1].HasContent())
    requires RowStart(text, n, j + 1) < |text| ==> used == |WrappedRow(text, n, j)|
    ensures used < |WrappedRow(text, n, j)| ==> FilledLength(text) <= RowStart(text, n, j) + used
    ensures RowStart(text, n, j + 1) < FilledLength(text) ==> used == |WrappedRow(text, n, j)|
  {
    RowStartMonotone(text, n, j, j + 1);
    hide RowStart, FilledLength;
    FilledEnd(text);
    FilledLast(text);
    var a, b := RowStart(text, n, j), RowStart(text, n, j + 1);
    var wrapped := WrappedRow(text, n, j);
    if used < |wrapped| {
      assert row[n - 1] == wrapped[n - 1] == text[b - 1];
    }
  }

  lemma FilledLast(text: Row)
    ensures FilledLength(text) > 0 ==> text[FilledLength(text) - 1].HasContent()
  {
  }

  /** No row looks padded: the text is read back. */
  lemma {:induction false} ReadsBack(text: Row, n: nat, rows: seq<Row>)
    requires Laid(text, n, rows)
    requires forall j :: 0 <= j < |rows| - 1 ==> !LooksPadded(text, n, j)
    ensures TextDefined(rows, n) && Essential(Text(rows, n)) == Essential(text)
  {
    hide LooksPadded, FilledLength, RowStart, ReadTo, WrappedRow, UsedLength, LaidRow, Spelled, TextOfFirst;
    LaidIsDefined(text, n, rows);
    var last := |rows| - 1;
    PrefixReads(text, n, rows, last);
    assert LaidRow(text, n, rows[last], last);
    LastRow(text, n, rows);
    ReadRow(text, n, rows[last], last, TextOfFirst(rows, last, n), UsedLength(rows, last, n));
    TextUnfolds(rows, n);
    WholeIsRead(text, RowStart(text, n, |rows|), Text(rows, n));
  }

  lemma TextUnfolds(rows: seq<Row>, n: nat)
    requires rows != [] && TextDefined(rows, n)
    ensures Text(rows, n) == TextOfFirst(rows, |rows| - 1, n) + rows[|rows| - 1][..UsedLength(rows, |rows| - 1, n)]
  {
  }

  lemma {:induction false} LastRow(text: Row, n: nat, rows: seq<Row>)
    requires Laid(text, n, rows) && TextDefined(rows, n)
    ensures var last := |rows| - 1; var used := UsedLength(rows, last, n);
            && used <= n && RowStart(text, n, |rows|) >= FilledLength(text)
            && (used < |WrappedRow(text, n, last)| ==> FilledLength(text) <= RowStart(text, n, last) + used)
  {
    hide RowStart, WrappedRow, LaidRow, FilledLength, TrimmedLength;
    var last := |rows| - 1;
    assert LaidRow(text, n, rows[last], last);
    LaidRowLength(text, n, rows[last], last);
    FilledLast(text);
    FilledWithin(text, RowStart(text, n, |rows|));
    TrimmedCovers(text, n, rows[last], last);
  }

  lemma FilledWithin(text: Row, n: nat)
    requires n <= |text| && EmptyFrom(text, n)
    ensures FilledLength(text) <= n
  {
  }

  lemma {:induction false} TrimmedCovers(text: Row, n: nat, row: Row, j: nat)
    requires 2 <= n && LaidRow(text, n, row, j) && EmptyFrom(row, TrimmedLength(row))
    requires FilledLength(text) <= RowStart(text, n, j + 1)
    ensures TrimmedLength(row) < |WrappedRow(text, n, j)| ==>
            FilledLength(text) <= RowStart(text, n, j) + TrimmedLength(row)
  {
    RowStartMonotone(text, n, j, j + 1);
    hide RowStart, FilledLength, TrimmedLength;
    FilledLast(text);
    var filled := FilledLength(text);
    var wrapped := WrappedRow(text, n, j);
    var a := RowStart(text, n, j);
    if TrimmedLength(row) < |wrapped| && filled > a {
      assert row[filled - 1 - a] == wrapped[filled - 1 - a] == text[filled - 1];
    }
  }

  lemma WholeIsRead(text: Row, start: nat, back: Row)
    requires start <= |text| && ReadTo(text, start, back) && FilledLength(text) <= start
    ensures Essential(back) == Essential(text)
  {
    var filled := FilledLength(text);
    FilledLengthIs(back, filled);
  }

  /** A row that looks padded: its last cell is lost. */
  lemma {:induction false} LostCell(text: Row, n: nat, rows: seq<Row>, j: nat)
    requires Laid(text, n, rows) && TextDefined(rows, n) && j < |rows| - 1
    requires LooksPadded(text, n, j) && forall i :: 0 <= i < j ==> !LooksPadded(text, n, i)
    ensures var end := RowStart(text, n, j + 1);
            end <= |TextOfFirst(rows, j + 2, n)| && 0 < end < |text| &&
              TextOfFirst(rows, j + 2, n)[end - 1] == text[end]
  {
    hide RowStart, ReadTo, WrappedRow, UsedLength, Spelled, LaidRow, LooksPadded;
    PrefixReads(text, n, rows, j);
    MiddleRow(text, n, rows, j);
    assert LaidRow(text, n, rows[j], j) && LaidRow(text, n, rows[j + 1], j + 1);
    var end := RowStart(text, n, j + 1);
    PaddedPrefix(text, n, rows[j], j, TextOfFirst(rows, j, n));
    NextFirst(text, n, rows[j + 1], j + 1);
    NextIsUsed(text, n, rows, j + 1);
    UsedWithin(rows, j + 1, n);
    assert TextOfFirst(rows, j + 1, n) == TextOfFirst(rows, j, n) + rows[j][..UsedLength(rows, j, n)];
    assert TextOfFirst(rows, j + 2, n) == TextOfFirst(rows, j + 1, n) + rows[j + 1][..UsedLength(rows, j + 1, n)];
  }

  lemma UsedWithin(rows: seq<Row>, j: nat, n: nat)
    requires TextDefined(rows, n) && j < |rows|
    ensures UsedLength(rows, j, n) <= |rows[j]|
  {
  }

  /** Before a row that looks padded, exactly its stretch has been read. */
  lemma {:induction false} PaddedPrefix(text: Row, n: nat, row: Row, j: nat, back: Row)
    requires 2 <= n && Spelled(text) && LooksPadded(text, n, j) && ReadTo(text, RowStart(text, n, j), back)
    ensures |back| == RowStart(text, n, j) && |WrappedRow(text, n, j)| == n
    ensures var end := RowStart(text, n, j + 1); end == |back| + n && 0 < end < |text| && text[end].HasContent()
  {
    hide RowStart, FilledLength;
    var end := RowStart(text, n, j + 1);
    FilledEnd(text);
    assert text[end].HasContent();
    assert FilledLength(text) > end;
  }

  lemma {:induction false} NextIsUsed(text: Row, n: nat, rows: seq<Row>, j: nat)
    requires Laid(text, n, rows) && TextDefined(rows, n) && j < |rows|
    requires RowStart(text, n, j) < |text| && text[RowStart(text, n, j)].HasContent()
    ensures UsedLength(rows, j, n) > 0
  {
    hide RowStart, WrappedRow, TextDefined, TrimmedLength;
    assert LaidRow(text, n, rows[j], j);
    NextFirst(text, n, rows[j], j);
    LaidRowLength(text, n, rows[j], j);
  }

  lemma {:induction false} PrefixOfText(rows: seq<Row>, k: nat, n: nat)
    requires TextDefined(rows, n) && k <= |rows|
    ensures TextOfFirst(rows, k, n) <= Text(rows, n)
  {
    hide TextDefined, UsedLength;
    OffsetMonotone(rows, k, |rows|, n);
  }

  /** The first row that looks padded. */
  lemma {:induction false} FirstPadded(text: Row, n: nat, j: nat) returns (i: nat)
    requires 2 <= n && LooksPadded(text, n, j)
    ensures i <= j && LooksPadded(text, n, i) && forall k :: 0 <= k < i ==> !LooksPadded(text, n, k)
  {
    hide LooksPadded;
    if forall k :: 0 <= k < j ==> !LooksPadded(text, n, k) {
      i := j;
    } else {
      var k :| 0 <= k < j && LooksPadded(text, n, k);
      i := FirstPadded(text, n, k);
    }
  }

  /** Wrapped at `n` columns, no row of the text looks padded. */
  ghost predicate Unpadded(text: Row, n: nat)
    requires 2 <= n
  {
    forall j: nat :: !LooksPadded(text, n, j)
  }

  /** A row that looks padded is not the last. */
  lemma {:induction false} PaddedIsWithin(text: Row, n: nat, rows: seq<Row>, j: nat)
    requires Laid(text, n, rows) && LooksPadded(text, n, j)
    ensures j + 1 < |rows|
  {
    hide RowStart, LaidRow;
    assert text[RowStart(text, n, j + 1)].HasContent();
    if |rows| <= j + 1 {
      RowStartMonotone(text, n, |rows|, j + 1);
    }
  }

  /** The text is read back, but for empty cells at its end, exactly if no full row of it ends in an
      empty cell in front of a wide character. */
  lemma {:induction false} ReadsBackExactly(text: Row, n: nat, rows: seq<Row>)
    requires Laid(text, n, rows)
    ensures TextDefined(rows, n)
    ensures Essential(Text(rows, n)) == Essential(text) <==> Unpadded(text, n)
  {
    hide LooksPadded, RowStart, WrappedRow, UsedLength, TextDefined, LaidRow, Spelled, TextOfFirst;
    LaidIsDefined(text, n, rows);
    if Unpadded(text, n) {
      ReadsBack(text, n, rows);
    } else {
      var some: nat :| LooksPadded(text, n, some);
      PaddedIsWithin(text, n, rows, some);
      var j := FirstPadded(text, n, some);
      LostCell(text, n, rows, j);
      PrefixOfText(rows, j + 2, n);
      OneCellDiffers(text, n, j, Text(rows, n));
    }
  }

  lemma {:induction false} OneCellDiffers(text: Row, n: nat, j: nat, back: Row)
    requires 2 <= n && Spelled(text) && LooksPadded(text, n, j)
    requires var end := RowStart(text, n, j + 1); 0 < end <= |back| && end < |text| && back[end - 1] == text[end]
    ensures Essential(back) != Essential(text)
  {
    hide RowStart, FilledLength;
    var end := RowStart(text, n, j + 1);
    FilledEnd(text);
    FilledEnd(back);
    assert text[end].HasContent() && FilledLength(text) > end && FilledLength(back) >= end;
    assert Essential(back)[end - 1] == text[end] && Essential(text)[end - 1] == text[end - 1];
  }

  // ---- both reflows leave a text laid out ----

  lemma {:induction false} GrownIsLaid(g: Grow, rows: seq<Row>, kept: nat)
    requires GrownTo(g, rows, kept) && Spelled(g.text)
    ensures Laid(g.text, g.n, rows[..kept])
  {
    hide RowStart, WrappedRow, Spelled;
    forall j | 0 <= j < kept
      ensures LaidRow(g.text, g.n, rows[..kept][j], j)
    {
    }
  }

  /** The rows of a shrunk group after they have been cut to the new width. */
  function Cut(rows: seq<Row>, n: nat): seq<Row>
    requires forall j :: 0 <= j < |rows| ==> n <= |rows[j]|
  {
    seq(|rows|, j requires 0 <= j < |rows| => rows[j][..n])
  }

  lemma {:induction false} ShrunkIsLaid(g: Shrink, rows: seq<Row>, lengths: seq<nat>)
    requires ShrunkTo(g, rows, lengths) && Spelled(g.text) && rows != []
    ensures forall j :: 0 <= j < |rows| ==> g.n <= |rows[j]|
    ensures Laid(g.text, g.n, Cut(rows, g.n))
  {
    hide RowStart, WrappedRow, Spelled;
    forall j | 0 <= j < |rows|
      ensures g.n <= |rows[j]| && LaidRow(g.text, g.n, rows[j][..g.n], j)
    {
      assert ShrunkRow(g, rows[j], j);
      assert WrappedRow(g.text, g.n, j) == rows[j][..|WrappedRow(g.text, g.n, j)|];
    }
  }

  lemma {:induction false} TextIsSpelled(rows: seq<Row>, cols: nat, width: nat)
    requires WellFormedGroup(rows, cols, width) && WideFilled(rows)
    ensures TextDefined(rows, cols) && Spelled(Text(rows, cols))
  {
    hide WellFormedGroup, TextDefined, TextOfFirst, WideWhole, FilledHasWidth, AllWideFilled, WideFilled;
    TextIsDefined(rows, cols, width);
    TextWideWhole(rows, |rows|, cols, width);
    TextFilledHasWidth(rows, |rows|, cols, width);
    TextWideFilled(rows, |rows|, cols);
  }

  lemma {:induction false} TextWideFilled(rows: seq<Row>, k: nat, cols: nat)
    requires TextDefined(rows, cols) && WideFilled(rows) && k <= |rows|
    ensures AllWideFilled(TextOfFirst(rows, k, cols))
  {
    hide UsedLength, AllWideFilled, WideFilled;
    if k == 0 {
      NothingWide();
    } else {
      TextWideFilled(rows, k - 1, cols);
      OneMoreWideFilled(TextOfFirst(rows, k - 1, cols), rows, k - 1, UsedLength(rows, k - 1, cols));
    }
  }

  lemma NothingWide()
    ensures AllWideFilled([])
  {
  }

  lemma OneMoreWideFilled(text: Row, rows: seq<Row>, j: nat, used: nat)
    requires AllWideFilled(text) && WideFilled(rows) && j < |rows| && used <= |rows[j]|
    ensures AllWideFilled(text + rows[j][..used])
  {
  }

  /** A group that has grown is read back, but for empty cells at its end, exactly if no row of its
      text looks padded. */
  lemma {:induction false} GrownReadsBack(was: seq<Row>, now: seq<Row>, cols: nat, n: nat, kept: nat)
    requires WellFormedGroup(was, cols, n) && WideFilled(was) && TextDefined(was, cols) && kept <= |now|
    requires GrownTo(Grow(was, cols, n, Text(was, cols)), now, kept)
    ensures 2 <= n && TextDefined(now[..kept], n)
    ensures Essential(Text(now[..kept], n)) == Essential(Text(was, cols)) <==> Unpadded(Text(was, cols), n)
  {
    hide WellFormedGroup, WideFilled, TextOfFirst, Spelled, LooksPadded, LaidRow, TextDefined;
    TextIsSpelled(was, cols, n);
    GrownIsLaid(Grow(was, cols, n, Text(was, cols)), now, kept);
    ReadsBackExactly(Text(was, cols), n, now[..kept]);
  }

  /** So is a group that has shrunk. */
  lemma {:induction false} ShrunkReadsBack(was: seq<Row>, now: seq<Row>, cols: nat, n: nat, lengths: seq<nat>)
    requires TextDefined(was, cols) && Shrinkable(Shrink(was, cols, n, Text(was, cols))) && now != []
    requires ShrunkTo(Shrink(was, cols, n, Text(was, cols)), now, lengths)
    ensures 2 <= n && (forall j :: 0 <= j < |now| ==> n <= |now[j]|) && TextDefined(Cut(now, n), n)
    ensures Essential(Text(Cut(now, n), n)) == Essential(Text(was, cols)) <==> Unpadded(Text(was, cols), n)
  {
    hide WellFormedGroup, WideFilled, TextOfFirst, Spelled, LooksPadded, LaidRow, TextDefined, ShrunkTo;
    TextIsSpelled(was, cols, cols);
    ShrunkIsLaid(Shrink(was, cols, n, Text(was, cols)), now, lengths);
    ReadsBackExactly(Text(was, cols), n, Cut(now, n));
  }

  /** A letter, an empty cell and a wide character at two columns: the empty cell is lost. */
  lemma EmptyCellIsLost()
    ensures var a, wide, half := Cell(0x61, 1, NULL_CELL.fg, NULL_CELL.bg), Cell(0x4e00, 2, NULL_CELL.fg, NULL_CELL.bg),
                                 Cell(0, 0, NULL_CELL.fg, NULL_CELL.bg);
            var text := [a, NULL_CELL, wide, half];
            var rows := [[a, NULL_CELL], [wide, half]];
            Laid(text, 2, rows) && TextDefined(rows, 2) && Essential(Text(rows, 2)) != Essential(text)
  {
    var a, wide, half := Cell(0x61, 1, NULL_CELL.fg, NULL_CELL.bg), Cell(0x4e00, 2, NULL_CELL.fg, NULL_CELL.bg),
                         Cell(0, 0, NULL_CELL.fg, NULL_CELL.bg);
    var text := [a, NULL_CELL, wide, half];
    var rows := [[a, NULL_CELL], [wide, half]];
    assert RowStart(text, 2, 1) == 2 && RowStart(text, 2, 2) == 4;
    assert LaidRow(text, 2, rows[0], 0) && LaidRow(text, 2, rows[1], 1);
    assert LooksPadded(text, 2, 0);
    ReadsBackExactly(text, 2, rows);
  }
}
