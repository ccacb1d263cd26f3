/** Greedy line wrap: the meaning of a group of wrapped rows, and how it is laid out at a width. */
module Wrapping {
  import opened BufferLines

  /** In the first `n` cells a wide character is followed by its width-0 half. */
  ghost predicate WideWholeTo(cells: Row, n: nat)
    requires n <= |cells|
  {
    forall k :: 0 <= k < n && cells[k].width == 2 ==> k + 1 < n && cells[k + 1].width == 0
  }

  ghost predicate WideWhole(cells: Row) {
    WideWholeTo(cells, |cells|)
  }

  ghost predicate FilledHasWidth(cells: Row) {
    forall k :: 0 <= k < |cells| && cells[k].HasContent() ==> 1 <= cells[k].width <= 2
  }

  ghost predicate EmptyFrom(cells: Row, n: nat) {
    forall k :: n <= k < |cells| ==> !cells[k].HasContent()
  }

  /** The rows of a wrapped group, each `width` cells wide of which only `cols` are in use. */
  ghost predicate WellFormedGroup(rows: seq<Row>, cols: nat, width: nat) {
    && 2 <= cols <= width
    && rows != []
    && forall i :: 0 <= i < |rows| ==> WellFormedRow(rows[i], cols, width)
  }

  ghost predicate WellFormedRow(row: Row, cols: nat, width: nat)
    requires cols <= width
  {
    |row| == width && WideWholeTo(row, cols) && FilledHasWidth(row) && EmptyFrom(row, cols)
  }

  /** How many cells of row `i` belong to the text: all, or all but the null that pads the row
      when a wide character moved to the next one; of the last row, up to its last filled cell. */
  function UsedLength(rows: seq<Row>, i: nat, cols: nat): nat
    requires i < |rows| && 0 < cols
    requires forall k :: 0 <= k < |rows| ==> cols <= |rows[k]|
  {
    if i == |rows| - 1 then TrimmedLength(rows[i])
    else
      var endsInNull := !rows[i][cols - 1].HasContent() && rows[i][cols - 1].width == 1;
      if endsInNull && rows[i + 1][0].width == 2 then cols - 1 else cols
  }

  lemma {:induction false} TrimmedLengthIs(row: Row)
    requires FilledHasWidth(row)
    ensures TrimmedLength(row) > 0 ==>
              exists k :: 0 <= k < |row| && row[k].HasContent() && EmptyFrom(row, k + 1) &&
                TrimmedLength(row) == k + row[k].width
    ensures TrimmedLength(row) == 0 <==> EmptyFrom(row, 0)
  {
    if row != [] {
      var last := |row| - 1;
      if !row[last].HasContent() {
        var front := row[..last];
        assert FilledHasWidth(front);
        TrimmedLengthIs(front);
        hide TrimmedLength, FilledHasWidth;
        if TrimmedLength(front) > 0 {
          var k :| 0 <= k < last && front[k].HasContent() && EmptyFrom(front, k + 1) &&
              TrimmedLength(front) == k + front[k].width;
          assert EmptyFrom(row, k + 1) && front[k] == row[k];
        }
      } else {
        assert EmptyFrom(row, last + 1);
      }
    }
  }

  lemma {:induction false} TrimmedWithin(row: Row, cols: nat, width: nat)
    requires cols <= width && WellFormedRow(row, cols, width)
    ensures TrimmedLength(row) <= cols
    ensures WideWholeTo(row, TrimmedLength(row))
    ensures EmptyFrom(row, TrimmedLength(row))
    ensures TrimmedLength(row) > 0 ==> exists k :: 0 <= k < TrimmedLength(row) && row[k].HasContent()
  {
    TrimmedLengthIs(row);
  }

  lemma {:induction false} UsedLengthWithin(rows: seq<Row>, i: nat, cols: nat, width: nat)
    requires WellFormedGroup(rows, cols, width) && i < |rows|
    ensures UsedLength(rows, i, cols) <= cols
    ensures i < |rows| - 1 ==> UsedLength(rows, i, cols) >= cols - 1
    ensures WideWholeTo(rows[i], UsedLength(rows, i, cols))
  {
    assert WellFormedRow(rows[i], cols, width);
    if i == |rows| - 1 {
      TrimmedWithin(rows[i], cols, width);
    }
  }

  ghost predicate TextDefined(rows: seq<Row>, cols: nat) {
    && 0 < cols
    && (forall j :: 0 <= j < |rows| ==> cols <= |rows[j]|)
    && (forall j :: 0 <= j < |rows| ==> UsedLength(rows, j, cols) <= |rows[j]|)
  }

  /** The text of the first `k` rows of the group. */
  ghost function TextOfFirst(rows: seq<Row>, k: nat, cols: nat): Row
    requires k <= |rows| && TextDefined(rows, cols)
  {
    if k == 0 then [] else TextOfFirst(rows, k - 1, cols) + rows[k - 1][..UsedLength(rows, k - 1, cols)]
  }

  /** The logical line a wrapped group spells. */
  ghost function Text(rows: seq<Row>, cols: nat): Row
    requires TextDefined(rows, cols)
  {
    TextOfFirst(rows, |rows|, cols)
  }

  lemma {:induction false} TextIsDefined(rows: seq<Row>, cols: nat, width: nat)
    requires WellFormedGroup(rows, cols, width)
    ensures TextDefined(rows, cols)
  {
    forall j | 0 <= j < |rows| ensures cols <= |rows[j]| {
      assert WellFormedRow(rows[j], cols, width);
    }
    forall j | 0 <= j < |rows| ensures UsedLength(rows, j, cols) <= |rows[j]| {
      UsedLengthWithin(rows, j, cols, width);
    }
  }

  // ---- filling rows up to a new width ----

  ghost predicate AllWellFormed(rows: seq<Row>, cols: nat) {
    2 <= cols && forall i :: 0 <= i < |rows| ==> WellFormedRow(rows[i], cols, cols)
  }

  function FilledUp(rows: seq<Row>, width: nat): (r: seq<Row>)
    ensures |r| == |rows|
  {
    seq(|rows|, i requires 0 <= i < |rows| => Resized(rows[i], width, NULL_CELL))
  }

  lemma ResizedIsWellFormed(row: Row, cols: nat, width: nat)
    requires cols <= width && WellFormedRow(row, cols, cols)
    ensures WellFormedRow(Resized(row, width, NULL_CELL), cols, width)
  {
  }

  lemma {:induction false} TrimmedResized(row: Row, width: nat)
    requires |row| <= width
    ensures TrimmedLength(Resized(row, width, NULL_CELL)) == TrimmedLength(row)
    decreases width
  {
    var r := Resized(row, width, NULL_CELL);
    if |row| == width {
      assert r == row;
    } else {
      assert r[..|r| - 1] == Resized(row, width - 1, NULL_CELL);
      TrimmedResized(row, width - 1);
    }
  }

  /** Filled up rows of a group spell what the rows spelled. */
  lemma {:induction false} FilledUpSpells(rows: seq<Row>, cols: nat, width: nat)
    requires AllWellFormed(rows, cols) && rows != [] && cols <= width
    ensures WellFormedGroup(FilledUp(rows, width), cols, width) && TextDefined(rows, cols) &&
            TextDefined(FilledUp(rows, width), cols)
    ensures Text(FilledUp(rows, width), cols) == Text(rows, cols)
  {
    hide WellFormedRow, TrimmedLength, Resized, UsedLength, TextDefined;
    var r := FilledUp(rows, width);
    forall i | 0 <= i < |r|
      ensures WellFormedRow(r[i], cols, width)
    {
      ResizedIsWellFormed(rows[i], cols, width);
    }
    TextIsDefined(rows, cols, cols);
    TextIsDefined(r, cols, width);
    FilledUpFirst(rows, |rows|, cols, width);
  }

  lemma {:induction false} FilledUpFirst(rows: seq<Row>, k: nat, cols: nat, width: nat)
    requires AllWellFormed(rows, cols) && k <= |rows| && cols <= width
    requires TextDefined(rows, cols) && TextDefined(FilledUp(rows, width), cols)
    ensures TextOfFirst(FilledUp(rows, width), k, cols) == TextOfFirst(rows, k, cols)
  {
    hide TrimmedLength;
    if k > 0 {
      FilledUpFirst(rows, k - 1, cols, width);
      UsedLengthWithin(rows, k - 1, cols, cols);
      TrimmedResized(rows[k - 1], width);
      UsedResized(rows, k - 1, cols, width);
    }
  }

  lemma UsedResized(rows: seq<Row>, i: nat, cols: nat, width: nat)
    requires AllWellFormed(rows, cols) && i < |rows| && cols <= width
    requires TrimmedLength(Resized(rows[i], width, NULL_CELL)) == TrimmedLength(rows[i])
    ensures UsedLength(FilledUp(rows, width), i, cols) == UsedLength(rows, i, cols)
    ensures UsedLength(rows, i, cols) <= cols ==>
              FilledUp(rows, width)[i][..UsedLength(rows, i, cols)] == rows[i][..UsedLength(rows, i, cols)]
  {
    hide TrimmedLength;
  }

  lemma {:induction false} WideWholeConcat(a: Row, b: Row)
    requires WideWhole(a) && WideWhole(b)
    ensures WideWhole(a + b)
  {
    var c := a + b;
    forall k | 0 <= k < |c| && c[k].width == 2 ensures k + 1 < |c| && c[k + 1].width == 0 {
      if k < |a| {
        assert a[k].width == 2;
      } else {
        assert b[k - |a|].width == 2;
      }
    }
  }

  lemma {:induction false} TextWideWhole(rows: seq<Row>, k: nat, cols: nat, width: nat)
    requires WellFormedGroup(rows, cols, width) && k <= |rows| && TextDefined(rows, cols)
    ensures WideWhole(TextOfFirst(rows, k, cols))
  {
    if k > 0 {
      TextWideWhole(rows, k - 1, cols, width);
      UsedLengthWithin(rows, k - 1, cols, width);
      var used := UsedLength(rows, k - 1, cols);
      assert WideWhole(rows[k - 1][..used]);
      hide WellFormedGroup, UsedLength, WideWhole;
      WideWholeConcat(TextOfFirst(rows, k - 1, cols), rows[k - 1][..used]);
    }
  }

  lemma {:induction false} FilledHasWidthConcat(a: Row, row: Row, n: nat)
    requires n <= |row| && FilledHasWidth(a) && FilledHasWidth(row)
    ensures FilledHasWidth(a + row[..n])
  {
  }

  lemma {:induction false} TextFilledHasWidth(rows: seq<Row>, k: nat, cols: nat, width: nat)
    requires WellFormedGroup(rows, cols, width) && k <= |rows| && TextDefined(rows, cols)
    ensures FilledHasWidth(TextOfFirst(rows, k, cols))
  {
    hide UsedLength, FilledHasWidth, WideWholeTo, EmptyFrom;
    if k > 0 {
      TextFilledHasWidth(rows, k - 1, cols, width);
      assert WellFormedRow(rows[k - 1], cols, width);
      FilledHasWidthConcat(TextOfFirst(rows, k - 1, cols), rows[k - 1], UsedLength(rows, k - 1, cols));
    } else {
      NothingFilledHasWidth();
    }
  }

  lemma {:induction false} NothingFilledHasWidth()
    ensures FilledHasWidth([])
  {
  }

  // ---- greedy wrap ----

  /** Where the row that starts at `from` ends: `n` cells on, one fewer if the last of them would
      be the first half of a wide character, or at the end of the text. */
  function RowEnd(text: Row, n: nat, from: nat): nat
    requires 2 <= n && from <= |text|
  {
    if from + n > |text| then |text|
    else if text[from + n - 1].width == 2 then from + n - 1
    else from + n
  }

  /** Where row `j` of the wrapped text starts. */
  function RowStart(text: Row, n: nat, j: nat): (start: nat)
    requires 2 <= n
    ensures start <= |text|
  {
    if j == 0 then 0 else RowEnd(text, n, RowStart(text, n, j - 1))
  }

  lemma RowStartNext(text: Row, n: nat, j: nat)
    requires 2 <= n
    ensures RowStart(text, n, j + 1) == RowEnd(text, n, RowStart(text, n, j))
  {
  }

  /** Row `j` of the text wrapped at `n` columns. */
  function WrappedRow(text: Row, n: nat, j: nat): (row: Row)
    requires 2 <= n
    ensures |row| <= n
  {
    text[RowStart(text, n, j)..RowStart(text, n, j + 1)]
  }

  /** A wrapped row as it stands on the screen: padded with nulls. */
  function Padded(cells: Row, n: nat): (row: Row)
    requires |cells| <= n
    ensures |row| == n
  {
    cells + Blank(n - |cells|, NULL_CELL)
  }

  lemma {:induction false} RowStartMonotone(text: Row, n: nat, i: nat, j: nat)
    requires 2 <= n && i <= j
    ensures RowStart(text, n, i) <= RowStart(text, n, j)
    decreases j
  {
    if i < j {
      RowStartMonotone(text, n, i, j - 1);
    }
  }

  /** Wrapping loses nothing, reorders nothing, splits no wide character, and every row but the
      last is as full as it can be. */
  ghost function Unwrapped(text: Row, n: nat, rows: nat): Row
    requires 2 <= n
  {
    if rows == 0 then [] else Unwrapped(text, n, rows - 1) + WrappedRow(text, n, rows - 1)
  }

  lemma NothingWrapped(text: Row, n: nat)
    requires 2 <= n
    ensures RowStart(text, n, 0) == 0
  {
  }

  lemma {:induction false} WrapLosesNothing(text: Row, n: nat, rows: nat)
    requires 2 <= n
    ensures Unwrapped(text, n, rows) == text[..RowStart(text, n, rows)]
  {
    hide RowStart;
    if rows == 0 {
      NothingWrapped(text, n);
    } else {
      WrapLosesNothing(text, n, rows - 1);
      RowStartMonotone(text, n, rows - 1, rows);
      SliceConcat(text, RowStart(text, n, rows - 1), RowStart(text, n, rows));
    }
  }

  lemma {:induction false} SliceConcat<T>(s: seq<T>, a: nat, b: nat)
    requires a <= b <= |s|
    ensures s[..a] + s[a..b] == s[..b]
  {
  }

  lemma {:induction false} WrapNeverSplitsWide(text: Row, n: nat, j: nat)
    requires 2 <= n && WideWhole(text)
    ensures WideWhole(WrappedRow(text, n, j))
    ensures RowStart(text, n, j) < |text| ==> RowStart(text, n, j) < RowStart(text, n, j + 1)
    ensures RowStart(text, n, j + 1) < |text| ==>
              |WrappedRow(text, n, j)| == n ||
              (|WrappedRow(text, n, j)| == n - 1 && text[RowStart(text, n, j + 1)].width == 2)
  {
    var row := WrappedRow(text, n, j);
    var a, b := RowStart(text, n, j), RowStart(text, n, j + 1);
    forall k | 0 <= k < |row| && row[k].width == 2 ensures k + 1 < |row| && row[k + 1].width == 0 {
      assert text[a + k].width == 2;
    }
  }
}
