/** Rows of the terminal screen: fixed arrays of cells, copied and cleared in place. */
module BufferLines {
  import opened Attributes

  /** One cell. `code` is the low part of the content word (code point and combined flag, zero
      when the cell is empty); `width` is its two width bits; `fg` and `bg` are the attribute words. */
  datatype Cell = Cell(code: nat, width: nat, fg: Fg, bg: Bg) {
    predicate HasContent() { code != 0 }
  }

  const NULL_CELL := Cell(0, 1, DEFAULT_FG, DEFAULT_BG)

  type Row = seq<Cell>

  /** The columns up to the last filled cell, counting all of its width. */
  function TrimmedLength(row: Row): nat {
    if row == [] then 0
    else if row[|row| - 1].HasContent() then |row| - 1 + row[|row| - 1].width
    else TrimmedLength(row[..|row| - 1])
  }

  /** `row` with `cells` laid over it from column `at`. */
  function Blit(row: Row, at: nat, cells: Row): (r: Row)
    requires at + |cells| <= |row|
    ensures |r| == |row|
    ensures forall i :: 0 <= i < |row| ==> r[i] == if at <= i < at + |cells| then cells[i - at] else row[i]
  {
    row[..at] + cells + row[at + |cells|..]
  }

  function Blank(n: nat, fill: Cell): (r: Row)
    ensures |r| == n && forall i :: 0 <= i < n ==> r[i] == fill
  {
    seq(n, _ => fill)
  }

  function Resized(row: Row, cols: nat, fill: Cell): (r: Row)
    ensures |r| == cols
  {
    if cols <= |row| then row[..cols] else row + Blank(cols - |row|, fill)
  }

  /** A copy within one row reads every cell before overwriting it. */
  predicate SafeOrder(sameRow: bool, srcCol: nat, destCol: nat, applyInReverse: bool) {
    sameRow ==> if applyInReverse then srcCol <= destCol else destCol <= srcCol
  }

  class BufferLine {
    var data: array<Cell>
    var isWrapped: bool

    ghost function Cells(): (row: Row)
      reads this, data
      ensures |row| == data.Length
    {
      data[..]
    }

    constructor (cols: nat, fillCell: Cell, isWrapped: bool)
      ensures Cells() == Blank(cols, fillCell) && this.isWrapped == isWrapped && fresh(data)
    {
      data := new Cell[cols](_ => fillCell);
      this.isWrapped := isWrapped;
    }

    /** Takes over the cells and the wrap mark of another line. */
    method CopyFrom(line: BufferLine)
      requires line.data != data
      modifies this, data
      ensures Cells() == old(line.Cells()) && isWrapped == old(line.isWrapped)
      ensures data == old(data) || fresh(data)
    {
      if data.Length != line.data.Length {
        data := new Cell[line.data.Length](_ => NULL_CELL);
      }
      forall i | 0 <= i < data.Length {
        data[i] := line.data[i];
      }
      isWrapped := line.isWrapped;
    }

    /** Cuts the line off at `cols` cells, or fills it up. */
    method Resize(cols: nat, fillCell: Cell)
      modifies this
      ensures Cells() == Resized(old(Cells()), cols, fillCell) && isWrapped == old(isWrapped)
      ensures data == old(data) || fresh(data)
    {
      if cols == data.Length {
        return;
      }
      var len, was := data.Length, data;
      var newData := new Cell[cols](
        i requires 0 <= i && was.Length == len reads was => if i < len then was[i] else fillCell);
      data := newData;
    }

    method Clone() returns (newLine: BufferLine)
      ensures fresh(newLine) && fresh(newLine.data)
      ensures newLine.Cells() == Cells() && newLine.isWrapped == isWrapped
    {
      newLine := new BufferLine(data.Length, NULL_CELL, isWrapped);
      forall i | 0 <= i < data.Length {
        newLine.data[i] := data[i];
      }
    }

    method GetTrimmedLength() returns (n: nat)
      ensures n == TrimmedLength(Cells())
    {
      var i := data.Length;
      assert data[..i] == data[..];
      while i > 0
        invariant 0 <= i <= data.Length
        invariant TrimmedLength(data[..]) == TrimmedLength(data[..i])
      {
        i := i - 1;
        assert data[..i + 1][..i] == data[..i];
        if data[i].HasContent() {
          return i + data[i].width;
        }
      }
      return 0;
    }

    method SetCell(index: nat, cell: Cell)
      requires index < data.Length
      modifies data
      ensures Cells() == old(Cells())[index := cell]
    {
      data[index] := cell;
    }

    /** Copies `length` cells of `src`, forwards or backwards. */
    method CopyCellsFrom(src: BufferLine, srcCol: nat, destCol: nat, length: nat, applyInReverse: bool)
      requires srcCol + length <= src.data.Length && destCol + length <= data.Length
      modifies data
      ensures SafeOrder(src.data == data, srcCol, destCol, applyInReverse) ==>
                Cells() == Blit(old(Cells()), destCol, old(src.Cells())[srcCol..srcCol + length])
    {
      hide Blit;
      ghost var safe := SafeOrder(src.data == data, srcCol, destCol, applyInReverse);
      ghost var was, read := data[..], src.data[..];
      if applyInReverse {
        for cell := length downto 0
          invariant forall i :: 0 <= i < data.Length && !(destCol + cell <= i < destCol + length) ==> data[i] == was[i]
          invariant safe ==> forall i :: destCol + cell <= i < destCol + length ==>
                    data[i] == read[i - destCol + srcCol]
        {
          data[destCol + cell] := src.data[srcCol + cell];
        }
      } else {
        for cell := 0 to length
          invariant forall i :: 0 <= i < data.Length && !(destCol <= i < destCol + cell) ==> data[i] == was[i]
          invariant safe ==> forall i :: destCol <= i < destCol + cell ==> data[i] == read[i - destCol + srcCol]
        {
          data[destCol + cell] := src.data[srcCol + cell];
        }
      }
    }

    /** Fills columns [start, end) and clears a wide character cut in half at either edge. */
    method ReplaceCells(start: nat, end: nat, fillCell: Cell)
      requires start <= data.Length
      modifies data
      ensures Cells() == Replaced(old(Cells()), start, end, fillCell)
    {
      if start > 0 && data[start - 1].width == 2 {
        data[start - 1] := Cell(0, 1, fillCell.fg, fillCell.bg);
      }
      if 0 < end < data.Length && data[end - 1].width == 2 {
        data[end] := Cell(0, 1, fillCell.fg, fillCell.bg);
      }
      ghost var edged := data[..];
      var i := start;
      while i < end && i < data.Length
        invariant start <= i <= data.Length && (i <= end || i == start)
        invariant forall j :: 0 <= j < data.Length ==> data[j] == if start <= j < i then fillCell else edged[j]
      {
        data[i] := fillCell;
        i := i + 1;
      }
    }
  }

  function Replaced(row: Row, start: nat, end: nat, fill: Cell): (r: Row)
    requires start <= |row|
    ensures |r| == |row|
  {
    var edge := Cell(0, 1, fill.fg, fill.bg);
    var r1 := if start > 0 && row[start - 1].width == 2 then row[start - 1 := edge] else row;
    var r2 := if 0 < end < |row| && r1[end - 1].width == 2 then r1[end := edge] else r1;
    seq(|row|, i requires 0 <= i < |row| => if start <= i < end then fill else r2[i])
  }

  /** Every character of width two is followed by its second half, and every half is one. */
  predicate Whole(row: Row) {
    forall j :: 0 <= j < |row| ==> WholeAt(row, j)
  }

  predicate WholeAt(row: Row, j: nat)
    requires j < |row|
  {
    && row[j].width <= 2
    && (row[j].width == 2 ==> j + 1 < |row| && row[j + 1].width == 0)
    && (row[j].width == 0 ==> j > 0 && row[j - 1].width == 2)
  }

  /** What filling a range leaves at column `j`: at its edges the halves that it cuts off are cleared. */
  function Edged(row: Row, start: nat, end: nat, fill: Cell, j: nat): Cell
    requires j < |row|
  {
    if start <= j < end then fill
    else if (j + 1 == start && row[j].width == 2) || (j == end && row[j].width == 0) then Cell(0, 1, fill.fg, fill.bg)
    else row[j]
  }

  lemma {:induction false} ReplacedIs(row: Row, start: nat, end: nat, fill: Cell, j: nat)
    requires Whole(row) && start < end <= |row| && j < |row|
    ensures Replaced(row, start, end, fill)[j] == Edged(row, start, end, fill, j)
  {
    assert WholeAt(row, end - 1) && (end < |row| ==> WholeAt(row, end));
  }

  /** So characters stay whole. */
  lemma {:induction false} ReplacedStaysWhole(row: Row, start: nat, end: nat, fill: Cell)
    requires Whole(row) && start < end <= |row| && fill.width == 1
    ensures Whole(Replaced(row, start, end, fill))
    ensures forall j :: 0 <= j < |row| ==> Replaced(row, start, end, fill)[j] == Edged(row, start, end, fill, j)
  {
    var row' := Replaced(row, start, end, fill);
    hide Replaced;
    forall j | 0 <= j < |row|
      ensures row'[j] == Edged(row, start, end, fill, j)
    {
      ReplacedIs(row, start, end, fill, j);
    }
    forall j: nat | j < |row|
      ensures WholeAt(row', j)
    {
      assert WholeAt(row, j) && (j > 0 ==> WholeAt(row, j - 1)) && (j + 1 < |row| ==> WholeAt(row, j + 1));
    }
  }
}
