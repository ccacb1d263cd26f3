/** Scrolling: the ring of row objects seen as history and viewport. */
module BufferService {
  import opened Attributes
  import opened BufferLines
  import opened CircularList
  import opened Screen

  // ---- history and viewport ----

  datatype Sections = Sections(history: seq<Line>, viewport: seq<Line>)

  function Newest(lines: seq<Line>, n: nat): seq<Line> {
    if |lines| > n then lines[|lines| - n..] else lines
  }

  /** The scroll region moves up by one line with a blank one below it. If the region starts at the
      top, the line that leaves it goes to the history, which keeps its newest lines. */
  function Scrolled(v: Sections, top: nat, bottom: nat, scrollback: nat, blank: Line): Sections
    requires top <= bottom < |v.viewport|
  {
    Sections(if top == 0 then Newest(v.history + [v.viewport[0]], scrollback) else v.history,
         v.viewport[..top] + v.viewport[top + 1..bottom + 1] + [blank] + v.viewport[bottom + 1..])
  }

  function Split(lines: seq<Line>, yBase: nat): Sections
    requires yBase <= |lines|
  {
    Sections(lines[..yBase], lines[yBase..])
  }

  /** The list with a blank line behind the region, cut behind the line that leaves the region. */
  lemma {:induction false} InsertedParts(lines: seq<Line>, yBase: nat, at: nat, blank: Line)
    requires yBase < at <= |lines|
    ensures lines[..at] + [blank] + lines[at..] == lines[..yBase + 1] + (lines[yBase + 1..at] + [blank] + lines[at..])
  {
    assert lines[..at] == lines[..yBase + 1] + lines[yBase + 1..at];
  }

  lemma {:induction false} RegionParts(lines: seq<Line>, yBase: nat, bottom: nat, blank: Line)
    requires yBase + bottom < |lines|
    ensures var v := lines[yBase..];
            v[..0] + v[1..bottom + 1] + [blank] + v[bottom + 1..] ==
            lines[yBase + 1..yBase + bottom + 1] + [blank] + lines[yBase + bottom + 1..]
  {
  }

  /** A list cut in two, from the front of which a line may be dropped. */
  lemma {:induction false} CutBehind(front: seq<Line>, below: seq<Line>)
    requires front != []
    ensures Split(front + below, |front|) == Sections(front, below)
    ensures Split((front + below)[1..], |front| - 1) == Sections(front[1..], below)
  {
    assert (front + below)[..|front|] == front && (front + below)[|front|..] == below;
    assert (front + below)[1..] == front[1..] + below;
    assert (front[1..] + below)[..|front| - 1] == front[1..] && (front[1..] + below)[|front| - 1..] == below;
  }

  /** A region that starts at the top: the blank line is put behind it, and the front of the list is
      dropped if the list is full. */
  lemma {:induction false} ScrolledFromTop(lines: seq<Line>, yBase: nat, bottom: nat, capacity: nat, blank: Line)
    requires yBase + bottom < |lines| <= capacity && |lines| - yBase <= capacity
    ensures var at := yBase + bottom + 1;
            var lines' := Bounded(lines[..at] + [blank] + lines[at..], capacity);
            var yBase' := if |lines| == capacity then yBase else yBase + 1;
            && yBase' <= |lines'| && |lines'| - yBase' == |lines| - yBase
            && Split(lines', yBase') == Scrolled(Split(lines, yBase), 0, bottom, capacity - (|lines| - yBase), blank)
  {
    hide Split, Scrolled, Bounded;
    var at := yBase + bottom + 1;
    InsertedParts(lines, yBase, at, blank);
    ScrolledParts(lines, yBase, bottom, capacity - (|lines| - yBase), blank);
    ScrolledJoin(lines[..yBase + 1], lines[yBase + 1..at] + [blank] + lines[at..], capacity);
  }

  /** The list is cut at the front if it has become too long. */
  lemma {:induction false} ScrolledJoin(front: seq<Line>, below: seq<Line>, capacity: nat)
    requires front != [] && |front| + |below| <= capacity + 1
    ensures var lines := Bounded(front + below, capacity);
            var over := if |front| + |below| == capacity + 1 then 1 else 0;
            && |lines| == |front| + |below| - over
            && Split(lines, |front| - over) == Sections(front[over..], below)
  {
    hide Split;
    CutBehind(front, below);
    assert front[0..] == front;
  }

  lemma {:induction false} ScrolledParts(lines: seq<Line>, yBase: nat, bottom: nat, scrollback: nat, blank: Line)
    requires yBase + bottom < |lines| && yBase <= scrollback
    ensures var at := yBase + bottom + 1;
            var front, below := lines[..yBase + 1], lines[yBase + 1..at] + [blank] + lines[at..];
            Scrolled(Split(lines, yBase), 0, bottom, scrollback, blank) ==
            Sections(if yBase == scrollback then front[1..] else front, below)
  {
    RegionParts(lines, yBase, bottom, blank);
    assert lines[..yBase + 1] == lines[..yBase] + [lines[yBase..][0]];
  }

  /** A region further down: only its lines change places. */
  lemma {:induction false} ScrolledInside(lines: seq<Line>, yBase: nat, top: nat, bottom: nat, scrollback: nat,
                                          blank: Line)
    requires 0 < top <= bottom && yBase + bottom < |lines|
    ensures var lines' := lines[..yBase + top] + lines[yBase + top + 1..yBase + bottom + 1] + [blank] +
            lines[yBase + bottom + 1..];
            |lines'| == |lines| && Split(lines', yBase) == Scrolled(Split(lines, yBase), top, bottom, scrollback, blank)
  {
    var v := lines[yBase..];
    var region := v[..top] + v[top + 1..bottom + 1] + [blank] + v[bottom + 1..];
    assert lines[..yBase + top] == lines[..yBase] + v[..top];
    assert lines[yBase + top + 1..yBase + bottom + 1] == v[top + 1..bottom + 1] &&
           lines[yBase + bottom + 1..] == v[bottom + 1..];
    var lines' := lines[..yBase + top] + lines[yBase + top + 1..yBase + bottom + 1] + [blank] +
        lines[yBase + bottom + 1..];
    assert lines' == lines[..yBase] + region;
    assert lines'[..yBase] == lines[..yBase] && lines'[yBase..] == region;
  }

  // ---- the objects ----

  ghost function LinesOf(rows: seq<BufferLine>): (lines: seq<Line>)
    reads rows, set k | 0 <= k < |rows| :: rows[k].data
    ensures |lines| == |rows| && forall i :: 0 <= i < |rows| ==> lines[i] == Line(rows[i].data[..], rows[i].isWrapped)
  {
    seq(|rows|, i requires 0 <= i < |rows| reads rows, set k | 0 <= k < |rows| :: rows[k].data =>
          Line(rows[i].data[..], rows[i].isWrapped))
  }

  /** No two rows are the same object or share cells. */
  ghost predicate Separate(rows: seq<BufferLine>)
    reads rows
  {
    forall i, j :: 0 <= i < j < |rows| ==> rows[i] != rows[j] && rows[i].data != rows[j].data
  }

  /** The line is none of the rows, and shares its cells with none. */
  ghost predicate Outside(line: BufferLine, rows: seq<BufferLine>)
    reads line, rows
  {
    forall i :: 0 <= i < |rows| ==> rows[i] != line && rows[i].data != line.data
  }

  // ---- how many rows come and go when their number changes ----

  /** History that comes back: only if the cursor is on the last row. */
  function Returned(yBase: nat, rows: nat, y: nat, newRows: nat): nat {
    if rows < newRows && y == rows - 1 then if yBase < newRows - rows then yBase else newRows - rows else 0
  }

  lemma NoneReturned(yBase: nat, rows: nat, y: nat, yDisp: nat)
    ensures Returned(yBase, rows, y, rows) == 0 && Least(yBase - yDisp, yBase) == yBase - yDisp
  {
  }

  lemma ReturnedNext(yBase: nat, rows: nat, y: nat, row: nat)
    requires y < rows <= row
    ensures var back := Returned(yBase, rows, y, row);
            Returned(yBase, rows, y, row + 1) == if back < yBase && row <= y + back + 1 then back + 1 else back
  {
  }

  /** The distance of the view when one row comes back. */
  lemma NextBack(back: int, yBase: nat)
    ensures yBase > 0 ==> Least(back, yBase - 1) == Least(Least(back, yBase), yBase - 1)
    ensures Least(back, yBase) <= yBase
    ensures yBase > 0 ==> Least(back, yBase - 1) == if Least(back, yBase) < yBase then Least(back, yBase) else yBase - 1
  {
  }

  /** Blank rows at the end. */
  function AddedRows(yBase: nat, rows: nat, y: nat, newRows: nat): nat {
    if rows < newRows then newRows - rows - Returned(yBase, rows, y, newRows) else 0
  }

  /** The first row that goes, of those below the cursor. */
  function KeepRows(yBase: nat, rows: nat, y: nat, newRows: nat): nat {
    if rows <= newRows then yBase + rows else if y < newRows then yBase + newRows else yBase + y + 1
  }

  function Within(v: nat, n: nat): (r: nat)
    requires n > 0
    ensures r < n
  {
    if v < n then v else n - 1
  }

  function Least(a: int, b: int): int {
    if a < b then a else b
  }

  function Reduced(v: nat, n: nat): nat {
    if v > n then v - n else 0
  }

  /** What does not fit goes from the front. */
  function Overflow(length: nat, capacity: nat): nat {
    if length > capacity then length - capacity else 0
  }

  class Buffer {
    const lines: CircularList<BufferLine>
    const cols: nat
    const scrollback: nat
    const hasScrollback: bool
    var rows: nat
    var yDisp: nat
    var yBase: nat
    var x: nat
    var y: nat
    var savedX: nat
    var savedY: nat
    var scrollTop: nat
    var scrollBottom: nat

    /** A buffer whose viewport is filled with blank lines. */
    constructor (cols: nat, rows: nat, scrollback: nat, hasScrollback: bool)
      requires cols > 0 && rows > 0
      ensures Filled() && fresh(lines) && fresh(lines.array_)
      ensures this.cols == cols && this.rows == rows && this.scrollback == scrollback &&
              this.hasScrollback == hasScrollback
      ensures yBase == 0 && yDisp == 0 && x == 0 && y == 0 && scrollTop == 0 && scrollBottom == rows - 1
      ensures Separate(Rows()) && LinesOf(Rows()) == BlankLines(rows, cols)
    {
      var none := new BufferLine(0, NULL_CELL, false);
      var list := new CircularList<BufferLine>(if hasScrollback then rows + scrollback else rows, none);
      FillViewportRows(list, cols, rows);
      this.lines, this.cols, this.scrollback, this.hasScrollback := list, cols, scrollback, hasScrollback;
      this.rows, yDisp, yBase, x, y, savedX, savedY := rows, 0, 0, 0, 0, 0, 0;
      scrollTop, scrollBottom := 0, rows - 1;
    }

    ghost function Rows(): (rows: seq<BufferLine>)
      requires lines.Valid()
      reads lines, lines.array_
      ensures |rows| == lines.length
    {
      lines.Contents()
    }

    function CorrectLength(rows: nat): nat {
      if hasScrollback then rows + scrollback else rows
    }

    /** The viewport is filled: it is the end of the list, the cursor and the view are within. */
    ghost predicate Filled()
      reads this, lines, lines.array_
    {
      && cols > 0 && rows > 0 && lines.Valid() && lines.Capacity() == CorrectLength(rows)
      && lines.length == yBase + rows && lines.length <= CorrectLength(rows)
      && yDisp <= yBase && y < rows
    }

    lemma FilledIsValid()
      requires Filled()
      ensures lines.Valid() && cols > 0 && lines.length == yBase + rows && y < rows
    {
    }

    /** More rows: lines come back from the history as long as the cursor is on the last one; the rest
        are new. */
    method GrowRows(newRows: nat) returns (addToY: nat)
      requires lines.Valid() && Separate(Rows()) && rows < newRows && y < rows && yDisp <= yBase
      requires lines.length == yBase + rows && yBase + newRows <= lines.Capacity()
      modifies this`yBase, this`yDisp, lines, lines.array_
      ensures lines.Valid() && lines.array_ == old(lines.array_) && lines.trimmed == old(lines.trimmed)
      ensures Separate(Rows()) && |Rows()| >= old(|Rows()|) && Rows()[..old(|Rows()|)] == old(Rows())
      ensures LinesOf(Rows()) == old(LinesOf(Rows())) + BlankLines(|Rows()| - old(|Rows()|), cols)
      ensures lines.length == yBase + newRows && yBase + addToY == old(yBase) && y + addToY < newRows && yDisp <= yBase
      ensures addToY == Returned(old(yBase), rows, y, newRows)
      ensures yBase - yDisp == Least(old(yBase - yDisp), yBase)
    {
      hide Separate, LinesOf, View, Returned, Least;
      addToY := 0;
      ghost var was := Rows();
      ghost var wasLines := LinesOf(was);
      assert wasLines + BlankLines(0, cols) == wasLines;
      NoneReturned(yBase, rows, y, yDisp);
      for row := rows to newRows
        invariant lines.Valid() && lines.array_ == old(lines.array_) && lines.trimmed == old(lines.trimmed)
        invariant |was| <= |Rows()| && Rows()[..|was|] == was && Separate(Rows())
        invariant LinesOf(Rows()) == wasLines + BlankLines(|Rows()| - |was|, cols)
        invariant lines.length == yBase + row && yBase + addToY == old(yBase) && addToY <= row - rows && yDisp <= yBase
        invariant addToY == Returned(old(yBase), rows, y, row)
        invariant yBase - yDisp == Least(old(yBase - yDisp), yBase)
      {
        ReturnedNext(old(yBase), rows, y, row);
        NextBack(old(yBase - yDisp), yBase);
        if lines.length < newRows + yBase {
          if yBase > 0 && lines.length <= yBase + y + addToY + 1 {
            yBase := yBase - 1;
            addToY := addToY + 1;
            if yDisp > 0 {
              yDisp := yDisp - 1;
            }
          } else {
            ghost var n := |Rows()| - |was|;
            PushBlank(lines, cols);
            assert BlankLines(n, cols) + BlankLines(1, cols) == BlankLines(n + 1, cols);
          }
        }
      }
    }

    /** Fewer rows: lines below the cursor go first, then lines of the viewport become history. */
    method ShrinkRows(newRows: nat)
      requires 0 < newRows <= rows && y < rows && yDisp <= yBase && lines.Valid()
      requires lines.length == yBase + rows
      modifies this`yBase, this`yDisp, lines
      ensures lines.Valid() && lines.array_ == old(lines.array_) && lines.trimmed == old(lines.trimmed)
      ensures old(yBase) + y < |Rows()| <= old(|Rows()|) && Rows() == old(Rows())[..|Rows()|]
      ensures lines.length == yBase + newRows && yBase >= old(yBase) && yDisp <= yBase
      ensures if y < newRows then yBase == old(yBase) else lines.length == old(yBase) + y + 1
      ensures yBase - yDisp == old(yBase - yDisp)
    {
      hide View;
      ghost var was := Rows();
      for row := rows downto newRows
        invariant lines.Valid() && lines.array_ == old(lines.array_) && lines.trimmed == old(lines.trimmed)
        invariant old(yBase) + y < |Rows()| <= |was| && Rows() == was[..|Rows()|]
        invariant lines.length == yBase + row && yBase >= old(yBase) && yDisp <= yBase
        invariant yBase > old(yBase) ==> lines.length == old(yBase) + y + 1
        invariant yBase - yDisp == old(yBase - yDisp)
      {
        if lines.length > newRows + yBase {
          if lines.length > yBase + y + 1 {
            var dropped := lines.Pop();
          } else {
            yBase := yBase + 1;
            yDisp := yDisp + 1;
          }
        }
      }
    }

    /** The first half of a change of rows: capacity for more, then the rows themselves. */
    method AdjustRows(newRows: nat) returns (addToY: nat, ghost keep: nat)
      requires Filled() && Separate(Rows()) && newRows > 0
      modifies this`yBase, this`yDisp, lines, lines.array_
      ensures lines.Valid() && (fresh(lines.array_) || lines.array_ == old(lines.array_))
      ensures lines.trimmed == old(lines.trimmed) && lines.Capacity() >= CorrectLength(newRows) &&
              lines.length <= lines.Capacity()
      ensures lines.length == yBase + newRows && yDisp <= yBase && Separate(Rows())
      ensures old(yBase) + y < keep && Continued(old(Rows()), old(LinesOf(Rows())), Rows(), LinesOf(Rows()), keep, cols)
      ensures yBase + addToY + Within(y, newRows) == old(yBase) + y
      ensures addToY + Within(y, newRows) < newRows
      ensures keep == KeepRows(old(yBase), rows, y, newRows) &&
              |Rows()| == keep + AddedRows(old(yBase), rows, y, newRows)
      ensures yBase - yDisp == Least(old(yBase - yDisp), yBase)
    {
      hide Separate, LinesOf, View, BlankLines;
      ghost var was := Rows();
      ghost var wasLines := LinesOf(was);
      var newMaxLength := CorrectLength(newRows);
      if newMaxLength > lines.array_.Length {
        lines.SetMaxLength(newMaxLength);
      }
      assert Rows() == was && Separate(was) && LinesOf(was) == wasLines;
      addToY := 0;
      keep := |was|;
      assert wasLines[..keep] == wasLines;
      if rows < newRows {
        addToY := GrowRows(newRows);
      } else {
        ShrinkRows(newRows);
        keep := |Rows()|;
        assert Separate(was) && LinesOf(was) == wasLines;
        FirstRows(was, keep, cols);
      }
    }

    /** Another number of rows in the same columns. The cursor stays on its row object; rows go only
        from below the cursor, `keep` being the first that does, and from the front of the history, only
        as many as have to; rows come only at the end. The view stays as far above its lowest position as
        it was, as far as there is history; at its lowest position it stays there. */
    method Resize(newRows: nat) returns (ghost keep: nat, ghost front: nat)
      requires Filled() && Separate(Rows()) && newRows > 0
      modifies this, lines, lines.array_
      ensures fresh(lines.array_) || lines.array_ == old(lines.array_)
      ensures Filled() && Separate(Rows()) && rows == newRows && lines.trimmed == old(lines.trimmed) + front
      ensures RowsChanged(old(Rows()), Rows(), front, keep, old(yBase + y), yBase + y)
      ensures LinesBetween(old(LinesOf(Rows())), LinesOf(Rows()), front, keep, cols)
      ensures keep == KeepRows(old(yBase), old(rows), old(y), newRows)
      ensures front == Overflow(keep + AddedRows(old(yBase), old(rows), old(y), newRows), CorrectLength(newRows))
      ensures |Rows()| == keep + AddedRows(old(yBase), old(rows), old(y), newRows) - front
      ensures yBase - yDisp == Least(old(yBase - yDisp), yBase)
      ensures x == Within(old(x), cols) && savedX == Within(old(savedX), cols) && savedY == Reduced(old(savedY), front)
      ensures scrollTop == 0 && scrollBottom == newRows - 1
    {
      hide *;
      FilledIsValid();
      ghost var was, wasLines, cursor := Rows(), LinesOf(Rows()), yBase + y;
      ghost var mid;
      mid, keep, front := ChangeRows(newRows);
      FilledIsValid();
      ResizedRows(was, wasLines, mid, Rows(), keep, front, cursor, cols);
    }

    /** Both halves of a change of rows; `mid` are the rows between them. */
    method ChangeRows(newRows: nat) returns (ghost mid: seq<BufferLine>, ghost keep: nat, ghost front: nat)
      requires Filled() && Separate(Rows()) && newRows > 0
      modifies this, lines, lines.array_
      ensures fresh(lines.array_) || lines.array_ == old(lines.array_)
      ensures Filled() && rows == newRows && lines.trimmed == old(lines.trimmed) + front
      ensures front <= old(yBase + y) < keep && yBase + y == old(yBase + y) - front
      ensures Separate(mid) && Continued(old(Rows()), old(LinesOf(Rows())), mid, LinesOf(mid), keep, cols)
      ensures CutInFront(mid, Rows(), front)
      ensures keep == KeepRows(old(yBase), old(rows), old(y), newRows)
      ensures |mid| == keep + AddedRows(old(yBase), old(rows), old(y), newRows)
      ensures front == Overflow(|mid|, CorrectLength(newRows))
      ensures yBase - yDisp == Least(old(yBase - yDisp), yBase)
      ensures x == Within(old(x), cols) && savedX == Within(old(savedX), cols) && savedY == Reduced(old(savedY), front)
      ensures scrollTop == 0 && scrollBottom == newRows - 1
    {
      hide Filled, Separate, LinesOf, Continued, CutInFront, KeepRows, AddedRows, Returned, Overflow, Within, Reduced;
      FilledIsValid();
      var addToY;
      addToY, keep := AdjustRows(newRows);
      mid := Rows();
      front := Settle(newRows, addToY, mid);
    }

    /** The second half of a change of rows: what does not fit goes, and the cursor is put back. */
    method Settle(newRows: nat, addToY: nat, ghost kept: seq<BufferLine>) returns (ghost front: nat)
      requires cols > 0 && newRows > 0 && lines.Valid() && lines.Capacity() >= CorrectLength(newRows) && Rows() == kept
      requires lines.length == yBase + newRows && yDisp <= yBase
      requires addToY + Within(y, newRows) < newRows
      modifies this, lines
      ensures Filled() && rows == newRows && (lines.array_ == old(lines.array_) || fresh(lines.array_))
      ensures front <= old(yBase) && CutInFront(kept, Rows(), front) && lines.trimmed == old(lines.trimmed) + front
      ensures yBase + front == old(yBase) && y == addToY + Within(old(y), newRows)
      ensures front == Overflow(|kept|, CorrectLength(newRows))
      ensures yBase - yDisp == Least(old(yBase - yDisp), yBase)
      ensures x == Within(old(x), cols) && savedX == Within(old(savedX), cols) && savedY == Reduced(old(savedY), front)
      ensures scrollTop == 0 && scrollBottom == newRows - 1
      ensures LinesOf(kept) == old(LinesOf(kept)) && Separate(kept) == old(Separate(kept))
    {
      hide Separate, LinesOf, View;
      var newMaxLength := CorrectLength(newRows);
      if newMaxLength < lines.array_.Length {
        ReduceMaxLength(newMaxLength, kept);
      }
      front := old(yBase) - yBase;
      PlaceCursor(newRows, addToY, kept);
    }

    /** The cursor and the scroll region after a change of rows. */
    method PlaceCursor(newRows: nat, addToY: nat, ghost kept: seq<BufferLine>)
      requires cols > 0 && newRows > 0 && lines.length == yBase + newRows
      requires addToY + Within(y, newRows) < newRows
      modifies this`x, this`y, this`savedX, this`scrollTop, this`scrollBottom, this`rows
      ensures x == Within(old(x), cols) && savedX == Within(old(savedX), cols)
      ensures y == addToY + Within(old(y), newRows)
      ensures rows == newRows && scrollTop == 0 && scrollBottom == newRows - 1
      ensures LinesOf(kept) == old(LinesOf(kept)) && Separate(kept) == old(Separate(kept))
    {
      x := if x < cols - 1 then x else cols - 1;
      y := if y < newRows - 1 then y else newRows - 1;
      if addToY > 0 {
        y := y + addToY;
      }
      savedX := if savedX < cols - 1 then savedX else cols - 1;
      scrollTop := 0;
      scrollBottom := newRows - 1;
      rows := newRows;
      var maxY := lines.length - yBase - 1;
      y := if y < maxY then y else maxY;
    }

    /** Drops what does not fit any more from the front of the history. */
    method ReduceMaxLength(newMaxLength: nat, ghost kept: seq<BufferLine>)
      requires lines.Valid() && 0 < newMaxLength
      requires lines.length <= yBase + newMaxLength && yDisp <= yBase
      modifies this`yBase, this`yDisp, this`savedY, lines
      ensures lines.Valid() && lines.Capacity() == newMaxLength &&
              (lines.array_ == old(lines.array_) || fresh(lines.array_))
      ensures var front := if old(lines.length) > newMaxLength then old(lines.length) - newMaxLength else 0;
              && Rows() == old(Rows())[front..] && lines.trimmed == old(lines.trimmed) + front
              && yBase + front == old(yBase) && yDisp <= yBase && savedY == Reduced(old(savedY), front)
              && yBase - yDisp == Least(old(yBase - yDisp), yBase)
      ensures LinesOf(kept) == old(LinesOf(kept)) && Separate(kept) == old(Separate(kept))
    {
      hide View;
      if lines.length > newMaxLength {
        var amountToTrim := lines.length - newMaxLength;
        lines.TrimStart(amountToTrim);
        yBase := if yBase > amountToTrim then yBase - amountToTrim else 0;
        yDisp := if yDisp > amountToTrim then yDisp - amountToTrim else 0;
        savedY := if savedY > amountToTrim then savedY - amountToTrim else 0;
      }
      lines.SetMaxLength(newMaxLength);
    }
  }

  /** The first `keep` rows with their text, and behind them, if those are all, blank ones. */
  ghost predicate Continued(was: seq<BufferLine>, wasLines: seq<Line>, now: seq<BufferLine>, lines: seq<Line>,
                            keep: nat, cols: nat) {
    && keep <= |was| == |wasLines| && keep <= |now| && now[..keep] == was[..keep] && (keep < |was| ==> |now| == keep)
    && lines == wasLines[..keep] + BlankLines(|now| - keep, cols)
  }

  ghost predicate CutInFront(was: seq<BufferLine>, now: seq<BufferLine>, front: nat) {
    front <= |was| && now == was[front..]
  }

  /** The rows from `front` to `keep` are still there, in front of new ones if all rows below stayed. */
  ghost predicate KeptBetween(was: seq<BufferLine>, now: seq<BufferLine>, front: nat, keep: nat) {
    && front <= keep <= |was| && keep - front <= |now|
    && now[..keep - front] == was[front..keep] && (keep < |was| ==> |now| == keep - front)
  }

  /** Those, and the cursor is on the row that it was on. */
  ghost predicate RowsChanged(was: seq<BufferLine>, now: seq<BufferLine>, front: nat, keep: nat, cursor: nat, at: nat) {
    && KeptBetween(was, now, front, keep)
    && front <= cursor < keep && at == cursor - front && at < |now| && now[at] == was[cursor]
  }

  /** Their text has not changed, and the new ones are blank. */
  predicate LinesBetween(was: seq<Line>, now: seq<Line>, front: nat, keep: nat, cols: nat) {
    && front <= keep <= |was| && keep - front <= |now|
    && now == was[front..keep] + BlankLines(|now| - (keep - front), cols)
  }

  lemma KeptRows(was: seq<BufferLine>, mid: seq<BufferLine>, keep: nat, front: nat, cursor: nat)
    requires front <= cursor < keep <= |was| && keep <= |mid| && mid[..keep] == was[..keep] &&
             (keep < |was| ==> |mid| == keep)
    ensures RowsChanged(was, mid[front..], front, keep, cursor, cursor - front)
  {
    assert mid[..keep][cursor] == was[..keep][cursor];
    assert mid[..keep][front..] == mid[front..][..keep - front];
  }

  lemma KeptLines(was: seq<Line>, mid: seq<Line>, keep: nat, front: nat, cols: nat)
    requires front <= keep <= |was| && keep <= |mid| && mid == was[..keep] + BlankLines(|mid| - keep, cols)
    ensures LinesBetween(was, mid[front..], front, keep, cols)
  {
  }

  lemma ResizedRows(was: seq<BufferLine>, wasLines: seq<Line>, mid: seq<BufferLine>, now: seq<BufferLine>,
                    keep: nat, front: nat, cursor: nat, cols: nat)
    requires front <= cursor < keep && Separate(mid)
    requires Continued(was, wasLines, mid, LinesOf(mid), keep, cols) && CutInFront(mid, now, front)
    ensures |now| == |mid| - front && Separate(now) && RowsChanged(was, now, front, keep, cursor, cursor - front)
    ensures LinesBetween(wasLines, LinesOf(now), front, keep, cols)
  {
    hide Separate, LinesOf, BlankLines, RowsChanged, LinesBetween;
    LastRows(mid, front);
    KeptRows(was, mid, keep, front, cursor);
    KeptLines(wasLines, LinesOf(mid), keep, front, cols);
  }

  lemma FirstRows(rows: seq<BufferLine>, n: nat, cols: nat)
    requires n <= |rows| && Separate(rows)
    ensures Separate(rows[..n]) && LinesOf(rows[..n]) == LinesOf(rows)[..n] + BlankLines(0, cols)
  {
  }

  lemma LastRows(rows: seq<BufferLine>, n: nat)
    requires n <= |rows| && Separate(rows)
    ensures Separate(rows[n..]) && LinesOf(rows[n..]) == LinesOf(rows)[n..]
  {
  }

  function BlankLines(n: nat, cols: nat): seq<Line> {
    seq(n, _ => Line(Blank(cols, NULL_CELL), false))
  }

  method PushBlank(list: CircularList<BufferLine>, cols: nat)
    requires list.Valid() && !list.IsFull() && Separate(list.Contents())
    modifies list, list.array_
    ensures list.Valid() && list.array_ == old(list.array_) && list.trimmed == old(list.trimmed) &&
            Separate(list.Contents())
    ensures |list.Contents()| == old(|list.Contents()|) + 1 &&
            list.Contents()[..old(|list.Contents()|)] == old(list.Contents())
    ensures LinesOf(list.Contents()) == old(LinesOf(list.Contents())) + BlankLines(1, cols)
  {
    hide Bounded;
    ghost var was := list.Contents();
    var line := new BufferLine(cols, NULL_CELL, false);
    PushLine(list, line);
    assert list.Contents() == was + [line];
  }

  method PushLine(list: CircularList<BufferLine>, line: BufferLine)
    requires list.Valid() && !list.IsFull()
    modifies list, list.array_
    ensures list.Valid() && list.array_ == old(list.array_) && list.trimmed == old(list.trimmed)
    ensures list.Contents() == old(list.Contents()) + [line]
  {
    list.Push(line);
  }

  method FillViewportRows(list: CircularList<BufferLine>, cols: nat, rows: nat)
    requires list.Valid() && list.Contents() == [] && 0 < rows <= list.Capacity()
    modifies list, list.array_
    ensures list.Valid() && list.array_ == old(list.array_) && list.length == rows
    ensures Separate(list.Contents()) && LinesOf(list.Contents()) == BlankLines(rows, cols)
  {
    hide Separate, LinesOf, View;
    NoRows();
    for i := 0 to rows
      invariant list.Valid() && list.array_ == old(list.array_) && list.length == i
      invariant Separate(list.Contents()) && LinesOf(list.Contents()) == BlankLines(i, cols)
    {
      PushBlank(list, cols);
    }
  }

  lemma NoRows()
    ensures Separate([]) && LinesOf([]) == []
  {
  }

  /** Every cell of a blank line is the erased cell. */
  ghost predicate IsBlank(line: BufferLine)
    reads line, line.data
  {
    line.data.Length > 0 && line.data[..] == Blank(line.data.Length, Cell(0, 1, line.data[0].fg, line.data[0].bg))
  }

  /** The row that the oldest one becomes. */
  method RecycleFor(list: CircularList<BufferLine>, newLine: BufferLine)
    requires list.Valid() && list.IsFull() && Separate(list.Contents()) && Outside(newLine, list.Contents())
    modifies list, list.Contents()[0], list.Contents()[0].data
    ensures list.Valid() && list.array_ == old(list.array_) && Separate(list.Contents()) &&
            Outside(newLine, list.Contents())
    ensures LinesOf(list.Contents()) == old(LinesOf(list.Contents()))[1..] + [Line(newLine.data[..], newLine.isWrapped)]
    ensures list.Contents() == old(list.Contents())[1..] + [old(list.Contents())[0]]
    ensures LineOf(newLine) == old(LineOf(newLine)) && IsBlank(newLine) == old(IsBlank(newLine))
    ensures list.trimmed == old(list.trimmed) + 1
  {
    hide LinesOf, Separate, Outside, IsBlank, LineOf, View;
    ghost var was := list.Contents();
    ghost var wasLines, line := LinesOf(was), LineOf(newLine);
    var last := list.Recycle();
    assert Separate(was) && Outside(newLine, was) && LinesOf(was) == wasLines && LineOf(newLine) == line;
    TurnedRows(was, newLine);
    ghost var now := list.Contents();
    assert now == was[1..] + [was[0]] && last == now[|now| - 1];
    CopyLast(now, last, newLine);
    LineOfLine(newLine);
  }

  lemma LineOfLine(line: BufferLine)
    ensures LineOf(line) == Line(line.data[..], line.isWrapped)
  {
  }

  /** The first row comes last. */
  lemma TurnedRows(rows: seq<BufferLine>, line: BufferLine)
    requires rows != [] && Separate(rows) && Outside(line, rows)
    ensures var turned := rows[1..] + [rows[0]];
            && Separate(turned) && Outside(line, turned)
            && |turned| == |rows| && LinesOf(turned)[..|turned| - 1] == LinesOf(rows)[1..]
  {
  }

  method CopyLast(ghost rows: seq<BufferLine>, last: BufferLine, newLine: BufferLine)
    requires rows != [] && last == rows[|rows| - 1] && Separate(rows) && Outside(newLine, rows)
    modifies last, last.data
    ensures Separate(rows) && Outside(newLine, rows)
    ensures LinesOf(rows) == old(LinesOf(rows))[..|rows| - 1] + [old(LineOf(newLine))]
    ensures LineOf(newLine) == old(LineOf(newLine)) && IsBlank(newLine) == old(IsBlank(newLine))
  {
    hide Blank;
    ghost var wasLines := LinesOf(rows);
    last.CopyFrom(newLine);
    assert forall k :: 0 <= k < |rows| - 1 ==> LinesOf(rows)[k] == wasLines[k];
  }

  method PushClone(list: CircularList<BufferLine>, newLine: BufferLine)
    requires list.Valid() && !list.IsFull() && Separate(list.Contents()) && Outside(newLine, list.Contents())
    modifies list, list.array_
    ensures list.Valid() && list.array_ == old(list.array_) && Separate(list.Contents()) &&
            Outside(newLine, list.Contents())
    ensures LinesOf(list.Contents()) == old(LinesOf(list.Contents())) + [Line(newLine.data[..], newLine.isWrapped)]
    ensures |list.Contents()| == old(|list.Contents()|) + 1 &&
            list.Contents()[..old(|list.Contents()|)] == old(list.Contents())
    ensures list.trimmed == old(list.trimmed)
  {
    hide View, LinesOf, Separate;
    ghost var was := list.Contents();
    ghost var wasLines := LinesOf(was);
    var copy := newLine.Clone();
    assert Separate(was) && Outside(copy, was) && LinesOf(was) == wasLines;
    PushedRows(was, copy, newLine);
    list.Push(copy);
    assert list.Contents() == was + [copy];
  }

  lemma PushedRows(was: seq<BufferLine>, copy: BufferLine, line: BufferLine)
    requires Separate(was) && Outside(copy, was) && Outside(line, was) && copy != line && copy.data != line.data
    ensures Separate(was + [copy]) && Outside(line, was + [copy])
    ensures LinesOf(was + [copy]) == LinesOf(was) + [Line(copy.data[..], copy.isWrapped)]
  {
  }

  ghost function LineOf(row: BufferLine): Line
    reads row, row.data
  {
    Line(row.data[..], row.isWrapped)
  }

  lemma {:induction false} InsertedRows(was: seq<BufferLine>, at: nat, copy: BufferLine)
    requires at <= |was| && Separate(was) && Outside(copy, was)
    ensures var rows := was[..at] + [copy] + was[at..];
            Separate(rows) && LinesOf(rows) == LinesOf(was)[..at] + [LineOf(copy)] + LinesOf(was)[at..]
  {
    var rows := was[..at] + [copy] + was[at..];
    InsertedLines(was, at, copy);
    hide LinesOf, LineOf;
    forall i, j | 0 <= i < j < |rows|
      ensures rows[i] != rows[j] && rows[i].data != rows[j].data
    {
      assert rows[i] == (if i < at then was[i] else if i == at then copy else was[i - 1]);
      assert rows[j] == (if j < at then was[j] else if j == at then copy else was[j - 1]);
    }
  }

  lemma InsertedLines(was: seq<BufferLine>, at: nat, copy: BufferLine)
    requires at <= |was|
    ensures LinesOf(was[..at] + [copy] + was[at..]) == LinesOf(was)[..at] + [LineOf(copy)] + LinesOf(was)[at..]
  {
    var rows, lines := was[..at] + [copy] + was[at..], LinesOf(was)[..at] + [LineOf(copy)] + LinesOf(was)[at..];
    forall i | 0 <= i < |rows|
      ensures LinesOf(rows)[i] == lines[i]
    {
      assert rows[i] == (if i < at then was[i] else if i == at then copy else was[i - 1]);
    }
  }

  lemma BoundedLength(lines: seq<Line>, capacity: nat)
    ensures |Bounded(lines, capacity)| == if |lines| > capacity then capacity else |lines|
  {
  }

  lemma {:induction false} BoundedRows(rows: seq<BufferLine>, capacity: nat)
    requires Separate(rows)
    ensures Separate(Bounded(rows, capacity)) && LinesOf(Bounded(rows, capacity)) == Bounded(LinesOf(rows), capacity)
  {
  }

  lemma {:induction false} BoundedOutside(was: seq<BufferLine>, at: nat, copy: BufferLine, line: BufferLine,
                                          capacity: nat)
    requires at <= |was| && Outside(line, was) && copy != line && copy.data != line.data
    ensures Outside(line, Bounded(was[..at] + [copy] + was[at..], capacity))
  {
  }

  /** A new last row: the recycled oldest one, or a clone. */
  method AddAtEnd(list: CircularList<BufferLine>, newLine: BufferLine)
    requires list.Valid() && list.length > 0 && Separate(list.Contents()) && Outside(newLine, list.Contents())
    modifies list, list.array_, list.Contents()[0], list.Contents()[0].data
    ensures list.Valid() && list.array_ == old(list.array_) && Separate(list.Contents()) &&
            Outside(newLine, list.Contents())
    ensures LineOf(newLine) == old(LineOf(newLine)) && IsBlank(newLine) == old(IsBlank(newLine))
    ensures var was := old(LinesOf(list.Contents()));
            LinesOf(list.Contents()) == Bounded(was[..|was|] + [old(LineOf(newLine))] + was[|was|..], list.Capacity())
    ensures list.trimmed == old(list.trimmed) + if old(list.IsFull()) then 1 else 0
  {
    hide LinesOf, Separate, Outside, IsBlank, View, Bounded;
    AtTheEnd(LinesOf(list.Contents()), LineOf(newLine), list.Capacity());
    if list.IsFull() {
      RecycleFor(list, newLine);
    } else {
      PushClone(list, newLine);
    }
  }

  /** A clone in the middle: the list drops its oldest row if it is full. */
  method InsertClone(list: CircularList<BufferLine>, at: nat, newLine: BufferLine)
    requires list.Valid() && 0 < at <= list.length && Separate(list.Contents()) && Outside(newLine, list.Contents())
    modifies list, list.array_
    ensures list.Valid() && list.array_ == old(list.array_) && Separate(list.Contents()) &&
            Outside(newLine, list.Contents())
    ensures var was := old(LinesOf(list.Contents()));
            LinesOf(list.Contents()) == Bounded(was[..at] + [LineOf(newLine)] + was[at..], list.Capacity())
    ensures list.trimmed == old(list.trimmed) + if old(list.IsFull()) then 1 else 0
  {
    hide Inserted, Deleted, LinesOf, Bounded, Separate;
    ghost var was := list.Contents();
    var copy := newLine.Clone();
    assert Outside(copy, was);
    SpliceAt(list, at, copy);
    assert LinesOf(was) == old(LinesOf(list.Contents()));
    assert Separate(was);
    InsertedRows(was, at, copy);
    BoundedRows(was[..at] + [copy] + was[at..], list.Capacity());
    BoundedOutside(was, at, copy, newLine, list.Capacity());
  }

  method SpliceAt(list: CircularList<BufferLine>, at: nat, copy: BufferLine)
    requires list.Valid() && 0 < at <= list.length
    modifies list, list.array_
    ensures list.Valid() && list.array_ == old(list.array_)
    ensures var was := old(list.Contents()); list.Contents() == Bounded(was[..at] + [copy] + was[at..], list.Capacity())
    ensures list.trimmed == old(list.trimmed) + if old(list.IsFull()) then 1 else 0
  {
    hide Inserted, Deleted, Bounded, View;
    list.Splice(at, 0, [copy]);
  }

  /** Where a row of the list after a scroll inside it was before; the copy is in none of the places. */
  function PlaceBefore(topRow: nat, bottomRow: nat, i: nat): nat {
    if topRow <= i < bottomRow then i + 1 else i
  }

  lemma {:induction false} ReplacedRows(was: seq<BufferLine>, topRow: nat, bottomRow: nat, copy: BufferLine)
    requires topRow <= bottomRow < |was| && Separate(was) && Outside(copy, was)
    ensures var rows := was[..topRow] + was[topRow + 1..bottomRow + 1] + [copy] + was[bottomRow + 1..];
            && Separate(rows)
            && LinesOf(rows) == LinesOf(was)[..topRow] + LinesOf(was)[topRow + 1..bottomRow + 1] + [LineOf(copy)]
                                + LinesOf(was)[bottomRow + 1..]
  {
    var rows := was[..topRow] + was[topRow + 1..bottomRow + 1] + [copy] + was[bottomRow + 1..];
    forall i, j | 0 <= i < j < |rows|
      ensures rows[i] != rows[j] && rows[i].data != rows[j].data
    {
      RowBefore(was, topRow, bottomRow, copy, i);
      RowBefore(was, topRow, bottomRow, copy, j);
    }
  }

  lemma RowBefore(was: seq<BufferLine>, topRow: nat, bottomRow: nat, copy: BufferLine, i: nat)
    requires topRow <= bottomRow < |was| && i < |was|
    ensures (was[..topRow] + was[topRow + 1..bottomRow + 1] + [copy] + was[bottomRow + 1..])[i] ==
            if i == bottomRow then copy else was[PlaceBefore(topRow, bottomRow, i)]
  {
  }

  lemma ReplacedOutside(was: seq<BufferLine>, topRow: nat, bottomRow: nat, copy: BufferLine, line: BufferLine)
    requires topRow <= bottomRow < |was| && Outside(line, was) && copy != line && copy.data != line.data
    ensures Outside(line, was[..topRow] + was[topRow + 1..bottomRow + 1] + [copy] + was[bottomRow + 1..])
  {
  }

  method CloneOutside(line: BufferLine, ghost rows: seq<BufferLine>) returns (copy: BufferLine)
    ensures fresh(copy) && fresh(copy.data) && LineOf(copy) == LineOf(line) && Outside(copy, rows)
    ensures copy != line && copy.data != line.data
  {
    copy := line.Clone();
  }

  /** The rows of the region move up over the first one, and a clone takes the last place. */
  method ShiftRegion(list: CircularList<BufferLine>, topRow: nat, bottomRow: nat, newLine: BufferLine)
    requires list.Valid() && topRow <= bottomRow < list.length
    requires Separate(list.Contents()) && Outside(newLine, list.Contents())
    modifies list, list.array_
    ensures list.Valid() && list.array_ == old(list.array_) && Separate(list.Contents()) &&
            Outside(newLine, list.Contents())
    ensures var was := old(LinesOf(list.Contents()));
            LinesOf(list.Contents()) ==
            was[..topRow] + was[topRow + 1..bottomRow + 1] + [LineOf(newLine)] + was[bottomRow + 1..]
    ensures list.trimmed == old(list.trimmed)
  {
    hide LinesOf, Separate, Outside;
    ghost var was := list.Contents();
    var copy := CloneOutside(newLine, was);
    ShiftAndSet(list, topRow, bottomRow, copy);
    assert LinesOf(was) == old(LinesOf(list.Contents()));
    assert Separate(was) && Outside(newLine, was);
    ReplacedRows(was, topRow, bottomRow, copy);
    ReplacedOutside(was, topRow, bottomRow, copy, newLine);
  }

  method ShiftAndSet(list: CircularList<BufferLine>, topRow: nat, bottomRow: nat, copy: BufferLine)
    requires list.Valid() && topRow <= bottomRow < list.length
    modifies list, list.array_
    ensures list.Valid() && list.array_ == old(list.array_) && list.trimmed == old(list.trimmed)
    ensures var was := old(list.Contents());
            list.Contents() == was[..topRow] + was[topRow + 1..bottomRow + 1] + [copy] + was[bottomRow + 1..]
  {
    hide View, Bounded;
    ghost var was := list.Contents();
    var scrollRegionHeight := bottomRow - topRow + 1;
    list.ShiftElements(topRow + 1, scrollRegionHeight - 1, -1);
    if topRow < bottomRow {
      ShiftedRegion(was, topRow, bottomRow, list.Capacity());
    } else {
      assert was[..topRow] + was[topRow + 1..bottomRow + 1] + was[bottomRow..] == was;
    }
    list.Set(bottomRow, copy);
    ReplacedAt(was, topRow, bottomRow, copy);
  }

  lemma ShiftedRegion(was: seq<BufferLine>, topRow: nat, bottomRow: nat, capacity: nat)
    requires topRow < bottomRow < |was| <= capacity
    ensures Bounded(Shifted(was, topRow + 1, bottomRow - topRow, -1), capacity) ==
            was[..topRow] + was[topRow + 1..bottomRow + 1] + was[bottomRow..]
  {
  }

  lemma ReplacedAt(was: seq<BufferLine>, topRow: nat, bottomRow: nat, copy: BufferLine)
    requires topRow <= bottomRow < |was|
    ensures (was[..topRow] + was[topRow + 1..bottomRow + 1] + was[bottomRow..])[bottomRow := copy] ==
            was[..topRow] + was[topRow + 1..bottomRow + 1] + [copy] + was[bottomRow + 1..]
  {
  }

  method SetWrapped(line: BufferLine, isWrapped: bool, ghost rows: seq<BufferLine>)
    requires Outside(line, rows) && IsBlank(line)
    modifies line`isWrapped
    ensures Outside(line, rows) && IsBlank(line) && LineOf(line) == Line(line.data[..], isWrapped)
    ensures LinesOf(rows) == old(LinesOf(rows)) && Separate(rows) == old(Separate(rows))
    ensures forall i :: 0 <= i < |rows| ==> rows[i].data == old(rows[i].data)
  {
    line.isWrapped := isWrapped;
  }

  method NewBlank(cols: nat, erase: Attr, isWrapped: bool, ghost rows: seq<BufferLine>) returns (newLine: BufferLine)
    requires cols > 0
    ensures LinesOf(rows) == old(LinesOf(rows)) && Separate(rows) == old(Separate(rows))
    ensures forall i :: 0 <= i < |rows| ==> rows[i].data == old(rows[i].data)
    ensures fresh(newLine) && fresh(newLine.data) && Outside(newLine, rows) && IsBlank(newLine)
    ensures newLine.data[..] == Blank(cols, Cell(0, 1, erase.fg, erase.bg))
  {
    newLine := new BufferLine(cols, Cell(0, 1, erase.fg, erase.bg), isWrapped);
  }

  lemma BlankIsNotEmpty(line: BufferLine)
    requires IsBlank(line)
    ensures line.data.Length > 0
    ensures line.data[..] == Blank(line.data.Length, Cell(0, 1, line.data[0].fg, line.data[0].bg))
  {
  }

  class BufferService {
    const cols: nat
    const rows: nat
    const buffer: Buffer
    var isUserScrolling: bool
    var cachedBlankLine: BufferLine?

    constructor (cols: nat, rows: nat, buffer: Buffer)
      ensures this.cols == cols && this.rows == rows && this.buffer == buffer
      ensures !isUserScrolling && cachedBlankLine == null
    {
      this.cols, this.rows, this.buffer := cols, rows, buffer;
      isUserScrolling, cachedBlankLine := false, null;
    }

    /** The viewport is the last `rows` rows of the list, and holds the scroll region. */
    ghost predicate Shaped()
      reads this, buffer, buffer.lines, buffer.lines.array_
    {
      && cols > 0 && buffer.lines.Valid()
      && buffer.lines.length == buffer.yBase + rows && rows <= buffer.lines.Capacity()
      && buffer.scrollTop <= buffer.scrollBottom < rows && buffer.yDisp <= buffer.yBase
    }

    /** The cached line is blank and not one of the rows. */
    ghost predicate CacheIsBlank()
      requires Shaped()
      reads this, buffer, buffer.lines, buffer.lines.array_, buffer.Rows()
      reads if cachedBlankLine == null then {} else {cachedBlankLine, cachedBlankLine.data}
    {
      cachedBlankLine != null ==> IsBlank(cachedBlankLine) && Outside(cachedBlankLine, buffer.Rows())
    }

    ghost function Shown(): Sections
      requires Shaped()
      reads this, buffer, buffer.lines, buffer.lines.array_, buffer.Rows(), set row | row in buffer.Rows() :: row.data
    {
      Split(LinesOf(buffer.Rows()), buffer.yBase)
    }

    lemma CachedIsOutside(line: BufferLine)
      requires Shaped() && CacheIsBlank() && cachedBlankLine == line
      ensures Outside(line, buffer.Rows()) && IsBlank(line)
    {
    }

    /** The cached blank line if it has the right width and colours, else a new one. */
    method BlankFor(erase: Attr, isWrapped: bool) returns (newLine: BufferLine)
      requires Shaped() && CacheIsBlank() && Separate(buffer.Rows())
      modifies this`cachedBlankLine, if cachedBlankLine == null then {} else {cachedBlankLine}
      ensures Shaped() && CacheIsBlank() && newLine == cachedBlankLine
      ensures Separate(buffer.Rows()) && Shown() == old(Shown())
      ensures buffer.Rows()[0].data == old(buffer.Rows()[0].data)
      ensures newLine == old(cachedBlankLine) || (fresh(newLine) && fresh(newLine.data))
      ensures LineOf(newLine) == Line(Blank(cols, Cell(0, 1, erase.fg, erase.bg)), isWrapped)
    {
      hide LinesOf, Separate, Outside, IsBlank, Split, View, Blank;
      ghost var rows := buffer.Rows();
      var found := cachedBlankLine;
      if found != null {
        CachedIsOutside(found);
        BlankIsNotEmpty(found);
      }
      if found != null && found.data.Length == cols && found.data[0].fg == erase.fg && found.data[0].bg == erase.bg {
        newLine := found;
      } else {
        newLine := NewBlank(cols, erase, isWrapped, rows);
        cachedBlankLine := newLine;
      }
      SetWrapped(newLine, isWrapped, rows);
    }

    /** The new line below line `bottomRow`; what does not fit any more goes in front. */
    method AddBelow(bottomRow: nat, newLine: BufferLine)
      requires Shaped() && CacheIsBlank() && cachedBlankLine == newLine && Separate(buffer.Rows())
      requires bottomRow < buffer.lines.length
      modifies buffer.lines, buffer.lines.array_, buffer.Rows()[0], buffer.Rows()[0].data
      ensures buffer.lines.Valid() && buffer.lines.Capacity() == old(buffer.lines.Capacity()) && Separate(buffer.Rows())
      ensures IsBlank(newLine) && Outside(newLine, buffer.Rows())
      ensures var was := old(LinesOf(buffer.Rows()));
              LinesOf(buffer.Rows()) == Bounded(was[..bottomRow + 1] + [old(LineOf(newLine))] + was[bottomRow + 1..],
                                                buffer.lines.Capacity())
    {
      hide LinesOf, Bounded, View, ValidRing, Blank, Separate, Outside, IsBlank, LineOf;
      CachedIsOutside(newLine);
      if bottomRow == buffer.lines.length - 1 {
        AddAtEnd(buffer.lines, newLine);
      } else {
        InsertClone(buffer.lines, bottomRow + 1, newLine);
      }
    }

    /** The region starts at the top: the line that leaves it becomes history. */
    method ScrollFromTop(newLine: BufferLine)
      requires Shaped() && CacheIsBlank() && cachedBlankLine == newLine
      requires buffer.scrollTop == 0 && Separate(buffer.Rows())
      modifies buffer`yBase, buffer.lines, buffer.lines.array_, buffer.Rows()[0], buffer.Rows()[0].data
      ensures Shaped() && CacheIsBlank() && Separate(buffer.Rows())
      ensures Shown() == Scrolled(old(Shown()), 0, buffer.scrollBottom, buffer.lines.Capacity() - rows,
                                  old(LineOf(newLine)))
      ensures buffer.yBase == old(buffer.yBase) + if old(buffer.lines.IsFull()) then 0 else 1
      ensures buffer.lines.Capacity() == old(buffer.lines.Capacity())
    {
      hide LinesOf, Scrolled, Bounded, View, Blank, Separate, Outside, IsBlank, LineOf, Split;
      ghost var was := LinesOf(buffer.Rows());
      ghost var blank := LineOf(newLine);
      var bottomRow := buffer.yBase + buffer.scrollBottom;
      var willBeTrimmed := buffer.lines.IsFull();
      ScrolledFromTop(was, buffer.yBase, buffer.scrollBottom, buffer.lines.Capacity(), blank);
      BoundedLength(was[..bottomRow + 1] + [blank] + was[bottomRow + 1..], buffer.lines.Capacity());
      AddBelow(bottomRow, newLine);
      if !willBeTrimmed {
        buffer.yBase := buffer.yBase + 1;
      }
    }

    /** The region lies below the top line: nothing becomes history. */
    method ScrollInside(newLine: BufferLine)
      requires Shaped() && CacheIsBlank() && cachedBlankLine == newLine
      requires buffer.scrollTop > 0 && Separate(buffer.Rows())
      modifies buffer.lines, buffer.lines.array_
      ensures Shaped() && CacheIsBlank() && Separate(buffer.Rows())
      ensures Shown() == Scrolled(old(Shown()), buffer.scrollTop, buffer.scrollBottom,
                                  buffer.lines.Capacity() - rows, old(LineOf(newLine)))
      ensures buffer.lines.Capacity() == old(buffer.lines.Capacity())
    {
      hide LinesOf, Scrolled, Bounded, View, Blank, Separate, Outside, IsBlank;
      ghost var was := LinesOf(buffer.Rows());
      ScrolledInside(was, buffer.yBase, buffer.scrollTop, buffer.scrollBottom, buffer.lines.Capacity() - rows,
                     LineOf(newLine));
      ShiftRegion(buffer.lines, buffer.yBase + buffer.scrollTop, buffer.yBase + buffer.scrollBottom, newLine);
    }

    /** Scrolls the region up by one line. What the user looks at while scrolled back stays in view
        until it is dropped. */
    method Scroll(erase: Attr, isWrapped: bool)
      requires Shaped() && CacheIsBlank() && Separate(buffer.Rows())
      modifies this`cachedBlankLine, buffer`yBase, buffer`yDisp, buffer.lines, buffer.lines.array_
      modifies buffer.Rows()[0], buffer.Rows()[0].data, if cachedBlankLine == null then {} else {cachedBlankLine}
      ensures Shaped() && CacheIsBlank() && Separate(buffer.Rows())
      ensures Shown() == Scrolled(old(Shown()), buffer.scrollTop, buffer.scrollBottom, buffer.lines.Capacity() - rows,
                                  Line(Blank(cols, Cell(0, 1, erase.fg, erase.bg)), isWrapped))
      ensures if !isUserScrolling then buffer.yDisp == buffer.yBase
              else if buffer.scrollTop == 0 && old(buffer.lines.IsFull()) && old(buffer.yDisp) > 0 then
                buffer.yDisp == old(buffer.yDisp) - 1
              else buffer.yDisp == old(buffer.yDisp)
    {
      hide LinesOf, Scrolled, Bounded, View, ValidRing, Blank, Separate, Outside, IsBlank, Split, LineOf;
      var newLine := BlankFor(erase, isWrapped);
      var willBeTrimmed := buffer.lines.IsFull();
      ScrollRegion(newLine);
      CachedIsOutside(newLine);
      FollowScroll(willBeTrimmed, buffer.Rows(), newLine);
    }

    method ScrollRegion(newLine: BufferLine)
      requires Shaped() && CacheIsBlank() && cachedBlankLine == newLine && Separate(buffer.Rows())
      modifies buffer`yBase, buffer.lines, buffer.lines.array_, buffer.Rows()[0], buffer.Rows()[0].data
      ensures Shaped() && CacheIsBlank() && Separate(buffer.Rows())
      ensures Shown() == Scrolled(old(Shown()), buffer.scrollTop, buffer.scrollBottom, buffer.lines.Capacity() - rows,
                                  old(LineOf(newLine)))
      ensures buffer.lines.Capacity() == old(buffer.lines.Capacity())
    {
      hide LinesOf, Scrolled, Bounded, View, ValidRing, Blank, Separate, Outside, IsBlank, Split, LineOf;
      if buffer.scrollTop == 0 {
        ScrollFromTop(newLine);
      } else {
        ScrollInside(newLine);
      }
    }

    /** Where the view is after a line has been scrolled. */
    method FollowScroll(wasTrimmed: bool, ghost rows: seq<BufferLine>, ghost line: BufferLine)
      modifies buffer`yDisp
      ensures LinesOf(rows) == old(LinesOf(rows)) && Separate(rows) == old(Separate(rows))
      ensures Outside(line, rows) == old(Outside(line, rows)) && IsBlank(line) == old(IsBlank(line))
      ensures if !isUserScrolling then buffer.yDisp == buffer.yBase
              else if buffer.scrollTop == 0 && wasTrimmed && old(buffer.yDisp) > 0 then
                buffer.yDisp == old(buffer.yDisp) - 1
              else buffer.yDisp == old(buffer.yDisp)
    {
      if buffer.scrollTop == 0 {
        if !wasTrimmed {
          if !isUserScrolling {
            buffer.yDisp := buffer.yDisp + 1;
          }
        } else if isUserScrolling {
          buffer.yDisp := if buffer.yDisp > 1 then buffer.yDisp - 1 else 0;
        }
      }
      if !isUserScrolling {
        buffer.yDisp := buffer.yBase;
      }
    }

    /** Moves the view over the history; it stays between the oldest line and the viewport. */
    method ScrollLines(disp: int)
      requires Shaped()
      modifies this`isUserScrolling, buffer`yDisp
      ensures Shaped()
      ensures var wanted := old(buffer.yDisp) + disp;
              buffer.yDisp == if wanted < 0 then 0 else if wanted > buffer.yBase then buffer.yBase else wanted
      ensures isUserScrolling == if disp < 0 then old(isUserScrolling) || old(buffer.yDisp) > 0
                                 else old(isUserScrolling) && old(buffer.yDisp) + disp < buffer.yBase
    {
      if disp < 0 {
        if buffer.yDisp == 0 {
          return;
        }
        isUserScrolling := true;
      } else if disp + buffer.yDisp >= buffer.yBase {
        isUserScrolling := false;
      }
      var wanted := if buffer.yDisp + disp < buffer.yBase then buffer.yDisp + disp else buffer.yBase;
      buffer.yDisp := if wanted > 0 then wanted else 0;
    }
  }

  /** The screen that a serialized buffer is replayed on scrolls in the same way. */
  lemma {:induction false} ScreenScrollAgrees(t: Term, wrapped: bool)
    requires Valid(t)
    ensures var t' := Screen.Scroll(t, wrapped);
            && t'.yBase <= |t'.lines|
            && Split(t'.lines, t'.yBase) == Scrolled(Split(t.lines, t.yBase), 0, t.rows - 1, t.scrollback,
                                                     BlankLine(t, wrapped))
  {
    hide Split, Scrolled, Bounded, BlankLine;
    ScrolledFromTop(t.lines, t.yBase, t.rows - 1, t.rows + t.scrollback, BlankLine(t, wrapped));
    AtTheEnd(t.lines, BlankLine(t, wrapped), t.rows + t.scrollback);
  }

  lemma AtTheEnd(lines: seq<Line>, blank: Line, capacity: nat)
    requires 0 < |lines| <= capacity
    ensures var at := |lines|;
            Bounded(lines[..at] + [blank] + lines[at..], capacity) ==
            if |lines| == capacity then lines[1..] + [blank] else lines + [blank]
  {
    assert lines[..|lines|] + [blank] + lines[|lines|..] == lines + [blank];
  }
}
