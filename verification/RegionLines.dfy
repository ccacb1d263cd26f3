/** Inserting, deleting and scrolling lines within the scroll region (IL, DL, SU and SD of ECMA-48). */
module RegionLines {
  import opened Attributes
  import opened BufferLines
  import opened BufferService
  import CircularList
  import Screen

  type Line = Screen.Line

  // ---- on lists ----

  /** One new line at `lo`; the one at `hi` goes. */
  function InsertedOnce(lines: seq<Line>, lo: nat, hi: nat, blank: Line): (r: seq<Line>)
    requires lo <= hi < |lines|
    ensures |r| == |lines|
  {
    lines[..lo] + [blank] + lines[lo..hi] + lines[hi + 1..]
  }

  function DeletedOnce(lines: seq<Line>, lo: nat, hi: nat, blank: Line): (r: seq<Line>)
    requires lo <= hi < |lines|
    ensures |r| == |lines|
  {
    lines[..lo] + lines[lo + 1..hi + 1] + [blank] + lines[hi + 1..]
  }

  function Inserted(lines: seq<Line>, lo: nat, hi: nat, n: nat, blank: Line): (r: seq<Line>)
    requires lo <= hi < |lines|
    ensures |r| == |lines|
  {
    if n == 0 then lines else InsertedOnce(Inserted(lines, lo, hi, n - 1, blank), lo, hi, blank)
  }

  function Deleted(lines: seq<Line>, lo: nat, hi: nat, n: nat, blank: Line): (r: seq<Line>)
    requires lo <= hi < |lines|
    ensures |r| == |lines|
  {
    if n == 0 then lines else DeletedOnce(Deleted(lines, lo, hi, n - 1, blank), lo, hi, blank)
  }

  function Copies(n: nat, blank: Line): (r: seq<Line>)
    ensures |r| == n
  {
    seq(n, _ => blank)
  }

  function Least(a: nat, b: nat): nat {
    if a < b then a else b
  }

  lemma OnceInsertedAt(lines: seq<Line>, lo: nat, hi: nat, blank: Line, i: nat)
    requires lo <= hi < |lines| && i < |lines|
    ensures InsertedOnce(lines, lo, hi, blank)[i] ==
            if i < lo || hi < i then lines[i] else if i == lo then blank else lines[i - 1]
  {
  }

  lemma OnceDeletedAt(lines: seq<Line>, lo: nat, hi: nat, blank: Line, i: nat)
    requires lo <= hi < |lines| && i < |lines|
    ensures DeletedOnce(lines, lo, hi, blank)[i] ==
            if i < lo || hi < i then lines[i] else if i == hi then blank else lines[i + 1]
  {
  }

  lemma {:induction false} InsertedAt(lines: seq<Line>, lo: nat, hi: nat, n: nat, blank: Line, i: nat)
    requires lo <= hi < |lines| && i < |lines|
    ensures Inserted(lines, lo, hi, n, blank)[i] ==
            if i < lo || hi < i then lines[i] else if i < lo + n then blank else lines[i - n]
  {
    hide InsertedOnce;
    if n > 0 {
      OnceInsertedAt(Inserted(lines, lo, hi, n - 1, blank), lo, hi, blank, i);
      InsertedAt(lines, lo, hi, n - 1, blank, i);
      if lo < i <= hi {
        InsertedAt(lines, lo, hi, n - 1, blank, i - 1);
      }
    }
  }

  lemma {:induction false} DeletedAt(lines: seq<Line>, lo: nat, hi: nat, n: nat, blank: Line, i: nat)
    requires lo <= hi < |lines| && i < |lines|
    ensures Deleted(lines, lo, hi, n, blank)[i] ==
            if i < lo || hi < i then lines[i] else if hi < i + n then blank else lines[i + n]
  {
    hide DeletedOnce;
    if n > 0 {
      OnceDeletedAt(Deleted(lines, lo, hi, n - 1, blank), lo, hi, blank, i);
      DeletedAt(lines, lo, hi, n - 1, blank, i);
      if lo <= i < hi {
        DeletedAt(lines, lo, hi, n - 1, blank, i + 1);
      }
    }
  }

  /** Repeating it shifts the lines from `lo` to `hi` down by as many, or clears them all. */
  lemma {:induction false} InsertedIs(lines: seq<Line>, lo: nat, hi: nat, n: nat, blank: Line)
    requires lo <= hi < |lines|
    ensures var k := Least(n, hi + 1 - lo);
            Inserted(lines, lo, hi, n, blank) ==
              lines[..lo] + Copies(k, blank) + lines[lo..hi + 1 - k] + lines[hi + 1..]
  {
    hide Inserted;
    var k := Least(n, hi + 1 - lo);
    var shifted := lines[..lo] + Copies(k, blank) + lines[lo..hi + 1 - k] + lines[hi + 1..];
    forall i | 0 <= i < |lines|
      ensures Inserted(lines, lo, hi, n, blank)[i] == shifted[i]
    {
      InsertedAt(lines, lo, hi, n, blank, i);
    }
  }

  lemma {:induction false} DeletedIs(lines: seq<Line>, lo: nat, hi: nat, n: nat, blank: Line)
    requires lo <= hi < |lines|
    ensures var k := Least(n, hi + 1 - lo);
            Deleted(lines, lo, hi, n, blank) == lines[..lo] + lines[lo + k..hi + 1] + Copies(k, blank) + lines[hi + 1..]
  {
    hide Deleted;
    var k := Least(n, hi + 1 - lo);
    var shifted := lines[..lo] + lines[lo + k..hi + 1] + Copies(k, blank) + lines[hi + 1..];
    forall i | 0 <= i < |lines|
      ensures Deleted(lines, lo, hi, n, blank)[i] == shifted[i]
    {
      DeletedAt(lines, lo, hi, n, blank, i);
    }
  }

  /** Deleting as many lines as have been inserted brings back all but those pushed out of the region. */
  lemma {:induction false} DeleteUndoesInsert(lines: seq<Line>, lo: nat, hi: nat, n: nat, blank: Line)
    requires lo <= hi < |lines|
    ensures var k := Least(n, hi + 1 - lo);
            Deleted(Inserted(lines, lo, hi, n, blank), lo, hi, n, blank) ==
            lines[..hi + 1 - k] + Copies(k, blank) + lines[hi + 1..]
  {
    hide Inserted, Deleted;
    var k := Least(n, hi + 1 - lo);
    var undone := lines[..hi + 1 - k] + Copies(k, blank) + lines[hi + 1..];
    forall i | 0 <= i < |lines|
      ensures Deleted(Inserted(lines, lo, hi, n, blank), lo, hi, n, blank)[i] == undone[i]
    {
      DeletedAt(Inserted(lines, lo, hi, n, blank), lo, hi, n, blank, i);
      InsertedAt(lines, lo, hi, n, blank, if lo <= i && i + n <= hi then i + n else i);
    }
  }

  /** And nothing is lost exactly if those were blank. */
  lemma {:induction false} UndoneExactly(lines: seq<Line>, lo: nat, hi: nat, n: nat, blank: Line)
    requires lo <= hi < |lines|
    ensures Deleted(Inserted(lines, lo, hi, n, blank), lo, hi, n, blank) == lines <==>
            forall i :: hi + 1 - Least(n, hi + 1 - lo) <= i <= hi ==> lines[i] == blank
  {
    hide Inserted, Deleted;
    var k := Least(n, hi + 1 - lo);
    DeleteUndoesInsert(lines, lo, hi, n, blank);
    var undone := lines[..hi + 1 - k] + Copies(k, blank) + lines[hi + 1..];
    forall i | 0 <= i < |lines|
      ensures undone[i] == if hi + 1 - k <= i <= hi then blank else lines[i]
    {
    }
  }

  // ---- on the row objects ----

  /** Moves one line of the list elsewhere, and makes it a new one. */
  method Rotate(list: CircularList.CircularList<BufferLine>, from: nat, to: nat, line: BufferLine)
    requires list.Valid() && from < list.length && to < list.length
    modifies list, list.array_
    ensures list.Valid() && list.array_ == old(list.array_) && list.length == old(list.length) &&
            list.trimmed == old(list.trimmed)
    ensures var was := old(list.Contents()); var cut := was[..from] + was[from + 1..];
            list.Contents() == cut[..to] + [line] + cut[to..]
  {
    hide CircularList.View, CircularList.Deleted, CircularList.Inserted;
    ghost var was := list.Contents();
    list.Splice(from, 1, []);
    assert list.Contents() == was[..from] + was[from + 1..] by {
      assert was[..from] + [] + was[from + 1..] == was[..from] + was[from + 1..];
    }
    list.Splice(to, 0, [line]);
  }

  lemma {:induction false} CutInserted(lines: seq<Line>, lo: nat, hi: nat, blank: Line)
    requires lo <= hi < |lines|
    ensures var cut := lines[..hi] + lines[hi + 1..];
            cut[..lo] + [blank] + cut[lo..] == InsertedOnce(lines, lo, hi, blank)
  {
    var cut := lines[..hi] + lines[hi + 1..];
    assert cut[..lo] == lines[..lo] && cut[lo..] == lines[lo..hi] + lines[hi + 1..];
  }

  lemma {:induction false} CutDeleted(lines: seq<Line>, lo: nat, hi: nat, blank: Line)
    requires lo <= hi < |lines|
    ensures var cut := lines[..lo] + lines[lo + 1..];
            cut[..hi] + [blank] + cut[hi..] == DeletedOnce(lines, lo, hi, blank)
  {
    var cut := lines[..lo] + lines[lo + 1..];
    assert cut[..hi] == lines[..lo] + lines[lo + 1..hi + 1] && cut[hi..] == lines[hi + 1..];
  }

  /** The other rows are the objects they were. */
  lemma {:induction false} RotatedRows(was: seq<BufferLine>, from: nat, to: nat, line: BufferLine)
    requires from < |was| && to < |was| && Separate(was) && Outside(line, was)
    ensures var cut := was[..from] + was[from + 1..]; var rows := cut[..to] + [line] + cut[to..];
            var lines := LinesOf(was)[..from] + LinesOf(was)[from + 1..];
            Separate(rows) && LinesOf(rows) == lines[..to] + [LineOf(line)] + lines[to..]
  {
    var cut := was[..from] + was[from + 1..];
    assert Separate(cut) && Outside(line, cut);
    assert LinesOf(cut) == LinesOf(was)[..from] + LinesOf(was)[from + 1..];
    InsertedRows(cut, to, line);
  }

  function BlankOf(cols: nat, erase: Attr): Line {
    Screen.Line(Blank(cols, Cell(0, 1, erase.fg, erase.bg)), false)
  }

  method RotateBlank(list: CircularList.CircularList<BufferLine>, from: nat, to: nat, cols: nat, erase: Attr)
    requires list.Valid() && from < list.length && to < list.length && Separate(list.Contents())
    modifies list, list.array_
    ensures list.Valid() && list.array_ == old(list.array_) && list.length == old(list.length) &&
            list.trimmed == old(list.trimmed)
    ensures Separate(list.Contents())
    ensures var was := old(LinesOf(list.Contents())); var cut := was[..from] + was[from + 1..];
            LinesOf(list.Contents()) == cut[..to] + [BlankOf(cols, erase)] + cut[to..]
  {
    hide CircularList.View, LinesOf, Separate, Outside;
    ghost var was := list.Contents();
    ghost var lines := LinesOf(was);
    var line := NewLine(cols, erase, was);
    Rotate(list, from, to, line);
    assert LinesOf(was) == lines && Separate(was) && Outside(line, was);
    RotatedRows(was, from, to, line);
  }

  method NewLine(cols: nat, erase: Attr, ghost rows: seq<BufferLine>) returns (line: BufferLine)
    ensures fresh(line) && fresh(line.data) && Outside(line, rows) && LineOf(line) == BlankOf(cols, erase)
    ensures LinesOf(rows) == old(LinesOf(rows)) && Separate(rows) == old(Separate(rows))
  {
    line := new BufferLine(cols, Cell(0, 1, erase.fg, erase.bg), false);
  }

  method InsertAt(list: CircularList.CircularList<BufferLine>, lo: nat, hi: nat, n: nat, cols: nat, erase: Attr)
    requires list.Valid() && lo <= hi < list.length && Separate(list.Contents())
    modifies list, list.array_
    ensures list.Valid() && list.array_ == old(list.array_) && list.length == old(list.length) &&
            list.trimmed == old(list.trimmed)
    ensures Separate(list.Contents())
    ensures LinesOf(list.Contents()) == Inserted(old(LinesOf(list.Contents())), lo, hi, n, BlankOf(cols, erase))
  {
    hide CircularList.View, LinesOf, Separate, InsertedOnce, Blank;
    ghost var was := LinesOf(list.Contents());
    for i := 0 to n
      invariant list.Valid() && list.array_ == old(list.array_) && list.length == old(list.length) == |was|
      invariant list.trimmed == old(list.trimmed) && Separate(list.Contents())
      invariant LinesOf(list.Contents()) == Inserted(was, lo, hi, i, BlankOf(cols, erase))
    {
      CutInserted(LinesOf(list.Contents()), lo, hi, BlankOf(cols, erase));
      RotateBlank(list, hi, lo, cols, erase);
    }
  }

  method DeleteAt(list: CircularList.CircularList<BufferLine>, lo: nat, hi: nat, n: nat, cols: nat, erase: Attr)
    requires list.Valid() && lo <= hi < list.length && Separate(list.Contents())
    modifies list, list.array_
    ensures list.Valid() && list.array_ == old(list.array_) && list.length == old(list.length) &&
            list.trimmed == old(list.trimmed)
    ensures Separate(list.Contents())
    ensures LinesOf(list.Contents()) == Deleted(old(LinesOf(list.Contents())), lo, hi, n, BlankOf(cols, erase))
  {
    hide CircularList.View, LinesOf, Separate, DeletedOnce, Blank;
    ghost var was := LinesOf(list.Contents());
    for i := 0 to n
      invariant list.Valid() && list.array_ == old(list.array_) && list.length == old(list.length) == |was|
      invariant list.trimmed == old(list.trimmed) && Separate(list.Contents())
      invariant LinesOf(list.Contents()) == Deleted(was, lo, hi, i, BlankOf(cols, erase))
    {
      CutDeleted(LinesOf(list.Contents()), lo, hi, BlankOf(cols, erase));
      RotateBlank(list, lo, hi, cols, erase);
    }
  }

  // ---- the handlers ----

  /** The viewport of `rows` lines is filled, and the scroll region lies within. */
  ghost predicate InShape(b: Buffer, rows: nat)
    reads b, b.lines, b.lines.array_
  {
    b.lines.Valid() && b.lines.length == b.yBase + rows && b.scrollTop <= b.scrollBottom < rows && b.y < rows
  }

  function Times(param: int): nat {
    if param > 1 then param else 1
  }

  /** The control functions that work on lines: at the cursor, if it is in the region, or on all of it. */
  datatype LineFunction = InsertLine | DeleteLine | ScrollUp | ScrollDown

  predicate AtCursor(f: LineFunction) {
    f == InsertLine || f == DeleteLine
  }

  /** `insertLines`, `deleteLines`, `scrollUp` and `scrollDown`, by at least one line: inserting and
      scrolling down shift the lines down, deleting and scrolling up shift them up. The first two work from
      the cursor's line on, and only if it is in the region. Only the last fills with default colours. */
  method MoveLines(b: Buffer, rows: nat, cols: nat, f: LineFunction, param: int, erase: Attr)
    requires InShape(b, rows) && cols > 0 && Separate(b.Rows())
    modifies b`x, b.lines, b.lines.array_
    ensures InShape(b, rows) && Separate(b.Rows()) && b.lines.trimmed == old(b.lines.trimmed)
    ensures f == InsertLine || f == DeleteLine ==>
              if b.scrollTop <= b.y <= b.scrollBottom then
                var was, lo, hi := old(LinesOf(b.Rows())), b.yBase + b.y, b.yBase + b.scrollBottom;
                var n, blank := if param > 1 then param else 1,
                                Screen.Line(Blank(cols, Cell(0, 1, erase.fg, erase.bg)), false);
                && LinesOf(b.Rows()) == (if f == InsertLine then Inserted(was, lo, hi, n, blank)
                                         else Deleted(was, lo, hi, n, blank))
                && b.x == 0
              else
                LinesOf(b.Rows()) == old(LinesOf(b.Rows())) && b.x == if old(b.x) < cols then old(b.x) else cols - 1
    ensures f == ScrollUp || f == ScrollDown ==>
              var was, lo, hi := old(LinesOf(b.Rows())), b.yBase + b.scrollTop, b.yBase + b.scrollBottom;
              var n, fill := if param > 1 then param else 1, if f == ScrollUp then erase else DEFAULT_ATTR;
              var blank := Screen.Line(Blank(cols, Cell(0, 1, fill.fg, fill.bg)), false);
              && LinesOf(b.Rows()) == (if f == ScrollUp then Deleted(was, lo, hi, n, blank)
                                       else Inserted(was, lo, hi, n, blank))
              && b.x == old(b.x)
  {
    hide LinesOf, Separate, Inserted, Deleted, CircularList.View, Blank;
    ghost var all := b.Rows();
    if AtCursor(f) {
      RestrictCursor(b, cols, all);
      if b.y > b.scrollBottom || b.y < b.scrollTop {
        return;
      }
      ShiftLines(b, f, b.yBase + b.y, b.yBase + b.scrollBottom, Times(param), cols, erase);
      ToFirstColumn(b, b.Rows());
    } else {
      ShiftLines(b, f, b.yBase + b.scrollTop, b.yBase + b.scrollBottom, Times(param), cols,
                 if f == ScrollDown then DEFAULT_ATTR else erase);
    }
  }

  method ShiftLines(b: Buffer, f: LineFunction, lo: nat, hi: nat, n: nat, cols: nat, erase: Attr)
    requires b.lines.Valid() && lo <= hi < b.lines.length && Separate(b.Rows())
    modifies b.lines, b.lines.array_
    ensures b.lines.Valid() && b.lines.array_ == old(b.lines.array_) && b.lines.length == old(b.lines.length)
    ensures Separate(b.Rows()) && b.lines.trimmed == old(b.lines.trimmed)
    ensures LinesOf(b.Rows()) == if f == InsertLine || f == ScrollDown
                                 then Inserted(old(LinesOf(b.Rows())), lo, hi, n, BlankOf(cols, erase))
                                 else Deleted(old(LinesOf(b.Rows())), lo, hi, n, BlankOf(cols, erase))
  {
    hide LinesOf, Separate, Inserted, Deleted, CircularList.View, Blank;
    if f == InsertLine || f == ScrollDown {
      InsertAt(b.lines, lo, hi, n, cols, erase);
    } else {
      DeleteAt(b.lines, lo, hi, n, cols, erase);
    }
  }

  method RestrictCursor(b: Buffer, cols: nat, ghost rows: seq<BufferLine>)
    requires cols > 0
    modifies b`x
    ensures b.x == Least(old(b.x), cols - 1)
    ensures LinesOf(rows) == old(LinesOf(rows)) && Separate(rows) == old(Separate(rows))
  {
    if b.x > cols - 1 {
      b.x := cols - 1;
    }
  }

  method ToFirstColumn(b: Buffer, ghost rows: seq<BufferLine>)
    modifies b`x
    ensures b.x == 0
    ensures LinesOf(rows) == old(LinesOf(rows)) && Separate(rows) == old(Separate(rows))
  {
    b.x := 0;
  }

  /** Sets the scroll region if the two margins are at least two lines apart; it always lies within the
      viewport and holds two lines or more. */
  method SetScrollRegion(b: Buffer, rows: nat, params: seq<int>)
    requires InShape(b, rows) && |params| >= 1
    modifies b`scrollTop, b`scrollBottom, b`x, b`y
    ensures InShape(b, rows)
    ensures var top := if params[0] > 1 then params[0] else 1;
            var bottom := if |params| >= 2 && 0 < params[1] <= rows then params[1] else rows;
            if bottom > top then
              && b.scrollTop == top - 1 && b.scrollBottom == bottom - 1 && b.x == 0 && b.y == 0
              && b.scrollTop < b.scrollBottom
            else
              && b.scrollTop == old(b.scrollTop) && b.scrollBottom == old(b.scrollBottom)
              && b.x == old(b.x) && b.y == old(b.y)
  {
    var top := Times(params[0]);
    var bottom := rows;
    if |params| >= 2 && params[1] > 0 && params[1] <= rows {
      bottom := params[1];
    }
    if bottom > top {
      b.scrollTop := top - 1;
      b.scrollBottom := bottom - 1;
      b.x := 0;
      b.y := 0;
    }
  }
}
