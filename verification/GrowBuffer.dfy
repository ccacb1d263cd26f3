/** Reflow of a whole buffer that gets wider: every wrapped group but the cursor's is re-wrapped, the
    lines left over go, and the viewport is put back. */
module GrowBuffer {
  import opened BufferLines
  import opened Wrapping
  import opened GrowingRows
  import opened GrowReflow
  import opened GrowLayout
  import BufferService
  import Screen
  import CircularList
  import ShrinkingRows
  import ReflowText

  ghost function WrapsOf(lines: seq<BufferLine>): (wraps: seq<bool>)
    reads lines
    ensures |wraps| == |lines| && forall i :: 0 <= i < |lines| ==> wraps[i] == lines[i].isWrapped
  {
    seq(|lines|, i requires 0 <= i < |lines| reads lines => lines[i].isWrapped)
  }

  /** A buffer whose rows have been widened from `cols` to `n` columns, the cursor on line `cursor`. */
  datatype Growth = Growth(was: seq<Row>, wraps: seq<bool>, cols: nat, n: nat, cursor: nat)

  /** A group of several lines that the cursor is not on is re-wrapped. */
  predicate Reflows(g: Growth, y: nat, e: nat) {
    e - y >= 2 && !(y <= g.cursor < e)
  }

  ghost predicate Widened(g: Growth) {
    && g.cols < g.n && |g.was| == |g.wraps|
    && forall y: nat, e: nat :: IsGroup(g.wraps, y, e) && Reflows(g, y, e) ==> WellFormedGroup(g.was[y..e], g.cols, g.n)
  }

  /** Group [y, e) holds its text at the new width in its first `k` rows, or is as it was. */
  ghost predicate RowsDone(g: Growth, now: seq<Row>, y: nat, e: nat, k: nat)
    requires y < e <= |g.was| && |now| == |g.was|
  {
    if Reflows(g, y, e) then TextDefined(g.was[y..e], g.cols) && GrownTo(GrowOf(g.was[y..e], g.cols, g.n), now[y..e], k)
    else now[y..e] == g.was[y..e] && k == e - y
  }

  /** The groups of the first `limit` lines are done, `kept[y]` lines are left of the one at `y`, and
      nothing behind has been touched. */
  ghost predicate Grew(g: Growth, now: seq<Row>, toRemove: seq<Removal>, kept: seq<nat>, limit: nat) {
    && |now| == |g.was| == |g.wraps| && limit <= |now| && |kept| == limit && Apart(toRemove, limit)
    && (forall i :: limit <= i < |now| ==> now[i] == g.was[i])
    && (forall y: nat, e: nat :: IsGroup(g.wraps, y, e) && e <= limit ==>
          Keeps(toRemove, y, e, kept[y]) && RowsDone(g, now, y, e, kept[y]))
  }

  function RemovalOf(y: nat, e: nat, k: nat): seq<Removal>
    requires y + k <= e
  {
    if y + k < e then [Removal(y + k, e - y - k)] else []
  }

  lemma {:induction false} RemovedFrom(toRemove: seq<Removal>, y: nat, e: nat, k: nat)
    requires Apart(toRemove, y) && y < e && 1 <= k <= e - y
    ensures Apart(toRemove + RemovalOf(y, e, k), e)
    ensures Keeps(toRemove + RemovalOf(y, e, k), y, e, k)
    ensures forall i: nat :: i < y ==> (Removes(toRemove + RemovalOf(y, e, k), i) <==> Removes(toRemove, i))
  {
    if y + k < e {
      assert Apart(toRemove, y + k);
      OneMoreRemoval(toRemove, Removal(y + k, e - y - k), e);
    } else {
      assert toRemove + [] == toRemove;
    }
  }

  lemma StillKeeps(toRemove: seq<Removal>, toRemove': seq<Removal>, y: nat, e: nat, k: nat, limit: nat)
    requires Keeps(toRemove, y, e, k) && e <= limit
    requires forall i: nat :: i < limit ==> (Removes(toRemove', i) <==> Removes(toRemove, i))
    ensures Keeps(toRemove', y, e, k)
  {
    hide Removes;
  }

  ghost predicate SameElsewhere(now: seq<Row>, now': seq<Row>, y: nat, e: nat) {
    |now'| == |now| && forall i :: 0 <= i < |now| && !(y <= i < e) ==> now'[i] == now[i]
  }

  /** One more group. */
  lemma {:induction false} GroupAdded(g: Growth, now: seq<Row>, now': seq<Row>, toRemove: seq<Removal>, kept: seq<nat>,
                                      y: nat, e: nat, k: nat)
    requires Grew(g, now, toRemove, kept, y) && IsGroup(g.wraps, y, e) && 1 <= k <= e - y
    requires SameElsewhere(now, now', y, e)
    requires RowsDone(g, now', y, e, k)
    ensures Grew(g, now', toRemove + RemovalOf(y, e, k), kept + seq(e - y, _ => k), e)
  {
    hide Removes, IsGroup, Keeps, RowsDone, RemovalOf, Apart;
    var toRemove', kept' := toRemove + RemovalOf(y, e, k), kept + seq(e - y, _ => k);
    GroupBounds(g.wraps, y, e);
    RemovedFrom(toRemove, y, e, k);
    forall a: nat, b: nat | IsGroup(g.wraps, a, b) && b <= e
      ensures a < |kept'| && a < b && Keeps(toRemove', a, b, kept'[a]) && RowsDone(g, now', a, b, kept'[a])
    {
      GroupsDontOverlap(g.wraps, a, b, y, e);
      GroupBounds(g.wraps, a, b);
      if b <= y {
        StillKeeps(toRemove, toRemove', a, b, kept[a], y);
        RowsStillDone(g, now, now', a, b, kept[a]);
      }
    }
  }

  lemma GroupBounds(wraps: seq<bool>, y: nat, e: nat)
    requires IsGroup(wraps, y, e)
    ensures y < e <= |wraps|
  {
  }

  lemma RowsStillDone(g: Growth, now: seq<Row>, now': seq<Row>, y: nat, e: nat, k: nat)
    requires y < e <= |g.was| && |now| == |g.was| == |now'| && RowsDone(g, now, y, e, k)
    requires forall i :: y <= i < e ==> now'[i] == now[i]
    ensures RowsDone(g, now', y, e, k)
  {
    assert now'[y..e] == now[y..e];
  }

  // ---- how many lines are left of a group ----

  /** As many as its text needs at the new width, if it is re-wrapped. */
  ghost function KeptOf(g: Growth, y: nat, e: nat): nat
    requires y < e <= |g.was|
  {
    if Reflows(g, y, e) && TextDefined(g.was[y..e], g.cols) && 2 <= g.n then
      Needed(Text(g.was[y..e], g.cols), g.n, e - y)
    else e - y
  }

  lemma {:induction false} KeptIs(g: Growth, now: seq<Row>, toRemove: seq<Removal>, kept: seq<nat>, y: nat, e: nat)
    requires Grew(g, now, toRemove, kept, |now|) && IsGroup(g.wraps, y, e)
    ensures y < e <= |g.was| == |kept| && kept[y] == KeptOf(g, y, e) && Keeps(toRemove, y, e, kept[y])
  {
    hide IsGroup, Keeps, GrownTo, TextDefined, Text, Needed;
    GroupBounds(g.wraps, y, e);
    assert RowsDone(g, now, y, e, kept[y]);
    if Reflows(g, y, e) {
      KeptIsNeeded(GrowOf(g.was[y..e], g.cols, g.n), now[y..e], kept[y]);
      GrownWidth(GrowOf(g.was[y..e], g.cols, g.n), now[y..e], kept[y]);
    }
  }

  lemma GrownWidth(g: Grow, cur: seq<Row>, kept: nat)
    requires GrownTo(g, cur, kept)
    ensures 2 <= g.n
  {
  }

  /** Every group behind the cursor's line needs all its lines, or that line is the first. */
  ghost predicate CursorKept(g: Growth)
    requires |g.was| == |g.wraps|
  {
    g.cursor == 0 || forall y: nat, e: nat :: IsGroup(g.wraps, y, e) && y > g.cursor ==> KeptOf(g, y, e) == e - y
  }

  /** Then no line behind the cursor's goes, and only then. */
  lemma {:induction false} NoneBehindGoes(g: Growth, now: seq<Row>, toRemove: seq<Removal>, kept: seq<nat>)
    requires Grew(g, now, toRemove, kept, |now|) && g.cursor < |now|
    ensures |g.was| == |g.wraps|
    ensures g.cursor == 0 || (forall i: nat :: g.cursor < i < |now| ==> !Removes(toRemove, i)) <==> CursorKept(g)
  {
    GrewSizes(g, now, toRemove, kept);
    hide Grew, IsGroup, KeptOf, Removes;
    if CursorKept(g) && g.cursor != 0 {
      forall i: nat | g.cursor < i < |now|
        ensures !Removes(toRemove, i)
      {
        var y, e := GroupOf(g.wraps, i);
        KeptIs(g, now, toRemove, kept, y, e);
        if y <= g.cursor {
          CursorGroup(g, y, e);
        }
      }
    } else if g.cursor != 0 {
      var y: nat, e: nat :| IsGroup(g.wraps, y, e) && y > g.cursor && KeptOf(g, y, e) != e - y;
      KeptIs(g, now, toRemove, kept, y, e);
      assert Removes(toRemove, e - 1);
    }
  }

  lemma CursorGroup(g: Growth, y: nat, e: nat)
    requires y <= g.cursor < e <= |g.was|
    ensures KeptOf(g, y, e) == e - y
  {
  }

  /** A line of text, the cursor on the next, and behind it two lines of a group that fits one line when
      the screen grows from two columns to four: the cursor leaves its line. */
  lemma CursorCanLeave()
    ensures var a := Cell(0x61, 1, NULL_CELL.fg, NULL_CELL.bg);
            var single, full := [a, NULL_CELL, NULL_CELL, NULL_CELL], [a, a, NULL_CELL, NULL_CELL];
            var g := Growth([single, single, full, single], [false, false, false, true], 2, 4, 1);
            Widened(g) && IsGroup(g.wraps, 2, 4) && KeptOf(g, 2, 4) == 1 && !CursorKept(g)
  {
    var a := Cell(0x61, 1, NULL_CELL.fg, NULL_CELL.bg);
    var single, full := [a, NULL_CELL, NULL_CELL, NULL_CELL], [a, a, NULL_CELL, NULL_CELL];
    var g := Growth([single, single, full, single], [false, false, false, true], 2, 4, 1);
    var rows := g.was[2..4];
    assert rows == [full, single];
    assert WellFormedGroup(rows, 2, 4);
    forall y: nat, e: nat | IsGroup(g.wraps, y, e) && Reflows(g, y, e)
      ensures WellFormedGroup(g.was[y..e], 2, 4)
    {
      assert y == 2 && e == 4;
    }
    TextIsDefined(rows, 2, 4);
    ShortText(rows, a);
  }

  lemma ShortText(rows: seq<Row>, a: Cell)
    requires a == Cell(0x61, 1, NULL_CELL.fg, NULL_CELL.bg)
    requires rows == [[a, a, NULL_CELL, NULL_CELL], [a, NULL_CELL, NULL_CELL, NULL_CELL]] && TextDefined(rows, 2)
    ensures Needed(Text(rows, 2), 4, 2) == 1
  {
    TrimmedAt(rows[1], 0);
    assert UsedLength(rows, 0, 2) == 2 && UsedLength(rows, 1, 2) == 1;
    assert rows[0][..2] == [a, a] && rows[1][..1] == [a];
    assert TextOfFirst(rows, 0, 2) == [];
    assert TextOfFirst(rows, 1, 2) == [] + [a, a];
    assert TextOfFirst(rows, 2, 2) == [a, a] + [a];
    assert RowStart(Text(rows, 2), 4, 1) == 3;
  }

  // ---- the pass over the buffer ----

  ghost function GrowthOf(lines: seq<BufferLine>, cols: nat, n: nat, cursor: nat): Growth
    reads lines, set k | 0 <= k < |lines| :: lines[k].data
  {
    Growth(RowsOf(lines), WrapsOf(lines), cols, n, cursor)
  }

  /** The line at `y` and the lines that continue it. */
  method CollectGroup(lines: seq<BufferLine>, y: nat) returns (wrappedLines: seq<BufferLine>)
    requires y + 1 < |lines| && lines[y + 1].isWrapped && AtStart(WrapsOf(lines), y)
    ensures |wrappedLines| >= 2 && y + |wrappedLines| <= |lines|
    ensures wrappedLines == lines[y..y + |wrappedLines|] && IsGroup(WrapsOf(lines), y, y + |wrappedLines|)
  {
    var nextLine := lines[y + 1];
    wrappedLines := [lines[y]];
    var i := y + 1;
    while i < |lines| && nextLine.isWrapped
      invariant y < i <= |lines| && wrappedLines == lines[y..i]
      invariant i < |lines| ==> nextLine == lines[i]
      invariant i == y + 1 ==> lines[i].isWrapped
      invariant forall k :: y < k < i ==> lines[k].isWrapped
    {
      wrappedLines := wrappedLines + [nextLine];
      i := i + 1;
      if i < |lines| {
        nextLine := lines[i];
      }
    }
  }

  lemma SliceIsSeparate(lines: seq<BufferLine>, y: nat, e: nat)
    requires Separate(lines) && y <= e <= |lines|
    ensures Separate(lines[y..e]) && RowsOf(lines[y..e]) == RowsOf(lines)[y..e]
  {
  }

  /** Re-wraps the lines from `y` to `e`, and nothing else. */
  method GrowSlice(ghost lines: seq<BufferLine>, ghost y: nat, group: seq<BufferLine>, oldCols: nat, newCols: nat)
    returns (countToRemove: nat)
    requires Separate(lines) && |group| >= 2 && y + |group| <= |lines| && group == lines[y..y + |group|]
    requires oldCols < newCols && WellFormedGroup(RowsOf(lines)[y..y + |group|], oldCols, newCols)
    modifies set i | 0 <= i < |group| :: group[i].data
    ensures countToRemove < |group| && WrapsOf(lines) == old(WrapsOf(lines)) && Separate(lines)
    ensures SameElsewhere(old(RowsOf(lines)), RowsOf(lines), y, y + |group|)
    ensures TextDefined(old(RowsOf(lines))[y..y + |group|], oldCols)
    ensures GrownTo(GrowOf(old(RowsOf(lines))[y..y + |group|], oldCols, newCols), RowsOf(lines)[y..y + |group|],
                    |group| - countToRemove)
  {
    hide GrownTo, WellFormedGroup, TextDefined, GrowOf, WrapsOf;
    ghost var was := RowsOf(lines)[y..y + |group|];
    SliceIsSeparate(lines, y, y + |group|);
    assert RowsOf(group) == was;
    countToRemove := GrowGroup(group, oldCols, newCols);
    ghost var now := RowsOf(group);
    assert GrownTo(GrowOf(was, oldCols, newCols), now, |group| - countToRemove);
    assert RowsOf(lines)[y..y + |group|] == now;
  }

  /** Re-wraps every group that the cursor is not on; the lines that it leaves over are reported. */
  method GetLinesToRemove(lines: seq<BufferLine>, oldCols: nat, newCols: nat, bufferAbsoluteY: nat)
    returns (toRemove: seq<Removal>, ghost kept: seq<nat>)
    requires Separate(lines) && Widened(GrowthOf(lines, oldCols, newCols, bufferAbsoluteY))
    modifies set i | 0 <= i < |lines| :: lines[i].data
    ensures Separate(lines) && WrapsOf(lines) == old(WrapsOf(lines))
    ensures Grew(old(GrowthOf(lines, oldCols, newCols, bufferAbsoluteY)), RowsOf(lines), toRemove, kept, |lines|)
  {
    hide Grew, Widened, IsGroup, Reflows, Separate, AtStart;
    ghost var g := GrowthOf(lines, oldCols, newCols, bufferAbsoluteY);
    toRemove, kept := [], [];
    NothingYet(g);
    var y := 0;
    while y < |lines| - 1
      invariant y <= |lines| && Separate(lines) && WrapsOf(lines) == g.wraps
      invariant Grew(g, RowsOf(lines), toRemove, kept, y) && AtStart(g.wraps, y)
    {
      toRemove, kept, y := VisitLine(lines, g, toRemove, kept, y, oldCols, newCols, bufferAbsoluteY);
    }
    if y < |lines| {
      SingleAdded(g, RowsOf(lines), toRemove, kept, y);
      kept := kept + seq(1, _ => 1);
    }
  }

  /** One turn: a line on its own, or a whole group. */
  method VisitLine(lines: seq<BufferLine>, ghost g: Growth, toRemove: seq<Removal>, ghost kept: seq<nat>, y: nat,
                   oldCols: nat, newCols: nat, bufferAbsoluteY: nat)
    returns (toRemove': seq<Removal>, ghost kept': seq<nat>, y': nat)
    requires Separate(lines) && y + 1 < |lines| && WrapsOf(lines) == g.wraps && Widened(g)
    requires g.cols == oldCols && g.n == newCols && g.cursor == bufferAbsoluteY
    requires Grew(g, RowsOf(lines), toRemove, kept, y) && AtStart(g.wraps, y)
    modifies set i | 0 <= i < |lines| :: lines[i].data
    ensures y < y' <= |lines| && Separate(lines) && WrapsOf(lines) == old(WrapsOf(lines))
    ensures Grew(g, RowsOf(lines), toRemove', kept', y') && AtStart(g.wraps, y')
  {
    hide Grew, Widened, IsGroup, Reflows, Separate, AtStart, RowsOf;
    if !lines[y + 1].isWrapped {
      SingleAdded(g, RowsOf(lines), toRemove, kept, y);
      toRemove', kept', y' := toRemove, kept + seq(1, _ => 1), y + 1;
    } else {
      var wrappedLines := CollectGroup(lines, y);
      toRemove', kept' := VisitGroup(lines, g, toRemove, kept, y, wrappedLines, oldCols, newCols, bufferAbsoluteY);
      y' := y + |wrappedLines|;
    }
  }

  /** A group starts at `y`, or there are no more lines. */
  ghost predicate AtStart(wraps: seq<bool>, y: nat) {
    0 < y < |wraps| ==> !wraps[y]
  }

  lemma NothingYet(g: Growth)
    requires |g.was| == |g.wraps|
    ensures Grew(g, g.was, [], [], 0) && AtStart(g.wraps, 0)
  {
  }

  lemma {:induction false} SingleAdded(g: Growth, now: seq<Row>, toRemove: seq<Removal>, kept: seq<nat>, y: nat)
    requires Grew(g, now, toRemove, kept, y) && AtStart(g.wraps, y)
    requires y < |g.wraps| && (y + 1 < |g.wraps| ==> !g.wraps[y + 1])
    ensures Grew(g, now, toRemove, kept + seq(1, _ => 1), y + 1) && AtStart(g.wraps, y + 1)
  {
    hide Keeps, Apart, GrownTo;
    assert IsGroup(g.wraps, y, y + 1);
    GroupAdded(g, now, now, toRemove, kept, y, y + 1, 1);
    assert toRemove + [] == toRemove;
  }

  method VisitGroup(ghost lines: seq<BufferLine>, ghost g: Growth, toRemove: seq<Removal>, ghost kept: seq<nat>, y: nat,
                    wrappedLines: seq<BufferLine>, oldCols: nat, newCols: nat, bufferAbsoluteY: nat)
    returns (toRemove': seq<Removal>, ghost kept': seq<nat>)
    requires Separate(lines) && |wrappedLines| >= 2 && y + |wrappedLines| <= |lines|
    requires wrappedLines == lines[y..y + |wrappedLines|] && WrapsOf(lines) == g.wraps
    requires IsGroup(g.wraps, y, y + |wrappedLines|) && Widened(g)
    requires g.cols == oldCols && g.n == newCols && g.cursor == bufferAbsoluteY
    requires Grew(g, RowsOf(lines), toRemove, kept, y)
    modifies set i | 0 <= i < |wrappedLines| :: wrappedLines[i].data
    ensures Separate(lines) && WrapsOf(lines) == old(WrapsOf(lines))
    ensures Grew(g, RowsOf(lines), toRemove', kept', y + |wrappedLines|) && AtStart(g.wraps, y + |wrappedLines|)
  {
    hide Grew, Widened, IsGroup, GrownTo, WellFormedGroup, TextDefined, RowsDone, RemovalOf, SameElsewhere, Separate,
         AtStart, GrowOf;
    ghost var e := y + |wrappedLines|;
    ghost var now := RowsOf(lines);
    NextStart(g, y, e);
    if bufferAbsoluteY >= y && bufferAbsoluteY < y + |wrappedLines| {
      GroupLeft(g, now, toRemove, kept, y, e);
      toRemove' := toRemove;
      kept' := kept + seq(e - y, _ => e - y);
    } else {
      GroupIsWellFormed(g, now, toRemove, kept, y, e);
      var countToRemove := GrowSlice(lines, y, wrappedLines, oldCols, newCols);
      GroupGrown(g, now, RowsOf(lines), toRemove, kept, y, e, e - y - countToRemove);
      toRemove' := toRemove;
      if countToRemove > 0 {
        toRemove' := toRemove' + [Removal(y + |wrappedLines| - countToRemove, countToRemove)];
      }
      kept' := kept + seq(e - y, _ => e - y - countToRemove);
    }
  }

  lemma NextStart(g: Growth, y: nat, e: nat)
    requires IsGroup(g.wraps, y, e)
    ensures AtStart(g.wraps, e)
  {
  }

  lemma {:induction false} GroupLeft(g: Growth, now: seq<Row>, toRemove: seq<Removal>, kept: seq<nat>, y: nat, e: nat)
    requires Grew(g, now, toRemove, kept, y) && IsGroup(g.wraps, y, e) && y <= g.cursor < e
    ensures Grew(g, now, toRemove, kept + seq(e - y, _ => e - y), e)
  {
    hide Keeps, Apart, GrownTo, IsGroup;
    GroupBounds(g.wraps, y, e);
    assert now[y..e] == g.was[y..e];
    GroupAdded(g, now, now, toRemove, kept, y, e, e - y);
    assert toRemove + [] == toRemove;
  }

  lemma {:induction false} GroupIsWellFormed(g: Growth, now: seq<Row>, toRemove: seq<Removal>, kept: seq<nat>,
                                             y: nat, e: nat)
    requires Grew(g, now, toRemove, kept, y) && IsGroup(g.wraps, y, e) && Reflows(g, y, e) && Widened(g)
    ensures y < e <= |now| == |g.was| && WellFormedGroup(now[y..e], g.cols, g.n) && now[y..e] == g.was[y..e] &&
            g.cols < g.n
  {
    hide Keeps, Apart, GrownTo, WellFormedGroup, RowsDone;
    assert now[y..e] == g.was[y..e];
  }

  lemma {:induction false} GroupGrown(g: Growth, now: seq<Row>, now': seq<Row>, toRemove: seq<Removal>, kept: seq<nat>,
                                      y: nat, e: nat, k: nat)
    requires Grew(g, now, toRemove, kept, y) && IsGroup(g.wraps, y, e) && Reflows(g, y, e) && 1 <= k <= e - y
    requires |now'| == |now| == |g.was| && e <= |now| && SameElsewhere(now, now', y, e)
    requires now[y..e] == g.was[y..e] && TextDefined(now[y..e], g.cols)
    requires GrownTo(GrowOf(now[y..e], g.cols, g.n), now'[y..e], k)
    ensures var toRemove' := if k < e - y then toRemove + [Removal(y + k, e - y - k)] else toRemove;
            Grew(g, now', toRemove', kept + seq(e - y, _ => k), e)
  {
    hide Grew, Keeps, Apart, GrownTo, TextDefined, IsGroup;
    GroupAdded(g, now, now', toRemove, kept, y, e, k);
    assert toRemove + [] == toRemove;
  }

  // ---- the viewport ----

  method LinesInOrder(list: CircularList.CircularList<BufferLine>) returns (lines: seq<BufferLine>)
    requires list.Valid()
    ensures lines == list.Contents()
  {
    hide CircularList.View, CircularList.ValidRing;
    lines := [];
    for i := 0 to list.length
      invariant lines == list.Contents()[..i]
    {
      var line := list.Get(i);
      lines := lines + [line];
    }
  }

  /** One line fewer above: the viewport goes up with it, or the cursor does. */
  method MoveUp(b: BufferService.Buffer, ghost rows: seq<BufferLine>)
    requires b.yDisp <= b.yBase
    modifies b`yBase, b`yDisp, b`y
    ensures b.yBase == CursorAfter(old(b.yBase), 1) && b.yDisp <= b.yBase
    ensures b.y == if old(b.yBase) == 0 then CursorAfter(old(b.y), 1) else old(b.y)
    ensures BufferService.LinesOf(rows) == old(BufferService.LinesOf(rows))
    ensures BufferService.Separate(rows) == old(BufferService.Separate(rows))
  {
    if b.yBase == 0 {
      if b.y > 0 {
        b.y := b.y - 1;
      }
    } else {
      if b.yDisp == b.yBase {
        b.yDisp := b.yDisp - 1;
      }
      b.yBase := b.yBase - 1;
    }
  }

  /** Puts the viewport and the cursor back after lines have gone; what is missing at the end is new. */
  method AdjustViewport(b: BufferService.Buffer, newCols: nat, newRows: nat, countRemoved: nat)
    requires b.lines.Valid() && BufferService.Separate(b.Rows()) && newRows <= b.lines.Capacity()
    requires b.lines.length + countRemoved == b.yBase + newRows && b.y < newRows && b.yDisp <= b.yBase
    modifies b`yBase, b`yDisp, b`y, b`savedY, b.lines, b.lines.array_
    ensures b.lines.Valid() && BufferService.Separate(b.Rows())
    ensures |b.Rows()| >= old(|b.Rows()|) && b.Rows()[..old(|b.Rows()|)] == old(b.Rows())
    ensures BufferService.LinesOf(b.Rows()) == old(BufferService.LinesOf(b.Rows())) +
                                              BufferService.BlankLines(|b.Rows()| - old(|b.Rows()|), newCols)
    ensures b.lines.length == b.yBase + newRows && b.y < newRows && b.yDisp <= b.yBase
    ensures b.yBase == CursorAfter(old(b.yBase), countRemoved)
    ensures b.y == CursorAfter(old(b.y), countRemoved - (old(b.yBase) - b.yBase))
  {
    hide BufferService.Separate, BufferService.LinesOf, CircularList.View, CircularList.ValidRing;
    ghost var was := b.Rows();
    ghost var wasLines := BufferService.LinesOf(was);
    assert wasLines + BufferService.BlankLines(0, newCols) == wasLines;
    for i := 0 to countRemoved
      invariant b.lines.Valid() && BufferService.Separate(b.Rows()) && newRows <= b.lines.Capacity()
      invariant b.lines.array_ == old(b.lines.array_)
      invariant |was| <= |b.Rows()| && b.Rows()[..|was|] == was
      invariant BufferService.LinesOf(b.Rows()) == wasLines + BufferService.BlankLines(|b.Rows()| - |was|, newCols)
      invariant b.lines.length + (countRemoved - i) == b.yBase + newRows && b.y < newRows && b.yDisp <= b.yBase
      invariant b.yBase == CursorAfter(old(b.yBase), i)
      invariant b.y == CursorAfter(old(b.y), i - (old(b.yBase) - b.yBase))
    {
      var atTop := b.yBase == 0;
      MoveUp(b, b.Rows());
      if atTop && b.lines.length < newRows {
        ghost var n := |b.Rows()| - |was|;
        BufferService.PushBlank(b.lines, newCols);
        assert BufferService.BlankLines(n, newCols) + BufferService.BlankLines(1, newCols) ==
               BufferService.BlankLines(n + 1, newCols);
      }
    }
    b.savedY := CursorAfter(b.savedY, countRemoved);
  }

  lemma {:induction false} PickedLines(rows: seq<BufferLine>, layout: seq<nat>)
    requires BufferService.Separate(rows) && forall k :: 0 <= k < |layout| ==> layout[k] < |rows|
    requires forall j, k :: 0 <= j < k < |layout| ==> layout[j] < layout[k]
    ensures BufferService.Separate(Picked(rows, layout))
    ensures BufferService.LinesOf(Picked(rows, layout)) == Picked(BufferService.LinesOf(rows), layout)
  {
  }

  lemma SeparateRows(rows: seq<BufferLine>)
    requires BufferService.Separate(rows)
    ensures Separate(rows)
  {
  }

  ghost function CellsOf(rows: seq<BufferLine>): set<array<Cell>>
    reads rows
  {
    set i | 0 <= i < |rows| :: rows[i].data
  }

  /** The cells of the rows change; the ring and the buffer do not. */
  method ReflowRows(b: BufferService.Buffer, rows: seq<BufferLine>, oldCols: nat, newCols: nat, bufferAbsoluteY: nat)
    returns (toRemove: seq<Removal>, ghost kept: seq<nat>)
    requires b.lines.Valid() && b.Rows() == rows && BufferService.Separate(rows)
    requires Widened(GrowthOf(rows, oldCols, newCols, bufferAbsoluteY))
    modifies CellsOf(rows)
    ensures b.lines.Valid() && b.Rows() == rows && BufferService.Separate(rows)
    ensures unchanged(b) && unchanged(b.lines) && unchanged(b.lines.array_) && WrapsOf(rows) == old(WrapsOf(rows))
    ensures Grew(old(GrowthOf(rows, oldCols, newCols, bufferAbsoluteY)), RowsOf(rows), toRemove, kept, |rows|)
  {
    hide Grew, Widened, CircularList.View, CircularList.ValidRing, GrowthOf;
    SeparateRows(rows);
    toRemove, kept := GetLinesToRemove(rows, oldCols, newCols, bufferAbsoluteY);
  }

  method Relayout(b: BufferService.Buffer, ghost rows: seq<BufferLine>, layout: seq<nat>)
    requires b.lines.Valid() && b.Rows() == rows && BufferService.Separate(rows)
    requires |layout| <= |rows| && forall k :: 0 <= k < |layout| ==> layout[k] < |rows|
    requires forall j, k :: 0 <= j < k < |layout| ==> layout[j] < layout[k]
    modifies b.lines, b.lines.array_
    ensures b.lines.Valid() && b.lines.array_ == old(b.lines.array_) && b.Rows() == Picked(rows, layout)
    ensures BufferService.Separate(b.Rows())
    ensures BufferService.LinesOf(b.Rows()) == Picked(old(BufferService.LinesOf(rows)), layout)
  {
    hide CircularList.View, CircularList.ValidRing;
    ghost var lines := BufferService.LinesOf(rows);
    ApplyNewLayout(b.lines, layout);
    assert BufferService.LinesOf(rows) == lines;
    PickedLines(rows, layout);
  }

  ghost function Lines(rows: seq<Row>, wraps: seq<bool>): (lines: seq<Screen.Line>)
    requires |rows| == |wraps|
    ensures |lines| == |rows|
  {
    seq(|rows|, i requires 0 <= i < |rows| => Screen.Line(rows[i], wraps[i]))
  }

  lemma LinesAre(rows: seq<BufferLine>)
    ensures BufferService.LinesOf(rows) == Lines(RowsOf(rows), WrapsOf(rows))
  {
  }

  lemma {:induction false} LeftIsLayout(toRemove: seq<Removal>, n: nat)
    ensures var left := Left(toRemove, n);
            && |left| <= n && (forall k :: 0 <= k < |left| ==> left[k] < n)
            && forall j, k :: 0 <= j < k < |left| ==> left[j] < left[k]
  {
    LeftGrows(toRemove, n);
  }

  lemma {:induction false} GrewSizes(g: Growth, now: seq<Row>, toRemove: seq<Removal>, kept: seq<nat>)
    requires Grew(g, now, toRemove, kept, |now|)
    ensures |g.was| == |g.wraps| == |now| == |kept| && Apart(toRemove, |now|)
  {
  }

  /** The first line stays, and so does the cursor's. */
  lemma {:induction false} CursorStays(g: Growth, now: seq<Row>, toRemove: seq<Removal>, kept: seq<nat>)
    requires Grew(g, now, toRemove, kept, |now|) && g.cursor < |now|
    ensures !Removes(toRemove, 0) && !Removes(toRemove, g.cursor)
  {
    hide Removes, IsGroup, GrownTo, Apart;
    var y0, e0 := GroupOf(g.wraps, 0);
    var y, e := GroupOf(g.wraps, g.cursor);
    GroupBounds(g.wraps, y0, e0);
    GroupBounds(g.wraps, y, e);
  }

  /** The lines with their new cells, in the new layout, and new ones behind. */
  ghost predicate Reflowed(g: Growth, now: seq<Row>, toRemove: seq<Removal>, after: seq<Screen.Line>) {
    && |g.wraps| == |now| && |Left(toRemove, |now|)| <= |after|
    && (forall k :: 0 <= k < |Left(toRemove, |now|)| ==> Left(toRemove, |now|)[k] < |now|)
    && after == Picked(Lines(now, g.wraps), Left(toRemove, |now|)) +
                BufferService.BlankLines(|after| - |Left(toRemove, |now|)|, g.n)
  }

  /** The lines that stay move up, and the viewport is put back. */
  method PutBack(b: BufferService.Buffer, ghost rows: seq<BufferLine>, toRemove: seq<Removal>, newCols: nat,
                 newRows: nat)
    requires b.lines.Valid() && b.Rows() == rows && BufferService.Separate(rows) && newRows <= b.lines.Capacity()
    requires b.lines.length == b.yBase + newRows && b.y < newRows && b.yDisp <= b.yBase && Apart(toRemove, |rows|)
    modifies b`yBase, b`yDisp, b`y, b`savedY, b.lines, b.lines.array_
    ensures b.lines.Valid() && BufferService.Separate(b.Rows())
    ensures b.lines.length == b.yBase + newRows && b.y < newRows && b.yDisp <= b.yBase
    ensures PutTo(rows, old(BufferService.LinesOf(rows)), Left(toRemove, |rows|), b.Rows(),
                  BufferService.LinesOf(b.Rows()), newCols)
    ensures |Left(toRemove, |rows|)| <= |rows| &&
            b.yBase + b.y == CursorAfter(old(b.yBase + b.y), |rows| - |Left(toRemove, |rows|)|)
  {
    hide Apart, Removes, Left, PutTo, BufferService.Separate, BufferService.LinesOf, CircularList.View,
         CircularList.ValidRing;
    LeftIsLayout(toRemove, |rows|);
    if |toRemove| > 0 {
      var layout, countRemoved := CreateNewLayout(b.lines.length, toRemove);
      Relayout(b, rows, layout);
      ghost var mid, midLines := b.Rows(), BufferService.LinesOf(b.Rows());
      AdjustViewport(b, newCols, newRows, countRemoved);
      MidPut(rows, old(BufferService.LinesOf(rows)), layout, mid, midLines, b.Rows(),
             BufferService.LinesOf(b.Rows()), newCols);
    } else {
      NothingPut(rows, BufferService.LinesOf(rows), newCols);
    }
  }

  /** The lines of the layout, and blank ones behind. */
  ghost predicate PutTo(was: seq<BufferLine>, wasLines: seq<Screen.Line>, left: seq<nat>,
                        now: seq<BufferLine>, lines: seq<Screen.Line>, newCols: nat) {
    && |was| == |wasLines| && |now| == |lines|
    && |left| <= |was| && |left| <= |now| && (forall k :: 0 <= k < |left| ==> left[k] < |was|)
    && now[..|left|] == Picked(was, left)
    && lines == Picked(wasLines, left) + BufferService.BlankLines(|now| - |left|, newCols)
  }

  lemma MidPut(was: seq<BufferLine>, wasLines: seq<Screen.Line>, left: seq<nat>,
               mid: seq<BufferLine>, midLines: seq<Screen.Line>,
               now: seq<BufferLine>, lines: seq<Screen.Line>, newCols: nat)
    requires |was| == |wasLines| && |now| == |lines| && |left| <= |was|
    requires forall k :: 0 <= k < |left| ==> left[k] < |was|
    requires mid == Picked(was, left) && midLines == Picked(wasLines, left)
    requires |mid| <= |now| && now[..|mid|] == mid &&
             lines == midLines + BufferService.BlankLines(|now| - |mid|, newCols)
    ensures PutTo(was, wasLines, left, now, lines, newCols)
  {
  }

  lemma {:induction false} NothingPut(rows: seq<BufferLine>, lines: seq<Screen.Line>, newCols: nat)
    requires |rows| == |lines|
    ensures PutTo(rows, lines, Left([], |rows|), rows, lines, newCols) && |Left([], |rows|)| == |rows|
  {
    hide Left;
    NothingToRemove(rows);
    NothingToRemove(lines);
    assert rows[..|rows|] == rows;
    assert lines + BufferService.BlankLines(0, newCols) == lines;
  }

  method ReflowBuffer(b: BufferService.Buffer, oldCols: nat, newCols: nat)
    returns (toRemove: seq<Removal>, ghost g: Growth, ghost now: seq<Row>, ghost kept: seq<nat>,
             ghost rows: seq<BufferLine>)
    requires b.lines.Valid() && BufferService.Separate(b.Rows())
    requires Widened(GrowthOf(b.Rows(), oldCols, newCols, b.yBase + b.y))
    modifies CellsOf(b.Rows())
    ensures unchanged(b) && unchanged(b.lines) && unchanged(b.lines.array_)
    ensures b.lines.Valid() && rows == b.Rows() == old(b.Rows()) && BufferService.Separate(rows)
    ensures g == old(GrowthOf(b.Rows(), oldCols, newCols, b.yBase + b.y)) && g.n == newCols && g.cursor == b.yBase + b.y
    ensures Grew(g, now, toRemove, kept, |now|) && Apart(toRemove, |now|) && |now| == |g.was| == |g.wraps| == |rows|
    ensures BufferService.LinesOf(rows) == Lines(now, g.wraps)
  {
    hide Grew, Widened, Apart, CellsOf, Lines, BufferService.Separate, BufferService.LinesOf, CircularList.View,
         CircularList.ValidRing;
    ghost var was := b.Rows();
    ghost var cells := CellsOf(was);
    var all := LinesInOrder(b.lines);
    assert all == was && CellsOf(all) == cells;
    g := GrowthOf(all, oldCols, newCols, b.yBase + b.y);
    toRemove, kept := ReflowRows(b, all, oldCols, newCols, b.yBase + b.y);
    now, rows := RowsOf(all), all;
    LinesAre(all);
    GrewSizes(g, now, toRemove, kept);
  }

  /** The whole reflow of a buffer that gets wider. The cursor is on the line it was on exactly if every
      group behind it needs all its lines at the new width, or it is on the first line. */
  method ReflowLarger(b: BufferService.Buffer, oldCols: nat, newCols: nat, newRows: nat)
    returns (ghost g: Growth, ghost now: seq<Row>, ghost toRemove: seq<Removal>, ghost kept: seq<nat>)
    requires b.lines.Valid() && BufferService.Separate(b.Rows()) && newRows <= b.lines.Capacity()
    requires b.lines.length == b.yBase + newRows && b.y < newRows && b.yDisp <= b.yBase
    requires Widened(GrowthOf(b.Rows(), oldCols, newCols, b.yBase + b.y))
    modifies b`yBase, b`yDisp, b`y, b`savedY, b.lines, b.lines.array_, CellsOf(b.Rows())
    ensures b.lines.Valid() && BufferService.Separate(b.Rows())
    ensures b.lines.length == b.yBase + newRows && b.y < newRows && b.yDisp <= b.yBase
    ensures g == old(GrowthOf(b.Rows(), oldCols, newCols, b.yBase + b.y)) && |now| == |g.was| == |g.wraps|
    ensures Grew(g, now, toRemove, kept, |now|) && Reflowed(g, now, toRemove, BufferService.LinesOf(b.Rows()))
    ensures b.Rows()[b.yBase + b.y] == old(b.Rows()[b.yBase + b.y]) <==> CursorKept(g)
  {
    hide *;
    BufferFits(b, newRows);
    ghost var was := b.Rows();
    DistinctRows(was);
    var removals; ghost var rows;
    removals, g, now, kept, rows := ReflowBuffer(b, oldCols, newCols);
    toRemove := removals;
    PutBack(b, rows, removals, newCols, newRows);
    ReflowEnds(g, now, toRemove, kept, was, b.Rows(), BufferService.LinesOf(b.Rows()));
  }

  // ---- filling the lines up first ----

  method WidenLine(lines: seq<BufferLine>, i: nat, newCols: nat)
    requires BufferService.Separate(lines) && i < |lines|
    modifies lines[i]
    ensures BufferService.Separate(lines) && WrapsOf(lines) == old(WrapsOf(lines))
    ensures RowsOf(lines) == old(RowsOf(lines))[i := Resized(old(RowsOf(lines))[i], newCols, NULL_CELL)]
    ensures lines[i].data == old(lines[i].data) || fresh(lines[i].data)
  {
    hide Resized;
    ghost var was := RowsOf(lines);
    lines[i].Resize(newCols, NULL_CELL);
    assert lines[i].Cells() == Resized(was[i], newCols, NULL_CELL);
    assert forall k :: 0 <= k < |lines| && k != i ==> lines[k] != lines[i] && lines[k].data == old(lines[k].data);
    assert forall k :: 0 <= k < |lines| && k != i ==> RowsOf(lines)[k] == was[k];
  }

  method WidenLines(lines: seq<BufferLine>, oldCols: nat, newCols: nat, ghost cursor: nat) returns (ghost g: Growth)
    requires BufferService.Separate(lines) && oldCols < newCols && AllWellFormed(RowsOf(lines), oldCols)
    modifies lines
    ensures BufferService.Separate(lines) && g == GrowthOf(lines, oldCols, newCols, cursor)
    ensures g == Growth(FilledUp(old(RowsOf(lines)), newCols), old(WrapsOf(lines)), oldCols, newCols, cursor) &&
            Widened(g)
    ensures forall cells :: cells in CellsOf(lines) ==> cells in old(CellsOf(lines)) || fresh(cells)
  {
    hide Widened, AllWellFormed, BufferService.Separate, RowsOf, WrapsOf, Resized;
    ghost var was := RowsOf(lines);
    for i := 0 to |lines|
      invariant BufferService.Separate(lines) && WrapsOf(lines) == old(WrapsOf(lines))
      invariant RowsOf(lines) == FilledUp(was[..i], newCols) + was[i..]
      invariant forall k :: 0 <= k < |lines| ==> lines[k].data in old(CellsOf(lines)) || fresh(lines[k].data)
    {
      OneMoreFilledUp(was, i, newCols);
      WidenLine(lines, i, newCols);
    }
    assert was[..|lines|] == was;
    g := GrowthOf(lines, oldCols, newCols, cursor);
    FilledUpIsWidened(was, g);
  }

  lemma OneMoreFilledUp(rows: seq<Row>, i: nat, width: nat)
    requires i < |rows|
    ensures var now := FilledUp(rows[..i], width) + rows[i..];
            now[i] == rows[i] && now[i := Resized(rows[i], width, NULL_CELL)] ==
              FilledUp(rows[..i + 1], width) + rows[i + 1..]
  {
    hide Resized;
  }

  lemma {:induction false} FilledUpIsWidened(rows: seq<Row>, g: Growth)
    requires AllWellFormed(rows, g.cols) && g.cols < g.n && g.was == FilledUp(rows, g.n) && |g.wraps| == |g.was|
    ensures Widened(g)
  {
    hide WellFormedGroup, WellFormedRow, TextDefined;
    forall y: nat, e: nat | IsGroup(g.wraps, y, e) && Reflows(g, y, e)
      ensures WellFormedGroup(g.was[y..e], g.cols, g.n)
    {
      SliceSpells(rows, g.cols, g.n, y, e);
    }
  }

  /** Filling up changes the text of no group. */
  lemma {:induction false} SliceSpells(rows: seq<Row>, cols: nat, n: nat, y: nat, e: nat)
    requires AllWellFormed(rows, cols) && cols < n && y < e <= |rows|
    ensures WellFormedGroup(FilledUp(rows, n)[y..e], cols, n)
    ensures TextDefined(rows[y..e], cols) && TextDefined(FilledUp(rows, n)[y..e], cols)
    ensures Text(FilledUp(rows, n)[y..e], cols) == Text(rows[y..e], cols)
  {
    hide WellFormedRow, TextDefined;
    assert FilledUp(rows, n)[y..e] == FilledUp(rows[y..e], n);
    FilledUpSpells(rows[y..e], cols, n);
  }

  /** The ring and the buffer do not change. */
  method WidenRows(b: BufferService.Buffer, oldCols: nat, newCols: nat) returns (ghost g: Growth)
    requires b.lines.Valid() && BufferService.Separate(b.Rows())
    requires oldCols < newCols && AllWellFormed(RowsOf(b.Rows()), oldCols)
    modifies b.Rows()
    ensures unchanged(b) && unchanged(b.lines) && unchanged(b.lines.array_)
    ensures b.lines.Valid() && b.Rows() == old(b.Rows()) && BufferService.Separate(b.Rows())
    ensures forall cells :: cells in CellsOf(b.Rows()) ==> cells in old(CellsOf(b.Rows())) || fresh(cells)
    ensures g == GrowthOf(b.Rows(), oldCols, newCols, b.yBase + b.y) && Widened(g)
    ensures g == Growth(FilledUp(old(RowsOf(b.Rows())), newCols), old(WrapsOf(b.Rows())), oldCols, newCols,
                        old(b.yBase + b.y))
  {
    hide *;
    ghost var was, cells := b.Rows(), CellsOf(b.Rows());
    ghost var rows, wraps := RowsOf(was), WrapsOf(was);
    var all := LinesInOrder(b.lines);
    SameContents(b);
    assert all == was && BufferService.Separate(was) && RowsOf(was) == rows && WrapsOf(was) == wraps &&
           CellsOf(was) == cells;
    g := WidenLines(all, oldCols, newCols, b.yBase + b.y);
    SameContents(b);
  }

  lemma SameContents(b: BufferService.Buffer)
    requires b.lines.Valid()
    ensures b.Rows() == b.lines.Contents()
  {
  }

  /** A buffer of well-formed lines gets wider: the lines are filled up, then reflowed. */
  method WidenColumns(b: BufferService.Buffer, oldCols: nat, newCols: nat, newRows: nat)
    returns (ghost g: Growth, ghost now: seq<Row>, ghost toRemove: seq<Removal>, ghost kept: seq<nat>)
    requires b.lines.Valid() && BufferService.Separate(b.Rows()) && newRows <= b.lines.Capacity()
    requires b.lines.length == b.yBase + newRows && b.y < newRows && b.yDisp <= b.yBase
    requires oldCols < newCols && AllWellFormed(RowsOf(b.Rows()), oldCols)
    modifies b`yBase, b`yDisp, b`y, b`savedY, b.lines, b.lines.array_, b.Rows(), CellsOf(b.Rows())
    ensures b.lines.Valid() && BufferService.Separate(b.Rows())
    ensures b.lines.length == b.yBase + newRows && b.y < newRows && b.yDisp <= b.yBase
    ensures g == Growth(FilledUp(old(RowsOf(b.Rows())), newCols), old(WrapsOf(b.Rows())), oldCols, newCols,
                        old(b.yBase + b.y))
    ensures |now| == |g.was| == |g.wraps|
    ensures Widened(g) && Grew(g, now, toRemove, kept, |now|) &&
            Reflowed(g, now, toRemove, BufferService.LinesOf(b.Rows()))
    ensures b.Rows()[b.yBase + b.y] == old(b.Rows()[b.yBase + b.y]) <==> CursorKept(g)
  {
    hide *;
    BufferFits(b, newRows);
    ghost var widened := WidenRows(b, oldCols, newCols);
    g, now, toRemove, kept := ReflowLarger(b, oldCols, newCols, newRows);
  }

  lemma BufferFits(b: BufferService.Buffer, newRows: nat)
    requires b.lines.Valid() && b.lines.length == b.yBase + newRows && b.y < newRows
    ensures |b.Rows()| == b.lines.length && b.yBase + b.y < |b.Rows()|
  {
  }

  ghost predicate Distinct(rows: seq<BufferLine>) {
    forall i, j :: 0 <= i < j < |rows| ==> rows[i] != rows[j]
  }

  lemma DistinctRows(rows: seq<BufferLine>)
    requires BufferService.Separate(rows)
    ensures Distinct(rows)
  {
  }

  lemma {:induction false} ReflowEnds(g: Growth, now: seq<Row>, toRemove: seq<Removal>, kept: seq<nat>,
                                      was: seq<BufferLine>, after: seq<BufferLine>, lines: seq<Screen.Line>)
    requires Grew(g, now, toRemove, kept, |now|) && |g.wraps| == |now| == |was| && g.cursor < |now| && Distinct(was)
    requires PutTo(was, Lines(now, g.wraps), Left(toRemove, |now|), after, lines, g.n)
    ensures Reflowed(g, now, toRemove, lines)
    ensures var at := CursorAfter(g.cursor, |now| - |Left(toRemove, |now|)|);
            at < |after| && (after[at] == was[g.cursor] <==> CursorKept(g))
  {
    hide Grew, Removes, Left, Distinct, Lines, CursorKept;
    CursorStays(g, now, toRemove, kept);
    NoneBehindGoes(g, now, toRemove, kept);
    CursorLine(toRemove, g.cursor, |now|);
    SameLine(was, after, Left(toRemove, |now|), CursorAfter(g.cursor, |now| - |Left(toRemove, |now|)|), g.cursor);
  }

  lemma SameLine(was: seq<BufferLine>, after: seq<BufferLine>, layout: seq<nat>, at: nat, cursor: nat)
    requires Distinct(was) && at < |layout| <= |after| && cursor < |was|
    requires forall k :: 0 <= k < |layout| ==> layout[k] < |was|
    requires after[..|layout|] == Picked(was, layout)
    ensures after[at] == was[cursor] <==> layout[at] == cursor
  {
    assert after[at] == after[..|layout|][at] == was[layout[at]];
  }

  // ---- what the buffer says ----

  function RowsIn(lines: seq<Screen.Line>): (rows: seq<Row>)
    ensures |rows| == |lines|
  {
    seq(|lines|, i requires 0 <= i < |lines| => lines[i].cells)
  }

  function WrapsIn(lines: seq<Screen.Line>): (wraps: seq<bool>)
    ensures |wraps| == |lines|
  {
    seq(|lines|, i requires 0 <= i < |lines| => lines[i].wrapped)
  }

  lemma {:induction false} GroupAhead(wraps: seq<bool>, y: nat, e: nat, all: seq<bool>)
    requires IsGroup(wraps, y, e) && wraps <= all && (|wraps| < |all| ==> !all[|wraps|])
    ensures IsGroup(all, y, e)
  {
    assert forall i :: 0 <= i < |wraps| ==> wraps[i] == all[i];
  }

  lemma {:induction false} ReflowedParts(g: Growth, now: seq<Row>, toRemove: seq<Removal>, after: seq<Screen.Line>)
    requires Reflowed(g, now, toRemove, after)
    ensures var left := Left(toRemove, |now|);
            && |g.wraps| == |now| && |left| <= |after| && (forall k :: 0 <= k < |left| ==> left[k] < |now|)
            && Picked(g.wraps, left) <= WrapsIn(after) && (|left| < |after| ==> !WrapsIn(after)[|left|])
            && RowsIn(after)[..|left|] == Picked(now, left)
  {
    hide Left;
    var left := Left(toRemove, |now|);
    var lines := Picked(Lines(now, g.wraps), left);
    assert after[..|left|] == lines;
    assert forall i :: 0 <= i < |left| ==> after[i] == lines[i] == Screen.Line(now[left[i]], g.wraps[left[i]]);
    assert Picked(g.wraps, left) == WrapsIn(after)[..|left|];
  }

  lemma GroupsKeep(g: Growth, now: seq<Row>, toRemove: seq<Removal>, kept: seq<nat>)
    requires Grew(g, now, toRemove, kept, |now|)
    ensures |kept| == |g.wraps|
    ensures forall y: nat, e: nat :: IsGroup(g.wraps, y, e) ==> y < |kept| && Keeps(toRemove, y, e, kept[y])
  {
    hide Keeps, RowsDone, Apart;
  }

  /** Where a group is found again, and which of its rows. */
  lemma {:induction false} GroupFound(g: Growth, now: seq<Row>, toRemove: seq<Removal>, kept: seq<nat>,
                                      after: seq<Screen.Line>, y: nat, e: nat)
    requires Grew(g, now, toRemove, kept, |now|) && Reflowed(g, now, toRemove, after) && IsGroup(g.wraps, y, e)
    ensures y < e <= |kept| == |now| && 1 <= kept[y] <= e - y
    ensures var p := |Left(toRemove, y)|;
            && p + kept[y] <= |after| && |Left(toRemove, e)| == p + kept[y]
            && IsGroup(WrapsIn(after), p, p + kept[y])
            && RowsIn(after)[p..p + kept[y]] == now[y..y + kept[y]]
  {
    hide IsGroup, Keeps, Left, RowsDone, Apart, Reflowed, Lines;
    GroupBounds(g.wraps, y, e);
    KeepsSome(toRemove, y, e, kept[y]);
    var left := Left(toRemove, |now|);
    var p, k := |Left(toRemove, y)|, kept[y];
    ReflowedParts(g, now, toRemove, after);
    KeptPositions(toRemove, y, e, k, |now|);
    GroupsKeep(g, now, toRemove, kept);
    GroupMoves(g.wraps, toRemove, kept, y, e);
    GroupAhead(Picked(g.wraps, left), p, p + k, WrapsIn(after));
    RowsFound(RowsIn(after), now, left, p, y, k);
  }

  lemma {:induction false} RowsFound(rows: seq<Row>, now: seq<Row>, left: seq<nat>, p: nat, y: nat, k: nat)
    requires p + k <= |left| <= |rows| && y + k <= |now| && left[p..p + k] == Run(y, y + k)
    requires forall j :: 0 <= j < |left| ==> left[j] < |now|
    requires rows[..|left|] == Picked(now, left)
    ensures rows[p..p + k] == now[y..y + k]
  {
    forall q | p <= q < p + k
      ensures rows[q] == now[y + (q - p)]
    {
      assert left[p..p + k][q - p] == left[q] == Run(y, y + k)[q - p];
      assert rows[q] == rows[..|left|][q] == now[left[q]];
    }
  }

  /** Growing keeps the text: every group is found again, one behind the other; what is not re-wrapped has
      its rows, and what is re-wrapped spells the same text at the new width, but for empty cells at its
      end, exactly if no full row of it ends in an empty cell in front of a wide character. */
  lemma {:induction false} TextSurvives(g: Growth, now: seq<Row>, toRemove: seq<Removal>, kept: seq<nat>,
                                        after: seq<Screen.Line>, y: nat, e: nat)
    requires Grew(g, now, toRemove, kept, |now|) && Reflowed(g, now, toRemove, after) && IsGroup(g.wraps, y, e)
    requires Widened(g) && (Reflows(g, y, e) ==> ShrinkingRows.WideFilled(g.was[y..e]))
    ensures y < e <= |kept| == |g.was| && 1 <= KeptOf(g, y, e) <= e - y
    ensures var p := |Left(toRemove, y)|; var k := KeptOf(g, y, e);
            && p + k <= |after| && |Left(toRemove, e)| == p + k && IsGroup(WrapsIn(after), p, p + k)
            && var rows := RowsIn(after)[p..p + k];
               if !Reflows(g, y, e) then rows == g.was[y..e]
               else
                 && 2 <= g.n && TextDefined(rows, g.n) && TextDefined(g.was[y..e], g.cols)
                 && (ReflowText.Essential(Text(rows, g.n)) == ReflowText.Essential(Text(g.was[y..e], g.cols)) <==>
                     ReflowText.Unpadded(Text(g.was[y..e], g.cols), g.n))
  {
    hide IsGroup, Keeps, Left, Apart, Reflowed, GrownTo, TextDefined, KeptOf, ReflowText.Unpadded, ReflowText.Essential,
         ShrinkingRows.WideFilled, WellFormedGroup, Text;
    GroupFound(g, now, toRemove, kept, after, y, e);
    KeptIs(g, now, toRemove, kept, y, e);
    var k := kept[y];
    assert RowsDone(g, now, y, e, k);
    if Reflows(g, y, e) {
      assert now[y..e][..k] == now[y..y + k];
      ReflowText.GrownReadsBack(g.was[y..e], now[y..e], g.cols, g.n, k);
    } else {
      assert now[y..y + k] == now[y..e];
    }
  }
}
