/** Which lines of a buffer are left when its wrapped groups have grown, and where they go. */
module GrowLayout {
  import opened CircularList

  // ---- groups ----

  /** A wrapped group: a line and the lines that continue it. */
  ghost predicate IsGroup(wraps: seq<bool>, y: nat, e: nat) {
    && y < e <= |wraps| && (y > 0 ==> !wraps[y])
    && (forall k :: y < k < e ==> wraps[k])
    && (e < |wraps| ==> !wraps[e])
  }

  lemma {:induction false} GroupsDontOverlap(wraps: seq<bool>, y: nat, e: nat, y': nat, e': nat)
    requires IsGroup(wraps, y, e) && IsGroup(wraps, y', e')
    ensures e <= y' || e' <= y || (y == y' && e == e')
  {
  }

  lemma {:induction false} GroupStartsAt(wraps: seq<bool>, y: nat, from: nat) returns (e: nat)
    requires y < from <= |wraps| && (y > 0 ==> !wraps[y]) && forall k :: y < k < from ==> wraps[k]
    ensures IsGroup(wraps, y, e)
    decreases |wraps| - from
  {
    if from == |wraps| || !wraps[from] {
      e := from;
    } else {
      e := GroupStartsAt(wraps, y, from + 1);
    }
  }

  // ---- removal ----

  /** `count` lines from `start` on are to go. */
  datatype Removal = Removal(start: nat, count: nat)

  /** The removals are in order and do not touch. */
  ghost predicate Apart(toRemove: seq<Removal>, length: nat) {
    && (forall k :: 0 <= k < |toRemove| ==> toRemove[k].count > 0 && toRemove[k].start + toRemove[k].count <= length)
    && forall j, k :: 0 <= j < k < |toRemove| ==> toRemove[j].start + toRemove[j].count <= toRemove[k].start
  }

  ghost predicate Removes(toRemove: seq<Removal>, i: nat) {
    exists k :: 0 <= k < |toRemove| && toRemove[k].start <= i < toRemove[k].start + toRemove[k].count
  }

  /** The first `n` lines without those that go. */
  ghost function Left(toRemove: seq<Removal>, n: nat): (left: seq<nat>)
    ensures |left| <= n
  {
    if n == 0 then [] else Left(toRemove, n - 1) + if Removes(toRemove, n - 1) then [] else [n - 1]
  }

  lemma {:induction false} LeftIsPrefix(toRemove: seq<Removal>, m: nat, n: nat)
    requires m <= n
    ensures Left(toRemove, m) <= Left(toRemove, n)
  {
    hide Removes;
    if m < n {
      LeftIsPrefix(toRemove, m, n - 1);
    }
  }

  /** A line that stays is found where the lines in front of it end. */
  lemma {:induction false} LeftAt(toRemove: seq<Removal>, i: nat, n: nat)
    requires i < n && !Removes(toRemove, i)
    ensures |Left(toRemove, i)| < |Left(toRemove, n)| && Left(toRemove, n)[|Left(toRemove, i)|] == i
  {
    hide Removes;
    LeftIsPrefix(toRemove, i + 1, n);
    assert Left(toRemove, i + 1) == Left(toRemove, i) + [i];
  }

  lemma {:induction false} LeftGrows(toRemove: seq<Removal>, n: nat)
    ensures forall j, k :: 0 <= j < k < |Left(toRemove, n)| ==> Left(toRemove, n)[j] < Left(toRemove, n)[k]
    ensures forall j :: 0 <= j < |Left(toRemove, n)| ==>
            Left(toRemove, n)[j] < n && !Removes(toRemove, Left(toRemove, n)[j])
  {
    hide Removes;
    if n > 0 {
      LeftGrows(toRemove, n - 1);
    }
  }

  function Run(lo: nat, hi: nat): (r: seq<nat>)
    requires lo <= hi
    ensures |r| == hi - lo && forall t :: 0 <= t < |r| ==> r[t] == lo + t
  {
    seq(hi - lo, t requires t >= 0 => lo + t)
  }

  /** Lines that all stay. */
  lemma {:induction false} AllStay(toRemove: seq<Removal>, lo: nat, hi: nat)
    requires lo <= hi && forall i: nat :: lo <= i < hi ==> !Removes(toRemove, i)
    ensures Left(toRemove, hi) == Left(toRemove, lo) + Run(lo, hi)
    decreases hi - lo
  {
    hide Removes;
    if lo < hi {
      AllStay(toRemove, lo, hi - 1);
      assert Run(lo, hi) == Run(lo, hi - 1) + [hi - 1];
    }
  }

  /** Lines that all go. */
  lemma {:induction false} AllGo(toRemove: seq<Removal>, lo: nat, hi: nat)
    requires lo <= hi && forall i: nat :: lo <= i < hi ==> Removes(toRemove, i)
    ensures Left(toRemove, hi) == Left(toRemove, lo)
    decreases hi - lo
  {
    hide Removes;
    if lo < hi {
      AllGo(toRemove, lo, hi - 1);
    }
  }

  lemma {:induction false} OneMoreRemoval(toRemove: seq<Removal>, r: Removal, length: nat)
    requires Apart(toRemove, r.start) && r.count > 0 && r.start + r.count <= length
    ensures Apart(toRemove + [r], length)
    ensures forall i: nat :: Removes(toRemove + [r], i) <==> Removes(toRemove, i) || r.start <= i < r.start + r.count
    ensures forall i: nat :: r.start <= i ==> !Removes(toRemove, i)
  {
    forall i: nat
      ensures Removes(toRemove + [r], i) <==> Removes(toRemove, i) || r.start <= i < r.start + r.count
    {
      if Removes(toRemove, i) {
        var k :| 0 <= k < |toRemove| && toRemove[k].start <= i < toRemove[k].start + toRemove[k].count;
        assert (toRemove + [r])[k] == toRemove[k];
      }
      assert (toRemove + [r])[|toRemove|] == r;
    }
  }

  /** While the layout is made: removal `next` is the first that has not been reached. */
  lemma {:induction false} BetweenRemovals(toRemove: seq<Removal>, length: nat, next: nat, i: nat)
    requires Apart(toRemove, length) && next <= |toRemove|
    requires forall k :: 0 <= k < next ==> toRemove[k].start + toRemove[k].count <= i
    requires next < |toRemove| ==> i <= toRemove[next].start
    ensures Removes(toRemove, i) <==> next < |toRemove| && toRemove[next].start == i
    ensures next < |toRemove| && toRemove[next].start == i ==>
              forall j: nat :: i <= j < i + toRemove[next].count ==> Removes(toRemove, j)
  {
  }

  /** The lines that stay, in order. */
  method CreateNewLayout(length: nat, toRemove: seq<Removal>) returns (layout: seq<nat>, countRemoved: nat)
    requires Apart(toRemove, length)
    ensures layout == Left(toRemove, length) && countRemoved == length - |layout|
  {
    hide Removes;
    layout, countRemoved := [], 0;
    var next, i := 0, 0;
    while i < length
      invariant i <= length && next <= |toRemove|
      invariant forall k :: 0 <= k < next ==> toRemove[k].start + toRemove[k].count <= i
      invariant next < |toRemove| ==> i <= toRemove[next].start
      invariant layout == Left(toRemove, i) && countRemoved + |layout| == i
    {
      BetweenRemovals(toRemove, length, next, i);
      if next < |toRemove| && toRemove[next].start == i {
        var countToRemove := toRemove[next].count;
        AllGo(toRemove, i, i + countToRemove);
        i := i + countToRemove;
        countRemoved := countRemoved + countToRemove;
        next := next + 1;
      } else {
        layout := layout + [i];
        i := i + 1;
      }
    }
  }

  function Picked<T>(items: seq<T>, layout: seq<nat>): seq<T>
    requires forall k :: 0 <= k < |layout| ==> layout[k] < |items|
  {
    seq(|layout|, k requires 0 <= k < |layout| => items[layout[k]])
  }

  method LinesOfLayout<T>(lines: CircularList<T>, newLayout: seq<nat>) returns (newLayoutLines: seq<T>)
    requires lines.Valid() && forall k :: 0 <= k < |newLayout| ==> newLayout[k] < lines.length
    ensures newLayoutLines == Picked(lines.Contents(), newLayout)
  {
    hide View, ValidRing;
    newLayoutLines := [];
    for i := 0 to |newLayout|
      invariant newLayoutLines == Picked(lines.Contents(), newLayout[..i])
    {
      var line := lines.Get(newLayout[i]);
      newLayoutLines := newLayoutLines + [line];
    }
    assert newLayout[..|newLayout|] == newLayout;
  }

  /** Moves the lines of the layout to the front of the list and cuts the rest off. */
  method ApplyNewLayout<T>(lines: CircularList<T>, newLayout: seq<nat>)
    requires lines.Valid() && |newLayout| <= lines.length
    requires forall k :: 0 <= k < |newLayout| ==> newLayout[k] < lines.length
    modifies lines, lines.array_
    ensures lines.Valid() && lines.array_ == old(lines.array_) && lines.trimmed == old(lines.trimmed)
    ensures lines.Contents() == Picked(old(lines.Contents()), newLayout)
  {
    hide View, ValidRing;
    ghost var was := lines.Contents();
    var newLayoutLines := LinesOfLayout(lines, newLayout);
    for i := 0 to |newLayoutLines|
      invariant lines.Valid() && lines.array_ == old(lines.array_) && lines.trimmed == old(lines.trimmed)
      invariant lines.length == |was| && lines.Contents() == newLayoutLines[..i] + was[i..]
    {
      lines.Set(i, newLayoutLines[i]);
      assert (newLayoutLines[..i] + was[i..])[i := newLayoutLines[i]] == newLayoutLines[..i + 1] + was[i + 1..];
    }
    Fits(lines);
    lines.SetLength(|newLayout|);
    assert (newLayoutLines + was[|newLayout|..])[..|newLayout|] == newLayoutLines;
  }

  lemma Fits<T>(lines: CircularList<T>)
    requires lines.Valid()
    ensures lines.length <= lines.Capacity()
  {
  }

  // ---- groups in the new layout ----

  /** Of group [y, e), exactly the first `k` lines stay. */
  ghost predicate Keeps(toRemove: seq<Removal>, y: nat, e: nat, k: nat) {
    1 <= k <= e - y && forall i: nat :: y <= i < e ==> (Removes(toRemove, i) <==> y + k <= i)
  }

  lemma {:induction false} KeptPositions(toRemove: seq<Removal>, y: nat, e: nat, k: nat, length: nat)
    requires Keeps(toRemove, y, e, k) && e <= length
    ensures var p := |Left(toRemove, y)|;
            && p + k <= |Left(toRemove, length)| && |Left(toRemove, e)| == p + k
            && Left(toRemove, length)[p..p + k] == Run(y, y + k)
  {
    hide Removes, Left;
    AllStay(toRemove, y, y + k);
    AllGo(toRemove, y + k, e);
    LeftIsPrefix(toRemove, e, length);
  }

  /** Groups stay groups: the lines that are kept of a group are a group of the new layout. */
  lemma {:induction false} GroupMoves(wraps: seq<bool>, toRemove: seq<Removal>, kept: seq<nat>, y: nat, e: nat)
    requires |kept| == |wraps| && IsGroup(wraps, y, e)
    requires forall a: nat, b: nat :: IsGroup(wraps, a, b) ==> Keeps(toRemove, a, b, kept[a])
    requires forall j :: 0 <= j < |Left(toRemove, |wraps|)| ==> Left(toRemove, |wraps|)[j] < |wraps|
    ensures var p := |Left(toRemove, y)|; IsGroup(Picked(wraps, Left(toRemove, |wraps|)), p, p + kept[y])
  {
    hide Keeps, Left;
    var n := |wraps|;
    var layout := Left(toRemove, n);
    var p, k := |Left(toRemove, y)|, kept[y];
    KeptPositions(toRemove, y, e, k, n);
    KeepsSome(toRemove, y, e, k);
    forall q: nat | p <= q < p + k
      ensures layout[q] == y + (q - p)
    {
      assert layout[p..p + k][q - p] == Run(y, y + k)[q - p];
    }
    if e < n {
      var e' := GroupStartsAt(wraps, e, e + 1);
      KeptPositions(toRemove, e, e', kept[e], n);
      KeepsSome(toRemove, e, e', kept[e]);
      assert layout[p + k..p + k + kept[e]][0] == Run(e, e + kept[e])[0] == e;
    }
  }

  lemma KeepsSome(toRemove: seq<Removal>, y: nat, e: nat, k: nat)
    requires Keeps(toRemove, y, e, k)
    ensures 1 <= k <= e - y
  {
  }

  // ---- the cursor's line ----

  /** All lines stay exactly if none is lost. */
  lemma {:induction false} NoneLost(toRemove: seq<Removal>, lo: nat, hi: nat)
    requires lo <= hi
    ensures |Left(toRemove, hi)| <= |Left(toRemove, lo)| + (hi - lo)
    ensures |Left(toRemove, hi)| == |Left(toRemove, lo)| + (hi - lo) <==>
            forall i: nat :: lo <= i < hi ==> !Removes(toRemove, i)
    decreases hi - lo
  {
    hide Removes;
    if lo < hi {
      NoneLost(toRemove, lo, hi - 1);
    }
  }

  /** Where the cursor is put when `n` - |left| lines have gone, wherever they were. */
  function CursorAfter(cursor: nat, gone: int): nat {
    if cursor < gone then 0 else if gone < 0 then cursor else cursor - gone
  }

  /** The cursor's line is found there exactly if no line behind it has gone, or it is the first. */
  lemma {:induction false} CursorLine(toRemove: seq<Removal>, cursor: nat, n: nat)
    requires cursor < n && !Removes(toRemove, cursor) && !Removes(toRemove, 0)
    ensures var left := Left(toRemove, n); var at := CursorAfter(cursor, n - |left|);
            && at < |left|
            && (left[at] == cursor <==> cursor == 0 || forall i: nat :: cursor < i < n ==> !Removes(toRemove, i))
  {
    hide Removes;
    var left := Left(toRemove, n);
    LeftAt(toRemove, cursor, n);
    LeftGrows(toRemove, n);
    NoneLost(toRemove, cursor + 1, n);
    NoneLost(toRemove, 0, cursor);
    if cursor > 0 {
      LeftAt(toRemove, 0, cursor);
    }
  }

  lemma {:induction false} GroupOf(wraps: seq<bool>, i: nat) returns (y: nat, e: nat)
    requires i < |wraps|
    ensures y <= i < e && IsGroup(wraps, y, e)
  {
    y := StartOf(wraps, i);
    e := GroupStartsAt(wraps, y, i + 1);
  }

  lemma {:induction false} StartOf(wraps: seq<bool>, i: nat) returns (y: nat)
    requires i < |wraps|
    ensures y <= i && (y > 0 ==> !wraps[y]) && forall k :: y < k <= i ==> wraps[k]
  {
    if i == 0 || !wraps[i] {
      y := i;
    } else {
      y := StartOf(wraps, i - 1);
    }
  }

  lemma {:induction false} NothingToRemove<T>(items: seq<T>)
    ensures Left([], |items|) == Run(0, |items|) && Picked(items, Run(0, |items|)) == items
  {
    AllStay([], 0, |items|);
    assert Left([], 0) == [];
  }
}
