/** The ring of rows: a list with a fixed capacity that drops elements from its front. */
module CircularList {

  /** What the fields of a list hold. The start may run past the capacity; it is reduced when used. */
  datatype Ring<T> = Ring(slots: seq<T>, start: nat, length: nat)

  ghost predicate ValidRing<T>(r: Ring<T>) {
    0 < |r.slots| && r.length <= |r.slots|
  }

  function Slot(start: nat, i: nat, capacity: nat): (k: nat)
    requires capacity > 0
    ensures k < capacity
  {
    (start + i) % capacity
  }

  /** The elements in order. */
  function View<T>(r: Ring<T>): (v: seq<T>)
    requires ValidRing(r)
    ensures |v| == r.length
  {
    seq(r.length, i requires 0 <= i < r.length => r.slots[Slot(r.start, i, |r.slots|)])
  }

  // ---- remainders ----

  lemma MultipleIsLarge(d: int, m: int)
    requires d != 0 && m >= 0
    ensures d * m >= m || d * m <= -m
  {
    if d >= 1 {
      var e := d - 1;
      assert e * m >= 0;
      assert (e + 1) * m == e * m + m;
    } else {
      var e := -d - 1;
      assert e * m >= 0;
      assert (e + 1) * m == e * m + m;
      assert d * m == -((e + 1) * m);
    }
  }

  lemma RemainderIs(a: nat, m: nat, q: nat, r: nat)
    requires r < m && a == q * m + r
    ensures a % m == r
  {
    assert a == a / m * m + a % m;
    assert (a / m - q) * m == r - a % m;
    if a / m != q {
      MultipleIsLarge(a / m - q, m);
    }
  }

  /** Two indices less than the capacity apart never share a slot. */
  lemma SlotsDiffer(start: nat, i: nat, j: nat, capacity: nat)
    requires capacity > 0 && i < j < i + capacity
    ensures Slot(start, i, capacity) != Slot(start, j, capacity)
  {
    var a, b := (start + i) / capacity, (start + j) / capacity;
    assert start + i == a * capacity + Slot(start, i, capacity);
    assert start + j == b * capacity + Slot(start, j, capacity);
    assert (b - a) * capacity == j - i + (Slot(start, i, capacity) - Slot(start, j, capacity));
    if a != b {
      MultipleIsLarge(b - a, capacity);
    }
  }

  /** Indices a capacity apart share a slot. */
  lemma SlotsWrap(start: nat, i: nat, capacity: nat)
    requires capacity > 0
    ensures Slot(start, i + capacity, capacity) == Slot(start, i, capacity)
  {
    var q := (start + i) / capacity;
    assert start + i == q * capacity + Slot(start, i, capacity);
    assert (q + 1) * capacity == q * capacity + capacity;
    RemainderIs(start + (i + capacity), capacity, q + 1, Slot(start, i, capacity));
  }

  /** A start may be reduced or moved along with the index. */
  lemma SlotShifts(start: nat, k: nat, i: nat, capacity: nat)
    requires capacity > 0
    ensures Slot(start + k, i, capacity) == Slot(start, k + i, capacity)
    ensures Slot((start + k) % capacity, i, capacity) == Slot(start, k + i, capacity)
  {
    ReducedStart(start + k, i, capacity);
  }

  lemma ReducedStart(s: nat, i: nat, m: nat)
    requires m > 0
    ensures Slot(s % m, i, m) == Slot(s, i, m)
  {
    var r := (s % m + i) % m;
    var q, q' := s / m, (s % m + i) / m;
    assert s % m + i == q' * m + r;
    assert (q + q') * m == q * m + q' * m;
    RemainderIs(s + i, m, q + q', r);
  }

  // ---- the loops of a splice ----

  /** Copies the elements from `lo` to `hi` up by `n`, the last one first. */
  function Raise<T>(slots: seq<T>, start: nat, lo: nat, hi: nat, n: nat): (r: seq<T>)
    requires |slots| > 0
    ensures |r| == |slots|
    decreases hi - lo
  {
    if hi <= lo then slots
    else
      var m := |slots|;
      Raise(slots[Slot(start, hi - 1 + n, m) := slots[Slot(start, hi - 1, m)]], start, lo, hi - 1, n)
  }

  /** Copies the elements from `lo + d` on down by `d`, up to index `hi`. */
  function Lower<T>(slots: seq<T>, start: nat, lo: nat, hi: nat, d: nat): (r: seq<T>)
    requires |slots| > 0
    ensures |r| == |slots|
    decreases hi - lo
  {
    if hi <= lo then slots
    else
      var m := |slots|;
      var s := Lower(slots, start, lo, hi - 1, d);
      s[Slot(start, hi - 1, m) := s[Slot(start, hi - 1 + d, m)]]
  }

  function Place<T>(slots: seq<T>, start: nat, at: nat, items: seq<T>): (r: seq<T>)
    requires |slots| > 0
    ensures |r| == |slots|
  {
    if items == [] then slots
    else
      var n := |items| - 1;
      Place(slots, start, at, items[..n])[Slot(start, at + n, |slots|) := items[n]]
  }

  function Deleted<T>(r: Ring<T>, start: nat, deleteCount: nat): Ring<T>
    requires ValidRing(r) && start + deleteCount <= r.length
  {
    if deleteCount == 0 then r
    else Ring(Lower(r.slots, r.start, start, r.length - deleteCount, deleteCount), r.start, r.length - deleteCount)
  }

  function Trim(length: nat, n: nat, capacity: nat): nat {
    if length + n > capacity then length + n - capacity else 0
  }

  function Inserted<T>(r: Ring<T>, start: nat, items: seq<T>): (r': Ring<T>)
    requires ValidRing(r) && start <= r.length
    ensures ValidRing(r')
  {
    var trim := Trim(r.length, |items|, |r.slots|);
    var slots := if items == [] then r.slots
                 else Place(Raise(r.slots, r.start, start, r.length, |items|), r.start, start, items);
    Ring(slots, r.start + trim, r.length + |items| - trim)
  }

  lemma {:induction false} LowerIs<T>(slots: seq<T>, start: nat, lo: nat, hi: nat, d: nat, k: nat)
    requires |slots| > 0 && lo <= hi && hi + d <= |slots| && d > 0 && k < hi + d
    ensures Lower(slots, start, lo, hi, d)[Slot(start, k, |slots|)] ==
            if lo <= k < hi then slots[Slot(start, k + d, |slots|)] else slots[Slot(start, k, |slots|)]
    decreases hi
  {
    hide Slot;
    var m := |slots|;
    if lo < hi {
      if k < hi - 1 {
        LowerIs(slots, start, lo, hi - 1, d, k);
        SlotsDiffer(start, k, hi - 1, m);
      } else if k > hi - 1 {
        SlotsDiffer(start, hi - 1, k, m);
        LowerKeeps(slots, start, lo, hi - 1, d, k);
      } else {
        LowerKeeps(slots, start, lo, hi - 1, d, k + d);
      }
    }
  }

  /** What lies above the range is left alone. */
  lemma {:induction false} LowerKeeps<T>(slots: seq<T>, start: nat, lo: nat, hi: nat, d: nat, k: nat)
    requires |slots| > 0 && hi <= k < lo + |slots|
    ensures Lower(slots, start, lo, hi, d)[Slot(start, k, |slots|)] == slots[Slot(start, k, |slots|)]
    decreases hi
  {
    hide Slot;
    if lo < hi {
      LowerKeeps(slots, start, lo, hi - 1, d, k);
      SlotsDiffer(start, hi - 1, k, |slots|);
    }
  }

  lemma {:induction false} DeletedIs<T>(r: Ring<T>, start: nat, deleteCount: nat)
    requires ValidRing(r) && start + deleteCount <= r.length
    ensures ValidRing(Deleted(r, start, deleteCount))
    ensures View(Deleted(r, start, deleteCount)) == View(r)[..start] + View(r)[start + deleteCount..]
  {
    hide Slot, Lower;
    if deleteCount > 0 {
      var hi := r.length - deleteCount;
      var v' := View(Deleted(r, start, deleteCount));
      forall k | 0 <= k < hi
        ensures v'[k] == (View(r)[..start] + View(r)[start + deleteCount..])[k]
      {
        LowerIs(r.slots, r.start, start, hi, deleteCount, k);
      }
    }
  }

  /** Raising is exact as long as no element is overwritten before it is read. */
  lemma {:induction false} RaiseAt<T>(slots: seq<T>, start: nat, lo: nat, hi: nat, n: nat, k: nat)
    requires |slots| > 0 && lo <= k < hi <= |slots| && hi + n <= |slots| + lo && n > 0
    ensures Raise(slots, start, lo, hi, n)[Slot(start, k + n, |slots|)] == slots[Slot(start, k, |slots|)]
    decreases hi
  {
    hide Slot;
    var m := |slots|;
    var s := slots[Slot(start, hi - 1 + n, m) := slots[Slot(start, hi - 1, m)]];
    if k < hi - 1 {
      RaiseAt(s, start, lo, hi - 1, n, k);
      SlotsDiffer(start, k, hi - 1 + n, m);
    } else {
      RaiseKeeps(s, start, lo, hi - 1, n, k + n);
    }
  }

  lemma {:induction false} RaiseKeeps<T>(slots: seq<T>, start: nat, lo: nat, hi: nat, n: nat, j: nat)
    requires |slots| > 0
    requires (j < lo + n && hi + n <= j + |slots|) || (hi + n <= j < lo + n + |slots|)
    ensures Raise(slots, start, lo, hi, n)[Slot(start, j, |slots|)] == slots[Slot(start, j, |slots|)]
    decreases hi
  {
    hide Slot;
    if lo < hi {
      var m := |slots|;
      if j < lo + n {
        SlotsDiffer(start, j, hi - 1 + n, m);
      } else {
        SlotsDiffer(start, hi - 1 + n, j, m);
      }
      RaiseKeeps(slots[Slot(start, hi - 1 + n, m) := slots[Slot(start, hi - 1, m)]], start, lo, hi - 1, n, j);
    }
  }

  lemma {:induction false} PlaceAt<T>(slots: seq<T>, start: nat, at: nat, items: seq<T>, k: nat)
    requires |slots| > 0 && at <= k < at + |items| <= k + |slots|
    ensures Place(slots, start, at, items)[Slot(start, k, |slots|)] == items[k - at]
  {
    hide Slot;
    var n := |items| - 1;
    if k < at + n {
      PlaceAt(slots, start, at, items[..n], k);
      SlotsDiffer(start, k, at + n, |slots|);
    }
  }

  lemma {:induction false} PlaceKeeps<T>(slots: seq<T>, start: nat, at: nat, items: seq<T>, j: nat)
    requires |slots| > 0
    requires (j < at && at + |items| <= j + |slots|) || (at + |items| <= j < at + |slots|)
    ensures Place(slots, start, at, items)[Slot(start, j, |slots|)] == slots[Slot(start, j, |slots|)]
  {
    hide Slot;
    if items != [] {
      var n := |items| - 1;
      PlaceKeeps(slots, start, at, items[..n], j);
      if j < at {
        SlotsDiffer(start, j, at + n, |slots|);
      } else {
        SlotsDiffer(start, at + n, j, |slots|);
      }
    }
  }

  /** The list that an insertion is meant to give: over capacity, the front is dropped. */
  function Bounded<T>(v: seq<T>, capacity: nat): seq<T> {
    if |v| > capacity then v[|v| - capacity..] else v
  }

  /** An insertion that starts no earlier than it trims, or at the end. */
  predicate TrimsInFront(length: nat, start: nat, n: nat, capacity: nat) {
    Trim(length, n, capacity) <= start || start == length
  }

  /** Then it is what it is meant to be. */
  lemma {:induction false} InsertedIs<T>(r: Ring<T>, start: nat, items: seq<T>)
    requires ValidRing(r) && start <= r.length && TrimsInFront(r.length, start, |items|, |r.slots|)
    ensures View(Inserted(r, start, items)) == Bounded(View(r)[..start] + items + View(r)[start..], |r.slots|)
  {
    hide Slot, Raise, Place;
    var m := |r.slots|;
    var trim := Trim(r.length, |items|, m);
    var whole := View(r)[..start] + items + View(r)[start..];
    var after := Inserted(r, start, items);
    forall q | 0 <= q < after.length
      ensures View(after)[q] == whole[trim + q]
    {
      SlotShifts(r.start, trim, q, m);
      InsertedAt(r, start, items, trim + q);
    }
    assert whole[trim..] == View(after);
  }

  lemma {:induction false} InsertedAt<T>(r: Ring<T>, start: nat, items: seq<T>, j: nat)
    requires ValidRing(r) && start <= r.length && TrimsInFront(r.length, start, |items|, |r.slots|)
    requires Trim(r.length, |items|, |r.slots|) <= j < r.length + |items|
    ensures Inserted(r, start, items).slots[Slot(r.start, j, |r.slots|)] ==
            (View(r)[..start] + items + View(r)[start..])[j]
  {
    hide Slot, Raise, Place;
    var n := |items|;
    if items != [] {
      var raised := Raise(r.slots, r.start, start, r.length, n);
      if j < start {
        PlaceKeeps(raised, r.start, start, items, j);
        RaiseKeeps(r.slots, r.start, start, r.length, n, j);
      } else if j < start + n {
        PlaceAt(raised, r.start, start, items, j);
      } else {
        PlaceKeeps(raised, r.start, start, items, j);
        RaiseAt(r.slots, r.start, start, r.length, n, j - n);
      }
    }
  }

  lemma DeletedSizes<T>(r: Ring<T>, start: nat, deleteCount: nat)
    requires ValidRing(r) && start + deleteCount <= r.length
    ensures var d := Deleted(r, start, deleteCount);
            |d.slots| == |r.slots| && d.length == r.length - deleteCount && ValidRing(d) && start <= d.length
  {
    hide Lower;
  }

  lemma {:induction false} SplicedIs<T>(r: Ring<T>, start: nat, deleteCount: nat, items: seq<T>)
    requires ValidRing(r) && start + deleteCount <= r.length
    requires TrimsInFront(r.length - deleteCount, start, |items|, |r.slots|)
    ensures View(Inserted(Deleted(r, start, deleteCount), start, items)) ==
            Bounded(View(r)[..start] + items + View(r)[start + deleteCount..], |r.slots|)
  {
    hide Slot, Inserted, Lower, Raise, Place;
    var d := Deleted(r, start, deleteCount);
    DeletedIs(r, start, deleteCount);
    InsertedIs(d, start, items);
    assert View(d)[..start] == View(r)[..start];
    assert View(d)[start..] == View(r)[start + deleteCount..];
  }

  // ---- what an insertion too near the front loses ----

  /** Nothing but the element at `lo` is `x`, and not even that once it has been overwritten. */
  ghost predicate Losing<T>(slots: seq<T>, start: nat, lo: nat, hi: nat, n: nat, x: T) {
    && |slots| > 0
    && (forall i: nat :: lo < i < hi ==> slots[Slot(start, i, |slots|)] != x)
    && (hi + n <= lo + |slots| ==> slots[Slot(start, lo, |slots|)] != x)
  }

  lemma {:induction false} RaiseLoses<T>(slots: seq<T>, start: nat, lo: nat, hi: nat, n: nat, x: T, k: nat)
    requires Losing(slots, start, lo, hi, n, x) && 0 < n < |slots| && lo < hi <= |slots| && lo <= k < hi
    ensures Raise(slots, start, lo, hi, n)[Slot(start, k + n, |slots|)] != x
    decreases hi
  {
    hide Slot;
    var m := |slots|;
    var s := slots[Slot(start, hi - 1 + n, m) := slots[Slot(start, hi - 1, m)]];
    if k < hi - 1 {
      assert slots[Slot(start, hi - 1, m)] != x;
      StillLosing(slots, start, lo, hi, n, x);
      RaiseLoses(s, start, lo, hi - 1, n, x, k);
    } else {
      RaiseKeeps(s, start, lo, hi - 1, n, k + n);
    }
  }

  lemma {:induction false} StillLosing<T>(slots: seq<T>, start: nat, lo: nat, hi: nat, n: nat, x: T)
    requires Losing(slots, start, lo, hi, n, x) && 0 < n < |slots| && lo + 1 < hi <= |slots|
    ensures Losing(slots[Slot(start, hi - 1 + n, |slots|) := slots[Slot(start, hi - 1, |slots|)]], start, lo, hi - 1,
                   n, x)
  {
    hide Slot;
    var m := |slots|;
    assert slots[Slot(start, hi - 1, m)] != x;
    if hi - 1 + n == lo + m {
      SlotsWrap(start, lo, m);
    }
  }

  /** An insertion that has to trim beyond its own start loses the element there, if it is held once and
      not inserted again; the list it is meant to give still holds it. */
  lemma {:induction false} InsertedLoses<T>(r: Ring<T>, start: nat, items: seq<T>, x: T)
    requires ValidRing(r) && start < r.length && start < Trim(r.length, |items|, |r.slots|)
    requires View(r)[start] == x && x !in items
    requires forall i :: 0 <= i < r.length && i != start ==> View(r)[i] != x
    ensures x !in View(Inserted(r, start, items))
    ensures x in Bounded(View(r)[..start] + items + View(r)[start..], |r.slots|)
  {
    hide Slot, Raise, Place;
    var m, n := |r.slots|, |items|;
    var trim := Trim(r.length, n, m);
    var whole := View(r)[..start] + items + View(r)[start..];
    assert whole[trim..][start + n - trim] == x;
    var after := Inserted(r, start, items);
    forall i: nat | start < i < r.length
      ensures r.slots[Slot(r.start, i, m)] != x
    {
      assert View(r)[i] != x;
    }
    forall q | 0 <= q < after.length
      ensures View(after)[q] != x
    {
      var j := trim + q;
      SlotShifts(r.start, trim, q, m);
      if n < m {
        LostAt(r, start, items, x, j);
      } else {
        CoveredAt(r, start, items, j);
      }
    }
  }

  lemma {:induction false} LostAt<T>(r: Ring<T>, start: nat, items: seq<T>, x: T, j: nat)
    requires ValidRing(r) && start < r.length && x !in items && |items| < |r.slots|
    requires start < Trim(r.length, |items|, |r.slots|) <= j < r.length + |items|
    requires forall i: nat :: start < i < r.length ==> r.slots[Slot(r.start, i, |r.slots|)] != x
    ensures Inserted(r, start, items).slots[Slot(r.start, j, |r.slots|)] != x
  {
    hide Slot, Raise, Place;
    var m, n := |r.slots|, |items|;
    var raised := Raise(r.slots, r.start, start, r.length, n);
    if j < start + n {
      PlaceAt(raised, r.start, start, items, j);
    } else if j < start + m {
      PlaceKeeps(raised, r.start, start, items, j);
      RaiseLoses(r.slots, r.start, start, r.length, n, x, j - n);
    } else {
      SlotsWrap(r.start, j - m, m);
      PlaceAt(raised, r.start, start, items, j - m);
    }
  }

  /** As many items as there are slots, or more, take them all. */
  lemma {:induction false} CoveredAt<T>(r: Ring<T>, start: nat, items: seq<T>, j: nat)
    requires ValidRing(r) && start <= r.length && |items| >= |r.slots|
    requires Trim(r.length, |items|, |r.slots|) <= j < r.length + |items|
    ensures Inserted(r, start, items).slots[Slot(r.start, j, |r.slots|)] in items
  {
    hide Slot, Raise, Place;
    var m, n := |r.slots|, |items|;
    var raised := Raise(r.slots, r.start, start, r.length, n);
    if j < start + n {
      PlaceAt(raised, r.start, start, items, j);
    } else {
      SlotsWrap(r.start, j - m, m);
      PlaceAt(raised, r.start, start, items, j - m);
    }
  }

  /** No element occurs twice, and none is inserted again. */
  ghost predicate OnceOnly<T>(v: seq<T>, items: seq<T>) {
    && (forall i, j :: 0 <= i < j < |v| ==> v[i] != v[j])
    && forall i :: 0 <= i < |v| ==> v[i] !in items
  }

  /** Insertion is what it is meant to be exactly if it starts no earlier than it trims, or at the end. */
  lemma {:induction false} InsertedExactly<T>(r: Ring<T>, start: nat, items: seq<T>)
    requires ValidRing(r) && start <= r.length && OnceOnly(View(r), items)
    ensures View(Inserted(r, start, items)) == Bounded(View(r)[..start] + items + View(r)[start..], |r.slots|) <==>
            TrimsInFront(r.length, start, |items|, |r.slots|)
  {
    hide Inserted, View, Bounded;
    if TrimsInFront(r.length, start, |items|, |r.slots|) {
      InsertedIs(r, start, items);
    } else {
      InsertedLoses(r, start, items, View(r)[start]);
    }
  }

  /** And so is a splice. */
  lemma {:induction false} SplicedExactly<T>(r: Ring<T>, start: nat, deleteCount: nat, items: seq<T>)
    requires ValidRing(r) && start + deleteCount <= r.length && OnceOnly(View(r), items)
    ensures View(Inserted(Deleted(r, start, deleteCount), start, items)) ==
            Bounded(View(r)[..start] + items + View(r)[start + deleteCount..], |r.slots|) <==>
            TrimsInFront(r.length - deleteCount, start, |items|, |r.slots|)
  {
    hide Inserted, View, Bounded;
    DeletedSizes(r, start, deleteCount);
    DeletedIs(r, start, deleteCount);
    var v, w := View(r), View(Deleted(r, start, deleteCount));
    assert w[..start] == v[..start] && w[start..] == v[start + deleteCount..];
    InsertedExactly(Deleted(r, start, deleteCount), start, items);
  }

  /** A full ring of three and one more element in front of all: it should not show, but the first is
      lost for it, and the order too. */
  lemma FrontIsLost()
    ensures var r := Ring([1, 2, 3], 0, 3);
            && View(r) == [1, 2, 3] && View(Inserted(r, 0, [9])) == [3, 2, 9]
            && Bounded([9] + View(r), 3) == [1, 2, 3]
  {
    var r := Ring([1, 2, 3], 0, 3);
    assert Raise([3, 3, 2], 0, 0, 0, 1) == [3, 3, 2];
    assert Raise([3, 2, 2], 0, 0, 1, 1) == Raise([3, 3, 2], 0, 0, 0, 1);
    assert Raise([3, 2, 3], 0, 0, 2, 1) == Raise([3, 2, 2], 0, 0, 1, 1);
    assert Raise([1, 2, 3], 0, 0, 3, 1) == Raise([3, 2, 3], 0, 0, 2, 1);
    assert Place([3, 3, 2], 0, 0, []) == [3, 3, 2];
    assert [9][..0] == [];
    assert Place([3, 3, 2], 0, 0, [9]) == [9, 3, 2];
  }

  // ---- shifting within the list ----

  /** `count` elements moved by `offset`; the ones they leave behind stay. */
  function Shifted<T>(v: seq<T>, start: nat, count: nat, offset: int): seq<T>
    requires start + count <= |v| && 0 <= start + offset <= |v|
  {
    var end := start + offset + count;
    v[..start + offset] + v[start..start + count] + if end < |v| then v[end..] else []
  }

  function Longer(a: nat, b: nat): nat {
    if a > b then a else b
  }

  function ShiftedUp<T>(r: Ring<T>, start: nat, count: nat, offset: nat): (r': Ring<T>)
    requires ValidRing(r)
    ensures ValidRing(r')
  {
    var end := start + count + offset;
    var length := Longer(end, r.length);
    var trim := if length > |r.slots| then length - |r.slots| else 0;
    Ring(Raise(r.slots, r.start, start, start + count, offset), r.start + trim, length - trim)
  }

  function ShiftedDown<T>(r: Ring<T>, start: nat, count: nat, down: nat): (r': Ring<T>)
    requires ValidRing(r) && down <= start
    ensures ValidRing(r')
  {
    Ring(Lower(r.slots, r.start, start - down, start - down + count, down), r.start, r.length)
  }

  lemma {:induction false} ShiftedUpIs<T>(r: Ring<T>, start: nat, count: nat, offset: nat)
    requires ValidRing(r) && start + count <= r.length && start + offset <= r.length && 0 < offset
    requires start + count + offset <= |r.slots| + start
    ensures View(ShiftedUp(r, start, count, offset)) == Bounded(Shifted(View(r), start, count, offset), |r.slots|)
  {
    hide Slot, Raise, Shifted;
    ShiftedLength(View(r), start, count, offset);
    var m := |r.slots|;
    var whole := Shifted(View(r), start, count, offset);
    var after := ShiftedUp(r, start, count, offset);
    var trim := |whole| - after.length;
    forall q | 0 <= q < after.length
      ensures View(after)[q] == whole[trim + q]
    {
      var j := trim + q;
      SlotShifts(r.start, trim, q, m);
      ShiftedUpAt(r, start, count, offset, j);
    }
    assert whole[trim..] == View(after);
  }

  lemma ShiftedLength<T>(v: seq<T>, start: nat, count: nat, offset: nat)
    requires start + count <= |v| && start + offset <= |v|
    ensures |Shifted(v, start, count, offset)| == if start + count + offset > |v| then start + count + offset else |v|
  {
  }

  lemma {:induction false} ShiftedUpAt<T>(r: Ring<T>, start: nat, count: nat, offset: nat, j: nat)
    requires ValidRing(r) && start + count <= r.length && start + offset <= r.length && 0 < offset
    requires start + count + offset <= |r.slots| + start
    requires j < |Shifted(View(r), start, count, offset)| <= j + |r.slots|
    ensures ShiftedUp(r, start, count, offset).slots[Slot(r.start, j, |r.slots|)] ==
            Shifted(View(r), start, count, offset)[j]
  {
    hide Slot, Raise;
    if start + offset <= j < start + offset + count {
      RaiseAt(r.slots, r.start, start, start + count, offset, j - offset);
    } else {
      RaiseKeeps(r.slots, r.start, start, start + count, offset, j);
    }
  }

  /** A shift by the whole capacity turns the ring and copies nothing. */
  lemma {:induction false} RaisedAround<T>(slots: seq<T>, start: nat, lo: nat, hi: nat)
    requires |slots| > 0
    ensures Raise(slots, start, lo, hi, |slots|) == slots
    decreases hi - lo
  {
    hide Slot;
    if lo < hi {
      SlotsWrap(start, hi - 1, |slots|);
      assert slots[Slot(start, hi - 1 + |slots|, |slots|) := slots[Slot(start, hi - 1, |slots|)]] == slots;
      RaisedAround(slots, start, lo, hi - 1);
    }
  }

  lemma {:induction false} TurnedIs<T>(r: Ring<T>, count: nat)
    requires ValidRing(r) && r.length == |r.slots| && count <= r.length
    ensures View(ShiftedUp(r, 0, count, r.length)) == Bounded(Shifted(View(r), 0, count, r.length), |r.slots|)
  {
    hide Slot, Raise;
    var m := |r.slots|;
    RaisedAround(r.slots, r.start, 0, count);
    var whole := View(r) + View(r)[..count];
    assert Shifted(View(r), 0, count, m) == whole;
    var after := ShiftedUp(r, 0, count, m);
    forall q | 0 <= q < m
      ensures View(after)[q] == whole[count + q]
    {
      SlotShifts(r.start, count, q, m);
      if count + q >= m {
        SlotsWrap(r.start, count + q - m, m);
      }
    }
    assert whole[count..] == View(after);
  }

  /** Further than that, and the first element that is moved is lost. */
  lemma {:induction false} ShiftedLoses<T>(r: Ring<T>, start: nat, count: nat, offset: nat)
    requires ValidRing(r) && 0 < count && start + count <= r.length && 0 < offset && start + offset <= r.length
    requires count + offset > |r.slots| > offset && OnceOnly(View(r), [])
    ensures View(r)[start] !in View(ShiftedUp(r, start, count, offset))
    ensures View(r)[start] in Bounded(Shifted(View(r), start, count, offset), |r.slots|)
  {
    hide Slot, Raise, OnceOnly;
    var m, x := |r.slots|, View(r)[start];
    var trim := start + count + offset - m;
    var whole := Shifted(View(r), start, count, offset);
    assert whole[trim..][start + offset - trim] == x;
    var after := ShiftedUp(r, start, count, offset);
    forall q | 0 <= q < after.length
      ensures View(after)[q] != x
    {
      SlotShifts(r.start, trim, q, m);
      ShiftedLostAt(r, start, count, offset, trim + q);
    }
  }

  lemma {:induction false} ShiftedLostAt<T>(r: Ring<T>, start: nat, count: nat, offset: nat, j: nat)
    requires ValidRing(r) && 0 < count && start + count <= r.length && 0 < offset && start + offset <= r.length
    requires count + offset > |r.slots| > offset && OnceOnly(View(r), [])
    requires start + count + offset - |r.slots| <= j < start + count + offset
    ensures ShiftedUp(r, start, count, offset).slots[Slot(r.start, j, |r.slots|)] != View(r)[start]
  {
    hide Slot, Raise;
    var m, x := |r.slots|, View(r)[start];
    forall i: nat | start < i < r.length
      ensures r.slots[Slot(r.start, i, m)] != x
    {
      assert View(r)[i] != x;
    }
    if j < start + offset {
      RaiseKeeps(r.slots, r.start, start, start + count, offset, j);
    } else {
      RaiseLoses(r.slots, r.start, start, start + count, offset, x, j - offset);
    }
  }

  /** A shift up is what it is meant to be exactly if what moves and how far it moves fit the capacity
      together, or it moves by all of it. */
  lemma {:induction false} ShiftedExactly<T>(r: Ring<T>, start: nat, count: nat, offset: nat)
    requires ValidRing(r) && 0 < count && start + count <= r.length && 0 < offset && start + offset <= r.length
    requires OnceOnly(View(r), [])
    ensures View(ShiftedUp(r, start, count, offset)) == Bounded(Shifted(View(r), start, count, offset), |r.slots|) <==>
            count + offset <= |r.slots| || offset == |r.slots|
  {
    hide ShiftedUp, View, Bounded, Shifted;
    if count + offset <= |r.slots| {
      ShiftedUpIs(r, start, count, offset);
    } else if offset == |r.slots| {
      TurnedIs(r, count);
    } else {
      ShiftedLoses(r, start, count, offset);
    }
  }

  lemma {:induction false} ShiftedDownIs<T>(r: Ring<T>, start: nat, count: nat, down: nat)
    requires ValidRing(r) && start + count <= r.length && 0 < down <= start
    ensures View(ShiftedDown(r, start, count, down)) == Shifted(View(r), start, count, -(down as int))
  {
    hide Slot, Lower;
    var lo := start - down;
    var whole := Shifted(View(r), start, count, -(down as int));
    var after := ShiftedDown(r, start, count, down);
    forall k | 0 <= k < after.length
      ensures View(after)[k] == whole[k]
    {
      if k < start + count {
        LowerIs(r.slots, r.start, lo, lo + count, down, k);
      } else {
        LowerKeeps(r.slots, r.start, lo, lo + count, down, k);
      }
    }
  }

  // ---- the other operations ----

  /** The start, one further. */
  function Turned(start: nat, capacity: nat): nat
    requires capacity > 0
  {
    (start + 1) % capacity
  }

  function Pushed<T>(r: Ring<T>, value: T): (r': Ring<T>)
    requires ValidRing(r)
    ensures ValidRing(r')
  {
    var slots := r.slots[Slot(r.start, r.length, |r.slots|) := value];
    if r.length == |r.slots| then Ring(slots, Turned(r.start, |r.slots|), r.length)
    else Ring(slots, r.start, r.length + 1)
  }

  lemma {:induction false} PushedIs<T>(r: Ring<T>, value: T)
    requires ValidRing(r)
    ensures View(Pushed(r, value)) == Bounded(View(r) + [value], |r.slots|)
  {
    hide Slot;
    var m := |r.slots|;
    var after := Pushed(r, value);
    var whole := View(r) + [value];
    var trim := |whole| - after.length;
    forall q | 0 <= q < after.length
      ensures View(after)[q] == whole[trim + q]
    {
      SlotShifts(r.start, trim, q, m);
      if trim + q < r.length {
        SlotsDiffer(r.start, trim + q, r.length, m);
      }
    }
    assert whole[trim..] == View(after);
  }

  function Recycled<T>(r: Ring<T>): Ring<T>
    requires ValidRing(r)
  {
    Ring(r.slots, Turned(r.start, |r.slots|), r.length)
  }

  /** Recycling a full list turns it by one: the oldest element becomes the last. */
  lemma {:induction false} RecycledIs<T>(r: Ring<T>)
    requires ValidRing(r) && r.length == |r.slots|
    ensures ValidRing(Recycled(r)) && View(Recycled(r)) == View(r)[1..] + [View(r)[0]]
  {
    hide Slot;
    var m := |r.slots|;
    forall q | 0 <= q < m
      ensures View(Recycled(r))[q] == (View(r)[1..] + [View(r)[0]])[q]
    {
      SlotShifts(r.start, 1, q, m);
      if q == m - 1 {
        SlotsWrap(r.start, 0, m);
      }
    }
  }

  lemma {:induction false} SetIs<T>(r: Ring<T>, index: nat, value: T)
    requires ValidRing(r) && index < r.length
    ensures View(r.(slots := r.slots[Slot(r.start, index, |r.slots|) := value])) == View(r)[index := value]
  {
    hide Slot;
    forall k | 0 <= k < r.length && k != index
      ensures Slot(r.start, k, |r.slots|) != Slot(r.start, index, |r.slots|)
    {
      if k < index {
        SlotsDiffer(r.start, k, index, |r.slots|);
      } else {
        SlotsDiffer(r.start, index, k, |r.slots|);
      }
    }
  }

  lemma {:induction false} TrimmedIs<T>(r: Ring<T>, count: nat)
    requires ValidRing(r) && count <= r.length
    ensures View(r.(start := r.start + count, length := r.length - count)) == View(r)[count..]
  {
    hide Slot;
    var after := r.(start := r.start + count, length := r.length - count);
    forall q | 0 <= q < after.length
      ensures View(after)[q] == View(r)[count..][q]
    {
      SlotShifts(r.start, count, q, |r.slots|);
    }
  }

  class CircularList<T> {
    var array_: array<T>
    var startIdx: nat
    var length: nat
    /** What is put into new slots. */
    const zero: T
    /** How many elements the listeners of trimming have been told of. */
    ghost var trimmed: nat

    ghost function Stored(): Ring<T>
      reads this, array_
    {
      Ring(array_[..], startIdx, length)
    }

    ghost predicate Valid()
      reads this, array_
    {
      ValidRing(Stored())
    }

    ghost function Contents(): (v: seq<T>)
      requires Valid()
      reads this, array_
      ensures |v| == length
    {
      View(Stored())
    }

    ghost function Capacity(): nat
      reads this, array_
    {
      array_.Length
    }

    constructor (maxLength: nat, zero: T)
      requires maxLength > 0
      ensures Valid() && Contents() == [] && Capacity() == maxLength && trimmed == 0 && fresh(array_) &&
              this.zero == zero
    {
      array_ := new T[maxLength](_ => zero);
      startIdx, length, trimmed := 0, 0, 0;
      this.zero := zero;
    }

    function IsFull(): bool
      reads this, array_
    {
      length == array_.Length
    }

    function CyclicIndex(index: nat): (k: nat)
      requires array_.Length > 0
      reads this, array_
      ensures k == Slot(startIdx, index, array_.Length)
    {
      (startIdx + index) % array_.Length
    }

    method Get(index: nat) returns (value: T)
      requires Valid() && index < length
      ensures value == Contents()[index]
    {
      value := array_[CyclicIndex(index)];
    }

    method Set(index: nat, value: T)
      requires Valid() && index < length
      modifies array_
      ensures Valid() && Contents() == old(Contents())[index := value]
    {
      SetIs(Stored(), index, value);
      array_[CyclicIndex(index)] := value;
    }

    method Push(value: T)
      requires Valid()
      modifies this, array_
      ensures Valid() && array_ == old(array_)
      ensures Contents() == Bounded(old(Contents()) + [value], Capacity())
      ensures trimmed + length == old(trimmed) + old(length) + 1
    {
      hide Slot, Turned;
      PushedIs(Stored(), value);
      array_[CyclicIndex(length)] := value;
      if length == array_.Length {
        startIdx := Turned(startIdx, array_.Length);
        trimmed := trimmed + 1;
      } else {
        length := length + 1;
      }
      assert Stored() == Pushed(old(Stored()), value);
    }

    /** Gives back the oldest element for reuse, as the last one. */
    method Recycle() returns (value: T)
      requires Valid() && IsFull()
      modifies this
      ensures Valid() && array_ == old(array_)
      ensures Contents() == old(Contents())[1..] + [old(Contents())[0]] && value == old(Contents())[0]
      ensures trimmed == old(trimmed) + 1
    {
      hide Slot, Turned;
      RecycledIs(Stored());
      startIdx := Turned(startIdx, array_.Length);
      trimmed := trimmed + 1;
      assert Stored() == Recycled(old(Stored()));
      value := array_[CyclicIndex(length - 1)];
      assert value == Contents()[length - 1];
    }

    method Pop() returns (value: T)
      requires Valid() && length > 0
      modifies this
      ensures Valid() && array_ == old(array_) && trimmed == old(trimmed)
      ensures Contents() == old(Contents())[..old(length) - 1] && value == old(Contents())[old(length) - 1]
    {
      length := length - 1;
      value := array_[CyclicIndex(length)];
    }

    method TrimStart(count: nat)
      requires Valid()
      modifies this
      ensures Valid() && array_ == old(array_)
      ensures var n := if count > old(length) then old(length) else count;
              Contents() == old(Contents())[n..] && trimmed == old(trimmed) + n
    {
      hide Slot;
      var n := if count > length then length else count;
      TrimmedIs(Stored(), n);
      startIdx := startIdx + n;
      length := length - n;
      trimmed := trimmed + n;
    }

    /** New elements are zero values; elements beyond the new length are dropped from the end. */
    method SetLength(newLength: nat)
      requires Valid() && newLength <= Capacity()
      modifies this, array_
      ensures Valid() && array_ == old(array_) && trimmed == old(trimmed)
      ensures Contents() == if newLength <= old(length) then old(Contents())[..newLength]
                            else old(Contents()) + seq(newLength - old(length), _ => zero)
    {
      hide Slot;
      ghost var was := Contents();
      var n := length;
      if newLength > length {
        for i := length to newLength
          invariant length == old(length) && startIdx == old(startIdx) && array_ == old(array_) &&
                    trimmed == old(trimmed)
          invariant View(Stored().(length := i)) == was + seq(i - length, _ => zero)
        {
          PushedIs(Stored().(length := i), zero);
          array_[CyclicIndex(i)] := zero;
          assert was + seq(i + 1 - length, _ => zero) == was + seq(i - length, _ => zero) + [zero];
        }
      }
      length := newLength;
    }

    /** A new capacity; what does not fit is dropped from the end. */
    method SetMaxLength(newMaxLength: nat)
      requires Valid() && newMaxLength > 0
      modifies this
      ensures Valid() && Capacity() == newMaxLength && trimmed == old(trimmed)
      ensures array_ == old(array_) || fresh(array_)
      ensures Contents() == if newMaxLength < old(length) then old(Contents())[..newMaxLength] else old(Contents())
    {
      hide Slot;
      if array_.Length == newMaxLength {
        return;
      }
      var newArray := new T[newMaxLength](_ => zero);
      var copyLen := if newMaxLength < length then newMaxLength else length;
      ghost var was := Contents();
      for i := 0 to copyLen
        invariant Stored() == old(Stored()) && array_ == old(array_) && array_ != newArray && trimmed == old(trimmed)
        invariant newArray[..i] == was[..i]
      {
        newArray[i] := array_[CyclicIndex(i)];
        assert newArray[..i + 1] == newArray[..i] + [was[i]];
      }
      array_ := newArray;
      startIdx := 0;
      if length > newMaxLength {
        length := newMaxLength;
      }
      StartsAtZero(Stored());
    }

    method RaiseElements(lo: nat, hi: nat, n: nat)
      requires Valid()
      modifies array_
      ensures array_[..] == Raise(old(array_[..]), startIdx, lo, hi, n)
    {
      hide Slot;
      if hi <= lo {
        return;
      }
      ghost var was := array_[..];
      var i := hi;
      while i > lo
        invariant lo <= i <= hi
        invariant Raise(was, startIdx, lo, hi, n) == Raise(array_[..], startIdx, lo, i, n)
      {
        array_[CyclicIndex(i - 1 + n)] := array_[CyclicIndex(i - 1)];
        i := i - 1;
      }
    }

    method LowerElements(lo: nat, hi: nat, d: nat)
      requires Valid()
      modifies array_
      ensures array_[..] == Lower(old(array_[..]), startIdx, lo, hi, d)
    {
      hide Slot;
      if hi <= lo {
        return;
      }
      for i := lo to hi
        invariant array_[..] == Lower(old(array_[..]), startIdx, lo, i, d)
      {
        array_[CyclicIndex(i)] := array_[CyclicIndex(i + d)];
      }
    }

    method PlaceItems(at: nat, items: seq<T>)
      requires Valid()
      modifies array_
      ensures array_[..] == Place(old(array_[..]), startIdx, at, items)
    {
      hide Slot;
      for i := 0 to |items|
        invariant array_[..] == Place(old(array_[..]), startIdx, at, items[..i])
      {
        array_[CyclicIndex(at + i)] := items[i];
        assert items[..i + 1][..i] == items[..i];
      }
      assert items[..|items|] == items;
    }

    /** Deletes, then inserts. Over capacity the front is dropped; that is what it does as long as the
        insertion starts no earlier than where the trimming ends. */
    method Splice(start: nat, deleteCount: nat, items: seq<T>)
      requires Valid() && start + deleteCount <= length
      modifies this, array_
      ensures Valid() && array_ == old(array_)
      ensures Stored() == Inserted(Deleted(old(Stored()), start, deleteCount), start, items)
      ensures var trim := Trim(old(length) - deleteCount, |items|, Capacity());
              && trimmed == old(trimmed) + trim
              && (TrimsInFront(old(length) - deleteCount, start, |items|, Capacity()) ==>
                    Contents() == Bounded(old(Contents())[..start] + items +
                                          old(Contents())[start + deleteCount..], Capacity()))
    {
      hide View, Deleted, Inserted, Bounded;
      ghost var r := Stored();
      DeletedSizes(r, start, deleteCount);
      DeleteAt(start, deleteCount);
      InsertAt(start, items);
      if TrimsInFront(r.length - deleteCount, start, |items|, |r.slots|) {
        SplicedIs(r, start, deleteCount, items);
      }
    }

    method DeleteAt(start: nat, deleteCount: nat)
      requires Valid() && start + deleteCount <= length
      modifies this, array_
      ensures Valid() && array_ == old(array_) && trimmed == old(trimmed)
      ensures Stored() == Deleted(old(Stored()), start, deleteCount)
    {
      hide Slot, Lower;
      if deleteCount > 0 {
        LowerElements(start, length - deleteCount, deleteCount);
        length := length - deleteCount;
      }
    }

    method InsertAt(start: nat, items: seq<T>)
      requires Valid() && start <= length
      modifies this, array_
      ensures Valid() && array_ == old(array_)
      ensures Stored() == Inserted(old(Stored()), start, items)
      ensures trimmed == old(trimmed) + Trim(old(length), |items|, array_.Length)
    {
      hide Slot, Raise, Place;
      if |items| > 0 {
        RaiseElements(start, length, |items|);
        PlaceItems(start, items);
      }
      if length + |items| > array_.Length {
        var countToTrim := length + |items| - array_.Length;
        startIdx := startIdx + countToTrim;
        length := array_.Length;
        trimmed := trimmed + countToTrim;
      } else {
        length := length + |items|;
      }
    }

    method ShiftElements(start: nat, count: int, offset: int)
      requires Valid() && (count > 0 ==> start < length && start + offset >= 0)
      modifies this, array_
      ensures Valid() && array_ == old(array_)
      ensures count <= 0 ==> Stored() == old(Stored()) && trimmed == old(trimmed)
      ensures count > 0 && offset > 0 ==>
                && Stored() == ShiftedUp(old(Stored()), start, count, offset)
                && trimmed + length == old(trimmed) + Longer(start + count + offset, old(length))
      ensures count > 0 && offset <= 0 ==>
                Stored() == ShiftedDown(old(Stored()), start, count, -offset) && trimmed == old(trimmed)
      ensures count > 0 && start + count <= old(length) && start + offset <= old(length) &&
              (count + offset <= Capacity() || offset == Capacity()) ==>
                var whole := Shifted(old(Contents()), start, count, offset);
                Contents() == Bounded(whole, Capacity()) && trimmed + length == old(trimmed) + |whole|
    {
      hide Slot, ShiftedDown, ShiftedUp, View;
      if count <= 0 {
        return;
      }
      if offset > 0 {
        ShiftUp(start, count, offset);
      } else {
        ShiftDown(start, count, -offset);
      }
    }

    method ShiftDown(start: nat, count: nat, down: nat)
      requires Valid() && down <= start
      modifies array_
      ensures Valid() && Stored() == ShiftedDown(old(Stored()), start, count, down)
      ensures start + count <= length ==> Contents() == Shifted(old(Contents()), start, count, -(down as int))
    {
      hide Slot, Lower;
      ghost var r := Stored();
      LowerElements(start - down, start - down + count, down);
      if start + count <= r.length {
        if down > 0 {
          ShiftedDownIs(r, start, count, down);
        } else {
          LowerByNothing(r.slots, r.start, start, start + count);
        }
      }
    }

    method ShiftUp(start: nat, count: nat, offset: nat)
      requires Valid() && offset > 0
      modifies this, array_
      ensures Valid() && array_ == old(array_) && Stored() == ShiftedUp(old(Stored()), start, count, offset)
      ensures trimmed + length == old(trimmed) + Longer(start + count + offset, old(length))
      ensures start + count <= old(length) && start + offset <= old(length) &&
              (count + offset <= Capacity() || offset == Capacity()) ==>
                var whole := Shifted(old(Contents()), start, count, offset);
                Contents() == Bounded(whole, Capacity()) && trimmed + length == old(trimmed) + |whole|
    {
      hide Slot, Raise, Shifted;
      ghost var r := Stored();
      RaiseElements(start, start + count, offset);
      var expandBy := start + count + offset - length;
      if expandBy > 0 {
        length := length + expandBy;
        while length > array_.Length
          invariant Stored().slots == Raise(r.slots, r.start, start, start + count, offset)
          invariant array_ == old(array_) && length + trimmed == old(trimmed) + start + count + offset
          invariant startIdx == old(startIdx) + (trimmed - old(trimmed)) && trimmed >= old(trimmed)
          invariant trimmed > old(trimmed) ==> length >= array_.Length
        {
          length := length - 1;
          startIdx := startIdx + 1;
          trimmed := trimmed + 1;
        }
      }
      assert Stored() == ShiftedUp(r, start, count, offset);
      if start + count <= r.length && start + offset <= r.length &&
        (count + offset <= array_.Length || offset == array_.Length) {
        if count + offset <= array_.Length {
          ShiftedUpIs(r, start, count, offset);
        } else {
          TurnedIs(r, count);
        }
        ShiftedLength(View(r), start, count, offset);
      }
    }
  }

  lemma StartsAtZero<T>(r: Ring<T>)
    requires ValidRing(r) && r.start == 0
    ensures View(r) == r.slots[..r.length]
  {
  }

  lemma {:induction false} LowerByNothing<T>(slots: seq<T>, start: nat, lo: nat, hi: nat)
    requires |slots| > 0
    ensures Lower(slots, start, lo, hi, 0) == slots
    decreases hi
  {
    if lo < hi {
      LowerByNothing(slots, start, lo, hi - 1);
    }
  }
}
