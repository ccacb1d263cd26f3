/** Cutting a session's history into messages, each measured before it grows. */
module HistoryChunks {
  import OutputPacking

  type Bytes = OutputPacking.Bytes

  const UNIT := 4096
  const MARGIN := 2048
  const BUDGET := OutputPacking.SECURE_MAX_TEXT_PAYLOAD - MARGIN

  /** The length of the marshalled message that carries a chunk, left abstract. */
  type Measure = Bytes -> nat

  function Joined(chunks: seq<Bytes>): Bytes {
    if chunks == [] then [] else Joined(chunks[..|chunks| - 1]) + chunks[|chunks| - 1]
  }

  function UnitEnd(start: nat, length: nat): nat {
    if start + UNIT > length then length else start + UNIT
  }

  /** The chunk from `start` to `end`: it is one unit, or it fits; and one more unit would not. */
  predicate GreedyChunk(measure: Measure, data: Bytes, start: nat, end: nat)
    requires start <= |data|
  {
    && start < end <= |data| && (end < |data| ==> (end - start) % UNIT == 0)
    && (end == UnitEnd(start, |data|) || measure(data[start..end]) <= BUDGET)
    && (end < |data| ==> measure(data[start..UnitEnd(end, |data|)]) > BUDGET)
  }

  /** The chunks lie end to end, each as long as it may grow. */
  predicate Greedy(measure: Measure, data: Bytes, chunks: seq<Bytes>, at: nat)
    decreases |chunks|
  {
    if chunks == [] then at == 0
    else
      var last := chunks[|chunks| - 1];
      && |last| <= at <= |data| && last == data[at - |last|..at]
      && GreedyChunk(measure, data, at - |last|, at)
      && Greedy(measure, data, chunks[..|chunks| - 1], at - |last|)
  }

  /** Grows one chunk by whole units. */
  method GrowChunk(measure: Measure, data: Bytes, start: nat) returns (end: nat)
    requires start < |data|
    ensures GreedyChunk(measure, data, start, end)
  {
    end := UnitEnd(start, |data|);
    while end < |data|
      invariant start < end <= |data| && (end < |data| ==> (end - start) % UNIT == 0)
      invariant end == UnitEnd(start, |data|) || measure(data[start..end]) <= BUDGET
    {
      var next := UnitEnd(end, |data|);
      if measure(data[start..next]) > BUDGET {
        break;
      }
      end := next;
    }
  }

  /** The chunks of the whole history, in order. */
  method PlainChunks(measure: Measure, data: Bytes) returns (chunks: seq<Bytes>)
    ensures Greedy(measure, data, chunks, |data|)
  {
    hide GreedyChunk;
    chunks := [];
    var start := 0;
    while start < |data|
      invariant start <= |data| && Greedy(measure, data, chunks, start)
    {
      var end := GrowChunk(measure, data, start);
      ChunkBounds(measure, data, start, end);
      assert (chunks + [data[start..end]])[..|chunks|] == chunks;
      chunks := chunks + [data[start..end]];
      start := end;
    }
  }

  lemma ChunkBounds(measure: Measure, data: Bytes, start: nat, end: nat)
    requires start <= |data| && GreedyChunk(measure, data, start, end)
    ensures start < end <= |data|
  {
  }

  /** Whoever joins the chunks has the history. */
  lemma {:induction false} ChunksJoin(measure: Measure, data: Bytes, chunks: seq<Bytes>, at: nat)
    requires Greedy(measure, data, chunks, at)
    ensures at <= |data| && Joined(chunks) == data[..at]
    decreases |chunks|
  {
    hide GreedyChunk;
    if chunks != [] {
      var last := chunks[|chunks| - 1];
      ChunksJoin(measure, data, chunks[..|chunks| - 1], at - |last|);
      assert data[..at] == data[..at - |last|] + last;
    }
  }

  /** A part of a text never marshals to more. */
  ghost predicate Monotone(measure: Measure) {
    forall a: Bytes, lo: nat, hi: nat :: lo <= hi <= |a| ==> measure(a[lo..hi]) <= measure(a)
  }

  /** The unit of the history that starts at `u`. */
  function UnitAt(data: Bytes, u: nat): Bytes
    requires u <= |data|
  {
    data[u..UnitEnd(u, |data|)]
  }

  /** A chunk that starts with a unit that fits, fits. */
  lemma {:induction false} ChunkFits(measure: Measure, data: Bytes, start: nat, end: nat)
    requires start <= |data| && GreedyChunk(measure, data, start, end)
    requires measure(UnitAt(data, start)) <= BUDGET
    ensures measure(data[start..end]) <= BUDGET
  {
  }

  /** A unit of a chunk that fits, fits. */
  lemma {:induction false} UnitFits(measure: Measure, data: Bytes, start: nat, end: nat, u: nat)
    requires start <= |data| && GreedyChunk(measure, data, start, end) && Monotone(measure)
    requires start % UNIT == 0 && u % UNIT == 0 && start <= u < end && measure(data[start..end]) <= BUDGET
    ensures measure(UnitAt(data, u)) <= BUDGET
  {
    var chunk := data[start..end];
    assert UnitEnd(u, |data|) <= end by {
      assert end < |data| ==> end % UNIT == 0;
    }
    SliceOfSlice(data, start, end, u, UnitEnd(u, |data|));
    assert measure(chunk[u - start..UnitEnd(u, |data|) - start]) <= measure(chunk);
  }

  lemma SliceOfSlice(data: Bytes, a: nat, b: nat, lo: nat, hi: nat)
    requires a <= lo <= hi <= b <= |data|
    ensures data[a..b][lo - a..hi - a] == data[lo..hi]
  {
    var part := data[a..b];
    forall i | 0 <= i < hi - lo
      ensures part[lo - a..hi - a][i] == data[lo..hi][i]
    {
      assert part[lo - a..hi - a][i] == part[lo - a + i] == data[lo + i];
    }
  }

  ghost predicate UnitsFit(measure: Measure, data: Bytes, lo: nat, hi: nat)
    requires hi <= |data|
  {
    forall u: nat :: lo <= u < hi && u % UNIT == 0 ==> measure(UnitAt(data, u)) <= BUDGET
  }

  /** If every unit of the history fits, then so do all chunks; and only then, if a part never marshals
      to more. */
  lemma {:induction false} AllFit(measure: Measure, data: Bytes, chunks: seq<Bytes>, at: nat)
    requires Greedy(measure, data, chunks, at)
    ensures at <= |data|
    ensures UnitsFit(measure, data, 0, at) ==> ChunksFit(measure, chunks)
    ensures Monotone(measure) ==> (ChunksFit(measure, chunks) <==> UnitsFit(measure, data, 0, at))
    decreases |chunks|
  {
    hide GreedyChunk, Monotone, UnitAt;
    if chunks != [] {
      var n := |chunks| - 1;
      var front, last := chunks[..n], chunks[n];
      var start := at - |last|;
      AllFit(measure, data, front, start);
      WholeUnits(measure, data, front, start);
      ChunkBounds(measure, data, start, at);
      if measure(UnitAt(data, start)) <= BUDGET {
        ChunkFits(measure, data, start, at);
      }
      if measure(last) <= BUDGET && Monotone(measure) {
        forall u: nat | start <= u < at && u % UNIT == 0
          ensures measure(UnitAt(data, u)) <= BUDGET
        {
          UnitFits(measure, data, start, at, u);
        }
      }
      assert forall k :: 0 <= k < n ==> front[k] == chunks[k];
      assert ChunksFit(measure, chunks) <==> ChunksFit(measure, front) && measure(last) <= BUDGET;
    }
  }

  ghost predicate ChunksFit(measure: Measure, chunks: seq<Bytes>) {
    forall k :: 0 <= k < |chunks| ==> measure(chunks[k]) <= BUDGET
  }

  /** Where a part can marshal to more than the whole, a chunk may fit although its units do not. */
  lemma {:induction false} PartsCanBeLonger(data: Bytes) returns (measure: Measure)
    requires |data| == 2 * UNIT
    ensures Greedy(measure, data, [data], |data|) && ChunksFit(measure, [data]) && !UnitsFit(measure, data, 0, |data|)
  {
    measure := (b: Bytes) => if |b| == UNIT then BUDGET + 1 else 0;
    assert [data][..0] == [] && data[0..|data|] == data;
    assert Greedy(measure, data, [], 0);
    assert |UnitAt(data, 0)| == UNIT;
  }

  /** If no byte takes more than six and the envelope is small, no chunk of so many bytes is too long;
      a whole unit may be. */
  lemma SmallChunkFits(measure: Measure, chunk: Bytes)
    requires forall b: Bytes :: measure(b) <= OutputPacking.ENVELOPE_MAX + 6 * |b|
    requires |chunk| <= (BUDGET - OutputPacking.ENVELOPE_MAX) / 6
    ensures measure(chunk) <= BUDGET
  {
  }

  /** Escapes all through: one unit of them is a chunk of its own that the secure channel refuses. */
  lemma {:induction false} DenseUnitIsRefused(escapes: Bytes, envelope: nat) returns (measure: Measure)
    requires |escapes| == UNIT
    ensures Monotone(measure) && !UnitsFit(measure, escapes, 0, UNIT) &&
            forall b: Bytes :: measure(b) == envelope + 6 * |b|
    ensures forall chunks :: Greedy(measure, escapes, chunks, UNIT) ==>
              chunks == [escapes] && measure(escapes) > OutputPacking.SECURE_MAX_TEXT_PAYLOAD
  {
    measure := (b: Bytes) => envelope + 6 * |b|;
    assert UnitAt(escapes, 0) == escapes;
    forall chunks | Greedy(measure, escapes, chunks, UNIT)
      ensures chunks == [escapes]
    {
      OneUnitOneChunk(measure, escapes, chunks);
    }
  }

  lemma {:induction false} OneUnitOneChunk(measure: Measure, data: Bytes, chunks: seq<Bytes>)
    requires |data| == UNIT && Greedy(measure, data, chunks, UNIT)
    ensures chunks == [data]
  {
    hide Greedy, GreedyChunk;
    LastChunk(measure, data, chunks, UNIT);
    var front, last := chunks[..|chunks| - 1], chunks[|chunks| - 1];
    WholeUnits(measure, data, front, UNIT - |last|);
    OnlyUnit(UNIT - |last|);
    NothingAtZero(measure, data, front);
    assert last == data[0..UNIT] == data && chunks == front + [last];
  }

  lemma OnlyUnit(start: nat)
    requires start < UNIT && start % UNIT == 0
    ensures start == 0
  {
  }

  lemma LastChunk(measure: Measure, data: Bytes, chunks: seq<Bytes>, at: nat)
    requires Greedy(measure, data, chunks, at) && at > 0
    ensures chunks != []
    ensures var last := chunks[|chunks| - 1];
            && 0 < |last| <= at <= |data| && last == data[at - |last|..at]
            && Greedy(measure, data, chunks[..|chunks| - 1], at - |last|)
  {
  }

  lemma ChunkIsWhole(measure: Measure, data: Bytes, start: nat, end: nat)
    requires start <= |data| && GreedyChunk(measure, data, start, end) && start % UNIT == 0
    ensures end < |data| ==> end % UNIT == 0
  {
  }

  /** All chunks but the last are whole units. */
  lemma {:induction false} WholeUnits(measure: Measure, data: Bytes, chunks: seq<Bytes>, at: nat)
    requires Greedy(measure, data, chunks, at)
    ensures at < |data| ==> at % UNIT == 0
    decreases |chunks|
  {
    hide GreedyChunk;
    if chunks != [] {
      var last := chunks[|chunks| - 1];
      ChunkBounds(measure, data, at - |last|, at);
      WholeUnits(measure, data, chunks[..|chunks| - 1], at - |last|);
      ChunkIsWhole(measure, data, at - |last|, at);
    }
  }

  lemma NothingAtZero(measure: Measure, data: Bytes, chunks: seq<Bytes>)
    requires Greedy(measure, data, chunks, 0)
    ensures chunks == []
  {
  }
}
