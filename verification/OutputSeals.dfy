/** History snapshots: when a reader that takes a history and then only later messages has every byte
    once, and when not. */
module OutputSeals {
  import opened OutputPacking
  import opened OutputRuns

  // ---- batches and a snapshot ----

  ghost predicate UpTo(entries: seq<OutEntry>, h: nat) {
    forall i :: 0 <= i < |entries| ==> entries[i].seqNo <= h
  }

  ghost predicate Above(entries: seq<OutEntry>, h: nat) {
    forall i :: 0 <= i < |entries| ==> entries[i].seqNo > h
  }

  ghost predicate OneSided(entries: seq<OutEntry>, h: nat) {
    UpTo(entries, h) || Above(entries, h)
  }

  ghost predicate JobsOneSided(jobs: seq<Job>, id: string, h: nat) {
    forall i :: 0 <= i < |jobs| && jobs[i].id == id ==> OneSided(jobs[i].entries, h)
  }

  ghost predicate LogOneSided(log: seq<Batch>, id: string, h: nat) {
    forall i :: 0 <= i < |log| && log[i].job.id == id ==> OneSided(log[i].job.entries, h)
  }

  ghost predicate Lacks(entries: seq<OutEntry>, h: nat) {
    forall i :: 0 <= i < |entries| ==> entries[i].seqNo != h
  }

  ghost predicate Ends(entries: seq<OutEntry>, h: nat) {
    entries != [] && entries[|entries| - 1].seqNo == h
  }

  ghost predicate LogCarries(s: State) {
    forall i :: 0 <= i < |s.log| ==> Carries(s.log[i].job.entries, s.log[i].msgs)
  }

  lemma {:induction false} BatchIsInLogWrites(log: seq<Batch>, k: nat, id: string, e: OutEntry)
    requires k < |log| && log[k].job.id == id && e in log[k].job.entries
    ensures e in LogWrites(log, id)
  {
    if k < |log| - 1 {
      BatchIsInLogWrites(log[..|log| - 1], k, id, e);
    }
  }

  lemma {:induction false} SnapshotIsAboveTheLog(s: State, id: string, h: nat)
    requires Inv(s) && (id in s.top ==> h >= s.top[id])
    ensures LogOneSided(s.log, id, h)
  {
    forall k | 0 <= k < |s.log| && s.log[k].job.id == id ensures UpTo(s.log[k].job.entries, h) {
      forall i | 0 <= i < |s.log[k].job.entries| ensures s.log[k].job.entries[i].seqNo <= h {
        var e := s.log[k].job.entries[i];
        BatchIsInLogWrites(s.log, k, id, e);
        assert Conserved(s, id);
        var j :| 0 <= j < |LogWrites(s.log, id)| && LogWrites(s.log, id)[j] == e;
        assert AddedTo(s, id)[j] == e;
      }
    }
  }

  lemma {:induction false} ContiguousAbove(entries: seq<OutEntry>, h: nat, k: nat, i: nat)
    requires Contiguous(entries) && k <= i < |entries| && entries[k].seqNo > h
    ensures entries[i].seqNo > h
    decreases i
  {
    if i > k {
      ContiguousAbove(entries, h, k, i - 1);
    }
  }

  lemma {:induction false} SealSplits(seg: Segment, h: nat)
    requires ValidSegment(seg)
    ensures UpTo(seg.entries[..SealPoint(seg.entries, h)], h)
    ensures Above(seg.entries[SealPoint(seg.entries, h)..], h)
  {
    var k := SealPoint(seg.entries, h);
    forall i | k <= i < |seg.entries| ensures seg.entries[i].seqNo > h {
      ContiguousAbove(seg.entries, h, k, i);
    }
  }

  lemma {:induction false} ContiguousAt(entries: seq<OutEntry>, i: nat)
    requires Contiguous(entries) && i < |entries|
    ensures entries[i].seqNo == entries[0].seqNo + i
  {
    if i > 0 {
      ContiguousAt(entries, i - 1);
    }
  }

  /** Only a stretch that goes on behind write `h` straddles it. */
  lemma {:induction false} StraddlesExactly(entries: seq<OutEntry>, h: nat)
    requires Contiguous(entries)
    ensures OneSided(entries, h) <==> Lacks(entries, h) || Ends(entries, h)
  {
    forall i | 0 <= i < |entries|
      ensures entries[i].seqNo == entries[0].seqNo + i
    {
      ContiguousAt(entries, i);
    }
    if entries != [] && entries[0].seqNo <= h < entries[0].seqNo + |entries| {
      assert entries[h - entries[0].seqNo].seqNo == h;
    }
  }

  // ---- what a seal keeps true ----

  /** Write `h` is not buffered, or it is the last of its segment and its writer is about to flush it. */
  ghost predicate Quiet(s: State, id: string, h: nat) {
    Lacks(Buffered(s, id), h) || (id in s.waiting && Ends(Buffered(s, id), h))
  }

  /** No batch so far straddles the snapshot of session `id` up to `h`, and no flush will. */
  ghost predicate Sealed(s: State, id: string, h: nat) {
    && LogOneSided(s.log, id, h)
    && (s.phase.Sending? ==> JobsOneSided(s.phase.jobs, id, h))
    && Lacks(Held(s, id), h)
    && (s.phase != Snapped(id, h) ==> Quiet(s, id, h))
  }

  /** The step Adds write `h` to session `id`. */
  predicate Adds(step: Step, id: string, h: nat) {
    (step.AddStep? || step.AddGapStep?) && step.id == id && step.e.seqNo == h
  }

  lemma {:induction false} AddKeepsSealed(s: State, step: Step, id: string, h: nat)
    requires Inv(s) && Enabled(s, step) && Sealed(s, id, h) && !Adds(step, id, h)
    requires step.AddStep? || step.AddGapStep? || step.AddResumeStep?
    ensures Sealed(After(s, step), id, h)
  {
    hide AllConserved, AddedInOrder, ValidSegments, LogOneSided, JobsOneSided;
  }

  /** The cut of the enabled flush in `step`. */
  ghost function FlushCut(s: State, step: Step): Cut
    requires step.DetachStep? || (step.SealStep? && s.phase.Snapped?)
  {
    if step.DetachStep? then step.cut else SealCut(s.bufs, s.phase.h)
  }

  lemma PartsLack(entries: seq<OutEntry>, k: nat, h: nat)
    requires k <= |entries| && Contiguous(entries) && (Lacks(entries, h) || Ends(entries, h))
    ensures Contiguous(entries[..k])
    ensures Lacks(entries[..k], h) || Ends(entries[..k], h)
    ensures Lacks(entries, h) ==> Lacks(entries[k..], h)
    ensures Lacks(entries[k..], h) || Ends(entries[k..], h)
  {
    forall i | 0 <= i < |entries|
      ensures entries[i].seqNo == entries[0].seqNo + i
    {
      ContiguousAt(entries, i);
    }
  }

  lemma AboveLacks(entries: seq<OutEntry>, h: nat)
    requires Above(entries, h)
    ensures Lacks(entries, h)
  {
  }

  /** The front of a segment that is cut does not straddle, and the rest is as quiet as it was. */
  lemma {:induction false} FlushCutIsSealed(s: State, step: Step, id: string, h: nat)
    requires ValidSegments(s.bufs) && Enabled(s, step) && (step.DetachStep? || step.SealStep?)
    requires Sealed(s, id, h) && id in s.bufs
    ensures var k := FlushCut(s, step)[id];
            && OneSided(s.bufs[id].entries[..k], h)
            && (Lacks(s.bufs[id].entries[k..], h) || (id in s.waiting && Ends(s.bufs[id].entries[k..], h)))
  {
    hide JobsOf, LogOneSided, JobsOneSided, Held, Above, UpTo, Lacks, Ends, Contiguous;
    var k := FlushCut(s, step)[id];
    assert ValidSegment(s.bufs[id]);
    if s.phase == Snapped(id, h) {
      SealSplits(s.bufs[id], h);
      AboveLacks(s.bufs[id].entries[k..], h);
    } else {
      PartsLack(s.bufs[id].entries, k, h);
      StraddlesExactly(s.bufs[id].entries[..k], h);
    }
  }

  lemma {:induction false} RestIsBuffered(bufs: Segments, cut: Cut, id: string)
    requires CutOf(bufs, cut)
    ensures var bufs' := Remainder(bufs, cut);
            (if id in bufs' then bufs'[id].entries else []) == if id in bufs then bufs[id].entries[cut[id]..] else []
  {
    hide WrittenBytes;
  }

  lemma {:induction false} FlushedSegmentIsSealed(bufs: Segments, cut: Cut, jobs: seq<Job>, id: string, h: nat)
    requires CutOf(bufs, cut) && JobsOf(bufs, cut, jobs)
    requires id in bufs ==> OneSided(bufs[id].entries[..cut[id]], h)
    ensures JobsOneSided(jobs, id, h)
  {
  }

  lemma NothingLacks(h: nat)
    ensures Lacks([], h)
  {
  }

  lemma {:induction false} FlushKeepsSealed(s: State, step: Step, id: string, h: nat)
    requires Inv(s) && Enabled(s, step) && (step.DetachStep? || step.SealStep?)
    requires Sealed(s, id, h)
    ensures Sealed(After(s, step), id, h)
  {
    hide AllConserved, AddedInOrder, LogOneSided, JobsOf, JobsOneSided, Lacks, Ends, OneSided, Remainder;
    if id in s.bufs {
      FlushCutIsSealed(s, step, id, h);
    }
    FlushedSegmentIsSealed(s.bufs, FlushCut(s, step), step.jobs, id, h);
    RestIsBuffered(s.bufs, FlushCut(s, step), id);
    NothingLacks(h);
  }

  /** Every step keeps the seal, unless it Adds the very write that the snapshot ends with. */
  lemma {:induction false} StepKeepsSealed(s: State, step: Step, id: string, h: nat)
    requires Inv(s) && Enabled(s, step) && Sealed(s, id, h) && !Adds(step, id, h)
    ensures Sealed(After(s, step), id, h)
  {
    hide Inv, Packs;
    match step
    case AddStep(_, _, _) => AddKeepsSealed(s, step, id, h);
    case AddGapStep(_, _) => AddKeepsSealed(s, step, id, h);
    case AddResumeStep(_, _) => AddKeepsSealed(s, step, id, h);
    case DetachStep(_, _, _) => FlushKeepsSealed(s, step, id, h);
    case SealStep(_) => FlushKeepsSealed(s, step, id, h);
    case _ =>
  }

  lemma {:induction false} SnapshotSeals(s: State, id: string, h: nat)
    requires Inv(s) && Enabled(s, SnapshotStep(id, h)) && Lacks(Held(s, id), h)
    ensures Sealed(After(s, SnapshotStep(id, h)), id, h)
  {
    SnapshotIsAboveTheLog(s, id, h);
  }

  /** Step `j` takes a snapshot up to `h`, and write `h` is not Added, nor held back by its writer,
      after it. */
  ghost predicate InTime(states: seq<State>, steps: seq<Step>, j: nat, i: nat, id: string, h: nat)
    requires |states| == |steps| + 1 && j < i < |states|
  {
    && steps[j] == SnapshotStep(id, h) && Lacks(Held(states[j], id), h)
    && forall k :: j < k < i ==> !Adds(steps[k], id, h)
  }

  lemma {:induction false} RunKeepsSealed(states: seq<State>, steps: seq<Step>, j: nat, i: nat, id: string, h: nat)
    requires IsRun(states, steps) && j < i < |states| && InTime(states, steps, j, i, id, h)
    ensures Sealed(states[i], id, h)
  {
    hide Inv, Sealed, Lacks, Adds;
    RunKeepsInv(states, steps, i - 1);
    if i == j + 1 {
      SnapshotSeals(states[j], id, h);
    } else {
      RunKeepsSealed(states, steps, j, i - 1, id, h);
      StepKeepsSealed(states[i - 1], steps[i - 1], id, h);
    }
  }

  lemma {:induction false} RunCarries(states: seq<State>, steps: seq<Step>, i: nat)
    requires IsRun(states, steps) && i < |states|
    ensures LogCarries(states[i])
  {
    hide Carries, Sendable;
    if i > 0 {
      RunCarries(states, steps, i - 1);
    }
  }

  // what the reader of a session's messages applies on top of a history up to `h`

  ghost function Accepted(msgs: seq<Message>, h: nat): seq<Message> {
    if msgs == [] then [] else
      Accepted(msgs[..|msgs| - 1], h) + (if msgs[|msgs| - 1].seqNo > h then [msgs[|msgs| - 1]] else [])
  }

  ghost function WritesAbove(entries: seq<OutEntry>, h: nat): seq<OutEntry> {
    if entries == [] then [] else
      WritesAbove(entries[..|entries| - 1], h) +
      (if entries[|entries| - 1].seqNo > h then [entries[|entries| - 1]] else [])
  }

  ghost function WritesUpTo(entries: seq<OutEntry>, h: nat): seq<OutEntry> {
    if entries == [] then [] else
      WritesUpTo(entries[..|entries| - 1], h) +
      (if entries[|entries| - 1].seqNo > h then [] else [entries[|entries| - 1]])
  }

  lemma {:induction false} WrittenBytesConcat(a: seq<OutEntry>, b: seq<OutEntry>)
    ensures WrittenBytes(a + b) == WrittenBytes(a) + WrittenBytes(b)
  {
    if b == [] {
      assert a + b == a;
    } else {
      var b' := b[..|b| - 1];
      WrittenBytesConcat(a, b');
      assert (a + b)[..|a + b| - 1] == a + b';
      Regroup(WrittenBytes(a), WrittenBytes(b'), b[|b| - 1].data);
    }
  }

  lemma {:induction false} SentBytesConcat(a: seq<Message>, b: seq<Message>)
    ensures SentBytes(a + b) == SentBytes(a) + SentBytes(b)
  {
    if b == [] {
      assert a + b == a;
    } else {
      var b' := b[..|b| - 1];
      SentBytesConcat(a, b');
      assert (a + b)[..|a + b| - 1] == a + b';
      Regroup(SentBytes(a), SentBytes(b'), b[|b| - 1].data);
    }
  }

  lemma {:induction false} WritesAboveConcat(a: seq<OutEntry>, b: seq<OutEntry>, h: nat)
    ensures WritesAbove(a + b, h) == WritesAbove(a, h) + WritesAbove(b, h)
  {
    if b == [] {
      assert a + b == a;
    } else {
      var b' := b[..|b| - 1];
      WritesAboveConcat(a, b', h);
      assert (a + b)[..|a + b| - 1] == a + b';
      Regroup(WritesAbove(a, h), WritesAbove(b', h), if b[|b| - 1].seqNo > h then [b[|b| - 1]] else []);
    }
  }

  lemma {:induction false} AcceptedConcat(a: seq<Message>, b: seq<Message>, h: nat)
    ensures Accepted(a + b, h) == Accepted(a, h) + Accepted(b, h)
  {
    if b == [] {
      assert a + b == a;
    } else {
      var b' := b[..|b| - 1];
      AcceptedConcat(a, b', h);
      assert (a + b)[..|a + b| - 1] == a + b';
      Regroup(Accepted(a, h), Accepted(b', h), if b[|b| - 1].seqNo > h then [b[|b| - 1]] else []);
    }
  }

  lemma {:induction false} WritesUpToAllOrNone(entries: seq<OutEntry>, h: nat)
    ensures Above(entries, h) ==> WritesUpTo(entries, h) == []
    ensures UpTo(entries, h) ==> WritesUpTo(entries, h) == entries
  {
    if entries != [] {
      WritesUpToAllOrNone(entries[..|entries| - 1], h);
    }
  }

  lemma {:induction false} WritesSplit(entries: seq<OutEntry>, h: nat)
    requires Increasing(entries)
    ensures WritesUpTo(entries, h) + WritesAbove(entries, h) == entries
  {
    if entries != [] {
      var entries', e := entries[..|entries| - 1], entries[|entries| - 1];
      if e.seqNo <= h {
        assert UpTo(entries, h);
        WritesUpToAllOrNone(entries, h);
        WritesAboveAllOrNone(entries, h);
      } else {
        WritesSplit(entries', h);
        Regroup(WritesUpTo(entries', h), WritesAbove(entries', h), [e]);
      }
    }
  }

  lemma {:induction false} AcceptedAllOrNone(msgs: seq<Message>, h: nat)
    ensures (forall i :: 0 <= i < |msgs| ==> msgs[i].seqNo > h) ==> Accepted(msgs, h) == msgs
    ensures (forall i :: 0 <= i < |msgs| ==> msgs[i].seqNo <= h) ==> Accepted(msgs, h) == []
  {
    if msgs != [] {
      AcceptedAllOrNone(msgs[..|msgs| - 1], h);
    }
  }

  lemma {:induction false} MessageNumbered(entries: seq<OutEntry>, msgs: seq<Message>, i: nat)
    requires Carries(entries, msgs) && i < |msgs|
    ensures exists k :: 0 <= k < |entries| && msgs[i].seqNo == entries[k].seqNo
  {
    assert LastLabelled(entries, msgs[..i + 1]);
  }

  /** For a one-sided batch the reader takes exactly the bytes of its writes above `h`. */
  lemma {:induction false} OneSidedBatchIsReadRight(entries: seq<OutEntry>, msgs: seq<Message>, h: nat)
    requires Carries(entries, msgs) && OneSided(entries, h)
    ensures SentBytes(Accepted(msgs, h)) == WrittenBytes(WritesAbove(entries, h))
  {
    forall i | 0 <= i < |msgs| ensures if Above(entries, h) then msgs[i].seqNo > h else msgs[i].seqNo <= h {
      MessageNumbered(entries, msgs, i);
    }
    AcceptedAllOrNone(msgs, h);
    WritesAboveAllOrNone(entries, h);
  }

  lemma {:induction false} WritesAboveAllOrNone(entries: seq<OutEntry>, h: nat)
    ensures Above(entries, h) ==> WritesAbove(entries, h) == entries
    ensures UpTo(entries, h) ==> WritesAbove(entries, h) == []
  {
    if entries != [] {
      WritesAboveAllOrNone(entries[..|entries| - 1], h);
    }
  }

  lemma {:induction false} LogUnfold(log: seq<Batch>, id: string)
    requires log != []
    ensures var log', b := log[..|log| - 1], log[|log| - 1];
            if b.job.id == id then
              LogMessages(log, id) == LogMessages(log', id) + b.msgs &&
                LogWrites(log, id) == LogWrites(log', id) + b.job.entries
            else
              LogMessages(log, id) == LogMessages(log', id) && LogWrites(log, id) == LogWrites(log', id)
  {
  }

  lemma {:induction false} LogIsReadRight(log: seq<Batch>, id: string, h: nat)
    requires LogOneSided(log, id, h)
    requires forall i :: 0 <= i < |log| ==> Carries(log[i].job.entries, log[i].msgs)
    ensures SentBytes(Accepted(LogMessages(log, id), h)) == WrittenBytes(WritesAbove(LogWrites(log, id), h))
  {
    if log != [] {
      var log', b := log[..|log| - 1], log[|log| - 1];
      LogIsReadRight(log', id, h);
      LogUnfold(log, id);
      hide LogMessages, LogWrites;
      if b.job.id == id {
        OneSidedBatchIsReadRight(b.job.entries, b.msgs, h);
        AcceptedConcat(LogMessages(log', id), b.msgs, h);
        SentBytesConcat(Accepted(LogMessages(log', id), h), Accepted(b.msgs, h));
        WritesAboveConcat(LogWrites(log', id), b.job.entries, h);
        WrittenBytesConcat(WritesAbove(LogWrites(log', id), h), WritesAbove(b.job.entries, h));
      }
    }
  }

  /** The writes Added but not dispatched yet. */
  ghost function Pending(s: State, id: string): seq<OutEntry> {
    InFlight(s, id) + (Buffered(s, id) + Held(s, id))
  }

  /** The bytes a reader of session `id` has after a history up to `h` and every message so far. */
  ghost function ReaderBytes(s: State, id: string, h: nat): Bytes {
    WrittenBytes(WritesUpTo(AddedTo(s, id), h)) + SentBytes(Accepted(LogMessages(s.log, id), h))
  }

  /** Exactly once, in order: what the reader has, followed by what is still on its way, is every byte Added. */
  ghost predicate ReadsRight(s: State, id: string, h: nat) {
    ReaderBytes(s, id, h) + WrittenBytes(WritesAbove(Pending(s, id), h)) == WrittenBytes(AddedTo(s, id))
  }

  /** At every moment of every run after a snapshot that all its writes were Added before. */
  lemma {:induction false} ExactlyOnceAcrossSnapshot(states: seq<State>, steps: seq<Step>, j: nat, i: nat,
                                                     id: string, h: nat)
    requires IsRun(states, steps) && j < i < |states| && InTime(states, steps, j, i, id, h)
    ensures ReadsRight(states[i], id, h)
  {
    hide IsRun, InTime, Inv, LogOneSided, LogCarries, ReadsRight;
    RunKeepsInv(states, steps, i);
    RunKeepsSealed(states, steps, j, i, id, h);
    RunCarries(states, steps, i);
    OneSidedLogIsReadRight(states[i], id, h);
  }

  lemma {:induction false} OneSidedLogIsReadRight(s: State, id: string, h: nat)
    requires Inv(s) && LogCarries(s) && LogOneSided(s.log, id, h)
    ensures ReadsRight(s, id, h)
  {
    AddedIncreases(s, id);
    LogIsReadRight(s.log, id, h);
    ReadAndPending(s, id, h);
  }

  lemma {:induction false} AddedIncreases(s: State, id: string)
    requires Inv(s)
    ensures Increasing(AddedTo(s, id)) && Conserved(s, id) && NonEmptyWrites(AddedTo(s, id))
  {
    assert Conserved(s, id);
  }

  lemma {:induction false} ReadAndPending(s: State, id: string, h: nat)
    requires Conserved(s, id) && Increasing(AddedTo(s, id))
    requires SentBytes(Accepted(LogMessages(s.log, id), h)) == WrittenBytes(WritesAbove(LogWrites(s.log, id), h))
    ensures ReaderBytes(s, id, h) + WrittenBytes(WritesAbove(Pending(s, id), h)) == WrittenBytes(AddedTo(s, id))
  {
    var added, out, rest := AddedTo(s, id), LogWrites(s.log, id), Pending(s, id);
    assert added == out + rest by {
      Regroup(out, InFlight(s, id), Buffered(s, id) + Held(s, id));
      Regroup(out + InFlight(s, id), Buffered(s, id), Held(s, id));
    }
    hide *;
    WritesSplit(added, h);
    WritesAboveConcat(out, rest, h);
    WrittenBytesConcat(WritesUpTo(added, h), WritesAbove(added, h));
    WrittenBytesConcat(WritesAbove(out, h), WritesAbove(rest, h));
    Regroup(WrittenBytes(WritesUpTo(added, h)), WrittenBytes(WritesAbove(out, h)), WrittenBytes(WritesAbove(rest, h)));
    ReaderBytesIs(s, id, h);
  }

  lemma {:induction false} ReaderBytesIs(s: State, id: string, h: nat)
    ensures ReaderBytes(s, id, h) ==
            WrittenBytes(WritesUpTo(AddedTo(s, id), h)) + SentBytes(Accepted(LogMessages(s.log, id), h))
  {
  }

  // ---- what is on the wire when SealAt returns ----

  ghost predicate Drained(s: State, id: string, h: nat) {
    Above(Held(s, id), h) && (s.phase != Snapped(id, h) ==> Above(Buffered(s, id), h))
  }

  /** The step Adds a write of the history to session `id`. */
  predicate AddsUpTo(step: Step, id: string, h: nat) {
    (step.AddStep? || step.AddGapStep?) && step.id == id && step.e.seqNo <= h
  }

  lemma {:induction false} FlushKeepsDrained(s: State, step: Step, id: string, h: nat)
    requires Inv(s) && Enabled(s, step) && (step.DetachStep? || step.SealStep?) && Drained(s, id, h)
    ensures Drained(After(s, step), id, h)
  {
    hide AllConserved, AddedInOrder, JobsOf, Above, UpTo, ValidSegment, Remainder;
    RestIsBuffered(s.bufs, FlushCut(s, step), id);
    if id in s.bufs {
      assert ValidSegment(s.bufs[id]);
      if s.phase == Snapped(id, h) {
        SealSplits(s.bufs[id], h);
      } else {
        AboveParts(s.bufs[id].entries, FlushCut(s, step)[id], h);
      }
    }
    AboveNothing(h);
  }

  lemma AboveParts(entries: seq<OutEntry>, k: nat, h: nat)
    requires k <= |entries| && Above(entries, h)
    ensures Above(entries[..k], h) && Above(entries[k..], h)
  {
  }

  lemma AboveNothing(h: nat)
    ensures Above([], h)
  {
  }

  lemma {:induction false} StepKeepsDrained(s: State, step: Step, id: string, h: nat)
    requires Inv(s) && Enabled(s, step) && Drained(s, id, h) && !AddsUpTo(step, id, h)
    ensures Drained(After(s, step), id, h)
  {
    hide AllConserved, AddedInOrder, ValidSegments, Packs;
    if step.DetachStep? || step.SealStep? {
      FlushKeepsDrained(s, step, id, h);
    }
  }

  /** If no write of the history is Added after the snapshot, or held back by its writer, then all of
      them are on the wire when the sealing flush has drained. */
  lemma {:induction false} SealedWritesAreOut(states: seq<State>, steps: seq<Step>, j: nat, i: nat, id: string, h: nat)
    requires IsRun(states, steps) && j < i < |states|
    requires steps[j] == SnapshotStep(id, h) && Above(Held(states[j], id), h)
    requires forall k :: j < k < i ==> !AddsUpTo(steps[k], id, h)
    ensures Drained(states[i], id, h)
    ensures states[i].phase == Idle ==> Above(Pending(states[i], id), h)
  {
    hide Inv, AddsUpTo, Drained, Above, Pending, Held;
    RunKeepsInv(states, steps, i - 1);
    if i == j + 1 {
      SnapshotDrains(states[j], id, h);
    } else {
      SealedWritesAreOut(states, steps, j, i - 1, id, h);
      StepKeepsDrained(states[i - 1], steps[i - 1], id, h);
    }
    if states[i].phase == Idle {
      DrainedIsOut(states[i], id, h);
    }
  }

  lemma SnapshotDrains(s: State, id: string, h: nat)
    requires Enabled(s, SnapshotStep(id, h)) && Above(Held(s, id), h)
    ensures Drained(After(s, SnapshotStep(id, h)), id, h)
  {
  }

  lemma DrainedIsOut(s: State, id: string, h: nat)
    requires s.phase == Idle && Drained(s, id, h)
    ensures Above(Pending(s, id), h)
  {
  }

  /** Why the seal is needed: a batch is read right under every packing exactly when it does not
      straddle the snapshot. */
  lemma {:induction false} SealIsNecessary(entries: seq<OutEntry>, h: nat)
    requires entries != [] && NonEmptyWrites(entries) && Increasing(entries)
    ensures OneSided(entries, h) <==>
            forall msgs :: Carries(entries, msgs) ==>
              SentBytes(Accepted(msgs, h)) == WrittenBytes(WritesAbove(entries, h))
  {
    if OneSided(entries, h) {
      forall msgs | Carries(entries, msgs)
        ensures SentBytes(Accepted(msgs, h)) == WrittenBytes(WritesAbove(entries, h))
      {
        OneSidedBatchIsReadRight(entries, msgs, h);
      }
    } else {
      var whole := [Message("", WrittenBytes(entries), entries[|entries| - 1].seqNo, |entries|)];
      OneMessageCarries(entries, whole[0]);
      assert Accepted(whole, h) == whole by {
        assert whole[..0] == [];
      }
      WritesSplit(entries, h);
      WrittenBytesConcat(WritesUpTo(entries, h), WritesAbove(entries, h));
      SomeBytesUpTo(entries, h);
    }
  }

  lemma {:induction false} OneMessageCarries(entries: seq<OutEntry>, m: Message)
    requires entries != [] && NonEmptyWrites(entries)
    requires m.data == WrittenBytes(entries) && m.seqNo == entries[|entries| - 1].seqNo && m.outputs == |entries|
    ensures Carries(entries, [m])
  {
    assert [m][..0] == [] && [m][..1] == [m];
    assert entries[..|entries|] == entries;
    assert LastLabelled(entries, [m]);
    assert forall i :: 0 < i <= 1 ==> [m][..i] == [m];
  }

  lemma {:induction false} SomeBytesUpTo(entries: seq<OutEntry>, h: nat)
    requires NonEmptyWrites(entries) && !Above(entries, h)
    ensures WrittenBytes(WritesUpTo(entries, h)) != []
  {
    var e, entries' := entries[|entries| - 1], entries[..|entries| - 1];
    if e.seqNo > h {
      SomeBytesUpTo(entries', h);
      assert WritesUpTo(entries, h) == WritesUpTo(entries', h);
    } else {
      WrittenBytesConcat(WritesUpTo(entries', h), [e]);
      assert [e][..0] == [];
    }
  }

  // ---- when a seal can be broken ----

  const ANY_LENGTH: Marshal := (m: Message) => 0

  /** A batch sent as one message. */
  ghost function OneMessage(id: string, entries: seq<OutEntry>): Batch
    requires entries != []
  {
    Batch(Job(id, entries), [Message(id, WrittenBytes(entries), entries[|entries| - 1].seqNo, |entries|)])
  }

  lemma {:induction false} OneMessagePacks(id: string, entries: seq<OutEntry>)
    requires entries != [] && NonEmptyWrites(entries)
    ensures Packs(ANY_LENGTH, id, entries, OneMessage(id, entries).msgs)
  {
    var m := OneMessage(id, entries).msgs[0];
    OneMessageCarries(entries, m);
    assert WrittenBytes(entries) == WrittenBytes(entries[..|entries| - 1]) + entries[|entries| - 1].data;
    assert entries[|entries| - 1].data != [];
  }

  /** The batch a flush of one session makes, if it has anything buffered. */
  ghost function SessionBatches(bufs: Segments, id: string): seq<Batch> {
    if id in bufs && bufs[id].entries != [] then [OneMessage(id, bufs[id].entries)] else []
  }

  /** The session flushed, as one message. */
  ghost function AfterFlush(s: State, id: string): State {
    s.(bufs := s.bufs - {id}, log := s.log + SessionBatches(s.bufs, id), waiting := Marked(s.waiting, Writer(id)))
  }

  lemma OneSessionJobs(bufs: Segments, id: string, jobs: seq<Job>)
    requires jobs == if id in bufs && bufs[id].entries != [] then [Job(id, bufs[id].entries)] else []
    ensures JobsOf(bufs, FlushSessionCut(bufs, id), jobs)
  {
    var cut := FlushSessionCut(bufs, id);
    forall other | other in bufs && cut[other] > 0
      ensures exists i :: 0 <= i < |jobs| && jobs[i].id == other
    {
      assert jobs[0].id == other;
    }
    assert id in bufs ==> bufs[id].entries[..|bufs[id].entries|] == bufs[id].entries;
  }

  lemma {:induction false} SessionFlushed(bufs: Segments, id: string)
    requires ValidSegments(bufs)
    ensures Flushed(ANY_LENGTH, bufs, FlushSessionCut(bufs, id), SessionBatches(bufs, id))
    ensures id in bufs ==> |bufs[id].entries| > 0
  {
    hide JobsOf, Packs, ValidSegment, OneMessage;
    var batches := SessionBatches(bufs, id);
    if id in bufs {
      SegmentIsWritten(bufs[id]);
      OneMessagePacks(id, bufs[id].entries);
      OneMessageIs(id, bufs[id].entries);
      assert JobsIn(batches) == [Job(id, bufs[id].entries)];
    }
    OneSessionJobs(bufs, id, JobsIn(batches));
  }

  lemma SegmentIsWritten(seg: Segment)
    requires ValidSegment(seg)
    ensures seg.entries != [] && NonEmptyWrites(seg.entries)
  {
  }

  lemma OneMessageIs(id: string, entries: seq<OutEntry>)
    requires entries != []
    ensures OneMessage(id, entries).job == Job(id, entries)
  {
  }

  lemma SessionRemainder(bufs: Segments, id: string)
    requires ValidSegments(bufs)
    ensures Remainder(bufs, FlushSessionCut(bufs, id)) == bufs - {id}
  {
    hide WrittenBytes, NonEmptyWrites, Contiguous;
  }

  lemma {:induction false} CanFlush(s: State, id: string) returns (steps: seq<Step>)
    requires Inv(s) && s.phase.Idle?
    ensures Path(s, steps, AfterFlush(s, id))
  {
    hide AllConserved, AddedInOrder, Path, DispatchSteps, Flushed, Remainder, SessionBatches, ValidSegments, Marked;
    var cut := FlushSessionCut(s.bufs, id);
    SessionFlushed(s.bufs, id);
    SessionRemainder(s.bufs, id);
    steps := [DetachStep(cut, JobsIn(SessionBatches(s.bufs, id)), Writer(id))]
             + DispatchSteps(ANY_LENGTH, SessionBatches(s.bufs, id));
    FlushPath(s, ANY_LENGTH, cut, SessionBatches(s.bufs, id), Writer(id));
  }

  /** What may still become a batch that straddles the snapshot: write `h` itself, before the next one
      has been Added. */
  ghost predicate Settled(s: State, id: string, h: nat) {
    Lacks(Held(s, id), h) && Quiet(s, id, h) && id in s.top && s.top[id] >= h
  }

  /** Some way to go on leads to a batch that straddles the snapshot. */
  ghost predicate Breakable(s: State, id: string, h: nat) {
    exists steps, s' :: Path(s, steps, s') && !LogOneSided(s'.log, id, h)
  }

  /** Some way to go on leads there, and if the log carries its writes, its reader is misled. */
  ghost predicate Misleading(s: State, id: string, h: nat) {
    exists steps, s' :: Path(s, steps, s') && Misled(LogCarries(s), s', id, h)
  }

  ghost predicate Misled(carries: bool, s: State, id: string, h: nat) {
    !LogOneSided(s.log, id, h) && (carries ==> !ReadsRight(s, id, h))
  }

  lemma {:induction false} PathKeepsCarries(s: State, steps: seq<Step>, s': State)
    requires LogCarries(s) && Path(s, steps, s')
    ensures LogCarries(s')
    decreases |steps|
  {
    hide Carries, Sendable;
    if steps != [] {
      PathKeepsCarries(After(s, steps[0]), steps[1..], s');
    }
  }

  lemma {:induction false} MisleadLater(s: State, steps: seq<Step>, s1: State, id: string, h: nat)
    requires Path(s, steps, s1) && Misleading(s1, id, h)
    ensures Misleading(s, id, h)
  {
    hide Path, LogCarries, Misled;
    var more, s2 :| Path(s1, more, s2) && Misled(LogCarries(s1), s2, id, h);
    PathAppend(s, steps, s1, more, s2);
    if LogCarries(s) {
      PathKeepsCarries(s, steps, s1);
    }
    MisledAlso(LogCarries(s1), LogCarries(s), s2, id, h);
  }

  lemma MisledAlso(carries: bool, carries': bool, s: State, id: string, h: nat)
    requires Misled(carries, s, id, h) && (carries' ==> carries)
    ensures Misled(carries', s, id, h)
  {
  }

  /** Of a straddling stretch sent as one message the reader takes too much. */
  lemma {:induction false} TooMuchIsRead(s: State, s': State, id: string, h: nat)
    requires Inv(s) && s.phase.Idle? && LogCarries(s) && LogOneSided(s.log, id, h) && !OneSided(Buffered(s, id), h)
    requires Buffered(s, id) != [] && s'.log == s.log + [OneMessage(id, Buffered(s, id))]
    requires AddedTo(s', id) == AddedTo(s, id) && Pending(s', id) == Held(s, id)
    ensures !ReadsRight(s', id, h)
  {
    hide *;
    var entries := Buffered(s, id);
    OneSidedLogIsReadRight(s, id, h);
    BufferedIsWritten(s, id);
    StraddlingParts(entries, h);
    BatchIsAccepted(s.log, id, entries, h);
    PendingParts(s, id, h);
    ReadLength(s, id, h);
    ReadLength(s', id, h);
  }

  lemma {:induction false} StraddlingParts(entries: seq<OutEntry>, h: nat)
    requires NonEmptyWrites(entries) && Increasing(entries) && !OneSided(entries, h)
    ensures entries != [] && entries[|entries| - 1].seqNo > h
    ensures |WrittenBytes(WritesAbove(entries, h))| < |WrittenBytes(entries)|
  {
    SomeBytesUpTo(entries, h);
    WritesSplit(entries, h);
    WrittenBytesConcat(WritesUpTo(entries, h), WritesAbove(entries, h));
  }

  lemma {:induction false} PendingParts(s: State, id: string, h: nat)
    requires s.phase.Idle?
    ensures |WrittenBytes(WritesAbove(Pending(s, id), h))| ==
            |WrittenBytes(WritesAbove(Buffered(s, id), h))| + |WrittenBytes(WritesAbove(Held(s, id), h))|
  {
    hide WrittenBytes, WritesAbove, Buffered, Held;
    assert Pending(s, id) == Buffered(s, id) + Held(s, id);
    WritesAboveConcat(Buffered(s, id), Held(s, id), h);
    WrittenBytesConcat(WritesAbove(Buffered(s, id), h), WritesAbove(Held(s, id), h));
  }

  lemma ReadLength(s: State, id: string, h: nat)
    ensures ReadsRight(s, id, h) ==>
            |WrittenBytes(WritesUpTo(AddedTo(s, id), h))| + |SentBytes(Accepted(LogMessages(s.log, id), h))|
            + |WrittenBytes(WritesAbove(Pending(s, id), h))| == |WrittenBytes(AddedTo(s, id))|
  {
    hide WrittenBytes, WritesUpTo, WritesAbove, SentBytes, Accepted, LogMessages, Pending;
  }

  lemma BufferedIsWritten(s: State, id: string)
    requires Inv(s)
    ensures NonEmptyWrites(Buffered(s, id)) && Increasing(Buffered(s, id))
  {
    if id in s.bufs {
      var entries := s.bufs[id].entries;
      assert ValidSegment(s.bufs[id]);
      forall i | 0 <= i < |entries|
        ensures entries[i].seqNo == entries[0].seqNo + i
      {
        ContiguousAt(entries, i);
      }
    }
  }

  /** A message that ends above `h` is taken whole. */
  lemma {:induction false} BatchIsAccepted(log: seq<Batch>, id: string, entries: seq<OutEntry>, h: nat)
    requires entries != [] && entries[|entries| - 1].seqNo > h
    ensures SentBytes(Accepted(LogMessages(log + [OneMessage(id, entries)], id), h)) ==
            SentBytes(Accepted(LogMessages(log, id), h)) + WrittenBytes(entries)
  {
    var log', m := log + [OneMessage(id, entries)], OneMessage(id, entries).msgs[0];
    assert log'[..|log'| - 1] == log;
    LogUnfold(log', id);
    hide LogMessages, WrittenBytes;
    AcceptedConcat(LogMessages(log, id), [m], h);
    assert [m][..0] == [];
    assert Accepted([m], h) == [m] && SentBytes([m]) == m.data;
    SentBytesConcat(Accepted(LogMessages(log, id), h), [m]);
  }

  lemma NothingIsOneSided(h: nat)
    ensures OneSided([], h)
  {
  }

  /** A segment that straddles the snapshot is flushed. */
  lemma {:induction false} FlushMisleads(s: State, id: string, h: nat)
    requires Inv(s) && s.phase.Idle? && LogOneSided(s.log, id, h) && !OneSided(Buffered(s, id), h)
    ensures Misleading(s, id, h)
  {
    hide Inv, OneSided, Path, LogCarries, ReadsRight;
    NothingIsOneSided(h);
    var steps := CanFlush(s, id);
    var s' := AfterFlush(s, id);
    assert s'.log[|s.log|] == OneMessage(id, s.bufs[id].entries);
    assert !LogOneSided(s'.log, id, h);
    if LogCarries(s) {
      FlushedAway(s, id);
      TooMuchIsRead(s, s', id, h);
    }
    assert Misled(LogCarries(s), s', id, h);
  }

  lemma FlushedAway(s: State, id: string)
    requires s.phase.Idle?
    ensures Pending(AfterFlush(s, id), id) == Held(s, id)
  {
  }

  /** Write `h` is buffered last: the next one joins it. */
  lemma {:induction false} NextMisleads(s: State, id: string, h: nat)
    requires Inv(s) && s.phase.Idle? && LogOneSided(s.log, id, h)
    requires id !in s.waiting && Ends(Buffered(s, id), h) && id in s.top && s.top[id] == h
    ensures Misleading(s, id, h)
  {
    hide AllConserved, AddedInOrder, Path, Misleading, LogOneSided;
    assert ValidSegment(s.bufs[id]);
    var step := AddStep(id, OutEntry(h + 1, [0]), 0);
    var s1 := After(s, step);
    OneStep(s, step);
    StepKeepsInv(s, step);
    var entries := Buffered(s1, id);
    assert entries == Buffered(s, id) + [OutEntry(h + 1, [0])];
    assert entries[|entries| - 1].seqNo > h && entries[|entries| - 2].seqNo == h;
    FlushMisleads(s1, id, h);
    MisleadLater(s, [step], s1, id, h);
  }

  /** Write `h` has not been Added yet, and no Add is under way: it is, alone in its segment. */
  lemma {:induction false} LateAddMisleads(s: State, id: string, h: nat)
    requires Inv(s) && s.phase.Idle? && LogOneSided(s.log, id, h) && OneSided(Buffered(s, id), h)
    requires id !in s.waiting && (id in s.top ==> s.top[id] < h)
    ensures Misleading(s, id, h)
  {
    hide Inv, Path, Misleading, OneSided;
    var steps := CanFlush(s, id);
    var s1 := AfterFlush(s, id);
    PathKeepsInv(s, steps, s1);
    var step := AddStep(id, OutEntry(h, [0]), 0);
    var s2 := After(s1, step);
    OneStep(s1, step);
    StepKeepsInv(s1, step);
    assert Buffered(s2, id) == [OutEntry(h, [0])];
    NextMisleads(s2, id, h);
    MisleadLater(s1, [step], s2, id, h);
    MisleadLater(s, steps, s1, id, h);
  }

  lemma {:induction false} TopIsLast(s: State, id: string)
    requires Inv(s) && Held(s, id) + Buffered(s, id) != []
    ensures id in s.top
    ensures s.top[id] == if id in s.waiting then s.waiting[id].e.seqNo else Buffered(s, id)[|Buffered(s, id)| - 1].seqNo
  {
    hide ValidSegments, LogWrites, JobWrites;
    assert Conserved(s, id);
    var added := AddedTo(s, id);
    assert InOrder(added, s.top[id]);
  }

  /** The writer that is in the middle of an Add finishes it. */
  lemma {:induction false} CanResume(s: State, id: string) returns (steps: seq<Step>, s': State)
    requires Inv(s) && s.phase.Idle? && id in s.waiting
    ensures Path(s, steps, s') && Inv(s') && s'.phase.Idle? && id !in s'.waiting
    ensures s'.top == s.top && Buffered(s', id) == Held(s, id) && s'.log == s.log + SessionBatches(s.bufs, id)
  {
    hide Inv, Path, SessionBatches;
    var flush := CanFlush(s, id);
    var s1 := AfterFlush(s, id);
    PathKeepsInv(s, flush, s1);
    var step := AddResumeStep(id, 0);
    s' := After(s1, step);
    OneStep(s1, step);
    StepKeepsInv(s1, step);
    steps := flush + [step];
    PathAppend(s, flush, s1, [step], s');
  }

  lemma {:induction false} UnsettledMisleads(s: State, id: string, h: nat)
    requires Inv(s) && s.phase.Idle? && LogOneSided(s.log, id, h) && !Settled(s, id, h)
    ensures Misleading(s, id, h)
  {
    hide Inv, Path, Misleading, OneSided;
    if !OneSided(Buffered(s, id), h) {
      FlushMisleads(s, id, h);
    } else if id in s.waiting {
      HeldMisleads(s, id, h);
    } else if id in s.top && s.top[id] >= h {
      BufferedContiguous(s, id);
      StraddlesExactly(Buffered(s, id), h);
      TopIsLast(s, id);
      NextMisleads(s, id, h);
    } else {
      LateAddMisleads(s, id, h);
    }
  }

  /** A writer holds a write back while it flushes. */
  lemma {:induction false} HeldMisleads(s: State, id: string, h: nat)
    requires Inv(s) && s.phase.Idle? && LogOneSided(s.log, id, h) && OneSided(Buffered(s, id), h)
    requires id in s.waiting && !Settled(s, id, h)
    ensures Misleading(s, id, h)
  {
    hide Inv, Path, Misleading, OneSided;
    BufferedContiguous(s, id);
    StraddlesExactly(Buffered(s, id), h);
    TopIsLast(s, id);
    var steps, s1 := CanResume(s, id);
    assert LogOneSided(s1.log, id, h);
    if s.top[id] < h {
      assert s1.bufs[id].entries == Held(s, id);
      OneIsOneSided(Buffered(s1, id), h);
      LateAddMisleads(s1, id, h);
    } else {
      NextMisleads(s1, id, h);
    }
    MisleadLater(s, steps, s1, id, h);
  }

  lemma OneIsOneSided(entries: seq<OutEntry>, h: nat)
    requires |entries| <= 1
    ensures OneSided(entries, h)
  {
  }

  lemma BufferedContiguous(s: State, id: string)
    requires Inv(s)
    ensures Contiguous(Buffered(s, id))
  {
    assert id in s.bufs ==> ValidSegment(s.bufs[id]);
  }

  lemma SealedLog(s: State, id: string, h: nat)
    requires Sealed(s, id, h)
    ensures LogOneSided(s.log, id, h)
  {
  }

  /** Write `h` cannot be Added any more. */
  lemma TopStays(s: State, step: Step, id: string, h: nat)
    requires Enabled(s, step) && id in s.top && s.top[id] >= h
    ensures !Adds(step, id, h) && id in After(s, step).top && After(s, step).top[id] >= h
  {
    hide Remainder, JobsOf, Packs, Appended, Follows;
  }

  lemma {:induction false} SettledStays(s: State, steps: seq<Step>, s': State, id: string, h: nat)
    requires Inv(s) && Sealed(s, id, h) && id in s.top && s.top[id] >= h && Path(s, steps, s')
    ensures LogOneSided(s'.log, id, h)
    decreases |steps|
  {
    hide Inv, Sealed, LogOneSided, Enabled, After, Adds;
    if steps == [] {
      SealedLog(s, id, h);
    } else {
      StepKeepsInv(s, steps[0]);
      TopStays(s, steps[0], id, h);
      StepKeepsSealed(s, steps[0], id, h);
      SettledStays(After(s, steps[0]), steps[1..], s', id, h);
    }
  }

  /** Between flushes, no way to go on breaks the seal exactly if write `h`, or a later one, has been
      Added and `h` is neither buffered nor held back. */
  lemma {:induction false} SealIsSafeExactly(s: State, id: string, h: nat)
    requires Inv(s) && s.phase.Idle? && LogOneSided(s.log, id, h)
    ensures !Breakable(s, id, h) <==> Settled(s, id, h)
  {
    hide Inv, Path, LogOneSided, Quiet, Lacks, LogCarries;
    if Settled(s, id, h) {
      forall steps, s' | Path(s, steps, s')
        ensures LogOneSided(s'.log, id, h)
      {
        SettledStays(s, steps, s', id, h);
      }
    } else {
      UnsettledMisleads(s, id, h);
    }
  }

  /** The reader has every byte once and in order, whatever happens next. */
  ghost predicate AlwaysReadsRight(s: State, id: string, h: nat) {
    forall steps, s' :: Path(s, steps, s') ==> ReadsRight(s', id, h)
  }

  /** Exactly then the reader of the snapshot, too, has every byte once and in order however it goes on. */
  lemma {:induction false} ReaderIsRightExactly(s: State, id: string, h: nat)
    requires Inv(s) && s.phase.Idle? && LogCarries(s) && LogOneSided(s.log, id, h)
    ensures AlwaysReadsRight(s, id, h) <==> Settled(s, id, h)
  {
    hide Inv, Path, LogOneSided, Quiet, Lacks, LogCarries, ReadsRight;
    if Settled(s, id, h) {
      SealedIsReadRight(s, id, h);
    } else {
      UnsettledMisleads(s, id, h);
    }
  }

  lemma {:induction false} SealedIsReadRight(s: State, id: string, h: nat)
    requires Inv(s) && LogCarries(s) && Sealed(s, id, h) && id in s.top && s.top[id] >= h
    ensures AlwaysReadsRight(s, id, h)
  {
    hide Inv, Path, LogOneSided, Sealed, LogCarries, ReadsRight;
    forall steps, s' | Path(s, steps, s')
      ensures ReadsRight(s', id, h)
    {
      SettledStays(s, steps, s', id, h);
      PathKeepsInv(s, steps, s');
      PathKeepsCarries(s, steps, s');
      OneSidedLogIsReadRight(s', id, h);
    }
  }

  // ---- when a snapshot is read right ----

  /** The batch is the front of its session's segment, correctly packed. */
  ghost predicate SealsOne(bufs: Segments, h: nat, b: Batch) {
    && b.job.id in bufs && SealPoint(bufs[b.job.id].entries, h) > 0
    && b.job.entries == bufs[b.job.id].entries[..SealPoint(bufs[b.job.id].entries, h)]
    && Packs(ANY_LENGTH, b.job.id, b.job.entries, b.msgs)
  }

  /** One batch for each of the sessions that have something up to `h`. */
  ghost predicate SealsAll(bufs: Segments, h: nat, ids: set<string>, batches: seq<Batch>)
    requires ids <= bufs.Keys
  {
    && (forall i :: 0 <= i < |batches| ==> batches[i].job.id in ids && SealsOne(bufs, h, batches[i]))
    && (forall i, j :: 0 <= i < j < |batches| ==> batches[i].job.id != batches[j].job.id)
    && forall id :: id in ids && SealPoint(bufs[id].entries, h) > 0 ==>
      exists i :: 0 <= i < |batches| && batches[i].job.id == id
  }

  lemma {:induction false} SomeBatches(bufs: Segments, h: nat, ids: set<string>) returns (batches: seq<Batch>)
    requires ValidSegments(bufs) && ids <= bufs.Keys
    ensures SealsAll(bufs, h, ids, batches)
    decreases ids
  {
    hide SealPoint, ValidSegment, SealsOne;
    if ids == {} {
      batches := [];
    } else {
      var id :| id in ids;
      var before := SomeBatches(bufs, h, ids - {id});
      var k := SealPoint(bufs[id].entries, h);
      if k == 0 {
        batches := before;
      } else {
        FrontIsSealed(bufs, h, id);
        batches := before + [OneMessage(id, bufs[id].entries[..k])];
        OneMoreSealed(bufs, h, ids, id, before, OneMessage(id, bufs[id].entries[..k]));
      }
    }
  }

  lemma {:induction false} OneMoreSealed(bufs: Segments, h: nat, ids: set<string>, id: string, before: seq<Batch>,
                                         b: Batch)
    requires ids <= bufs.Keys && id in ids && SealsAll(bufs, h, ids - {id}, before)
    requires b.job.id == id && SealsOne(bufs, h, b)
    ensures SealsAll(bufs, h, ids, before + [b])
  {
    hide SealPoint, SealsOne;
    var batches := before + [b];
    assert batches[|before|].job.id == id;
    forall other | other in ids && other != id && SealPoint(bufs[other].entries, h) > 0
      ensures exists i :: 0 <= i < |batches| && batches[i].job.id == other
    {
      var i :| 0 <= i < |before| && before[i].job.id == other;
      assert batches[i].job.id == other;
    }
  }

  lemma {:induction false} FrontIsSealed(bufs: Segments, h: nat, id: string)
    requires id in bufs && ValidSegment(bufs[id]) && SealPoint(bufs[id].entries, h) > 0
    ensures SealsOne(bufs, h, OneMessage(id, bufs[id].entries[..SealPoint(bufs[id].entries, h)]))
  {
    hide SealPoint, Packs;
    var front := bufs[id].entries[..SealPoint(bufs[id].entries, h)];
    assert NonEmptyWrites(front);
    OneMessagePacks(id, front);
    OneMessageIs(id, front);
  }

  /** A sealer that has taken its snapshot can go through to the end. */
  lemma {:induction false} CanSeal(s: State, id: string, h: nat) returns (steps: seq<Step>, s': State)
    requires Inv(s) && Enabled(s, SnapshotStep(id, h))
    ensures Path(After(s, SnapshotStep(id, h)), steps, s') && s'.phase.Idle?
    ensures s'.top == s.top && s'.waiting == s.waiting
  {
    hide SealPoint, ValidSegment, AllConserved, AddedInOrder, Remainder, DispatchSteps, SealsAll;
    var batches := SomeBatches(s.bufs, h, s.bufs.Keys);
    SealIsFlushed(s.bufs, h, batches);
    SealPath(s, ANY_LENGTH, id, h, batches);
    var whole := [SnapshotStep(id, h), SealStep(JobsIn(batches))] + DispatchSteps(ANY_LENGTH, batches);
    steps := whole[1..];
    s' := s.(bufs := Remainder(s.bufs, SealCut(s.bufs, h)), log := s.log + batches);
    assert whole[0] == SnapshotStep(id, h);
  }

  lemma {:induction false} SealIsFlushed(bufs: Segments, h: nat, batches: seq<Batch>)
    requires SealsAll(bufs, h, bufs.Keys, batches)
    ensures Flushed(ANY_LENGTH, bufs, SealCut(bufs, h), batches)
  {
    hide SealPoint, Packs, JobsOf;
    SealedJobs(bufs, h, batches);
  }

  lemma {:induction false} SealedJobs(bufs: Segments, h: nat, batches: seq<Batch>)
    requires SealsAll(bufs, h, bufs.Keys, batches)
    ensures CutOf(bufs, SealCut(bufs, h)) && JobsOf(bufs, SealCut(bufs, h), JobsIn(batches))
  {
    hide SealPoint, Packs;
    var jobs, cut := JobsIn(batches), SealCut(bufs, h);
    forall id | id in bufs && cut[id] > 0
      ensures exists i :: 0 <= i < |jobs| && jobs[i].id == id
    {
      var i :| 0 <= i < |batches| && batches[i].job.id == id;
      assert jobs[i].id == id;
    }
  }

  /** A snapshot is read right in everything that can follow exactly if its last write has been Added
      and is not held back by its writer. */
  lemma {:induction false} SnapshotIsRightExactly(s: State, id: string, h: nat)
    requires Inv(s) && LogCarries(s) && Enabled(s, SnapshotStep(id, h))
    ensures AlwaysReadsRight(After(s, SnapshotStep(id, h)), id, h) <==>
            id in s.top && s.top[id] == h && Lacks(Held(s, id), h)
  {
    hide Inv, Path, LogOneSided, Quiet, Lacks, LogCarries, ReadsRight, Sealed;
    var snapped := After(s, SnapshotStep(id, h));
    StepKeepsInv(s, SnapshotStep(id, h));
    SameLogCarries(s, snapped);
    if id in s.top && s.top[id] == h && Lacks(Held(s, id), h) {
      SnapshotSeals(s, id, h);
      SealedIsReadRight(snapped, id, h);
    } else {
      var steps, s1 := CanSeal(s, id, h);
      PathKeepsInv(snapped, steps, s1);
      PathKeepsCarries(snapped, steps, s1);
      SnapshotIsAboveTheLog(s1, id, h);
      assert Held(s1, id) == Held(s, id);
      ReaderIsRightExactly(s1, id, h);
      WrongLater(snapped, steps, s1, id, h);
    }
  }

  lemma SameLogCarries(s: State, s': State)
    requires LogCarries(s) && s'.log == s.log
    ensures LogCarries(s')
  {
  }

  lemma WrongLater(s: State, steps: seq<Step>, s1: State, id: string, h: nat)
    requires Path(s, steps, s1) && !AlwaysReadsRight(s1, id, h)
    ensures !AlwaysReadsRight(s, id, h)
  {
    hide Path, ReadsRight;
    var more, s2 :| Path(s1, more, s2) && !ReadsRight(s2, id, h);
    PathAppend(s, steps, s1, more, s2);
  }

  /** A snapshot up to write 1 is taken before that write is Added: its reader gets the write twice. */
  lemma {:induction false} LateWriteIsReadTwice() returns (states: seq<State>, steps: seq<Step>)
    ensures IsRun(states, steps) && |steps| > 0 && steps[0] == SnapshotStep("s", 1)
    ensures var s := states[|steps|];
            Pending(s, "s") == [] && WrittenBytes(AddedTo(s, "s")) == [7, 8] && ReaderBytes(s, "s", 1) == [7, 7, 8]
  {
    hide Path, IsRun, Inv, WrittenBytes, WritesUpTo, Accepted, SentBytes, LogMessages, DispatchSteps;
    var e1, e2 := OutEntry(1, [7]), OutEntry(2, [8]);
    var s0 := State(map[], Idle, map[], map[], [], map[]);
    StartIsRun(s0);
    var seal := [SnapshotStep("s", 1), SealStep([])] + DispatchSteps(ANY_LENGTH, []);
    NothingSealed(s0);
    var s1 := After(s0, AddStep("s", e1, 0));
    var s2 := After(s1, AddStep("s", e2, 0));
    OneStep(s0, AddStep("s", e1, 0));
    OneStep(s1, AddStep("s", e2, 0));
    var adds := [AddStep("s", e1, 0)] + [AddStep("s", e2, 0)];
    PathAppend(s0, [AddStep("s", e1, 0)], s1, [AddStep("s", e2, 0)], s2);
    PathAppend(s0, seal, s0, adds, s2);
    StartKeepsInv(s0);
    PathKeepsInv(s0, seal + adds, s2);
    var flush := CanFlush(s2, "s");
    PathAppend(s0, seal + adds, s2, flush, AfterFlush(s2, "s"));
    steps := seal + adds + flush;
    states := RunGoesOn([s0], [], steps, AfterFlush(s2, "s"));
    assert [] + steps == steps;
    assert AddedTo(s0, "s") + [e1] == [e1];
    assert s1.bufs["s"].entries == [e1] && s1.added == map["s" := [e1]];
    assert s2.bufs["s"].entries == [e1] + [e2] == [e1, e2] && s2.added == map["s" := [e1, e2]];
    assert AfterFlush(s2, "s").bufs == map[] && AfterFlush(s2, "s").log == [OneMessage("s", [e1, e2])];
    TwoWritesRead(AfterFlush(s2, "s"), e1, e2);
  }

  lemma StartIsRun(s: State)
    requires Start(s)
    ensures IsRun([s], [])
  {
  }

  lemma {:induction false} StartKeepsInv(s: State)
    requires Start(s)
    ensures Inv(s)
  {
  }

  lemma NothingSealed(s: State)
    requires Start(s)
    ensures Path(s, [SnapshotStep("s", 1), SealStep([])] + DispatchSteps(ANY_LENGTH, []), s)
  {
    hide Path;
    assert JobsIn([]) == [] && AllPacked(ANY_LENGTH, []);
    assert JobsOf(s.bufs, SealCut(s.bufs, 1), []);
    SealPath(s, ANY_LENGTH, "s", 1, []);
    assert Remainder(s.bufs, SealCut(s.bufs, 1)) == s.bufs;
    assert s.log + [] == s.log;
  }

  lemma {:induction false} TwoWritesRead(s: State, e1: OutEntry, e2: OutEntry)
    requires e1 == OutEntry(1, [7]) && e2 == OutEntry(2, [8])
    requires s.phase == Idle && s.bufs == map[] && s.waiting == map[] && s.added == map["s" := [e1, e2]]
    requires s.log == [OneMessage("s", [e1, e2])]
    ensures Pending(s, "s") == [] && WrittenBytes(AddedTo(s, "s")) == [7, 8] && ReaderBytes(s, "s", 1) == [7, 7, 8]
  {
    var entries := [e1, e2];
    assert entries[..1] == [e1] && [e1][..0] == [];
    assert WrittenBytes([e1]) == [7] && WrittenBytes(entries) == [7, 8];
    assert WritesUpTo([e1], 1) == [e1] && WritesUpTo(entries, 1) == [e1];
    var m := Message("s", [7, 8], 2, 2);
    assert s.log[..0] == [] && [m][..0] == [];
    assert LogMessages(s.log, "s") == [m];
    assert Accepted([m], 1) == [m] && SentBytes([m]) == [7, 8];
  }
}
