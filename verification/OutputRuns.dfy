/** The output batcher as a state machine: its locked sections are the atomic steps, and every
    interleaving of writers, flushes and history snapshots is a run. */
module OutputRuns {
  import opened OutputPacking

  const OUTPUT_RAW_CAP := 24 * 1024

  /** The buffered writes of one session. */
  datatype Segment = Segment(entries: seq<OutEntry>, firstAdd: int, lastSeq: nat, rawLen: nat)

  type Segments = map<string, Segment>

  /** Entries detached from a session's segment, on their way to the wire. */
  datatype Job = Job(id: string, entries: seq<OutEntry>)

  /** A job together with the messages it became. */
  datatype Batch = Batch(job: Job, msgs: seq<Message>)

  ghost predicate Contiguous(entries: seq<OutEntry>) {
    forall i :: 0 < i < |entries| ==> entries[i].seqNo == entries[i - 1].seqNo + 1
  }

  ghost predicate Increasing(entries: seq<OutEntry>) {
    forall i, j :: 0 <= i < j < |entries| ==> entries[i].seqNo < entries[j].seqNo
  }

  ghost predicate ValidSegment(seg: Segment) {
    && seg.entries != []
    && NonEmptyWrites(seg.entries)
    && Contiguous(seg.entries)
    && seg.lastSeq == seg.entries[|seg.entries| - 1].seqNo
    && seg.rawLen == |WrittenBytes(seg.entries)|
  }

  ghost predicate ValidSegments(bufs: Segments) {
    forall id :: id in bufs ==> ValidSegment(bufs[id])
  }

  // ---- what the operations do to the segments ----

  /** `Add` when the write continues the segment, or opens one. */
  ghost function Appended(bufs: Segments, id: string, e: OutEntry, now: int): Segments {
    if id in bufs then
      bufs[id := Segment(bufs[id].entries + [e], bufs[id].firstAdd, e.seqNo, bufs[id].rawLen + |e.data|)]
    else
      bufs[id := Segment([e], now, e.seqNo, |e.data|)]
  }

  ghost predicate Follows(bufs: Segments, id: string, e: OutEntry) {
    id in bufs ==> e.seqNo == bufs[id].lastSeq + 1
  }

  /** For each segment, how many of its leading entries a flush detaches. */
  type Cut = map<string, nat>

  ghost predicate CutOf(bufs: Segments, cut: Cut) {
    cut.Keys == bufs.Keys && forall id :: id in bufs ==> cut[id] <= |bufs[id].entries|
  }

  ghost function Dropped(seg: Segment, k: nat): Segment
    requires k <= |seg.entries|
  {
    if k == 0 then seg
    else Segment(seg.entries[k..], seg.firstAdd, seg.lastSeq, |WrittenBytes(seg.entries[k..])|)
  }

  ghost function Remainder(bufs: Segments, cut: Cut): Segments
    requires CutOf(bufs, cut)
  {
    map id | id in bufs && cut[id] < |bufs[id].entries| :: Dropped(bufs[id], cut[id])
  }

  /** One job for each session with something to send, in any order. */
  ghost predicate JobsOf(bufs: Segments, cut: Cut, jobs: seq<Job>)
    requires CutOf(bufs, cut)
  {
    && (forall i :: 0 <= i < |jobs| ==> jobs[i].id in bufs && cut[jobs[i].id] > 0
                                        && jobs[i].entries == bufs[jobs[i].id].entries[..cut[jobs[i].id]])
    && (forall i, j :: 0 <= i < j < |jobs| ==> jobs[i].id != jobs[j].id)
    && (forall id :: id in bufs && cut[id] > 0 ==> exists i :: 0 <= i < |jobs| && jobs[i].id == id)
  }

  ghost predicate Due(seg: Segment, now: int, deadline: int) {
    now - seg.firstAdd >= deadline || seg.rawLen >= OUTPUT_RAW_CAP
  }

  ghost function TickCut(bufs: Segments, now: int, deadline: int): Cut {
    map id | id in bufs :: if Due(bufs[id], now, deadline) then |bufs[id].entries| else 0
  }

  ghost function FlushAllCut(bufs: Segments): Cut {
    map id | id in bufs :: |bufs[id].entries|
  }

  ghost function FlushSessionCut(bufs: Segments, session: string): Cut {
    map id | id in bufs :: if id == session then |bufs[id].entries| else 0
  }

  ghost function WholeCutOf(bufs: Segments, taken: set<string>): Cut {
    map id | id in bufs :: if id in taken then |bufs[id].entries| else 0
  }

  /** The number of leading entries before the first one numbered above `h`. */
  ghost function SealPoint(entries: seq<OutEntry>, h: nat): (k: nat)
    ensures k <= |entries|
    ensures forall i :: 0 <= i < k ==> entries[i].seqNo <= h
    ensures k < |entries| ==> entries[k].seqNo > h
  {
    if entries == [] || entries[0].seqNo > h then 0 else 1 + SealPoint(entries[1..], h)
  }

  ghost function SealCut(bufs: Segments, h: nat): Cut {
    map id | id in bufs :: SealPoint(bufs[id].entries, h)
  }

  // ---- the machine ----

  /** Who holds the dispatch lock: nobody, a sealer that has taken its snapshot, or a flush
      with jobs still to dispatch. */
  datatype Phase = Idle | Snapped(id: string, h: nat) | Sending(jobs: seq<Job>)

  /** A writer whose write does not follow its segment flushes before it buffers the write. */
  datatype Waiting = Waiting(e: OutEntry, flushed: bool)

  /** `added`, `log` and `top` record the run: what was Added, what was dispatched, and the highest
      number Added. */
  datatype State = State(
    bufs: Segments, phase: Phase, waiting: map<string, Waiting>,
    added: map<string, seq<OutEntry>>, log: seq<Batch>, top: map<string, nat>)

  ghost function AddedTo(s: State, id: string): seq<OutEntry> {
    if id in s.added then s.added[id] else []
  }

  /** A writer numbers its writes upwards. */
  ghost predicate Fresh(s: State, id: string, e: OutEntry) {
    id !in s.waiting && e.data != [] && (id in s.top ==> e.seqNo > s.top[id])
  }

  ghost function Noted(s: State, id: string, e: OutEntry): State {
    s.(added := s.added[id := AddedTo(s, id) + [e]], top := s.top[id := e.seqNo])
  }

  /** The writer on whose behalf a flush runs, if any. */
  datatype Owner = Nobody | Writer(id: string)

  datatype Step =
    | AddStep(id: string, e: OutEntry, now: int)
    | AddGapStep(id: string, e: OutEntry)
    | AddResumeStep(id: string, now: int)
    | DetachStep(cut: Cut, jobs: seq<Job>, owner: Owner)
    | DispatchStep(marshal: Marshal, msgs: seq<Message>)
    | UnlockStep
    | SnapshotStep(id: string, h: nat)
    | SealStep(jobs: seq<Job>)

  /** A flush detaches whole segments; a writer's own flush takes that writer's segment. */
  ghost predicate WholeCut(bufs: Segments, cut: Cut) {
    CutOf(bufs, cut) && forall id :: id in bufs ==> cut[id] == 0 || cut[id] == |bufs[id].entries|
  }

  ghost predicate Enabled(s: State, step: Step) {
    match step
    case AddStep(id, e, now) => Fresh(s, id, e) && Follows(s.bufs, id, e)
    case AddGapStep(id, e) => Fresh(s, id, e) && !Follows(s.bufs, id, e)
    case AddResumeStep(id, now) => id in s.waiting && s.waiting[id].flushed
    case DetachStep(cut, jobs, owner) =>
      && s.phase.Idle? && WholeCut(s.bufs, cut) && JobsOf(s.bufs, cut, jobs)
      && (owner.Writer? && owner.id in s.bufs ==> cut[owner.id] > 0)
    case DispatchStep(marshal, msgs) =>
      && s.phase.Sending? && s.phase.jobs != []
      && Packs(marshal, s.phase.jobs[0].id, s.phase.jobs[0].entries, msgs)
    case UnlockStep => s.phase == Sending([])
    case SnapshotStep(id, h) =>
      // the history covers everything Added so far; it may run ahead of that
      s.phase.Idle? && (id in s.top ==> h >= s.top[id])
    case SealStep(jobs) =>
      && s.phase.Snapped? && CutOf(s.bufs, SealCut(s.bufs, s.phase.h))
      && JobsOf(s.bufs, SealCut(s.bufs, s.phase.h), jobs)
  }

  ghost function After(s: State, step: Step): State
    requires Enabled(s, step)
  {
    match step
    case AddStep(id, e, now) => Noted(s, id, e).(bufs := Appended(s.bufs, id, e, now))
    case AddGapStep(id, e) => Noted(s, id, e).(waiting := s.waiting[id := Waiting(e, false)])
    case AddResumeStep(id, now) =>
      var e := s.waiting[id].e;
      s.(bufs := s.bufs[id := Segment([e], now, e.seqNo, |e.data|)], waiting := s.waiting - {id})
    case DetachStep(cut, jobs, owner) =>
      s.(bufs := Remainder(s.bufs, cut), phase := Sending(jobs),
         waiting := if owner.Writer? && owner.id in s.waiting
                    then s.waiting[owner.id := s.waiting[owner.id].(flushed := true)] else s.waiting)
    case DispatchStep(marshal, msgs) =>
      s.(log := s.log + [Batch(s.phase.jobs[0], msgs)], phase := Sending(s.phase.jobs[1..]))
    case UnlockStep => s.(phase := Idle)
    case SnapshotStep(id, h) =>
      s.(phase := Snapped(id, h))
    case SealStep(jobs) =>
      s.(bufs := Remainder(s.bufs, SealCut(s.bufs, s.phase.h)), phase := Sending(jobs))
  }

  ghost predicate Start(s: State) {
    s == State(map[], Idle, map[], map[], [], map[])
  }

  ghost predicate IsRun(states: seq<State>, steps: seq<Step>) {
    && |states| == |steps| + 1
    && Start(states[0])
    && forall i :: 0 <= i < |steps| ==> Enabled(states[i], steps[i]) && states[i + 1] == After(states[i], steps[i])
  }

  // ---- where a session's writes are ----

  ghost function JobWrites(jobs: seq<Job>, id: string): seq<OutEntry> {
    if jobs == [] then [] else
      (if jobs[0].id == id then jobs[0].entries else []) + JobWrites(jobs[1..], id)
  }

  ghost function LogWrites(log: seq<Batch>, id: string): seq<OutEntry> {
    if log == [] then [] else
      LogWrites(log[..|log| - 1], id) +
      (if log[|log| - 1].job.id == id then log[|log| - 1].job.entries else [])
  }

  ghost function LogMessages(log: seq<Batch>, id: string): seq<Message> {
    if log == [] then [] else
      LogMessages(log[..|log| - 1], id) + (if log[|log| - 1].job.id == id then log[|log| - 1].msgs else [])
  }

  ghost function InFlight(s: State, id: string): seq<OutEntry> {
    if s.phase.Sending? then JobWrites(s.phase.jobs, id) else []
  }

  ghost function Buffered(s: State, id: string): seq<OutEntry> {
    if id in s.bufs then s.bufs[id].entries else []
  }

  ghost function Held(s: State, id: string): seq<OutEntry> {
    if id in s.waiting then [s.waiting[id].e] else []
  }

  /** Nothing lost, repeated or reordered. */
  ghost predicate Conserved(s: State, id: string) {
    LogWrites(s.log, id) + InFlight(s, id) + Buffered(s, id) + Held(s, id) == AddedTo(s, id)
  }

  ghost predicate AddedInOrder(added: map<string, seq<OutEntry>>, top: map<string, nat>) {
    && (forall id :: id in top ==> id in added)
    && forall id :: id in added ==> id in top && InOrder(added[id], top[id])
  }

  /** Writes numbered upwards, up to `top`. */
  ghost predicate InOrder(entries: seq<OutEntry>, top: nat) {
    && Increasing(entries) && NonEmptyWrites(entries)
    && entries != [] && entries[|entries| - 1].seqNo == top
    && forall i :: 0 <= i < |entries| ==> entries[i].seqNo <= top
  }

  ghost predicate FlushedGone(waiting: map<string, Waiting>, bufs: Segments) {
    forall id :: id in waiting && waiting[id].flushed ==> id !in bufs
  }

  ghost predicate AllConserved(s: State) {
    forall id :: Conserved(s, id)
  }

  ghost predicate Inv(s: State) {
    && ValidSegments(s.bufs)
    && AllConserved(s)
    && AddedInOrder(s.added, s.top)
    && FlushedGone(s.waiting, s.bufs)
  }

  // ---- detaching ----

  lemma NoJobNoWrites(jobs: seq<Job>, id: string)
    requires forall i :: 0 <= i < |jobs| ==> jobs[i].id != id
    ensures JobWrites(jobs, id) == []
  {
  }

  lemma {:induction false} OneJobItsWrites(jobs: seq<Job>, id: string, k: nat)
    requires k < |jobs| && jobs[k].id == id
    requires forall i, j :: 0 <= i < j < |jobs| ==> jobs[i].id != jobs[j].id
    ensures JobWrites(jobs, id) == jobs[k].entries
  {
    if k == 0 {
      NoJobNoWrites(jobs[1..], id);
    } else {
      OneJobItsWrites(jobs[1..], id, k - 1);
    }
  }

  /** Whatever the order of the jobs, a session's writes split into detached and kept. */
  lemma {:induction false} DetachSplits(bufs: Segments, cut: Cut, jobs: seq<Job>, id: string)
    requires CutOf(bufs, cut) && JobsOf(bufs, cut, jobs)
    ensures JobWrites(jobs, id) == if id in bufs then bufs[id].entries[..cut[id]] else []
    ensures var bufs' := Remainder(bufs, cut);
            JobWrites(jobs, id) + (if id in bufs' then bufs'[id].entries else []) ==
            if id in bufs then bufs[id].entries else []
  {
    if id in bufs && cut[id] > 0 {
      var k :| 0 <= k < |jobs| && jobs[k].id == id;
      OneJobItsWrites(jobs, id, k);
    } else {
      NoJobNoWrites(jobs, id);
    }
  }

  lemma {:induction false} SuffixValid(seg: Segment, k: nat)
    requires ValidSegment(seg) && k < |seg.entries|
    ensures ValidSegment(Dropped(seg, k))
  {
  }

  lemma {:induction false} RemainderValid(bufs: Segments, cut: Cut)
    requires ValidSegments(bufs) && CutOf(bufs, cut)
    ensures ValidSegments(Remainder(bufs, cut))
  {
    var bufs' := Remainder(bufs, cut);
    forall id | id in bufs' ensures ValidSegment(bufs'[id]) {
      SuffixValid(bufs[id], cut[id]);
    }
  }

  lemma {:induction false} SingleValid(e: OutEntry, now: int)
    requires e.data != []
    ensures ValidSegment(Segment([e], now, e.seqNo, |e.data|))
  {
    assert [e][..0] == [];
  }

  lemma {:induction false} ExtendedValid(seg: Segment, e: OutEntry)
    requires ValidSegment(seg) && e.seqNo == seg.lastSeq + 1 && e.data != []
    ensures ValidSegment(Segment(seg.entries + [e], seg.firstAdd, e.seqNo, seg.rawLen + |e.data|))
  {
    var es := seg.entries + [e];
    assert es[..|es| - 1] == seg.entries;
  }

  // ---- the invariant ----

  lemma {:induction false} Regroup<T>(a: seq<T>, b: seq<T>, c: seq<T>)
    ensures a + (b + c) == a + b + c
  {
  }

  lemma {:induction false} NotedInOrder(s: State, id: string, e: OutEntry)
    requires AddedInOrder(s.added, s.top) && Fresh(s, id, e)
    ensures AddedInOrder(Noted(s, id, e).added, Noted(s, id, e).top)
  {
  }

  lemma {:induction false} AppendedValid(bufs: Segments, id: string, e: OutEntry, now: int)
    requires ValidSegments(bufs) && Follows(bufs, id, e) && e.data != []
    ensures ValidSegments(Appended(bufs, id, e, now))
  {
    SingleValid(e, now);
    if id in bufs {
      ExtendedValid(bufs[id], e);
    }
  }

  lemma {:induction false} AddKeepsInv(s: State, step: Step)
    requires Inv(s) && Enabled(s, step) && step.AddStep?
    ensures Inv(After(s, step))
  {
    hide Conserved, AddedInOrder, ValidSegments, Follows;
    var s' := After(s, step);
    NotedInOrder(s, step.id, step.e);
    AppendedValid(s.bufs, step.id, step.e, step.now);
    forall id ensures Conserved(s', id) {
      assert Conserved(s, id);
      WritesConserved(s, s', if id == step.id then [step.e] else [], id);
    }
  }

  /** What was Added goes to the end of what is buffered and held back. */
  lemma {:induction false} WritesConserved(s: State, s': State, more: seq<OutEntry>, id: string)
    requires Conserved(s, id) && s'.log == s.log && s'.phase == s.phase
    requires Buffered(s', id) + Held(s', id) == Buffered(s, id) + Held(s, id) + more
    requires AddedTo(s', id) == AddedTo(s, id) + more
    ensures Conserved(s', id)
  {
    hide LogWrites, InFlight, Buffered, Held, AddedTo;
    var before := LogWrites(s.log, id) + InFlight(s, id);
    Regroup(before, Buffered(s, id), Held(s, id));
    Regroup(before, Buffered(s, id) + Held(s, id), more);
    Regroup(before, Buffered(s', id), Held(s', id));
    assert InFlight(s', id) == InFlight(s, id) by {
      SameInFlight(s, s', id);
    }
  }

  lemma SameInFlight(s: State, s': State, id: string)
    requires s'.phase == s.phase
    ensures InFlight(s', id) == InFlight(s, id)
  {
  }

  lemma {:induction false} AddGapKeepsInv(s: State, step: Step)
    requires Inv(s) && Enabled(s, step) && step.AddGapStep?
    ensures Inv(After(s, step))
  {
    hide Conserved, AddedInOrder, ValidSegments, Follows;
    var s' := After(s, step);
    NotedInOrder(s, step.id, step.e);
    forall id ensures Conserved(s', id) {
      assert Conserved(s, id);
      WritesConserved(s, s', if id == step.id then [step.e] else [], id);
    }
  }

  lemma {:induction false} HeldIsWritten(s: State, id: string)
    requires Inv(s) && id in s.waiting
    ensures s.waiting[id].e.data != []
  {
    hide LogWrites, JobWrites, ValidSegments;
    assert Conserved(s, id);
    var added := AddedTo(s, id);
    assert added[|added| - 1] == s.waiting[id].e;
  }

  lemma {:induction false} AddResumeKeepsInv(s: State, step: Step)
    requires Inv(s) && Enabled(s, step) && step.AddResumeStep?
    ensures Inv(After(s, step))
  {
    hide Conserved, AddedInOrder, ValidSegment;
    var s' := After(s, step);
    HeldIsWritten(s, step.id);
    SingleValid(s.waiting[step.id].e, step.now);
    forall id ensures Conserved(s', id) {
      assert Conserved(s, id);
      assert Buffered(s', id) + Held(s', id) == Buffered(s, id) + Held(s, id);
      WritesConserved(s, s', [], id);
    }
  }

  lemma {:induction false} MovedOn<T>(out: seq<T>, inFlight: seq<T>, kept: seq<T>, before: seq<T>)
    requires inFlight + kept == before
    ensures out + inFlight + kept == out + [] + before
  {
    Regroup(out, inFlight, kept);
  }

  lemma {:induction false} FlushConserves(s: State, cut: Cut, jobs: seq<Job>, s': State, id: string)
    requires Conserved(s, id) && !s.phase.Sending?
    requires CutOf(s.bufs, cut) && JobsOf(s.bufs, cut, jobs)
    requires s'.bufs == Remainder(s.bufs, cut) && s'.phase == Sending(jobs)
    requires s'.log == s.log && s'.added == s.added && Held(s', id) == Held(s, id)
    ensures Conserved(s', id)
  {
    DetachSplits(s.bufs, cut, jobs, id);
    hide Remainder, JobsOf, CutOf, LogWrites, JobWrites, Held, AddedTo;
    MovedOn(LogWrites(s.log, id), InFlight(s', id), Buffered(s', id), Buffered(s, id));
  }

  lemma {:induction false} FlushKeepsInv(s: State, step: Step)
    requires Inv(s) && Enabled(s, step) && (step.DetachStep? || step.SealStep?)
    ensures Inv(After(s, step))
  {
    hide Conserved, JobsOf, ValidSegments, AddedInOrder;
    var s' := After(s, step);
    var cut := if step.DetachStep? then step.cut else SealCut(s.bufs, s.phase.h);
    RemainderValid(s.bufs, cut);
    assert FlushedGone(s'.waiting, s'.bufs);
    forall id ensures Conserved(s', id) {
      assert Conserved(s, id);
      FlushConserves(s, cut, step.jobs, s', id);
    }
  }

  lemma {:induction false} DispatchConserves(s: State, s': State, b: Batch, id: string)
    requires Conserved(s, id) && s.phase.Sending? && s.phase.jobs != [] && b.job == s.phase.jobs[0]
    requires s'.log == s.log + [b] && s'.phase == Sending(s.phase.jobs[1..])
    requires s'.bufs == s.bufs && s'.waiting == s.waiting && s'.added == s.added
    ensures Conserved(s', id)
  {
    assert s'.log[..|s.log|] == s.log;
    var es := if b.job.id == id then b.job.entries else [];
    assert LogWrites(s'.log, id) == LogWrites(s.log, id) + es;
    assert InFlight(s, id) == es + InFlight(s', id);
    hide LogWrites, JobWrites;
    Regroup(LogWrites(s.log, id), es, InFlight(s', id));
  }

  lemma {:induction false} DispatchKeepsInv(s: State, step: Step)
    requires Inv(s) && Enabled(s, step) && step.DispatchStep?
    ensures Inv(After(s, step))
  {
    hide Packs, ValidSegments, AddedInOrder, Conserved;
    forall id ensures Conserved(After(s, step), id) {
      assert Conserved(s, id);
      DispatchConserves(s, After(s, step), Batch(s.phase.jobs[0], step.msgs), id);
    }
  }

  lemma {:induction false} LockKeepsInv(s: State, step: Step)
    requires Inv(s) && Enabled(s, step) && (step.UnlockStep? || step.SnapshotStep?)
    ensures Inv(After(s, step))
  {
    var s' := After(s, step);
    forall id ensures Conserved(s', id) {
      assert Conserved(s, id);
    }
  }

  lemma {:induction false} StepKeepsInv(s: State, step: Step)
    requires Inv(s) && Enabled(s, step)
    ensures Inv(After(s, step))
  {
    hide *;
    match step
    case AddStep(_, _, _) => AddKeepsInv(s, step);
    case AddGapStep(_, _) => AddGapKeepsInv(s, step);
    case AddResumeStep(_, _) => AddResumeKeepsInv(s, step);
    case DetachStep(_, _, _) => FlushKeepsInv(s, step);
    case DispatchStep(_, _) => DispatchKeepsInv(s, step);
    case UnlockStep => LockKeepsInv(s, step);
    case SnapshotStep(_, _) => LockKeepsInv(s, step);
    case SealStep(_) => FlushKeepsInv(s, step);
  }

  /** Whole-run conservation: in every state of every run, each session's dispatched, in-flight,
      buffered and waiting writes are exactly the writes Added, in order, and every buffered
      segment is contiguous with its counters right. */
  lemma {:induction false} RunKeepsInv(states: seq<State>, steps: seq<Step>, i: nat)
    requires IsRun(states, steps) && i < |states|
    ensures Inv(states[i])
  {
    if i > 0 {
      RunKeepsInv(states, steps, i - 1);
      StepKeepsInv(states[i - 1], steps[i - 1]);
    }
  }

  // ---- a whole flush, run by one thread, as steps of the machine ----

  ghost predicate Path(s: State, steps: seq<Step>, s': State)
    decreases |steps|
  {
    if steps == [] then s == s' else Enabled(s, steps[0]) && Path(After(s, steps[0]), steps[1..], s')
  }

  ghost function JobsIn(batches: seq<Batch>): seq<Job> {
    seq(|batches|, i requires 0 <= i < |batches| => batches[i].job)
  }

  ghost function WireOf(log: seq<Batch>): seq<Message> {
    if log == [] then [] else WireOf(log[..|log| - 1]) + log[|log| - 1].msgs
  }

  ghost predicate AllPacked(marshal: Marshal, batches: seq<Batch>) {
    forall i :: 0 <= i < |batches| ==> Packs(marshal, batches[i].job.id, batches[i].job.entries, batches[i].msgs)
  }

  /** What one flush does: `cut` leaves the buffers and goes to the log, correctly packed. */
  ghost predicate Flushed(marshal: Marshal, bufs: Segments, cut: Cut, batches: seq<Batch>) {
    CutOf(bufs, cut) && JobsOf(bufs, cut, JobsIn(batches)) && AllPacked(marshal, batches)
  }

  ghost function DispatchSteps(marshal: Marshal, batches: seq<Batch>): seq<Step> {
    if batches == [] then [UnlockStep]
    else [DispatchStep(marshal, batches[0].msgs)] + DispatchSteps(marshal, batches[1..])
  }

  lemma {:induction false} DispatchPath(s: State, marshal: Marshal, batches: seq<Batch>)
    requires s.phase == Sending(JobsIn(batches)) && AllPacked(marshal, batches)
    ensures Path(s, DispatchSteps(marshal, batches), s.(phase := Idle, log := s.log + batches))
    decreases |batches|
  {
    hide Packs;
    var steps := DispatchSteps(marshal, batches);
    if batches == [] {
      assert s.log + batches == s.log;
      assert Path(After(s, UnlockStep), steps[1..], s.(phase := Idle));
    } else {
      var s1 := After(s, steps[0]);
      assert s1.phase.jobs == JobsIn(batches[1..]);
      assert s1.log + batches[1..] == s.log + batches;
      DispatchPath(s1, marshal, batches[1..]);
      assert steps[1..] == DispatchSteps(marshal, batches[1..]);
    }
  }

  ghost function Marked(waiting: map<string, Waiting>, owner: Owner): map<string, Waiting> {
    if owner.Writer? && owner.id in waiting then waiting[owner.id := waiting[owner.id].(flushed := true)] else waiting
  }

  /** tick, FlushAll and FlushSession are detach, dispatch..., unlock. */
  lemma {:induction false} FlushPath(s: State, marshal: Marshal, cut: Cut, batches: seq<Batch>, owner: Owner)
    requires s.phase.Idle? && WholeCut(s.bufs, cut) && Flushed(marshal, s.bufs, cut, batches)
    requires owner.Writer? && owner.id in s.bufs ==> cut[owner.id] > 0
    ensures Path(s, [DetachStep(cut, JobsIn(batches), owner)] + DispatchSteps(marshal, batches),
                 s.(bufs := Remainder(s.bufs, cut), log := s.log + batches, waiting := Marked(s.waiting, owner)))
  {
    hide JobsOf, AllPacked, Remainder;
    var step := DetachStep(cut, JobsIn(batches), owner);
    DispatchPath(After(s, step), marshal, batches);
    assert ([step] + DispatchSteps(marshal, batches))[1..] == DispatchSteps(marshal, batches);
  }

  /** SealAt is snapshot, seal, dispatch..., unlock. */
  lemma {:induction false} SealPath(s: State, marshal: Marshal, id: string, h: nat, batches: seq<Batch>)
    requires Enabled(s, SnapshotStep(id, h)) && Flushed(marshal, s.bufs, SealCut(s.bufs, h), batches)
    ensures Path(s, [SnapshotStep(id, h), SealStep(JobsIn(batches))] + DispatchSteps(marshal, batches),
                 s.(bufs := Remainder(s.bufs, SealCut(s.bufs, h)), log := s.log + batches))
  {
    hide JobsOf, AllPacked, Remainder;
    var s1 := After(s, SnapshotStep(id, h));
    var s2 := After(s1, SealStep(JobsIn(batches)));
    DispatchPath(s2, marshal, batches);
    var steps := [SnapshotStep(id, h), SealStep(JobsIn(batches))] + DispatchSteps(marshal, batches);
    assert steps[1..][1..] == DispatchSteps(marshal, batches);
    assert Path(s1, steps[1..], s2.(phase := Idle, log := s2.log + batches));
  }

  /** Add of a write that follows its segment is one step. */
  lemma {:induction false} AddPath(s: State, id: string, e: OutEntry, now: int)
    requires Fresh(s, id, e) && Follows(s.bufs, id, e)
    ensures Path(s, [AddStep(id, e, now)], Noted(s, id, e).(bufs := Appended(s.bufs, id, e, now)))
  {
    assert [AddStep(id, e, now)][1..] == [];
  }

  /** Add of any other write notes it, flushes the session, and then buffers it. */
  lemma {:induction false} AddGapPath(s: State, marshal: Marshal, id: string, e: OutEntry, now: int,
                                      batches: seq<Batch>)
    requires s.phase.Idle? && Fresh(s, id, e) && !Follows(s.bufs, id, e) && ValidSegments(s.bufs)
    requires Flushed(marshal, s.bufs, FlushSessionCut(s.bufs, id), batches)
    ensures var cut := FlushSessionCut(s.bufs, id);
            Path(s, [AddGapStep(id, e)]
                    + ([DetachStep(cut, JobsIn(batches), Writer(id))] + DispatchSteps(marshal, batches))
                    + [AddResumeStep(id, now)],
                 Noted(s, id, e).(bufs := Appended(Remainder(s.bufs, cut), id, e, now), log := s.log + batches))
  {
    hide JobsOf, AllPacked, ValidSegment;
    var cut := FlushSessionCut(s.bufs, id);
    var flush := [DetachStep(cut, JobsIn(batches), Writer(id))] + DispatchSteps(marshal, batches);
    var s1 := After(s, AddGapStep(id, e));
    assert ValidSegment(s.bufs[id]);
    SegmentIsNotEmpty(s.bufs[id]);
    FlushPath(s1, marshal, cut, batches, Writer(id));
    var s2 := s1.(bufs := Remainder(s.bufs, cut), log := s.log + batches, waiting := Marked(s1.waiting, Writer(id)));
    var s3 := After(s2, AddResumeStep(id, now));
    OneStep(s, AddGapStep(id, e));
    OneStep(s2, AddResumeStep(id, now));
    PathAppend(s, [AddGapStep(id, e)], s1, flush, s2);
    PathAppend(s, [AddGapStep(id, e)] + flush, s2, [AddResumeStep(id, now)], s3);
    assert s3.waiting == s.waiting;
  }

  lemma SegmentIsNotEmpty(seg: Segment)
    requires ValidSegment(seg)
    ensures |seg.entries| > 0
  {
  }

  lemma OneStep(s: State, step: Step)
    requires Enabled(s, step)
    ensures Path(s, [step], After(s, step))
  {
    assert [step][1..] == [];
  }

  lemma {:induction false} PathAppend(s: State, a: seq<Step>, s1: State, b: seq<Step>, s2: State)
    requires Path(s, a, s1) && Path(s1, b, s2)
    ensures Path(s, a + b, s2)
    decreases |a|
  {
    hide Enabled, After;
    if a == [] {
      assert a + b == b;
    } else {
      PathAppend(After(s, a[0]), a[1..], s1, b, s2);
      assert (a + b)[1..] == a[1..] + b;
    }
  }

  lemma {:induction false} PathKeepsInv(s: State, steps: seq<Step>, s': State)
    requires Inv(s) && Path(s, steps, s')
    ensures Inv(s')
    decreases |steps|
  {
    hide Inv, Enabled, After;
    if steps != [] {
      StepKeepsInv(s, steps[0]);
      PathKeepsInv(After(s, steps[0]), steps[1..], s');
    }
  }

  /** A run goes on with any path: what holds over all runs holds of the methods' paths in any order. */
  lemma {:induction false} RunGoesOn(states: seq<State>, steps: seq<Step>, more: seq<Step>, s': State)
    returns (states': seq<State>)
    requires IsRun(states, steps) && Path(states[|steps|], more, s')
    ensures IsRun(states', steps + more) && states <= states' && states'[|steps| + |more|] == s'
    decreases |more|
  {
    hide Enabled, After, Start;
    if more == [] {
      states' := states;
      assert steps + more == steps;
    } else {
      var next := After(states[|steps|], more[0]);
      states' := RunGoesOn(states + [next], steps + [more[0]], more[1..], s');
      assert steps + [more[0]] + more[1..] == steps + more;
    }
  }
}
