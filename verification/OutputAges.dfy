/** How long writes stay in the output batcher: the age of a segment over every run. */
module OutputAges {
  import opened OutputPacking
  import opened OutputRuns

  /** Step `j` is an Add, or the end of an Add that had to flush first, which opens a segment. */
  ghost predicate OpensSegment(states: seq<State>, steps: seq<Step>, id: string, j: nat)
    requires |states| == |steps| + 1 && j < |steps|
  {
    (steps[j].AddStep? || steps[j].AddResumeStep?) && steps[j].id == id && id !in states[j].bufs
  }

  /** The session has had a segment from state `from` to state `to`. */
  ghost predicate KeptSince(states: seq<State>, id: string, from: nat, to: nat)
    requires to < |states|
  {
    forall k :: from <= k <= to ==> id in states[k].bufs
  }

  lemma {:induction false} AddAge(s: State, step: Step, id: string)
    requires Inv(s) && Enabled(s, step) && (step.AddStep? || step.AddResumeStep?) && id in After(s, step).bufs
    ensures if id in s.bufs then After(s, step).bufs[id].firstAdd == s.bufs[id].firstAdd
            else step.id == id && After(s, step).bufs[id].firstAdd == step.now
  {
    hide Conserved, ValidSegments, AddedInOrder, Fresh, Follows;
  }

  lemma {:induction false} OtherAge(s: State, step: Step, id: string)
    requires Enabled(s, step) && !step.AddStep? && !step.AddResumeStep? && id in After(s, step).bufs
    ensures id in s.bufs && After(s, step).bufs[id].firstAdd == s.bufs[id].firstAdd
  {
    hide JobsOf, Packs;
  }

  /** Over every run, the age that a buffered segment notes is the time of the Add that opened it. No
      further write and no seal since has changed it. */
  lemma {:induction false} AgeIsOpening(states: seq<State>, steps: seq<Step>, i: nat, id: string) returns (j: nat)
    requires IsRun(states, steps) && i < |states| && id in states[i].bufs
    ensures j < i && OpensSegment(states, steps, id, j) && KeptSince(states, id, j + 1, i)
    ensures states[i].bufs[id].firstAdd == steps[j].now
  {
    hide Inv, After, Enabled;
    if i == 0 {
      assert false;
    } else {
      var before, step := states[i - 1], steps[i - 1];
      RunKeepsInv(states, steps, i - 1);
      if step.AddStep? || step.AddResumeStep? {
        AddAge(before, step, id);
      } else {
        OtherAge(before, step, id);
      }
      if id in before.bufs {
        j := AgeIsOpening(states, steps, i - 1, id);
      } else {
        j := i - 1;
      }
    }
  }

  /** The Add that opened a segment is the only one. */
  lemma OpenedOnce(states: seq<State>, steps: seq<Step>, id: string, i: nat, j: nat, k: nat)
    requires |states| == |steps| + 1 && j < i && k < i && i < |states|
    requires OpensSegment(states, steps, id, j) && KeptSince(states, id, j + 1, i)
    requires OpensSegment(states, steps, id, k) && KeptSince(states, id, k + 1, i)
    ensures j == k
  {
  }

  /** A tick takes a segment exactly if it was opened `deadline` or longer ago, however many writes have
      followed, or if its bytes have reached the limit. */
  lemma {:induction false} TickTakesOld(states: seq<State>, steps: seq<Step>, i: nat, now: int, deadline: int,
                                        id: string, j: nat)
    requires IsRun(states, steps) && j < i < |steps|
    requires steps[i].DetachStep? && steps[i].cut == TickCut(states[i].bufs, now, deadline)
    requires OpensSegment(states, steps, id, j) && KeptSince(states, id, j + 1, i)
    ensures id in states[i + 1].bufs <==>
            now - steps[j].now < deadline && |WrittenBytes(Buffered(states[i], id))| < OUTPUT_RAW_CAP
  {
    hide JobsOf, Conserved, AddedInOrder, FlushedGone, WrittenBytes, OpensSegment;
    RunKeepsInv(states, steps, i);
    var k := AgeIsOpening(states, steps, i, id);
    OpenedOnce(states, steps, id, i, j, k);
    assert ValidSegment(states[i].bufs[id]);
    assert Enabled(states[i], steps[i]) && states[i + 1] == After(states[i], steps[i]);
  }

  /** After a tick, whatever is still buffered was opened less than `deadline` ago. */
  lemma {:induction false} NothingOldIsLeft(states: seq<State>, steps: seq<Step>, i: nat, now: int, deadline: int,
                                            id: string) returns (j: nat)
    requires IsRun(states, steps) && i < |steps| && id in states[i + 1].bufs
    requires steps[i].DetachStep? && steps[i].cut == TickCut(states[i].bufs, now, deadline)
    ensures j < i && OpensSegment(states, steps, id, j) && KeptSince(states, id, j + 1, i + 1)
    ensures now - steps[j].now < deadline
  {
    hide After, Enabled, TickCut;
    j := AgeIsOpening(states, steps, i + 1, id);
    TickTakesOld(states, steps, i, now, deadline, id, j);
  }
}
