/** The output batcher itself: per-session segments that its methods update in place. */
module OutputBatcher {
  import opened OutputPacking
  import opened OutputRuns

  const OUTPUT_IDLE_FLUSH := 600_000_000
  const OUTPUT_INTERACTIVE_FLUSH := 10_000_000

  class OutputBatcher {
    const marshal: Marshal
    var bufs: Segments
    var wire: seq<Message>
    ghost var log: seq<Batch>

    ghost predicate Valid()
      reads this
    {
      && SixfoldEscaping(marshal)
      && wire == WireOf(log)
      && ValidSegments(bufs)
    }

    constructor (marshal: Marshal)
      requires SixfoldEscaping(marshal)
      ensures Valid() && bufs == map[] && log == [] && wire == []
      ensures this.marshal == marshal
    {
      this.marshal := marshal;
      bufs, wire, log := map[], [], [];
    }

    /** `sendBatch`. */
    method SendBatch(id: string, entries: seq<OutEntry>) returns (ghost batch: Batch)
      requires SixfoldEscaping(marshal) && NonEmptyWrites(entries) && wire == WireOf(log)
      modifies this`wire, this`log
      ensures batch.job == Job(id, entries) && Packs(marshal, id, entries, batch.msgs)
      ensures log == old(log) + [batch] && wire == WireOf(log)
    {
      var msgs := PackBatch(marshal, id, entries);
      batch := Batch(Job(id, entries), msgs);
      wire, log := wire + msgs, log + [batch];
      assert log[..|log| - 1] == old(log);
    }

    method Dispatch(jobs: seq<Job>) returns (ghost batches: seq<Batch>)
      requires SixfoldEscaping(marshal) && wire == WireOf(log)
      requires forall i :: 0 <= i < |jobs| ==> NonEmptyWrites(jobs[i].entries)
      modifies this`wire, this`log
      ensures JobsIn(batches) == jobs && AllPacked(marshal, batches)
      ensures log == old(log) + batches && wire == WireOf(log)
    {
      hide NonEmptyWrites, Packs, JobsIn, AllPacked, WireOf;
      batches := [];
      NothingPacked(marshal);
      for i := 0 to |jobs|
        invariant JobsIn(batches) == jobs[..i] && AllPacked(marshal, batches)
        invariant log == old(log) + batches && wire == WireOf(log)
      {
        var batch := SendBatch(jobs[i].id, jobs[i].entries);
        PackedStep(marshal, batches, batch, jobs, i);
        batches := batches + [batch];
      }
    }

    /** Detaches the segments of the sessions in `taken`, in whatever order the map yields them. */
    method DetachWhole(taken: set<string>) returns (jobs: seq<Job>)
      requires Valid() && taken <= bufs.Keys
      modifies this`bufs
      ensures Valid() && bufs == old(bufs) - taken
      ensures JobsOf(old(bufs), WholeCutOf(old(bufs), taken), jobs)
    {
      hide ValidSegments;
      jobs := [];
      var rest := taken;
      while rest != {}
        invariant rest <= taken && bufs == old(bufs) - (taken - rest)
        invariant forall i :: 0 <= i < |jobs| ==>
                  jobs[i].id in taken - rest && jobs[i].entries == old(bufs)[jobs[i].id].entries
        invariant forall i, j :: 0 <= i < j < |jobs| ==> jobs[i].id != jobs[j].id
        invariant forall id :: id in taken - rest ==> exists i :: 0 <= i < |jobs| && jobs[i].id == id
      {
        var id :| id in rest;
        ghost var jobs0 := jobs;
        jobs := jobs + [Job(id, bufs[id].entries)];
        bufs := bufs - {id};
        rest := rest - {id};
        assert jobs[|jobs| - 1].id == id;
        assert forall i :: 0 <= i < |jobs0| ==> jobs[i] == jobs0[i];
      }
      assert taken - rest == taken;
      WholeJobs(old(bufs), taken, jobs);
      SubsetValid(old(bufs), bufs);
    }

    /** Detach under the lock, then dispatch: the common part of tick, FlushSession and FlushAll. */
    method FlushWhole(taken: set<string>) returns (ghost batches: seq<Batch>)
      requires Valid() && taken <= bufs.Keys
      modifies this
      ensures Valid() && bufs == old(bufs) - taken
      ensures Flushed(marshal, old(bufs), WholeCutOf(old(bufs), taken), batches)
      ensures bufs == Remainder(old(bufs), WholeCutOf(old(bufs), taken))
      ensures log == old(log) + batches
    {
      hide ValidSegment, Packs, JobsOf;
      ghost var segs, cut := bufs, WholeCutOf(bufs, taken);
      var jobs := DetachWhole(taken);
      JobsNonEmpty(segs, cut, jobs);
      assert bufs == Remainder(segs, cut) by {
        WholeRemainder(segs, taken);
      }
      batches := Dispatch(jobs);
    }

    /** Flushes every segment old enough for the current tier, or big enough. */
    method Tick(now: int, interactive: bool) returns (ghost batches: seq<Batch>)
      requires Valid()
      modifies this
      ensures Valid()
      ensures var cut := TickCut(old(bufs), now, if interactive then OUTPUT_INTERACTIVE_FLUSH else OUTPUT_IDLE_FLUSH);
              && Flushed(marshal, old(bufs), cut, batches)
              && bufs == Remainder(old(bufs), cut)
      ensures log == old(log) + batches
    {
      hide Flushed, Remainder;
      var deadline := if interactive then OUTPUT_INTERACTIVE_FLUSH else OUTPUT_IDLE_FLUSH;
      var due := set id | id in bufs && (now - bufs[id].firstAdd >= deadline || bufs[id].rawLen >= OUTPUT_RAW_CAP);
      assert WholeCutOf(bufs, due) == TickCut(bufs, now, deadline);
      batches := FlushWhole(due);
    }

    method FlushAll() returns (ghost batches: seq<Batch>)
      requires Valid()
      modifies this
      ensures Valid() && bufs == map[]
      ensures Flushed(marshal, old(bufs), FlushAllCut(old(bufs)), batches)
      ensures log == old(log) + batches
    {
      hide Flushed, Remainder;
      assert WholeCutOf(bufs, bufs.Keys) == FlushAllCut(bufs);
      batches := FlushWhole(bufs.Keys);
    }

    method FlushSession(session: string) returns (ghost batches: seq<Batch>)
      requires Valid()
      modifies this
      ensures Valid() && bufs == old(bufs) - {session}
      ensures Flushed(marshal, old(bufs), FlushSessionCut(old(bufs), session), batches)
      ensures bufs == Remainder(old(bufs), FlushSessionCut(old(bufs), session))
      ensures log == old(log) + batches
    {
      hide Flushed, Remainder;
      var taken := if session in bufs then {session} else {};
      assert WholeCutOf(bufs, taken) == FlushSessionCut(bufs, session);
      batches := FlushWhole(taken);
    }

    /** The end of `Add`: the write extends its segment, or opens a new one. */
    method Append(session: string, e: OutEntry, now: int)
      requires Valid() && e.data != [] && Follows(bufs, session, e)
      modifies this`bufs
      ensures Valid() && bufs == Appended(old(bufs), session, e, now)
    {
      AppendedValid(bufs, session, e, now);
      hide ValidSegments, Follows, WireOf;
      if session in bufs {
        var buf := bufs[session];
        bufs := bufs[session := Segment(buf.entries + [e], buf.firstAdd, e.seqNo, buf.rawLen + |e.data|)];
      } else {
        bufs := bufs[session := Segment([e], now, e.seqNo, |e.data|)];
      }
    }

    /** Buffers one write; a write that does not follow the segment flushes it first. */
    method Add(session: string, data: Bytes, seqNo: nat, now: int) returns (ghost batches: seq<Batch>)
      requires Valid()
      modifies this
      ensures Valid()
      ensures data == [] ==> bufs == old(bufs) && batches == []
      ensures data != [] && Follows(old(bufs), session, OutEntry(seqNo, data)) ==>
                bufs == Appended(old(bufs), session, OutEntry(seqNo, data), now) && batches == []
      ensures data != [] && !Follows(old(bufs), session, OutEntry(seqNo, data)) ==>
                && Flushed(marshal, old(bufs), FlushSessionCut(old(bufs), session), batches)
                && bufs == Appended(Remainder(old(bufs), FlushSessionCut(old(bufs), session)),
                                          session, OutEntry(seqNo, data), now)
      ensures log == old(log) + batches
    {
      hide Flushed, FlushSessionCut, Remainder, Appended, WireOf;
      batches := [];
      if data == [] {
        return;
      }
      if session in bufs && bufs[session].entries != [] && seqNo != bufs[session].lastSeq + 1 {
        batches := FlushSession(session);
      } else {
        assert session in bufs ==> ValidSegment(bufs[session]);
      }
      hide ValidSegments;
      Append(session, OutEntry(seqNo, data), now);
    }

    /** Flushes what a history snapshot up to `h` covers; what lies above it starts a new segment.
        `h` is what the snapshot callback returned while the dispatch lock was held. */
    method SealAt(h: nat) returns (ghost batches: seq<Batch>)
      requires Valid()
      modifies this
      ensures Valid()
      ensures Flushed(marshal, old(bufs), SealCut(old(bufs), h), batches)
      ensures bufs == Remainder(old(bufs), SealCut(old(bufs), h))
      ensures log == old(log) + batches
    {
      hide ValidSegment, Packs;
      ghost var segs, cut := bufs, SealCut(bufs, h);
      var jobs := DetachUpTo(h);
      JobsNonEmpty(segs, cut, jobs);
      batches := Dispatch(jobs);
    }

    /** How many leading entries of `entries` a snapshot up to `h` covers. */
    method FindSplit(entries: seq<OutEntry>, h: nat) returns (split: nat)
      ensures split == SealPoint(entries, h)
    {
      split := |entries|;
      for i := 0 to |entries|
        invariant split == |entries|
        invariant SealPoint(entries, h) == i + SealPoint(entries[i..], h)
      {
        if entries[i].seqNo > h {
          split := i;
          break;
        }
        assert entries[i..][1..] == entries[i + 1..];
      }
    }

    method DetachUpTo(h: nat) returns (jobs: seq<Job>)
      requires Valid()
      modifies this`bufs
      ensures Valid()
      ensures JobsOf(old(bufs), SealCut(old(bufs), h), jobs)
      ensures bufs == Remainder(old(bufs), SealCut(old(bufs), h))
    {
      hide *;
      ValidParts();
      jobs := [];
      ghost var segs, cut := bufs, SealCut(bufs, h);
      SealIsCut(segs, h);
      NoneSealed(segs, cut);
      var rest := bufs.Keys;
      while rest != {}
        invariant rest <= segs.Keys
        invariant SealedSoFar(segs, cut, rest, bufs)
        invariant JobsSoFar(segs, cut, rest, jobs)
      {
        var id :| id in rest;
        JobsSoFarStep(segs, cut, rest, jobs, id);
        SealedSoFarStep(segs, cut, rest, bufs, id);
        SealCutAt(segs, h, id);
        jobs := CutSession(id, h, jobs);
        rest := rest - {id};
      }
      AllSealed(segs, cut, bufs, jobs);
      RemainderValid(segs, cut);
      ValidAgain();
    }

    lemma ValidParts()
      requires Valid()
      ensures SixfoldEscaping(marshal) && wire == WireOf(log) && ValidSegments(bufs)
    {
    }

    lemma ValidAgain()
      requires SixfoldEscaping(marshal) && wire == WireOf(log) && ValidSegments(bufs)
      ensures Valid()
    {
    }

    /** Detaches the entries of one session that a snapshot up to `h` covers. */
    method CutSession(id: string, h: nat, jobs0: seq<Job>) returns (jobs: seq<Job>)
      requires id in bufs
      modifies this`bufs
      ensures var seg, k := old(bufs)[id], SealPoint(old(bufs)[id].entries, h);
              && jobs == (if k == 0 then jobs0 else jobs0 + [Job(id, seg.entries[..k])])
              && bufs == (if k == 0 then old(bufs) else if k == |seg.entries| then old(bufs) - {id}
                          else old(bufs)[id := Dropped(seg, k)])
    {
      var seg := bufs[id];
      var split := FindSplit(seg.entries, h);
      jobs := jobs0;
      if split > 0 {
        jobs := jobs + [Job(id, seg.entries[..split])];
        if split == |seg.entries| {
          bufs := bufs - {id};
        } else {
          var rawLen := RawLen(seg.entries[split..]);
          bufs := bufs[id := Segment(seg.entries[split..], seg.firstAdd, seg.lastSeq, rawLen)];
        }
      }
    }

    method RawLen(entries: seq<OutEntry>) returns (rawLen: nat)
      ensures rawLen == |WrittenBytes(entries)|
    {
      rawLen := 0;
      for i := 0 to |entries|
        invariant rawLen == |WrittenBytes(entries[..i])|
      {
        WrittenBytesStep(entries, i);
        rawLen := rawLen + |entries[i].data|;
      }
      assert entries[..|entries|] == entries;
    }

    /** Drops every buffered entry without sending. */
    method Reset()
      requires Valid()
      modifies this`bufs
      ensures Valid() && bufs == map[]
    {
      bufs := map[];
    }
  }

  lemma {:induction false} NothingPacked(marshal: Marshal)
    ensures JobsIn([]) == [] && AllPacked(marshal, [])
  {
  }

  lemma {:induction false} PackedStep(marshal: Marshal, batches: seq<Batch>, batch: Batch, jobs: seq<Job>, i: nat)
    requires i < |jobs| && JobsIn(batches) == jobs[..i] && AllPacked(marshal, batches)
    requires batch.job == jobs[i] && Packs(marshal, jobs[i].id, jobs[i].entries, batch.msgs)
    ensures JobsIn(batches + [batch]) == jobs[..i + 1] && AllPacked(marshal, batches + [batch])
  {
    hide Packs;
  }

  lemma {:induction false} SubsetValid(segs: Segments, segs': Segments)
    requires ValidSegments(segs)
    requires forall id :: id in segs' ==> id in segs && segs'[id] == segs[id]
    ensures ValidSegments(segs')
  {
  }

  lemma {:induction false} WholeJobs(segs: Segments, taken: set<string>, jobs: seq<Job>)
    requires ValidSegments(segs) && taken <= segs.Keys
    requires forall i :: 0 <= i < |jobs| ==> jobs[i].id in taken && jobs[i].entries == segs[jobs[i].id].entries
    requires forall i, j :: 0 <= i < j < |jobs| ==> jobs[i].id != jobs[j].id
    requires forall id :: id in taken ==> exists i :: 0 <= i < |jobs| && jobs[i].id == id
    ensures JobsOf(segs, WholeCutOf(segs, taken), jobs)
  {
    var cut := WholeCutOf(segs, taken);
    forall i | 0 <= i < |jobs| ensures cut[jobs[i].id] > 0 &&
      jobs[i].entries == segs[jobs[i].id].entries[..cut[jobs[i].id]] {
      assert ValidSegment(segs[jobs[i].id]);
    }
    forall id | id in segs && cut[id] > 0 ensures exists i :: 0 <= i < |jobs| && jobs[i].id == id {
      assert id in taken;
    }
  }

  lemma {:induction false} WholeRemainder(segs: Segments, taken: set<string>)
    requires ValidSegments(segs) && taken <= segs.Keys
    ensures CutOf(segs, WholeCutOf(segs, taken))
    ensures Remainder(segs, WholeCutOf(segs, taken)) == segs - taken
  {
    assert forall id :: id in segs ==> ValidSegment(segs[id]);
  }

  lemma {:induction false} JobsNonEmpty(segs: Segments, cut: Cut, jobs: seq<Job>)
    requires ValidSegments(segs) && CutOf(segs, cut) && JobsOf(segs, cut, jobs)
    ensures forall i :: 0 <= i < |jobs| ==> NonEmptyWrites(jobs[i].entries)
  {
    forall i | 0 <= i < |jobs| ensures NonEmptyWrites(jobs[i].entries) {
      assert ValidSegment(segs[jobs[i].id]);
    }
  }

  /** The sessions outside `rest` have had their covered entries detached. */
  ghost predicate SealedSoFar(segs: Segments, cut: Cut, rest: set<string>, segs': Segments)
    requires CutOf(segs, cut)
  {
    && (forall id :: id in segs' ==> id in segs)
    && (forall id :: id in segs && id in rest ==> id in segs' && segs'[id] == segs[id])
    && (forall id :: id in segs && id !in rest ==> (id in segs' <==> cut[id] < |segs[id].entries|))
    && (forall id :: id in segs' && id !in rest ==> segs'[id] == Dropped(segs[id], cut[id]))
  }

  lemma SealCutAt(segs: Segments, h: nat, id: string)
    requires id in segs
    ensures id in SealCut(segs, h) && SealCut(segs, h)[id] == SealPoint(segs[id].entries, h)
  {
  }

  lemma SealIsCut(segs: Segments, h: nat)
    ensures CutOf(segs, SealCut(segs, h))
  {
    hide SealPoint;
  }

  lemma {:induction false} NoneSealed(segs: Segments, cut: Cut)
    requires CutOf(segs, cut)
    ensures SealedSoFar(segs, cut, segs.Keys, segs) && JobsSoFar(segs, cut, segs.Keys, [])
  {
  }

  lemma SegmentIsNotEmpty(segs: Segments, id: string)
    requires ValidSegments(segs) && id in segs
    ensures |segs[id].entries| > 0
  {
    assert ValidSegment(segs[id]);
  }

  lemma {:induction false} SealedSoFarStep(segs: Segments, cut: Cut, rest: set<string>, segs': Segments, id: string)
    requires ValidSegments(segs) && CutOf(segs, cut) && SealedSoFar(segs, cut, rest, segs') && id in rest && id in segs
    ensures id in segs' && segs'[id] == segs[id]
    ensures SealedSoFar(segs, cut, rest - {id},
                        if cut[id] == 0 then segs' else if cut[id] == |segs[id].entries| then segs' - {id}
                        else segs'[id := Dropped(segs[id], cut[id])])
  {
    hide ValidSegments, WrittenBytes;
    SegmentIsNotEmpty(segs, id);
  }

  ghost predicate JobsSoFar(segs: Segments, cut: Cut, rest: set<string>, jobs: seq<Job>)
    requires CutOf(segs, cut)
  {
    && (forall i :: 0 <= i < |jobs| ==>
          && jobs[i].id in segs && jobs[i].id !in rest && cut[jobs[i].id] > 0
          && jobs[i].entries == segs[jobs[i].id].entries[..cut[jobs[i].id]])
    && (forall i, j :: 0 <= i < j < |jobs| ==> jobs[i].id != jobs[j].id)
    && (forall id :: id in segs && id !in rest && cut[id] > 0 ==> exists i :: 0 <= i < |jobs| && jobs[i].id == id)
  }

  lemma {:induction false} JobsSoFarStep(segs: Segments, cut: Cut, rest: set<string>, jobs: seq<Job>, id: string)
    requires CutOf(segs, cut) && JobsSoFar(segs, cut, rest, jobs) && id in rest && id in segs
    ensures JobsSoFar(segs, cut, rest - {id},
                      if cut[id] == 0 then jobs else jobs + [Job(id, segs[id].entries[..cut[id]])])
  {
    var jobs' := if cut[id] == 0 then jobs else jobs + [Job(id, segs[id].entries[..cut[id]])];
    assert forall i :: 0 <= i < |jobs| ==> jobs'[i] == jobs[i];
    assert cut[id] > 0 ==> jobs'[|jobs|].id == id;
  }

  lemma {:induction false} AllSealed(segs: Segments, cut: Cut, segs': Segments, jobs: seq<Job>)
    requires CutOf(segs, cut) && SealedSoFar(segs, cut, {}, segs') && JobsSoFar(segs, cut, {}, jobs)
    ensures segs' == Remainder(segs, cut) && JobsOf(segs, cut, jobs)
  {
    hide *;
    AllCut(segs, cut, segs');
    AllListed(segs, cut, jobs);
  }

  lemma {:induction false} AllCut(segs: Segments, cut: Cut, segs': Segments)
    requires CutOf(segs, cut) && SealedSoFar(segs, cut, {}, segs')
    ensures segs' == Remainder(segs, cut)
  {
    hide Dropped;
  }

  lemma {:induction false} AllListed(segs: Segments, cut: Cut, jobs: seq<Job>)
    requires CutOf(segs, cut) && JobsSoFar(segs, cut, {}, jobs)
    ensures JobsOf(segs, cut, jobs)
  {
  }
}
