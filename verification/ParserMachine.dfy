/** The parser as a state machine over single codes, and what its run-ahead loops make of it. */
module ParserMachine {
  import opened ParserTable
  import opened ParserParams

  /** What the parser tells its handlers. A handler that receives a run of codes is modelled by
      one event for each code. */
  datatype Event =
    | Printed(code: nat)
    | Executed(code: nat)
    | Faulted(code: nat, state: State)
    | CsiCalled(ident: nat, values: seq<int>, subs: seq<seq<int>>)
    | EscCalled(ident: nat)
    | DcsHooked(ident: nat, values: seq<int>, subs: seq<seq<int>>)
    | DcsData(code: nat)
    | DcsUnhooked(success: bool)
    | OscStarted
    | OscData(code: nat)
    | OscEnded(success: bool)
    | ApcStarted
    | ApcData(code: nat)
    | ApcEnded(success: bool)

  datatype Machine = Machine(state: State, collect: nat, params: ParamList)

  datatype Outcome<M> = Outcome(to: M, events: seq<Event>)

  const COLLECT_SPAN := 0x1_0000_0000_0000_0000

  /** One more identifier byte in a 64-bit word. */
  function Collected(collect: nat, code: nat): nat {
    (collect * 256 + code) % COLLECT_SPAN
  }

  const CLEARED := AddParam(NO_PARAMS, 0)

  function AfterParam(p: ParamList, code: nat): ParamList {
    if code == 0x3b then AddParam(p, 0)
    else if code == 0x3a then AddSubParam(p, -1)
    else AddDigit(p, code - 48)
  }

  function Looked(s: State, code: nat): Transition {
    Vt500(s, if code < NON_ASCII_PRINTABLE then code else NON_ASCII_PRINTABLE)
  }

  predicate Succeeds(code: nat) {
    code != 0x18 && code != 0x1a
  }

  function AfterString(code: nat, next: State): Machine {
    Machine(if code == 0x1b then Escape else next, 0, CLEARED)
  }

  /** One code through the transition table. */
  function Step(m: Machine, code: nat): Outcome<Machine> {
    var t := Looked(m.state, code);
    var moved := m.(state := t.next);
    match t.action
    case Ignore => Outcome(moved, [])
    case Error => Outcome(moved, [Faulted(code, m.state)])
    case Print => Outcome(moved, [Printed(code)])
    case Execute => Outcome(moved, [Executed(code)])
    case OscStart => Outcome(moved, [OscStarted])
    case OscPut => Outcome(moved, [OscData(code)])
    case OscEnd => Outcome(AfterString(code, t.next), [OscEnded(Succeeds(code))])
    case CsiDispatch => Outcome(moved, [CsiCalled(Collected(m.collect, code), m.params.values, m.params.subs)])
    case Param => Outcome(moved.(params := AfterParam(m.params, code)), [])
    case Collect => Outcome(moved.(collect := Collected(m.collect, code)), [])
    case EscDispatch => Outcome(moved, [EscCalled(Collected(m.collect, code))])
    case Clear => Outcome(moved.(params := CLEARED, collect := 0), [])
    case DcsHook => Outcome(moved, [DcsHooked(Collected(m.collect, code), m.params.values, m.params.subs)])
    case DcsPut => Outcome(moved, [DcsData(code)])
    case DcsUnhook => Outcome(AfterString(code, t.next), [DcsUnhooked(Succeeds(code))])
    case ApcStart => Outcome(moved, [ApcStarted])
    case ApcPut => Outcome(moved, [ApcData(code)])
    case ApcEnd => Outcome(AfterString(code, t.next), [ApcEnded(Succeeds(code))])
  }

  /** All codes, one at a time. */
  function Feed(m: Machine, data: seq<nat>): Outcome<Machine> {
    if data == [] then Outcome(m, [])
    else
      var before := Feed(m, data[..|data| - 1]);
      var after := Step(before.to, data[|data| - 1]);
      Outcome(after.to, before.events + after.events)
  }

  lemma {:induction false} FeedAppend(m: Machine, a: seq<nat>, b: seq<nat>)
    ensures Feed(m, a + b) ==
            Outcome(Feed(Feed(m, a).to, b).to, Feed(m, a).events + Feed(Feed(m, a).to, b).events)
  {
    hide Step;
    if b == [] {
      assert a + b == a;
    } else {
      var front := b[..|b| - 1];
      assert (a + b)[..|a + b| - 1] == a + front;
      FeedAppend(m, a, front);
    }
  }

  lemma {:induction false} FeedOne(m: Machine, code: nat)
    ensures Feed(m, [code]) == Step(m, code)
  {
    hide Step;
    assert [code][..0] == [];
    assert Feed(m, []) == Outcome(m, []);
  }

  // ---- run-ahead ----

  /** The machine, and whether the running call has already handed over payload of the open string. */
  datatype Ahead = Ahead(m: Machine, inPut: bool)

  /** The codes at which the run-ahead loops stop. */
  predicate StopsPut(code: nat) {
    code == 0x18 || code == 0x1a || code == 0x1b || 0x7f < code < NON_ASCII_PRINTABLE
  }

  predicate RunsOn(a: Ahead, code: nat) {
    a.inPut && (a.m.state == DcsPassthrough || a.m.state == ApcString) && !StopsPut(code)
  }

  predicate IsPut(action: Action) {
    action == DcsPut || action == ApcPut
  }

  function StepAhead(a: Ahead, code: nat): Outcome<Ahead> {
    if RunsOn(a, code) then Outcome(a, [if a.m.state == DcsPassthrough then DcsData(code) else ApcData(code)])
    else
      var o := Step(a.m, code);
      Outcome(Ahead(o.to, IsPut(Looked(a.m.state, code).action)), o.events)
  }

  function Run(a: Ahead, data: seq<nat>): Outcome<Ahead> {
    if data == [] then Outcome(a, [])
    else
      var before := Run(a, data[..|data| - 1]);
      var after := StepAhead(before.to, data[|data| - 1]);
      Outcome(after.to, before.events + after.events)
  }

  lemma {:induction false} RunAppend(a: Ahead, x: seq<nat>, y: seq<nat>)
    ensures Run(a, x + y) ==
            Outcome(Run(Run(a, x).to, y).to, Run(a, x).events + Run(Run(a, x).to, y).events)
  {
    hide StepAhead;
    if y == [] {
      assert x + y == x;
    } else {
      var front := y[..|y| - 1];
      assert (x + y)[..|x + y| - 1] == x + front;
      RunAppend(a, x, front);
    }
  }

  lemma {:induction false} RunOne(a: Ahead, code: nat)
    ensures Run(a, [code]) == StepAhead(a, code)
  {
    hide StepAhead;
    assert [code][..0] == [];
    assert Run(a, []) == Outcome(a, []);
  }

  // ---- the two agree ----

  /** Payload the table would have dropped: DEL inside a device control string, DEL and control
      codes inside an application string. */
  predicate Stray(e: Event) {
    || (e.DcsData? && e.code == 0x7f)
    || (e.ApcData? && (e.code == 0x7f || Executable(e.code)))
  }

  function Cleaned(events: seq<Event>): seq<Event> {
    if events == [] then []
    else
      var last := events[|events| - 1];
      Cleaned(events[..|events| - 1]) + if Stray(last) then [] else [last]
  }

  lemma {:induction false} CleanedAppend(a: seq<Event>, b: seq<Event>)
    ensures Cleaned(a + b) == Cleaned(a) + Cleaned(b)
  {
    hide Stray;
    if b == [] {
      assert a + b == a;
    } else {
      assert (a + b)[..|a + b| - 1] == a + b[..|b| - 1];
      CleanedAppend(a, b[..|b| - 1]);
    }
  }

  lemma {:induction false} CleanedIsShorter(events: seq<Event>)
    ensures |Cleaned(events)| <= |events|
    ensures Cleaned(events) == events <==> forall e :: e in events ==> !Stray(e)
  {
    hide Stray;
    if events != [] {
      var last := events[|events| - 1];
      var front := events[..|events| - 1];
      CleanedIsShorter(front);
      assert events == front + [last];
      if Cleaned(events) == events {
        assert |Cleaned(front)| == |front|;
        assert Cleaned(front) == Cleaned(events)[..|front|];
      }
    }
  }

  lemma {:induction false} CleanedOne(e: Event)
    ensures Cleaned([e]) == if Stray(e) then [] else [e]
  {
    hide Stray;
    assert [e][..0] == [];
    assert Cleaned([]) == [];
  }

  lemma {:induction false} StepNeverStrays(m: Machine, code: nat)
    ensures |Step(m, code).events| <= 1
    ensures forall e :: e in Step(m, code).events ==> !Stray(e)
  {
  }

  lemma {:induction false} StepAheadAgrees(a: Ahead, code: nat)
    ensures StepAhead(a, code).to.m == Step(a.m, code).to
    ensures Cleaned(StepAhead(a, code).events) == Step(a.m, code).events
  {
    if RunsOn(a, code) {
      RunOnAgrees(a, code);
    } else {
      hide Step, Stray, RunsOn;
      StepNeverStrays(a.m, code);
      CleanedIsShorter(Step(a.m, code).events);
    }
  }

  lemma {:induction false} RunOnAgrees(a: Ahead, code: nat)
    requires RunsOn(a, code)
    ensures StepAhead(a, code).to.m == Step(a.m, code).to
    ensures Cleaned(StepAhead(a, code).events) == Step(a.m, code).events
  {
    CleanedOne(DcsData(code));
    CleanedOne(ApcData(code));
  }

  /** Whatever the input, running ahead leads to the same machine, and its events are those of the
      table with the stray payload codes put in. */
  lemma {:induction false} RunAheadRefinesTable(a: Ahead, data: seq<nat>)
    ensures Run(a, data).to.m == Feed(a.m, data).to
    ensures Cleaned(Run(a, data).events) == Feed(a.m, data).events
  {
    hide Step, StepAhead, Stray;
    if data == [] {
    } else {
      var front, last := data[..|data| - 1], data[|data| - 1];
      RunAheadRefinesTable(a, front);
      StepAheadAgrees(Run(a, front).to, last);
      CleanedAppend(Run(a, front).events, StepAhead(Run(a, front).to, last).events);
    }
  }

  /** Code `i` is handed over as payload although the table drops it there. */
  ghost predicate Swallowed(a: Ahead, data: seq<nat>, i: nat)
    requires i < |data|
  {
    var before := Run(a, data[..i]).to;
    && RunsOn(before, data[i])
    && (data[i] == 0x7f || (before.m.state == ApcString && Executable(data[i])))
  }

  lemma {:induction false} StepAheadStrays(a: Ahead, code: nat)
    ensures (exists e :: e in StepAhead(a, code).events && Stray(e))
      <==> RunsOn(a, code) && (code == 0x7f || (a.m.state == ApcString && Executable(code)))
  {
    if RunsOn(a, code) {
      var e := if a.m.state == DcsPassthrough then DcsData(code) else ApcData(code);
      assert StepAhead(a, code).events == [e];
      assert e in StepAhead(a, code).events;
    } else {
      hide Step, Stray, RunsOn;
      StepNeverStrays(a.m, code);
    }
  }

  lemma {:induction false} StraysAreSwallowed(a: Ahead, data: seq<nat>)
    ensures (exists e :: e in Run(a, data).events && Stray(e)) <==>
            (exists i: nat :: i < |data| && Swallowed(a, data, i))
  {
    hide Step, StepAhead, Stray, RunsOn;
    if data != [] {
      var n := |data| - 1;
      var front := data[..n];
      StraysAreSwallowed(a, front);
      StepAheadStrays(Run(a, front).to, data[n]);
      forall i: nat | i < n
        ensures Swallowed(a, data, i) <==> Swallowed(a, front, i)
      {
        assert data[..i] == front[..i];
      }
      assert Swallowed(a, data, n) <==> exists e :: e in StepAhead(Run(a, front).to, data[n]).events && Stray(e);
    }
  }

  /** The two traces are equal exactly if no code was swallowed; text without DEL and without the
      control codes that an application string drops never has one. */
  lemma {:induction false} TracesAgree(a: Ahead, data: seq<nat>)
    ensures Run(a, data).events == Feed(a.m, data).events <==> !(exists i: nat :: i < |data| && Swallowed(a, data, i))
    ensures (forall c :: c in data ==> c != 0x7f && !Executable(c)) ==> Run(a, data).events == Feed(a.m, data).events
  {
    hide Step, StepAhead, Stray, RunsOn;
    RunAheadRefinesTable(a, data);
    CleanedIsShorter(Run(a, data).events);
    StraysAreSwallowed(a, data);
    if forall c :: c in data ==> c != 0x7f && !Executable(c) {
      forall i: nat | i < |data|
        ensures !Swallowed(a, data, i)
      {
        assert data[i] in data;
      }
    }
  }

  // ---- the condition over the table and the codes ----

  /** In front of code `i` the table has put payload, and no code since ends the run-ahead. */
  ghost predicate PutBefore(m: Machine, data: seq<nat>, i: nat)
    requires i <= |data|
  {
    exists j: nat :: j < i && PutsAt(m, data, j) && NoStopBetween(data, j, i)
  }

  predicate PutsAt(m: Machine, data: seq<nat>, j: nat)
    requires j < |data|
  {
    IsPut(Looked(Feed(m, data[..j]).to.state, data[j]).action)
  }

  ghost predicate NoStopBetween(data: seq<nat>, j: nat, i: nat)
    requires i <= |data|
  {
    forall k :: j < k < i ==> !StopsPut(data[k])
  }

  /** A string drops the code: DEL, and in an application string the control codes. */
  predicate Drops(state: State, code: nat) {
    || (state == DcsPassthrough && code == 0x7f)
    || (state == ApcString && (code == 0x7f || Executable(code)))
  }

  /** The table drops code `i`, but it comes behind payload, and it does not end the run-ahead. */
  ghost predicate DroppedBehindPut(m: Machine, data: seq<nat>, i: nat)
    requires i < |data|
  {
    PutBefore(m, data, i) && Drops(Feed(m, data[..i]).to.state, data[i]) && !StopsPut(data[i])
  }

  ghost predicate DropsBehindPut(m: Machine, data: seq<nat>) {
    exists i: nat :: i < |data| && DroppedBehindPut(m, data, i)
  }

  predicate InString(state: State) {
    state == DcsPassthrough || state == ApcString
  }

  lemma PutStaysInString(state: State, code: nat)
    ensures IsPut(Looked(state, code).action) ==> InString(Looked(state, code).next)
  {
  }

  lemma StepState(m: Machine, code: nat)
    ensures IsPut(Looked(m.state, code).action) ==> Step(m, code).to.state == Looked(m.state, code).next
  {
  }

  /** One call runs ahead exactly where payload has been put and nothing has ended it. */
  lemma {:induction false} InPutIs(m: Machine, data: seq<nat>)
    ensures Run(Ahead(m, false), data).to.m == Feed(m, data).to
    ensures Run(Ahead(m, false), data).to.inPut <==> PutBefore(m, data, |data|)
    ensures PutBefore(m, data, |data|) ==> InString(Feed(m, data).to.state)
    decreases |data|
  {
    hide Step, Looked, StopsPut, IsPut;
    RunAheadRefinesTable(Ahead(m, false), data);
    if data != [] {
      var n := |data| - 1;
      var front, code := data[..n], data[n];
      InPutIs(m, front);
      PutStaysInString(Feed(m, front).to.state, code);
      StepState(Feed(m, front).to, code);
      PutGoesOn(m, data);
      RunOnStays(Run(Ahead(m, false), front).to, code);
    }
  }

  lemma RunOnStays(a: Ahead, code: nat)
    ensures StepAhead(a, code).to.inPut == (RunsOn(a, code) || IsPut(Looked(a.m.state, code).action))
    ensures RunsOn(a, code) ==> StepAhead(a, code).to.m == a.m
  {
    hide Looked, StopsPut, Step;
  }

  lemma {:induction false} PutGoesOn(m: Machine, data: seq<nat>)
    requires data != []
    ensures var n := |data| - 1;
            PutBefore(m, data, |data|) <==> PutsAt(m, data, n) || (PutBefore(m, data[..n], n) && !StopsPut(data[n]))
  {
    hide Feed, Looked, StopsPut, IsPut;
    var n := |data| - 1;
    var front := data[..n];
    forall j: nat | j < n
      ensures PutsAt(m, front, j) == PutsAt(m, data, j)
      ensures NoStopBetween(data, j, n + 1) <==> NoStopBetween(front, j, n) && !StopsPut(data[n])
    {
      assert front[..j] == data[..j];
    }
    if PutsAt(m, data, n) {
      assert NoStopBetween(data, n, n + 1);
    }
    if PutBefore(m, front, n) && !StopsPut(data[n]) {
      var j: nat :| j < n && PutsAt(m, front, j) && NoStopBetween(front, j, n);
      assert PutsAt(m, data, j) && NoStopBetween(data, j, n + 1);
    }
  }

  lemma {:induction false} SwallowedIs(m: Machine, data: seq<nat>, i: nat)
    requires i < |data|
    ensures Swallowed(Ahead(m, false), data, i) <==> DroppedBehindPut(m, data, i)
  {
    hide Run, Feed, Looked, StopsPut, IsPut, NoStopBetween;
    InPutIs(m, data[..i]);
    PutInFront(m, data, i, i);
  }

  /** Only the codes in front matter. */
  lemma {:induction false} PutInFront(m: Machine, data: seq<nat>, n: nat, i: nat)
    requires i <= n <= |data|
    ensures PutBefore(m, data[..n], i) <==> PutBefore(m, data, i)
  {
    hide Feed, Looked, StopsPut, IsPut;
    forall j: nat | j < i
      ensures PutsAt(m, data[..n], j) == PutsAt(m, data, j)
      ensures NoStopBetween(data[..n], j, i) == NoStopBetween(data, j, i)
    {
      assert data[..n][..j] == data[..j];
    }
  }

  /** One call has the events of the table exactly if the table drops nothing behind payload. */
  lemma {:induction false} OneCallAgrees(m: Machine, data: seq<nat>)
    ensures Run(Ahead(m, false), data).events == Feed(m, data).events <==> !DropsBehindPut(m, data)
  {
    hide Run, Feed, Swallowed, DroppedBehindPut;
    TracesAgree(Ahead(m, false), data);
    forall i: nat | i < |data|
      ensures Swallowed(Ahead(m, false), data, i) <==> DroppedBehindPut(m, data, i)
    {
      SwallowedIs(m, data, i);
    }
  }

  /** DEL inside a device control string: the table drops it, one call hands it over, two calls may not. */
  lemma TracesCanDiffer()
    ensures var m := Machine(DcsPassthrough, 0, CLEARED);
            && Run(Ahead(m, false), [0x41, 0x7f]).events == [DcsData(0x41), DcsData(0x7f)]
            && Feed(m, [0x41, 0x7f]).events == [DcsData(0x41)]
            && Run(Ahead(Run(Ahead(m, false), [0x41]).to.m, false), [0x7f]).events == []
  {
    hide *;
    var m := Machine(DcsPassthrough, 0, CLEARED);
    PayloadCodes(m);
    RunOne(Ahead(m, false), 0x41);
    RunOne(Ahead(m, true), 0x7f);
    RunOne(Ahead(m, false), 0x7f);
    FeedOne(m, 0x41);
    FeedOne(m, 0x7f);
    assert [0x41, 0x7f] == [0x41] + [0x7f];
    RunAppend(Ahead(m, false), [0x41], [0x7f]);
    FeedAppend(m, [0x41], [0x7f]);
  }

  lemma PayloadCodes(m: Machine)
    requires m.state == DcsPassthrough
    ensures Step(m, 0x41) == Outcome(m, [DcsData(0x41)]) && Step(m, 0x7f) == Outcome(m, [])
    ensures StepAhead(Ahead(m, false), 0x41) == Outcome(Ahead(m, true), [DcsData(0x41)])
    ensures StepAhead(Ahead(m, true), 0x7f) == Outcome(Ahead(m, true), [DcsData(0x7f)])
    ensures StepAhead(Ahead(m, false), 0x7f) == Outcome(Ahead(m, false), [])
  {
  }

  // ---- chunks ----

  function Concat(chunks: seq<seq<nat>>): seq<nat> {
    if chunks == [] then [] else Concat(chunks[..|chunks| - 1]) + chunks[|chunks| - 1]
  }

  /** One call of the parser for each chunk. */
  function RunChunks(m: Machine, chunks: seq<seq<nat>>): Outcome<Machine> {
    if chunks == [] then Outcome(m, [])
    else
      var before := RunChunks(m, chunks[..|chunks| - 1]);
      var after := Run(Ahead(before.to, false), chunks[|chunks| - 1]);
      Outcome(after.to.m, before.events + after.events)
  }

  /** However the input is cut, the calls end in the machine of the whole input, with its events
      but for stray payload codes. */
  lemma {:induction false} ChunksDoNotMatter(m: Machine, chunks: seq<seq<nat>>)
    ensures RunChunks(m, chunks).to == Feed(m, Concat(chunks)).to
    ensures Cleaned(RunChunks(m, chunks).events) == Feed(m, Concat(chunks)).events
    ensures (forall c :: c in Concat(chunks) ==> c != 0x7f && !Executable(c)) ==>
              RunChunks(m, chunks).events == Feed(m, Concat(chunks)).events
  {
    hide *;
    if chunks == [] {
      NoChunks(m);
    } else {
      var front, last := chunks[..|chunks| - 1], chunks[|chunks| - 1];
      ChunksDoNotMatter(m, front);
      ChunksUnfold(m, chunks);
      var before := RunChunks(m, front);
      var a := Ahead(before.to, false);
      RunAheadRefinesTable(a, last);
      TracesAgree(a, last);
      CleanedAppend(before.events, Run(a, last).events);
      FeedAppend(m, Concat(front), last);
      assert forall c :: c in last || c in Concat(front) ==> c in Concat(chunks);
    }
  }

  /** In no chunk the table drops anything behind payload of that chunk. */
  ghost predicate ChunksDropNothing(m: Machine, chunks: seq<seq<nat>>) {
    forall k :: 0 <= k < |chunks| ==> !DropsBehindPut(Feed(m, Concat(chunks[..k])).to, chunks[k])
  }

  lemma ChunksDropUnfold(m: Machine, chunks: seq<seq<nat>>)
    requires chunks != []
    ensures var front, last := chunks[..|chunks| - 1], chunks[|chunks| - 1];
            ChunksDropNothing(m, chunks) <==>
              ChunksDropNothing(m, front) && !DropsBehindPut(Feed(m, Concat(front)).to, last)
  {
    hide Feed, Concat, DropsBehindPut;
    var front, last := chunks[..|chunks| - 1], chunks[|chunks| - 1];
    forall k | 0 <= k < |front|
      ensures front[..k] == chunks[..k] && front[k] == chunks[k]
    {
    }
  }

  /** The calls have the events of the table exactly if no chunk has such a code. */
  lemma {:induction false} ChunksAgreeExactly(m: Machine, chunks: seq<seq<nat>>)
    ensures RunChunks(m, chunks).events == Feed(m, Concat(chunks)).events <==> ChunksDropNothing(m, chunks)
  {
    hide *;
    if chunks == [] {
      NoChunks(m);
      NothingDropped(m);
    } else {
      var front, last := chunks[..|chunks| - 1], chunks[|chunks| - 1];
      ChunksAgreeExactly(m, front);
      ChunksDoNotMatter(m, front);
      ChunksDropUnfold(m, chunks);
      ChunksUnfold(m, chunks);
      FeedAppend(m, Concat(front), last);
      OneCallAgrees(RunChunks(m, front).to, last);
      ChunksDoNotMatter(m, chunks);
      CleanedIsShorter(RunChunks(m, front).events);
      CleanedIsShorter(Run(Ahead(RunChunks(m, front).to, false), last).events);
      RunAheadRefinesTable(Ahead(RunChunks(m, front).to, false), last);
      BothOrNone(RunChunks(m, front).events, Run(Ahead(RunChunks(m, front).to, false), last).events,
                 Feed(m, Concat(front)).events, Feed(Feed(m, Concat(front)).to, last).events);
    }
  }

  lemma NothingDropped(m: Machine)
    ensures ChunksDropNothing(m, [])
  {
  }

  lemma BothOrNone<T>(a: seq<T>, b: seq<T>, c: seq<T>, d: seq<T>)
    requires |a| >= |c| && |b| >= |d|
    ensures a + b == c + d <==> a == c && b == d
  {
    if a + b == c + d {
      assert |a| == |c|;
      assert a == (a + b)[..|a|] && b == (a + b)[|a|..];
      assert c == (c + d)[..|c|] && d == (c + d)[|c|..];
    }
  }

  /** What is dropped behind payload in a chunk is so in the whole input. */
  lemma {:induction false} DroppedInWhole(m: Machine, front: seq<nat>, last: seq<nat>)
    requires DropsBehindPut(m, front) || DropsBehindPut(Feed(m, front).to, last)
    ensures DropsBehindPut(m, front + last)
  {
    hide Feed, Looked, StopsPut, IsPut, Drops, NoStopBetween;
    var data := front + last;
    if DropsBehindPut(m, front) {
      var i: nat :| i < |front| && DroppedBehindPut(m, front, i);
      assert data[..|front|] == front && front[..i] == data[..i];
      PutInFront(m, data, |front|, i);
      assert DroppedBehindPut(m, data, i);
    } else {
      var m' := Feed(m, front).to;
      var i: nat :| i < |last| && DroppedBehindPut(m', last, i);
      var j: nat :| j < i && PutsAt(m', last, j) && NoStopBetween(last, j, i);
      FeedInto(m, front, last, j);
      FeedInto(m, front, last, i);
      NoStopShifted(front, last, j, i);
      assert PutsAt(m, data, |front| + j);
      assert DroppedBehindPut(m, data, |front| + i);
    }
  }

  lemma FeedInto(m: Machine, front: seq<nat>, last: seq<nat>, i: nat)
    requires i < |last|
    ensures Feed(m, (front + last)[..|front| + i]).to == Feed(Feed(m, front).to, last[..i]).to
    ensures (front + last)[|front| + i] == last[i]
  {
    hide Feed;
    assert (front + last)[..|front| + i] == front + last[..i];
    FeedAppend(m, front, last[..i]);
  }

  lemma NoStopShifted(front: seq<nat>, last: seq<nat>, j: nat, i: nat)
    requires i <= |last| && NoStopBetween(last, j, i)
    ensures NoStopBetween(front + last, |front| + j, |front| + i)
  {
    hide StopsPut;
    forall k | |front| + j < k < |front| + i
      ensures !StopsPut((front + last)[k])
    {
      assert (front + last)[k] == last[k - |front|];
    }
  }

  lemma {:induction false} DroppedInSome(m: Machine, chunks: seq<seq<nat>>)
    requires !ChunksDropNothing(m, chunks)
    ensures DropsBehindPut(m, Concat(chunks))
  {
    hide *;
    if chunks == [] {
      NothingDropped(m);
    } else {
      ChunksDropUnfold(m, chunks);
      ChunksUnfold(m, chunks);
      var front, last := chunks[..|chunks| - 1], chunks[|chunks| - 1];
      if !ChunksDropNothing(m, front) {
        DroppedInSome(m, front);
      }
      DroppedInWhole(m, Concat(front), last);
    }
  }

  /** The events are those of the table however the input is cut exactly if the table drops nothing
      behind payload; then it does not matter where it is cut. */
  lemma {:induction false} CutsDoNotMatterExactly(m: Machine, data: seq<nat>)
    ensures (forall chunks :: Concat(chunks) == data ==> RunChunks(m, chunks).events == Feed(m, data).events) <==>
            !DropsBehindPut(m, data)
  {
    hide *;
    if DropsBehindPut(m, data) {
      OneChunk(m, data);
      OneCallAgrees(m, data);
    } else {
      forall chunks | Concat(chunks) == data
        ensures RunChunks(m, chunks).events == Feed(m, data).events
      {
        ChunksAgreeExactly(m, chunks);
        if !ChunksDropNothing(m, chunks) {
          DroppedInSome(m, chunks);
        }
      }
    }
  }

  /** Two ways of cutting the input tell apart exactly then. */
  lemma {:induction false} CutsMatterExactly(m: Machine, data: seq<nat>)
    ensures (exists x, y :: Concat(x) == data && Concat(y) == data && RunChunks(m, x).events != RunChunks(m, y).events)
            <==> DropsBehindPut(m, data)
  {
    hide *;
    CutsDoNotMatterExactly(m, data);
    if DropsBehindPut(m, data) {
      OneChunk(m, data);
      OneCallAgrees(m, data);
      OneCodeEach(m, data);
      assert RunChunks(m, [data]).events != RunChunks(m, Singles(data)).events;
    }
  }

  /** A call for each code. */
  function Singles(data: seq<nat>): seq<seq<nat>> {
    if data == [] then [] else Singles(data[..|data| - 1]) + [[data[|data| - 1]]]
  }

  lemma {:induction false} OneCodeEach(m: Machine, data: seq<nat>)
    ensures Concat(Singles(data)) == data && RunChunks(m, Singles(data)).events == Feed(m, data).events
    decreases |data|
  {
    hide Run, Feed, DropsBehindPut, RunChunks;
    SinglesJoin(data);
    forall k | 0 <= k < |Singles(data)|
      ensures !DropsBehindPut(Feed(m, Concat(Singles(data)[..k])).to, Singles(data)[k])
    {
      OneCodeDropsNothing(Feed(m, Concat(Singles(data)[..k])).to, Singles(data)[k]);
    }
    ChunksAgreeExactly(m, Singles(data));
  }

  lemma {:induction false} SinglesJoin(data: seq<nat>)
    ensures Concat(Singles(data)) == data && forall k :: 0 <= k < |Singles(data)| ==> |Singles(data)[k]| == 1
  {
    if data != [] {
      SinglesJoin(data[..|data| - 1]);
      assert Singles(data)[..|Singles(data)| - 1] == Singles(data[..|data| - 1]);
    }
  }

  lemma OneCodeDropsNothing(m: Machine, data: seq<nat>)
    requires |data| == 1
    ensures !DropsBehindPut(m, data)
  {
    hide Feed, PutsAt, Drops;
  }

  lemma {:induction false} OneChunk(m: Machine, data: seq<nat>)
    ensures Concat([data]) == data && RunChunks(m, [data]).events == Run(Ahead(m, false), data).events
  {
    hide Run;
    assert [data][..0] == [];
    assert Concat([]) == [] && RunChunks(m, []) == Outcome(m, []);
  }

  lemma ChunksUnfold(m: Machine, chunks: seq<seq<nat>>)
    requires chunks != []
    ensures var front, last := chunks[..|chunks| - 1], chunks[|chunks| - 1];
            var before := RunChunks(m, front);
            var after := Run(Ahead(before.to, false), last);
            && RunChunks(m, chunks) == Outcome(after.to.m, before.events + after.events)
            && Concat(chunks) == Concat(front) + last
  {
    hide Run;
  }

  lemma NoChunks(m: Machine)
    ensures RunChunks(m, []) == Outcome(m, [])
    ensures Feed(m, Concat([])) == Outcome(m, [])
    ensures Cleaned([]) == []
  {
  }
}
