/** The parser as the program runs it: one loop over the input, with inner loops that run ahead. */
module Parser {
  import opened ParserTable
  import opened ParserParams
  import opened ParserMachine

  // ---- what the inner loops may skip over ----

  predicate RunsPrint(code: nat) {
    !(code < 0x20 || 0x7e < code < NON_ASCII_PRINTABLE)
  }

  predicate RunsOsc(code: nat) {
    !(code < 0x20 || 0x7f < code < NON_ASCII_PRINTABLE)
  }

  predicate RunsParam(code: nat) {
    0x30 <= code <= 0x3b
  }

  function AfterParams(p: ParamList, codes: seq<nat>): ParamList {
    if codes == [] then p else AfterParam(AfterParams(p, codes[..|codes| - 1]), codes[|codes| - 1])
  }

  function PrintedAll(codes: seq<nat>): seq<Event> {
    seq(|codes|, k requires 0 <= k < |codes| => Printed(codes[k]))
  }

  function OscAll(codes: seq<nat>): seq<Event> {
    seq(|codes|, k requires 0 <= k < |codes| => OscData(codes[k]))
  }

  function DcsAll(codes: seq<nat>): seq<Event> {
    seq(|codes|, k requires 0 <= k < |codes| => DcsData(codes[k]))
  }

  function ApcAll(codes: seq<nat>): seq<Event> {
    seq(|codes|, k requires 0 <= k < |codes| => ApcData(codes[k]))
  }

  lemma {:induction false} PrintTail(m: Machine, codes: seq<nat>)
    requires m.state == Ground && forall c :: c in codes ==> RunsPrint(c)
    ensures Run(Ahead(m, false), codes) == Outcome(Ahead(m, false), PrintedAll(codes))
  {
    hide StepAhead, RunsPrint;
    if codes != [] {
      PrintTail(m, codes[..|codes| - 1]);
      assert codes[|codes| - 1] in codes;
      PrintStep(m, codes[|codes| - 1]);
    }
  }

  lemma PrintStep(m: Machine, code: nat)
    requires m.state == Ground && RunsPrint(code)
    ensures StepAhead(Ahead(m, false), code) == Outcome(Ahead(m, false), [Printed(code)])
  {
  }

  lemma {:induction false} OscTail(m: Machine, codes: seq<nat>)
    requires m.state == OscString && forall c :: c in codes ==> RunsOsc(c)
    ensures Run(Ahead(m, false), codes) == Outcome(Ahead(m, false), OscAll(codes))
  {
    hide StepAhead, RunsOsc;
    if codes != [] {
      OscTail(m, codes[..|codes| - 1]);
      assert codes[|codes| - 1] in codes;
      OscStep(m, codes[|codes| - 1]);
    }
  }

  lemma OscStep(m: Machine, code: nat)
    requires m.state == OscString && RunsOsc(code)
    ensures StepAhead(Ahead(m, false), code) == Outcome(Ahead(m, false), [OscData(code)])
  {
  }

  lemma {:induction false} DcsTail(m: Machine, codes: seq<nat>)
    requires m.state == DcsPassthrough && forall c :: c in codes ==> !StopsPut(c)
    ensures Run(Ahead(m, true), codes) == Outcome(Ahead(m, true), DcsAll(codes))
  {
    hide Step;
    if codes != [] {
      DcsTail(m, codes[..|codes| - 1]);
      assert codes[|codes| - 1] in codes;
    }
  }

  lemma {:induction false} ApcTail(m: Machine, codes: seq<nat>)
    requires m.state == ApcString && forall c :: c in codes ==> !StopsPut(c)
    ensures Run(Ahead(m, true), codes) == Outcome(Ahead(m, true), ApcAll(codes))
  {
    hide Step;
    if codes != [] {
      ApcTail(m, codes[..|codes| - 1]);
      assert codes[|codes| - 1] in codes;
    }
  }

  lemma {:induction false} ParamTail(m: Machine, codes: seq<nat>)
    requires m.state == CsiParam || m.state == DcsParam
    requires forall c :: c in codes ==> RunsParam(c)
    ensures Run(Ahead(m, false), codes) == Outcome(Ahead(m.(params := AfterParams(m.params, codes)), false), [])
  {
    hide AfterParam;
    if codes != [] {
      ParamTail(m, codes[..|codes| - 1]);
      assert codes[|codes| - 1] in codes;
    }
  }

  /** After the first code of `data[i..j]`, the rest is run over in one go. */
  lemma {:induction false} FirstThenTail(m: Machine, codes: seq<nat>)
    requires codes != []
    ensures var first := StepAhead(Ahead(m, false), codes[0]);
            var rest := Run(first.to, codes[1..]);
            Run(Ahead(m, false), codes) == Outcome(rest.to, first.events + rest.events)
  {
    hide StepAhead;
    RunOne(Ahead(m, false), codes[0]);
    assert codes == [codes[0]] + codes[1..];
    RunAppend(Ahead(m, false), [codes[0]], codes[1..]);
  }

  /** A call that starts afresh at a code where the last run stopped loses nothing. */
  lemma {:induction false} StoppedRun(a: Ahead, codes: seq<nat>)
    requires codes != [] && (a.inPut ==> StopsPut(codes[0]))
    ensures Run(a, codes) == Run(Ahead(a.m, false), codes)
  {
    var anew := Ahead(a.m, false);
    assert codes == [codes[0]] + codes[1..];
    RunAppend(a, [codes[0]], codes[1..]);
    RunAppend(anew, [codes[0]], codes[1..]);
    hide Step;
    RunOne(a, codes[0]);
    RunOne(anew, codes[0]);
  }

  // ---- the stretch of input that one turn of the main loop takes ----

  predicate TailRuns(action: Action, codes: seq<nat>) {
    match action
    case Print => forall c :: c in codes ==> RunsPrint(c)
    case OscPut => forall c :: c in codes ==> RunsOsc(c)
    case DcsPut => forall c :: c in codes ==> !StopsPut(c)
    case ApcPut => forall c :: c in codes ==> !StopsPut(c)
    case Param => forall c :: c in codes ==> RunsParam(c)
    case _ => codes == []
  }

  /** What a turn does, given the transition that its first code selects. */
  function Turn(m: Machine, codes: seq<nat>): Outcome<Machine>
    requires codes != []
  {
    var t := Looked(m.state, codes[0]);
    match t.action
    case Print => Outcome(m.(state := t.next), PrintedAll(codes))
    case OscPut => Outcome(m.(state := t.next), OscAll(codes))
    case DcsPut => Outcome(m.(state := t.next), DcsAll(codes))
    case ApcPut => Outcome(m.(state := t.next), ApcAll(codes))
    case Param => Outcome(m.(state := t.next, params := AfterParams(m.params, codes)), [])
    case _ => Step(m, codes[0])
  }

  /** The states in which the actions with inner loops occur. */
  lemma RunStates(s: State, code: nat)
    ensures Looked(s, code).action == Print ==> s == Ground == Looked(s, code).next
    ensures Looked(s, code).action == OscPut ==> s == OscString == Looked(s, code).next
    ensures Looked(s, code).action == DcsPut ==> s == DcsPassthrough == Looked(s, code).next
    ensures Looked(s, code).action == ApcPut ==> s == ApcString == Looked(s, code).next
    ensures Looked(s, code).action == Param ==>
              Looked(s, code).next == CsiParam || Looked(s, code).next == DcsParam
  {
  }

  lemma NoParams(p: ParamList)
    ensures AfterParams(p, []) == p
  {
  }

  lemma OneMoreParam(p: ParamList, codes: seq<nat>, code: nat)
    ensures AfterParams(p, codes + [code]) == AfterParam(AfterParams(p, codes), code)
  {
    hide AfterParam;
    assert (codes + [code])[..|codes|] == codes;
  }

  lemma {:induction false} AfterParamsFront(p: ParamList, first: nat, rest: seq<nat>)
    ensures AfterParams(AfterParam(p, first), rest) == AfterParams(p, [first] + rest)
  {
    hide AfterParam;
    var all := [first] + rest;
    if rest == [] {
      assert all[..0] == [];
      assert AfterParams(p, []) == p;
    } else {
      assert all[..|all| - 1] == [first] + rest[..|rest| - 1];
      AfterParamsFront(p, first, rest[..|rest| - 1]);
    }
  }

  lemma {:induction false} TurnIsRun(m: Machine, codes: seq<nat>)
    requires codes != [] && TailRuns(Looked(m.state, codes[0]).action, codes[1..])
    ensures Run(Ahead(m, false), codes) ==
            Outcome(Ahead(Turn(m, codes).to, IsPut(Looked(m.state, codes[0]).action)), Turn(m, codes).events)
  {
    hide Run, Looked, RunsPrint, RunsOsc, StopsPut, RunsParam, AfterParams, Collected;
    var t := Looked(m.state, codes[0]);
    var rest := codes[1..];
    FirstThenTail(m, codes);
    RunStates(m.state, codes[0]);
    assert codes == [codes[0]] + rest;
    match t.action
    case Print => PrintTail(m, rest);
    case OscPut => OscTail(m, rest);
    case DcsPut => DcsTail(m, rest);
    case ApcPut => ApcTail(m, rest);
    case Param =>
      ParamTail(Step(m, codes[0]).to, rest);
      AfterParamsFront(m.params, codes[0], rest);
    case _ =>
      RunNothing(Ahead(Turn(m, codes).to, false));
  }

  lemma {:induction false} TurnExtendsRun(a: Ahead, data: seq<nat>, i: nat, j: nat)
    requires i < j <= |data|
    requires Run(a, data[..i]).to.inPut ==> StopsPut(data[i])
    requires TailRuns(Looked(Run(a, data[..i]).to.m.state, data[i]).action, data[i + 1..j])
    ensures var m := Run(a, data[..i]).to.m;
            var turn := Turn(m, data[i..j]);
            Run(a, data[..j]) == Outcome(Ahead(turn.to, IsPut(Looked(m.state, data[i]).action)),
                                         Run(a, data[..i]).events + turn.events)
  {
    hide *;
    var before := Run(a, data[..i]).to;
    var codes := data[i..j];
    assert codes[1..] == data[i + 1..j];
    TurnIsRun(before.m, codes);
    StoppedRun(before, codes);
    assert data[..j] == data[..i] + codes;
    RunAppend(a, data[..i], codes);
  }

  lemma RunNothing(a: Ahead)
    ensures Run(a, []) == Outcome(a, [])
  {
  }

  class EscapeSequenceParser {
    const transitions: TransitionTable
    const params: Params
    var currentState: State
    var collect: nat
    /** Everything the handlers have been told. */
    ghost var trace: seq<Event>

    ghost predicate Valid()
      reads this, params, params.params, params.subParams, params.subParamsIdx, transitions.table
    {
      && params.Valid() && transitions.Valid()
      && forall s, c :: 0 <= c < 256 ==> transitions.At(s, c) == Vt500(s, c)
    }

    ghost function Now(): Machine
      requires Valid()
      reads this, params, params.params, params.subParams, params.subParamsIdx, transitions.table
    {
      Machine(currentState, collect, params.Value())
    }

    constructor ()
      ensures Valid() && fresh(params) && fresh(params.params) && fresh(params.subParams) && fresh(params.subParamsIdx)
      ensures Now() == Machine(Ground, 0, CLEARED) && trace == []
    {
      var table := BuildVt500();
      var ps := new Params();
      ps.Add(0);
      transitions, params := table, ps;
      currentState, collect, trace := Ground, 0, [];
    }

    /** Back to the initial machine, from any state. */
    method Reset()
      requires Valid()
      modifies this, params, params.params, params.subParamsIdx
      ensures Valid() && Now() == Machine(Ground, 0, CLEARED) && trace == old(trace)
    {
      currentState := Ground;
      ClearParams();
    }

    method ClearParams()
      requires Valid()
      modifies this`collect, params, params.params, params.subParamsIdx
      ensures Valid() && params.Value() == CLEARED && collect == 0
    {
      params.Reset();
      params.Add(0);
      collect := 0;
    }

    method Lookup(code: nat) returns (t: Transition)
      requires Valid()
      ensures t == Looked(currentState, code)
    {
      var at := if code < NON_ASCII_PRINTABLE then code else NON_ASCII_PRINTABLE;
      assert transitions.At(currentState, at) == Vt500(currentState, at);
      t := transitions.table[Index(currentState), at];
    }

    /** The inner loop of an action that hands a run of codes to a handler: where the run ends. */
    method ScanRun(action: Action, data: seq<nat>, i: nat) returns (j: nat)
      requires i < |data| && action in {Print, OscPut, DcsPut, ApcPut}
      ensures i < j <= |data| && TailRuns(action, data[i + 1..j])
      ensures (action == DcsPut || action == ApcPut) && j < |data| ==> StopsPut(data[j])
    {
      j := i + 1;
      while j < |data|
        invariant i < j <= |data| && TailRuns(action, data[i + 1..j])
      {
        var code := data[j];
        var stop := match action
          case Print => code < 0x20 || 0x7e < code < NON_ASCII_PRINTABLE
          case OscPut => code < 0x20 || 0x7f < code < NON_ASCII_PRINTABLE
          case DcsPut => code == 0x18 || code == 0x1a || code == 0x1b || 0x7f < code < NON_ASCII_PRINTABLE
          case _ => code == 0x18 || code == 0x1a || code == 0x1b || code == 0x9c || 0x7f < code < NON_ASCII_PRINTABLE;
        if stop {
          return;
        }
        assert data[i + 1..j + 1] == data[i + 1..j] + [code];
        j := j + 1;
      }
    }

    /** Digits, semicolons and colons, up to the first other code. */
    method ParamRun(data: seq<nat>, start: nat) returns (i: nat)
      requires Valid() && start < |data| && RunsParam(data[start])
      modifies params, params.params, params.subParams, params.subParamsIdx
      ensures Valid() && start < i <= |data| && TailRuns(Param, data[start + 1..i])
      ensures params.Value() == AfterParams(old(params.Value()), data[start..i])
    {
      hide AfterParam, AfterParams;
      i := start;
      var code := data[i];
      ghost var p := params.Value();
      assert data[start..start] == [];
      NoParams(p);
      while true
        invariant Valid() && start <= i < |data| && code == data[i] && RunsParam(code)
        invariant forall c :: c in data[start..i] ==> RunsParam(c)
        invariant params.Value() == AfterParams(p, data[start..i])
        decreases |data| - i
      {
        OneParam(code);
        OneMoreParam(p, data[start..i], code);
        assert data[start..i + 1] == data[start..i] + [code];
        i := i + 1;
        if i >= |data| {
          break;
        }
        code := data[i];
        if code < 0x30 || code > 0x3b {
          break;
        }
      }
      assert forall c :: c in data[start + 1..i] ==> c in data[start..i];
    }

    method OneParam(code: nat)
      requires Valid() && RunsParam(code)
      modifies params, params.params, params.subParams, params.subParamsIdx
      ensures Valid() && params.Value() == AfterParam(old(params.Value()), code)
    {
      if code == 0x3b {
        params.Add(0);
      } else if code == 0x3a {
        params.AddSub(-1);
      } else {
        params.Digit(code - 48);
      }
    }

    /** The end of an OSC, DCS or APC string: ESC, which ends it, also opens the next sequence. */
    method EndString(code: nat, next: State) returns (state: State)
      requires Valid()
      modifies this`collect, params, params.params, params.subParamsIdx
      ensures Valid() && Machine(state, collect, params.Value()) == AfterString(code, next)
    {
      state := if code == 0x1b then Escape else next;
      ClearParams();
    }

    /** A turn of the main loop whose action takes a single code. */
    method Act(t: Transition, code: nat)
      requires Valid() && t == Looked(currentState, code)
      requires t.action !in {Print, OscPut, DcsPut, ApcPut, Param}
      modifies this, params, params.params, params.subParamsIdx
      ensures Valid() && Outcome(Now(), trace) ==
              Outcome(Step(old(Now()), code).to, old(trace) + Step(old(Now()), code).events)
    {
      hide Looked, Vt500;
      var next := t.next;
      ghost var told: seq<Event> := [];
      match t.action {
        case Ignore =>
        case Error => told := [Faulted(code, currentState)];
        case Execute => told := [Executed(code)];
        case OscStart => told := [OscStarted];
        case OscEnd =>
          told := [OscEnded(Succeeds(code))];
          next := EndString(code, next);
        case CsiDispatch =>
          told := [CsiCalled(Collected(collect, code), params.Value().values, params.Value().subs)];
        case Collect => collect := Collected(collect, code);
        case EscDispatch => told := [EscCalled(Collected(collect, code))];
        case Clear => ClearParams();
        case DcsHook =>
          told := [DcsHooked(Collected(collect, code), params.Value().values, params.Value().subs)];
        case DcsUnhook =>
          told := [DcsUnhooked(Succeeds(code))];
          next := EndString(code, next);
        case ApcStart => told := [ApcStarted];
        case ApcEnd =>
          told := [ApcEnded(Succeeds(code))];
          next := EndString(code, next);
      }
      currentState := next;
      trace := trace + told;
    }

    /** A turn that hands a run of codes to a handler. */
    method HandOver(t: Transition, data: seq<nat>, i: nat) returns (j: nat)
      requires Valid() && i < |data|
      requires t == Looked(currentState, data[i]) && t.action in {Print, OscPut, DcsPut, ApcPut}
      modifies this
      ensures Valid() && i < j <= |data| && TailRuns(t.action, data[i + 1..j])
      ensures IsPut(t.action) && j < |data| ==> StopsPut(data[j])
      ensures var o := Turn(old(Now()), data[i..j]); Now() == o.to && trace == old(trace) + o.events
    {
      hide Looked, TailRuns, StopsPut, AfterParams, Step;
      j := ScanRun(t.action, data, i);
      var codes := data[i..j];
      trace := trace + match t.action
        case Print => PrintedAll(codes)
        case OscPut => OscAll(codes)
        case DcsPut => DcsAll(codes)
        case _ => ApcAll(codes);
      currentState := t.next;
    }

    /** A turn that reads digits and separators of parameters. */
    method TakeParams(t: Transition, data: seq<nat>, i: nat) returns (j: nat)
      requires Valid() && i < |data| && t == Looked(currentState, data[i]) && t.action == Param
      modifies this`currentState, params, params.params, params.subParams, params.subParamsIdx
      ensures Valid() && i < j <= |data| && TailRuns(t.action, data[i + 1..j])
      ensures Outcome(Now(), []) == Turn(old(Now()), data[i..j])
    {
      hide Looked, Step, AfterParams;
      ParamCodes(currentState, data[i]);
      j := ParamRun(data, i);
      currentState := t.next;
    }

    /** A turn that takes a single code. */
    method ActAlone(t: Transition, data: seq<nat>, i: nat)
      requires Valid() && i < |data| && t == Looked(currentState, data[i])
      requires t.action !in {Print, OscPut, DcsPut, ApcPut, Param}
      modifies this, params, params.params, params.subParamsIdx
      ensures Valid() && TailRuns(t.action, data[i + 1..i + 1])
      ensures var o := Turn(old(Now()), data[i..i + 1]); Now() == o.to && trace == old(trace) + o.events
    {
      hide Looked, Step;
      Act(t, data[i]);
    }

    /** One turn of the main loop, from code `i` to just before code `j`. */
    method TakeTurn(data: seq<nat>, i: nat) returns (j: nat)
      requires Valid() && i < |data|
      modifies this, params, params.params, params.subParams, params.subParamsIdx
      ensures Valid() && i < j <= |data|
      ensures TailRuns(Looked(old(Now()).state, data[i]).action, data[i + 1..j])
      ensures IsPut(Looked(old(Now()).state, data[i]).action) && j < |data| ==> StopsPut(data[j])
      ensures var o := Turn(old(Now()), data[i..j]); Now() == o.to && trace == old(trace) + o.events
    {
      hide Looked, Turn, TailRuns, IsPut;
      var t := Lookup(data[i]);
      NotPut(t.action);
      if t.action in {Print, OscPut, DcsPut, ApcPut} {
        j := HandOver(t, data, i);
      } else if t.action == Param {
        j := TakeParams(t, data, i);
      } else {
        ActAlone(t, data, i);
        j := i + 1;
      }
    }

    /** A call of the parser: the machine and the events are those of running ahead over the input. */
    method Parse(data: seq<nat>)
      requires Valid()
      modifies this, params, params.params, params.subParams, params.subParamsIdx
      ensures Valid() && Now() == Feed(old(Now()), data).to
      ensures Now() == Run(Ahead(old(Now()), false), data).to.m
      ensures trace == old(trace) + Run(Ahead(old(Now()), false), data).events
    {
      hide *;
      ghost var a := Ahead(Now(), false);
      var i := 0;
      assert data[..0] == [];
      RunNothing(a);
      while i < |data|
        invariant Valid() && 0 <= i <= |data|
        invariant Now() == Run(a, data[..i]).to.m && trace == old(trace) + Run(a, data[..i]).events
        invariant i < |data| && Run(a, data[..i]).to.inPut ==> StopsPut(data[i])
      {
        var j := TakeTurn(data, i);
        TurnExtendsRun(a, data, i, j);
        i := j;
      }
      assert data[..i] == data;
      RunAheadRefinesTable(a, data);
    }
  }

  lemma NotPut(action: Action)
    ensures IsPut(action) ==> action in {Print, OscPut, DcsPut, ApcPut}
  {
  }

  lemma ParamCodes(s: State, code: nat)
    ensures Looked(s, code).action == Param ==> RunsParam(code)
  {
  }
}
