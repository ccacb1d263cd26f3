/** Escape sequences and control strings, written and parsed again (ECMA-48, sections 5.3 and 5.6). */
module StringRoundTrip {
  import opened ParserTable
  import opened ParserParams
  import opened ParserMachine
  import Parser
  import C = CsiRoundTrip

  /** The strings that are handed over: operating system commands, application program commands, and
      device control strings with their function and parameters. */
  datatype Opener = Osc | Apc | Dcs(f: C.Function, fields: seq<C.Field>)

  predicate ValidOpener(o: Opener) {
    o.Dcs? ==> C.ValidFunction(o.f) && C.ValidFields(o.fields)
  }

  function Opening(o: Opener): seq<nat> {
    match o
    case Osc => [0x1b, 0x5d]
    case Apc => [0x1b, 0x5f]
    case Dcs(f, fields) => [0x1b, 0x50] + f.prefix + C.FieldsText(fields) + f.intermediates + [f.final]
  }

  function Started(o: Opener): Event {
    match o
    case Osc => OscStarted
    case Apc => ApcStarted
    case Dcs(f, fields) => DcsHooked(C.Identifier(f), C.Parsed(fields).values, C.Parsed(fields).subs)
  }

  function Data(o: Opener, code: nat): Event {
    match o
    case Osc => OscData(code)
    case Apc => ApcData(code)
    case Dcs(_, _) => DcsData(code)
  }

  function Ended(o: Opener, success: bool): Event {
    match o
    case Osc => OscEnded(success)
    case Apc => ApcEnded(success)
    case Dcs(_, _) => DcsUnhooked(success)
  }

  function Inside(o: Opener): State {
    match o
    case Osc => OscString
    case Apc => ApcString
    case Dcs(_, _) => DcsPassthrough
  }

  /** A code that does not end the string. */
  predicate Inner(o: Opener, code: nat) {
    && code != 0x18 && code != 0x1a && code != 0x1b && !(0x80 <= code < NON_ASCII_PRINTABLE)
    && !(o.Osc? && code == 0x07)
  }

  /** A code inside that is handed over; the others are dropped. */
  predicate Kept(o: Opener, code: nat) {
    match o
    case Osc => code >= 0x20
    case Apc => code >= 0x20 && code != 0x7f
    case Dcs(_, _) => code != 0x7f
  }

  function Contents(o: Opener, payload: seq<nat>): seq<Event> {
    if payload == [] then []
    else
      var last := payload[|payload| - 1];
      Contents(o, payload[..|payload| - 1]) + if Kept(o, last) then [Data(o, last)] else []
  }

  /** What ends a string: BEL if it is an OSC string, ST in its two forms, CAN and SUB. */
  predicate Closes(o: Opener, closer: seq<nat>) {
    (o.Osc? && closer == [0x07]) || closer == [0x1b, 0x5c] || closer == [0x9c] || closer == [0x18] || closer == [0x1a]
  }

  predicate Cancelled(closer: seq<nat>) {
    closer == [0x18] || closer == [0x1a]
  }

  /** ESC \ calls the handler of ST as well. */
  function AfterClosing(closer: seq<nat>): seq<Event> {
    if closer == [0x1b, 0x5c] then [EscCalled(0x5c)] else []
  }

  // ---- the opening ----

  lemma {:induction false} EscThen(m: Machine, code: nat)
    ensures Feed(m, [0x1b, code]) ==
            Outcome(Step(Machine(Escape, 0, CLEARED), code).to,
                    C.Closing(m.state) + Step(Machine(Escape, 0, CLEARED), code).events)
  {
    hide Step;
    assert [0x1b, code] == [0x1b] + [code];
    FeedAppend(m, [0x1b], [code]);
    FeedOne(m, 0x1b);
    C.EscFromAnywhere(m);
    FeedOne(Machine(Escape, 0, CLEARED), code);
  }

  lemma EscOpens()
    ensures var m := Machine(Escape, 0, CLEARED);
            && Step(m, 0x5d) == Outcome(m.(state := OscString), [OscStarted])
            && Step(m, 0x5f) == Outcome(m.(state := ApcString), [ApcStarted])
            && Step(m, 0x50) == Outcome(m.(state := DcsEntry), [])
  {
  }

  lemma {:induction false} PrefixFed(m: Machine, f: C.Function)
    requires C.ValidFunction(f) && m == Machine(DcsEntry, 0, CLEARED)
    ensures Feed(m, f.prefix) == Outcome(if f.prefix == [] then m else Machine(DcsParam, f.prefix[0], CLEARED), [])
  {
    if f.prefix == [] {
      C.FeedNothing(m);
    } else {
      assert f.prefix == [f.prefix[0]] && f.prefix[0] in f.prefix;
      FeedOne(m, f.prefix[0]);
    }
  }

  lemma {:induction false} ParamsFed(m: Machine, codes: seq<nat>)
    requires m.state == DcsEntry || m.state == DcsParam
    requires forall c :: c in codes ==> Parser.RunsParam(c)
    ensures Feed(m, codes) ==
            Outcome(Machine(if codes == [] then m.state
                            else DcsParam, m.collect, Parser.AfterParams(m.params, codes)), [])
  {
    hide Step, Parser.RunsParam;
    if codes == [] {
      assert m == Machine(m.state, m.collect, m.params);
    } else {
      var front, last := codes[..|codes| - 1], codes[|codes| - 1];
      assert codes == front + [last] && last in codes;
      ParamsFed(m, front);
      OneParam(Feed(m, front).to, last);
    }
  }

  lemma OneParam(m: Machine, code: nat)
    requires (m.state == DcsEntry || m.state == DcsParam) && Parser.RunsParam(code)
    ensures Step(m, code) == Outcome(Machine(DcsParam, m.collect, AfterParam(m.params, code)), [])
  {
    hide AfterParam;
  }

  /** States in which an intermediate byte is collected, and the state it leads to. */
  predicate Collects(s: State, within: State) {
    || (within == DcsIntermediate && s in {DcsEntry, DcsParam, DcsIntermediate})
    || (within == EscapeIntermediate && s in {Escape, EscapeIntermediate})
  }

  lemma {:induction false} IntermediatesFed(m: Machine, codes: seq<nat>, within: State)
    requires Collects(m.state, within)
    requires forall c :: c in codes ==> C.Intermediate(c)
    ensures Feed(m, codes) ==
            Outcome(Machine(if codes == [] then m.state else within, C.CollectAll(m.collect, codes), m.params), [])
  {
    hide Step;
    if codes == [] {
      assert m == Machine(m.state, m.collect, m.params);
    } else {
      var front, last := codes[..|codes| - 1], codes[|codes| - 1];
      assert codes == front + [last];
      IntermediatesFed(m, front, within);
      OneIntermediate(Feed(m, front).to, last, within);
    }
  }

  lemma OneIntermediate(m: Machine, code: nat, within: State)
    requires Collects(m.state, within)
    requires C.Intermediate(code)
    ensures Step(m, code) == Outcome(Machine(within, Collected(m.collect, code), m.params), [])
  {
    hide Collected;
  }

  lemma FinalHooks(m: Machine, final: nat)
    requires m.state in {DcsEntry, DcsParam, DcsIntermediate} && 0x40 <= final < 0x7f
    ensures Step(m, final) ==
            Outcome(m.(state := DcsPassthrough),
                    [DcsHooked(Collected(m.collect, final), m.params.values, m.params.subs)])
  {
    hide Collected;
  }

  lemma {:induction false} BodyFed(m: Machine, f: C.Function, fields: seq<C.Field>)
    requires C.ValidFunction(f) && C.ValidFields(fields) && m.params == CLEARED
    requires m.state == DcsEntry || m.state == DcsParam
    requires m.collect == if f.prefix == [] then 0 else f.prefix[0]
    ensures var o := Feed(m, C.FieldsText(fields) + f.intermediates + [f.final]);
            o.to.state == DcsPassthrough && o.events == [Started(Dcs(f, fields))]
  {
    hide Feed, Step, C.FieldsText, C.Numeral, C.CollectAll, TotalSubs, C.ListOf, Collected;
    var body := C.FieldsText(fields);
    C.FieldsTextRuns(fields);
    ParamsFed(m, body);
    if fields == [] {
      C.NoFields();
    } else {
      C.FieldsParsed(fields);
    }
    var m1 := Feed(m, body).to;
    IntermediatesFed(m1, f.intermediates, DcsIntermediate);
    var m2 := Feed(m1, f.intermediates).to;
    FinalHooks(m2, f.final);
    FeedOne(m2, f.final);
    FeedAppend(m, body, f.intermediates);
    FeedAppend(m, body + f.intermediates, [f.final]);
  }

  lemma {:induction false} OpeningFed(m: Machine, o: Opener)
    requires ValidOpener(o)
    ensures Feed(m, Opening(o)).to.state == Inside(o) && Feed(m, Opening(o)).events == C.Closing(m.state) + [Started(o)]
  {
    EscOpens();
    hide *;
    OpenerParts(o);
    match o
    case Osc => EscThen(m, 0x5d);
    case Apc => EscThen(m, 0x5f);
    case Dcs(f, fields) =>
      EscThen(m, 0x50);
      var entry := Machine(DcsEntry, 0, CLEARED);
      PrefixFed(entry, f);
      var m1 := Feed(entry, f.prefix).to;
      BodyFed(m1, f, fields);
      FeedAppend(m, [0x1b, 0x50], f.prefix);
      FeedAppend(m, [0x1b, 0x50] + f.prefix, C.FieldsText(fields) + f.intermediates + [f.final]);
  }

  lemma OpenerParts(o: Opener)
    ensures Inside(o) == match o case Osc => OscString case Apc => ApcString case Dcs(_, _) => DcsPassthrough
    ensures o.Osc? ==> Opening(o) == [0x1b, 0x5d] && Started(o) == OscStarted
    ensures o.Apc? ==> Opening(o) == [0x1b, 0x5f] && Started(o) == ApcStarted
    ensures o.Dcs? ==> ValidOpener(o) == (C.ValidFunction(o.f) && C.ValidFields(o.fields))
    ensures o.Dcs? ==> Opening(o) ==
                       [0x1b, 0x50] + o.f.prefix + (C.FieldsText(o.fields) + o.f.intermediates + [o.f.final])
  {
  }

  // ---- the payload and the end ----

  lemma InnerStep(m: Machine, o: Opener, code: nat)
    requires m.state == Inside(o) && Inner(o, code)
    ensures Step(m, code) == Outcome(m, if Kept(o, code) then [Data(o, code)] else [])
  {
  }

  lemma {:induction false} PayloadFed(m: Machine, o: Opener, payload: seq<nat>)
    requires m.state == Inside(o) && forall c :: c in payload ==> Inner(o, c)
    ensures Feed(m, payload) == Outcome(m, Contents(o, payload))
  {
    hide Step, Inner, Kept, Data, Inside;
    if payload != [] {
      var front, last := payload[..|payload| - 1], payload[|payload| - 1];
      assert last in payload && forall c :: c in front ==> c in payload;
      PayloadFed(m, o, front);
      InnerStep(m, o, last);
    }
  }

  lemma EndStep(m: Machine, o: Opener, code: nat)
    requires m.state == Inside(o) && (EndsString(code) || (o.Osc? && code == 0x07))
    ensures Step(m, code).to.state == if code == 0x1b then Escape else Ground
    ensures Step(m, code).events == [Ended(o, code != 0x18 && code != 0x1a)]
  {
  }

  lemma EscFinalStep(m: Machine, code: nat)
    requires (m.state == Escape && EscFinal(code)) || (m.state == EscapeIntermediate && 0x30 <= code < 0x7f)
    ensures Step(m, code) == Outcome(m.(state := Ground), [EscCalled(Collected(m.collect, code))])
  {
    hide Collected;
  }

  lemma {:induction false} CloserFed(m: Machine, o: Opener, closer: seq<nat>)
    requires m.state == Inside(o) && Closes(o, closer)
    ensures Feed(m, closer).to.state == Ground
    ensures Feed(m, closer).events == [Ended(o, !Cancelled(closer))] + AfterClosing(closer)
  {
    hide Step, Feed, Ended, Inside;
    if closer == [0x1b, 0x5c] {
      var escape := Machine(Escape, 0, CLEARED);
      EndStep(m, o, 0x1b);
      C.EscFromAnywhere(m);
      EscThen(m, 0x5c);
      EscFinalStep(escape, 0x5c);
    } else {
      FeedOne(m, closer[0]);
      EndStep(m, o, closer[0]);
    }
  }

  /** From any machine, a string with any payload that does not end it causes exactly its start, the
      payload codes that are handed over, in order, and its end: a success unless CAN or SUB ended it. An
      open string is ended before it. */
  lemma {:induction false} StringRoundTrips(m: Machine, o: Opener, payload: seq<nat>, closer: seq<nat>)
    requires ValidOpener(o) && Closes(o, closer) && forall c :: c in payload ==> Inner(o, c)
    ensures Feed(m, Opening(o) + payload + closer).to.state == Ground
    ensures Feed(m, Opening(o) + payload + closer).events ==
            C.Closing(m.state) + [Started(o)] + Contents(o, payload) + [Ended(o, !Cancelled(closer))] +
              AfterClosing(closer)
  {
    hide *;
    OpeningFed(m, o);
    var m1 := Feed(m, Opening(o)).to;
    PayloadFed(m1, o, payload);
    CloserFed(m1, o, closer);
    FeedAppend(m, Opening(o), payload);
    FeedAppend(m, Opening(o) + payload, closer);
  }

  /** Of a payload of printable codes nothing is dropped. */
  lemma {:induction false} PrintableIsKept(o: Opener, payload: seq<nat>)
    requires forall c :: c in payload ==> Parser.RunsPrint(c)
    ensures forall c :: c in payload ==> Inner(o, c)
    ensures |Contents(o, payload)| == |payload|
    ensures forall k :: 0 <= k < |payload| ==> Contents(o, payload)[k] == Data(o, payload[k])
  {
    hide Data;
    if payload != [] {
      assert payload[|payload| - 1] in payload;
      PrintableIsKept(o, payload[..|payload| - 1]);
    }
  }

  // ---- cut anywhere ----

  predicate Passes(code: nat) {
    code != 0x7f && !Executable(code)
  }

  lemma {:induction false} OpeningPasses(o: Opener)
    requires ValidOpener(o)
    ensures forall c :: c in Opening(o) ==> Passes(c)
  {
    match o {
      case Osc =>
      case Apc =>
      case Dcs(f, fields) =>
        C.FieldsTextRuns(fields);
        hide C.Numeral, C.FieldsText;
        assert forall c :: c in f.prefix ==> Passes(c);
        assert forall c :: c in f.intermediates ==> C.Intermediate(c);
    }
  }

  lemma CloserPasses(o: Opener, closer: seq<nat>, k: nat)
    requires Closes(o, closer) && k < |closer|
    ensures Passes(closer[k]) || (o.Osc? && k == 0)
  {
  }

  lemma DropsIs(s: State, code: nat)
    ensures Drops(s, code) ==> !Passes(code) && s != OscString
  {
  }

  /** However such a string is cut into calls of the parser, the events are the same. */
  lemma {:induction false} StringsMayBeCut(m: Machine, o: Opener, payload: seq<nat>, closer: seq<nat>,
                                           chunks: seq<seq<nat>>)
    requires ValidOpener(o) && Closes(o, closer) && forall c :: c in payload ==> Parser.RunsPrint(c)
    requires Concat(chunks) == Opening(o) + payload + closer
    ensures RunChunks(m, chunks).events == Feed(m, Opening(o) + payload + closer).events
    ensures RunChunks(m, chunks).to == Feed(m, Opening(o) + payload + closer).to
  {
    hide Feed, RunChunks, Concat, Drops, Opening, PutBefore, ValidOpener, Inside;
    var text := Opening(o) + payload + closer;
    var n := |Opening(o) + payload|;
    forall i: nat | i < |text|
      ensures !DroppedBehindPut(m, text, i)
    {
      DropsIs(Feed(m, text[..i]).to.state, text[i]);
      OpeningPasses(o);
      if i < |Opening(o)| {
        assert text[i] == Opening(o)[i];
        assert text[i] in Opening(o);
      } else if i < n {
        assert text[i] == payload[i - |Opening(o)|];
        assert text[i] in payload;
      } else {
        assert text[i] == closer[i - n];
        CloserPasses(o, closer, i - n);
        if !Passes(closer[i - n]) {
          assert text[..i] == Opening(o) + payload;
          OscStaysOpen(m, o, payload);
        }
      }
    }
    CutsDoNotMatterExactly(m, text);
    ChunksDoNotMatter(m, chunks);
  }

  lemma {:induction false} OscStaysOpen(m: Machine, o: Opener, payload: seq<nat>)
    requires o.Osc? && forall c :: c in payload ==> Parser.RunsPrint(c)
    ensures Feed(m, Opening(o) + payload).to.state == OscString
  {
    hide Feed, Contents, Opening;
    PrintableIsKept(o, payload);
    OpeningFed(m, o);
    PayloadFed(Feed(m, Opening(o)).to, o, payload);
    FeedAppend(m, Opening(o), payload);
  }

  // ---- escape sequences and control codes ----

  /** From any machine, ESC with its intermediate bytes and its final byte calls exactly that function. */
  lemma {:induction false} EscRoundTrips(m: Machine, intermediates: seq<nat>, final: nat)
    requires forall c :: c in intermediates ==> C.Intermediate(c)
    requires if intermediates == [] then EscFinal(final) else 0x30 <= final < 0x7f
    ensures var o := Feed(m, [0x1b] + intermediates + [final]);
            && o.to.state == Ground
            && o.events == C.Closing(m.state) + [EscCalled(C.Identifier(C.Function([], intermediates, final)))]
  {
    hide Step, Feed, C.CollectAll, Collected;
    var escape := Machine(Escape, 0, CLEARED);
    FeedOne(m, 0x1b);
    C.EscFromAnywhere(m);
    IntermediatesFed(escape, intermediates, EscapeIntermediate);
    var m1 := Feed(escape, intermediates).to;
    EscFinalStep(m1, final);
    FeedOne(m1, final);
    FeedAppend(m, [0x1b], intermediates);
    FeedAppend(m, [0x1b] + intermediates, [final]);
  }

  predicate InSequence(s: State) {
    s in {Ground, Escape, EscapeIntermediate, CsiEntry, CsiParam, CsiIntermediate, CsiIgnore}
  }

  /** A control code in the middle of a sequence is carried out at once and leaves the sequence as it
      was; CAN and SUB abandon it. In a string that is left out, nothing is carried out. */
  lemma {:induction false} ControlsInSequence(m: Machine, code: nat)
    requires Executable(code) || code == 0x18 || code == 0x1a
    ensures InSequence(m.state) && Executable(code) ==> Feed(m, [code]) == Outcome(m, [Executed(code)])
    ensures InSequence(m.state) && !Executable(code) ==>
            Feed(m, [code]) == Outcome(m.(state := Ground), [Executed(code)])
    ensures m.state in {SosPmString, DcsIgnore} && Executable(code) ==> Feed(m, [code]) == Outcome(m, [])
  {
    FeedOne(m, code);
  }
}
