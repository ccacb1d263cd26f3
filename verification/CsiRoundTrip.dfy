/** Printing a control sequence and parsing it again (ECMA-48, section 5.4). */
module CsiRoundTrip {
  import opened ParserTable
  import opened ParserParams
  import opened ParserMachine
  import Parser
  import ByteWords

  /** One parameter as it is written: its digits, and the digits of each sub-parameter. Leading
      zeros may occur; a number without digits stands for the default. */
  datatype Field = Field(digits: seq<nat>, subs: seq<seq<nat>>)

  predicate Numeral(digits: seq<nat>) {
    (forall d :: d in digits ==> d <= 9) && NumberOf(0, digits) <= MAX_PARAM_VALUE
  }

  /** The number that `digits` make, read after a number `cur`. */
  function NumberOf(cur: nat, digits: seq<nat>): nat {
    if digits == [] then cur else NumberOf(cur, digits[..|digits| - 1]) * 10 + digits[|digits| - 1]
  }

  function SubValue(digits: seq<nat>): int {
    if digits == [] then -1 else NumberOf(0, digits)
  }

  function SubValues(subs: seq<seq<nat>>): seq<int> {
    seq(|subs|, k requires 0 <= k < |subs| => SubValue(subs[k]))
  }

  function Values(fields: seq<Field>): seq<int> {
    seq(|fields|, k requires 0 <= k < |fields| => NumberOf(0, fields[k].digits))
  }

  function Subs(fields: seq<Field>): seq<seq<int>> {
    seq(|fields|, k requires 0 <= k < |fields| => SubValues(fields[k].subs))
  }

  predicate ValidFields(fields: seq<Field>) {
    && |fields| <= MAX_PARAMS && TotalSubs(Subs(fields)) <= MAX_SUB_PARAMS
    && forall f :: f in fields ==> Numeral(f.digits) && forall s :: s in f.subs ==> Numeral(s)
  }

  function DigitCodes(digits: seq<nat>): seq<nat> {
    seq(|digits|, k requires 0 <= k < |digits| => 0x30 + digits[k])
  }

  function SubsText(subs: seq<seq<nat>>): seq<nat> {
    if subs == [] then [] else SubsText(subs[..|subs| - 1]) + [0x3a] + DigitCodes(subs[|subs| - 1])
  }

  function FieldText(f: Field): seq<nat> {
    DigitCodes(f.digits) + SubsText(f.subs)
  }

  function FieldsText(fields: seq<Field>): seq<nat> {
    if fields == [] then []
    else if |fields| == 1 then FieldText(fields[0])
    else FieldsText(fields[..|fields| - 1]) + [0x3b] + FieldText(fields[|fields| - 1])
  }

  // ---- digits ----

  lemma {:induction false} NumberGrows(cur: nat, digits: seq<nat>)
    requires digits != []
    ensures NumberOf(cur, digits[..|digits| - 1]) <= NumberOf(cur, digits)
  {
  }

  lemma {:induction false} AfterParamsAppend(p: ParamList, a: seq<nat>, b: seq<nat>)
    ensures Parser.AfterParams(p, a + b) == Parser.AfterParams(Parser.AfterParams(p, a), b)
  {
    hide AfterParam;
    if b == [] {
      assert a + b == a;
    } else {
      assert (a + b)[..|a + b| - 1] == a + b[..|b| - 1];
      AfterParamsAppend(p, a, b[..|b| - 1]);
    }
  }

  lemma {:induction false} AfterParamsOne(p: ParamList, code: nat)
    ensures Parser.AfterParams(p, [code]) == AfterParam(p, code)
    ensures Parser.AfterParams(p, []) == p
  {
    hide AfterParam;
    assert [code][..0] == [];
  }

  lemma {:induction false} OneMoreDigit(digits: seq<nat>)
    requires Numeral(digits) && digits != []
    ensures var front, d := digits[..|digits| - 1], digits[|digits| - 1];
            && Numeral(front) && d <= 9
            && WithDigit(NumberOf(0, front), d) == NumberOf(0, digits)
            && WithDigit(-1, d) == NumberOf(0, [d])
            && DigitCodes(digits) == DigitCodes(front) + [0x30 + d]
  {
    var front, d := digits[..|digits| - 1], digits[|digits| - 1];
    NumberGrows(0, digits);
    assert d in digits && forall c :: c in front ==> c in digits;
    DigitsNeverClamp(NumberOf(0, front), d);
    assert [d][..0] == [];
    assert NumberOf(0, []) == 0;
  }

  lemma DigitIsAdded(p: ParamList, d: nat)
    requires d <= 9
    ensures AfterParam(p, 0x30 + d) == AddDigit(p, d)
  {
  }

  /** Digits accumulate in the last value. */
  lemma {:induction false} ValueDigits(p: ParamList, digits: seq<nat>)
    requires Numeral(digits) && !p.rejectDigits && !p.digitIsSub && p.values != [] && p.values[|p.values| - 1] == 0
    ensures Parser.AfterParams(p, DigitCodes(digits)) == p.(values := p.values[|p.values| - 1 := NumberOf(0, digits)])
  {
    hide Numeral, WithDigit, AfterParam, Parser.AfterParams;
    if digits == [] {
      assert DigitCodes(digits) == [];
      AfterParamsOne(p, 0);
    } else {
      hide NumberOf;
      var front, d := digits[..|digits| - 1], digits[|digits| - 1];
      OneMoreDigit(digits);
      ValueDigits(p, front);
      AfterParamsAppend(p, DigitCodes(front), [0x30 + d]);
      AfterParamsOne(Parser.AfterParams(p, DigitCodes(front)), 0x30 + d);
      DigitIsAdded(Parser.AfterParams(p, DigitCodes(front)), d);
    }
  }

  function LastSub(p: ParamList): seq<int>
    requires p.subs != []
  {
    p.subs[|p.subs| - 1]
  }

  /** Digits accumulate in the last sub-parameter. */
  lemma {:induction false} SubDigits(p: ParamList, digits: seq<nat>)
    requires Numeral(digits) && !p.rejectDigits && p.digitIsSub && !p.rejectSubDigits && p.values != [] && p.subs != []
    requires LastSub(p) != [] && LastSub(p)[|LastSub(p)| - 1] == -1
    ensures Parser.AfterParams(p, DigitCodes(digits)) ==
            p.(subs := p.subs[|p.subs| - 1 := LastSub(p)[|LastSub(p)| - 1 := SubValue(digits)]])
  {
    hide Numeral, WithDigit, AfterParam, Parser.AfterParams, NumberOf;
    var k, own := |p.subs| - 1, LastSub(p);
    if digits == [] {
      assert DigitCodes(digits) == [];
      AfterParamsOne(p, 0);
      assert own[|own| - 1 := -1] == own;
      assert p.subs[k := own] == p.subs;
    } else {
      var front, d := digits[..|digits| - 1], digits[|digits| - 1];
      OneMoreDigit(digits);
      SubDigits(p, front);
      AfterParamsAppend(p, DigitCodes(front), [0x30 + d]);
      AfterParamsOne(Parser.AfterParams(p, DigitCodes(front)), 0x30 + d);
      DigitIsAdded(Parser.AfterParams(p, DigitCodes(front)), d);
      assert front == [] ==> digits == [d];
      assert own[|own| - 1 := SubValue(front)][|own| - 1 := SubValue(digits)] == own[|own| - 1 := SubValue(digits)];
    }
  }

  // ---- sub-parameters ----

  /** The list after a field's sub-parameters have been read. */
  function WithSubs(p: ParamList, subs: seq<seq<nat>>): ParamList
    requires p.subs != []
  {
    p.(subs := p.subs[|p.subs| - 1 := SubValues(subs)], digitIsSub := subs != [])
  }

  lemma {:induction false} TotalOfLast(subs: seq<seq<int>>, own: seq<int>)
    requires subs != []
    ensures TotalSubs(subs[|subs| - 1 := own]) == TotalSubs(subs[..|subs| - 1]) + |own|
  {
    assert subs[|subs| - 1 := own][..|subs| - 1] == subs[..|subs| - 1];
  }

  lemma {:induction false} OneSub(p: ParamList, digits: seq<nat>)
    requires Numeral(digits) && !p.rejectDigits && !p.rejectSubDigits && p.values != [] && p.subs != []
    requires TotalSubs(p.subs) < MAX_SUB_PARAMS
    ensures Parser.AfterParams(p, [0x3a] + DigitCodes(digits)) ==
            p.(subs := p.subs[|p.subs| - 1 := LastSub(p) + [SubValue(digits)]], digitIsSub := true)
  {
    hide Numeral, AddDigit, Parser.AfterParams, SubValue, DigitCodes;
    var k, own := |p.subs| - 1, LastSub(p);
    AfterParamsAppend(p, [0x3a], DigitCodes(digits));
    AfterParamsOne(p, 0x3a);
    var q := AddSubParam(p, -1);
    SubDigits(q, digits);
    assert (own + [-1])[|own| := SubValue(digits)] == own + [SubValue(digits)];
    assert p.subs[k := own + [-1]][k := own + [SubValue(digits)]] == p.subs[k := own + [SubValue(digits)]];
  }

  lemma {:induction false} SubsParsed(p: ParamList, subs: seq<seq<nat>>)
    requires !p.rejectDigits && !p.digitIsSub && !p.rejectSubDigits && p.values != [] && p.subs != [] &&
             LastSub(p) == []
    requires TotalSubs(p.subs[..|p.subs| - 1]) + |subs| <= MAX_SUB_PARAMS
    requires forall s :: s in subs ==> Numeral(s)
    ensures Parser.AfterParams(p, SubsText(subs)) == WithSubs(p, subs)
  {
    hide Numeral, Parser.AfterParams, SubValue, SubValues, DigitCodes, TotalSubs, SubsText;
    if subs == [] {
      NoSubs(p);
    } else {
      var front, last := subs[..|subs| - 1], subs[|subs| - 1];
      assert forall s :: s in front ==> s in subs;
      assert last in subs;
      SubsParsed(p, front);
      SubsUnfold(subs);
      var q := WithSubs(p, front);
      TotalOfLast(p.subs, SubValues(front));
      OneSub(q, last);
      AfterParamsAppend(p, SubsText(front), [0x3a] + DigitCodes(last));
    }
  }

  lemma {:induction false} SubsUnfold(subs: seq<seq<nat>>)
    requires subs != []
    ensures var front, last := subs[..|subs| - 1], subs[|subs| - 1];
            && SubsText(subs) == SubsText(front) + ([0x3a] + DigitCodes(last))
            && |SubValues(front)| == |front| && SubValues(subs) == SubValues(front) + [SubValue(last)]
  {
    hide SubValue, DigitCodes;
  }

  lemma NoSubs(p: ParamList)
    requires p.subs != [] && LastSub(p) == [] && !p.digitIsSub
    ensures Parser.AfterParams(p, SubsText([])) == WithSubs(p, [])
  {
    AfterParamsOne(p, 0);
    assert p.subs[|p.subs| - 1 := []] == p.subs;
  }

  // ---- parameters ----

  lemma {:induction false} FieldParsed(p: ParamList, f: Field)
    requires !p.rejectDigits && !p.digitIsSub && !p.rejectSubDigits && p.values != [] && p.subs != [] &&
             LastSub(p) == []
    requires p.values[|p.values| - 1] == 0
    requires TotalSubs(p.subs[..|p.subs| - 1]) + |f.subs| <= MAX_SUB_PARAMS
    requires Numeral(f.digits) && forall s :: s in f.subs ==> Numeral(s)
    ensures Parser.AfterParams(p, FieldText(f)) ==
            WithSubs(p.(values := p.values[|p.values| - 1 := NumberOf(0, f.digits)]), f.subs)
  {
    hide Numeral, Parser.AfterParams, DigitCodes, TotalSubs, SubsText, NumberOf, WithSubs;
    AfterParamsAppend(p, DigitCodes(f.digits), SubsText(f.subs));
    ValueDigits(p, f.digits);
    SubsParsed(p.(values := p.values[|p.values| - 1 := NumberOf(0, f.digits)]), f.subs);
  }

  /** The list that the fields stand for. */
  function ListOf(fields: seq<Field>): ParamList {
    ParamList(Values(fields), Subs(fields), false, false, fields != [] && fields[|fields| - 1].subs != [])
  }

  /** A list whose last value is to be read. */
  predicate Opens(p: ParamList, f: Field) {
    && !p.rejectDigits && !p.digitIsSub && !p.rejectSubDigits && p.values != [] && p.subs != [] && LastSub(p) == []
    && p.values[|p.values| - 1] == 0
    && TotalSubs(p.subs[..|p.subs| - 1]) + |f.subs| <= MAX_SUB_PARAMS
  }

  function WithField(p: ParamList, f: Field): ParamList
    requires p.values != [] && p.subs != []
  {
    WithSubs(p.(values := p.values[|p.values| - 1 := NumberOf(0, f.digits)]), f.subs)
  }

  lemma {:induction false} FirstField(fields: seq<Field>)
    requires |fields| == 1 && ValidFields(fields)
    ensures Opens(CLEARED, fields[0]) && WithField(CLEARED, fields[0]) == ListOf(fields)
  {
    hide Numeral, NumberOf;
    assert Subs(fields)[..0] == [];
  }

  lemma {:induction false} NextField(fields: seq<Field>)
    requires |fields| > 1 && ValidFields(fields)
    ensures var n := |fields| - 1; var q := AddParam(ListOf(fields[..n]), 0);
            Opens(q, fields[n]) && WithField(q, fields[n]) == ListOf(fields)
  {
    hide Numeral, NumberOf;
    var n := |fields| - 1;
    var front, last := fields[..n], fields[n];
    var q := AddParam(ListOf(front), 0);
    assert Subs(fields)[..n] == Subs(front) && q.subs[..n] == Subs(front);
    assert Values(fields) == Values(front) + [NumberOf(0, last.digits)];
    assert Subs(fields) == Subs(front) + [SubValues(last.subs)];
  }

  lemma {:induction false} FieldsParsed(fields: seq<Field>)
    requires fields != [] && ValidFields(fields)
    ensures Parser.AfterParams(CLEARED, FieldsText(fields)) == ListOf(fields)
  {
    hide Numeral, Parser.AfterParams, FieldText, NumberOf, WithSubs, ListOf, TotalSubs;
    var n := |fields| - 1;
    var front, last := fields[..n], fields[n];
    assert last in fields;
    if n == 0 {
      FirstField(fields);
      FieldParsed(CLEARED, last);
    } else {
      FrontIsValid(fields);
      FieldsParsed(front);
      NextField(fields);
      AfterParamsAppend(CLEARED, FieldsText(front) + [0x3b], FieldText(last));
      AfterParamsAppend(CLEARED, FieldsText(front), [0x3b]);
      AfterParamsOne(ListOf(front), 0x3b);
      FieldParsed(AddParam(ListOf(front), 0), last);
    }
  }

  lemma {:induction false} FrontIsValid(fields: seq<Field>)
    requires fields != [] && ValidFields(fields)
    ensures ValidFields(fields[..|fields| - 1])
  {
    hide Numeral;
    var front := fields[..|fields| - 1];
    assert Subs(front) == Subs(fields)[..|fields| - 1];
    assert forall f :: f in front ==> f in fields;
  }

  // ---- the whole sequence ----

  /** A function identifier as handlers are registered: prefix, intermediates, final byte. */
  datatype Function = Function(prefix: seq<nat>, intermediates: seq<nat>, final: nat)

  predicate Intermediate(code: nat) {
    0x20 <= code < 0x30
  }

  predicate ValidFunction(f: Function) {
    && |f.prefix| <= 1 && (forall c :: c in f.prefix ==> 0x3c <= c < 0x40)
    && (forall c :: c in f.intermediates ==> Intermediate(c))
    && 0x40 <= f.final < 0x7f
  }

  function CollectAll(collect: nat, codes: seq<nat>): nat {
    if codes == [] then collect else Collected(CollectAll(collect, codes[..|codes| - 1]), codes[|codes| - 1])
  }

  /** The number under which a handler is registered. */
  function Identifier(f: Function): nat {
    Collected(CollectAll(if f.prefix == [] then 0 else f.prefix[0], f.intermediates), f.final)
  }

  function CsiText(f: Function, fields: seq<Field>): seq<nat> {
    [0x1b, 0x5b] + f.prefix + FieldsText(fields) + f.intermediates + [f.final]
  }

  /** The end of a string that is still open, as ESC ends it. */
  function Closing(s: State): seq<Event> {
    match s
    case OscString => [OscEnded(true)]
    case DcsPassthrough => [DcsUnhooked(true)]
    case ApcString => [ApcEnded(true)]
    case _ => []
  }

  /** ESC ends any open string, and only that; `[` then opens the sequence with nothing collected. */
  lemma {:induction false} Opened(m: Machine)
    ensures Feed(m, [0x1b, 0x5b]) == Outcome(Machine(CsiEntry, 0, CLEARED), Closing(m.state))
  {
    assert [0x1b, 0x5b] == [0x1b] + [0x5b];
    FeedAppend(m, [0x1b], [0x5b]);
    FeedOne(m, 0x1b);
    EscFromAnywhere(m);
    var escaped := Step(m, 0x1b).to;
    FeedOne(escaped, 0x5b);
  }

  lemma EscFromAnywhere(m: Machine)
    ensures Step(m, 0x1b) == Outcome(Machine(Escape, 0, CLEARED), Closing(m.state))
  {
  }

  lemma {:induction false} PrefixFed(m: Machine, f: Function)
    requires ValidFunction(f) && m == Machine(CsiEntry, 0, CLEARED)
    ensures var after := if f.prefix == [] then m else Machine(CsiParam, f.prefix[0], CLEARED);
            Feed(m, f.prefix) == Outcome(after, [])
  {
    if f.prefix == [] {
      FeedNothing(m);
    } else {
      assert f.prefix == [f.prefix[0]] && f.prefix[0] in f.prefix;
      FeedOne(m, f.prefix[0]);
    }
  }

  lemma FeedNothing(m: Machine)
    ensures Feed(m, []) == Outcome(m, [])
  {
  }

  lemma {:induction false} ParamsFed(m: Machine, codes: seq<nat>)
    requires m.state == CsiEntry || m.state == CsiParam
    requires forall c :: c in codes ==> Parser.RunsParam(c)
    ensures Feed(m, codes) ==
            Outcome(Machine(if codes == [] then m.state else CsiParam, m.collect,
                            Parser.AfterParams(m.params, codes)), [])
  {
    if codes == [] {
      FeedNothing(m);
      AfterParamsOne(m.params, 0);
    } else {
      hide Run, Feed, Parser.AfterParams, Cleaned;
      assert codes[0] in codes;
      assert forall c :: c in codes[1..] ==> c in codes;
      Parser.TurnIsRun(m, codes);
      RunAheadRefinesTable(Ahead(m, false), codes);
      CleanedIsShorter([]);
    }
  }

  lemma {:induction false} IntermediatesFed(m: Machine, codes: seq<nat>)
    requires m.state in {CsiEntry, CsiParam, CsiIntermediate}
    requires forall c :: c in codes ==> Intermediate(c)
    ensures Feed(m, codes) ==
            Outcome(Machine(if codes == [] then m.state else CsiIntermediate, CollectAll(m.collect, codes),
                            m.params), [])
  {
    hide Step;
    if codes == [] {
      assert m == Machine(m.state, m.collect, m.params);
    } else {
      var front, last := codes[..|codes| - 1], codes[|codes| - 1];
      assert codes == front + [last];
      IntermediatesFed(m, front);
      OneIntermediate(Feed(m, front).to, last);
    }
  }

  lemma OneIntermediate(m: Machine, code: nat)
    requires m.state in {CsiEntry, CsiParam, CsiIntermediate} && Intermediate(code)
    ensures Step(m, code) == Outcome(Machine(CsiIntermediate, Collected(m.collect, code), m.params), [])
  {
  }

  lemma {:induction false} DigitCodesRun(digits: seq<nat>)
    requires Numeral(digits)
    ensures forall c :: c in DigitCodes(digits) ==> Parser.RunsParam(c)
  {
    hide NumberOf;
    forall c | c in DigitCodes(digits)
      ensures Parser.RunsParam(c)
    {
      var k :| 0 <= k < |digits| && DigitCodes(digits)[k] == c;
      assert digits[k] in digits;
    }
  }

  lemma {:induction false} SubsTextRuns(subs: seq<seq<nat>>)
    requires forall s :: s in subs ==> Numeral(s)
    ensures forall c :: c in SubsText(subs) ==> Parser.RunsParam(c)
  {
    hide Numeral, DigitCodes;
    if subs != [] {
      SubsTextRuns(subs[..|subs| - 1]);
      assert subs[|subs| - 1] in subs;
      DigitCodesRun(subs[|subs| - 1]);
    }
  }

  lemma {:induction false} FieldsTextRuns(fields: seq<Field>)
    requires forall f :: f in fields ==> Numeral(f.digits) && forall s :: s in f.subs ==> Numeral(s)
    ensures forall c :: c in FieldsText(fields) ==> Parser.RunsParam(c)
  {
    hide Numeral, DigitCodes, SubsText;
    if fields != [] {
      var last := fields[|fields| - 1];
      assert last in fields;
      DigitCodesRun(last.digits);
      SubsTextRuns(last.subs);
      FieldsTextRuns(fields[..|fields| - 1]);
    }
  }

  lemma {:induction false} FinalFed(m: Machine, final: nat)
    requires m.state in {CsiEntry, CsiParam, CsiIntermediate} && 0x40 <= final < 0x7f
    ensures Feed(m, [final]) ==
            Outcome(m.(state := Ground), [CsiCalled(Collected(m.collect, final), m.params.values, m.params.subs)])
  {
    FeedOne(m, final);
  }

  /** What the parser makes of the fields: without any, one parameter of value zero. */
  function Parsed(fields: seq<Field>): ParamList {
    if fields == [] then CLEARED else ListOf(fields)
  }

  /** From any machine, the sequence causes exactly one call, with the identifier and the parameters
      that were written; before it, an open string is ended. */
  lemma {:induction false} CsiRoundTrips(m: Machine, f: Function, fields: seq<Field>)
    requires ValidFunction(f) && ValidFields(fields)
    ensures var p := Parsed(fields);
            && Feed(m, CsiText(f, fields)).to.state == Ground
            && Feed(m, CsiText(f, fields)).events == Closing(m.state) + [CsiCalled(Identifier(f), p.values, p.subs)]
  {
    hide *;
    var body := FieldsText(fields);
    var entry := Machine(CsiEntry, 0, CLEARED);
    EscFromAnywhere(m);
    Opened(m);
    PrefixFed(entry, f);
    var m1 := Feed(entry, f.prefix).to;
    BodyFed(m1, f, fields);
    var start := [0x1b, 0x5b];
    FeedAppend(m, start, f.prefix);
    FeedAppend(m, start + f.prefix, body + f.intermediates + [f.final]);
    TextParts(f, fields);
  }

  lemma TextParts(f: Function, fields: seq<Field>)
    ensures CsiText(f, fields) == [0x1b, 0x5b] + f.prefix + (FieldsText(fields) + f.intermediates + [f.final])
  {
  }

  lemma {:induction false} BodyFed(m: Machine, f: Function, fields: seq<Field>)
    requires ValidFunction(f) && ValidFields(fields) && m.params == CLEARED
    requires m.state == CsiEntry || m.state == CsiParam
    requires m.collect == if f.prefix == [] then 0 else f.prefix[0]
    ensures var p := Parsed(fields);
            var o := Feed(m, FieldsText(fields) + f.intermediates + [f.final]);
            o.to.state == Ground && o.events == [CsiCalled(Identifier(f), p.values, p.subs)]
  {
    hide Feed, FieldsText, Numeral, CollectAll, TotalSubs, ListOf;
    var body := FieldsText(fields);
    FieldsTextRuns(fields);
    ParamsFed(m, body);
    if fields == [] {
      NoFields();
    } else {
      FieldsParsed(fields);
    }
    var m1 := Feed(m, body).to;
    IntermediatesFed(m1, f.intermediates);
    var m2 := Feed(m1, f.intermediates).to;
    FinalFed(m2, f.final);
    FeedAppend(m, body, f.intermediates);
    FeedAppend(m, body + f.intermediates, [f.final]);
  }

  lemma NoFields()
    ensures FieldsText([]) == [] && Parser.AfterParams(CLEARED, []) == CLEARED
  {
  }

  // ---- identifiers name functions ----

  /** The bytes of an identifier, most significant first. */
  function IdentBytes(ident: nat): seq<nat> {
    if ident == 0 then [] else IdentBytes(ident / 256) + [ident % 256]
  }

  method IdentToString(ident: nat) returns (res: seq<nat>)
    ensures res == IdentBytes(ident)
  {
    res := [];
    var rest := ident;
    while rest != 0
      invariant IdentBytes(ident) == IdentBytes(rest) + res
    {
      res := [rest % 256] + res;
      rest := rest / 256;
    }
  }

  lemma {:induction false} SpanBounds(n: nat)
    requires n <= 7
    ensures ByteWords.Span(n + 1) == 256 * ByteWords.Span(n) && ByteWords.Span(n + 1) <= COLLECT_SPAN
    decreases 7 - n
  {
    if n == 7 {
      ByteWords.EightBytes();
    } else {
      SpanBounds(n + 1);
    }
  }

  lemma {:induction false} BytesCollected(collect: nat, n: nat, code: nat)
    requires n <= 7 && collect < ByteWords.Span(n) && 0 < code < 256
    ensures Collected(collect, code) < ByteWords.Span(n + 1)
    ensures IdentBytes(Collected(collect, code)) == IdentBytes(collect) + [code]
  {
    hide ByteWords.Span, IdentBytes;
    SpanBounds(n);
    var x := collect * 256 + code;
    assert x < 256 * ByteWords.Span(n);
    assert Collected(collect, code) == x;
    LastByte(collect, code);
  }

  lemma LastByte(collect: nat, code: nat)
    requires 0 < code < 256
    ensures IdentBytes(collect * 256 + code) == IdentBytes(collect) + [code]
  {
    assert (collect * 256 + code) / 256 == collect;
  }

  lemma {:induction false} BytesOfAll(collect: nat, n: nat, codes: seq<nat>)
    requires n + |codes| <= 8 && collect < ByteWords.Span(n) && forall c :: c in codes ==> Intermediate(c)
    ensures CollectAll(collect, codes) < ByteWords.Span(n + |codes|)
    ensures IdentBytes(CollectAll(collect, codes)) == IdentBytes(collect) + codes
  {
    hide ByteWords.Span, IdentBytes, Collected;
    if codes != [] {
      var front, last := codes[..|codes| - 1], codes[|codes| - 1];
      assert codes == front + [last] && last in codes;
      BytesOfAll(collect, n, front);
      BytesCollected(CollectAll(collect, front), n + |front|, last);
    }
  }

  /** Functions of up to eight bytes have their bytes for a name, so none is mistaken for another. */
  lemma {:induction false} IdentifierNames(f: Function)
    requires ValidFunction(f) && |f.prefix| + |f.intermediates| + 1 <= 8
    ensures IdentBytes(Identifier(f)) == f.prefix + f.intermediates + [f.final]
  {
    hide CollectAll, Collected;
    var start := if f.prefix == [] then 0 else f.prefix[0];
    if f.prefix != [] {
      assert f.prefix == [f.prefix[0]] && f.prefix[0] in f.prefix;
      PrefixByte(f.prefix[0]);
    }
    ByteWords.EightBytes();
    BytesOfAll(start, |f.prefix|, f.intermediates);
    BytesCollected(CollectAll(start, f.intermediates), |f.prefix| + |f.intermediates|, f.final);
  }

  lemma PrefixByte(c: nat)
    requires 0 < c < 256
    ensures IdentBytes(c) == [c]
  {
    assert IdentBytes(c / 256) == [];
  }

  lemma {:induction false} IdentifiersAreDistinct(f: Function, g: Function)
    requires ValidFunction(f) && |f.prefix| + |f.intermediates| + 1 <= 8
    requires ValidFunction(g) && |g.prefix| + |g.intermediates| + 1 <= 8
    ensures Identifier(f) == Identifier(g) <==> f == g
  {
    hide Identifier, IdentBytes;
    if Identifier(f) == Identifier(g) {
      IdentifierNames(f);
      IdentifierNames(g);
      var fs, gs := f.prefix + f.intermediates, g.prefix + g.intermediates;
      assert (fs + [f.final])[..|fs|] == fs && (gs + [g.final])[..|gs|] == gs;
      assert fs == gs && f.final == g.final;
      SamePrefix(f, g);
    }
  }

  lemma FirstByteTells(f: Function)
    requires ValidFunction(f)
    ensures var bytes := f.prefix + f.intermediates; |f.prefix| == if bytes != [] && bytes[0] >= 0x3c then 1 else 0
  {
    if f.prefix != [] {
      assert f.prefix[0] in f.prefix;
    } else if f.intermediates != [] {
      assert f.intermediates[0] in f.intermediates;
    }
  }

  lemma SamePrefix(f: Function, g: Function)
    requires ValidFunction(f) && ValidFunction(g) && f.prefix + f.intermediates == g.prefix + g.intermediates
    ensures f.prefix == g.prefix && f.intermediates == g.intermediates
  {
    var fs, gs := f.prefix + f.intermediates, g.prefix + g.intermediates;
    FirstByteTells(f);
    FirstByteTells(g);
    assert |f.prefix| == |g.prefix|;
    assert fs[..|f.prefix|] == f.prefix && gs[..|g.prefix|] == g.prefix;
    assert fs[|f.prefix|..] == f.intermediates && gs[|g.prefix|..] == g.intermediates;
  }
}
