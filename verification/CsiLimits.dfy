/** Control sequences with more parameters or sub-parameters than there is room for. */
module CsiLimits {
  import opened ParserTable
  import opened ParserParams
  import opened ParserMachine
  import opened CsiRoundTrip
  import Parser

  predicate Numerals(fields: seq<Field>) {
    forall k :: 0 <= k < |fields| ==> NumeralField(fields[k])
  }

  predicate NumeralField(f: Field) {
    Numeral(f.digits) && forall s :: s in f.subs ==> Numeral(s)
  }

  function Least(a: nat, b: nat): nat {
    if a < b then a else b
  }

  /** The first 32 values. */
  function KeptValues(fields: seq<Field>): seq<int> {
    Values(fields[..Least(|fields|, MAX_PARAMS)])
  }

  /** Of their sub-parameters, the first 32 of all. */
  function KeptSubs(fields: seq<Field>): (subs: seq<seq<int>>)
    ensures TotalSubs(subs) <= MAX_SUB_PARAMS && |subs| <= MAX_PARAMS && |subs| == Least(|fields|, MAX_PARAMS)
  {
    if fields == [] then []
    else
      var front, own := KeptSubs(fields[..|fields| - 1]), SubValues(fields[|fields| - 1].subs);
      if |fields| > MAX_PARAMS then front
      else
        var last := own[..Least(|own|, MAX_SUB_PARAMS - TotalSubs(front))];
        assert (front + [last])[..|front|] == front;
        front + [last]
  }

  // ---- digits that find no room ----

  lemma {:induction false} DigitsRejected(p: ParamList, digits: seq<nat>)
    requires p.rejectDigits || (p.digitIsSub && p.rejectSubDigits)
    requires forall d :: d in digits ==> d <= 9
    ensures Parser.AfterParams(p, DigitCodes(digits)) == p
  {
    hide WithDigit;
    if digits == [] {
      assert DigitCodes(digits) == [];
    } else {
      var front, d := digits[..|digits| - 1], digits[|digits| - 1];
      assert d in digits && DigitCodes(digits) == DigitCodes(front) + [0x30 + d];
      assert forall c :: c in front ==> c in digits;
      DigitsRejected(p, front);
    }
  }

  /** After a field's sub-parameters, as many as there is room for. */
  function WithKept(p: ParamList, subs: seq<seq<nat>>): ParamList
    requires p.subs != [] && TotalSubs(p.subs[..|p.subs| - 1]) <= MAX_SUB_PARAMS
  {
    var kept := Least(|subs|, MAX_SUB_PARAMS - TotalSubs(p.subs[..|p.subs| - 1]));
    p.(subs := p.subs[|p.subs| - 1 := SubValues(subs)[..kept]], digitIsSub := subs != [],
       rejectSubDigits := p.rejectSubDigits || kept < |subs|)
  }

  /** Room for the sub-parameters of the last value. */
  predicate Open(p: ParamList) {
    && !p.rejectDigits && p.values != [] && p.subs != []
    && TotalSubs(p.subs[..|p.subs| - 1]) <= MAX_SUB_PARAMS
    && (p.rejectSubDigits ==> TotalSubs(p.subs[..|p.subs| - 1]) == MAX_SUB_PARAMS)
  }

  lemma {:induction false} SubsKept(p: ParamList, subs: seq<seq<nat>>)
    requires Open(p) && LastSub(p) == [] && !p.digitIsSub && forall s :: s in subs ==> Numeral(s)
    ensures Parser.AfterParams(p, SubsText(subs)) == WithKept(p, subs)
  {
    hide Numeral, Parser.AfterParams, SubValue, SubValues, DigitCodes, TotalSubs, SubsText;
    if subs == [] {
      NoSubs(p);
      NoneKept(p);
    } else {
      var front, last := subs[..|subs| - 1], subs[|subs| - 1];
      assert forall s :: s in front ==> s in subs;
      assert last in subs;
      SubsKept(p, front);
      SubsUnfold(subs);
      var q := WithKept(p, front);
      KeptTotal(p, front);
      AfterParamsAppend(p, SubsText(front), [0x3a] + DigitCodes(last));
      KeptNext(p, subs);
      if TotalSubs(q.subs) < MAX_SUB_PARAMS {
        OneSub(q, last);
      } else {
        SubRejected(q, last);
      }
    }
  }

  /** One sub-parameter more. */
  lemma {:induction false} KeptNext(p: ParamList, subs: seq<seq<nat>>)
    requires Open(p) && subs != []
    ensures var q, last := WithKept(p, subs[..|subs| - 1]), subs[|subs| - 1];
            WithKept(p, subs) ==
            if TotalSubs(q.subs) < MAX_SUB_PARAMS then
              q.(subs := q.subs[|q.subs| - 1 := LastSub(q) + [SubValue(last)]], digitIsSub := true)
            else q.(digitIsSub := true, rejectSubDigits := true)
  {
    hide SubValue, SubValues, SubsText, TotalSubs;
    var front, last := subs[..|subs| - 1], subs[|subs| - 1];
    var room := MAX_SUB_PARAMS - TotalSubs(p.subs[..|p.subs| - 1]);
    SubsUnfold(subs);
    KeptTotal(p, front);
    var own, own' := SubValues(front), SubValues(subs);
    assert own'[..Least(|subs|, room)] ==
           if |front| < room then own[..Least(|front|, room)] + [SubValue(last)] else own[..Least(|front|, room)];
    var k := |p.subs| - 1;
    assert p.subs[k := own[..Least(|front|, room)]][k := own'[..Least(|subs|, room)]] ==
           p.subs[k := own'[..Least(|subs|, room)]];
  }

  lemma NoneKept(p: ParamList)
    requires Open(p) && LastSub(p) == [] && !p.digitIsSub
    ensures WithKept(p, []) == WithSubs(p, [])
  {
    assert SubValues([])[..0] == SubValues([]);
  }

  lemma {:induction false} KeptTotal(p: ParamList, subs: seq<seq<nat>>)
    requires Open(p)
    ensures var q := WithKept(p, subs); var before := TotalSubs(p.subs[..|p.subs| - 1]);
            && |SubValues(subs)| == |subs| && q.subs[..|q.subs| - 1] == p.subs[..|p.subs| - 1]
            && TotalSubs(q.subs) == before + Least(|subs|, MAX_SUB_PARAMS - before)
  {
    hide SubValue, TotalSubs;
    var kept := Least(|subs|, MAX_SUB_PARAMS - TotalSubs(p.subs[..|p.subs| - 1]));
    TotalOfLast(p.subs, SubValues(subs)[..kept]);
  }

  lemma {:induction false} SubRejected(p: ParamList, digits: seq<nat>)
    requires !p.rejectDigits && p.values != [] && p.subs != [] && TotalSubs(p.subs) >= MAX_SUB_PARAMS && Numeral(digits)
    ensures Parser.AfterParams(p, [0x3a] + DigitCodes(digits)) == p.(digitIsSub := true, rejectSubDigits := true)
  {
    hide Parser.AfterParams, DigitCodes, NumberOf, TotalSubs;
    AfterParamsAppend(p, [0x3a], DigitCodes(digits));
    AfterParamsOne(p, 0x3a);
    DigitsRejected(p.(digitIsSub := true, rejectSubDigits := true), digits);
  }

  lemma {:induction false} FieldKept(p: ParamList, f: Field)
    requires Open(p) && LastSub(p) == [] && !p.digitIsSub && p.values[|p.values| - 1] == 0 && NumeralField(f)
    ensures Parser.AfterParams(p, FieldText(f)) ==
            WithKept(p.(values := p.values[|p.values| - 1 := NumberOf(0, f.digits)]), f.subs)
  {
    hide Numeral, Parser.AfterParams, DigitCodes, TotalSubs, SubsText, NumberOf, WithKept;
    AfterParamsAppend(p, DigitCodes(f.digits), SubsText(f.subs));
    ValueDigits(p, f.digits);
    SubsKept(p.(values := p.values[|p.values| - 1 := NumberOf(0, f.digits)]), f.subs);
  }

  /** Once a value has found no room, nothing more is taken. */
  lemma {:induction false} NothingTaken(p: ParamList, codes: seq<nat>)
    requires p.rejectDigits && |p.values| >= MAX_PARAMS
    ensures var q := Parser.AfterParams(p, codes);
            q.rejectDigits && q.values == p.values && q.subs == p.subs
  {
    hide WithDigit, TotalSubs;
    if codes != [] {
      NothingTaken(p, codes[..|codes| - 1]);
    }
  }

  // ---- the whole list ----

  /** The list after the fields: what was kept, and whether more is refused. */
  predicate Holds(p: ParamList, fields: seq<Field>) {
    && p.values == KeptValues(fields) && p.subs == KeptSubs(fields)
    && p.rejectDigits == (|fields| > MAX_PARAMS)
    && (p.rejectSubDigits && |fields| <= MAX_PARAMS ==> TotalSubs(p.subs) == MAX_SUB_PARAMS)
  }

  lemma {:induction false} FirstHolds(fields: seq<Field>)
    requires |fields| == 1 && Numerals(fields)
    ensures Holds(Parser.AfterParams(CLEARED, FieldsText(fields)), fields)
  {
    hide Numeral, NumberOf, Parser.AfterParams, FieldText;
    var f := fields[0];
    assert NumeralField(f);
    FieldKept(CLEARED, f);
    assert fields[..1] == fields && fields[..0] == [];
    assert CLEARED.subs[..0] == [] && KeptSubs([]) == [] && TotalSubs([]) == 0;
    var own := SubValues(f.subs);
    var q := WithKept(CLEARED.(values := [NumberOf(0, f.digits)]), f.subs);
    assert CLEARED.values[0 := NumberOf(0, f.digits)] == [NumberOf(0, f.digits)];
    assert q.subs == [own[..Least(|own|, MAX_SUB_PARAMS)]];
    assert q.subs[..0] == [];
  }

  lemma {:induction false} NextHolds(p: ParamList, fields: seq<Field>)
    requires |fields| > 1 && NumeralField(fields[|fields| - 1]) && Holds(p, fields[..|fields| - 1])
    ensures Holds(Parser.AfterParams(AddParam(p, 0), FieldText(fields[|fields| - 1])), fields)
  {
    hide Numeral, NumberOf, Parser.AfterParams, FieldText, SubValues, NumeralField;
    var n := |fields| - 1;
    var front, last := fields[..n], fields[n];
    var q := AddParam(p, 0);
    KeptUnfold(fields);
    if |fields| > MAX_PARAMS {
      NothingTaken(q, FieldText(last));
    } else {
      HeldOpens(p, fields);
      FieldKept(q, last);
      HeldNext(p, fields);
    }
  }

  /** The next field finds an open list. */
  lemma {:induction false} HeldOpens(p: ParamList, fields: seq<Field>)
    requires 1 < |fields| <= MAX_PARAMS && Holds(p, fields[..|fields| - 1])
    ensures var q := AddParam(p, 0);
            && Open(q) && LastSub(q) == [] && !q.digitIsSub && q.values[|q.values| - 1] == 0
            && |q.subs| == |fields| && |q.values| == |fields| && q.subs[..|fields| - 1] == p.subs
  {
    hide NumberOf, SubValues, TotalSubs;
  }

  lemma {:induction false} HeldNext(p: ParamList, fields: seq<Field>)
    requires 1 < |fields| <= MAX_PARAMS && Holds(p, fields[..|fields| - 1])
    ensures var n, q := |fields| - 1, AddParam(p, 0);
            && Open(q) && |q.values| == |q.subs| == |fields|
            && Holds(WithKept(q.(values := q.values[n := NumberOf(0, fields[n].digits)]), fields[n].subs), fields)
  {
    hide NumberOf, SubValues, TotalSubs, KeptValues, KeptSubs;
    var n, q := |fields| - 1, AddParam(p, 0);
    HeldOpens(p, fields);
    KeptUnfold(fields);
    var q' := q.(values := q.values[n := NumberOf(0, fields[n].digits)]);
    KeptTotal(q', fields[n].subs);
    assert q'.values == p.values + [NumberOf(0, fields[n].digits)];
  }

  lemma {:induction false} KeptUnfold(fields: seq<Field>)
    requires fields != []
    ensures var n := |fields| - 1; var front, own := KeptSubs(fields[..n]), SubValues(fields[n].subs);
            if |fields| > MAX_PARAMS then
              KeptValues(fields) == KeptValues(fields[..n]) && KeptSubs(fields) == front
            else
              && KeptValues(fields) == KeptValues(fields[..n]) + [NumberOf(0, fields[n].digits)]
              && KeptSubs(fields) == front + [own[..Least(|own|, MAX_SUB_PARAMS - TotalSubs(front))]]
  {
    hide NumberOf, SubValue, TotalSubs;
    var n := |fields| - 1;
    assert fields[..n][..Least(n, MAX_PARAMS)] == fields[..Least(n, MAX_PARAMS)];
  }

  /** Of any parameters and sub-parameters the first 32 each are kept, and the digits of the others go
      nowhere. */
  lemma {:induction false} LimitsHold(fields: seq<Field>)
    requires fields != [] && Numerals(fields)
    ensures Holds(Parser.AfterParams(CLEARED, FieldsText(fields)), fields)
  {
    hide Parser.AfterParams, FieldText, Holds, NumeralField;
    var n := |fields| - 1;
    if n == 0 {
      FirstHolds(fields);
    } else {
      var front, last := fields[..n], fields[n];
      LimitsHold(front);
      var p := Parser.AfterParams(CLEARED, FieldsText(front));
      AfterParamsAppend(CLEARED, FieldsText(front) + [0x3b], FieldText(last));
      AfterParamsAppend(CLEARED, FieldsText(front), [0x3b]);
      AfterParamsOne(p, 0x3b);
      NextHolds(p, fields);
    }
  }

  lemma {:induction false} BodyLimited(m: Machine, f: Function, fields: seq<Field>)
    requires ValidFunction(f) && fields != [] && Numerals(fields) && m.params == CLEARED
    requires m.state == CsiEntry || m.state == CsiParam
    requires m.collect == if f.prefix == [] then 0 else f.prefix[0]
    ensures var o := Feed(m, FieldsText(fields) + f.intermediates + [f.final]);
            o.to.state == Ground && o.events == [CsiCalled(Identifier(f), KeptValues(fields), KeptSubs(fields))]
  {
    hide Feed, FieldsText, Numeral, CollectAll, TotalSubs, KeptValues, KeptSubs, Parser.AfterParams;
    var body := FieldsText(fields);
    FieldsAreNumerals(fields);
    FieldsTextRuns(fields);
    ParamsFed(m, body);
    LimitsHold(fields);
    var m1 := Feed(m, body).to;
    IntermediatesFed(m1, f.intermediates);
    var m2 := Feed(m1, f.intermediates).to;
    FinalFed(m2, f.final);
    FeedAppend(m, body, f.intermediates);
    FeedAppend(m, body + f.intermediates, [f.final]);
  }

  lemma FieldsAreNumerals(fields: seq<Field>)
    requires Numerals(fields)
    ensures forall f :: f in fields ==> Numeral(f.digits) && forall s :: s in f.subs ==> Numeral(s)
  {
    hide Numeral;
    forall f | f in fields
      ensures NumeralField(f)
    {
      var k :| 0 <= k < |fields| && fields[k] == f;
    }
  }

  /** From any machine, a control sequence with any number of parameters and sub-parameters causes exactly
      one call, with the first 32 values and the first 32 of their sub-parameters. */
  lemma {:induction false} LongCsiRoundTrips(m: Machine, f: Function, fields: seq<Field>)
    requires ValidFunction(f) && fields != [] && Numerals(fields)
    ensures Feed(m, CsiText(f, fields)).to.state == Ground
    ensures Feed(m, CsiText(f, fields)).events ==
            Closing(m.state) + [CsiCalled(Identifier(f), KeptValues(fields), KeptSubs(fields))]
  {
    hide *;
    var entry := Machine(CsiEntry, 0, CLEARED);
    Opened(m);
    PrefixFed(entry, f);
    var m1 := Feed(entry, f.prefix).to;
    BodyLimited(m1, f, fields);
    var start := [0x1b, 0x5b];
    FeedAppend(m, start, f.prefix);
    FeedAppend(m, start + f.prefix, FieldsText(fields) + f.intermediates + [f.final]);
    TextParts(f, fields);
  }
}
