/** Parameters and sub-parameters of a control sequence, collected digit by digit. */
module ParserParams {

  const MAX_PARAMS := 32
  const MAX_SUB_PARAMS := 32
  const MAX_PARAM_VALUE := 0x7FFF_FFFF

  /** What a parameter list means: each value with its own sub-parameters. The flags say that
      further digits are dropped, or go to the last sub-parameter. */
  datatype ParamList = ParamList(values: seq<int>, subs: seq<seq<int>>,
                                 rejectDigits: bool, rejectSubDigits: bool, digitIsSub: bool)

  const NO_PARAMS := ParamList([], [], false, false, false)

  function TotalSubs(subs: seq<seq<int>>): nat {
    if subs == [] then 0 else TotalSubs(subs[..|subs| - 1]) + |subs[|subs| - 1]|
  }

  function AddParam(p: ParamList, value: int): ParamList {
    if |p.values| >= MAX_PARAMS then p.(digitIsSub := false, rejectDigits := true)
    else p.(values := p.values + [value], subs := p.subs + [[]], digitIsSub := false)
  }

  function AddSubParam(p: ParamList, value: int): ParamList {
    if p.values == [] || p.subs == [] then p.(digitIsSub := true)
    else if p.rejectDigits || TotalSubs(p.subs) >= MAX_SUB_PARAMS then p.(digitIsSub := true, rejectSubDigits := true)
    else p.(digitIsSub := true, subs := p.subs[|p.subs| - 1 := p.subs[|p.subs| - 1] + [value]])
  }

  /** 32-bit two's complement. */
  function Int32(x: int): (r: int)
    ensures -0x8000_0000 <= r <= MAX_PARAM_VALUE
    ensures -0x8000_0000 <= x <= MAX_PARAM_VALUE ==> r == x
  {
    (x + 0x8000_0000) % 0x1_0000_0000 - 0x8000_0000
  }

  /** A value with one more digit; -1 stands for no digit yet. The sum wraps before it is compared
      with the maximum. */
  function WithDigit(cur: int, digit: int): int {
    if cur == -1 then digit
    else
      var v := Int32(cur * 10 + digit);
      if v > MAX_PARAM_VALUE then MAX_PARAM_VALUE else v
  }

  function AddDigit(p: ParamList, digit: int): ParamList {
    if p.rejectDigits || p.values == [] then p
    else if !p.digitIsSub then
      p.(values := p.values[|p.values| - 1 := WithDigit(p.values[|p.values| - 1], digit)])
    else if p.rejectSubDigits || p.subs == [] || p.subs[|p.subs| - 1] == [] then p
    else
      var own := p.subs[|p.subs| - 1];
      p.(subs := p.subs[|p.subs| - 1 := own[|own| - 1 := WithDigit(own[|own| - 1], digit)]])
  }

  /** Digits count upwards exactly as long as the number fits 31 bits; the clamp to the maximum
      never takes effect. */
  lemma {:induction false} DigitsNeverClamp(cur: int, digit: int)
    requires 0 <= cur <= MAX_PARAM_VALUE && 0 <= digit <= 9
    ensures WithDigit(cur, digit) == cur * 10 + digit <==> cur * 10 + digit <= MAX_PARAM_VALUE
    ensures WithDigit(cur, digit) == Int32(cur * 10 + digit)
    ensures WithDigit(214748364, 8) == -0x8000_0000
  {
  }

  // ---- the arrays the list is kept in ----

  /** Where the sub-parameters of one parameter start and end (one packed word in the program). */
  datatype Span = Span(start: nat, end: nat)

  datatype Store = Store(params: seq<int>, subParams: seq<int>, spans: seq<Span>, length: nat, subLength: nat,
                         rejectDigits: bool, rejectSubDigits: bool, digitIsSub: bool)

  ghost predicate ValidStore(s: Store) {
    && |s.params| == |s.spans| == MAX_PARAMS && |s.subParams| == MAX_SUB_PARAMS
    && s.length <= MAX_PARAMS && s.subLength <= MAX_SUB_PARAMS
    && ValidSpans(s.spans[..s.length], s.subLength)
    && (s.digitIsSub && !s.rejectSubDigits && !s.rejectDigits && s.length > 0 ==>
          s.spans[s.length - 1].start < s.spans[s.length - 1].end)
  }

  /** The spans lie end to end and cover the first `n` sub-parameters. */
  ghost predicate ValidSpans(spans: seq<Span>, n: nat)
  {
    if spans == [] then n == 0
    else
      var last := spans[|spans| - 1];
      last.start <= last.end == n && ValidSpans(spans[..|spans| - 1], last.start)
  }

  ghost function SubsIn(spans: seq<Span>, n: nat, flat: seq<int>): (subs: seq<seq<int>>)
    requires ValidSpans(spans, n) && n <= |flat|
    ensures |subs| == |spans|
  {
    if spans == [] then []
    else
      var last := spans[|spans| - 1];
      SubsIn(spans[..|spans| - 1], last.start, flat) + [flat[last.start..last.end]]
  }

  ghost function ValueOf(s: Store): ParamList
    requires ValidStore(s)
  {
    ParamList(s.params[..s.length], SubsIn(s.spans[..s.length], s.subLength, s.subParams),
              s.rejectDigits, s.rejectSubDigits, s.digitIsSub)
  }

  lemma {:induction false} SubsInTotal(spans: seq<Span>, n: nat, flat: seq<int>)
    requires ValidSpans(spans, n) && n <= |flat|
    ensures TotalSubs(SubsIn(spans, n, flat)) == n
  {
    if spans != [] {
      var front := spans[..|spans| - 1];
      SubsInTotal(front, spans[|spans| - 1].start, flat);
      var subs := SubsIn(spans, n, flat);
      assert subs[..|subs| - 1] == SubsIn(front, spans[|spans| - 1].start, flat);
    }
  }

  lemma {:induction false} SubsInSame(spans: seq<Span>, n: nat, flat: seq<int>, flat': seq<int>)
    requires ValidSpans(spans, n) && n <= |flat| && n <= |flat'| && flat[..n] == flat'[..n]
    ensures SubsIn(spans, n, flat) == SubsIn(spans, n, flat')
  {
    if spans != [] {
      var last := spans[|spans| - 1];
      assert flat[..last.start] == flat[..n][..last.start] && flat'[..last.start] == flat'[..n][..last.start];
      SubsInSame(spans[..|spans| - 1], last.start, flat, flat');
      assert flat[last.start..last.end] == flat[..n][last.start..last.end];
      assert flat'[last.start..last.end] == flat'[..n][last.start..last.end];
    }
  }

  lemma {:induction false} SubsInAt(spans: seq<Span>, n: nat, flat: seq<int>, k: nat)
    requires ValidSpans(spans, n) && n <= |flat| && k < |spans|
    ensures spans[k].start <= spans[k].end <= |flat|
    ensures SubsIn(spans, n, flat)[k] == flat[spans[k].start..spans[k].end]
  {
    if k < |spans| - 1 {
      SubsInAt(spans[..|spans| - 1], spans[|spans| - 1].start, flat, k);
    }
  }

  ghost function StoreAdd(s: Store, value: int): Store
    requires ValidStore(s)
  {
    if s.length >= MAX_PARAMS then s.(digitIsSub := false, rejectDigits := true)
    else s.(digitIsSub := false, spans := s.spans[s.length := Span(s.subLength, s.subLength)],
            params := s.params[s.length := value], length := s.length + 1)
  }

  lemma {:induction false} StoreAddIs(s: Store, value: int)
    requires ValidStore(s)
    ensures ValidStore(StoreAdd(s, value)) && ValueOf(StoreAdd(s, value)) == AddParam(ValueOf(s), value)
  {
    if s.length < MAX_PARAMS {
      var s' := StoreAdd(s, value);
      var spans' := s'.spans[..s'.length];
      assert spans'[..|spans'| - 1] == s.spans[..s.length];
      assert s.subParams[s.subLength..s.subLength] == [];
      assert ValidStore(s');
      assert ValueOf(s').values == ValueOf(s).values + [value];
      assert ValueOf(s').subs == ValueOf(s).subs + [[]];
    }
  }

  ghost function StoreAddSub(s: Store, value: int): Store
    requires ValidStore(s)
  {
    if s.length == 0 then s.(digitIsSub := true)
    else if s.rejectDigits || s.subLength >= MAX_SUB_PARAMS then s.(digitIsSub := true, rejectSubDigits := true)
    else
      var last := s.spans[s.length - 1];
      s.(digitIsSub := true, subParams := s.subParams[s.subLength := value], subLength := s.subLength + 1,
         spans := s.spans[s.length - 1 := Span(last.start, last.end + 1)])
  }

  /** One more sub-parameter for the last parameter. */
  lemma {:induction false} SubsInPushed(spans: seq<Span>, n: nat, flat: seq<int>, value: int)
    requires ValidSpans(spans, n) && n < |flat| && spans != []
    ensures var k := |spans| - 1;
            var spans' := spans[k := Span(spans[k].start, spans[k].end + 1)];
            && ValidSpans(spans', n + 1)
            && SubsIn(spans', n + 1, flat[n := value])
               == SubsIn(spans, n, flat)[k := SubsIn(spans, n, flat)[k] + [value]]
  {
    var k := |spans| - 1;
    var spans', flat' := spans[k := Span(spans[k].start, spans[k].end + 1)], flat[n := value];
    assert spans'[..k] == spans[..k];
    var start := spans[k].start;
    SubsInSame(spans[..k], start, flat, flat');
    assert flat'[start..n + 1] == flat[start..n] + [value];
  }

  /** The last sub-parameter, which is the last parameter's own, is replaced. */
  lemma {:induction false} SubsInReplaced(spans: seq<Span>, n: nat, flat: seq<int>, value: int)
    requires ValidSpans(spans, n) && 0 < n <= |flat| && spans != [] && spans[|spans| - 1].start < n
    ensures var k := |spans| - 1;
            var own := SubsIn(spans, n, flat)[k];
            && own != [] && own[|own| - 1] == flat[n - 1]
            && SubsIn(spans, n, flat[n - 1 := value])
               == SubsIn(spans, n, flat)[k := own[|own| - 1 := value]]
  {
    var k, flat' := |spans| - 1, flat[n - 1 := value];
    var start := spans[k].start;
    SubsInSame(spans[..k], start, flat, flat');
    assert flat'[start..n] == flat[start..n][n - 1 - start := value];
  }

  lemma {:induction false} StoreAddSubIs(s: Store, value: int)
    requires ValidStore(s)
    ensures ValidStore(StoreAddSub(s, value)) && ValueOf(StoreAddSub(s, value)) == AddSubParam(ValueOf(s), value)
  {
    hide ValidSpans, SubsIn, TotalSubs;
    var s' := StoreAddSub(s, value);
    var spans, spans' := s.spans[..s.length], s'.spans[..s'.length];
    SubsInTotal(spans, s.subLength, s.subParams);
    if s.length > 0 && !s.rejectDigits && s.subLength < MAX_SUB_PARAMS {
      SubsInPushed(spans, s.subLength, s.subParams, value);
      var last := spans[s.length - 1];
      assert last.start <= last.end == s.subLength by { LastSpan(spans, s.subLength); }
      assert spans' == spans[s.length - 1 := Span(last.start, last.end + 1)];
    }
  }

  lemma LastSpan(spans: seq<Span>, n: nat)
    requires ValidSpans(spans, n) && spans != []
    ensures spans[|spans| - 1].start <= spans[|spans| - 1].end == n
  {
  }

  ghost function StoreDigit(s: Store, digit: int): Store
    requires ValidStore(s)
  {
    if s.rejectDigits then s
    else if !s.digitIsSub then
      if s.length == 0 then s
      else s.(params := s.params[s.length - 1 := WithDigit(s.params[s.length - 1], digit)])
    else if s.subLength == 0 || s.rejectSubDigits then s
    else s.(subParams := s.subParams[s.subLength - 1 := WithDigit(s.subParams[s.subLength - 1], digit)])
  }

  lemma {:induction false} StoreDigitIs(s: Store, digit: int)
    requires ValidStore(s)
    ensures ValidStore(StoreDigit(s, digit)) && ValueOf(StoreDigit(s, digit)) == AddDigit(ValueOf(s), digit)
  {
    hide WithDigit, SubsIn, ValidSpans;
    var spans := s.spans[..s.length];
    if s.length == 0 {
      NoSpans(spans, s.subLength);
    } else {
      LastSpan(spans, s.subLength);
      if !s.rejectDigits && s.digitIsSub && s.subLength > 0 && !s.rejectSubDigits {
        SubsInReplaced(spans, s.subLength, s.subParams, WithDigit(s.subParams[s.subLength - 1], digit));
      }
    }
  }

  lemma NoSpans(spans: seq<Span>, n: nat)
    requires ValidSpans(spans, n) && spans == []
    ensures n == 0
  {
  }

  class Params {
    const params: array<int>
    const subParams: array<int>
    const subParamsIdx: array<Span>
    var length: nat
    var subParamsLength: nat
    var rejectDigits: bool
    var rejectSubDigits: bool
    var digitIsSub: bool

    ghost function Stored(): Store
      reads this, params, subParams, subParamsIdx
    {
      Store(params[..], subParams[..], subParamsIdx[..], length, subParamsLength, rejectDigits, rejectSubDigits,
            digitIsSub)
    }

    ghost predicate Valid()
      reads this, params, subParams, subParamsIdx
    {
      params != subParams && ValidStore(Stored())
    }

    ghost function Value(): ParamList
      requires Valid()
      reads this, params, subParams, subParamsIdx
    {
      ValueOf(Stored())
    }

    constructor ()
      ensures Valid() && Value() == NO_PARAMS
      ensures fresh(params) && fresh(subParams) && fresh(subParamsIdx)
    {
      params, subParams, subParamsIdx := new int[MAX_PARAMS], new int[MAX_SUB_PARAMS],
        new Span[MAX_PARAMS](_ => Span(0, 0));
      length, subParamsLength := 0, 0;
      rejectDigits, rejectSubDigits, digitIsSub := false, false, false;
    }

    method Reset()
      requires Valid()
      modifies this
      ensures Valid() && Value() == NO_PARAMS
    {
      length, subParamsLength := 0, 0;
      rejectDigits, rejectSubDigits, digitIsSub := false, false, false;
    }

    method Add(value: int)
      requires Valid() && -1 <= value <= MAX_PARAM_VALUE
      modifies this, params, subParamsIdx
      ensures Valid() && Value() == AddParam(old(Value()), value)
    {
      hide ValidSpans, SubsIn, AddParam;
      StoreAddIs(Stored(), value);
      digitIsSub := false;
      if length >= MAX_PARAMS {
        rejectDigits := true;
        return;
      }
      subParamsIdx[length] := Span(subParamsLength, subParamsLength);
      params[length] := value;
      length := length + 1;
      assert Stored() == StoreAdd(old(Stored()), value);
    }

    method AddSub(value: int)
      requires Valid() && -1 <= value <= MAX_PARAM_VALUE
      modifies this, subParams, subParamsIdx
      ensures Valid() && Value() == AddSubParam(old(Value()), value)
    {
      hide ValidSpans, SubsIn, TotalSubs, AddSubParam;
      StoreAddSubIs(Stored(), value);
      digitIsSub := true;
      if length == 0 {
        return;
      }
      if rejectDigits || subParamsLength >= MAX_SUB_PARAMS {
        rejectSubDigits := true;
        return;
      }
      subParams[subParamsLength] := value;
      subParamsLength := subParamsLength + 1;
      subParamsIdx[length - 1] := Span(subParamsIdx[length - 1].start, subParamsIdx[length - 1].end + 1);
      assert Stored() == StoreAddSub(old(Stored()), value);
    }

    method GetSubParams(idx: nat) returns (subs: seq<int>)
      requires Valid() && idx < length
      ensures |Value().subs| == length && subs == Value().subs[idx]
    {
      SubsInAt(subParamsIdx[..length], subParamsLength, subParams[..], idx);
      var span := subParamsIdx[idx];
      subs := if span.end - span.start > 0 then subParams[span.start..span.end] else [];
    }

    method Digit(value: int)
      requires Valid()
      modifies this, params, subParams
      ensures Valid() && Value() == AddDigit(old(Value()), value)
    {
      hide ValidSpans, SubsIn, AddDigit, WithDigit;
      StoreDigitIs(Stored(), value);
      if rejectDigits {
        return;
      }
      var count := if digitIsSub then subParamsLength else length;
      if count == 0 {
        return;
      }
      if digitIsSub && rejectSubDigits {
        return;
      }
      var store := if digitIsSub then subParams else params;
      store[count - 1] := WithDigit(store[count - 1], value);
      assert Stored() == StoreDigit(old(Stored()), value);
    }
  }
}
