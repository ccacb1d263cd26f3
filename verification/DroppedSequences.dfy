/** What the parser lets pass without a call: strings of no use to a terminal, malformed sequences, and
    the codes that it reports as errors; and the openings of a single code. */
module DroppedSequences {
  import opened ParserTable
  import opened ParserParams
  import opened ParserMachine
  import opened StringRoundTrip
  import C = CsiRoundTrip

  // ---- openings of one code ----

  /** The codes that stand for ESC and the letter 0x40 below. */
  predicate Opens(code: nat) {
    code in {0x90, 0x98, 0x9b, 0x9d, 0x9e, 0x9f}
  }

  function Opened(code: nat): (State, seq<Event>) {
    if code == 0x90 then (DcsEntry, [])
    else if code == 0x9b then (CsiEntry, [])
    else if code == 0x9d then (OscString, [OscStarted])
    else if code == 0x9f then (ApcString, [ApcStarted])
    else (SosPmString, [])
  }

  lemma {:induction false} CodeOpens(m: Machine, code: nat)
    requires Opens(code)
    ensures Step(m, code).to.state == Opened(code).0 && Step(m, code).events == Opened(code).1
    ensures code == 0x90 || code == 0x9b ==> Step(m, code).to == Machine(Opened(code).0, 0, CLEARED)
  {
    hide Vt500;
    OpensAnywhere(m.state, code);
  }

  lemma OpensAnywhere(s: State, code: nat)
    requires Opens(code)
    ensures Vt500(s, code) == Anywhere(code)
  {
  }

  lemma LetterOpens(code: nat)
    requires Opens(code)
    ensures Step(Machine(Escape, 0, CLEARED), code - 0x40) ==
            Outcome(Machine(Opened(code).0, 0, CLEARED), Opened(code).1)
  {
  }

  /** From any machine they lead where ESC and the letter lead, with the same call, except that no open
      string is ended. */
  lemma {:induction false} OneCodeOpens(m: Machine, code: nat)
    requires Opens(code)
    ensures Feed(m, [0x1b, code - 0x40]).to.state == Feed(m, [code]).to.state
    ensures Feed(m, [0x1b, code - 0x40]).events == C.Closing(m.state) + Feed(m, [code]).events
    ensures code == 0x90 || code == 0x9b ==> Feed(m, [0x1b, code - 0x40]).to == Feed(m, [code]).to
  {
    hide Step, Opened;
    FeedOne(m, code);
    CodeOpens(m, code);
    LetterOpens(code);
    EscThen(m, code - 0x40);
  }

  // ---- what is reported as an error ----

  /** The codes above 0x9f are characters there, or payload, or left out with the rest. */
  predicate TakesCharacters(s: State) {
    s in {Ground, OscString, ApcString, DcsPassthrough, DcsIgnore, CsiIgnore}
  }

  /** An error is reported exactly for the single codes without a function, and for characters where none
      can stand; the parser then is in ground. */
  lemma {:induction false} FaultsExactly(m: Machine, code: nat)
    ensures Step(m, code).events == [Faulted(code, m.state)] <==>
            code >= 0x80 && !Opens(code) && code != 0x9c && !(code >= NON_ASCII_PRINTABLE && TakesCharacters(m.state))
    ensures Step(m, code).events == [Faulted(code, m.state)] ==> Step(m, code).to == m.(state := Ground)
  {
  }

  // ---- sequences and strings that are dropped ----

  /** A state in which a sequence or a string is left out. */
  predicate Drops(s: State) {
    s == SosPmString || s == DcsIgnore || s == CsiIgnore
  }

  /** The codes that stay within it, without a call. */
  predicate Dropped(s: State, code: nat) {
    match s
    case SosPmString => Executable(code) || 0x20 <= code < 0x80
    case DcsIgnore => Executable(code) || 0x20 <= code < 0x80 || code >= NON_ASCII_PRINTABLE
    case _ => 0x20 <= code < 0x40 || code == 0x7f || code >= NON_ASCII_PRINTABLE
  }

  lemma DroppedStep(m: Machine, code: nat)
    requires Drops(m.state) && Dropped(m.state, code)
    ensures Step(m, code) == Outcome(m, [])
  {
  }

  lemma {:induction false} NothingComes(m: Machine, codes: seq<nat>)
    requires Drops(m.state) && forall c :: c in codes ==> Dropped(m.state, c)
    ensures Feed(m, codes) == Outcome(m, [])
  {
    hide Step, Dropped;
    if codes != [] {
      var front, last := codes[..|codes| - 1], codes[|codes| - 1];
      assert last in codes && forall c :: c in front ==> c in codes;
      NothingComes(m, front);
      DroppedStep(m, last);
    }
  }

  /** SOS and PM strings come to nothing but their end. */
  lemma {:induction false} UselessString(m: Machine, letter: nat, payload: seq<nat>, closer: seq<nat>)
    requires letter == 0x58 || letter == 0x5e
    requires forall c :: c in payload ==> Dropped(SosPmString, c)
    requires closer == [0x9c] || closer == [0x1b, 0x5c] || closer == [0x18] || closer == [0x1a]
    ensures Feed(m, [0x1b, letter] + payload + closer).to.state == Ground
    ensures Feed(m, [0x1b, letter] + payload + closer).events ==
            C.Closing(m.state) + if closer == [0x1b, 0x5c] then [EscCalled(0x5c)]
                                 else if closer == [0x9c] then [] else [Executed(closer[0])]
  {
    hide Feed, Step, Dropped;
    EscThen(m, letter);
    Useless(letter);
    var m1 := Machine(SosPmString, 0, CLEARED);
    NothingComes(m1, payload);
    UselessEnds(m1, closer);
    FeedAppend(m, [0x1b, letter], payload);
    FeedAppend(m, [0x1b, letter] + payload, closer);
  }

  lemma Useless(letter: nat)
    requires letter == 0x58 || letter == 0x5e
    ensures Step(Machine(Escape, 0, CLEARED), letter) == Outcome(Machine(SosPmString, 0, CLEARED), [])
  {
  }

  lemma {:induction false} UselessEnds(m: Machine, closer: seq<nat>)
    requires m.state == SosPmString || m.state == DcsIgnore
    requires closer == [0x9c] || closer == [0x1b, 0x5c] || closer == [0x18] || closer == [0x1a]
    ensures Feed(m, closer).to.state == Ground
    ensures Feed(m, closer).events == if closer == [0x1b, 0x5c] then [EscCalled(0x5c)]
                                      else if closer == [0x9c] then [] else [Executed(closer[0])]
  {
    hide Step, C.Closing;
    if closer == [0x1b, 0x5c] {
      NothingToClose(m.state);
      EscThen(m, 0x5c);
      EscFinalStep(Machine(Escape, 0, CLEARED), 0x5c);
    } else {
      FeedOne(m, closer[0]);
      EndOfUseless(m, closer[0]);
    }
  }

  lemma NothingToClose(s: State)
    requires s == SosPmString || s == DcsIgnore
    ensures C.Closing(s) == []
  {
  }

  lemma EndOfUseless(m: Machine, code: nat)
    requires (m.state == SosPmString || m.state == DcsIgnore) && (code == 0x9c || code == 0x18 || code == 0x1a)
    ensures Step(m, code) == Outcome(m.(state := Ground), if code == 0x9c then [] else [Executed(code)])
  {
  }

  /** A byte that cannot stand where it does: a private marker behind a parameter, or a parameter or a
      marker behind an intermediate byte. */
  predicate Misplaced(s: State, code: nat) {
    || ((s == CsiParam || s == DcsParam) && 0x3c <= code < 0x40)
    || ((s == CsiIntermediate || s == DcsIntermediate) && 0x30 <= code < 0x40)
  }

  /** A control sequence with a misplaced byte is left out up to its final byte, and calls nothing. */
  lemma {:induction false} MalformedCsi(m: Machine, code: nat, rest: seq<nat>, final: nat)
    requires (m.state == CsiParam || m.state == CsiIntermediate) && Misplaced(m.state, code)
    requires (forall c :: c in rest ==> Dropped(CsiIgnore, c)) && 0x40 <= final < 0x7f
    ensures Feed(m, [code] + rest + [final]) == Outcome(m.(state := Ground), [])
  {
    hide Feed, Step, Dropped;
    FeedOne(m, code);
    MisplacedStep(m, code);
    var m1 := m.(state := CsiIgnore);
    NothingComes(m1, rest);
    FeedOne(m1, final);
    IgnoredFinal(m1, final);
    FeedAppend(m, [code], rest);
    FeedAppend(m, [code] + rest, [final]);
  }

  lemma MisplacedStep(m: Machine, code: nat)
    requires Misplaced(m.state, code)
    ensures Step(m, code) ==
            Outcome(m.(state := if m.state == CsiParam || m.state == CsiIntermediate then CsiIgnore else DcsIgnore), [])
  {
  }

  lemma IgnoredFinal(m: Machine, final: nat)
    requires m.state == CsiIgnore && 0x40 <= final < 0x7f
    ensures Step(m, final) == Outcome(m.(state := Ground), [])
  {
  }

  /** A device control string with a misplaced byte is left out up to its end, and only that is seen. */
  lemma {:induction false} MalformedDcs(m: Machine, code: nat, rest: seq<nat>, closer: seq<nat>)
    requires (m.state == DcsParam || m.state == DcsIntermediate) && Misplaced(m.state, code)
    requires forall c :: c in rest ==> Dropped(DcsIgnore, c)
    requires closer == [0x9c] || closer == [0x1b, 0x5c] || closer == [0x18] || closer == [0x1a]
    ensures Feed(m, [code] + rest + closer).to.state == Ground
    ensures Feed(m, [code] + rest + closer).events == if closer == [0x1b, 0x5c] then [EscCalled(0x5c)]
                                                      else if closer == [0x9c] then [] else [Executed(closer[0])]
  {
    hide Feed, Step, Dropped;
    FeedOne(m, code);
    MisplacedStep(m, code);
    var m1 := m.(state := DcsIgnore);
    NothingComes(m1, rest);
    UselessEnds(m1, closer);
    FeedAppend(m, [code], rest);
    FeedAppend(m, [code] + rest, closer);
  }
}
