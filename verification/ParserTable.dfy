/** The transition table of the VT500 escape sequence parser. */
module ParserTable {

  datatype State =
    | Ground | Escape | EscapeIntermediate
    | CsiEntry | CsiParam | CsiIntermediate | CsiIgnore
    | SosPmString | OscString
    | DcsEntry | DcsParam | DcsIgnore | DcsIntermediate | DcsPassthrough
    | ApcString

  datatype Action =
    | Ignore | Error | Print | Execute
    | OscStart | OscPut | OscEnd
    | CsiDispatch | Param | Collect | EscDispatch | Clear
    | DcsHook | DcsPut | DcsUnhook
    | ApcStart | ApcPut | ApcEnd

  datatype Transition = To(action: Action, next: State)

  const NON_ASCII_PRINTABLE := 0xA0
  const STATES := 15

  function Index(s: State): (i: nat)
    ensures i < STATES
  {
    match s
    case Ground => 0 case Escape => 1 case EscapeIntermediate => 2
    case CsiEntry => 3 case CsiParam => 4 case CsiIntermediate => 5 case CsiIgnore => 6
    case SosPmString => 7 case OscString => 8
    case DcsEntry => 9 case DcsParam => 10 case DcsIgnore => 11 case DcsIntermediate => 12 case DcsPassthrough => 13
    case ApcString => 14
  }

  const ALL_STATES := [Ground, Escape, EscapeIntermediate, CsiEntry, CsiParam, CsiIntermediate, CsiIgnore, SosPmString,
                       OscString, DcsEntry, DcsParam, DcsIgnore, DcsIntermediate, DcsPassthrough, ApcString]

  // ---- the table as the parser is meant to behave ----

  /** 0x00..0x17, 0x19, 0x1c..0x1f: the control codes that never abort a sequence. */
  predicate Executable(c: nat) {
    c < 0x18 || c == 0x19 || 0x1c <= c < 0x20
  }

  predicate Printable(c: nat) {
    0x20 <= c < 0x7f
  }

  /** What a control code does in every state that does not say otherwise. */
  function Anywhere(c: nat): Transition {
    if c == 0x18 || c == 0x1a then To(Execute, Ground)
    else if c == 0x1b then To(Clear, Escape)
    else if c == 0x90 then To(Clear, DcsEntry)
    else if c == 0x98 || c == 0x9e then To(Ignore, SosPmString)
    else if c == 0x9b then To(Clear, CsiEntry)
    else if c == 0x9c then To(Ignore, Ground)
    else if c == 0x9d then To(OscStart, OscString)
    else if c == 0x9f then To(ApcStart, ApcString)
    else To(Error, Ground)
  }

  predicate EndsString(c: nat) {
    c == 0x18 || c == 0x1a || c == 0x1b || c == 0x9c
  }

  function InEscape(c: nat): Transition {
    if Executable(c) then To(Execute, Escape)
    else if 0x20 <= c < 0x30 then To(Collect, EscapeIntermediate)
    else if c == 0x50 then To(Clear, DcsEntry)
    else if c == 0x58 || c == 0x5e then To(Ignore, SosPmString)
    else if c == 0x5b then To(Clear, CsiEntry)
    else if c == 0x5d then To(OscStart, OscString)
    else if c == 0x5f then To(ApcStart, ApcString)
    else if 0x30 <= c < 0x7f then To(EscDispatch, Ground)
    else if c == 0x7f then To(Ignore, Escape)
    else Anywhere(c)
  }

  /** The CSI states before the final byte: `s` is the state, `onParam` and `onPrivate` what a
      parameter byte and a private marker do there. */
  function InCsi(s: State, onParam: Transition, onPrivate: Transition, c: nat): Transition {
    if Executable(c) then To(Execute, s)
    else if 0x20 <= c < 0x30 then To(Collect, CsiIntermediate)
    else if 0x30 <= c < 0x3c then onParam
    else if 0x3c <= c < 0x40 then onPrivate
    else if 0x40 <= c < 0x7f then To(CsiDispatch, Ground)
    else if c == 0x7f then To(Ignore, s)
    else Anywhere(c)
  }

  function InDcs(s: State, onParam: Transition, onPrivate: Transition, c: nat): Transition {
    if Executable(c) || c == 0x7f then To(Ignore, s)
    else if 0x20 <= c < 0x30 then To(Collect, DcsIntermediate)
    else if 0x30 <= c < 0x3c then onParam
    else if 0x3c <= c < 0x40 then onPrivate
    else if 0x40 <= c < 0x7f then To(DcsHook, DcsPassthrough)
    else Anywhere(c)
  }

  function Vt500(s: State, c: nat): Transition {
    match s
    case Ground =>
      if Executable(c) then To(Execute, Ground)
      else if Printable(c) || c == NON_ASCII_PRINTABLE then To(Print, Ground)
      else if c == 0x7f then To(Ignore, Ground)
      else Anywhere(c)
    case Escape => InEscape(c)
    case EscapeIntermediate =>
      if Executable(c) then To(Execute, EscapeIntermediate)
      else if 0x20 <= c < 0x30 then To(Collect, EscapeIntermediate)
      else if 0x30 <= c < 0x7f then To(EscDispatch, Ground)
      else if c == 0x7f then To(Ignore, EscapeIntermediate)
      else Anywhere(c)
    case CsiEntry => InCsi(CsiEntry, To(Param, CsiParam), To(Collect, CsiParam), c)
    case CsiParam => InCsi(CsiParam, To(Param, CsiParam), To(Ignore, CsiIgnore), c)
    case CsiIntermediate => InCsi(CsiIntermediate, To(Ignore, CsiIgnore), To(Ignore, CsiIgnore), c)
    case CsiIgnore =>
      if Executable(c) then To(Execute, CsiIgnore)
      else if 0x40 <= c < 0x7f then To(Ignore, Ground)
      else if 0x20 <= c < 0x40 || c == 0x7f || c == NON_ASCII_PRINTABLE then To(Ignore, CsiIgnore)
      else Anywhere(c)
    case SosPmString =>
      if Executable(c) || Printable(c) || c == 0x7f then To(Ignore, SosPmString)
      else Anywhere(c)
    case OscString =>
      if EndsString(c) || c == 0x07 then To(OscEnd, Ground)
      else if Executable(c) then To(Ignore, OscString)
      else if Printable(c) || c == 0x7f || c == NON_ASCII_PRINTABLE then To(OscPut, OscString)
      else Anywhere(c)
    case DcsEntry => InDcs(DcsEntry, To(Param, DcsParam), To(Collect, DcsParam), c)
    case DcsParam => InDcs(DcsParam, To(Param, DcsParam), To(Ignore, DcsIgnore), c)
    case DcsIntermediate => InDcs(DcsIntermediate, To(Ignore, DcsIgnore), To(Ignore, DcsIgnore), c)
    case DcsIgnore =>
      if Executable(c) || 0x20 <= c < 0x80 || c == NON_ASCII_PRINTABLE then To(Ignore, DcsIgnore)
      else Anywhere(c)
    case DcsPassthrough =>
      if EndsString(c) then To(DcsUnhook, Ground)
      else if Executable(c) || Printable(c) || c == NON_ASCII_PRINTABLE then To(DcsPut, DcsPassthrough)
      else if c == 0x7f then To(Ignore, DcsPassthrough)
      else Anywhere(c)
    case ApcString =>
      if EndsString(c) then To(ApcEnd, Ground)
      else if Printable(c) || c == NON_ASCII_PRINTABLE then To(ApcPut, ApcString)
      else if Executable(c) || c == 0x7f then To(Ignore, ApcString)
      else Anywhere(c)
  }

  // ---- the table as the program fills it ----

  method Range(start: nat, end: nat) returns (codes: seq<nat>)
    requires start <= end
    ensures forall c :: c in codes <==> start <= c < end
  {
    codes := [];
    for i := start to end
      invariant forall c :: c in codes <==> start <= c < i
    {
      codes := codes + [i];
    }
  }

  class TransitionTable {
    const table: array2<Transition>

    ghost predicate Valid() {
      table.Length0 == STATES && table.Length1 == 256
    }

    ghost function At(s: State, c: nat): Transition
      requires Valid() && c < 256
      reads table
    {
      table[Index(s), c]
    }

    constructor ()
      ensures Valid() && fresh(table)
      ensures forall s, c :: 0 <= c < 256 ==> At(s, c) == To(Error, Ground)
    {
      table := new Transition[STATES, 256]((_, _) => To(Error, Ground));
    }

    method Add(code: nat, state: State, action: Action, next: State)
      requires Valid() && code < 256
      modifies table
      ensures forall s, c :: 0 <= c < 256 ==>
              At(s, c) == if s == state && c == code then To(action, next) else old(At(s, c))
    {
      IndexInjective();
      table[Index(state), code] := To(action, next);
    }

    method AddMany(codes: seq<nat>, state: State, action: Action, next: State)
      requires Valid() && forall c :: c in codes ==> c < 256
      modifies table
      ensures forall s, c :: 0 <= c < 256 ==>
              At(s, c) == if s == state && c in codes then To(action, next) else old(At(s, c))
    {
      for i := 0 to |codes|
        invariant forall s, c :: 0 <= c < 256 ==>
                    At(s, c) == if s == state && c in codes[..i] then To(action, next) else old(At(s, c))
      {
        assert codes[i] in codes;
        Add(codes[i], state, action, next);
      }
    }
  }

  lemma IndexInjective()
    ensures forall s, s' :: Index(s) == Index(s') ==> s == s'
  {
  }

  method Executables() returns (codes: seq<nat>)
    ensures forall c :: c in codes <==> Executable(c)
  {
    codes := Range(0x00, 0x18);
    var more := Range(0x1c, 0x20);
    codes := codes + [0x19] + more;
  }

  /** The transitions every state starts with. */
  method BuildAnywhere() returns (table: TransitionTable)
    ensures fresh(table) && table.Valid() && fresh(table.table)
    ensures forall s, c :: 0 <= c < 256 ==> table.At(s, c) == Anywhere(c)
  {
    table := new TransitionTable();
    for i := 0 to STATES
      invariant table.Valid() && fresh(table.table)
      invariant forall s, c :: 0 <= c < 256 ==>
                table.At(s, c) == if Index(s) < i then Anywhere(c) else To(Error, Ground)
    {
      var state := ALL_STATES[i];
      assert Index(state) == i;
      AddAnywhere(table, state);
      IndexInjective();
    }
  }

  method AddAnywhere(table: TransitionTable, state: State)
    requires table.Valid()
    modifies table.table
    ensures forall s, c :: 0 <= c < 256 ==>
              table.At(s, c) ==
              if s == state && Anywhere(c) != To(Error, Ground) then Anywhere(c) else old(table.At(s, c))
  {
    table.Add(0x18, state, Execute, Ground);
    table.Add(0x1a, state, Execute, Ground);
    table.Add(0x1b, state, Clear, Escape);
    table.Add(0x9c, state, Ignore, Ground);
    table.Add(0x9d, state, OscStart, OscString);
    table.AddMany([0x98, 0x9e], state, Ignore, SosPmString);
    table.Add(0x9f, state, ApcStart, ApcString);
    table.Add(0x9b, state, Clear, CsiEntry);
    table.Add(0x90, state, Clear, DcsEntry);
  }

  // Each section of the builder overwrites some entries: `t` is the entry so far.

  function CsiControls(s: State, c: nat, t: Transition): Transition {
    if s in {CsiEntry, CsiParam, CsiIntermediate, CsiIgnore} && Executable(c) then To(Execute, s)
    else if s in {CsiEntry, CsiParam, CsiIntermediate} && c == 0x7f then To(Ignore, s)
    else t
  }

  method BuildCsiControls(table: TransitionTable)
    requires table.Valid()
    modifies table.table
    ensures forall s, c :: 0 <= c < 256 ==> table.At(s, c) == CsiControls(s, c, old(table.At(s, c)))
  {
    var executables := Executables();
    table.AddMany(executables, CsiEntry, Execute, CsiEntry);
    table.Add(0x7f, CsiEntry, Ignore, CsiEntry);
    table.AddMany(executables, CsiParam, Execute, CsiParam);
    table.Add(0x7f, CsiParam, Ignore, CsiParam);
    table.AddMany(executables, CsiIgnore, Execute, CsiIgnore);
    table.AddMany(executables, CsiIntermediate, Execute, CsiIntermediate);
    table.Add(0x7f, CsiIntermediate, Ignore, CsiIntermediate);
  }

  function EscapeControls(s: State, c: nat, t: Transition): Transition {
    if s in {Escape, EscapeIntermediate} && Executable(c) then To(Execute, s)
    else if s in {Escape, EscapeIntermediate} && c == 0x7f then To(Ignore, s)
    else if s == OscString && Executable(c) then To(Ignore, s)
    else t
  }

  method BuildEscapeControls(table: TransitionTable)
    requires table.Valid()
    modifies table.table
    ensures forall s, c :: 0 <= c < 256 ==> table.At(s, c) == EscapeControls(s, c, old(table.At(s, c)))
  {
    var executables := Executables();
    table.AddMany(executables, Escape, Execute, Escape);
    table.Add(0x7f, Escape, Ignore, Escape);
    table.AddMany(executables, OscString, Ignore, OscString);
    table.AddMany(executables, EscapeIntermediate, Execute, EscapeIntermediate);
    table.Add(0x7f, EscapeIntermediate, Ignore, EscapeIntermediate);
  }

  function GroundSection(s: State, c: nat, t: Transition): Transition {
    if s != Ground then t
    else if Executable(c) then To(Execute, Ground)
    else if Printable(c) then To(Print, Ground)
    else if c == 0x7f then To(Ignore, Ground)
    else t
  }

  method BuildGroundSection(table: TransitionTable)
    requires table.Valid()
    modifies table.table
    ensures forall s, c :: 0 <= c < 256 ==> table.At(s, c) == GroundSection(s, c, old(table.At(s, c)))
  {
    var executables := Executables();
    var printables := Range(0x20, 0x7f);
    table.AddMany(executables, Ground, Execute, Ground);
    table.AddMany(printables, Ground, Print, Ground);
    table.Add(0x7f, Ground, Ignore, Ground);
  }

  function OscSection(s: State, c: nat, t: Transition): Transition {
    if s == Escape && c == 0x5d then To(OscStart, OscString)
    else if s != OscString then t
    else if EndsString(c) || c == 0x07 then To(OscEnd, Ground)
    else if Printable(c) || c == 0x7f then To(OscPut, OscString)
    else if 0x1c <= c < 0x20 then To(Ignore, OscString)
    else t
  }

  method BuildOscSection(table: TransitionTable)
    requires table.Valid()
    modifies table.table
    ensures forall s, c :: 0 <= c < 256 ==> table.At(s, c) == OscSection(s, c, old(table.At(s, c)))
  {
    var printables := Range(0x20, 0x7f);
    var tail := Range(0x1c, 0x20);
    table.Add(0x5d, Escape, OscStart, OscString);
    table.AddMany(printables, OscString, OscPut, OscString);
    table.Add(0x7f, OscString, OscPut, OscString);
    table.AddMany([0x9c, 0x1b, 0x18, 0x1a, 0x07], OscString, OscEnd, Ground);
    table.AddMany(tail, OscString, Ignore, OscString);
  }

  function SosPmSection(s: State, c: nat, t: Transition): Transition {
    if s == Escape && (c == 0x58 || c == 0x5e) then To(Ignore, SosPmString)
    else if s != SosPmString then t
    else if Printable(c) || Executable(c) || c == 0x7f then To(Ignore, SosPmString)
    else if c == 0x9c then To(Ignore, Ground)
    else t
  }

  method BuildSosPmSection(table: TransitionTable)
    requires table.Valid()
    modifies table.table
    ensures forall s, c :: 0 <= c < 256 ==> table.At(s, c) == SosPmSection(s, c, old(table.At(s, c)))
  {
    var executables := Executables();
    var printables := Range(0x20, 0x7f);
    table.AddMany([0x58, 0x5e], Escape, Ignore, SosPmString);
    table.AddMany(printables, SosPmString, Ignore, SosPmString);
    table.AddMany(executables, SosPmString, Ignore, SosPmString);
    table.Add(0x9c, SosPmString, Ignore, Ground);
    table.Add(0x7f, SosPmString, Ignore, SosPmString);
  }

  function ApcSection(s: State, c: nat, t: Transition): Transition {
    if s == Escape && c == 0x5f then To(ApcStart, ApcString)
    else if s != ApcString then t
    else if EndsString(c) then To(ApcEnd, Ground)
    else if Printable(c) then To(ApcPut, ApcString)
    else if Executable(c) || c == 0x7f then To(Ignore, ApcString)
    else t
  }

  method BuildApcSection(table: TransitionTable)
    requires table.Valid()
    modifies table.table
    ensures forall s, c :: 0 <= c < 256 ==> table.At(s, c) == ApcSection(s, c, old(table.At(s, c)))
  {
    var executables := Executables();
    var printables := Range(0x20, 0x7f);
    table.Add(0x5f, Escape, ApcStart, ApcString);
    table.AddMany(printables, ApcString, ApcPut, ApcString);
    table.AddMany(executables, ApcString, Ignore, ApcString);
    table.Add(0x7f, ApcString, Ignore, ApcString);
    table.AddMany([0x1b, 0x9c, 0x18, 0x1a], ApcString, ApcEnd, Ground);
  }

  function CsiEntrySection(s: State, c: nat, t: Transition): Transition {
    match s
    case Escape => if c == 0x5b then To(Clear, CsiEntry) else t
    case CsiEntry =>
      if 0x40 <= c < 0x7f then To(CsiDispatch, Ground)
      else if 0x30 <= c < 0x3c then To(Param, CsiParam)
      else if 0x3c <= c < 0x40 then To(Collect, CsiParam)
      else if 0x20 <= c < 0x30 then To(Collect, CsiIntermediate)
      else t
    case CsiParam =>
      if 0x40 <= c < 0x7f then To(CsiDispatch, Ground)
      else if 0x30 <= c < 0x3c then To(Param, CsiParam)
      else if 0x3c <= c < 0x40 then To(Ignore, CsiIgnore)
      else if 0x20 <= c < 0x30 then To(Collect, CsiIntermediate)
      else t
    case _ => t
  }

  method BuildCsiEntrySection(table: TransitionTable)
    requires table.Valid()
    modifies table.table
    ensures forall s, c :: 0 <= c < 256 ==> table.At(s, c) == CsiEntrySection(s, c, old(table.At(s, c)))
  {
    var finals := Range(0x40, 0x7f);
    var digits := Range(0x30, 0x3c);
    var intermediates := Range(0x20, 0x30);
    table.Add(0x5b, Escape, Clear, CsiEntry);
    table.AddMany(finals, CsiEntry, CsiDispatch, Ground);
    table.AddMany(digits, CsiEntry, Param, CsiParam);
    table.AddMany([0x3c, 0x3d, 0x3e, 0x3f], CsiEntry, Collect, CsiParam);
    table.AddMany(digits, CsiParam, Param, CsiParam);
    table.AddMany(finals, CsiParam, CsiDispatch, Ground);
    table.AddMany([0x3c, 0x3d, 0x3e, 0x3f], CsiParam, Ignore, CsiIgnore);
    table.AddMany(intermediates, CsiEntry, Collect, CsiIntermediate);
    table.AddMany(intermediates, CsiParam, Collect, CsiIntermediate);
  }

  function CsiTailSection(s: State, c: nat, t: Transition): Transition {
    match s
    case CsiIgnore =>
      if 0x40 <= c < 0x7f then To(Ignore, Ground)
      else if 0x20 <= c < 0x40 || c == 0x7f then To(Ignore, CsiIgnore)
      else t
    case CsiIntermediate =>
      if 0x40 <= c < 0x7f then To(CsiDispatch, Ground)
      else if 0x30 <= c < 0x40 then To(Ignore, CsiIgnore)
      else if 0x20 <= c < 0x30 then To(Collect, CsiIntermediate)
      else t
    case _ => t
  }

  method BuildCsiTailSection(table: TransitionTable)
    requires table.Valid()
    modifies table.table
    ensures forall s, c :: 0 <= c < 256 ==> table.At(s, c) == CsiTailSection(s, c, old(table.At(s, c)))
  {
    var finals := Range(0x40, 0x7f);
    var ignored := Range(0x20, 0x40);
    var intermediates := Range(0x20, 0x30);
    var parameters := Range(0x30, 0x40);
    table.AddMany(ignored, CsiIgnore, Ignore, CsiIgnore);
    table.Add(0x7f, CsiIgnore, Ignore, CsiIgnore);
    table.AddMany(finals, CsiIgnore, Ignore, Ground);
    table.AddMany(intermediates, CsiIntermediate, Collect, CsiIntermediate);
    table.AddMany(parameters, CsiIntermediate, Ignore, CsiIgnore);
    table.AddMany(finals, CsiIntermediate, CsiDispatch, Ground);
  }

  function EscSection(s: State, c: nat, t: Transition): Transition {
    match s
    case Escape =>
      if 0x20 <= c < 0x30 then To(Collect, EscapeIntermediate)
      else if c == 0x50 then To(Clear, DcsEntry)
      else if 0x30 <= c < 0x7f && c !in {0x58, 0x5b, 0x5d, 0x5e, 0x5f} then To(EscDispatch, Ground)
      else t
    case EscapeIntermediate =>
      if 0x20 <= c < 0x30 then To(Collect, EscapeIntermediate)
      else if 0x30 <= c < 0x7f then To(EscDispatch, Ground)
      else t
    case _ => t
  }

  /** The bytes that end an escape sequence, but for those that open a string or a control sequence. */
  predicate EscFinal(c: nat) {
    0x30 <= c < 0x7f && c !in {0x50, 0x58, 0x5b, 0x5d, 0x5e, 0x5f}
  }

  method BuildEscSection(table: TransitionTable)
    requires table.Valid()
    modifies table.table
    ensures forall s, c :: 0 <= c < 256 ==> table.At(s, c) == EscSection(s, c, old(table.At(s, c)))
  {
    BuildEscapeIntermediate(table);
    var intermediates := Range(0x20, 0x30);
    table.AddMany(intermediates, Escape, Collect, EscapeIntermediate);
    BuildEscapeFinals(table);
    table.Add(0x50, Escape, Clear, DcsEntry);
  }

  method BuildEscapeFinals(table: TransitionTable)
    requires table.Valid()
    modifies table.table
    ensures forall s, c :: 0 <= c < 256 ==>
              table.At(s, c) == if s == Escape && EscFinal(c) then To(EscDispatch, Ground) else old(table.At(s, c))
  {
    var finals := Range(0x30, 0x50);
    table.AddMany(finals, Escape, EscDispatch, Ground);
    finals := Range(0x51, 0x58);
    table.AddMany(finals, Escape, EscDispatch, Ground);
    table.AddMany([0x59, 0x5a, 0x5c], Escape, EscDispatch, Ground);
    finals := Range(0x60, 0x7f);
    table.AddMany(finals, Escape, EscDispatch, Ground);
  }

  method BuildEscapeIntermediate(table: TransitionTable)
    requires table.Valid()
    modifies table.table
    ensures forall s, c :: 0 <= c < 256 ==>
              table.At(s, c) ==
              if s == EscapeIntermediate then EscSection(s, c, old(table.At(s, c))) else old(table.At(s, c))
  {
    var codes := Range(0x20, 0x30);
    table.AddMany(codes, EscapeIntermediate, Collect, EscapeIntermediate);
    codes := Range(0x30, 0x7f);
    table.AddMany(codes, EscapeIntermediate, EscDispatch, Ground);
  }

  function DcsEntrySection(s: State, c: nat, t: Transition): Transition {
    if s != DcsEntry then t
    else if Executable(c) || c == 0x7f then To(Ignore, DcsEntry)
    else if 0x20 <= c < 0x30 then To(Collect, DcsIntermediate)
    else if 0x30 <= c < 0x3c then To(Param, DcsParam)
    else if 0x3c <= c < 0x40 then To(Collect, DcsParam)
    else t
  }

  method BuildDcsEntrySection(table: TransitionTable)
    requires table.Valid()
    modifies table.table
    ensures forall s, c :: 0 <= c < 256 ==> table.At(s, c) == DcsEntrySection(s, c, old(table.At(s, c)))
  {
    var executables := Executables();
    var tail := Range(0x1c, 0x20);
    var intermediates := Range(0x20, 0x30);
    var digits := Range(0x30, 0x3c);
    table.AddMany(executables, DcsEntry, Ignore, DcsEntry);
    table.Add(0x7f, DcsEntry, Ignore, DcsEntry);
    table.AddMany(tail, DcsEntry, Ignore, DcsEntry);
    table.AddMany(intermediates, DcsEntry, Collect, DcsIntermediate);
    table.AddMany(digits, DcsEntry, Param, DcsParam);
    table.AddMany([0x3c, 0x3d, 0x3e, 0x3f], DcsEntry, Collect, DcsParam);
  }

  function DcsIgnoreSection(s: State, c: nat, t: Transition): Transition {
    if s == DcsIgnore && (Executable(c) || 0x20 <= c < 0x80) then To(Ignore, DcsIgnore)
    else t
  }

  method BuildDcsIgnoreSection(table: TransitionTable)
    requires table.Valid()
    modifies table.table
    ensures forall s, c :: 0 <= c < 256 ==> table.At(s, c) == DcsIgnoreSection(s, c, old(table.At(s, c)))
  {
    var executables := Executables();
    var ignored := Range(0x20, 0x80);
    var tail := Range(0x1c, 0x20);
    table.AddMany(executables, DcsIgnore, Ignore, DcsIgnore);
    table.AddMany(ignored, DcsIgnore, Ignore, DcsIgnore);
    table.AddMany(tail, DcsIgnore, Ignore, DcsIgnore);
  }

  function DcsParamSection(s: State, c: nat, t: Transition): Transition {
    if s != DcsParam then t
    else if Executable(c) || c == 0x7f then To(Ignore, DcsParam)
    else if 0x20 <= c < 0x30 then To(Collect, DcsIntermediate)
    else if 0x30 <= c < 0x3c then To(Param, DcsParam)
    else if 0x3c <= c < 0x40 then To(Ignore, DcsIgnore)
    else t
  }

  method BuildDcsParamSection(table: TransitionTable)
    requires table.Valid()
    modifies table.table
    ensures forall s, c :: 0 <= c < 256 ==> table.At(s, c) == DcsParamSection(s, c, old(table.At(s, c)))
  {
    var executables := Executables();
    var tail := Range(0x1c, 0x20);
    var digits := Range(0x30, 0x3c);
    var intermediates := Range(0x20, 0x30);
    table.AddMany(executables, DcsParam, Ignore, DcsParam);
    table.Add(0x7f, DcsParam, Ignore, DcsParam);
    table.AddMany(tail, DcsParam, Ignore, DcsParam);
    table.AddMany(digits, DcsParam, Param, DcsParam);
    table.AddMany([0x3c, 0x3d, 0x3e, 0x3f], DcsParam, Ignore, DcsIgnore);
    table.AddMany(intermediates, DcsParam, Collect, DcsIntermediate);
  }

  function DcsIntermediateSection(s: State, c: nat, t: Transition): Transition {
    if s in {DcsEntry, DcsParam, DcsIntermediate} && 0x40 <= c < 0x7f then To(DcsHook, DcsPassthrough)
    else if s != DcsIntermediate then t
    else if Executable(c) || c == 0x7f then To(Ignore, DcsIntermediate)
    else if 0x20 <= c < 0x30 then To(Collect, DcsIntermediate)
    else if 0x30 <= c < 0x40 then To(Ignore, DcsIgnore)
    else t
  }

  method BuildDcsIntermediateSection(table: TransitionTable)
    requires table.Valid()
    modifies table.table
    ensures forall s, c :: 0 <= c < 256 ==> table.At(s, c) == DcsIntermediateSection(s, c, old(table.At(s, c)))
  {
    var executables := Executables();
    var tail := Range(0x1c, 0x20);
    var intermediates := Range(0x20, 0x30);
    var parameters := Range(0x30, 0x40);
    var finals := Range(0x40, 0x7f);
    table.AddMany(executables, DcsIntermediate, Ignore, DcsIntermediate);
    table.Add(0x7f, DcsIntermediate, Ignore, DcsIntermediate);
    table.AddMany(tail, DcsIntermediate, Ignore, DcsIntermediate);
    table.AddMany(intermediates, DcsIntermediate, Collect, DcsIntermediate);
    table.AddMany(parameters, DcsIntermediate, Ignore, DcsIgnore);
    table.AddMany(finals, DcsIntermediate, DcsHook, DcsPassthrough);
    table.AddMany(finals, DcsParam, DcsHook, DcsPassthrough);
    table.AddMany(finals, DcsEntry, DcsHook, DcsPassthrough);
  }

  function DcsPassthroughSection(s: State, c: nat, t: Transition): Transition {
    if s != DcsPassthrough then t
    else if EndsString(c) then To(DcsUnhook, Ground)
    else if c == 0x7f then To(Ignore, DcsPassthrough)
    else if Executable(c) || Printable(c) then To(DcsPut, DcsPassthrough)
    else t
  }

  method BuildDcsPassthroughSection(table: TransitionTable)
    requires table.Valid()
    modifies table.table
    ensures forall s, c :: 0 <= c < 256 ==> table.At(s, c) == DcsPassthroughSection(s, c, old(table.At(s, c)))
  {
    var executables := Executables();
    var printables := Range(0x20, 0x7f);
    table.AddMany(printables, DcsPassthrough, DcsPut, DcsPassthrough);
    table.AddMany(executables, DcsPassthrough, DcsPut, DcsPassthrough);
    table.Add(0x7f, DcsPassthrough, Ignore, DcsPassthrough);
    table.AddMany([0x1b, 0x9c, 0x18, 0x1a], DcsPassthrough, DcsUnhook, Ground);
  }

  function NonAsciiSection(s: State, c: nat, t: Transition): Transition {
    if c != NON_ASCII_PRINTABLE then t
    else match s
      case Ground => To(Print, Ground)
      case OscString => To(OscPut, OscString)
      case CsiIgnore => To(Ignore, CsiIgnore)
      case DcsIgnore => To(Ignore, DcsIgnore)
      case DcsPassthrough => To(DcsPut, DcsPassthrough)
      case ApcString => To(ApcPut, ApcString)
      case _ => t
  }

  method BuildNonAsciiSection(table: TransitionTable)
    requires table.Valid()
    modifies table.table
    ensures forall s, c :: 0 <= c < 256 ==> table.At(s, c) == NonAsciiSection(s, c, old(table.At(s, c)))
  {
    table.Add(NON_ASCII_PRINTABLE, Ground, Print, Ground);
    table.Add(NON_ASCII_PRINTABLE, OscString, OscPut, OscString);
    table.Add(NON_ASCII_PRINTABLE, CsiIgnore, Ignore, CsiIgnore);
    table.Add(NON_ASCII_PRINTABLE, DcsIgnore, Ignore, DcsIgnore);
    table.Add(NON_ASCII_PRINTABLE, DcsPassthrough, DcsPut, DcsPassthrough);
    table.Add(NON_ASCII_PRINTABLE, ApcString, ApcPut, ApcString);
  }

  /** The entry after every section. */
  function AllSections(s: State, c: nat): Transition {
    var t0 := Anywhere(c);
    var t1 := CsiControls(s, c, t0);
    var t2 := EscapeControls(s, c, t1);
    var t3 := GroundSection(s, c, t2);
    var t4 := OscSection(s, c, t3);
    var t5 := SosPmSection(s, c, t4);
    var t6 := ApcSection(s, c, t5);
    var t7 := CsiEntrySection(s, c, t6);
    var t8 := CsiTailSection(s, c, t7);
    var t9 := EscSection(s, c, t8);
    var t10 := DcsEntrySection(s, c, t9);
    var t11 := DcsIgnoreSection(s, c, t10);
    var t12 := DcsParamSection(s, c, t11);
    var t13 := DcsIntermediateSection(s, c, t12);
    var t14 := DcsPassthroughSection(s, c, t13);
    var t15 := NonAsciiSection(s, c, t14);
    t15
  }

  lemma {:induction false} SectionsMakeVt500(s: State, c: nat)
    ensures AllSections(s, c) == Vt500(s, c)
  {
  }

  /** `buildVT500TransitionTable`: later entries win over earlier ones. */
  method BuildVt500() returns (table: TransitionTable)
    ensures table.Valid() && fresh(table) && fresh(table.table)
    ensures forall s, c :: 0 <= c < 256 ==> table.At(s, c) == Vt500(s, c)
  {
    hide Anywhere, Vt500, CsiControls,
      EscapeControls,
      GroundSection,
      OscSection,
      SosPmSection,
      ApcSection,
      CsiEntrySection,
      CsiTailSection,
      EscSection,
      DcsEntrySection,
      DcsIgnoreSection,
      DcsParamSection,
      DcsIntermediateSection,
      DcsPassthroughSection,
      NonAsciiSection;
    table := BuildAnywhere();
    BuildCsiControls(table);
    BuildEscapeControls(table);
    BuildGroundSection(table);
    BuildOscSection(table);
    BuildSosPmSection(table);
    BuildApcSection(table);
    BuildCsiEntrySection(table);
    BuildCsiTailSection(table);
    BuildEscSection(table);
    BuildDcsEntrySection(table);
    BuildDcsIgnoreSection(table);
    BuildDcsParamSection(table);
    BuildDcsIntermediateSection(table);
    BuildDcsPassthroughSection(table);
    BuildNonAsciiSection(table);
    forall s, c | 0 <= c < 256 ensures table.At(s, c) == Vt500(s, c) {
      SectionsMakeVt500(s, c);
    }
  }
}
