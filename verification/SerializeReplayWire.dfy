/** The serialized screen as text, read by the parser. */
module SerializeReplayWire {
  import opened ParserTable
  import opened ParserParams
  import opened ParserMachine
  import Parser
  import Attributes
  import BufferLines
  import Sgr
  import Screen
  import S = Serializer
  import C = CsiRoundTrip
  import TextDecoder
  import Replay = SerializeReplay
  import Whole = SerializeReplayScreen

  /** A number in decimal digits. */
  function Decimal(v: nat): seq<nat> {
    if v < 10 then [v] else Decimal(v / 10) + [v % 10]
  }

  lemma {:induction false} DecimalIs(v: nat)
    ensures C.NumberOf(0, Decimal(v)) == v && Decimal(v) != []
    ensures forall d :: d in Decimal(v) ==> d <= 9
  {
    if v < 10 {
      assert Decimal(v)[..0] == [];
      assert C.NumberOf(0, []) == 0;
    } else {
      DecimalIs(v / 10);
      assert Decimal(v)[..|Decimal(v)| - 1] == Decimal(v / 10);
    }
  }

  predicate ValidValue(v: int) {
    0 <= v <= MAX_PARAM_VALUE
  }

  function FieldsOf(values: seq<int>): seq<C.Field> {
    seq(|values|, k requires 0 <= k < |values| => C.Field(Decimal(if values[k] < 0 then 0 else values[k]), []))
  }

  /** A character that is printed, and that the decoder does not leave out. */
  predicate Carried(code: nat) {
    Parser.RunsPrint(code) && TextDecoder.Scalar(code) && code != TextDecoder.BYTE_ORDER_MARK
  }

  predicate ValidToken(tok: S.Token) {
    match tok
    case Char(code) => Carried(code)
    case Csi(final, values) =>
      0x40 <= final < 0x7f && |values| <= MAX_PARAMS && forall v :: v in values ==> ValidValue(v)
    case CrLf => true
  }

  function TokenText(tok: S.Token): seq<nat>
    requires ValidToken(tok)
  {
    match tok
    case Char(code) => [code]
    case Csi(final, values) => C.CsiText(C.Function([], [], final), FieldsOf(values))
    case CrLf => [0x0d, 0x0a]
  }

  predicate ValidTokens(tokens: seq<S.Token>) {
    forall tok :: tok in tokens ==> ValidToken(tok)
  }

  function Text(tokens: seq<S.Token>): seq<nat>
    requires ValidTokens(tokens)
  {
    if tokens == [] then []
    else
      assert tokens[|tokens| - 1] in tokens;
      Text(tokens[..|tokens| - 1]) + TokenText(tokens[|tokens| - 1])
  }

  lemma {:induction false} NoSubsTotal(n: nat)
    ensures TotalSubs(Sgr.NoSubs(n)) == 0
  {
    if n > 0 {
      assert Sgr.NoSubs(n)[..n - 1] == Sgr.NoSubs(n - 1);
      NoSubsTotal(n - 1);
    }
  }

  lemma {:induction false} FieldsAre(values: seq<int>)
    requires |values| <= MAX_PARAMS && forall v :: v in values ==> ValidValue(v)
    ensures C.ValidFields(FieldsOf(values))
    ensures C.Values(FieldsOf(values)) == values && C.Subs(FieldsOf(values)) == Sgr.NoSubs(|values|)
  {
    hide Decimal, C.NumberOf, TotalSubs;
    var fields := FieldsOf(values);
    forall k | 0 <= k < |values|
      ensures C.NumberOf(0, fields[k].digits) == values[k] && C.Numeral(fields[k].digits)
    {
      assert values[k] in values;
      DecimalIs(values[k]);
    }
    NoSubsTotal(|values|);
    assert C.Subs(fields) == Sgr.NoSubs(|values|);
  }

  lemma {:induction false} CsiParses(m: Machine, final: nat, values: seq<int>)
    requires m.state == Ground && ValidToken(S.Csi(final, values))
    ensures var o := Feed(m, TokenText(S.Csi(final, values)));
            o.to.state == Ground && o.events == S.TokenEvents(S.Csi(final, values))
  {
    hide Feed, C.CsiText, C.ValidFields, C.Values, C.Subs, C.ListOf, FieldsOf;
    var f := C.Function([], [], final);
    FieldsAre(values);
    C.CsiRoundTrips(m, f, FieldsOf(values));
    IdentifierIsFinal(final);
    ParsedFields(values);
  }

  lemma IdentifierIsFinal(final: nat)
    requires 0x40 <= final < 0x7f
    ensures C.Identifier(C.Function([], [], final)) == final
  {
  }

  lemma ParsedFields(values: seq<int>)
    requires |values| <= MAX_PARAMS && forall v :: v in values ==> ValidValue(v)
    ensures var p := C.Parsed(FieldsOf(values));
            if values == [] then p.values == [0] && p.subs == [[]]
            else p.values == values && p.subs == Sgr.NoSubs(|values|)
  {
    hide C.Values, C.Subs;
    FieldsAre(values);
  }

  lemma {:induction false} TokenParses(m: Machine, tok: S.Token)
    requires m.state == Ground && ValidToken(tok)
    ensures var o := Feed(m, TokenText(tok)); o.to.state == Ground && o.events == S.TokenEvents(tok)
  {
    match tok
    case Char(code) => FeedOne(m, code);
    case Csi(final, values) => CsiParses(m, final, values);
    case CrLf =>
      assert [0x0d, 0x0a] == [0x0d] + [0x0a];
      FeedAppend(m, [0x0d], [0x0a]);
      FeedOne(m, 0x0d);
      FeedOne(Feed(m, [0x0d]).to, 0x0a);
  }

  /** The parser reads the text back as the pieces it was made of. */
  lemma {:induction false} TextParses(m: Machine, tokens: seq<S.Token>)
    requires m.state == Ground && ValidTokens(tokens)
    ensures Feed(m, Text(tokens)).to.state == Ground && Feed(m, Text(tokens)).events == S.Events(tokens)
  {
    hide TokenText, S.TokenEvents, Step, ValidToken;
    if tokens != [] {
      var front, last := tokens[..|tokens| - 1], tokens[|tokens| - 1];
      assert last in tokens;
      TextParses(m, front);
      TokenParses(Feed(m, Text(front)).to, last);
      FeedAppend(m, Text(front), TokenText(last));
    }
  }

  // ---- everything the serializer writes is valid ----

  /** The characters of the screen are printable, and its width fits a parameter. */
  ghost predicate Printable(s: Screen.Term) {
    && s.cols <= MAX_PARAM_VALUE
    && forall i, j :: 0 <= i < |s.lines| && 0 <= j < |s.lines[i].cells| && s.lines[i].cells[j].HasContent() ==>
         Carried(s.lines[i].cells[j].code)
  }

  lemma ValidAppend(a: seq<S.Token>, b: seq<S.Token>)
    requires ValidTokens(a) && ValidTokens(b)
    ensures ValidTokens(a + b)
  {
  }

  lemma {:induction false} DiffIsValid(cell: Attributes.Attr, was: Attributes.Attr)
    ensures ValidToken(S.Csi(Screen.SGR, Sgr.DiffStyle(cell, was)))
  {
    hide Sgr.FlagParams, Sgr.ColorParams, Attributes.EqualFg, Attributes.EqualBg, Attributes.EqualFlags,
         Attributes.AttributesEquals;
    FlagsAreValid(cell, was);
    ColorIsValid(30, cell.fg.mode, cell.fg.color);
    ColorIsValid(40, cell.bg.mode, cell.bg.color);
  }

  lemma ColorIsValid(base: int, mode: Attributes.ColorMode, color: Attributes.Color24)
    requires base == 30 || base == 40
    ensures |Sgr.ColorParams(base, mode, color)| <= 5
    ensures forall v :: v in Sgr.ColorParams(base, mode, color) ==> ValidValue(v)
  {
  }

  predicate ShortParams(params: seq<int>, n: nat) {
    |params| <= n && forall v :: v in params ==> ValidValue(v)
  }

  lemma ShortJoin(a: seq<int>, b: seq<int>, n: nat)
    requires ShortParams(a, 1) && ShortParams(b, n)
    ensures ShortParams(a + b, n + 1)
  {
  }

  lemma FlagIsShort(now: bool, was: bool, on: int, off: int)
    requires ValidValue(on) && ValidValue(off)
    ensures ShortParams(Sgr.FlagParam(now, was, on, off), 1)
  {
  }

  lemma {:induction false} FlagsAreValid(cell: Attributes.Attr, was: Attributes.Attr)
    ensures |Sgr.FlagParams(cell, was)| <= 9
    ensures forall v :: v in Sgr.FlagParams(cell, was) ==> ValidValue(v)
  {
    LastFlagsAreShort(cell, was);
    hide Sgr.FlagParam, Attributes.Attr.IsUnderline, Sgr.LastFlagParams;
    var p1 := Sgr.FlagParam(cell.fg.inverse, was.fg.inverse, 7, 27);
    var p2 := Sgr.FlagParam(cell.fg.bold, was.fg.bold, 1, 22);
    var p3 := Sgr.UnderlineParam(cell.IsUnderline(), was.IsUnderline());
    var p4 := Sgr.FlagParam(cell.bg.overline, was.bg.overline, 53, 55);
    var p5 := Sgr.LastFlagParams(cell, was);
    FlagIsShort(cell.fg.inverse, was.fg.inverse, 7, 27);
    FlagIsShort(cell.fg.bold, was.fg.bold, 1, 22);
    FlagIsShort(cell.bg.overline, was.bg.overline, 53, 55);
    ShortJoin(p4, p5, 5);
    ShortJoin(p3, p4 + p5, 6);
    ShortJoin(p2, p3 + (p4 + p5), 7);
    ShortJoin(p1, p2 + (p3 + (p4 + p5)), 8);
  }

  lemma {:induction false} LastFlagsAreShort(cell: Attributes.Attr, was: Attributes.Attr)
    ensures ShortParams(Sgr.LastFlagParams(cell, was), 5)
  {
    hide Sgr.FlagParam, ShortParams;
    var p5 := Sgr.FlagParam(cell.fg.blink, was.fg.blink, 5, 25);
    var p6 := Sgr.FlagParam(cell.fg.invisible, was.fg.invisible, 8, 28);
    var p7 := Sgr.FlagParam(cell.bg.italic, was.bg.italic, 3, 23);
    var p8 := Sgr.FlagParam(cell.bg.dim, was.bg.dim, 2, 22);
    var p9 := Sgr.FlagParam(cell.fg.strikethrough, was.fg.strikethrough, 9, 29);
    FlagIsShort(cell.fg.blink, was.fg.blink, 5, 25);
    FlagIsShort(cell.fg.invisible, was.fg.invisible, 8, 28);
    FlagIsShort(cell.bg.italic, was.bg.italic, 3, 23);
    FlagIsShort(cell.bg.dim, was.bg.dim, 2, 22);
    FlagIsShort(cell.fg.strikethrough, was.fg.strikethrough, 9, 29);
    ShortJoin(p8, p9, 1);
    ShortJoin(p7, p8 + p9, 2);
    ShortJoin(p6, p7 + (p8 + p9), 3);
    ShortJoin(p5, p6 + (p7 + (p8 + p9)), 4);
  }

  lemma MoveIsValid(final: nat, n: int)
    requires 0x40 <= final < 0x7f && ValidValue(n)
    ensures ValidToken(S.Move(final, n))
  {
  }

  /** The writer's row holds valid pieces, and its gap fits a parameter. */
  predicate ValidWriter(w: S.Writer, gap: nat) {
    ValidTokens(w.row) && w.nullCellCount <= gap <= MAX_PARAM_VALUE
  }

  lemma SkipIsValid(w: S.Writer, gap: nat)
    requires ValidWriter(w, gap)
    ensures ValidTokens(S.Skip(w))
  {
  }

  lemma {:induction false} CellIsValid(w: S.Writer, cell: BufferLines.Cell, row: nat, col: nat, gap: nat)
    requires ValidWriter(w, gap) && gap < MAX_PARAM_VALUE && cell.width <= 1
    requires cell.HasContent() ==> Carried(cell.code)
    ensures ValidWriter(S.NextCell(w, cell, row, col), gap + 1)
  {
    hide Sgr.DiffStyle, ValidToken, S.Skip, S.AttrOf, Attributes.EqualBg, Carried;
    DiffIsValid(S.AttrOf(cell), w.cursorStyle);
    SkipIsValid(w, gap);
    CharIsValid(cell);
    SkipIsValid(S.WithStyle(w, cell, row, col), gap);
  }

  lemma CharIsValid(cell: BufferLines.Cell)
    requires cell.HasContent() ==> Carried(cell.code)
    ensures cell.HasContent() ==> ValidToken(S.Char(cell.code))
  {
  }

  // ---- the whole text ----

  ghost predicate Narrow(s: Screen.Term) {
    Screen.Valid(s) && Printable(s)
    && forall i, j :: 0 <= i < |s.lines| && 0 <= j < |s.lines[i].cells| ==> s.lines[i].cells[j].width <= 1
  }

  lemma {:induction false} CellsAreValid(s: Screen.Term, w: S.Writer, r: nat, n: nat)
    requires Narrow(s) && r < |s.lines| && n <= s.cols && ValidWriter(w, 0)
    ensures ValidWriter(S.AfterCells(w, s.lines[r].cells, r, n), n)
  {
    hide S.NextCell, ValidWriter;
    if n > 0 {
      CellsAreValid(s, w, r, n - 1);
      CellIsValid(S.AfterCells(w, s.lines[r].cells, r, n - 1), s.lines[r].cells[n - 1], r, n - 1, n - 1);
    }
  }

  lemma {:induction false} ForcedWrapIsValid(nulls: nat, cols: nat)
    requires nulls <= cols <= MAX_PARAM_VALUE
    ensures ValidTokens(S.ForcedWrap(nulls, cols))
  {
    var dashes := S.Dashes(nulls + 1);
    assert forall tok :: tok in dashes ==> tok == S.Char(0x2d);
  }

  predicate ValidWritten(w: S.Written) {
    ValidTokens(w.tokens) && ValidTokens(w.separator)
  }

  lemma {:induction false} EndIsValid(s: Screen.Term, w: S.Writer, r: nat)
    requires Narrow(s) && r < |s.lines| && ValidWriter(w, s.cols)
    requires forall i :: 0 <= i < |s.lines| ==> s.lines[i].cells != []
    ensures var e := S.EndOfRow(w, s.lines, s.rows, r); ValidWriter(e.0, 0) && ValidWritten(e.1)
  {
    hide S.WrapsByItself, S.ForcedWrap, S.Background, ValidToken, Attributes.EqualBg;
    ForcedWrapIsValid(w.nullCellCount, s.cols);
    MoveIsValid(Screen.ECH, w.nullCellCount);
    CrLfIsValid();
  }

  lemma CrLfIsValid()
    ensures ValidToken(S.CrLf)
  {
  }

  lemma {:induction false} RowsAreValid(s: Screen.Term, n: nat)
    requires Narrow(s) && n <= |s.lines|
    requires forall i :: 0 <= i < |s.lines| ==> s.lines[i].cells != []
    ensures var all := S.Rows(s.lines, s.rows, n);
            ValidWriter(all.0, 0) && forall k :: 0 <= k < |all.1| ==> ValidWritten(all.1[k])
  {
    hide S.EndOfRow, S.AfterCells, ValidWritten, Narrow;
    NarrowColumns(s);
    if n > 0 {
      RowsAreValid(s, n - 1);
      var before := S.Rows(s.lines, s.rows, n - 1);
      CellsAreValid(s, before.0, n - 1, s.cols);
      EndIsValid(s, S.AfterCells(before.0, s.lines[n - 1].cells, n - 1, s.cols), n - 1);
    }
  }

  lemma NarrowColumns(s: Screen.Term)
    requires Narrow(s)
    ensures forall i :: 0 <= i < |s.lines| ==> |s.lines[i].cells| == s.cols
  {
  }

  lemma {:induction false} LeadIsValid(ws: seq<S.Written>)
    requires forall k :: 0 <= k < |ws| ==> ValidWritten(ws[k])
    ensures ValidTokens(S.Lead(ws)) && (ws != [] ==> ValidTokens(S.Joined(ws)))
  {
    if ws != [] {
      LeadIsValid(ws[..|ws| - 1]);
    }
  }

  lemma ToCursorIsValid(fromRow: int, fromCol: int, row: int, col: int)
    requires 0 <= fromRow <= MAX_PARAM_VALUE && 0 <= row <= MAX_PARAM_VALUE
    requires 0 <= fromCol <= MAX_PARAM_VALUE && 0 <= col <= MAX_PARAM_VALUE
    ensures ValidTokens(S.ToCursor(fromRow, fromCol, row, col))
  {
  }

  lemma ToStyleIsValid(was: Attributes.Attr, current: Attributes.Attr)
    ensures ValidTokens(S.ToStyle(was, current))
  {
    hide Sgr.DiffStyle;
    DiffIsValid(current.(ext := Attributes.EMPTY_EXT), was);
  }

  /** A screen whose serialization is text: it can be drawn, its characters are printable, and its
      sizes fit a parameter. */
  ghost predicate Writable(s: Screen.Term) {
    Replay.Drawable(s) && Printable(s) && |s.lines| <= MAX_PARAM_VALUE
  }

  lemma WritableIsNarrow(s: Screen.Term)
    requires Writable(s)
    ensures Narrow(s)
  {
    forall i, j | 0 <= i < |s.lines| && 0 <= j < |s.lines[i].cells|
      ensures s.lines[i].cells[j].width <= 1
    {
      assert Replay.DrawableCell(s.lines[i].cells[j]);
    }
  }

  lemma {:induction false} SerializedIsValid(s: Screen.Term)
    requires Writable(s)
    ensures ValidTokens(Whole.Output(s))
  {
    hide S.Rows, S.Joined, S.Serialized, Replay.DrawableCell, S.ToCursor, S.ToStyle, ValidTokens, Printable,
         Replay.Length;
    WritableIsNarrow(s);
    Whole.LinesAreNotEmpty(s);
    var n := |s.lines|;
    RowsAreValid(s, n);
    LeadIsValid(Whole.Before(s, n).1[..Whole.WrittenRow(s) + 1]);
    var r := Whole.LastRow(s);
    var c := Replay.Length(s, r);
    NarrowSizes(s);
    ToCursorIsValid(r, c, s.yBase + s.y, s.x);
    ToStyleIsValid(Whole.Before(s, n).0.cursorStyle, s.attr);
    Whole.SerializedParts(s);
    ValidAppend(Whole.TextOf(s), Whole.ToCursorFrom(s, r, c));
    ValidAppend(Whole.TextOf(s) + Whole.ToCursorFrom(s, r, c), S.ToStyle(Whole.Before(s, n).0.cursorStyle, s.attr));
  }

  lemma NarrowSizes(s: Screen.Term)
    requires Writable(s)
    ensures s.cols <= MAX_PARAM_VALUE && s.x <= s.cols && s.yBase + s.y < |s.lines|
  {
  }

  /** The text of a serialized screen, read by the parser in its initial state and handed on to the
      handlers of a fresh terminal, rebuilds the screen exactly if it can be rebuilt. */
  lemma {:induction false} TextRebuildsScreen(s: Screen.Term) returns (t: Screen.Term)
    requires Writable(s) && Attributes.Plain(s.attr)
    ensures ValidTokens(Whole.Output(s))
    ensures var parsed := Feed(Machine(Ground, 0, CLEARED), Text(Whole.Output(s)));
            parsed.to.state == Ground && t == Screen.HandleAll(Whole.Start(s), parsed.events)
    ensures Whole.Rebuilt(t, s) <==> Whole.Rebuildable(s)
    ensures t.yBase == s.yBase && t.y == s.y && (t.x == s.x <==> Whole.CursorComesBack(s))
    ensures Attributes.Seen(t.attr) == Attributes.Seen(s.attr) <==> Whole.StyleComesBack(s)
  {
    hide Replay.DrawableCell, Printable, S.Serialized, Feed, Text, Whole.Rebuilt, Whole.Rebuildable,
         Whole.CursorComesBack, Whole.StyleComesBack, Attributes.Seen, Screen.HandleAll, ValidTokens;
    SerializedIsValid(s);
    t := Whole.ReplayRebuilds(s);
    TextParses(Machine(Ground, 0, CLEARED), Whole.Output(s));
  }
}
