/** The serialized screen as bytes: encoded in UTF-8, cut anywhere, decoded, parsed and drawn. */
module SerializeReplayBytes {
  import opened ByteWords
  import opened ParserParams
  import opened ParserMachine
  import opened SerializeReplayWire
  import Attributes
  import C = CsiRoundTrip
  import D = TextDecoder
  import Replay = SerializeReplay
  import S = Serializer
  import Screen
  import ParserTable
  import Whole = SerializeReplayScreen
  import opened SerializeReplayCounts

  // ---- the text can be encoded, and nothing of it is left out ----

  predicate Decodable(code: nat) {
    D.Scalar(code) && code != D.BYTE_ORDER_MARK
  }

  predicate AllDecodable(codes: seq<nat>) {
    forall k :: 0 <= k < |codes| ==> Decodable(codes[k])
  }

  predicate Ascii(code: nat) {
    code < 0x80
  }

  predicate AllAscii(codes: seq<nat>) {
    forall k :: 0 <= k < |codes| ==> Ascii(codes[k])
  }

  lemma FieldIsAscii(value: int)
    ensures AllAscii(C.FieldText(C.Field(Decimal(if value < 0 then 0 else value), [])))
  {
    hide Decimal, C.NumberOf;
    var digits := Decimal(if value < 0 then 0 else value);
    DecimalIs(if value < 0 then 0 else value);
    forall k | 0 <= k < |digits|
      ensures digits[k] <= 9
    {
      assert digits[k] in digits;
    }
  }

  lemma {:induction false} FieldsAreAscii(values: seq<int>)
    ensures AllAscii(C.FieldsText(FieldsOf(values)))
  {
    hide C.FieldText, Decimal;
    if values != [] {
      var last := values[|values| - 1];
      FieldIsAscii(last);
      FieldsAreAscii(values[..|values| - 1]);
      assert FieldsOf(values)[..|values| - 1] == FieldsOf(values[..|values| - 1]);
    }
  }

  lemma CsiIsAscii(final: nat, values: seq<int>)
    requires ValidToken(S.Csi(final, values))
    ensures AllAscii(TokenText(S.Csi(final, values)))
  {
    FieldsAreAscii(values);
  }

  lemma TokenIsDecodable(tok: S.Token)
    requires ValidToken(tok)
    ensures AllDecodable(TokenText(tok))
  {
    hide C.CsiText;
    if tok.Csi? {
      CsiIsAscii(tok.final, tok.values);
    }
  }

  lemma {:induction false} TextIsDecodable(tokens: seq<S.Token>)
    requires ValidTokens(tokens)
    ensures AllDecodable(Text(tokens))
  {
    hide TokenText, Decodable, ValidToken;
    if tokens != [] {
      assert tokens[|tokens| - 1] in tokens;
      TextIsDecodable(tokens[..|tokens| - 1]);
      TokenIsDecodable(tokens[|tokens| - 1]);
    }
  }

  lemma {:induction false} NothingLeftOut(codes: seq<nat>)
    requires AllDecodable(codes)
    ensures D.Scalars(codes) && D.NoMarks(codes) == codes
  {
    if codes != [] {
      assert Decodable(codes[0]);
      NothingLeftOut(codes[1..]);
    }
  }

  // ---- one call of the decoder and one of the parser for each chunk ----

  /** What the parser is given for each chunk. */
  function Pieces(chunks: seq<seq<Byte>>): seq<seq<nat>> {
    if chunks == [] then []
    else
      var front := chunks[..|chunks| - 1];
      Pieces(front) + [D.Decode(D.Stream(front).pending, chunks[|chunks| - 1]).codes]
  }

  lemma {:induction false} PiecesJoin(chunks: seq<seq<Byte>>)
    ensures Concat(Pieces(chunks)) == D.Stream(chunks).codes
  {
    hide D.Decode;
    if chunks != [] {
      PiecesJoin(chunks[..|chunks| - 1]);
      var pieces := Pieces(chunks);
      assert pieces[..|pieces| - 1] == Pieces(chunks[..|chunks| - 1]);
    }
  }

  // ---- payload of strings draws nothing ----

  lemma StrayDrawsNothing(t: Screen.Term, e: Event)
    requires Screen.Valid(t) && Stray(e)
    ensures Screen.Handle(t, e) == t
  {
  }

  lemma {:induction false} CleanedDrawsTheSame(t: Screen.Term, events: seq<Event>)
    requires Screen.Valid(t)
    ensures Screen.HandleAll(t, Cleaned(events)) == Screen.HandleAll(t, events)
  {
    hide Stray, Screen.Handle, Screen.Valid;
    if events != [] {
      var front, last := events[..|events| - 1], events[|events| - 1];
      CleanedDrawsTheSame(t, front);
      if Stray(last) {
        StrayDrawsNothing(Screen.HandleAll(t, front), last);
        assert Cleaned(events) == Cleaned(front);
      } else {
        assert (Cleaned(front) + [last])[..|Cleaned(front)|] == Cleaned(front);
      }
    }
  }

  /** A terminal given the chunks one after the other. */
  function Written(t: Screen.Term, chunks: seq<seq<Byte>>): Screen.Term
    requires Screen.Valid(t)
  {
    Screen.HandleAll(t, RunChunks(Machine(ParserTable.Ground, 0, CLEARED), Pieces(chunks)).events)
  }

  /** Whatever the bytes are and wherever they are cut, the screen depends only on the code points the
      decoder yields. */
  lemma {:induction false} ScreenOfStream(t: Screen.Term, chunks: seq<seq<Byte>>)
    requires Screen.Valid(t)
    ensures Written(t, chunks) == Screen.HandleAll(t, Feed(Machine(ParserTable.Ground, 0, CLEARED),
                                                           D.Stream(chunks).codes).events)
  {
    hide *;
    var m := Machine(ParserTable.Ground, 0, CLEARED);
    PiecesJoin(chunks);
    ChunksDoNotMatter(m, Pieces(chunks));
    CleanedDrawsTheSame(t, RunChunks(m, Pieces(chunks)).events);
    WrittenIs(t, chunks);
  }

  lemma WrittenIs(t: Screen.Term, chunks: seq<seq<Byte>>)
    requires Screen.Valid(t)
    ensures Written(t, chunks) == Screen.HandleAll(t, RunChunks(Machine(ParserTable.Ground, 0, CLEARED),
                                                                Pieces(chunks)).events)
  {
  }

  /** The characters of a serialized screen. */
  ghost function Characters(s: Screen.Term): (codes: seq<nat>)
    requires Writable(s)
    ensures D.Scalars(codes)
  {
    SerializedIsValid(s);
    TextIsDecodable(Whole.Output(s));
    NothingLeftOut(Text(Whole.Output(s)));
    Text(Whole.Output(s))
  }

  lemma CharactersAre(s: Screen.Term)
    requires Writable(s)
    ensures ValidTokens(Whole.Output(s)) && Characters(s) == Text(Whole.Output(s)) &&
            D.NoMarks(Characters(s)) == Characters(s)
  {
    hide Whole.Output, Printable;
    SerializedIsValid(s);
    TextIsDecodable(Whole.Output(s));
    NothingLeftOut(Text(Whole.Output(s)));
  }

  lemma {:induction false} TokenTextErrors(tok: S.Token)
    requires ValidToken(tok)
    ensures Total(TokenText(tok), CodeErrors) == TokenErrors(tok)
  {
    hide C.CsiText, Total;
    match tok
    case Char(code) => TotalOne(code, CodeErrors);
    case Csi(final, values) =>
      CsiIsAscii(final, values);
      TotalNothing(TokenText(tok), CodeErrors);
    case CrLf => TotalNothing(TokenText(tok), CodeErrors);
  }

  lemma {:induction false} TextErrors(tokens: seq<S.Token>)
    requires ValidTokens(tokens)
    ensures Total(Text(tokens), CodeErrors) == Total(tokens, TokenErrors)
  {
    hide TokenText, TokenErrors, CodeErrors, ValidToken;
    if tokens != [] {
      assert tokens[|tokens| - 1] in tokens;
      TextErrors(tokens[..|tokens| - 1]);
      TokenTextErrors(tokens[|tokens| - 1]);
      TotalAppend(Text(tokens[..|tokens| - 1]), TokenText(tokens[|tokens| - 1]), CodeErrors);
    }
  }

  /** A screen that loses a replacement character to a cut is not rebuilt. */
  lemma {:induction false} CutIsNotRebuilt(s: Screen.Term, chunks: seq<seq<Byte>>)
    requires Writable(s) && D.Concat(chunks) == D.Bytes(Characters(s))
    requires SomeErrorCut(Characters(s), chunks, |Characters(s)|)
    ensures Screen.Valid(Whole.Start(s)) && !Whole.Rebuilt(Written(Whole.Start(s), chunks), s)
  {
    hide *;
    StartIsValid(s);
    CharactersAre(s);
    var codes, start := Characters(s), Whole.Start(s);
    var m := Machine(ParserTable.Ground, 0, CLEARED);
    D.StreamDecodes(codes, chunks);
    var kept := D.Stream(chunks).codes;
    KeptErrors(codes, chunks, |codes|);
    assert codes[..|codes|] == codes;
    TextErrors(Whole.Output(s));
    OutputErrors(s);
    FeedErrors(m, kept);
    ScreenOfStream(start, chunks);
    ShownErrors(start, Feed(m, kept).events);
    StartHasNone(s);
    if Whole.Rebuilt(Written(start, chunks), s) {
      RebuiltErrors(Written(start, chunks), s);
    }
  }

  lemma StartHasNone(s: Screen.Term)
    requires Screen.Valid(s)
    ensures Total(Whole.Start(s).lines, LineErrors) == 0
  {
    FreshHasNone(s.cols, s.rows, s.scrollback);
  }

  /** The whole way: a screen is serialized and encoded, its bytes reach a fresh terminal cut anywhere,
      and every chunk is decoded, parsed and drawn. The screen is rebuilt exactly if it can be and no cut
      goes through a U+FFFD; then the cursor and the style come back under their own conditions. */
  lemma {:induction false} BytesRebuildScreen(s: Screen.Term, chunks: seq<seq<Byte>>) returns (t: Screen.Term)
    requires Writable(s) && Attributes.Plain(s.attr)
    requires D.Concat(chunks) == D.Bytes(Characters(s))
    ensures Screen.Valid(Whole.Start(s)) && t == Written(Whole.Start(s), chunks)
    ensures var cut := SomeErrorCut(Characters(s), chunks, |Characters(s)|);
            && (Whole.Rebuilt(t, s) <==> Whole.Rebuildable(s) && !cut)
            && (!cut ==> t.yBase == s.yBase && t.y == s.y)
            && (!cut ==> (t.x == s.x <==> Whole.CursorComesBack(s)))
            && (!cut ==> (Attributes.Seen(t.attr) == Attributes.Seen(s.attr) <==> Whole.StyleComesBack(s)))
  {
    hide *;
    StartIsValid(s);
    if SomeErrorCut(Characters(s), chunks, |Characters(s)|) {
      CutIsNotRebuilt(s, chunks);
      t := Written(Whole.Start(s), chunks);
    } else {
      t := UncutIsRebuilt(s, chunks);
    }
  }

  lemma {:induction false} UncutIsRebuilt(s: Screen.Term, chunks: seq<seq<Byte>>) returns (t: Screen.Term)
    requires Writable(s) && Attributes.Plain(s.attr)
    requires D.Concat(chunks) == D.Bytes(Characters(s)) && !SomeErrorCut(Characters(s), chunks, |Characters(s)|)
    ensures Screen.Valid(Whole.Start(s)) && t == Written(Whole.Start(s), chunks)
    ensures Whole.Rebuilt(t, s) <==> Whole.Rebuildable(s)
    ensures t.yBase == s.yBase && t.y == s.y && (t.x == s.x <==> Whole.CursorComesBack(s))
    ensures Attributes.Seen(t.attr) == Attributes.Seen(s.attr) <==> Whole.StyleComesBack(s)
  {
    hide *;
    StartIsValid(s);
    CharactersAre(s);
    D.StreamDecodes(Characters(s), chunks);
    NoneIsCut(Characters(s), chunks);
    t := TextRebuildsScreen(s);
    ScreenOfStream(Whole.Start(s), chunks);
  }

  lemma NoneIsCut(ss: seq<nat>, chunks: seq<seq<Byte>>)
    requires D.Scalars(ss) && !SomeErrorCut(ss, chunks, |ss|)
    ensures forall i :: 0 <= i < |ss| && ss[i] == D.RUNE_ERROR ==> !D.IsCut(ss, chunks, i)
  {
    hide D.IsCut;
    forall i: nat | i < |ss| && ss[i] == D.RUNE_ERROR
      ensures !D.IsCut(ss, chunks, i)
    {
      assert !ErrorCut(ss, chunks, i);
    }
  }

  lemma StartIsValid(s: Screen.Term)
    requires Writable(s)
    ensures Replay.Drawable(s) && Screen.Valid(s) && Screen.Valid(Whole.Start(s))
  {
  }
}
