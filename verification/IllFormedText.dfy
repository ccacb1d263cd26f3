/** What the decoder makes of bytes that are not well-formed UTF-8. */
module IllFormedText {
  import opened ByteWords
  import opened TextDecoder

  // ---- which bytes are dropped ----

  /** The bytes start with the encoding of a code point. */
  ghost predicate Starts(input: seq<Byte>, s: nat) {
    Scalar(s) && Encode(s) <= input
  }

  ghost predicate WellBegun(input: seq<Byte>) {
    exists s: nat :: Starts(input, s)
  }

  lemma LastDigit(a: nat, d: nat)
    requires d < 0x40
    ensures (a * 0x40 + d) / 0x40 == a && (a * 0x40 + d) % 0x40 == d
  {
  }

  lemma {:induction false} TwoBytes(b: Byte, b1: nat)
    requires 0xC2 <= b < 0xE0 && b1 < 0x40
    ensures var s := (b - 0xC0) * 0x40 + b1; Scalar(s) && Encode(s) == [b, 0x80 + b1]
  {
    LastDigit(b - 0xC0, b1);
  }

  lemma {:induction false} ThreeBytes(b: Byte, b1: nat, b2: nat)
    requires 0xE0 <= b < 0xF0 && b1 < 0x40 && b2 < 0x40
    requires (b == 0xE0 ==> b1 >= 0x20) && (b == 0xED ==> b1 < 0x20)
    ensures var s := (b - 0xE0) * 0x1000 + b1 * 0x40 + b2; Scalar(s) && Encode(s) == [b, 0x80 + b1, 0x80 + b2]
  {
    var high := (b - 0xE0) * 0x40 + b1;
    LastDigit(high, b2);
    LastDigit(b - 0xE0, b1);
    var s := (b - 0xE0) * 0x1000 + b1 * 0x40 + b2;
    assert s == high * 0x40 + b2;
    assert s / 0x1000 == s / 0x40 / 0x40;
  }

  lemma {:induction false} FourBytes(b: Byte, b1: nat, b2: nat, b3: nat)
    requires 0xF0 <= b < 0xF5 && b1 < 0x40 && b2 < 0x40 && b3 < 0x40
    requires (b == 0xF0 ==> b1 >= 0x10) && (b == 0xF4 ==> b1 < 0x10)
    ensures var s := (b - 0xF0) * 0x4_0000 + b1 * 0x1000 + b2 * 0x40 + b3;
            Scalar(s) && Encode(s) == [b, 0x80 + b1, 0x80 + b2, 0x80 + b3]
  {
    var top := (b - 0xF0) * 0x40 + b1;
    var high := top * 0x40 + b2;
    LastDigit(high, b3);
    LastDigit(top, b2);
    LastDigit(b - 0xF0, b1);
    var s := (b - 0xF0) * 0x4_0000 + b1 * 0x1000 + b2 * 0x40 + b3;
    assert s == high * 0x40 + b3;
    assert s / 0x1000 == s / 0x40 / 0x40 && s / 0x4_0000 == s / 0x1000 / 0x40;
  }

  /** What is decoded is the code point whose encoding stands there. */
  lemma {:induction false} DecodedIsEncoded(p: seq<Byte>)
    requires p != [] && DecodeRune(p) != INVALID
    ensures Scalar(DecodeRune(p).code) && p[..DecodeRune(p).size] == Encode(DecodeRune(p).code)
  {
    hide Encode;
    var b, r := p[0], DecodeRune(p);
    if b < 0x80 {
      OneByte(b);
    } else if SeqLen(b) == 2 {
      TwoBytes(b, p[1] - 0x80);
    } else if SeqLen(b) == 3 {
      ThreeBytes(b, p[1] - 0x80, p[2] - 0x80);
    } else {
      FourBytes(b, p[1] - 0x80, p[2] - 0x80, p[3] - 0x80);
    }
  }

  lemma OneByte(b: Byte)
    requires b < 0x80
    ensures Scalar(b) && Encode(b) == [b]
  {
  }

  /** The first code point is rejected exactly if the bytes do not start with an encoding: overlong
      forms, surrogates and numbers above U+10FFFF are none. */
  lemma {:induction false} RejectedExactly(p: seq<Byte>)
    requires p != []
    ensures DecodeRune(p) == INVALID <==> !WellBegun(p)
  {
    hide DecodeRune, Encode;
    if DecodeRune(p) != INVALID {
      DecodedIsEncoded(p);
      assert Starts(p, DecodeRune(p).code);
    }
    if s: nat :| Starts(p, s) {
      DecodesEncoded(s, p[|Encode(s)|..]);
      assert Encode(s) + p[|Encode(s)|..] == p;
      EncodedError(s);
    }
  }

  lemma EncodedError(s: nat)
    requires Scalar(s)
    ensures Rune(s, |Encode(s)|) != INVALID
  {
  }

  /** A turn takes a whole code point where one stands, and writes it unless it is a byte order mark;
      otherwise it drops one byte, and nothing behind it. */
  lemma {:induction false} TurnExactly(input: seq<Byte>)
    requires input != [] && !Partial(input)
    ensures forall s: nat :: Starts(input, s) ==>
              Turn(input) == (if s == BYTE_ORDER_MARK then [] else [s], |Encode(s)|)
    ensures !WellBegun(input) ==> Turn(input) == ([], 1) && input[0] >= 0x80
  {
    hide DecodeRune, Encode;
    forall s: nat | Starts(input, s)
      ensures Turn(input) == (if s == BYTE_ORDER_MARK then [] else [s], |Encode(s)|)
    {
      TurnTakesOne(s, input[|Encode(s)|..]);
      assert Encode(s) + input[|Encode(s)|..] == input;
    }
    RejectedExactly(input);
    if input[0] < 0x80 {
      OneByte(input[0]);
      assert Starts(input, input[0]);
    }
  }

  // ---- ASCII ----

  function Ascii(codes: seq<nat>): seq<nat> {
    if codes == [] then []
    else Ascii(codes[..|codes| - 1]) + if codes[|codes| - 1] < 0x80 then [codes[|codes| - 1]] else []
  }

  lemma {:induction false} AsciiAppend(a: seq<nat>, b: seq<nat>)
    ensures Ascii(a + b) == Ascii(a) + Ascii(b)
  {
    if b == [] {
      assert a + b == a;
    } else {
      assert (a + b)[..|a + b| - 1] == a + b[..|b| - 1];
      AsciiAppend(a, b[..|b| - 1]);
    }
  }

  lemma {:induction false} AsciiOfOthers(codes: seq<nat>)
    requires forall k :: 0 <= k < |codes| ==> codes[k] >= 0x80
    ensures Ascii(codes) == []
  {
    if codes != [] {
      AsciiOfOthers(codes[..|codes| - 1]);
    }
  }

  lemma AsciiOfOne(code: nat)
    ensures Ascii([code]) == if code < 0x80 then [code] else []
  {
    assert [code][..0] == [];
  }

  /** A turn writes the ASCII bytes that it takes. */
  lemma {:induction false} TurnKeepsAscii(input: seq<Byte>)
    requires input != [] && !Partial(input)
    ensures Ascii(Turn(input).0) == Ascii(input[..Turn(input).1])
  {
    hide Turn, Encode, DecodeRune, Ascii, Partial;
    TurnExactly(input);
    var t := Turn(input);
    if WellBegun(input) {
      var s: nat :| Starts(input, s);
      assert input[..t.1] == Encode(s);
      EncodedAscii(s);
    } else {
      assert input[..1] == [input[0]];
      AsciiOfOne(input[0]);
      AsciiOfNone();
    }
  }

  lemma AsciiOfNone()
    ensures Ascii([]) == []
  {
  }

  lemma {:induction false} EncodedAscii(s: nat)
    requires Scalar(s)
    ensures Ascii(Encode(s)) == if s < 0x80 then [s] else []
    ensures Ascii([s]) == Ascii(Encode(s))
    ensures s == BYTE_ORDER_MARK ==> Ascii([]) == Ascii(Encode(s))
  {
    AsciiOfOne(s);
    if s >= 0x80 {
      AsciiOfOthers(Encode(s));
    }
  }

  /** Whatever the bytes are, the main loop writes every ASCII byte, in order, but for those that it
      keeps back behind a leading byte that promises more than there is. */
  lemma {:induction false} MainKeepsAscii(input: seq<Byte>)
    ensures Ascii(DecodeMain(input).codes) + Ascii(DecodeMain(input).pending) == Ascii(input)
    ensures DecodeMain(input).pending != [] ==> DecodeMain(input).pending[0] >= 0x80
    ensures Unfinished(DecodeMain(input).pending)
  {
    hide Turn, Ascii, DecodeRune;
    AsciiOfNone();
    if input == [] {
      MainOfNothing(input);
    } else {
      MainTurn(input);
      if !Partial(input) {
        var t := Turn(input);
        MainKeepsAscii(input[t.1..]);
        TurnKeepsAscii(input);
        var d := DecodeMain(input[t.1..]);
        AsciiAppend(t.0, d.codes);
        AsciiAppend(input[..t.1], input[t.1..]);
        assert input[..t.1] + input[t.1..] == input;
      }
    }
  }

  // ---- several calls ----

  /** The bytes kept back are fewer than their first one promises. */
  predicate Unfinished(pending: seq<Byte>) {
    pending == [] || (|pending| <= 3 && pending[0] >= 0x80 && |pending| < SeqLen(pending[0]))
  }

  /** The call is done with the bytes kept back: it brings their last byte, or a byte that does not
      continue them. */
  predicate Settles(pending: seq<Byte>, input: seq<Byte>) {
    input != [] && pending != []
    && var needed := SeqLen(pending[0]) - |pending|;
       needed > 0 ==> |input| >= needed || Continuations(input, needed) < |input|
  }

  lemma {:induction false} ContinuationsAre(input: seq<Byte>, needed: nat)
    ensures forall k :: 0 <= k < Continuations(input, needed) ==> input[k] >= 0x80
  {
    if needed > 0 && input != [] && Continuation(input[0]) {
      ContinuationsAre(input[1..], needed - 1);
      forall k | 0 <= k < Continuations(input, needed)
        ensures input[k] >= 0x80
      {
        if k > 0 {
          assert input[k] == input[1..][k - 1];
        }
      }
    }
  }

  lemma {:induction false} ContinuationsHaveNone(input: seq<Byte>, needed: nat)
    ensures var n := Continuations(input, needed); Ascii(input[..n]) == [] && Ascii(input[n..]) == Ascii(input)
  {
    var n := Continuations(input, needed);
    ContinuationsAre(input, needed);
    AsciiOfOthers(input[..n]);
    AsciiAppend(input[..n], input[n..]);
    assert input[..n] + input[n..] == input;
  }

  /** What a completed code point is, is no ASCII. */
  lemma {:induction false} CompletedIsNone(p: seq<Byte>)
    requires p != [] && p[0] >= 0x80
    ensures Ascii([DecodeRune(p).code]) == []
  {
    hide DecodeRune, Encode, Ascii;
    AsciiOfOne(DecodeRune(p).code);
    if DecodeRune(p) != INVALID {
      DecodedIsEncoded(p);
      EncodedFirst(DecodeRune(p).code, p);
    }
  }

  lemma EncodedFirst(s: nat, p: seq<Byte>)
    requires Scalar(s) && p != [] && Encode(s) <= p && p[0] >= 0x80
    ensures s >= 0x80
  {
  }

  lemma CompletedAppended(p: seq<Byte>, codes: seq<nat>)
    requires p != [] && p[0] >= 0x80
    ensures Ascii([DecodeRune(p).code] + codes) == Ascii(codes)
  {
    hide DecodeRune, Ascii;
    CompletedIsNone(p);
    AsciiAppend([DecodeRune(p).code], codes);
  }

  /** A call loses just the ASCII bytes among those kept back by the last one, if it settles them. */
  lemma {:induction false} CallKeepsAscii(pending: seq<Byte>, input: seq<Byte>)
    requires Unfinished(pending)
    ensures var d := Decode(pending, input);
            && Unfinished(d.pending)
            && Ascii(d.codes) + Ascii(d.pending) ==
              (if Settles(pending, input) then [] else Ascii(pending)) + Ascii(input)
  {
    hide DecodeMain, DecodeRune, Ascii, Continuations;
    AsciiOfNone();
    MainKeepsAscii(input);
    if pending != [] && input != [] {
      var needed := SeqLen(pending[0]) - |pending|;
      var n := Continuations(input, needed);
      ContinuationsHaveNone(input, needed);
      MainKeepsAscii(input[n..]);
      if n < needed && n == |input| {
        AsciiAppend(pending, input);
      } else if n == needed {
        CompletedAppended(pending + input[..n], DecodeMain(input[n..]).codes);
      }
    }
  }

  /** The ASCII bytes that the calls lose. */
  function LostAscii(chunks: seq<seq<Byte>>): nat {
    if chunks == [] then 0
    else
      var front := chunks[..|chunks| - 1];
      LostAscii(front)
      + if Settles(Stream(front).pending, chunks[|chunks| - 1]) then |Ascii(Stream(front).pending)| else 0
  }

  lemma StreamUnfold(chunks: seq<seq<Byte>>)
    requires chunks != []
    ensures var front, last := chunks[..|chunks| - 1], chunks[|chunks| - 1];
            var d := Decode(Stream(front).pending, last);
            && Stream(chunks) == Decoded(Stream(front).codes + d.codes, d.pending)
            && Concat(chunks) == Concat(front) + last
  {
    hide Decode;
  }

  /** Over all calls: the ASCII bytes are written in order, all but those that are still kept back and
      those that were lost, and they are all there exactly if none was lost: if no call settled bytes
      kept back that had an ASCII byte among them. */
  lemma {:induction false} AsciiKeptExactly(chunks: seq<seq<Byte>>)
    ensures var d := Stream(chunks);
            && Unfinished(d.pending)
            && |Ascii(d.codes)| + |Ascii(d.pending)| + LostAscii(chunks) == |Ascii(Concat(chunks))|
            && (Ascii(d.codes) + Ascii(d.pending) == Ascii(Concat(chunks)) <==> LostAscii(chunks) == 0)
    ensures LostAscii(chunks) == 0 <==>
            forall m :: 0 <= m < |chunks| && Settles(Stream(chunks[..m]).pending, chunks[m]) ==>
              Ascii(Stream(chunks[..m]).pending) == []
  {
    hide Ascii, Decode, Settles, Concat, Stream;
    if chunks == [] {
      NoChunks();
    } else {
      var front, last := chunks[..|chunks| - 1], chunks[|chunks| - 1];
      AsciiKeptExactly(front);
      StreamUnfold(chunks);
      var before := Stream(front);
      var d := Decode(before.pending, last);
      CallKeepsAscii(before.pending, last);
      AsciiAppend(before.codes, d.codes);
      AsciiAppend(Concat(front), last);
      SumsUp(Ascii(before.codes), Ascii(before.pending), Ascii(Concat(front)), Ascii(d.codes), Ascii(d.pending),
             Ascii(last), Settles(before.pending, last));
      forall m | 0 <= m < |front|
        ensures front[..m] == chunks[..m] && front[m] == chunks[m]
      {
      }
    }
  }

  lemma SumsUp<T>(a: seq<T>, p: seq<T>, all: seq<T>, c: seq<T>, q: seq<T>, input: seq<T>, settled: bool)
    requires c + q == (if settled then [] else p) + input
    requires a + p == all || |a| + |p| < |all|
    ensures a + p == all && (!settled || p == []) ==> a + c + q == all + input
    ensures |a| + |p| < |all| || (settled && p != []) ==> a + c + q != all + input
  {
    assert |c| + |q| == (if settled then 0 else |p|) + |input|;
    assert a + c + q == a + (c + q);
    assert a + (p + input) == a + p + input;
  }

  lemma NoChunks()
    ensures Stream([]) == Decoded([], []) && Concat([]) == [] && Ascii([]) == []
  {
  }

  lemma {:induction false} LettersAreKept()
    ensures Stream([[0xE2, 0x61, 0x62]]) == Decoded([0x61, 0x62], [])
  {
    assert [0xE2, 0x61, 0x62][1..] == [0x61, 0x62] && [0x61, 0x62][1..] == [0x62] && [0x62][1..] == [];
    assert [[0xE2, 0x61, 0x62]][..0] == [];
  }

  lemma {:induction false} LetterIsHeld()
    ensures Stream([[0xE2, 0x61]]) == Decoded([], [0xE2, 0x61])
  {
    assert [[0xE2, 0x61]][..0] == [];
  }

  /** In one call the letters behind an unfinished leading byte are kept; cut behind the first of them,
      that one is lost. */
  lemma {:induction false} LetterIsLost()
    ensures Stream([[0xE2, 0x61, 0x62]]) == Decoded([0x61, 0x62], [])
    ensures Stream([[0xE2, 0x61], [0x62]]) == Decoded([0x62], [])
  {
    hide Stream, DecodeRune;
    LettersAreKept();
    LetterIsHeld();
    var chunks: seq<seq<Byte>> := [[0xE2, 0x61], [0x62]];
    assert chunks[..1] == [[0xE2, 0x61]] && chunks[1] == [0x62];
    StreamUnfold(chunks);
    assert [0x62][0..] == [0x62] && [0x62][1..] == [];
  }
}
