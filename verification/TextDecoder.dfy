/** Streaming UTF-8 (RFC 3629, section 4): bytes in chunks, code points out. */
module TextDecoder {
  import opened ByteWords

  const RUNE_ERROR := 0xFFFD
  const BYTE_ORDER_MARK := 0xFEFF

  predicate Scalar(s: nat) {
    s < 0xD800 || 0xE000 <= s < 0x11_0000
  }

  function Encode(s: nat): (bytes: seq<Byte>)
    requires Scalar(s)
    ensures 1 <= |bytes| <= 4
  {
    if s < 0x80 then [s]
    else if s < 0x800 then [0xC0 + s / 0x40, 0x80 + s % 0x40]
    else if s < 0x1_0000 then [0xE0 + s / 0x1000, 0x80 + s / 0x40 % 0x40, 0x80 + s % 0x40]
    else [0xF0 + s / 0x4_0000, 0x80 + s / 0x1000 % 0x40, 0x80 + s / 0x40 % 0x40, 0x80 + s % 0x40]
  }

  // ---- one code point ----

  predicate Continuation(b: Byte) {
    0x80 <= b < 0xC0
  }

  function SeqLen(b: Byte): nat {
    if b < 0x80 then 1
    else if 0xC0 <= b < 0xE0 then 2
    else if 0xE0 <= b < 0xF0 then 3
    else if 0xF0 <= b < 0xF8 then 4
    else 0
  }

  /** The least and greatest second byte that may follow a leading byte. */
  function SecondRange(b: Byte): (Byte, Byte) {
    if b == 0xE0 then (0xA0, 0xBF)
    else if b == 0xED then (0x80, 0x9F)
    else if b == 0xF0 then (0x90, 0xBF)
    else if b == 0xF4 then (0x80, 0x8F)
    else (0x80, 0xBF)
  }

  datatype Rune = Rune(code: nat, size: nat)

  const INVALID := Rune(RUNE_ERROR, 1)

  /** The first code point of the bytes, as the standard library decodes it. */
  function DecodeRune(p: seq<Byte>): (r: Rune)
    requires p != []
    ensures 1 <= r.size <= |p|
  {
    var b: int := p[0];
    var size := if b < 0x80 then 1 else if 0xC2 <= b < 0xF5 then SeqLen(b) else 0;
    if size == 0 || |p| < size then INVALID
    else if size == 1 then Rune(b, 1)
    else if !(SecondRange(b).0 <= p[1] <= SecondRange(b).1) then INVALID
    else
      var b1: int := p[1] - 0x80;
      if size == 2 then Rune((b - 0xC0) * 0x40 + b1, 2)
      else if !Continuation(p[2]) then INVALID
      else
        var b2: int := p[2] - 0x80;
        if size == 3 then Rune((b - 0xE0) * 0x1000 + b1 * 0x40 + b2, 3)
        else if !Continuation(p[3]) then INVALID
        else Rune((b - 0xF0) * 0x4_0000 + b1 * 0x1000 + b2 * 0x40 + (p[3] as int - 0x80), 4)
  }

  lemma {:induction false} EncodedSizes(s: nat)
    requires Scalar(s)
    ensures SeqLen(Encode(s)[0]) == |Encode(s)|
    ensures forall k :: 1 <= k < |Encode(s)| ==> Continuation(Encode(s)[k])
  {
  }

  lemma {:induction false} DecodesEncoded(s: nat, rest: seq<Byte>)
    requires Scalar(s)
    ensures DecodeRune(Encode(s) + rest) == Rune(s, |Encode(s)|)
  {
    var p := Encode(s) + rest;
    if s < 0x80 {
    } else if s < 0x800 {
      Digits2(s);
    } else if s < 0x1_0000 {
      Digits3(s);
    } else {
      Digits4(s);
    }
  }

  lemma Digits2(s: nat)
    ensures s / 0x40 * 0x40 + s % 0x40 == s
  {
  }

  lemma Digits3(s: nat)
    ensures s / 0x1000 * 0x1000 + s / 0x40 % 0x40 * 0x40 + s % 0x40 == s
  {
    assert s / 0x1000 == s / 0x40 / 0x40;
    Digits2(s / 0x40);
    Digits2(s);
  }

  lemma Digits4(s: nat)
    ensures s / 0x4_0000 * 0x4_0000 + s / 0x1000 % 0x40 * 0x1000 + s / 0x40 % 0x40 * 0x40 + s % 0x40 == s
  {
    assert s / 0x4_0000 == s / 0x1000 / 0x40;
    Digits2(s / 0x1000);
    Digits3(s);
  }

  // ---- a chunk ----

  /** What a call leaves behind: its code points and the bytes of an unfinished one. */
  datatype Decoded = Decoded(codes: seq<nat>, pending: seq<Byte>)

  /** The input ends before the code point it starts with. */
  predicate Partial(input: seq<Byte>)
    requires input != []
  {
    input[0] >= 0x80 && SeqLen(input[0]) > |input|
  }

  /** A turn of the main loop: what it writes, and how many bytes it takes. */
  function Turn(input: seq<Byte>): (t: (seq<nat>, nat))
    requires input != [] && !Partial(input)
    ensures |t.0| <= 1 && 1 <= t.1 <= |input|
  {
    if input[0] < 0x80 then ([input[0]], 1)
    else if SeqLen(input[0]) == 0 then ([], 1)
    else
      var r := DecodeRune(input);
      if r.code == RUNE_ERROR && r.size <= 1 then ([], 1)
      else if r.code == BYTE_ORDER_MARK || 0xD800 <= r.code <= 0xDFFF then ([], r.size)
      else ([r.code], r.size)
  }

  /** The main loop, on what is left of the input. */
  function DecodeMain(input: seq<Byte>): (d: Decoded)
    ensures |d.codes| + |d.pending| <= |input| && |d.pending| <= 3
  {
    if input == [] then Decoded([], [])
    else if Partial(input) then Decoded([], input)
    else
      var t := Turn(input);
      var d := DecodeMain(input[t.1..]);
      d.(codes := t.0 + d.codes)
  }

  lemma MainTurn(input: seq<Byte>)
    requires input != []
    ensures if Partial(input) then DecodeMain(input) == Decoded([], input)
            else
              var t := Turn(input); var d := DecodeMain(input[t.1..]);
              DecodeMain(input) == Decoded(t.0 + d.codes, d.pending)
  {
    hide Turn;
  }

  lemma MainOfNothing(input: seq<Byte>)
    requires input == []
    ensures DecodeMain(input) == Decoded([], [])
  {
  }

  /** How many continuation bytes the input starts with, up to `needed`. */
  function Continuations(input: seq<Byte>, needed: nat): (n: nat)
    ensures n <= needed && n <= |input|
  {
    if needed == 0 || input == [] || !Continuation(input[0]) then 0
    else 1 + Continuations(input[1..], needed - 1)
  }

  /** A whole call. Bytes left over from the call before are completed first. */
  function Decode(pending: seq<Byte>, input: seq<Byte>): (d: Decoded)
    requires |pending| <= 3
    ensures |d.codes| <= |input| && |d.pending| <= 3
  {
    if input == [] then Decoded([], pending)
    else if pending == [] then DecodeMain(input)
    else
      var needed := SeqLen(pending[0]) - |pending|;
      if needed <= 0 then DecodeMain(input)
      else
        var n := Continuations(input, needed);
        if n < needed && n == |input| then Decoded([], pending + input)
        else if n < needed then DecodeMain(input[n..])
        else
          var r := DecodeRune(pending + input[..n]);
          var d := DecodeMain(input[n..]);
          if r.code != RUNE_ERROR && r.code != BYTE_ORDER_MARK then d.(codes := [r.code] + d.codes) else d
  }

  // ---- the decoder itself ----

  class Utf8ToUtf32 {
    var interim: seq<Byte>

    constructor ()
      ensures interim == []
    {
      interim := [];
    }

    method Clear()
      modifies this
      ensures interim == []
    {
      interim := [];
    }

    /** Writes the code points of a chunk to `target`, which never has to be longer than the chunk. */
    method DecodeChunk(input: seq<Byte>, target: array<nat>) returns (size: nat)
      requires |interim| <= 3 && |input| <= target.Length
      modifies this, target
      ensures var d := Decode(old(interim), input);
              && size == |d.codes| && target[..size] == d.codes && interim == d.pending
      ensures size <= |input| && |interim| <= 3
    {
      hide DecodeMain, DecodeRune, Continuations;
      size := 0;
      if |input| == 0 {
        return;
      }
      var startPos: nat := 0;
      if |interim| > 0 {
        var needed := SeqLen(interim[0]) - |interim|;
        if needed > 0 {
          var n := CountContinuations(input, needed);
          startPos := n;
          if n < needed && n == |input| {
            interim := interim + input;
            return;
          }
          if n == needed {
            var r := DecodeRune(interim + input[..n]);
            if r.code != RUNE_ERROR && r.code != BYTE_ORDER_MARK {
              target[0] := r.code;
              size := 1;
            }
          }
        }
        interim := [];
      }
      size := DecodeRest(input, startPos, target, size);
    }

    method CountContinuations(input: seq<Byte>, needed: nat) returns (n: nat)
      ensures n == Continuations(input, needed)
    {
      n := 0;
      while n < needed && n < |input| && Continuation(input[n])
        invariant n <= needed && n <= |input|
        invariant Continuations(input, needed) == n + Continuations(input[n..], needed - n)
      {
        n := n + 1;
      }
    }

    method TakeTurn(input: seq<Byte>, at: nat, target: array<nat>, written: nat) returns (i: nat, size: nat)
      requires written <= at < |input| <= target.Length && !Partial(input[at..])
      modifies target
      ensures var t := Turn(input[at..]);
              i == at + t.1 && size == written + |t.0| && target[..size] == old(target[..written]) + t.0
    {
      i, size := at, written;
      var b := input[i];
      if b < 0x80 {
        target[size] := b;
        size := size + 1;
        i := i + 1;
        return;
      }
      if SeqLen(b) == 0 {
        i := i + 1;
        return;
      }
      var r := DecodeRune(input[i..]);
      if r.code == RUNE_ERROR && r.size <= 1 {
        i := i + 1;
        return;
      }
      i := i + r.size;
      if r.code == BYTE_ORDER_MARK || 0xD800 <= r.code <= 0xDFFF {
        return;
      }
      target[size] := r.code;
      size := size + 1;
    }

    method DecodeRest(input: seq<Byte>, startPos: nat, target: array<nat>, start: nat) returns (size: nat)
      requires startPos <= |input| <= target.Length && start <= startPos && interim == []
      modifies this, target
      ensures var d := DecodeMain(input[startPos..]);
              && size == start + |d.codes| <= |input| && interim == d.pending
              && target[..size] == old(target[..start]) + d.codes
    {
      hide Turn, DecodeMain;
      size := start;
      var i := startPos;
      ghost var whole := target[..start] + DecodeMain(input[startPos..]).codes;
      while i < |input|
        invariant startPos <= i <= |input| && start <= size <= i && interim == []
        invariant whole == target[..size] + DecodeMain(input[i..]).codes
        invariant DecodeMain(input[startPos..]).pending == DecodeMain(input[i..]).pending
      {
        ghost var rest := input[i..];
        MainTurn(rest);
        var seqLen := SeqLen(input[i]);
        if input[i] >= 0x80 && seqLen != 0 && i + seqLen > |input| {
          interim := input[i..];
          return;
        }
        ghost var t := Turn(rest);
        i, size := TakeTurn(input, i, target, size);
        assert rest[t.1..] == input[i..];
      }
      MainOfNothing(input[i..]);
    }
  }

  // ---- well-formed streams ----

  predicate Scalars(ss: seq<nat>) {
    forall k :: 0 <= k < |ss| ==> Scalar(ss[k])
  }

  function Bytes(ss: seq<nat>): seq<Byte>
    requires Scalars(ss)
  {
    if ss == [] then [] else Encode(ss[0]) + Bytes(ss[1..])
  }

  function NoMarks(ss: seq<nat>): seq<nat> {
    if ss == [] then [] else (if ss[0] == BYTE_ORDER_MARK then [] else [ss[0]]) + NoMarks(ss[1..])
  }

  lemma {:induction false} BytesAppend(a: seq<nat>, b: seq<nat>)
    requires Scalars(a) && Scalars(b)
    ensures Scalars(a + b) && Bytes(a + b) == Bytes(a) + Bytes(b)
  {
    hide Encode;
    if a == [] {
      assert a + b == b;
    } else {
      assert (a + b)[1..] == a[1..] + b;
      BytesAppend(a[1..], b);
    }
  }

  /** The first turn on a well-formed stream takes its first code point. */
  lemma {:induction false} TurnTakesOne(s: nat, rest: seq<Byte>)
    requires Scalar(s)
    ensures var input := Encode(s) + rest;
            !Partial(input) && Turn(input) == (if s == BYTE_ORDER_MARK then [] else [s], |Encode(s)|)
  {
    hide DecodeRune;
    EncodedSizes(s);
    DecodesEncoded(s, rest);
  }

  lemma {:induction false} HalfIsPartial(s: nat, j: nat)
    requires Scalar(s) && 0 < j < |Encode(s)|
    ensures Partial(Encode(s)[..j])
  {
    EncodedSizes(s);
  }

  /** The main loop on some code points and the beginning of another. */
  lemma {:induction false} MainDecodes(xs: seq<nat>, s: nat, j: nat)
    requires Scalars(xs) && Scalar(s) && j < |Encode(s)|
    ensures DecodeMain(Bytes(xs) + Encode(s)[..j]) == Decoded(NoMarks(xs), Encode(s)[..j])
  {
    hide Encode, Turn, Partial;
    var tail := Encode(s)[..j];
    if xs == [] {
      assert Bytes(xs) + tail == tail;
      if j > 0 {
        HalfIsPartial(s, j);
      }
    } else {
      var rest := Bytes(xs[1..]) + tail;
      assert Bytes(xs) + tail == Encode(xs[0]) + rest;
      TurnTakesOne(xs[0], rest);
      assert (Encode(xs[0]) + rest)[|Encode(xs[0])|..] == rest;
      MainDecodes(xs[1..], s, j);
    }
  }

  lemma {:induction false} AllContinue(bytes: seq<Byte>, rest: seq<Byte>)
    requires forall k :: 0 <= k < |bytes| ==> Continuation(bytes[k])
    ensures forall needed: nat :: needed <= |bytes| ==> Continuations(bytes + rest, needed) == needed
    ensures rest == [] ==> forall needed: nat :: needed >= |bytes| ==> Continuations(bytes + rest, needed) == |bytes|
  {
    if bytes != [] {
      AllContinue(bytes[1..], rest);
      assert (bytes + rest)[1..] == bytes[1..] + rest;
    }
  }

  /** A code point cut in two is put together again, unless it is U+FFFD or a byte order mark. */
  lemma {:induction false} CutIsCompleted(s: nat, j: nat, rest: seq<Byte>)
    requires Scalar(s) && 0 < j < |Encode(s)|
    ensures var d := DecodeMain(rest);
            Decode(Encode(s)[..j], Encode(s)[j..] + rest) ==
            d.(codes := (if s == RUNE_ERROR || s == BYTE_ORDER_MARK then [] else [s]) + d.codes)
  {
    hide DecodeMain, DecodeRune, Continuations;
    var bytes := Encode(s);
    var input := bytes[j..] + rest;
    var needed := |bytes| - j;
    EncodedSizes(s);
    AllContinue(bytes[j..], rest);
    assert Continuations(input, needed) == needed;
    assert bytes[..j] + input[..needed] == bytes + [];
    DecodesEncoded(s, []);
    assert input[needed..] == rest;
  }

  lemma {:induction false} CutStaysOpen(s: nat, j: nat, j': nat)
    requires Scalar(s) && 0 < j < j' < |Encode(s)|
    ensures Decode(Encode(s)[..j], Encode(s)[j..j']) == Decoded([], Encode(s)[..j'])
  {
    hide DecodeMain, DecodeRune, Continuations;
    EncodedSizes(s);
    var input := Encode(s)[j..j'];
    AllContinue(input, []);
    assert input + [] == input;
  }

  // ---- streams in chunks ----

  function Concat(chunks: seq<seq<Byte>>): seq<Byte> {
    if chunks == [] then [] else Concat(chunks[..|chunks| - 1]) + chunks[|chunks| - 1]
  }

  /** One call for each chunk, from an empty decoder. */
  function Stream(chunks: seq<seq<Byte>>): (d: Decoded)
    ensures |d.pending| <= 3
  {
    if chunks == [] then Decoded([], [])
    else
      var before := Stream(chunks[..|chunks| - 1]);
      var d := Decode(before.pending, chunks[|chunks| - 1]);
      d.(codes := before.codes + d.codes)
  }

  /** Where code point `k` starts. */
  function Offset(ss: seq<nat>, k: nat): nat
    requires Scalars(ss) && k <= |ss|
  {
    |Bytes(ss[..k])|
  }

  /** The end of the first `m` chunks. */
  function Boundary(chunks: seq<seq<Byte>>, m: nat): nat
    requires m <= |chunks|
  {
    |Concat(chunks[..m])|
  }

  /** A boundary between chunks falls inside code point `i`. */
  ghost predicate IsCut(ss: seq<nat>, chunks: seq<seq<Byte>>, i: nat)
    requires Scalars(ss) && i < |ss|
  {
    exists m: nat :: m <= |chunks| && Offset(ss, i) < Boundary(chunks, m) < Offset(ss, i + 1)
  }

  ghost predicate Lost(ss: seq<nat>, chunks: seq<seq<Byte>>, i: nat)
    requires Scalars(ss) && i < |ss|
  {
    ss[i] == BYTE_ORDER_MARK || (ss[i] == RUNE_ERROR && IsCut(ss, chunks, i))
  }

  ghost function Kept(ss: seq<nat>, chunks: seq<seq<Byte>>, k: nat): seq<nat>
    requires Scalars(ss) && k <= |ss|
  {
    if k == 0 then [] else Kept(ss, chunks, k - 1) + if Lost(ss, chunks, k - 1) then [] else [ss[k - 1]]
  }

  lemma {:induction false} OffsetNext(ss: seq<nat>, k: nat)
    requires Scalars(ss) && k < |ss|
    ensures Offset(ss, k + 1) == Offset(ss, k) + |Encode(ss[k])|
    ensures Bytes(ss[..k + 1]) == Bytes(ss[..k]) + Encode(ss[k])
  {
    hide Encode;
    assert ss[..k + 1] == ss[..k] + [ss[k]];
    BytesAppend(ss[..k], [ss[k]]);
    assert Bytes([ss[k]]) == Encode(ss[k]) + Bytes([ss[k]][1..]);
  }

  /** The bytes from code point `k` to code point `k'`. */
  lemma {:induction false} BytesBetween(ss: seq<nat>, k: nat, k': nat)
    requires Scalars(ss) && k <= k' <= |ss|
    ensures Offset(ss, k) <= Offset(ss, k') <= |Bytes(ss)|
    ensures Bytes(ss)[..Offset(ss, k)] == Bytes(ss[..k])
    ensures Bytes(ss)[Offset(ss, k)..Offset(ss, k')] == Bytes(ss[k..k'])
  {
    hide Encode, Bytes;
    BytesAppend(ss[..k], ss[k..k']);
    assert ss[..k] + ss[k..k'] == ss[..k'];
    BytesAppend(ss[..k'], ss[k'..]);
    assert ss[..k'] + ss[k'..] == ss;
  }

  lemma SliceOfSlice(bytes: seq<Byte>, a: nat, c: nat, j: nat, j': nat)
    requires a <= c <= |bytes| && j <= j' <= c - a
    ensures bytes[a..c][j..j'] == bytes[a + j..a + j']
  {
    var x, y := bytes[a..c][j..j'], bytes[a + j..a + j'];
    forall i | 0 <= i < |x|
      ensures x[i] == y[i]
    {
      assert x[i] == bytes[a..c][j + i] && y[i] == bytes[a + j + i];
    }
  }

  lemma SliceSplits(bytes: seq<Byte>, a: nat, b: nat, c: nat)
    requires a <= b <= c <= |bytes|
    ensures bytes[a..c] == bytes[a..b] + bytes[b..c]
  {
  }

  /** The beginning of code point `k`. */
  lemma {:induction false} BytesInside(ss: seq<nat>, k: nat, j: nat, j': nat)
    requires Scalars(ss) && k < |ss| && j <= j' <= |Encode(ss[k])|
    ensures Offset(ss, k) + j' <= |Bytes(ss)|
    ensures Bytes(ss)[Offset(ss, k) + j..Offset(ss, k) + j'] == Encode(ss[k])[j..j']
  {
    hide Encode;
    OffsetNext(ss, k);
    BytesBetween(ss, k, k + 1);
    assert ss[k..k + 1] == [ss[k]];
    assert Bytes([ss[k]]) == Encode(ss[k]) + Bytes([ss[k]][1..]);
    SliceOfSlice(Bytes(ss), Offset(ss, k), Offset(ss, k + 1), j, j');
    assert Bytes([ss[k]]) == Encode(ss[k]);
  }

  /** The code point a position of the stream lies in. */
  lemma {:induction false} Locate(ss: seq<nat>, b: nat, from: nat) returns (k: nat)
    requires Scalars(ss) && from <= |ss| && Offset(ss, from) <= b <= |Bytes(ss)|
    ensures from <= k <= |ss| && Offset(ss, k) <= b
    ensures if k < |ss| then b < Offset(ss, k + 1) else b == Offset(ss, k)
    decreases |ss| - from
  {
    hide Encode, Bytes;
    BytesBetween(ss, from, |ss|);
    assert ss[..|ss|] == ss;
    if from == |ss| || b < Offset(ss, from + 1) {
      k := from;
    } else {
      k := Locate(ss, b, from + 1);
    }
  }

  lemma {:induction false} BoundariesGrow(chunks: seq<seq<Byte>>, m: nat, m': nat)
    requires m <= m' <= |chunks|
    ensures Boundary(chunks, m) <= Boundary(chunks, m')
    ensures Concat(chunks[..m]) <= Concat(chunks[..m'])
  {
    if m < m' {
      BoundariesGrow(chunks, m, m' - 1);
      assert chunks[..m'][..m' - 1] == chunks[..m' - 1];
    }
  }

  /** Code points that lie in one chunk are kept, but for byte order marks. */
  lemma {:induction false} KeptInOneChunk(ss: seq<nat>, chunks: seq<seq<Byte>>, m: nat, k: nat, k': nat)
    requires Scalars(ss) && k <= k' <= |ss| && m < |chunks|
    requires Boundary(chunks, m) <= Offset(ss, k) && Offset(ss, k') <= Boundary(chunks, m + 1)
    ensures Kept(ss, chunks, k') == Kept(ss, chunks, k) + NoMarks(ss[k..k'])
    decreases k'
  {
    hide Offset, Boundary;
    if k < k' {
      OffsetsGrow(ss, k, k' - 1);
      OffsetsGrow(ss, k' - 1, k');
      KeptInOneChunk(ss, chunks, m, k, k' - 1);
      forall m': nat | m' <= |chunks|
        ensures !(Offset(ss, k' - 1) < Boundary(chunks, m') < Offset(ss, k'))
      {
        if m' <= m {
          BoundariesGrow(chunks, m', m);
        } else {
          BoundariesGrow(chunks, m + 1, m');
        }
      }
      assert !IsCut(ss, chunks, k' - 1);
      assert ss[k..k'] == ss[k..k' - 1] + [ss[k' - 1]];
      NoMarksAppend(ss[k..k' - 1], ss[k' - 1]);
    } else {
      assert ss[k..k'] == [];
    }
  }

  lemma {:induction false} OffsetsGrow(ss: seq<nat>, k: nat, k': nat)
    requires Scalars(ss) && k <= k' <= |ss|
    ensures Offset(ss, k) <= Offset(ss, k')
  {
    BytesBetween(ss, k, k');
  }

  lemma {:induction false} NoMarksAppend(xs: seq<nat>, x: nat)
    ensures NoMarks(xs + [x]) == NoMarks(xs) + if x == BYTE_ORDER_MARK then [] else [x]
  {
    if xs == [] {
      assert [x][1..] == [];
    } else {
      var first := if xs[0] == BYTE_ORDER_MARK then [] else [xs[0]];
      var last := if x == BYTE_ORDER_MARK then [] else [x];
      NoMarksAppend(xs[1..], x);
      assert (xs + [x])[1..] == xs[1..] + [x];
      assert NoMarks(xs + [x]) == first + (NoMarks(xs[1..]) + last);
      assert NoMarks(xs) == first + NoMarks(xs[1..]);
    }
  }

  /** The code point that position `b` lies in is `k`. */
  predicate Located(ss: seq<nat>, b: nat, k: nat)
    requires Scalars(ss)
  {
    k <= |ss| && Offset(ss, k) <= b && if k < |ss| then b < Offset(ss, k + 1) else b == Offset(ss, k)
  }

  /** The decoder after part of the stream: the rest of a code point is pending. */
  ghost predicate Reached(ss: seq<nat>, chunks: seq<seq<Byte>>, b: nat, k: nat, d: Decoded)
    requires Scalars(ss)
  {
    && b <= |Bytes(ss)| && Located(ss, b, k)
    && d.pending == Bytes(ss)[Offset(ss, k)..b] && d.codes == Kept(ss, chunks, k)
  }

  /** The bytes from the start of code point `k` to position `b`, in which code point `k'` is reached. */
  lemma {:induction false} BytesTo(ss: seq<nat>, k: nat, b: nat, k': nat)
    requires Scalars(ss) && k <= k' <= |ss| && b <= |Bytes(ss)| && Located(ss, b, k')
    ensures Offset(ss, k) <= Offset(ss, k') <= b
    ensures k' < |ss| ==> b - Offset(ss, k') < |Encode(ss[k'])|
    ensures var tail := if k' < |ss| then Encode(ss[k'])[..b - Offset(ss, k')] else [];
            && Bytes(ss)[Offset(ss, k)..b] == Bytes(ss[k..k']) + tail
            && Bytes(ss)[Offset(ss, k')..b] == tail
  {
    hide Encode, Bytes;
    BytesBetween(ss, k, k');
    var a, c := Offset(ss, k), Offset(ss, k');
    SliceSplits(Bytes(ss), a, c, b);
    if k' < |ss| {
      OffsetNext(ss, k');
      BytesInside(ss, k', 0, b - c);
    }
  }

  /** The main loop from the start of code point `k` to position `b`. */
  lemma {:induction false} MainReaches(ss: seq<nat>, k: nat, b: nat, k': nat)
    requires Scalars(ss) && k <= k' <= |ss| && b <= |Bytes(ss)| && Located(ss, b, k')
    ensures Offset(ss, k) <= Offset(ss, k') <= b
    ensures DecodeMain(Bytes(ss)[Offset(ss, k)..b]) == Decoded(NoMarks(ss[k..k']), Bytes(ss)[Offset(ss, k')..b])
  {
    hide Encode, Bytes, DecodeMain, NoMarks, Offset;
    BytesTo(ss, k, b, k');
    if k' < |ss| {
      MainDecodes(ss[k..k'], ss[k'], b - Offset(ss, k'));
    } else {
      EncodeZero();
      MainDecodes(ss[k..k'], 0, 0);
    }
  }

  lemma EncodeZero()
    ensures Scalar(0) && |Encode(0)| == 1 && Encode(0)[..0] == []
  {
  }

  /** One more chunk. */
  lemma {:induction false} ChunkReaches(ss: seq<nat>, chunks: seq<seq<Byte>>, m: nat, k: nat, d: Decoded)
    returns (k': nat)
    requires Scalars(ss) && m < |chunks| && |d.pending| <= 3
    requires Boundary(chunks, m) <= Boundary(chunks, m + 1) <= |Bytes(ss)|
    requires Reached(ss, chunks, Boundary(chunks, m), k, d)
    requires chunks[m] == Bytes(ss)[Boundary(chunks, m)..Boundary(chunks, m + 1)]
    ensures var e := Decode(d.pending, chunks[m]);
            Reached(ss, chunks, Boundary(chunks, m + 1), k', e.(codes := d.codes + e.codes))
  {
    hide Encode, Bytes, DecodeMain, NoMarks, Decode, Offset, Boundary, Lost;
    var b, b' := Boundary(chunks, m), Boundary(chunks, m + 1);
    var a := Offset(ss, k);
    if b == b' {
      k' := k;
      NoInput(d.pending);
    } else if b == a {
      k' := Locate(ss, b', k);
      MainReaches(ss, k, b', k');
      NothingPending(chunks[m]);
      KeptInOneChunk(ss, chunks, m, k, k');
    } else {
      k' := PendingReaches(ss, chunks, m, k, d);
    }
  }

  lemma NoInput(pending: seq<Byte>)
    requires |pending| <= 3
    ensures Decode(pending, []) == Decoded([], pending)
  {
  }

  lemma NothingPending(input: seq<Byte>)
    ensures Decode([], input) == DecodeMain(input)
  {
  }

  /** A chunk that starts inside code point `k`. */
  ghost predicate StartsInside(ss: seq<nat>, chunks: seq<seq<Byte>>, m: nat, k: nat, d: Decoded) {
    && Scalars(ss) && m < |chunks| && |d.pending| <= 3 && k < |ss|
    && Offset(ss, k) < Boundary(chunks, m) < Boundary(chunks, m + 1) <= |Bytes(ss)|
    && Reached(ss, chunks, Boundary(chunks, m), k, d)
    && chunks[m] == Bytes(ss)[Boundary(chunks, m)..Boundary(chunks, m + 1)]
  }

  /** It ends inside it, too. */
  lemma {:induction false} PendingStays(ss: seq<nat>, chunks: seq<seq<Byte>>, m: nat, k: nat, d: Decoded)
    requires StartsInside(ss, chunks, m, k, d) && Boundary(chunks, m + 1) < Offset(ss, k + 1)
    ensures var e := Decode(d.pending, chunks[m]);
            Reached(ss, chunks, Boundary(chunks, m + 1), k, e.(codes := d.codes + e.codes))
  {
    hide Encode, Bytes, DecodeMain, NoMarks, Decode, Offset, Boundary;
    var b, b' := Boundary(chunks, m), Boundary(chunks, m + 1);
    var a, s := Offset(ss, k), ss[k];
    OffsetNext(ss, k);
    BytesInside(ss, k, 0, b - a);
    BytesInside(ss, k, b - a, b' - a);
    BytesInside(ss, k, 0, b' - a);
    CutStaysOpen(s, b - a, b' - a);
  }

  /** It completes it. */
  lemma {:induction false} PendingEnds(ss: seq<nat>, chunks: seq<seq<Byte>>, m: nat, k: nat, d: Decoded)
    returns (k': nat)
    requires StartsInside(ss, chunks, m, k, d) && Offset(ss, k + 1) <= Boundary(chunks, m + 1)
    ensures var e := Decode(d.pending, chunks[m]);
            Reached(ss, chunks, Boundary(chunks, m + 1), k', e.(codes := d.codes + e.codes))
  {
    hide Encode, Bytes, DecodeMain, NoMarks, Decode, Offset, Boundary;
    var b, b' := Boundary(chunks, m), Boundary(chunks, m + 1);
    var a, c := Offset(ss, k), Offset(ss, k + 1);
    var s, j := ss[k], b - a;
    OffsetNext(ss, k);
    BytesInside(ss, k, 0, j);
    assert d.pending == Encode(s)[..j];
    k' := Locate(ss, b', k + 1);
    BytesInside(ss, k, j, |Encode(s)|);
    var rest := Bytes(ss)[c..b'];
    SliceSplits(Bytes(ss), b, c, b');
    assert Encode(s)[j..|Encode(s)|] == Encode(s)[j..];
    CutIsCompleted(s, j, rest);
    MainReaches(ss, k + 1, b', k');
    KeptInOneChunk(ss, chunks, m, k + 1, k');
    assert IsCut(ss, chunks, k);
  }

  lemma {:induction false} PendingReaches(ss: seq<nat>, chunks: seq<seq<Byte>>, m: nat, k: nat, d: Decoded)
    returns (k': nat)
    requires StartsInside(ss, chunks, m, k, d)
    ensures var e := Decode(d.pending, chunks[m]);
            Reached(ss, chunks, Boundary(chunks, m + 1), k', e.(codes := d.codes + e.codes))
  {
    hide Encode, Bytes, Decode, Offset, Boundary, Reached;
    if Boundary(chunks, m + 1) < Offset(ss, k + 1) {
      PendingStays(ss, chunks, m, k, d);
      k' := k;
    } else {
      k' := PendingEnds(ss, chunks, m, k, d);
    }
  }

  /** However a well-formed stream is cut, its code points come out in order; missing are the byte order
      marks, and each U+FFFD that a boundary falls into. Only the end of the stream is pending. */
  lemma {:induction false} StreamReaches(ss: seq<nat>, chunks: seq<seq<Byte>>, m: nat) returns (k: nat)
    requires Scalars(ss) && m <= |chunks| && Concat(chunks) <= Bytes(ss)
    ensures Boundary(chunks, m) <= |Bytes(ss)| && Reached(ss, chunks, Boundary(chunks, m), k, Stream(chunks[..m]))
  {
    hide Encode, Bytes, Decode, Reached;
    BoundariesGrow(chunks, m, |chunks|);
    assert chunks[..|chunks|] == chunks;
    if m == 0 {
      k := 0;
      ReachedAtStart(ss, chunks);
    } else {
      var before := StreamReaches(ss, chunks, m - 1);
      BoundariesGrow(chunks, m - 1, m);
      var last := chunks[m - 1];
      assert chunks[..m][..m - 1] == chunks[..m - 1];
      assert Concat(chunks[..m]) == Concat(chunks[..m - 1]) + last;
      assert last == Concat(chunks[..m])[Boundary(chunks, m - 1)..];
      assert last == Bytes(ss)[Boundary(chunks, m - 1)..Boundary(chunks, m)];
      k := ChunkReaches(ss, chunks, m - 1, before, Stream(chunks[..m - 1]));
    }
  }

  lemma ReachedAtStart(ss: seq<nat>, chunks: seq<seq<Byte>>)
    requires Scalars(ss)
    ensures Boundary(chunks, 0) == 0 && Reached(ss, chunks, 0, 0, Stream(chunks[..0]))
  {
    assert ss[..0] == [];
    if ss != [] {
      OffsetNext(ss, 0);
    }
  }

  /** The whole stream. */
  lemma {:induction false} StreamDecodes(ss: seq<nat>, chunks: seq<seq<Byte>>)
    requires Scalars(ss) && Concat(chunks) == Bytes(ss)
    ensures Stream(chunks) == Decoded(Kept(ss, chunks, |ss|), [])
    ensures Stream(chunks).codes == NoMarks(ss) <==>
            forall i :: 0 <= i < |ss| && ss[i] == RUNE_ERROR ==> !IsCut(ss, chunks, i)
  {
    hide Encode, Bytes, Stream, Concat, IsCut;
    var m := |chunks|;
    assert chunks[..m] == chunks;
    var k := StreamReaches(ss, chunks, m);
    BytesBetween(ss, k, |ss|);
    assert ss[..|ss|] == ss;
    if k < |ss| {
      OffsetNext(ss, k);
      OffsetsGrow(ss, k + 1, |ss|);
    }
    KeptIsNoMarks(ss, chunks, |ss|);
  }

  lemma {:induction false} KeptIsNoMarks(ss: seq<nat>, chunks: seq<seq<Byte>>, k: nat)
    requires Scalars(ss) && k <= |ss|
    ensures |Kept(ss, chunks, k)| <= |NoMarks(ss[..k])|
    ensures Kept(ss, chunks, k) == NoMarks(ss[..k]) <==>
            forall i :: 0 <= i < k && ss[i] == RUNE_ERROR ==> !IsCut(ss, chunks, i)
  {
    hide IsCut, NoMarks;
    if k == 0 {
      NoMarksOfNothing();
    } else {
      KeptIsNoMarks(ss, chunks, k - 1);
      assert ss[..k] == ss[..k - 1] + [ss[k - 1]];
      NoMarksAppend(ss[..k - 1], ss[k - 1]);
      var kept, all := Kept(ss, chunks, k - 1), NoMarks(ss[..k - 1]);
      if Kept(ss, chunks, k) == NoMarks(ss[..k]) {
        assert |kept| == |all|;
        assert kept == Kept(ss, chunks, k)[..|kept|] && all == NoMarks(ss[..k])[..|all|];
      }
    }
  }

  lemma NoMarksOfNothing()
    ensures NoMarks([]) == []
  {
  }
}
