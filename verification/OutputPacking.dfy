/** The packing loop of the relay output batcher: numbered terminal writes become as few
    `output` messages as the payload budget allows, and an oversized write is split. */
module OutputPacking {

  type Bytes = seq<bv8>

  const SECURE_MAX_TEXT_PAYLOAD := 24000
  const OUTPUT_CHUNK_MARGIN := 2048
  const OUTPUT_CHUNK_UNIT := 4096
  const OUTPUT_MARSHAL_FREE_FLOOR := (SECURE_MAX_TEXT_PAYLOAD - OUTPUT_CHUNK_MARGIN - 512) / 6
  const BUDGET := SECURE_MAX_TEXT_PAYLOAD - OUTPUT_CHUNK_MARGIN

  /** The JSON around the data takes at most this much; every data byte takes at most six. */
  const ENVELOPE_MAX := 514

  /** One numbered terminal write. */
  datatype OutEntry = OutEntry(seqNo: nat, data: Bytes)

  /** An `output` message; `outputs` is the wire field "n". */
  datatype Message = Message(sessionId: string, data: Bytes, seqNo: nat, outputs: nat)

  /** The length of a marshalled message, left abstract. */
  type Marshal = Message -> nat

  ghost predicate SixfoldEscaping(marshal: Marshal) {
    forall m: Message :: marshal(m) <= ENVELOPE_MAX + 6 * |m.data|
  }

  // ---- what a list of entries, or of messages, carries ----

  ghost function WrittenBytes(entries: seq<OutEntry>): Bytes {
    if entries == [] then [] else
      WrittenBytes(entries[..|entries| - 1]) + entries[|entries| - 1].data
  }

  ghost function SentBytes(msgs: seq<Message>): Bytes {
    if msgs == [] then [] else SentBytes(msgs[..|msgs| - 1]) + msgs[|msgs| - 1].data
  }

  /** How many writes have had their first piece sent. */
  ghost function Started(msgs: seq<Message>): nat {
    if msgs == [] then 0 else Started(msgs[..|msgs| - 1]) + msgs[|msgs| - 1].outputs
  }

  ghost predicate NonEmptyWrites(entries: seq<OutEntry>) {
    forall i :: 0 <= i < |entries| ==> entries[i].data != []
  }

  /** Byte position `at` lies inside write number `w` (counting from one), or at its end. */
  ghost predicate InsideWrite(entries: seq<OutEntry>, w: nat, at: nat) {
    && 1 <= w <= |entries|
    && |WrittenBytes(entries[..w - 1])| < at <= |WrittenBytes(entries[..w])|
  }

  /** The message that ends the list `msgs` is labelled by the write its last byte belongs to. */
  ghost predicate LastLabelled(entries: seq<OutEntry>, msgs: seq<Message>)
    requires msgs != []
  {
    && InsideWrite(entries, Started(msgs), |SentBytes(msgs)|)
    && msgs[|msgs| - 1].seqNo == entries[Started(msgs) - 1].seqNo
  }

  ghost predicate Labelled(entries: seq<OutEntry>, msgs: seq<Message>) {
    forall i :: 0 < i <= |msgs| ==> LastLabelled(entries, msgs[..i])
  }

  ghost predicate Sendable(marshal: Marshal, sessionId: string, m: Message) {
    m.sessionId == sessionId && m.data != [] && marshal(m) <= BUDGET
  }

  /** Nothing lost or reordered, and each message labelled by the writes it carries. */
  ghost predicate Carries(entries: seq<OutEntry>, msgs: seq<Message>) {
    && SentBytes(msgs) == WrittenBytes(entries)
    && Started(msgs) == |entries|
    && Labelled(entries, msgs)
  }

  /** A correct packing: it carries the entries, and every message fits the budget. */
  ghost predicate Packs(marshal: Marshal, sessionId: string, entries: seq<OutEntry>, msgs: seq<Message>) {
    && Carries(entries, msgs)
    && forall m :: m in msgs ==> Sendable(marshal, sessionId, m)
  }

  // ---- the packing loop ----

  /** The open message: a packed prefix, plus `data` not sent yet, plus where the reader of
      `entries` stands. `started` counts the writes with a piece sent or open. */
  ghost predicate Packing(marshal: Marshal, sessionId: string, entries: seq<OutEntry>,
                          msgs: seq<Message>, data: Bytes, n: nat, seqNo: nat) {
    && Labelled(entries, msgs)
    && (forall m :: m in msgs ==> Sendable(marshal, sessionId, m))
    && (data == [] ==> n == 0)
    && (data != [] ==>
          && marshal(Message(sessionId, data, seqNo, n)) <= BUDGET
          && InsideWrite(entries, Started(msgs) + n, |SentBytes(msgs)| + |data|)
          && seqNo == entries[Started(msgs) + n - 1].seqNo)
  }

  lemma {:induction false} EmitKeepsPacking(marshal: Marshal, sessionId: string, entries: seq<OutEntry>,
                         msgs: seq<Message>, data: Bytes, n: nat, seqNo: nat)
    requires Packing(marshal, sessionId, entries, msgs, data, n, seqNo)
    requires data != []
    ensures var msgs' := msgs + [Message(sessionId, data, seqNo, n)];
            && Packing(marshal, sessionId, entries, msgs', [], 0, seqNo)
            && SentBytes(msgs') == SentBytes(msgs) + data
            && Started(msgs') == Started(msgs) + n
  {
    var m := Message(sessionId, data, seqNo, n);
    var msgs' := msgs + [m];
    assert msgs'[..|msgs|] == msgs;
    forall i | 0 < i <= |msgs'| ensures LastLabelled(entries, msgs'[..i]) {
      if i <= |msgs| {
        assert msgs'[..i] == msgs[..i];
      } else {
        assert msgs'[..i] == msgs';
      }
    }
  }

  lemma {:induction false} WrittenBytesStep(entries: seq<OutEntry>, k: nat)
    requires k < |entries|
    ensures WrittenBytes(entries[..k + 1]) == WrittenBytes(entries[..k]) + entries[k].data
  {
    assert entries[..k + 1][..k] == entries[..k];
  }

  /** Largest prefix of `rem` found by halving that still fits beside `data`; 0 if none does. */
  method FittingPrefix(marshal: Marshal, sessionId: string, data: Bytes, rem: Bytes, n: nat, seqNo: nat)
    returns (size: nat)
    requires SixfoldEscaping(marshal)
    requires rem != []
    ensures size <= |rem|
    ensures size > 0 ==> marshal(Message(sessionId, data + rem[..size], seqNo, n)) <= BUDGET
    ensures data == [] ==> size > 0
  {
    size := OUTPUT_CHUNK_UNIT;
    if size > |rem| {
      size := |rem|;
    }
    while size > 0
      invariant size <= |rem|
      invariant data == [] ==> size > 0
    {
      if |data| + size <= OUTPUT_MARSHAL_FREE_FLOOR ||
         marshal(Message(sessionId, data + rem[..size], seqNo, n)) <= BUDGET {
        assert marshal(Message(sessionId, data + rem[..size], seqNo, n)) <= BUDGET;
        break;
      }
      size := size / 2;
    }
  }

  /** Where the loop stands while write number `k` (from zero) is being packed: `rem` is what is
      left of it, and `firstPiece` says that none of it has been taken yet. */
  ghost predicate InWrite(entries: seq<OutEntry>, k: nat, rem: Bytes, firstPiece: bool,
                          msgs: seq<Message>, data: Bytes, n: nat)
    requires k < |entries|
  {
    && SentBytes(msgs) + data + rem == WrittenBytes(entries[..k]) + entries[k].data
    && Started(msgs) + n == k + (if firstPiece then 0 else 1)
    && |rem| <= |entries[k].data|
    && (firstPiece ==> |rem| == |entries[k].data|)
  }

  lemma {:induction false} TakePieceKeepsPacking(marshal: Marshal, sessionId: string, entries: seq<OutEntry>, k: nat,
                              rem: Bytes, firstPiece: bool, size: nat,
                              msgs: seq<Message>, data: Bytes, n: nat, seqNo: nat)
    requires k < |entries| && 0 < size <= |rem|
    requires Packing(marshal, sessionId, entries, msgs, data, n, seqNo)
    requires InWrite(entries, k, rem, firstPiece, msgs, data, n)
    requires var nextN := if firstPiece then n + 1 else n;
             marshal(Message(sessionId, data + rem[..size], entries[k].seqNo, nextN)) <= BUDGET
    ensures var nextN := if firstPiece then n + 1 else n;
            && Packing(marshal, sessionId, entries, msgs, data + rem[..size], nextN, entries[k].seqNo)
            && InWrite(entries, k, rem[size..], false, msgs, data + rem[..size], nextN)
  {
    WrittenBytesStep(entries, k);
    assert rem == rem[..size] + rem[size..];
    assert SentBytes(msgs) + (data + rem[..size]) + rem[size..] == SentBytes(msgs) + data + rem;
  }

  lemma {:induction false} EmitKeepsInWrite(
        sessionId: string, entries: seq<OutEntry>, k: nat, rem: Bytes, firstPiece: bool,
        msgs: seq<Message>, data: Bytes, n: nat, seqNo: nat)
    requires k < |entries|
    requires InWrite(entries, k, rem, firstPiece, msgs, data, n)
    ensures InWrite(entries, k, rem, firstPiece, msgs + [Message(sessionId, data, seqNo, n)], [], 0)
  {
    var m := Message(sessionId, data, seqNo, n);
    assert (msgs + [m])[..|msgs|] == msgs;
    assert SentBytes(msgs) + data + [] + rem == SentBytes(msgs) + data + rem;
  }

  /** The inner loop: one write joins the open message, spilling into further messages. */
  method PackWrite(marshal: Marshal, sessionId: string, ghost entries: seq<OutEntry>, ghost k: nat, e: OutEntry,
                   msgs0: seq<Message>, data0: Bytes, n0: nat, seqNo0: nat)
    returns (msgs: seq<Message>, data: Bytes, n: nat, seqNo: nat)
    requires SixfoldEscaping(marshal)
    requires k < |entries| && e == entries[k] && e.data != []
    requires Packing(marshal, sessionId, entries, msgs0, data0, n0, seqNo0)
    requires InWrite(entries, k, e.data, true, msgs0, data0, n0)
    ensures Packing(marshal, sessionId, entries, msgs, data, n, seqNo)
    ensures InWrite(entries, k, [], false, msgs, data, n)
  {
    hide Packing, InWrite;
    msgs, data, n, seqNo := msgs0, data0, n0, seqNo0;
    var rem, firstPiece := e.data, true;
    while rem != []
      invariant Packing(marshal, sessionId, entries, msgs, data, n, seqNo)
      invariant InWrite(entries, k, rem, firstPiece, msgs, data, n)
      invariant firstPiece ==> rem != []
      decreases |rem|, |data|
    {
      var nextN := if firstPiece then n + 1 else n;

      if |data| + |rem| <= OUTPUT_MARSHAL_FREE_FLOOR ||
         marshal(Message(sessionId, data + rem, e.seqNo, nextN)) <= BUDGET {
        assert rem[..|rem|] == rem && rem[|rem|..] == [];
        TakePieceKeepsPacking(marshal, sessionId, entries, k, rem, firstPiece, |rem|, msgs, data, n, seqNo);
        data, seqNo, n, firstPiece := data + rem, e.seqNo, nextN, false;
        rem := [];
        break;
      }

      var size := FittingPrefix(marshal, sessionId, data, rem, nextN, e.seqNo);
      if size == 0 {
        EmitKeepsPacking(marshal, sessionId, entries, msgs, data, n, seqNo);
        EmitKeepsInWrite(sessionId, entries, k, rem, firstPiece, msgs, data, n, seqNo);
        msgs := msgs + [Message(sessionId, data, seqNo, n)];
        data, n := [], 0;
        continue;
      }

      TakePieceKeepsPacking(marshal, sessionId, entries, k, rem, firstPiece, size, msgs, data, n, seqNo);
      data, rem := data + rem[..size], rem[size..];
      seqNo, n, firstPiece := e.seqNo, nextN, false;
      if rem != [] {
        EmitKeepsPacking(marshal, sessionId, entries, msgs, data, n, seqNo);
        EmitKeepsInWrite(sessionId, entries, k, rem, firstPiece, msgs, data, n, seqNo);
        msgs := msgs + [Message(sessionId, data, seqNo, n)];
        data, n := [], 0;
      }
    }
  }

  method PackBatch(marshal: Marshal, sessionId: string, entries: seq<OutEntry>) returns (msgs: seq<Message>)
    requires SixfoldEscaping(marshal)
    requires NonEmptyWrites(entries)
    ensures Packs(marshal, sessionId, entries, msgs)
  {
    msgs := [];
    var data: Bytes, n: nat, seqNo: nat := [], 0, 0;
    for k := 0 to |entries|
      invariant Packing(marshal, sessionId, entries, msgs, data, n, seqNo)
      invariant SentBytes(msgs) + data == WrittenBytes(entries[..k])
      invariant Started(msgs) + n == k
    {
      WrittenBytesStep(entries, k);
      msgs, data, n, seqNo := PackWrite(marshal, sessionId, entries, k, entries[k], msgs, data, n, seqNo);
    }
    assert entries[..|entries|] == entries;
    if data != [] {
      EmitKeepsPacking(marshal, sessionId, entries, msgs, data, n, seqNo);
      msgs := msgs + [Message(sessionId, data, seqNo, n)];
    }
  }

  // ---- the coverage contract ----

  /** The highest write number a reader has seen after `msgs`, when the entries start at `first`. */
  ghost function Watermark(first: nat, msgs: seq<Message>): int {
    first - 1 + Started(msgs)
  }

  /** The messages tile the numbers of the writes: a message with n >= 1 starts right after the
      watermark, a continuation (n = 0) repeats it, and the last watermark is the last write. */
  lemma {:induction false} PackingTiles(entries: seq<OutEntry>, msgs: seq<Message>, first: nat, i: nat)
    requires Carries(entries, msgs) && i < |msgs|
    requires forall k :: 0 <= k < |entries| ==> entries[k].seqNo == first + k
    ensures msgs[i].outputs >= 1 ==> msgs[i].seqNo - msgs[i].outputs + 1 == Watermark(first, msgs[..i]) + 1
    ensures msgs[i].outputs == 0 ==> msgs[i].seqNo == Watermark(first, msgs[..i])
    ensures msgs[i].seqNo == Watermark(first, msgs[..i + 1])
    ensures Watermark(first, msgs) == first + |entries| - 1
  {
    assert LastLabelled(entries, msgs[..i + 1]);
    assert msgs[..i + 1][..i] == msgs[..i];
  }
}
