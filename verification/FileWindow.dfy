/** File transfer: the sliding window between a sender and the acknowledgements it waits for, and
    the cutting of a file into chunks. */
module FileWindow {
  import opened ByteWords

  const FILE_ACK_WINDOW := 4

  // ---- the window ----

  /** Where the sender is: about to read the count of acknowledged chunks, parked on the wake-up
      channel, free to send the next chunk, or at an end. */
  datatype SenderAt = Checking | Parked | Passed | Cancelled | TimedOut | Finished

  /** Where the handler of acknowledgements is: it stores a new count, then pokes the sender. */
  datatype AckerAt = Idle | Stored

  /** `token` is the one slot of the wake-up channel. */
  datatype Transfer = Transfer(total: nat, sent: nat, acked: int, token: bool, sender: SenderAt, acker: AckerAt)

  datatype Action =
    | Check
    | Wake
    | Send
    | Cancel
    | Timeout
    | Ack(received: int)
    | Poke

  function Start(total: nat): Transfer {
    Transfer(total, 0, 0, false, if total == 0 then Finished else Checking, Idle)
  }

  /** The next chunk lies inside the window. */
  predicate Open(t: Transfer) {
    t.acked + FILE_ACK_WINDOW > t.sent
  }

  /** An action can be taken; acknowledgements are handled one at a time, and only of what was sent. */
  predicate Enabled(t: Transfer, a: Action) {
    match a
    case Check => t.sender == Checking
    case Wake => t.sender == Parked && t.token
    case Send => t.sender == Passed
    case Cancel => t.sender == Parked || t.sender == Passed
    case Timeout => t.sender == Parked
    case Ack(received) => t.acker == Idle && received <= t.sent
    case Poke => t.acker == Stored
  }

  function Step(t: Transfer, a: Action): Transfer {
    match a
    case Check => t.(sender := if Open(t) then Passed else Parked)
    case Wake => t.(token := false, sender := Checking)
    case Send => t.(sent := t.sent + 1, sender := if t.sent + 1 == t.total then Finished else Checking)
    case Cancel => t.(sender := Cancelled)
    case Timeout => t.(sender := TimedOut)
    case Ack(received) => if received > t.acked then t.(acked := received, acker := Stored) else t
    case Poke => t.(token := true, acker := Idle)
  }

  /** Never more than a window unacknowledged; and if a parked sender could go on, a token is there or
      about to be put there. */
  predicate Inv(t: Transfer) {
    && 0 <= t.acked <= t.sent <= t.total && t.sent - t.acked <= FILE_ACK_WINDOW
    && (t.sender == Passed ==> Open(t))
    && (t.sender in {Checking, Parked, Passed} ==> t.sent < t.total)
    && (t.sender == Finished ==> t.sent == t.total)
    && (t.sender == Parked && Open(t) ==> t.token || t.acker == Stored)
  }

  function After(t: Transfer, actions: seq<Action>): Transfer {
    if actions == [] then t else Step(After(t, actions[..|actions| - 1]), actions[|actions| - 1])
  }

  ghost predicate IsRun(t: Transfer, actions: seq<Action>) {
    forall i :: 0 <= i < |actions| ==> Enabled(After(t, actions[..i]), actions[i])
  }

  lemma {:induction false} StepKeepsInv(t: Transfer, a: Action)
    requires Inv(t) && Enabled(t, a)
    ensures Inv(Step(t, a)) && Step(t, a).acked >= t.acked && Step(t, a).sent >= t.sent
  {
  }

  /** Over every interleaving: the window is kept, the count of acknowledged chunks never falls, and
      no wake-up is lost. */
  lemma {:induction false} RunKeepsInv(total: nat, actions: seq<Action>, m: nat)
    requires IsRun(Start(total), actions) && m <= |actions|
    ensures Inv(After(Start(total), actions[..m]))
    ensures m > 0 ==> After(Start(total), actions[..m]).acked >= After(Start(total), actions[..m - 1]).acked
  {
    hide Inv, Step, Enabled;
    if m == 0 {
      assert actions[..0] == [];
      StartsValid(total);
    } else {
      RunKeepsInv(total, actions, m - 1);
      assert actions[..m][..m - 1] == actions[..m - 1];
      StepKeepsInv(After(Start(total), actions[..m - 1]), actions[m - 1]);
    }
  }

  lemma StartsValid(total: nat)
    ensures Inv(Start(total))
  {
  }

  function Greater(a: int, b: int): int {
    if a > b then a else b
  }

  /** The greatest count acknowledged so far; none is zero. */
  function Acknowledged(actions: seq<Action>): int {
    if actions == [] then 0
    else
      var before, last := Acknowledged(actions[..|actions| - 1]), actions[|actions| - 1];
      if last.Ack? then Greater(before, last.received) else before
  }

  /** How many chunks have been sent. */
  function Sends(actions: seq<Action>): nat {
    if actions == [] then 0
    else Sends(actions[..|actions| - 1]) + if actions[|actions| - 1] == Send then 1 else 0
  }

  lemma {:induction false} AcknowledgedIs(actions: seq<Action>)
    ensures forall a :: a in actions && a.Ack? ==> a.received <= Acknowledged(actions)
    ensures Acknowledged(actions) == 0 || exists a :: a in actions && a.Ack? && a.received == Acknowledged(actions)
    ensures Acknowledged(actions) >= 0
  {
    if actions != [] {
      var front, last := actions[..|actions| - 1], actions[|actions| - 1];
      AcknowledgedIs(front);
      assert actions == front + [last];
      assert last in actions;
      assert forall a :: a in front ==> a in actions;
    }
  }

  /** After any actions the stored counts are what they stand for: the greatest acknowledgement, and the
      number of chunks sent. */
  lemma {:induction false} CountsAreRight(total: nat, actions: seq<Action>)
    ensures After(Start(total), actions).acked == Acknowledged(actions)
    ensures After(Start(total), actions).sent == Sends(actions)
  {
    hide Open;
    if actions != [] {
      CountsAreRight(total, actions[..|actions| - 1]);
    }
  }

  /** A parked sender that could go on does go on: after the poke, if it is still due, it wakes up,
      checks again, and passes. */
  lemma {:induction false} WakeUpArrives(t: Transfer) returns (actions: seq<Action>)
    requires Inv(t) && t.sender == Parked && Open(t)
    ensures IsRun(t, actions) && After(t, actions).sender == Passed && After(t, actions).sent == t.sent
    ensures |actions| <= 3 && forall a :: a in actions ==> a in {Poke, Wake, Check}
  {
    hide IsRun, After, Inv;
    InvGivesToken(t);
    var poked := if t.token then t else Step(t, Poke);
    var woken := Step(poked, Wake);
    actions := if t.token then [Wake, Check] else [Poke, Wake, Check];
    if t.token {
      TwoSteps(t, Wake, Check);
    } else {
      TwoSteps(t, Poke, Wake);
      assert [Poke, Wake] + [Check] == [Poke, Wake, Check];
      OneMore(t, [Poke, Wake], Check);
    }
  }

  lemma InvGivesToken(t: Transfer)
    requires Inv(t) && t.sender == Parked && Open(t)
    ensures t.token || t.acker == Stored
  {
  }

  lemma OneMore(t: Transfer, actions: seq<Action>, a: Action)
    requires IsRun(t, actions) && Enabled(After(t, actions), a)
    ensures IsRun(t, actions + [a]) && After(t, actions + [a]) == Step(After(t, actions), a)
  {
    hide Step, Enabled;
    var all := actions + [a];
    assert all[..|actions|] == actions;
    forall i | 0 <= i < |all|
      ensures Enabled(After(t, all[..i]), all[i])
    {
      if i < |actions| {
        assert all[..i] == actions[..i];
      }
    }
  }

  lemma TwoSteps(t: Transfer, a: Action, b: Action)
    requires Enabled(t, a) && Enabled(Step(t, a), b)
    ensures IsRun(t, [a, b]) && After(t, [a, b]) == Step(Step(t, a), b)
  {
    hide Step, Enabled;
    assert IsRun(t, []) && After(t, []) == t;
    assert [] + [a] == [a] && [a] + [b] == [a, b];
    OneMore(t, [], a);
    OneMore(t, [a], b);
  }

  /** A token that outlives its cause costs one more check and nothing else. */
  lemma {:induction false} SpareTokensDoNoHarm(t: Transfer)
    requires Inv(t) && t.sender == Parked && t.token && !Open(t)
    ensures Step(Step(t, Wake), Check) == t.(token := false)
  {
  }

  /** What a transfer holds for flow control. */
  class FileSendTask {
    var acked: int
    var ackNotify: bool

    /** Records an acknowledgement that goes further than the last and pokes the sender without
        waiting: a poke that finds the slot taken is dropped. */
    method HandleAck(received: int)
      modifies this
      ensures forall t: Transfer :: t.acked == old(acked) && t.token == old(ackNotify) && t.acker == Idle ==>
                var stored := Step(t, Ack(received));
                var poked := if stored.acker == Stored then Step(stored, Poke) else stored;
                acked == poked.acked && ackNotify == poked.token
    {
      if received > acked {
        acked := received;
        if !ackNotify {
          ackNotify := true;
        }
      }
    }
  }

  // ---- chunks ----

  const FRAME_HEADER := 9

  /** The configured chunk size, or the largest that fits a frame with its header and its envelope. */
  function ChunkSize(configured: int, frameLimit: nat, secureOverhead: nat): (size: int)
    requires frameLimit > FRAME_HEADER + secureOverhead
    ensures 0 < size && size + FRAME_HEADER + secureOverhead <= frameLimit
    ensures 0 < configured <= frameLimit - FRAME_HEADER - secureOverhead ==> size == configured
  {
    var largest := frameLimit - FRAME_HEADER - secureOverhead;
    if configured <= 0 || configured > largest then largest else configured
  }

  function TotalChunks(fileSize: nat, chunkSize: nat): (total: nat)
    requires chunkSize > 0
    ensures total > 0
  {
    var total := (fileSize + chunkSize - 1) / chunkSize;
    if total == 0 then 1 else total
  }

  datatype Frame = Frame(fileId: nat, chunkIdx: nat, data: seq<Byte>)

  function Payloads(frames: seq<Frame>): seq<Byte> {
    if frames == [] then [] else Payloads(frames[..|frames| - 1]) + frames[|frames| - 1].data
  }

  lemma {:induction false} ChunksCover(fileSize: nat, chunkSize: nat)
    requires chunkSize > 0
    ensures TotalChunks(fileSize, chunkSize) * chunkSize >= fileSize
    ensures fileSize > 0 ==> (TotalChunks(fileSize, chunkSize) - 1) * chunkSize < fileSize
  {
    var a := fileSize + chunkSize - 1;
    assert a == a / chunkSize * chunkSize + a % chunkSize;
    if a / chunkSize > 0 {
      assert (a / chunkSize - 1) * chunkSize == a / chunkSize * chunkSize - chunkSize;
    }
  }

  /** The frames are numbered from zero, none is empty or too long, and the first `full` are full. */
  predicate Numbered(frames: seq<Frame>, fileId: nat, chunkSize: nat, full: int) {
    forall k :: 0 <= k < |frames| ==> IsChunk(frames[k], fileId, k, chunkSize, k < full)
  }

  predicate IsChunk(frame: Frame, fileId: nat, chunkIdx: nat, chunkSize: nat, full: bool) {
    && frame.fileId == fileId && frame.chunkIdx == chunkIdx
    && 0 < |frame.data| <= chunkSize && (full ==> |frame.data| == chunkSize)
  }

  lemma NumberedNext(frames: seq<Frame>, fileId: nat, chunkSize: nat, data: seq<Byte>)
    requires Numbered(frames, fileId, chunkSize, |frames|) && 0 < |data| <= chunkSize
    ensures var next := frames + [Frame(fileId, |frames|, data)];
            && Numbered(next, fileId, chunkSize, |frames|)
            && (|data| == chunkSize ==> Numbered(next, fileId, chunkSize, |frames| + 1))
            && Payloads(next) == Payloads(frames) + data
  {
    hide Payloads, IsChunk;
    var frame := Frame(fileId, |frames|, data);
    PayloadsNext(frames, frame);
    IsOneChunk(frame, chunkSize);
    var next := frames + [frame];
    forall k | 0 <= k < |next|
      ensures IsChunk(next[k], fileId, k, chunkSize, k < |frames|)
    {
    }
    if |data| == chunkSize {
      forall k | 0 <= k < |next|
        ensures IsChunk(next[k], fileId, k, chunkSize, k < |frames| + 1)
      {
      }
    }
  }

  lemma IsOneChunk(frame: Frame, chunkSize: nat)
    requires 0 < |frame.data| <= chunkSize
    ensures IsChunk(frame, frame.fileId, frame.chunkIdx, chunkSize, false)
    ensures |frame.data| == chunkSize ==> IsChunk(frame, frame.fileId, frame.chunkIdx, chunkSize, true)
  {
  }

  lemma PayloadsNext(frames: seq<Frame>, frame: Frame)
    ensures Payloads(frames + [frame]) == Payloads(frames) + frame.data
  {
    assert (frames + [frame])[..|frames|] == frames;
  }

  /** How much of the file the first `n` chunks cover. */
  function Covered(n: nat, chunkSize: nat, fileSize: nat): nat {
    if n * chunkSize < fileSize then n * chunkSize else fileSize
  }

  lemma CoveredNext(n: nat, chunkSize: nat, fileSize: nat)
    requires n * chunkSize < fileSize
    ensures var rest := fileSize - Covered(n, chunkSize, fileSize);
            Covered(n + 1, chunkSize, fileSize) ==
              Covered(n, chunkSize, fileSize) + if rest < chunkSize then rest else chunkSize
  {
    assert (n + 1) * chunkSize == n * chunkSize + chunkSize;
  }

  /** Before the last of the chunks, the file is not covered. */
  lemma {:induction false} NotYetCovered(n: nat, chunkSize: nat, fileSize: nat)
    requires chunkSize > 0 && fileSize > 0 && n < TotalChunks(fileSize, chunkSize)
    ensures n * chunkSize < fileSize
  {
    var last := TotalChunks(fileSize, chunkSize) - 1;
    ChunksCover(fileSize, chunkSize);
    ProductGrows(n, last, chunkSize);
  }

  lemma {:induction false} ProductGrows(a: nat, b: nat, c: nat)
    requires a <= b
    ensures a * c <= b * c
  {
    if a < b {
      ProductGrows(a, b - 1, c);
      assert (b - 1 + 1) * c == (b - 1) * c + c;
    }
  }

  /** Reading to the end of the file: the frames carry its bytes, in order and numbered from zero; all
      but the last are full. An empty file is announced as one chunk and sent as none. */
  method SendFile(fileId: nat, file: seq<Byte>, chunkSize: nat) returns (frames: seq<Frame>)
    requires chunkSize > 0
    ensures Payloads(frames) == file
    ensures |frames| == if file == [] then 0 else TotalChunks(|file|, chunkSize)
    ensures Numbered(frames, fileId, chunkSize, |frames| - 1)
  {
    hide Payloads, Numbered, Covered, TotalChunks;
    frames := [];
    NoFrames(fileId, chunkSize, |file|);
    var total := TotalChunks(|file|, chunkSize);
    if file != [] {
      AllCovered(|file|, chunkSize);
    }
    var at: nat := 0;
    for chunkIdx := 0 to total
      invariant |frames| == chunkIdx && at == Covered(chunkIdx, chunkSize, |file|) <= |file|
      invariant Payloads(frames) == file[..at] && (file == [] ==> chunkIdx == 0)
      invariant Numbered(frames, fileId, chunkSize, chunkIdx - 1)
      invariant chunkIdx < total && file != [] ==> Numbered(frames, fileId, chunkSize, chunkIdx)
    {
      var n := if |file| - at < chunkSize then |file| - at else chunkSize;
      if file != [] {
        NotYetCovered(chunkIdx, chunkSize, |file|);
        NotAllCovered(chunkIdx, chunkSize, |file|);
      }
      if n == 0 {
        break;
      }
      CoveredNext(chunkIdx, chunkSize, |file|);
      NumberedNext(frames, fileId, chunkSize, file[at..at + n]);
      if chunkIdx + 1 < total {
        NotYetCovered(chunkIdx + 1, chunkSize, |file|);
        FullChunk(chunkIdx, chunkSize, |file|);
      }
      frames := frames + [Frame(fileId, chunkIdx, file[at..at + n])];
      assert file[..at + n] == file[..at] + file[at..at + n];
      at := at + n;
    }
    assert file[..at] == file;
  }

  lemma NoFrames(fileId: nat, chunkSize: nat, fileSize: nat)
    ensures Payloads([]) == [] && Numbered([], fileId, chunkSize, 0) && Numbered([], fileId, chunkSize, -1)
    ensures Covered(0, chunkSize, fileSize) == 0
  {
  }

  lemma AllCovered(fileSize: nat, chunkSize: nat)
    requires chunkSize > 0
    ensures Covered(TotalChunks(fileSize, chunkSize), chunkSize, fileSize) == fileSize
  {
    ChunksCover(fileSize, chunkSize);
  }

  lemma NotAllCovered(n: nat, chunkSize: nat, fileSize: nat)
    requires n * chunkSize < fileSize
    ensures Covered(n, chunkSize, fileSize) < fileSize
  {
  }

  lemma FullChunk(n: nat, chunkSize: nat, fileSize: nat)
    requires (n + 1) * chunkSize < fileSize && n * chunkSize < fileSize
    ensures fileSize - Covered(n, chunkSize, fileSize) >= chunkSize
  {
    assert (n + 1) * chunkSize == n * chunkSize + chunkSize;
  }
}
