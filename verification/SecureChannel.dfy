/** The encrypted envelope: numbered, sealed messages over a transport that may drop, repeat,
    reorder and alter them. */
module SecureChannel {
  import opened ByteWords
  import OutputPacking

  /** An ideal sealed text: it opens under its own key and nonce, and under no other. */
  datatype Sealed = Sealed(key: seq<Byte>, nonce: seq<Byte>, plain: seq<Byte>)

  datatype Option<T> = None | Some(value: T)

  datatype Error = Inactive | TooLarge | Replay | Decrypt

  datatype Result<T> = Ok(value: T) | Err(error: Error)

  function Open(key: seq<Byte>, nonce: seq<Byte>, ct: Sealed): Option<seq<Byte>> {
    if ct.key == key && ct.nonce == nonce then Some(ct.plain) else None
  }

  // ---- nonces ----

  const SEQ_SPAN := 0x1_0000_0000_0000_0000

  /** The low `n` bytes of a number, most significant first. */
  function BigEndian(v: nat, n: nat): (bytes: seq<Byte>)
    ensures |bytes| == n
  {
    if n == 0 then [] else BigEndian(v / 256, n - 1) + [v % 256]
  }

  function FromBigEndian(bytes: seq<Byte>): nat {
    if bytes == [] then 0 else FromBigEndian(bytes[..|bytes| - 1]) * 256 + bytes[|bytes| - 1]
  }

  lemma {:induction false} BigEndianReads(v: nat, n: nat)
    requires v < Span(n)
    ensures FromBigEndian(BigEndian(v, n)) == v
  {
    if n > 0 {
      BigEndianReads(v / 256, n - 1);
      var bytes := BigEndian(v, n);
      assert bytes[..n - 1] == BigEndian(v / 256, n - 1);
    }
  }

  /** Twelve bytes: the direction, then the number. */
  function Nonce(dir: seq<Byte>, seqNo: nat): (nonce: seq<Byte>)
    requires |dir| == 4
    ensures |nonce| == 12
  {
    dir + BigEndian(seqNo, 8)
  }

  lemma {:induction false} NoncesDiffer(dir: seq<Byte>, a: nat, b: nat)
    requires |dir| == 4 && a < SEQ_SPAN && b < SEQ_SPAN
    ensures Nonce(dir, a) == Nonce(dir, b) <==> a == b
  {
    hide BigEndian, FromBigEndian;
    if Nonce(dir, a) == Nonce(dir, b) {
      assert Nonce(dir, a)[4..] == BigEndian(a, 8) && Nonce(dir, b)[4..] == BigEndian(b, 8);
      EightBytes();
      BigEndianReads(a, 8);
      BigEndianReads(b, 8);
    }
  }

  // ---- one side ----

  datatype Side = Side(active: bool, sendKey: seq<Byte>, recvKey: seq<Byte>, sendDir: seq<Byte>, recvDir: seq<Byte>,
                       sendSeq: nat, recvSeq: nat, hasRecv: bool)

  /** What is sent in the clear beside the sealed text. A binary frame repeats its opcode. */
  datatype Frame =
    | TextFrame(seqNo: nat, data: Option<Sealed>)
    | BinaryFrame(seqNo: nat, mirror: Byte, ct: Sealed)
    | Malformed

  ghost predicate ValidSide(c: Side) {
    |c.sendDir| == 4 && |c.recvDir| == 4 && c.sendSeq < SEQ_SPAN && c.recvSeq < SEQ_SPAN
  }

  function NextSeq(seqNo: nat): nat {
    (seqNo + 1) % SEQ_SPAN
  }

  function SealNext(c: Side, plain: seq<Byte>): Sealed
    requires |c.sendDir| == 4
  {
    Sealed(c.sendKey, Nonce(c.sendDir, c.sendSeq), plain)
  }

  /** Sealing uses up a number, unless the channel is inactive or the text is too large. */
  function Wrapped(c: Side, plain: seq<Byte>, text: bool): (Side, Result<Sealed>)
    requires |c.sendDir| == 4
  {
    if !c.active then (c, Err(Inactive))
    else if text && |plain| > OutputPacking.SECURE_MAX_TEXT_PAYLOAD then (c, Err(TooLarge))
    else (c.(sendSeq := NextSeq(c.sendSeq)), Ok(SealNext(c, plain)))
  }

  /** Opening goes forward only. */
  function Unwrapped(c: Side, seqNo: nat, ct: Option<Sealed>): (Side, Result<seq<Byte>>)
    requires |c.recvDir| == 4
  {
    if !c.active then (c, Err(Inactive))
    else if ct == None then (c, Err(Decrypt))
    else if c.hasRecv && seqNo <= c.recvSeq then (c, Err(Replay))
    else
      match Open(c.recvKey, Nonce(c.recvDir, seqNo), ct.value)
      case None => (c, Err(Decrypt))
      case Some(plain) => (c.(recvSeq := seqNo, hasRecv := true), Ok(plain))
  }

  function WasReset(c: Side): Side {
    c.(active := false, sendSeq := 0, recvSeq := 0, hasRecv := false,
       sendKey := seq(|c.sendKey|, _ => 0), recvKey := seq(|c.recvKey|, _ => 0))
  }

  class SecureChannel {
    var active: bool
    var sendKey: seq<Byte>
    var recvKey: seq<Byte>
    const sendDir: seq<Byte>
    const recvDir: seq<Byte>
    var sendSeq: nat
    var recvSeq: nat
    var hasRecv: bool

    ghost function Now(): Side
      reads this
    {
      Side(active, sendKey, recvKey, sendDir, recvDir, sendSeq, recvSeq, hasRecv)
    }

    constructor (sendKey: seq<Byte>, recvKey: seq<Byte>, sendDir: seq<Byte>, recvDir: seq<Byte>)
      requires |sendDir| == 4 && |recvDir| == 4
      ensures Now() == Side(true, sendKey, recvKey, sendDir, recvDir, 0, 0, false) && ValidSide(Now())
    {
      this.sendKey, this.recvKey, this.sendDir, this.recvDir := sendKey, recvKey, sendDir, recvDir;
      active, sendSeq, recvSeq, hasRecv := true, 0, 0, false;
    }

    method Reset()
      modifies this
      ensures Now() == WasReset(old(Now()))
      ensures !active && sendSeq == 0 && recvSeq == 0 && !hasRecv
      ensures |sendKey| == old(|sendKey|) && forall k :: 0 <= k < |sendKey| ==> sendKey[k] == 0
      ensures |recvKey| == old(|recvKey|) && forall k :: 0 <= k < |recvKey| ==> recvKey[k] == 0
    {
      active, sendSeq, recvSeq, hasRecv := false, 0, 0, false;
      sendKey := seq(|sendKey|, _ => 0);
      recvKey := seq(|recvKey|, _ => 0);
    }

    method WrapJSON(plain: seq<Byte>) returns (r: Result<Frame>)
      requires ValidSide(Now())
      modifies this`sendSeq
      ensures ValidSide(Now())
      ensures var w := Wrapped(old(Now()), plain, true);
              Now() == w.0 && r == if w.1.Ok? then Ok(TextFrame(old(sendSeq), Some(w.1.value))) else Err(w.1.error)
    {
      if !active {
        return Err(Inactive);
      }
      if |plain| > OutputPacking.SECURE_MAX_TEXT_PAYLOAD {
        return Err(TooLarge);
      }
      var seqNo := sendSeq;
      sendSeq := NextSeq(sendSeq);
      r := Ok(TextFrame(seqNo, Some(Sealed(sendKey, Nonce(sendDir, seqNo), plain))));
    }

    /** What was sealed need not be a message; then its number is used up all the same. */
    method UnwrapJSON(frame: Frame, isMessage: seq<Byte> -> bool) returns (r: Result<seq<Byte>>)
      requires ValidSide(Now()) && frame.TextFrame? && frame.seqNo < SEQ_SPAN
      modifies this`recvSeq, this`hasRecv
      ensures ValidSide(Now())
      ensures var u := Unwrapped(old(Now()), frame.seqNo, frame.data);
              Now() == u.0 && r == if u.1.Ok? && !isMessage(u.1.value) then Err(Decrypt) else u.1
    {
      if !active {
        return Err(Inactive);
      }
      if frame.data == None {
        return Err(Decrypt);
      }
      if hasRecv && frame.seqNo <= recvSeq {
        return Err(Replay);
      }
      var plain := Open(recvKey, Nonce(recvDir, frame.seqNo), frame.data.value);
      if plain == None {
        return Err(Decrypt);
      }
      recvSeq := frame.seqNo;
      hasRecv := true;
      if !isMessage(plain.value) {
        return Err(Decrypt);
      }
      r := Ok(plain.value);
    }

    method WrapBinary(frame: seq<Byte>) returns (r: Result<Frame>)
      requires ValidSide(Now())
      modifies this`sendSeq
      ensures ValidSide(Now())
      ensures var w := Wrapped(old(Now()), frame, false);
              Now() == w.0 && r == if w.1.Ok?
                then Ok(BinaryFrame(old(sendSeq), if frame == [] then 0 else frame[0], w.1.value))
                                   else Err(w.1.error)
    {
      if !active {
        return Err(Inactive);
      }
      var seqNo := sendSeq;
      sendSeq := NextSeq(sendSeq);
      r := Ok(BinaryFrame(seqNo, if |frame| > 0 then frame[0] else 0, Sealed(sendKey, Nonce(sendDir, seqNo), frame)));
    }

    method UnwrapBinary(frame: Frame) returns (r: Result<seq<Byte>>)
      requires ValidSide(Now()) && (frame.BinaryFrame? ==> frame.seqNo < SEQ_SPAN)
      modifies this`recvSeq, this`hasRecv
      ensures ValidSide(Now())
      ensures var u := if frame.BinaryFrame? then Unwrapped(old(Now()), frame.seqNo, Some(frame.ct))
                       else Unwrapped(old(Now()), 0, None);
              Now() == u.0 && r == u.1
    {
      if !active {
        return Err(Inactive);
      }
      if !frame.BinaryFrame? {
        return Err(Decrypt);
      }
      if hasRecv && frame.seqNo <= recvSeq {
        return Err(Replay);
      }
      var plain := Open(recvKey, Nonce(recvDir, frame.seqNo), frame.ct);
      if plain == None {
        return Err(Decrypt);
      }
      recvSeq := frame.seqNo;
      hasRecv := true;
      r := Ok(plain.value);
    }
  }

  // ---- two sides and the transport between them ----

  datatype Message = Message(seqNo: nat, plain: seq<Byte>)

  /** One direction: what has been sealed so far, in order, and what the other side has handed on. */
  datatype Link = Link(sender: Side, receiver: Side, sealed: seq<Sealed>, accepted: seq<Message>)

  /** A send; a delivery of anything under any number, which may fail to parse; a reset of either side. */
  datatype Action =
    | Send(plain: seq<Byte>, text: bool)
    | Deliver(seqNo: nat, ct: Option<Sealed>, parses: bool)
    | ResetSender
    | ResetReceiver

  function Step(l: Link, a: Action): Link
    requires |l.sender.sendDir| == 4 && |l.receiver.recvDir| == 4
  {
    match a
    case Send(plain, text) =>
      var w := Wrapped(l.sender, plain, text);
      l.(sender := w.0, sealed := if w.1.Ok? then l.sealed + [w.1.value] else l.sealed)
    case Deliver(seqNo, ct, parses) =>
      var u := Unwrapped(l.receiver, seqNo, ct);
      l.(receiver := u.0,
         accepted := if u.1.Ok? && parses then l.accepted + [Message(seqNo, u.1.value)] else l.accepted)
    case ResetSender => l.(sender := WasReset(l.sender))
    case ResetReceiver => l.(receiver := WasReset(l.receiver))
  }

  /** The transport cannot seal: a text under the traffic key is one that was sealed with it. */
  ghost predicate Allowed(l: Link, key: seq<Byte>, a: Action) {
    && (a.Deliver? ==> a.seqNo < SEQ_SPAN && (a.ct.Some? && a.ct.value.key == key ==> a.ct.value in l.sealed))
    && (a.Send? ==> |l.sealed| < SEQ_SPAN)
  }

  ghost predicate ValidLink(l: Link, key: seq<Byte>, dir: seq<Byte>) {
    && |dir| == 4 && ValidSide(l.sender) && ValidSide(l.receiver)
    && l.sender.sendDir == dir && l.receiver.recvDir == dir
    && (l.sender.active ==> l.sender.sendKey == key) && (l.receiver.active ==> l.receiver.recvKey == key)
  }

  /** Message `k` was sealed under number `k`. */
  ghost predicate Numbered(l: Link, key: seq<Byte>, dir: seq<Byte>)
    requires |dir| == 4
  {
    && |l.sealed| <= SEQ_SPAN
    && (forall k :: 0 <= k < |l.sealed| ==> l.sealed[k].key == key && l.sealed[k].nonce == Nonce(dir, k))
    && (l.sender.active ==> l.sender.sendSeq == |l.sealed| % SEQ_SPAN)
  }

  /** What was accepted was sealed under the same number, and the numbers grow. */
  ghost predicate Ordered(l: Link) {
    && (forall k :: 0 <= k < |l.accepted| ==>
          l.accepted[k].seqNo < |l.sealed| && l.accepted[k].plain == l.sealed[l.accepted[k].seqNo].plain)
    && (forall j, k :: 0 <= j < k < |l.accepted| ==> l.accepted[j].seqNo < l.accepted[k].seqNo)
    && (l.receiver.active && l.accepted != [] ==> l.receiver.hasRecv)
    && (l.receiver.active ==> forall k :: 0 <= k < |l.accepted| ==> l.accepted[k].seqNo <= l.receiver.recvSeq)
  }

  ghost predicate Inv(l: Link, key: seq<Byte>, dir: seq<Byte>) {
    ValidLink(l, key, dir) && Numbered(l, key, dir) && Ordered(l)
  }

  lemma {:induction false} SendKeepsInv(l: Link, key: seq<Byte>, dir: seq<Byte>, plain: seq<Byte>, text: bool)
    requires Inv(l, key, dir) && |l.sealed| < SEQ_SPAN
    ensures Inv(Step(l, Send(plain, text)), key, dir)
  {
    hide Nonce;
    assert |l.sealed| % SEQ_SPAN == |l.sealed|;
  }

  lemma {:induction false} DeliverKeepsInv(l: Link, key: seq<Byte>, dir: seq<Byte>, seqNo: nat, ct: Option<Sealed>,
                                           parses: bool)
    requires Inv(l, key, dir) && Allowed(l, key, Deliver(seqNo, ct, parses))
    ensures Inv(Step(l, Deliver(seqNo, ct, parses)), key, dir)
  {
    hide Nonce, Numbered;
    if Unwrapped(l.receiver, seqNo, ct).1.Ok? {
      OpenedWasSealed(l, key, dir, seqNo, ct.value);
    }
    SameSealed(l, key, dir, Step(l, Deliver(seqNo, ct, parses)));
  }

  /** What opens under a number is what was sealed under it. */
  lemma {:induction false} OpenedWasSealed(l: Link, key: seq<Byte>, dir: seq<Byte>, seqNo: nat, ct: Sealed)
    requires |dir| == 4 && Numbered(l, key, dir) && seqNo < SEQ_SPAN
    requires ct in l.sealed && ct.nonce == Nonce(dir, seqNo)
    ensures seqNo < |l.sealed| && l.sealed[seqNo] == ct
  {
    hide Nonce;
    var k :| 0 <= k < |l.sealed| && l.sealed[k] == ct;
    NoncesDiffer(dir, k, seqNo);
  }

  lemma SameSealed(l: Link, key: seq<Byte>, dir: seq<Byte>, next: Link)
    requires |dir| == 4 && Numbered(l, key, dir) && next.sealed == l.sealed && next.sender == l.sender
    ensures Numbered(next, key, dir)
  {
    hide Nonce;
  }

  lemma {:induction false} StepKeepsInv(l: Link, key: seq<Byte>, dir: seq<Byte>, a: Action)
    requires Inv(l, key, dir) && Allowed(l, key, a)
    ensures Inv(Step(l, a), key, dir)
  {
    match a
    case Send(plain, text) => SendKeepsInv(l, key, dir, plain, text);
    case Deliver(seqNo, ct, parses) => DeliverKeepsInv(l, key, dir, seqNo, ct, parses);
    case _ =>
  }

  ghost function After(l: Link, actions: seq<Action>): (l': Link)
    requires |l.sender.sendDir| == 4 && |l.receiver.recvDir| == 4
    ensures l'.sender.sendDir == l.sender.sendDir && l'.receiver.recvDir == l.receiver.recvDir
  {
    if actions == [] then l else Step(After(l, actions[..|actions| - 1]), actions[|actions| - 1])
  }

  ghost predicate IsRun(l: Link, key: seq<Byte>, actions: seq<Action>)
    requires |l.sender.sendDir| == 4 && |l.receiver.recvDir| == 4
  {
    forall i :: 0 <= i < |actions| ==> Allowed(After(l, actions[..i]), key, actions[i])
  }

  function NewLink(key: seq<Byte>, dir: seq<Byte>, back: seq<Byte>, backDir: seq<Byte>): Link {
    Link(Side(true, key, back, dir, backDir, 0, 0, false), Side(true, back, key, backDir, dir, 0, 0, false), [], [])
  }

  lemma {:induction false} RunKeepsInv(l: Link, key: seq<Byte>, dir: seq<Byte>, actions: seq<Action>)
    requires Inv(l, key, dir) && IsRun(l, key, actions)
    ensures Inv(After(l, actions), key, dir)
  {
    hide Inv, Step, Allowed;
    InvSizes(l, key, dir);
    if actions != [] {
      var front, last := actions[..|actions| - 1], actions[|actions| - 1];
      forall i | 0 <= i < |front|
        ensures Allowed(After(l, front[..i]), key, front[i])
      {
        assert front[..i] == actions[..i];
      }
      RunKeepsInv(l, key, dir, front);
      StepKeepsInv(After(l, front), key, dir, last);
    }
  }

  lemma InvSizes(l: Link, key: seq<Byte>, dir: seq<Byte>)
    requires Inv(l, key, dir)
    ensures |l.sender.sendDir| == 4 && |l.receiver.recvDir| == 4
  {
  }

  /** Over every run: what one side accepts are messages of the other, unchanged, each at most once and
      in the order of sealing; and no nonce is used twice under the key. */
  lemma {:induction false} AcceptedInOrder(key: seq<Byte>, dir: seq<Byte>, back: seq<Byte>, backDir: seq<Byte>,
                                           actions: seq<Action>)
    requires |dir| == 4 && |backDir| == 4
    requires IsRun(NewLink(key, dir, back, backDir), key, actions)
    ensures var l := After(NewLink(key, dir, back, backDir), actions);
            && (forall k :: 0 <= k < |l.accepted| ==>
                  l.accepted[k].seqNo < |l.sealed| && l.accepted[k].plain == l.sealed[l.accepted[k].seqNo].plain)
            && (forall j, k :: 0 <= j < k < |l.accepted| ==> l.accepted[j].seqNo < l.accepted[k].seqNo)
            && (forall j, k :: 0 <= j < k < |l.sealed| ==> l.sealed[j].nonce != l.sealed[k].nonce)
  {
    hide Nonce, Step, Allowed, IsRun;
    RunKeepsInv(NewLink(key, dir, back, backDir), key, dir, actions);
    var l := After(NewLink(key, dir, back, backDir), actions);
    forall j, k | 0 <= j < k < |l.sealed|
      ensures l.sealed[j].nonce != l.sealed[k].nonce
    {
      NoncesDiffer(dir, j, k);
    }
  }

  /** A number comes back only after all of them have been used. */
  lemma {:induction false} NumbersRepeatAfterAll(dir: seq<Byte>, j: nat, k: nat)
    requires |dir| == 4 && j < k
    ensures k < SEQ_SPAN ==> Nonce(dir, j % SEQ_SPAN) != Nonce(dir, k % SEQ_SPAN)
    ensures k == j + SEQ_SPAN ==> Nonce(dir, j % SEQ_SPAN) == Nonce(dir, k % SEQ_SPAN)
  {
    hide Nonce;
    if k < SEQ_SPAN {
      NoncesDiffer(dir, j, k);
    }
  }
}
