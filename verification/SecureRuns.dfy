/** What arrives over whole runs of the encrypted envelope: exactly which deliveries are accepted. */
module SecureRuns {
  import opened ByteWords
  import opened SecureChannel
  import OutputPacking

  /** The delivery brings what was sealed under its number. */
  predicate Genuine(sealed: seq<Sealed>, a: Action) {
    a.Deliver? && a.ct.Some? && a.seqNo < |sealed| && a.ct.value == sealed[a.seqNo]
  }

  /** It parses, the receiver has not been reset, and no genuine delivery before has its number or a
      higher one, whether that one parsed or not. */
  ghost predicate Accepts(sealed: seq<Sealed>, before: seq<Action>, a: Action) {
    && Genuine(sealed, a) && a.parses && ResetReceiver !in before
    && forall b :: b in before && Genuine(sealed, b) ==> b.seqNo < a.seqNo
  }

  ghost function Acceptable(sealed: seq<Sealed>, actions: seq<Action>): seq<Message> {
    if actions == [] then []
    else
      var before, a := actions[..|actions| - 1], actions[|actions| - 1];
      Acceptable(sealed, before) + if Accepts(sealed, before, a) then [Message(a.seqNo, a.ct.value.plain)] else []
  }

  /** The texts that are sealed: those sent before the sender is reset, unless they are too large. */
  predicate Seals(before: seq<Action>, a: Action) {
    a.Send? && ResetSender !in before && (a.text ==> |a.plain| <= OutputPacking.SECURE_MAX_TEXT_PAYLOAD)
  }

  function Sent(actions: seq<Action>): seq<seq<Byte>> {
    if actions == [] then []
    else
      var before, a := actions[..|actions| - 1], actions[|actions| - 1];
      Sent(before) + if Seals(before, a) then [a.plain] else []
  }

  // ---- the same, told by key and nonce ----

  predicate Opens(key: seq<Byte>, dir: seq<Byte>, a: Action)
    requires |dir| == 4
  {
    a.Deliver? && a.ct.Some? && a.ct.value.key == key && a.ct.value.nonce == Nonce(dir, a.seqNo)
  }

  predicate Newer(key: seq<Byte>, dir: seq<Byte>, before: seq<Action>, seqNo: nat)
    requires |dir| == 4
  {
    forall k :: 0 <= k < |before| && Opens(key, dir, before[k]) ==> before[k].seqNo < seqNo
  }

  function Opened(key: seq<Byte>, dir: seq<Byte>, actions: seq<Action>): seq<Message>
    requires |dir| == 4
  {
    if actions == [] then []
    else
      var before, a := actions[..|actions| - 1], actions[|actions| - 1];
      Opened(key, dir, before)
      + if Opens(key, dir, a) && a.parses && ResetReceiver !in before && Newer(key, dir, before, a.seqNo)
        then [Message(a.seqNo, a.ct.value.plain)] else []
  }

  /** The receiver knows the highest number that has been opened. */
  ghost predicate Knows(c: Side, key: seq<Byte>, dir: seq<Byte>, actions: seq<Action>)
    requires |dir| == 4
  {
    && c.recvDir == dir && (c.active <==> ResetReceiver !in actions) && (c.active ==> c.recvKey == key)
    && (c.active ==> forall seqNo: nat :: Newer(key, dir, actions, seqNo) <==> !(c.hasRecv && seqNo <= c.recvSeq))
  }

  lemma NewerGrows(key: seq<Byte>, dir: seq<Byte>, before: seq<Action>, a: Action, seqNo: nat)
    requires |dir| == 4
    ensures Newer(key, dir, before + [a], seqNo) <==>
            Newer(key, dir, before, seqNo) && (Opens(key, dir, a) ==> a.seqNo < seqNo)
  {
    hide Opens;
    var all := before + [a];
    assert all[|before|] == a;
    assert forall k :: 0 <= k < |before| ==> all[k] == before[k];
  }

  lemma {:induction false} DeliveryKnown(c: Side, key: seq<Byte>, dir: seq<Byte>, before: seq<Action>, a: Action)
    requires |dir| == 4 && Knows(c, key, dir, before) && a.Deliver?
    ensures var u := Unwrapped(c, a.seqNo, a.ct);
            && Knows(u.0, key, dir, before + [a])
            && (u.1.Ok? <==> Opens(key, dir, a) && ResetReceiver !in before && Newer(key, dir, before, a.seqNo))
            && (u.1.Ok? ==> u.1.value == a.ct.value.plain)
  {
    hide Newer, Nonce;
    var u := Unwrapped(c, a.seqNo, a.ct);
    forall seqNo: nat
      ensures u.0.active ==> (Newer(key, dir, before + [a], seqNo) <==> !(u.0.hasRecv && seqNo <= u.0.recvSeq))
    {
      NewerGrows(key, dir, before, a, seqNo);
    }
  }

  lemma {:induction false} OtherKnown(l: Link, key: seq<Byte>, dir: seq<Byte>, before: seq<Action>, a: Action)
    requires |dir| == 4 && |l.sender.sendDir| == 4 && Knows(l.receiver, key, dir, before) && !a.Deliver?
    ensures Knows(Step(l, a).receiver, key, dir, before + [a]) && Step(l, a).accepted == l.accepted
  {
    hide Newer, Wrapped;
    forall seqNo: nat
      ensures Newer(key, dir, before + [a], seqNo) <==> Newer(key, dir, before, seqNo)
    {
      NewerGrows(key, dir, before, a, seqNo);
    }
  }

  lemma {:induction false} RunOpens(key: seq<Byte>, dir: seq<Byte>, back: seq<Byte>, backDir: seq<Byte>,
                                    actions: seq<Action>)
    requires |dir| == 4 && |backDir| == 4
    ensures var l := After(NewLink(key, dir, back, backDir), actions);
            Knows(l.receiver, key, dir, actions) && l.accepted == Opened(key, dir, actions)
  {
    hide Newer, Opens, Step, Nonce, Knows;
    if actions == [] {
      NewKnows(key, dir, back, backDir);
    } else {
      var before, a := actions[..|actions| - 1], actions[|actions| - 1];
      RunOpens(key, dir, back, backDir, before);
      var l := After(NewLink(key, dir, back, backDir), before);
      assert actions == before + [a];
      if a.Deliver? {
        DeliveryKnown(l.receiver, key, dir, before, a);
        DeliveryStep(l, a);
      } else {
        OtherKnown(l, key, dir, before, a);
        NotOpened(key, dir, a);
      }
    }
  }

  lemma NewKnows(key: seq<Byte>, dir: seq<Byte>, back: seq<Byte>, backDir: seq<Byte>)
    requires |dir| == 4
    ensures Knows(NewLink(key, dir, back, backDir).receiver, key, dir, [])
  {
  }

  lemma DeliveryStep(l: Link, a: Action)
    requires a.Deliver? && |l.sender.sendDir| == 4 && |l.receiver.recvDir| == 4
    ensures var u := Unwrapped(l.receiver, a.seqNo, a.ct);
            && Step(l, a).receiver == u.0
            && Step(l, a).accepted == l.accepted + if u.1.Ok? && a.parses then [Message(a.seqNo, u.1.value)] else []
  {
    hide Unwrapped;
  }

  lemma NotOpened(key: seq<Byte>, dir: seq<Byte>, a: Action)
    requires |dir| == 4 && !a.Deliver?
    ensures !Opens(key, dir, a)
  {
  }

  // ---- what opens is what was sealed ----

  lemma {:induction false} SealedGrows(l: Link, actions: seq<Action>, i: nat)
    requires |l.sender.sendDir| == 4 && |l.receiver.recvDir| == 4 && i <= |actions|
    ensures After(l, actions[..i]).sealed <= After(l, actions).sealed
  {
    hide Wrapped, Unwrapped;
    if i < |actions| {
      var before := actions[..|actions| - 1];
      SealedGrows(l, before, i);
      assert before[..i] == actions[..i];
    } else {
      assert actions[..i] == actions;
    }
  }

  lemma {:induction false} GenuineOpens(key: seq<Byte>, dir: seq<Byte>, l0: Link, actions: seq<Action>, i: nat)
    requires Inv(l0, key, dir) && IsRun(l0, key, actions) && i < |actions|
    ensures |dir| == 4 && |l0.sender.sendDir| == 4 && |l0.receiver.recvDir| == 4
    ensures Genuine(After(l0, actions).sealed, actions[i]) <==> Opens(key, dir, actions[i])
  {
    hide After, Nonce, Inv;
    InvSizes(l0, key, dir);
    InvParts(l0, key, dir);
    RunKeepsInv(l0, key, dir, actions);
    var l, a := After(l0, actions), actions[i];
    InvParts(l, key, dir);
    SealedGrows(l0, actions, i);
    assert Allowed(After(l0, actions[..i]), key, a);
    if Opens(key, dir, a) {
      assert a.ct.value in l.sealed;
      OpenedWasSealed(l, key, dir, a.seqNo, a.ct.value);
    }
  }

  lemma InvParts(l: Link, key: seq<Byte>, dir: seq<Byte>)
    requires Inv(l, key, dir)
    ensures |dir| == 4 && Numbered(l, key, dir)
  {
  }

  lemma {:induction false} SameAccepted(key: seq<Byte>, dir: seq<Byte>, sealed: seq<Sealed>, actions: seq<Action>)
    requires |dir| == 4
    requires forall k :: 0 <= k < |actions| ==> (Genuine(sealed, actions[k]) <==> Opens(key, dir, actions[k]))
    ensures Opened(key, dir, actions) == Acceptable(sealed, actions)
  {
    hide Genuine, Opens;
    if actions != [] {
      SameAccepted(key, dir, sealed, actions[..|actions| - 1]);
    }
  }

  lemma {:induction false} SealedTexts(key: seq<Byte>, dir: seq<Byte>, back: seq<Byte>, backDir: seq<Byte>,
                                       actions: seq<Action>)
    requires |dir| == 4 && |backDir| == 4
    ensures var l := After(NewLink(key, dir, back, backDir), actions);
            && (l.sender.active <==> ResetSender !in actions) && |l.sealed| == |Sent(actions)|
            && forall k :: 0 <= k < |l.sealed| ==> l.sealed[k].plain == Sent(actions)[k]
  {
    hide Unwrapped, Nonce;
    if actions != [] {
      SealedTexts(key, dir, back, backDir, actions[..|actions| - 1]);
      assert actions == actions[..|actions| - 1] + [actions[|actions| - 1]];
    }
  }

  lemma NewIsInv(key: seq<Byte>, dir: seq<Byte>, back: seq<Byte>, backDir: seq<Byte>)
    requires |dir| == 4 && |backDir| == 4
    ensures Inv(NewLink(key, dir, back, backDir), key, dir)
  {
  }

  /** Over every run: the texts sent are sealed in order, number `k` for text `k`, and a delivery is
      accepted exactly if it brings what was sealed under its number, parses, reaches a receiver that has
      not been reset, and has a higher number than every genuine delivery before it. */
  lemma {:induction false} AcceptedExactly(key: seq<Byte>, dir: seq<Byte>, back: seq<Byte>, backDir: seq<Byte>,
                                           actions: seq<Action>)
    requires |dir| == 4 && |backDir| == 4 && IsRun(NewLink(key, dir, back, backDir), key, actions)
    ensures var l := After(NewLink(key, dir, back, backDir), actions);
            && l.accepted == Acceptable(l.sealed, actions)
            && |l.sealed| == |Sent(actions)|
            && forall k :: 0 <= k < |l.sealed| ==> l.sealed[k] == Sealed(key, Nonce(dir, k), Sent(actions)[k])
  {
    hide *;
    var l0 := NewLink(key, dir, back, backDir);
    NewIsInv(key, dir, back, backDir);
    InvSizes(l0, key, dir);
    RunOpens(key, dir, back, backDir, actions);
    var l := After(l0, actions);
    forall k | 0 <= k < |actions|
      ensures Genuine(l.sealed, actions[k]) <==> Opens(key, dir, actions[k])
    {
      GenuineOpens(key, dir, l0, actions, k);
    }
    SameAccepted(key, dir, l.sealed, actions);
    SealedTexts(key, dir, back, backDir, actions);
    RunKeepsInv(l0, key, dir, actions);
    NumberedTexts(l, key, dir, Sent(actions));
  }

  lemma NumberedTexts(l: Link, key: seq<Byte>, dir: seq<Byte>, texts: seq<seq<Byte>>)
    requires Inv(l, key, dir) && |l.sealed| == |texts|
    requires forall k :: 0 <= k < |texts| ==> l.sealed[k].plain == texts[k]
    ensures |dir| == 4 && forall k :: 0 <= k < |texts| ==> l.sealed[k] == Sealed(key, Nonce(dir, k), texts[k])
  {
    hide Nonce;
  }

  /** What the receiver answers to a delivery. */
  ghost function Answer(sealed: seq<Sealed>, before: seq<Action>, a: Action): Result<seq<Byte>>
    requires a.Deliver?
  {
    if ResetReceiver in before then Err(Inactive)
    else if a.ct == None then Err(Decrypt)
    else if exists b :: b in before && Genuine(sealed, b) && b.seqNo >= a.seqNo then Err(Replay)
    else if !Genuine(sealed, a) then Err(Decrypt)
    else Ok(a.ct.value.plain)
  }

  lemma {:induction false} NewerIs(key: seq<Byte>, dir: seq<Byte>, sealed: seq<Sealed>, before: seq<Action>, seqNo: nat)
    requires |dir| == 4
    requires forall k :: 0 <= k < |before| ==> (Genuine(sealed, before[k]) <==> Opens(key, dir, before[k]))
    ensures Newer(key, dir, before, seqNo) <==> !(exists b :: b in before && Genuine(sealed, b) && b.seqNo >= seqNo)
  {
    hide Opens;
    if b :| b in before && Genuine(sealed, b) && b.seqNo >= seqNo {
      var k :| 0 <= k < |before| && before[k] == b;
      assert Opens(key, dir, before[k]);
    }
  }

  /** Over every run: a receiver that has been reset answers that it is inactive, a text that cannot be
      decoded and one that was not sealed under its number fail, and a repetition is told from them. */
  lemma {:induction false} AnsweredExactly(key: seq<Byte>, dir: seq<Byte>, back: seq<Byte>, backDir: seq<Byte>,
                                           before: seq<Action>, a: Action)
    requires |dir| == 4 && |backDir| == 4 && a.Deliver?
    requires IsRun(NewLink(key, dir, back, backDir), key, before + [a])
    ensures var l := After(NewLink(key, dir, back, backDir), before);
            Unwrapped(l.receiver, a.seqNo, a.ct).1 == Answer(l.sealed, before, a)
  {
    hide IsRun, Newer, Opens, Unwrapped, After, Genuine, Inv;
    var l0 := NewLink(key, dir, back, backDir);
    NewIsInv(key, dir, back, backDir);
    RunSplits(l0, key, before, a);
    RunOpens(key, dir, back, backDir, before);
    var l := After(l0, before);
    RunKeepsInv(l0, key, dir, before);
    forall k | 0 <= k < |before|
      ensures Genuine(l.sealed, before[k]) <==> Opens(key, dir, before[k])
    {
      GenuineOpens(key, dir, l0, before, k);
    }
    NewerIs(key, dir, l.sealed, before, a.seqNo);
    GenuineNow(l, key, dir, a);
    DeliveryAnswered(l.receiver, key, dir, before, a);
  }

  lemma RunSplits(l: Link, key: seq<Byte>, before: seq<Action>, a: Action)
    requires |l.sender.sendDir| == 4 && |l.receiver.recvDir| == 4 && IsRun(l, key, before + [a])
    ensures IsRun(l, key, before) && Allowed(After(l, before), key, a)
  {
    hide After, Allowed;
    var all := before + [a];
    assert all[..|before|] == before && all[|before|] == a;
    forall i | 0 <= i < |before|
      ensures Allowed(After(l, before[..i]), key, before[i])
    {
      assert all[..i] == before[..i] && all[i] == before[i];
    }
  }

  lemma GenuineNow(l: Link, key: seq<Byte>, dir: seq<Byte>, a: Action)
    requires Inv(l, key, dir) && Allowed(l, key, a)
    ensures |dir| == 4 && (Genuine(l.sealed, a) <==> Opens(key, dir, a))
  {
    hide Nonce;
    if Opens(key, dir, a) {
      OpenedWasSealed(l, key, dir, a.seqNo, a.ct.value);
    }
  }

  lemma DeliveryAnswered(c: Side, key: seq<Byte>, dir: seq<Byte>, before: seq<Action>, a: Action)
    requires |dir| == 4 && Knows(c, key, dir, before) && a.Deliver?
    ensures Unwrapped(c, a.seqNo, a.ct).1 ==
            if ResetReceiver in before then Err(Inactive)
            else if a.ct == None then Err(Decrypt)
            else if !Newer(key, dir, before, a.seqNo) then Err(Replay)
            else if !Opens(key, dir, a) then Err(Decrypt)
            else Ok(a.ct.value.plain)
  {
    hide Newer, Nonce;
  }

  // ---- a transport that does its work ----

  function Deliveries(actions: seq<Action>): seq<Action> {
    if actions == [] then []
    else
      var a := actions[|actions| - 1];
      Deliveries(actions[..|actions| - 1]) + if a.Deliver? then [a] else []
  }

  /** Delivery `k` brings message `k`, which parses. */
  predicate InOrder(sealed: seq<Sealed>, ds: seq<Action>) {
    |ds| <= |sealed| && forall k :: 0 <= k < |ds| ==> ds[k] == Deliver(k, Some(sealed[k]), true)
  }

  function Messages(sealed: seq<Sealed>, n: nat): seq<Message>
    requires n <= |sealed|
  {
    seq(n, k requires 0 <= k < n => Message(k, sealed[k].plain))
  }

  lemma {:induction false} DeliveredBefore(actions: seq<Action>, a: Action)
    ensures a in Deliveries(actions) <==> a in actions && a.Deliver?
  {
    if actions != [] {
      DeliveredBefore(actions[..|actions| - 1], a);
      assert actions == actions[..|actions| - 1] + [actions[|actions| - 1]];
    }
  }

  lemma {:induction false} InOrderAccepted(sealed: seq<Sealed>, actions: seq<Action>)
    requires InOrder(sealed, Deliveries(actions)) && ResetReceiver !in actions
    ensures Acceptable(sealed, actions) == Messages(sealed, |Deliveries(actions)|)
  {
    if actions != [] {
      var before, a := actions[..|actions| - 1], actions[|actions| - 1];
      var ds, ds' := Deliveries(before), Deliveries(actions);
      assert forall k :: 0 <= k < |ds| ==> ds[k] == ds'[k];
      assert forall b :: b in before ==> b in actions;
      InOrderAccepted(sealed, before);
      if a.Deliver? {
        assert ds'[|ds|] == a;
        forall b | b in before && Genuine(sealed, b)
          ensures b.seqNo < a.seqNo
        {
          DeliveredBefore(before, b);
          var k :| 0 <= k < |ds| && ds[k] == b;
        }
        assert Accepts(sealed, before, a);
      }
    }
  }

  /** If every sealed message is delivered once, in order, and parses, and the receiver is not reset, then
      every text that was sealed is accepted, in order. */
  lemma {:induction false} AllArrive(key: seq<Byte>, dir: seq<Byte>, back: seq<Byte>, backDir: seq<Byte>,
                                     actions: seq<Action>)
    requires |dir| == 4 && |backDir| == 4 && IsRun(NewLink(key, dir, back, backDir), key, actions)
    requires var sealed := After(NewLink(key, dir, back, backDir), actions).sealed;
             InOrder(sealed, Deliveries(actions)) && |Deliveries(actions)| == |sealed|
    requires ResetReceiver !in actions
    ensures var l := After(NewLink(key, dir, back, backDir), actions);
            && |l.accepted| == |l.sealed| == |Sent(actions)|
            && forall k :: 0 <= k < |Sent(actions)| ==> l.accepted[k] == Message(k, Sent(actions)[k])
  {
    hide After, IsRun, Acceptable, Deliveries, InOrder, Sent, Nonce;
    AcceptedExactly(key, dir, back, backDir, actions);
    InOrderAccepted(After(NewLink(key, dir, back, backDir), actions).sealed, actions);
  }
}
