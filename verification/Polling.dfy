/**
 How much the receive task does: the polling loop of one frame, and the draining of the
 whole buffer.
 */
module PollingLoop {
  import opened Bytes
  import opened Framing
  import opened LinkCrypto
  import opened PhyModel
  import opened Downlink

  // ---------- the polling loop of one frame ----------

  // For every iteration that ended in the run: did its end find sent_non_empty_pkt set?
  ghost function Flags(ccm: Ccm, d0: Phy, actions: seq<Action>): seq<bool>
    requires Lawful(ccm) && Valid(d0) && ValidActions(actions)
  {
    if actions == [] then []
    else
      var last := |actions| - 1;
      var before := Run(ccm, d0, actions[..last]);
      Flags(ccm, d0, actions[..last]) +
      if actions[last].Resume? && before.pc.Polling? && before.status.Running?
      then [before.sentNonEmpty] else []
  }

  ghost function Count(flags: seq<bool>): nat {
    if flags == [] then 0
    else Count(flags[..|flags| - 1]) + if flags[|flags| - 1] then 1 else 0
  }

  // How many iterations ended without the flag after the last one that ended with it.
  ghost function Trailing(flags: seq<bool>): nat {
    if flags == [] || flags[|flags| - 1] then 0 else Trailing(flags[..|flags| - 1]) + 1
  }

  ghost predicate IsPoll(d: Phy, o: Offer) {
    && |o.packet| == 6 && o.packet[5] == 0 && o.packet[4] % 4 == 1 && o.packet[4] < 16
    && o.channel < FIRST_ADV_CHANNEL && o.micFailure == !d.cryptoOk
  }

  ghost predicate PollsOffered(d: Phy, k: nat) {
    k <= |d.offers| && forall j | |d.offers| - k <= j < |d.offers| :: IsPoll(d, d.offers[j])
  }

  // The run stays in the polling loop of one frame until its last step.
  ghost predicate InLoop(ccm: Ccm, d0: Phy, actions: seq<Action>)
    requires Lawful(ccm) && Valid(d0) && ValidActions(actions)
  {
    && d0.status.Running? && d0.pc == Polling(0)
    && Run(ccm, d0, actions).status.Running?
    && forall k | 0 <= k < |actions| :: Run(ccm, d0, actions[..k]).pc.Polling?
  }

  ghost predicate OnDataChannels(d0: Phy, actions: seq<Action>) {
    && d0.channel < FIRST_ADV_CHANNEL
    && forall i | 0 <= i < |actions| :: actions[i].SetChan? ==> actions[i].chan < FIRST_ADV_CHANNEL
  }

  lemma IterateOffersPoll(d: Phy, i: nat)
    requires Valid(d) && i < POLLS && d.channel < FIRST_ADV_CHANNEL
    ensures var d' := Iterate(d, i, []);
            && |d'.offers| == |d.offers| + 1 && d'.offers[..|d.offers|] == d.offers
            && IsPoll(d, d'.offers[|d.offers|])
            && d'.channel == d.channel && d'.cryptoOk == d.cryptoOk
  {
    assert WithSeqBits(0x01, d.rxSn, d.rxNesn) == d.rxSn * 8 + d.rxNesn * 4 + 1;
  }

  lemma ResumeOffersPoll(d: Phy)
    requires Valid(d) && d.pc.Polling? && d.channel < FIRST_ADV_CHANNEL
    requires PollsOffered(d, d.pc.i)
    ensures var d' := ResumeStep(d);
            && d'.channel == d.channel
            && PollsOffered(d', if d'.pc.Polling? then d'.pc.i else POLLS - 1)
  {
    var i := (if d.sentNonEmpty then 0 else d.pc.i) + 1;
    if i < POLLS {
      var e := d.(sentNonEmpty := false);
      IterateOffersPoll(e, i);
      var d' := ResumeStep(d);
      forall j | |d'.offers| - i <= j < |d'.offers|
        ensures IsPoll(d', d'.offers[j])
      {
        if j < |d.offers| {
          assert d'.offers[j] == d'.offers[..|d.offers|][j] == d.offers[j];
        }
      }
    }
  }

  // Outside the end of an iteration, the polling loop stays where it is.
  lemma LoopUntouched(ccm: Ccm, d: Phy, a: Action)
    requires Lawful(ccm) && Valid(d) && ValidAction(a) && d.pc.Polling? && !a.Resume?
    requires Step(ccm, d, a).status.Running?
    ensures LoopKept(d, Step(ccm, d, a)) && (a.SetChan? || Step(ccm, d, a).channel == d.channel)
  {
    match a {
      case Tx(hdr, payload) =>
        var packet := DriverSend(ccm, d.keys, d.accessAddress, hdr, payload);
        TxKeepsLoop(d, hdr, |payload|, packet, Encode(UpMessage(packet)));
      case RxChar(b) => RxCharKeepsLoop(d, b);
      case _ =>
    }
  }

  ghost predicate LoopKept(d: Phy, d': Phy) {
    d'.pc == d.pc && d'.offers == d.offers && d'.cryptoOk == d.cryptoOk
  }

  lemma RxCharKeepsLoop(d: Phy, b: byte)
    requires Valid(d)
    ensures LoopKept(d, RxCharStep(d, b)) && RxCharStep(d, b).channel == d.channel
  {
  }

  lemma TxKeepsLoop(d: Phy, hdr: byte, len: nat, packet: bytes, wire: bytes)
    requires Valid(d)
    ensures LoopKept(d, TxStep(d, hdr, len, packet, wire))
    ensures TxStep(d, hdr, len, packet, wire).channel == d.channel
  {
  }

  ghost predicate CountInv(d: Phy, flags: seq<bool>)
    requires Valid(d)
  {
    var flagged := if Count(flags) > 0 then 1 else 0;
    && !d.pc.Idle?
    && Trailing(flags) + flagged == (if d.pc.Polling? then d.pc.i else POLLS)
    && |flags| <= Trailing(flags) + 5 * Count(flags) + flagged
  }

  lemma ResumeCounts(d: Phy, flags: seq<bool>)
    requires Valid(d) && d.pc.Polling? && CountInv(d, flags)
    ensures CountInv(ResumeStep(d), flags + [d.sentNonEmpty])
  {
    var flags' := flags + [d.sentNonEmpty];
    assert flags'[..|flags'| - 1] == flags;
  }

  lemma SameCounts(d: Phy, d': Phy, flags: seq<bool>)
    requires Valid(d) && Valid(d') && d'.pc == d.pc && CountInv(d, flags)
    ensures CountInv(d', flags)
  {
  }

  // Taking the last step off a run that is in the loop.
  lemma InLoopBefore(ccm: Ccm, d0: Phy, actions: seq<Action>)
    requires Lawful(ccm) && Valid(d0) && ValidActions(actions) && InLoop(ccm, d0, actions) && actions != []
    ensures var before := actions[..|actions| - 1];
            && InLoop(ccm, d0, before) && Run(ccm, d0, before).pc.Polling?
            && Run(ccm, d0, actions) == Step(ccm, Run(ccm, d0, before), actions[|actions| - 1])
            && (OnDataChannels(d0, actions) ==> OnDataChannels(d0, before))
  {
    var last := |actions| - 1;
    assert forall k | 0 <= k < last :: actions[..last][..k] == actions[..k];
  }

  lemma {:induction false} LoopCounts(ccm: Ccm, d0: Phy, actions: seq<Action>)
    requires Lawful(ccm) && Valid(d0) && ValidActions(actions) && InLoop(ccm, d0, actions)
    ensures CountInv(Run(ccm, d0, actions), Flags(ccm, d0, actions))
  {
    if actions != [] {
      var last := |actions| - 1;
      InLoopBefore(ccm, d0, actions);
      LoopCounts(ccm, d0, actions[..last]);
      var before, flags := Run(ccm, d0, actions[..last]), Flags(ccm, d0, actions[..last]);
      if actions[last].Resume? {
        ResumeCounts(before, flags);
        assert Flags(ccm, d0, actions) == flags + [before.sentNonEmpty];
        assert Run(ccm, d0, actions) == ResumeStep(before);
      } else {
        LoopUntouched(ccm, before, actions[last]);
        assert Flags(ccm, d0, actions) == flags;
        SameCounts(before, Run(ccm, d0, actions), flags);
      }
    }
  }

  lemma {:induction false} LoopOffers(ccm: Ccm, d0: Phy, actions: seq<Action>)
    requires Lawful(ccm) && Valid(d0) && ValidActions(actions) && InLoop(ccm, d0, actions)
    requires OnDataChannels(d0, actions)
    ensures var d := Run(ccm, d0, actions);
            && d.channel < FIRST_ADV_CHANNEL
            && PollsOffered(d, if d.pc.Polling? then d.pc.i else POLLS - 1)
  {
    if actions != [] {
      var last := |actions| - 1;
      InLoopBefore(ccm, d0, actions);
      LoopOffers(ccm, d0, actions[..last]);
      var before := Run(ccm, d0, actions[..last]);
      if actions[last].Resume? {
        ResumeOffersPoll(before);
      } else {
        LoopUntouched(ccm, before, actions[last]);
      }
    }
  }

  // Everything offered since d0 is an empty packet with d0's MIC mark.
  ghost predicate OnlyPolls(d0: Phy, d: Phy) {
    && d0.offers <= d.offers && d.cryptoOk == d0.cryptoOk && d.channel < FIRST_ADV_CHANNEL
    && forall j | |d0.offers| <= j < |d.offers| :: IsPoll(d0, d.offers[j])
  }

  lemma ResumeOnlyPolls(d0: Phy, d: Phy)
    requires Valid(d) && d.pc.Polling? && OnlyPolls(d0, d)
    ensures OnlyPolls(d0, ResumeStep(d))
  {
    var i := (if d.sentNonEmpty then 0 else d.pc.i) + 1;
    if i < POLLS {
      IterateOffersPoll(d.(sentNonEmpty := false), i);
    }
  }

  lemma {:induction false} LoopOnlyPolls(ccm: Ccm, d0: Phy, actions: seq<Action>)
    requires Lawful(ccm) && Valid(d0) && ValidActions(actions) && InLoop(ccm, d0, actions)
    requires OnDataChannels(d0, actions)
    ensures OnlyPolls(d0, Run(ccm, d0, actions))
  {
    if actions != [] {
      var last := |actions| - 1;
      InLoopBefore(ccm, d0, actions);
      LoopOnlyPolls(ccm, d0, actions[..last]);
      var before := Run(ccm, d0, actions[..last]);
      if actions[last].Resume? {
        ResumeOnlyPolls(d0, before);
      } else {
        LoopUntouched(ccm, before, actions[last]);
      }
    }
  }

  // Main result. A polling loop whose flag is seen in K iterations ends after at most 6 + 5K
  // iterations; the last of the K is followed by exactly five more; and on data channels each
  // of these five offers an empty packet. Nothing else is offered on data channels after the
  // first iteration, and all these packets carry the MIC mark of the taken frame.
  lemma PollingBound(ccm: Ccm, d0: Phy, actions: seq<Action>)
    requires Lawful(ccm) && Valid(d0) && ValidActions(actions) && InLoop(ccm, d0, actions)
    ensures var d, flags := Run(ccm, d0, actions), Flags(ccm, d0, actions);
            && |flags| <= 6 + 5 * Count(flags)
            && (d.pc.Testing? <==> Trailing(flags) == if Count(flags) > 0 then 5 else 6)
            && (d.pc.Testing? && OnDataChannels(d0, actions) ==> PollsOffered(d, 5))
            && (OnDataChannels(d0, actions) ==> OnlyPolls(d0, d))
  {
    LoopCounts(ccm, d0, actions);
    if OnDataChannels(d0, actions) {
      LoopOffers(ccm, d0, actions);
      LoopOnlyPolls(ccm, d0, actions);
    }
  }

  // ---------- the flag ----------

  // The stack has transmitted a payload since the last iteration ended, or the flag was set in
  // the beginning and no iteration has ended.
  ghost predicate PayloadSince(ccm: Ccm, d0: Phy, actions: seq<Action>)
    requires Lawful(ccm) && Valid(d0) && ValidActions(actions)
  {
    if actions == [] then d0.sentNonEmpty
    else
      var last := |actions| - 1;
      var a, d := actions[last], Run(ccm, d0, actions[..last]);
      if a.Resume? && d.pc.Polling? then false
      else PayloadSince(ccm, d0, actions[..last]) || (a.Tx? && a.payload != [])
  }

  lemma FlagStep(ccm: Ccm, d: Phy, a: Action)
    requires Lawful(ccm) && Valid(d) && ValidAction(a) && d.status.Running? && Step(ccm, d, a).status.Running?
    ensures Step(ccm, d, a).sentNonEmpty <==>
            if a.Resume? && d.pc.Polling? then false else d.sentNonEmpty || (a.Tx? && a.payload != [])
  {
    match a {
      case RxChar(b) => RxCharFlag(d, b);
      case TestFifo =>
        if d.pc.Testing? {
          TestFlag(ccm, d);
        }
      case Resume =>
        if d.pc.Polling? {
          ResumeFlag(d);
        }
      case Tx(hdr, payload) =>
        var packet := DriverSend(ccm, d.keys, d.accessAddress, hdr, payload);
        TxFlag(d, hdr, |payload|, packet, Encode(UpMessage(packet)));
      case _ =>
    }
  }

  lemma RxCharFlag(d: Phy, b: byte)
    requires Valid(d)
    ensures RxCharStep(d, b).sentNonEmpty == d.sentNonEmpty
  {
  }

  lemma TestFlag(ccm: Ccm, d: Phy)
    requires Lawful(ccm) && Valid(d) && d.status.Running?
    ensures TestStep(ccm, d).sentNonEmpty == d.sentNonEmpty
  {
    if HeadComplete(d) && PktLen(d.rx).value <= RX_BUF_SIZE {
      TakeTransport(ccm, d, PktLen(d.rx).value);
    }
  }

  lemma ResumeFlag(d: Phy)
    requires Valid(d) && d.pc.Polling?
    ensures !ResumeStep(d).sentNonEmpty
  {
  }

  lemma TxFlag(d: Phy, hdr: byte, len: nat, packet: bytes, wire: bytes)
    requires Valid(d) && d.status.Running? && TxStep(d, hdr, len, packet, wire).status.Running?
    ensures TxStep(d, hdr, len, packet, wire).sentNonEmpty == (d.sentNonEmpty || len > 0)
  {
  }

  // In every run, the end of an iteration finds sent_non_empty_pkt set exactly if the stack has
  // transmitted a non-empty payload since the end of the one before.
  lemma {:induction false} FlagIff(ccm: Ccm, d0: Phy, actions: seq<Action>)
    requires Lawful(ccm) && Valid(d0) && ValidActions(actions) && Run(ccm, d0, actions).status.Running?
    ensures Run(ccm, d0, actions).sentNonEmpty <==> PayloadSince(ccm, d0, actions)
  {
    if actions != [] {
      var last := |actions| - 1;
      var d := Run(ccm, d0, actions[..last]);
      StillRunning(ccm, d, actions[last]);
      FlagIff(ccm, d0, actions[..last]);
      FlagStep(ccm, d, actions[last]);
    }
  }

  lemma StillRunning(ccm: Ccm, d: Phy, a: Action)
    requires Lawful(ccm) && Valid(d) && ValidAction(a) && Step(ccm, d, a).status.Running?
    ensures d.status.Running?
  {
  }

  ghost function Ended(actions: seq<Action>): nat {
    if actions == [] then 0
    else Ended(actions[..|actions| - 1]) + if actions[|actions| - 1].Resume? then 1 else 0
  }

  // The run stays in the polling loop from d on until its last step, on data channels.
  ghost predicate StaysInLoop(ccm: Ccm, d: Phy, actions: seq<Action>)
    requires Lawful(ccm) && Valid(d) && ValidActions(actions)
  {
    && Run(ccm, d, actions).status.Running?
    && forall k | 0 <= k < |actions| :: Run(ccm, d, actions[..k]).pc.Polling?
  }

  // n iterations ended since d, where the flag was set: where the loop is now, and what it has
  // offered.
  ghost predicate KeepsPolling(d: Phy, r: Phy, n: nat) {
    && (n == 0 ==> r.sentNonEmpty && r.pc.Polling?)
    && (n > 0 ==> r.pc.Testing? || (r.pc.Polling? && r.pc.i <= n))
    && (r.pc.Testing? ==> n >= 6)
    && d.offers <= r.offers
  }

  ghost predicate HasPolled(d: Phy, r: Phy, n: nat) {
    && r.channel < FIRST_ADV_CHANNEL && d.offers <= r.offers
    && |r.offers| == |d.offers| + (if r.pc.Testing? then n - 1 else n)
    && forall j | |d.offers| <= j < |r.offers| :: IsEmptyPacket(r.offers[j])
  }

  ghost predicate IsEmptyPacket(o: Offer) {
    |o.packet| == 6 && o.packet[5] == 0 && o.packet[4] % 4 == 1 && o.channel < FIRST_ADV_CHANNEL
  }

  lemma ResumeKeepsPolling(d: Phy, r: Phy, n: nat)
    requires Valid(r) && r.pc.Polling? && KeepsPolling(d, r, n) && r.status.Running?
    ensures KeepsPolling(d, ResumeStep(r), n + 1)
    ensures HasPolled(d, r, n) ==> HasPolled(d, ResumeStep(r), n + 1)
  {
    var i := (if r.sentNonEmpty then 0 else r.pc.i) + 1;
    if r.channel < FIRST_ADV_CHANNEL && i < POLLS {
      IterateOffersPoll(r.(sentNonEmpty := false), i);
    }
  }

  lemma {:induction false} LoopKeepsPolling(ccm: Ccm, d: Phy, actions: seq<Action>)
    requires Lawful(ccm) && Valid(d) && ValidActions(actions) && StaysInLoop(ccm, d, actions)
    requires d.status.Running? && d.pc.Polling? && d.sentNonEmpty
    ensures KeepsPolling(d, Run(ccm, d, actions), Ended(actions))
    ensures OnDataChannels(d, actions) ==> HasPolled(d, Run(ccm, d, actions), Ended(actions))
  {
    if actions != [] {
      var last := |actions| - 1;
      var before := actions[..last];
      var r := Run(ccm, d, before);
      assert forall k | 0 <= k < last :: before[..k] == actions[..k];
      StillRunning(ccm, r, actions[last]);
      LoopKeepsPolling(ccm, d, before);
      if actions[last].Resume? {
        ResumeKeepsPolling(d, r, Ended(before));
      } else {
        LoopUntouched(ccm, r, actions[last]);
        FlagStep(ccm, r, actions[last]);
      }
    }
  }

  // Main result for the flag: after a non-empty transmission in the loop, the run does not
  // leave it before five further iterations, and on data channels each offers an empty packet.
  lemma PayloadKeepsPolling(ccm: Ccm, d: Phy, hdr: byte, payload: bytes, actions: seq<Action>)
    requires Lawful(ccm) && Valid(d) && d.status.Running? && d.pc.Polling? && payload != []
    requires ValidActions(actions) && Step(ccm, d, Tx(hdr, payload)).status.Running?
    requires StaysInLoop(ccm, Step(ccm, d, Tx(hdr, payload)), actions)
    ensures var d1 := Step(ccm, d, Tx(hdr, payload));
            var r := Run(ccm, d1, actions);
            r.pc.Testing? ==>
              && Ended(actions) >= 6
              && (OnDataChannels(d1, actions) ==>
                    |r.offers| >= |d1.offers| + 5
                    && forall j | |d1.offers| <= j < |r.offers| :: IsEmptyPacket(r.offers[j]))
  {
    FlagStep(ccm, d, Tx(hdr, payload));
    LoopUntouched(ccm, d, Tx(hdr, payload));
    LoopKeepsPolling(ccm, Step(ccm, d, Tx(hdr, payload)), actions);
  }

  // ---------- draining ----------

  // The number of complete frames at the head of the buffer.
  ghost function Frames(f: bytes): nat {
    match PktLen(f)
    case Some(n) => if n > 0 then 1 + Frames(f[n + 4..]) else 0
    case None => 0
  }

  // The steps that the receive task has ahead of it if the stack transmits nothing more.
  ghost function Work(d: Phy): nat
    requires Valid(d)
  {
    7 * Frames(d.rx)
    + (match d.pc
       case Idle => 0
       case Testing => 1
       case Polling(i) => 1 + if d.sentNonEmpty then 6 else 6 - i)
    + if d.queued then 2 else 0
  }

  ghost predicate TaskStep(d: Phy, a: Action) {
    || (a.PopEvent? && d.pc.Idle? && d.queued)
    || (a.TestFifo? && d.pc.Testing?)
    || (a.Resume? && d.pc.Polling?)
  }

  ghost function TaskSteps(ccm: Ccm, d0: Phy, actions: seq<Action>): nat
    requires Lawful(ccm) && Valid(d0) && ValidActions(actions)
  {
    if actions == [] then 0
    else
      var last := |actions| - 1;
      TaskSteps(ccm, d0, actions[..last]) +
      if TaskStep(Run(ccm, d0, actions[..last]), actions[last]) then 1 else 0
  }

  ghost function NonEmptyTx(actions: seq<Action>): nat {
    if actions == [] then 0
    else
      var last := actions[|actions| - 1];
      NonEmptyTx(actions[..|actions| - 1]) + if last.Tx? && last.payload != [] then 1 else 0
  }

  ghost predicate NothingArrives(actions: seq<Action>) {
    forall i | 0 <= i < |actions| :: !actions[i].RxChar?
  }

  lemma StepWork(ccm: Ccm, d: Phy, a: Action)
    requires Lawful(ccm) && Valid(d) && ValidAction(a) && !a.RxChar?
    requires Step(ccm, d, a).status.Running?
    ensures var d' := Step(ccm, d, a);
            if TaskStep(d, a) then Work(d') == Work(d) - 1
            else if a.Tx? && a.payload != [] then Work(d') <= Work(d) + 5
            else Work(d') == Work(d)
  {
    match a {
      case Tx(hdr, payload) =>
        var packet := DriverSend(ccm, d.keys, d.accessAddress, hdr, payload);
        TxWork(d, hdr, |payload|, packet, Encode(UpMessage(packet)));
      case TestFifo =>
        if d.status.Running? && d.pc.Testing? {
          TestWork(ccm, d);
        }
      case Resume =>
        if d.status.Running? && d.pc.Polling? {
          ResumeWork(d);
        }
      case _ =>
    }
  }

  lemma TxWork(d: Phy, hdr: byte, len: nat, packet: bytes, wire: bytes)
    requires Valid(d) && d.status.Running? && TxStep(d, hdr, len, packet, wire).status.Running?
    ensures Work(TxStep(d, hdr, len, packet, wire)) <= Work(d) + 5
    ensures len == 0 ==> Work(TxStep(d, hdr, len, packet, wire)) == Work(d)
  {
  }

  lemma WorkTaken(d: Phy, r: Phy)
    requires Valid(d) && Valid(r) && d.pc.Testing? && HeadComplete(d)
    requires r.rx == d.rx[PktLen(d.rx).value + 4..] && r.pc == Polling(0)
    requires r.queued == d.queued && r.sentNonEmpty == d.sentNonEmpty
    ensures Work(r) == Work(d) - 1
  {
  }

  lemma TestWork(ccm: Ccm, d: Phy)
    requires Lawful(ccm) && Valid(d) && d.status.Running? && d.pc.Testing?
    requires TestStep(ccm, d).status.Running?
    ensures Work(TestStep(ccm, d)) == Work(d) - 1
  {
    if HeadComplete(d) {
      TakeTransport(ccm, d, PktLen(d.rx).value);
      WorkTaken(d, TestStep(ccm, d));
    }
  }

  lemma ResumeWork(d: Phy)
    requires Valid(d) && d.status.Running? && d.pc.Polling?
    ensures Work(ResumeStep(d)) == Work(d) - 1
  {
  }

  lemma {:induction false} RunWork(ccm: Ccm, d0: Phy, actions: seq<Action>)
    requires Lawful(ccm) && Valid(d0) && ValidActions(actions) && NothingArrives(actions)
    requires Run(ccm, d0, actions).status.Running?
    ensures TaskSteps(ccm, d0, actions) + Work(Run(ccm, d0, actions)) <= Work(d0) + 5 * NonEmptyTx(actions)
    ensures NonEmptyTx(actions) == 0 ==>
              TaskSteps(ccm, d0, actions) + Work(Run(ccm, d0, actions)) == Work(d0)
  {
    if actions != [] {
      var last := |actions| - 1;
      RunWork(ccm, d0, actions[..last]);
      StepWork(ccm, Run(ccm, d0, actions[..last]), actions[last]);
    }
  }

  lemma ValidAppend(a: seq<Action>, b: seq<Action>)
    requires ValidActions(a) && ValidActions(b)
    ensures ValidActions(a + b)
  {
  }

  lemma {:induction false} RunAppend(ccm: Ccm, d0: Phy, a: seq<Action>, b: seq<Action>, both: seq<Action>)
    requires Lawful(ccm) && Valid(d0) && ValidActions(a) && ValidActions(b)
    requires both == a + b && ValidActions(both)
    ensures Run(ccm, d0, both) == Run(ccm, Run(ccm, d0, a), b)
    decreases |b|
  {
    if b == [] {
      assert both == a;
    } else {
      var before, b0, last := both[..|both| - 1], b[..|b| - 1], b[|b| - 1];
      assert before == a + b0 && both[|both| - 1] == last;
      RunAppend(ccm, d0, a, b0, before);
      RunUnfolds(ccm, d0, both);
      RunUnfolds(ccm, Run(ccm, d0, a), b);
    }
  }

  lemma RunUnfolds(ccm: Ccm, d0: Phy, actions: seq<Action>)
    requires Lawful(ccm) && Valid(d0) && ValidActions(actions) && actions != []
    ensures var last := |actions| - 1;
            Run(ccm, d0, actions) == Step(ccm, Run(ccm, d0, actions[..last]), actions[last])
  {
  }

  lemma {:induction false} ArrivedAppend(a: seq<Action>, b: seq<Action>)
    requires NothingArrives(b)
    ensures Arrived(a + b) == Arrived(a)
    decreases |b|
  {
    if b == [] {
      assert a + b == a;
    } else {
      var last := |b| - 1;
      ArrivedAppend(a, b[..last]);
      assert (a + b)[..|a| + last] == a + b[..last];
    }
  }

  // Main result. After the last byte of the host's stream, the receive task has taken every
  // packet as soon as it has made Work + 5T steps, where T is the number of non-empty packets
  // that the stack transmits meanwhile; and until then it always has a step to make.
  lemma Drained(ccm: Ccm, d0: Phy, a: seq<Action>, b: seq<Action>, logTx: byte, bodies: seq<bytes>)
    requires Lawful(ccm) && Fresh(d0) && ValidActions(a) && ValidActions(b)
    requires FrameSizes(bodies, 1, RX_BUF_SIZE)
    requires Arrived(a) == HostStream(logTx, bodies) && |Arrived(a)| <= UINT32 && NothingArrives(b)
    requires Run(ccm, Run(ccm, d0, a), b).status.Running?
    ensures var d1 := Run(ccm, d0, a);
            var d2 := Run(ccm, d1, b);
            && (TaskSteps(ccm, d1, b) >= Work(d1) + 5 * NonEmptyTx(b) ==> d2.taken == bodies && d2.rx == [])
            && (d2.taken != bodies ==>
                  TaskStep(d2, PopEvent(d2.rxBuf)) || TaskStep(d2, TestFifo) || TaskStep(d2, Resume))
  {
    var d1 := Run(ccm, d0, a);
    ValidAppend(a, b);
    RunAppend(ccm, d0, a, b, a + b);
    ArrivedAppend(a, b);
    DownlinkStream(ccm, d0, a + b, logTx, bodies);
    RunWork(ccm, d1, b);
  }
}
