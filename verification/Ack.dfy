/**
 The one-bit acknowledgement scheme of the link layer, Bluetooth Core Specification, Vol 6
 Part B section 4.5.9: the driver, which rewrites SN and NESN of every packet it offers,
 against a peer (the BLE stack) that follows the specification.
 */
module Acknowledgement {
  import opened Bytes
  import opened Framing
  import opened LinkCrypto
  import opened PhyModel

  // transmitSeqNum, nextExpectedSeqNum, and the number of the PDU that the peer transmits
  // until it is acknowledged.
  datatype Peer = Peer(sn: int, nesn: int, current: nat)

  // What the peer does on the data channels: it transmits PDU number `pdu`, or receives a
  // packet that is new data or not and acknowledges its current PDU or not.
  datatype Event = Sent(pdu: nat) | Got(isNew: bool, isAck: bool)

  datatype Link = Link(phy: Phy, peer: Peer, log: seq<Event>)

  predicate ValidPeer(p: Peer) {
    0 <= p.sn <= 1 && 0 <= p.nesn <= 1
  }

  function Receive(p: Peer, sn: int, nesn: int): (Peer, Event) {
    var isNew, isAck := sn == p.nesn, nesn != p.sn;
    (Peer(if isAck then 1 - p.sn else p.sn,
          if isNew then 1 - p.nesn else p.nesn,
          if isAck then p.current + 1 else p.current),
     Got(isNew, isAck))
  }

  ghost predicate OffersData(d: Phy, d': Phy) {
    && |d'.offers| == |d.offers| + 1
    && d'.offers[|d.offers|].channel < FIRST_ADV_CHANNEL
    && |d'.offers[|d.offers|].packet| >= 6
  }

  ghost predicate SendsData(d: Phy, a: Action) {
    a.Tx? && d.channel < FIRST_ADV_CHANNEL
  }

  // The peer transmits its own sequence numbers.
  ghost predicate PeerConforms(l: Link, a: Action) {
    SendsData(l.phy, a) ==> Sn(a.hdr) == l.peer.sn && Nesn(a.hdr) == l.peer.nesn
  }

  ghost function LinkStep(ccm: Ccm, l: Link, a: Action): Link
    requires Lawful(ccm) && Valid(l.phy) && ValidAction(a)
  {
    var d := l.phy;
    var d' := Step(ccm, d, a);
    if d.status.Stopped? || d'.status.Stopped? then l.(phy := d')
    else if SendsData(d, a) then Link(d', l.peer, l.log + [Sent(l.peer.current)])
    else if OffersData(d, d') then
      var header := d'.offers[|d.offers|].packet[4];
      var (p, event) := Receive(l.peer, Sn(header), Nesn(header));
      Link(d', p, l.log + [event])
    else l.(phy := d')
  }

  ghost function LinkRun(ccm: Ccm, l: Link, actions: seq<Action>): (r: Link)
    requires Lawful(ccm) && Valid(l.phy) && ValidActions(actions)
    ensures Valid(r.phy)
  {
    if actions == [] then l
    else LinkStep(ccm, LinkRun(ccm, l, actions[..|actions| - 1]), actions[|actions| - 1])
  }

  ghost predicate AllConform(ccm: Ccm, l: Link, actions: seq<Action>)
    requires Lawful(ccm) && Valid(l.phy) && ValidActions(actions)
  {
    forall k | 0 <= k < |actions| :: PeerConforms(LinkRun(ccm, l, actions[..k]), actions[k])
  }

  // ---------- what a step of the driver does to the sequence numbers ----------

  lemma IterateOffers(d: Phy, i: nat, packet: bytes)
    requires Valid(d) && i < POLLS && (packet == [] || 6 <= |packet| <= RX_BUF_SIZE)
    requires packet != [] && d.channel < FIRST_ADV_CHANNEL ==> !IsAdv(packet)
    ensures OffersFixed(d, Iterate(d, i, packet))
  {
    var d' := Iterate(d, i, packet);
    if d.channel < FIRST_ADV_CHANNEL {
      var offered := if packet == [] then EmptyPacket(d) else packet;
      var fixed := offered[4 := WithSeqBits(offered[4], d.rxSn, d.rxNesn)];
      assert d'.offers == d.offers + [Offer(fixed, d.channel, d.llState, !d.cryptoOk)];
      SeqBitsAt(offered[4], d.rxSn, d.rxNesn);
      FixedHeader(d, d', Offer(fixed, d.channel, d.llState, !d.cryptoOk), WithSeqBits(offered[4], d.rxSn, d.rxNesn));
    }
  }

  lemma FixedHeader(d: Phy, d': Phy, o: Offer, header: byte)
    requires d'.offers == d.offers + [o] && |o.packet| >= 6 && o.packet[4] == header
    requires d'.rxSn == d.rxSn && d'.rxNesn == d.rxNesn
    requires Sn(header) == d.rxSn && Nesn(header) == d.rxNesn
    ensures OffersFixed(d, d')
  {
  }

  // At most one packet is offered; on a data channel it carries the driver's sequence bits.
  ghost predicate OffersFixed(d: Phy, d': Phy) {
    && d'.rxSn == d.rxSn && d'.rxNesn == d.rxNesn
    && (OffersData(d, d') ==>
          var header := d'.offers[|d.offers|].packet[4];
          Sn(header) == d.rxSn && Nesn(header) == d.rxNesn)
  }

  lemma FixedAlso(d: Phy, d1: Phy, d': Phy)
    requires OffersFixed(d1, d')
    requires d1.offers == d.offers && d1.rxSn == d.rxSn && d1.rxNesn == d.rxNesn
    ensures OffersFixed(d, d')
  {
  }

  lemma JudgeOffers(d: Phy, packet: bytes, ok: bool)
    requires Valid(d) && 6 <= |packet| <= RX_BUF_SIZE
    ensures OffersFixed(d, Judge(d, packet, ok))
  {
    var accept := Accepts(d, packet);
    var d1 := d.(cryptoOk := !accept || ok);
    if d.lastWasConn && d.channel >= FIRST_ADV_CHANNEL {
      NothingOffered(d, Judge(d, packet, ok));
    } else {
      var d2 := d1.(lastWasConn := accept && IsConnectInd(packet));
      IterateOffers(d2, 0, if accept then packet else []);
      FixedAlso(d, d2, Judge(d, packet, ok));
    }
  }

  lemma TakeOffers(ccm: Ccm, d: Phy, n: nat)
    requires Lawful(ccm) && Valid(d) && n <= RX_BUF_SIZE && |d.rx| >= n + 4
    ensures OffersFixed(d, TakeStep(ccm, d, n))
  {
    var (ok, plain) := DriverReceive(ccm, d.keys, d.rx[3..3 + n]);
    var d1 := AfterRead(ccm, d, n);
    JudgeOffers(d1, Readable(d1.rxBuf, plain), ok);
    FixedAlso(d, d1, TakeStep(ccm, d, n));
  }

  lemma NothingOffered(d: Phy, d': Phy)
    requires d'.offers == d.offers && d'.rxSn == d.rxSn && d'.rxNesn == d.rxNesn
    ensures OffersFixed(d, d')
  {
  }

  lemma TestOffers(ccm: Ccm, d: Phy)
    requires Lawful(ccm) && Valid(d)
    ensures OffersFixed(d, TestStep(ccm, d))
  {
    match PktLen(d.rx)
    case None => NothingOffered(d, TestStep(ccm, d));
    case Some(n) =>
      if 1 <= n <= RX_BUF_SIZE {
        TakeOffers(ccm, d, n);
      } else {
        NothingOffered(d, TestStep(ccm, d));
      }
  }

  lemma RxCharOffers(d: Phy, b: byte)
    requires Valid(d)
    ensures OffersFixed(d, RxCharStep(d, b))
  {
    NothingOffered(d, RxCharStep(d, b));
  }

  lemma ResumeOffers(d: Phy)
    requires Valid(d) && d.pc.Polling?
    ensures OffersFixed(d, ResumeStep(d))
  {
    var i := (if d.sentNonEmpty then 0 else d.pc.i) + 1;
    var d1 := d.(sentNonEmpty := false);
    if i < POLLS {
      IterateOffers(d1, i, []);
      FixedAlso(d, d1, Iterate(d1, i, []));
    }
  }

  lemma TxSequence(d: Phy, hdr: byte, len: nat, packet: bytes, wire: bytes)
    requires Valid(d) && TxStep(d, hdr, len, packet, wire).status.Running?
    ensures var d' := TxStep(d, hdr, len, packet, wire);
            && d'.offers == d.offers
            && (d.channel < FIRST_ADV_CHANNEL ==> d'.rxSn == Nesn(hdr) && d'.rxNesn == 1 - Sn(hdr))
            && (d.channel >= FIRST_ADV_CHANNEL ==> d'.rxSn == d.rxSn && d'.rxNesn == d.rxNesn)
  {
  }

  lemma StepSequence(ccm: Ccm, d: Phy, a: Action)
    requires Lawful(ccm) && Valid(d) && ValidAction(a) && d.status.Running?
    requires Step(ccm, d, a).status.Running?
    ensures var d' := Step(ccm, d, a);
            if SendsData(d, a) then d'.rxSn == Nesn(a.hdr) && d'.rxNesn == 1 - Sn(a.hdr)
            else OffersFixed(d, d')
  {
    match a {
      case Tx(hdr, payload) =>
        var packet := DriverSend(ccm, d.keys, d.accessAddress, hdr, payload);
        TxSequence(d, hdr, |payload|, packet, Encode(UpMessage(packet)));
      case RxChar(b) => RxCharOffers(d, b);
      case TestFifo => TestOffers(ccm, d);
      case Resume =>
        if d.pc.Polling? {
          ResumeOffers(d);
        }
      case _ =>
    }
  }

  // ---------- runs ----------

  // The position of the last transmission in the log, or -1.
  ghost function LastSent(log: seq<Event>): (i: int)
    ensures -1 <= i < |log|
    ensures i >= 0 ==> log[i].Sent?
    ensures forall j | i < j < |log| :: !log[j].Sent?
  {
    if log == [] then -1
    else if log[|log| - 1].Sent? then |log| - 1
    else LastSent(log[..|log| - 1])
  }

  ghost predicate SentBefore(log: seq<Event>, j: nat) {
    exists i :: 0 <= i < j < |log| && log[i].Sent?
  }

  // From the first transmission on, exactly the packets right after a transmission are new
  // data and acknowledgements.
  ghost predicate FirstAnswerCounts(log: seq<Event>) {
    forall j | 0 < j < |log| && log[j].Got? && SentBefore(log, j) ::
      log[j] == Got(log[j - 1].Sent?, log[j - 1].Sent?)
  }

  // Between two consecutive transmissions the peer moves on to the next PDU if it received a
  // packet in between and repeats its PDU if it did not.
  ghost predicate NoPduSkipped(log: seq<Event>) {
    forall i, j | 0 <= i < j < |log| && log[i].Sent? && log[j].Sent?
                  && (forall k | i < k < j :: !log[k].Sent?) ::
      log[j].pdu == log[i].pdu + if j == i + 1 then 0 else 1
  }

  // The numbers of the PDUs that the peer transmits, in order.
  ghost function SentPdus(log: seq<Event>): seq<nat> {
    if log == [] then []
    else SentPdus(log[..|log| - 1]) + if log[|log| - 1].Sent? then [log[|log| - 1].pdu] else []
  }

  ghost predicate Follows(pdus: seq<nat>, i: nat)
    requires 0 < i < |pdus|
  {
    pdus[i] == pdus[i - 1] || pdus[i] == pdus[i - 1] + 1
  }

  // The numbers never go back and leave none out.
  ghost predicate NoGaps(pdus: seq<nat>) {
    forall i | 0 < i < |pdus| :: Follows(pdus, i)
  }

  ghost predicate Rises(pdus: seq<nat>, i: nat)
    requires 0 < i < |pdus|
  {
    pdus[i - 1] < pdus[i]
  }

  ghost predicate Increasing(pdus: seq<nat>) {
    forall i | 0 < i < |pdus| :: Rises(pdus, i)
  }

  ghost predicate SentTwice(log: seq<Event>, j: nat)
    requires 0 < j < |log|
  {
    log[j - 1].Sent? && log[j].Sent?
  }

  // The peer receives something between any two transmissions.
  ghost predicate AlwaysAnswered(log: seq<Event>) {
    forall j | 0 < j < |log| :: !SentTwice(log, j)
  }

  // Every PDU between the first and the last is transmitted; and none twice if and only if the
  // peer always receives something in between.
  ghost predicate EveryPduSent(log: seq<Event>) {
    && NoGaps(SentPdus(log))
    && (Increasing(SentPdus(log)) <==> AlwaysAnswered(log))
  }

  lemma {:induction false} LastPdu(log: seq<Event>)
    ensures LastSent(log) < 0 <==> SentPdus(log) == []
    ensures LastSent(log) >= 0 ==> SentPdus(log)[|SentPdus(log)| - 1] == log[LastSent(log)].pdu
  {
    if log != [] {
      LastPdu(log[..|log| - 1]);
    }
  }

  lemma AnsweredMore(log: seq<Event>, e: Event)
    ensures AlwaysAnswered(log + [e]) <==>
            AlwaysAnswered(log) && !(log != [] && log[|log| - 1].Sent? && e.Sent?)
  {
    var more := log + [e];
    assert forall j | 0 < j < |log| :: SentTwice(more, j) == SentTwice(log, j);
    if log != [] {
      assert SentTwice(more, |log|) == (log[|log| - 1].Sent? && e.Sent?);
    }
  }

  lemma IncreasingMore(pdus: seq<nat>, pdu: nat)
    ensures Increasing(pdus + [pdu]) <==> Increasing(pdus) && (pdus == [] || pdus[|pdus| - 1] < pdu)
  {
    var more := pdus + [pdu];
    assert forall i | 0 < i < |pdus| :: Rises(more, i) == Rises(pdus, i);
    if pdus != [] {
      assert Rises(more, |pdus|) == (pdus[|pdus| - 1] < pdu);
    }
  }

  lemma PdusMore(log: seq<Event>, e: Event)
    ensures SentPdus(log + [e]) == if e.Sent? then SentPdus(log) + [e.pdu] else SentPdus(log)
  {
    assert (log + [e])[..|log|] == log;
  }

  lemma NoGapsMore(pdus: seq<nat>, pdu: nat)
    requires NoGaps(pdus)
    requires pdus != [] ==> pdu == pdus[|pdus| - 1] || pdu == pdus[|pdus| - 1] + 1
    ensures NoGaps(pdus + [pdu])
  {
    assert forall i | 0 < i < |pdus| :: Follows(pdus + [pdu], i) == Follows(pdus, i);
  }

  lemma SentKeepsNoGaps(log: seq<Event>, pdu: nat)
    requires NoGaps(SentPdus(log))
    requires LastSent(log) >= 0 ==> pdu == log[LastSent(log)].pdu || pdu == log[LastSent(log)].pdu + 1
    ensures NoGaps(SentPdus(log + [Sent(pdu)]))
  {
    LastPdu(log);
    PdusMore(log, Sent(pdu));
    NoGapsMore(SentPdus(log), pdu);
  }

  lemma SentKeepsIncreasing(log: seq<Event>, pdu: nat)
    requires LastSent(log) >= 0 ==>
               pdu == log[LastSent(log)].pdu + if LastSent(log) == |log| - 1 then 0 else 1
    ensures Increasing(SentPdus(log + [Sent(pdu)])) <==>
            Increasing(SentPdus(log)) && (LastSent(log) < 0 || LastSent(log) != |log| - 1)
  {
    LastPdu(log);
    PdusMore(log, Sent(pdu));
    IncreasingMore(SentPdus(log), pdu);
  }

  lemma SentKeepsAnswered(log: seq<Event>, pdu: nat)
    ensures AlwaysAnswered(log + [Sent(pdu)]) <==>
            AlwaysAnswered(log) && (LastSent(log) < 0 || LastSent(log) != |log| - 1)
  {
    AnsweredMore(log, Sent(pdu));
    SentIsLast(log);
  }

  lemma SentKeepsPdus(log: seq<Event>, pdu: nat)
    requires EveryPduSent(log)
    requires LastSent(log) >= 0 ==>
               pdu == log[LastSent(log)].pdu + if LastSent(log) == |log| - 1 then 0 else 1
    ensures EveryPduSent(log + [Sent(pdu)])
  {
    SentKeepsNoGaps(log, pdu);
    SentKeepsIncreasing(log, pdu);
    SentKeepsAnswered(log, pdu);
  }

  lemma SentIsLast(log: seq<Event>)
    ensures LastSent(log) == |log| - 1 <==> log == [] || log[|log| - 1].Sent?
  {
  }

  lemma GotKeepsPdus(log: seq<Event>, e: Event)
    requires EveryPduSent(log) && e.Got?
    ensures EveryPduSent(log + [e])
  {
    PdusMore(log, e);
    AnsweredMore(log, e);
  }

  ghost predicate Synchronised(l: Link) {
    var i := LastSent(l.log);
    i >= 0 ==>
      if i == |l.log| - 1 then
        l.phy.rxSn == l.peer.nesn && l.phy.rxNesn == 1 - l.peer.sn && l.peer.current == l.log[i].pdu
      else
        l.phy.rxSn == 1 - l.peer.nesn && l.phy.rxNesn == l.peer.sn && l.peer.current == l.log[i].pdu + 1
  }

  ghost predicate LinkInv(l: Link) {
    && ValidPeer(l.peer) && Synchronised(l)
    && FirstAnswerCounts(l.log) && NoPduSkipped(l.log)
  }

  lemma SentKeepsLog(log: seq<Event>, pdu: nat)
    requires FirstAnswerCounts(log) && NoPduSkipped(log)
    requires LastSent(log) >= 0 ==>
               pdu == log[LastSent(log)].pdu + if LastSent(log) == |log| - 1 then 0 else 1
    ensures FirstAnswerCounts(log + [Sent(pdu)]) && NoPduSkipped(log + [Sent(pdu)])
  {
    var log' := log + [Sent(pdu)];
    forall i, j | 0 <= i < j < |log'| && log'[i].Sent? && log'[j].Sent?
                  && (forall k | i < k < j :: !log'[k].Sent?)
      ensures log'[j].pdu == log'[i].pdu + if j == i + 1 then 0 else 1
    {
      if j == |log| {
        assert log[i].Sent?;
        assert log'[LastSent(log)] == log[LastSent(log)];
        assert i == LastSent(log);
      } else {
        assert forall k | i < k < j :: log[k] == log'[k];
      }
    }
    AnswersKept(log, Sent(pdu));
  }

  lemma AnswersKept(log: seq<Event>, e: Event)
    requires FirstAnswerCounts(log)
    requires e.Got? && LastSent(log) >= 0 ==> e == Got(log[|log| - 1].Sent?, log[|log| - 1].Sent?)
    ensures FirstAnswerCounts(log + [e])
  {
    var log' := log + [e];
    forall j | 0 < j < |log'| && log'[j].Got? && SentBefore(log', j)
      ensures log'[j] == Got(log'[j - 1].Sent?, log'[j - 1].Sent?)
    {
      var i :| 0 <= i < j < |log'| && log'[i].Sent?;
      assert log[i].Sent?;
      if j < |log| {
        assert SentBefore(log, j);
      }
    }
  }

  lemma GotKeepsLog(log: seq<Event>, e: Event)
    requires FirstAnswerCounts(log) && NoPduSkipped(log) && e.Got?
    requires LastSent(log) >= 0 ==> e == Got(log[|log| - 1].Sent?, log[|log| - 1].Sent?)
    ensures FirstAnswerCounts(log + [e]) && NoPduSkipped(log + [e])
  {
    var log' := log + [e];
    AnswersKept(log, e);
    forall i, j | 0 <= i < j < |log'| && log'[i].Sent? && log'[j].Sent?
                  && (forall k | i < k < j :: !log'[k].Sent?)
      ensures log'[j].pdu == log'[i].pdu + if j == i + 1 then 0 else 1
    {
      assert forall k | i < k < j :: log[k] == log'[k];
    }
  }

  lemma SentKeepsInv(l: Link, d': Phy)
    requires LinkInv(l) && d'.rxSn == l.peer.nesn && d'.rxNesn == 1 - l.peer.sn
    ensures LinkInv(Link(d', l.peer, l.log + [Sent(l.peer.current)]))
  {
    SentKeepsLog(l.log, l.peer.current);
  }

  lemma GotKeepsInv(l: Link, d': Phy)
    requires LinkInv(l) && d'.rxSn == l.phy.rxSn && d'.rxNesn == l.phy.rxNesn
    requires 0 <= d'.rxSn <= 1 && 0 <= d'.rxNesn <= 1
    ensures var (p, event) := Receive(l.peer, d'.rxSn, d'.rxNesn);
            LinkInv(Link(d', p, l.log + [event]))
  {
    var (p, event) := Receive(l.peer, d'.rxSn, d'.rxNesn);
    assert (l.log + [event])[..|l.log|] == l.log;
    GotKeepsLog(l.log, event);
  }

  lemma LinkStepKeepsInv(ccm: Ccm, l: Link, a: Action)
    requires Lawful(ccm) && Valid(l.phy) && ValidAction(a)
    requires LinkInv(l) && PeerConforms(l, a)
    requires l.phy.status.Running? && Step(ccm, l.phy, a).status.Running?
    ensures LinkInv(LinkStep(ccm, l, a))
  {
    var d' := Step(ccm, l.phy, a);
    StepSequence(ccm, l.phy, a);
    if SendsData(l.phy, a) {
      SentKeepsInv(l, d');
    } else if OffersData(l.phy, d') {
      GotKeepsInv(l, d');
    }
  }

  lemma LinkStepKeepsPdus(ccm: Ccm, l: Link, a: Action)
    requires Lawful(ccm) && Valid(l.phy) && ValidAction(a)
    requires Synchronised(l) && EveryPduSent(l.log)
    requires l.phy.status.Running? && Step(ccm, l.phy, a).status.Running?
    ensures EveryPduSent(LinkStep(ccm, l, a).log)
  {
    var log := LinkStep(ccm, l, a).log;
    if SendsData(l.phy, a) {
      SentKeepsPdus(l.log, l.peer.current);
    } else if log != l.log {
      GotKeepsPdus(l.log, log[|l.log|]);
    }
  }

  // Main result. Against a conforming peer, in every interleaving of deliveries and
  // transmissions, the log keeps both laws: from the first data-channel transmission on,
  // exactly the first packet delivered after a transmission is seen as new data and as an
  // acknowledgement; no PDU of the peer is skipped or acknowledged twice; and none is
  // transmitted twice if and only if the peer always receives something in between.
  lemma {:induction false} OneBitAcknowledgement(ccm: Ccm, l: Link, actions: seq<Action>)
    requires Lawful(ccm) && Valid(l.phy) && ValidPeer(l.peer) && l.log == [] && ValidActions(actions)
    requires AllConform(ccm, l, actions)
    requires LinkRun(ccm, l, actions).phy.status.Running?
    ensures LinkInv(LinkRun(ccm, l, actions)) && EveryPduSent(LinkRun(ccm, l, actions).log)
  {
    if actions != [] {
      var last := |actions| - 1;
      assert forall k | 0 <= k < last :: actions[..last][..k] == actions[..k];
      assert PeerConforms(LinkRun(ccm, l, actions[..last]), actions[last]);
      OneBitAcknowledgement(ccm, l, actions[..last]);
      LinkStepKeepsInv(ccm, LinkRun(ccm, l, actions[..last]), actions[last]);
      LinkStepKeepsPdus(ccm, LinkRun(ccm, l, actions[..last]), actions[last]);
    }
  }

  // ---------- before the first transmission of a connection ----------

  ghost predicate NoneSent(ccm: Ccm, l: Link, actions: seq<Action>)
    requires Lawful(ccm) && Valid(l.phy) && ValidActions(actions)
  {
    forall k | 0 <= k < |actions| :: !SendsData(LinkRun(ccm, l, actions[..k]).phy, actions[k])
  }

  // What a peer with cleared sequence numbers makes of packets that all carry the same bits.
  ghost predicate StaleLog(log: seq<Event>, sn: int, nesn: int) {
    forall j | 0 <= j < |log| :: log[j] == if j == 0 then Got(sn == 0, nesn == 1) else Got(false, false)
  }

  ghost predicate FreshInv(l: Link, d0: Phy) {
    && l.phy.rxSn == d0.rxSn && l.phy.rxNesn == d0.rxNesn && StaleLog(l.log, d0.rxSn, d0.rxNesn)
    && l.peer == if l.log == [] then Peer(0, 0, 0) else Peer(d0.rxNesn, 1 - d0.rxSn, if d0.rxNesn == 1 then 1 else 0)
  }

  lemma StaleMore(log: seq<Event>, e: Event, sn: int, nesn: int)
    requires StaleLog(log, sn, nesn) && e == if log == [] then Got(sn == 0, nesn == 1) else Got(false, false)
    ensures StaleLog(log + [e], sn, nesn)
  {
  }

  lemma FreshStep(ccm: Ccm, l: Link, a: Action, d0: Phy)
    requires Lawful(ccm) && Valid(l.phy) && ValidAction(a) && Valid(d0) && !SendsData(l.phy, a)
    requires FreshInv(l, d0) && l.phy.status.Running? && Step(ccm, l.phy, a).status.Running?
    ensures FreshInv(LinkStep(ccm, l, a), d0)
  {
    var d' := Step(ccm, l.phy, a);
    StepSequence(ccm, l.phy, a);
    if OffersData(l.phy, d') {
      var (p, event) := Receive(l.peer, d0.rxSn, d0.rxNesn);
      StaleMore(l.log, event, d0.rxSn, d0.rxNesn);
      assert LinkStep(ccm, l, a) == Link(d', p, l.log + [event]);
    }
  }

  // In every run of a new connection in which its peer, with cleared sequence numbers, has not
  // transmitted yet, the bits are those that the driver had before: no change of the channel
  // or anything else resets them. The first packet counts as new data exactly if the old SN
  // is clear, and acknowledges a PDU that was never sent exactly if the old NESN is set; no
  // other packet counts as either.
  lemma {:induction false} FreshConnection(ccm: Ccm, l: Link, actions: seq<Action>)
    requires Lawful(ccm) && Valid(l.phy) && ValidActions(actions) && NoneSent(ccm, l, actions)
    requires l.peer == Peer(0, 0, 0) && l.log == [] && LinkRun(ccm, l, actions).phy.status.Running?
    ensures FreshInv(LinkRun(ccm, l, actions), l.phy)
  {
    if actions != [] {
      var last := |actions| - 1;
      assert forall k | 0 <= k < last :: actions[..last][..k] == actions[..k];
      FreshConnection(ccm, l, actions[..last]);
      FreshStep(ccm, LinkRun(ccm, l, actions[..last]), actions[last], l.phy);
    }
  }

  lemma SendLog(ccm: Ccm, l: Link, a: Action)
    requires Lawful(ccm) && Valid(l.phy) && ValidAction(a) && SendsData(l.phy, a)
    requires l.phy.status.Running? && Step(ccm, l.phy, a).status.Running?
    ensures LinkStep(ccm, l, a).log == l.log + [Sent(l.peer.current)]
  {
  }

  // The consequence for the peer's PDU 0: its first transmission skips it if and only if a
  // packet was delivered before and the old NESN is set.
  lemma FirstPduSkipped(ccm: Ccm, l: Link, actions: seq<Action>, a: Action)
    requires Lawful(ccm) && Valid(l.phy) && ValidActions(actions) && NoneSent(ccm, l, actions)
    requires l.peer == Peer(0, 0, 0) && l.log == [] && ValidAction(a)
    requires var r := LinkRun(ccm, l, actions);
             r.phy.status.Running? && SendsData(r.phy, a) && Step(ccm, r.phy, a).status.Running?
    ensures var r := LinkRun(ccm, l, actions);
            var skipped := r.log != [] && l.phy.rxNesn == 1;
            LinkStep(ccm, r, a).log == r.log + [Sent(if skipped then 1 else 0)]
  {
    FreshConnection(ccm, l, actions);
    SendLog(ccm, LinkRun(ccm, l, actions), a);
  }
}
