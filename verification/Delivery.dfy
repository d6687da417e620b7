/**
 Whole runs with encryption: the packets that one side sends are the packets that the other
 side reads, through the serial line, the driver's state machine and the encryption with its
 counters; and what the peer's acknowledged PDUs become on their way to the host.
 */
module Deliveries {
  import opened Bytes
  import opened Framing
  import opened LinkCrypto
  import opened PhyModel
  import opened Downlink
  import opened PollingLoop
  import opened EndToEnd
  import opened EncryptedStreams
  import opened Acknowledgement

  // ---------- downlink ----------

  // The step takes a frame.
  ghost predicate Takes(d: Phy, a: Action) {
    && d.status.Running? && a.TestFifo? && d.pc.Testing?
    && PktLen(d.rx).Some? && 1 <= PktLen(d.rx).value <= RX_BUF_SIZE
  }

  ghost function Head(d: Phy): bytes
    requires PktLen(d.rx).Some? && |d.rx| >= PktLen(d.rx).value + 4
  {
    d.rx[3..3 + PktLen(d.rx).value]
  }

  // What the driver makes of the frames it takes in a run: MIC verdict and packet.
  ghost function Opens(ccm: Ccm, d0: Phy, actions: seq<Action>): seq<(bool, bytes)>
    requires Lawful(ccm) && Valid(d0) && ValidActions(actions)
  {
    if actions == [] then []
    else
      var last := |actions| - 1;
      var d := Run(ccm, d0, actions[..last]);
      Opens(ccm, d0, actions[..last]) +
      if Takes(d, actions[last]) then [DriverReceive(ccm, d.keys, Head(d))] else []
  }

  // Whenever the driver takes a frame after the first n ones, the stack has set the counter to
  // p's plus the number of packets decrypted since.
  ghost predicate StackCounts(ccm: Ccm, d0: Phy, actions: seq<Action>, n: nat, p: PhyKeys)
    requires Lawful(ccm) && Valid(d0) && ValidActions(actions)
  {
    actions != [] ==>
      var last := |actions| - 1;
      var d := Run(ccm, d0, actions[..last]);
      && StackCounts(ccm, d0, actions[..last], n, p)
      && (Takes(d, actions[last]) && |d.taken| >= n ==> d.keys == PhyAfterRx(p, d.taken[n..]))
  }

  lemma StepTaken(ccm: Ccm, d: Phy, a: Action)
    requires Lawful(ccm) && Valid(d) && ValidAction(a)
    ensures Step(ccm, d, a).taken == d.taken + if Takes(d, a) then [Head(d)] else []
  {
    if d.status.Running? {
      if a.TestFifo? && d.pc.Testing? {
        TestTaken(ccm, d);
      } else if a.RxChar? {
        RxCharTaken(d, a.b);
      } else {
        OtherSteps(ccm, d, a);
      }
    }
  }

  lemma TestTaken(ccm: Ccm, d: Phy)
    requires Lawful(ccm) && Valid(d) && d.status.Running? && d.pc.Testing?
    ensures TestStep(ccm, d).taken == d.taken + if Takes(d, TestFifo) then [Head(d)] else []
  {
    if Takes(d, TestFifo) {
      TakeTransport(ccm, d, PktLen(d.rx).value);
    }
  }

  lemma RxCharTaken(d: Phy, b: byte)
    requires Valid(d)
    ensures RxCharStep(d, b).taken == d.taken
  {
  }

  ghost predicate OpenedAt(ccm: Ccm, taken: seq<bytes>, results: seq<(bool, bytes)>, n: nat, p: PhyKeys, j: nat)
    requires n <= j < |taken| == |results|
  {
    results[j] == DriverReceive(ccm, PhyAfterRx(p, taken[n..j]), taken[j])
  }

  ghost predicate OpenedInOrder(ccm: Ccm, taken: seq<bytes>, results: seq<(bool, bytes)>, n: nat, p: PhyKeys) {
    && |results| == |taken|
    && forall j | n <= j < |taken| :: OpenedAt(ccm, taken, results, n, p, j)
  }

  lemma OneMoreOpened(ccm: Ccm, taken: seq<bytes>, results: seq<(bool, bytes)>, n: nat, p: PhyKeys,
                      body: bytes, r: (bool, bytes))
    requires OpenedInOrder(ccm, taken, results, n, p)
    requires |taken| >= n ==> r == DriverReceive(ccm, PhyAfterRx(p, taken[n..]), body)
    ensures OpenedInOrder(ccm, taken + [body], results + [r], n, p)
  {
    var more := taken + [body];
    forall j | n <= j < |more|
      ensures OpenedAt(ccm, more, results + [r], n, p, j)
    {
      assert more[n..j] == taken[n..j];
      if j < |taken| {
        assert OpenedAt(ccm, taken, results, n, p, j);
      } else {
        assert taken[n..j] == taken[n..];
      }
    }
  }

  lemma StepOpens(ccm: Ccm, d: Phy, a: Action, results: seq<(bool, bytes)>, n: nat, p: PhyKeys)
    requires Lawful(ccm) && Valid(d) && ValidAction(a) && OpenedInOrder(ccm, d.taken, results, n, p)
    requires Takes(d, a) && |d.taken| >= n ==> d.keys == PhyAfterRx(p, d.taken[n..])
    ensures var more := if Takes(d, a) then [DriverReceive(ccm, d.keys, Head(d))] else [];
            OpenedInOrder(ccm, Step(ccm, d, a).taken, results + more, n, p)
  {
    StepTaken(ccm, d, a);
    if Takes(d, a) {
      OneMoreOpened(ccm, d.taken, results, n, p, Head(d), DriverReceive(ccm, d.keys, Head(d)));
    } else {
      assert results + [] == results && d.taken + [] == d.taken;
    }
  }

  lemma {:induction false} RunOpens(ccm: Ccm, d0: Phy, actions: seq<Action>, n: nat, p: PhyKeys)
    requires Lawful(ccm) && Valid(d0) && ValidActions(actions) && d0.taken == []
    requires StackCounts(ccm, d0, actions, n, p)
    ensures OpenedInOrder(ccm, Run(ccm, d0, actions).taken, Opens(ccm, d0, actions), n, p)
  {
    if actions != [] {
      var before := actions[..|actions| - 1];
      RunOpens(ccm, d0, before, n, p);
      StepOpens(ccm, Run(ccm, d0, before), actions[|actions| - 1], Opens(ccm, d0, before), n, p);
    }
  }

  // Main result. In every run on a stream of any packets followed by encrypted ones with
  // payload, if the stack keeps the driver's counter, every encrypted packet that the driver
  // takes comes out as the host meant it, with its MIC verified.
  lemma EncryptedDownlinkDelivered(ccm: Ccm, d0: Phy, actions: seq<Action>, logTx: byte, early: seq<bytes>,
                                   h: HostKeys, p: PhyKeys, aa: bytes, crc: bytes, ps: seq<DataPacket>)
    requires Lawful(ccm) && Fresh(d0) && ValidActions(actions) && FrameSizes(early, 0, 0xFFFF)
    requires h.encrypted && SameEpoch(h, h.txCount, p) && |aa| == 4 && |crc| == 3
    requires Sizes(ps, 251) && forall i | 0 <= i < |ps| :: ps[i].payload != []
    requires Arrived(actions) <= HostStream(logTx, early + HostBodies(ccm, h, aa, crc, ps))
    requires |Arrived(actions)| <= UINT32 && StackCounts(ccm, d0, actions, |early|, p)
    ensures var taken, results := Run(ccm, d0, actions).taken, Opens(ccm, d0, actions);
            && taken <= early + HostBodies(ccm, h, aa, crc, ps) && |results| == |taken|
            && forall j | |early| <= j < |taken| :: results[j] == (true, Original(aa, ps[j - |early|]))
  {
    var sealed, n := HostBodies(ccm, h, aa, crc, ps), |early|;
    SealedSizes(ccm, h, aa, crc, ps);
    JoinedSizes(early, sealed);
    DownlinkStream(ccm, d0, actions, logTx, early + sealed);
    RunOpens(ccm, d0, actions, n, p);
    DownlinkCounters(ccm, h, p, aa, crc, ps);
    TakenRebuilt(ccm, Run(ccm, d0, actions).taken, Opens(ccm, d0, actions), early, sealed, p, aa, ps);
  }

  lemma JoinedSizes(a: seq<bytes>, b: seq<bytes>)
    requires FrameSizes(a, 0, 0xFFFF) && FrameSizes(b, 0, 0xFFFF)
    ensures FrameSizes(a + b, 0, 0xFFFF)
  {
  }

  lemma TakenRebuilt(ccm: Ccm, taken: seq<bytes>, results: seq<(bool, bytes)>, early: seq<bytes>, sealed: seq<bytes>,
                     p: PhyKeys, aa: bytes, ps: seq<DataPacket>)
    requires taken <= early + sealed && OpenedInOrder(ccm, taken, results, |early|, p)
    requires |sealed| == |ps| && Sizes(ps, 251)
    requires forall i | 0 <= i < |ps| :: Rebuilt(OpenedByDriver(ccm, p, sealed), aa, ps, i)
    ensures forall j | |early| <= j < |taken| :: results[j] == (true, Original(aa, ps[j - |early|]))
  {
    forall j | |early| <= j < |taken|
      ensures results[j] == (true, Original(aa, ps[j - |early|]))
    {
      assert taken[j] == sealed[j - |early|] && taken[|early|..j] == sealed[..j - |early|];
      assert Rebuilt(OpenedByDriver(ccm, p, sealed), aa, ps, j - |early|);
      assert OpenedAt(ccm, taken, results, |early|, p, j);
    }
  }

  lemma SealedSizes(ccm: Ccm, h: HostKeys, aa: bytes, crc: bytes, ps: seq<DataPacket>)
    requires Lawful(ccm) && h.encrypted && |aa| == 4 && |crc| == 3 && Sizes(ps, 251)
    ensures FrameSizes(HostBodies(ccm, h, aa, crc, ps), 0, 0xFFFF)
  {
    forall i | 0 <= i < |ps|
      ensures |HostBody(ccm, h, aa, crc, ps[i], i)| == |ps[i].payload| + 10
    {
      HostSendSealed(ccm, HostAfterTx(h, i), aa, ps[i].hdr, ps[i].payload, crc);
    }
  }

  // ---------- uplink ----------

  // The step transmits a packet.
  ghost predicate Transmits(ccm: Ccm, d: Phy, a: Action)
    requires Lawful(ccm) && Valid(d) && ValidAction(a)
  {
    d.status.Running? && a.Tx? && Step(ccm, d, a).status.Running?
  }

  ghost function Txs(ccm: Ccm, d0: Phy, actions: seq<Action>): seq<DataPacket>
    requires Lawful(ccm) && Valid(d0) && ValidActions(actions)
  {
    if actions == [] then []
    else
      var last := |actions| - 1;
      var a := actions[last];
      Txs(ccm, d0, actions[..last]) +
      if Transmits(ccm, Run(ccm, d0, actions[..last]), a) then [DataPacket(a.hdr, a.payload)] else []
  }

  // Whenever the stack transmits after the first n packets, it has set the counter to p's plus
  // the number of packets encrypted since.
  ghost predicate StackCountsTx(ccm: Ccm, d0: Phy, actions: seq<Action>, n: nat, p: PhyKeys, aa: bytes)
    requires Lawful(ccm) && Valid(d0) && ValidActions(actions)
  {
    actions != [] ==>
      var last := |actions| - 1;
      var d, txs := Run(ccm, d0, actions[..last]), Txs(ccm, d0, actions[..last]);
      && StackCountsTx(ccm, d0, actions[..last], n, p, aa)
      && (Transmits(ccm, d, actions[last]) && |txs| >= n ==>
            d.keys == PhyAfterTx(p, txs[n..]) && d.accessAddress == aa)
  }

  lemma StepSent(ccm: Ccm, d: Phy, a: Action)
    requires Lawful(ccm) && Valid(d) && ValidAction(a)
    ensures Transmits(ccm, d, a) ==>
              Step(ccm, d, a).sent == d.sent + [DriverSend(ccm, d.keys, d.accessAddress, a.hdr, a.payload)]
    ensures !Transmits(ccm, d, a) ==> Step(ccm, d, a).sent == d.sent
  {
    if d.status.Running? && a.Tx? {
      var packet := DriverSend(ccm, d.keys, d.accessAddress, a.hdr, a.payload);
      TxSent(d, a.hdr, |a.payload|, packet, Encode(UpMessage(packet)));
    } else if !a.Tx? && !a.TxChar? {
      OutputUntouched(ccm, d, a);
    }
  }

  lemma TxSent(d: Phy, hdr: byte, len: nat, packet: bytes, wire: bytes)
    requires Valid(d) && d.status.Running?
    ensures var d' := TxStep(d, hdr, len, packet, wire);
            d'.sent == if d'.status.Running? then d.sent + [packet] else d.sent
  {
  }

  ghost predicate SentAt(ccm: Ccm, sent: seq<bytes>, txs: seq<DataPacket>, n: nat, p: PhyKeys, aa: bytes, j: nat)
    requires n <= j < |txs| == |sent|
  {
    sent[j] == DriverSend(ccm, PhyAfterTx(p, txs[n..j]), aa, txs[j].hdr, txs[j].payload)
  }

  ghost predicate SentInOrder(ccm: Ccm, sent: seq<bytes>, txs: seq<DataPacket>, n: nat, p: PhyKeys, aa: bytes) {
    |sent| == |txs| && forall j | n <= j < |txs| :: SentAt(ccm, sent, txs, n, p, aa, j)
  }

  lemma OneMoreSent(ccm: Ccm, sent: seq<bytes>, txs: seq<DataPacket>, n: nat, p: PhyKeys, aa: bytes,
                    raw: bytes, t: DataPacket)
    requires SentInOrder(ccm, sent, txs, n, p, aa)
    requires |txs| >= n ==> raw == DriverSend(ccm, PhyAfterTx(p, txs[n..]), aa, t.hdr, t.payload)
    ensures SentInOrder(ccm, sent + [raw], txs + [t], n, p, aa)
  {
    var more := txs + [t];
    forall j | n <= j < |more|
      ensures SentAt(ccm, sent + [raw], more, n, p, aa, j)
    {
      assert more[n..j] == txs[n..j];
      if j < |txs| {
        assert SentAt(ccm, sent, txs, n, p, aa, j);
      } else {
        assert txs[n..j] == txs[n..];
      }
    }
  }

  lemma StepSends(ccm: Ccm, d: Phy, a: Action, txs: seq<DataPacket>, n: nat, p: PhyKeys, aa: bytes)
    requires Lawful(ccm) && Valid(d) && ValidAction(a) && SentInOrder(ccm, d.sent, txs, n, p, aa)
    requires Transmits(ccm, d, a) && |txs| >= n ==> d.keys == PhyAfterTx(p, txs[n..]) && d.accessAddress == aa
    ensures var more := if Transmits(ccm, d, a) then [DataPacket(a.hdr, a.payload)] else [];
            SentInOrder(ccm, Step(ccm, d, a).sent, txs + more, n, p, aa)
  {
    StepSent(ccm, d, a);
    if Transmits(ccm, d, a) {
      OneMoreSent(ccm, d.sent, txs, n, p, aa,
                  DriverSend(ccm, d.keys, d.accessAddress, a.hdr, a.payload), DataPacket(a.hdr, a.payload));
    } else {
      assert txs + [] == txs;
    }
  }

  lemma {:induction false} RunSends(ccm: Ccm, d0: Phy, actions: seq<Action>, n: nat, p: PhyKeys, aa: bytes)
    requires Lawful(ccm) && Valid(d0) && ValidActions(actions) && d0.sent == []
    requires StackCountsTx(ccm, d0, actions, n, p, aa)
    ensures SentInOrder(ccm, Run(ccm, d0, actions).sent, Txs(ccm, d0, actions), n, p, aa)
  {
    if actions != [] {
      var before := actions[..|actions| - 1];
      RunSends(ccm, d0, before, n, p, aa);
      StepSends(ccm, Run(ccm, d0, before), actions[|actions| - 1], Txs(ccm, d0, before), n, p, aa);
    }
  }

  // Main result. In every run in which the stack keeps the driver's counter from its n-th
  // transmission on, the host, which counts on its own, reads every packet that reaches it
  // from then on as the stack transmitted it.
  lemma EncryptedUplinkDelivered(ccm: Ccm, d0: Phy, actions: seq<Action>, n: nat, rx: HostRx, h: HostKeys,
                                 p: PhyKeys, aa: bytes)
    requires Lawful(ccm) && Valid(d0) && ValidActions(actions)
    requires d0.sent == [] && d0.uart == [] && d0.tx == [] && rx.input == Run(ccm, d0, actions).uart
    requires h.encrypted && SameEpoch(h, h.rxCount, p) && |aa| == 4 && aa != ADV_ACCESS_ADDRESS
    requires StackCountsTx(ccm, d0, actions, n, p, aa)
    requires forall j | n <= j < |Txs(ccm, d0, actions)| :: |Txs(ccm, d0, actions)[j].payload| <= 251
    ensures var received, txs := ReceiveAll(rx).1, Txs(ccm, d0, actions);
            && |received| <= |txs|
            && (Run(ccm, d0, actions).tx == [] ==> |received| == |txs|)
            && forall j | n <= j < |received| ::
                 OpenedByHost(ccm, h, received[n..])[j - n] == Some(Original(aa, txs[j]) + [0, 0, 0])
  {
    var received, txs := ReceiveAll(rx).1, Txs(ccm, d0, actions);
    UplinkDelivered(ccm, d0, actions, rx);
    RunSends(ccm, d0, actions, n, p, aa);
    if n < |received| {
      PacketsFrom(ccm, Run(ccm, d0, actions).sent, txs, n, p, aa);
      UplinkCounters(ccm, h, p, aa, txs[n..]);
      ReceivedRebuilt(ccm, received, Run(ccm, d0, actions).sent, txs, n, h, aa);
    }
  }

  lemma ReceivedRebuilt(ccm: Ccm, received: seq<bytes>, sent: seq<bytes>, txs: seq<DataPacket>, n: nat, h: HostKeys,
                        aa: bytes)
    requires received <= sent && |sent| == |txs| && n <= |received| && Sizes(txs[n..], 251)
    requires forall i | 0 <= i < |txs| - n :: RebuiltUp(OpenedByHost(ccm, h, sent[n..]), aa, txs[n..], i)
    ensures forall j | n <= j < |received| ::
              |txs[j].payload| <= 251
              && OpenedByHost(ccm, h, received[n..])[j - n] == Some(Original(aa, txs[j]) + [0, 0, 0])
  {
    forall j | n <= j < |received|
      ensures |txs[j].payload| <= 251
              && OpenedByHost(ccm, h, received[n..])[j - n] == Some(Original(aa, txs[j]) + [0, 0, 0])
    {
      assert txs[n..][j - n] == txs[j];
      assert RebuiltUp(OpenedByHost(ccm, h, sent[n..]), aa, txs[n..], j - n);
      assert received[n..][j - n] == sent[n..][j - n] && received[n..][..j - n] == sent[n..][..j - n];
    }
  }

  lemma PacketsFrom(ccm: Ccm, sent: seq<bytes>, txs: seq<DataPacket>, n: nat, p: PhyKeys, aa: bytes)
    requires n <= |txs| && SentInOrder(ccm, sent, txs, n, p, aa)
    ensures sent[n..] == DriverPackets(ccm, p, aa, txs[n..])
  {
    forall i | 0 <= i < |txs| - n
      ensures sent[n..][i] == DriverPackets(ccm, p, aa, txs[n..])[i]
    {
      assert txs[n..][..i] == txs[n..n + i];
      assert SentAt(ccm, sent, txs, n, p, aa, n + i);
    }
  }

  // ---------- the peer's PDUs ----------

  // The peer puts into every transmission the payload of its current PDU.
  ghost predicate Carries(ccm: Ccm, l: Link, actions: seq<Action>, content: nat -> bytes)
    requires Lawful(ccm) && Valid(l.phy) && ValidActions(actions)
  {
    actions != [] ==>
      var last := |actions| - 1;
      var before := LinkRun(ccm, l, actions[..last]);
      && Carries(ccm, l, actions[..last], content)
      && (SendsData(before.phy, actions[last]) ==> actions[last].payload == content(before.peer.current))
  }

  ghost predicate PayloadsAre(txs: seq<DataPacket>, pdus: seq<nat>, content: nat -> bytes) {
    |txs| == |pdus| && forall i | 0 <= i < |txs| :: txs[i].payload == content(pdus[i])
  }

  lemma {:induction false} LinkPhy(ccm: Ccm, l: Link, actions: seq<Action>)
    requires Lawful(ccm) && Valid(l.phy) && ValidActions(actions)
    ensures LinkRun(ccm, l, actions).phy == Run(ccm, l.phy, actions)
  {
    if actions != [] {
      LinkPhy(ccm, l, actions[..|actions| - 1]);
    }
  }

  lemma {:induction false} StaysOnData(ccm: Ccm, d0: Phy, actions: seq<Action>)
    requires Lawful(ccm) && Valid(d0) && ValidActions(actions) && OnDataChannels(d0, actions)
    ensures Run(ccm, d0, actions).channel < FIRST_ADV_CHANNEL
  {
    if actions != [] {
      var last := |actions| - 1;
      StaysOnData(ccm, d0, actions[..last]);
      StepChannel(ccm, Run(ccm, d0, actions[..last]), actions[last]);
    }
  }

  lemma StepLog(ccm: Ccm, l: Link, a: Action)
    requires Lawful(ccm) && Valid(l.phy) && ValidAction(a) && l.phy.channel < FIRST_ADV_CHANNEL
    ensures SentPdus(LinkStep(ccm, l, a).log) ==
            SentPdus(l.log) + if Transmits(ccm, l.phy, a) then [l.peer.current] else []
  {
    var log := LinkStep(ccm, l, a).log;
    if Transmits(ccm, l.phy, a) {
      SendLog(ccm, l, a);
      PdusMore(l.log, Sent(l.peer.current));
    } else if log != l.log {
      PdusMore(l.log, log[|l.log|]);
    }
  }

  lemma {:induction false} RunCarries(ccm: Ccm, l: Link, actions: seq<Action>, content: nat -> bytes)
    requires Lawful(ccm) && Valid(l.phy) && ValidActions(actions) && l.log == []
    requires OnDataChannels(l.phy, actions) && Carries(ccm, l, actions, content)
    ensures PayloadsAre(Txs(ccm, l.phy, actions), SentPdus(LinkRun(ccm, l, actions).log), content)
  {
    if actions != [] {
      var last := |actions| - 1;
      RunCarries(ccm, l, actions[..last], content);
      LinkPhy(ccm, l, actions[..last]);
      StaysOnData(ccm, l.phy, actions[..last]);
      StepLog(ccm, LinkRun(ccm, l, actions[..last]), actions[last]);
    }
  }

  // The keys and the access address with which a packet was transmitted.
  datatype Setting = Setting(keys: PhyKeys, aa: bytes)

  ghost function Settings(ccm: Ccm, d0: Phy, actions: seq<Action>): seq<Setting>
    requires Lawful(ccm) && Valid(d0) && ValidActions(actions)
  {
    if actions == [] then []
    else
      var last := |actions| - 1;
      var d := Run(ccm, d0, actions[..last]);
      Settings(ccm, d0, actions[..last]) +
      if Transmits(ccm, d, actions[last]) then [Setting(d.keys, d.accessAddress)] else []
  }

  // What ble_phy_tx makes of a packet with these settings.
  function Emitted(ccm: Ccm, s: Setting, t: DataPacket): bytes {
    DriverSend(ccm, s.keys, s.aa, t.hdr, t.payload)
  }

  ghost predicate AllEmitted(ccm: Ccm, sent: seq<bytes>, settings: seq<Setting>, txs: seq<DataPacket>) {
    && |sent| == |settings| == |txs|
    && forall i | 0 <= i < |sent| :: sent[i] == Emitted(ccm, settings[i], txs[i])
  }

  lemma {:induction false} SentAsSet(ccm: Ccm, d0: Phy, actions: seq<Action>)
    requires Lawful(ccm) && Valid(d0) && ValidActions(actions) && d0.sent == []
    ensures AllEmitted(ccm, Run(ccm, d0, actions).sent, Settings(ccm, d0, actions), Txs(ccm, d0, actions))
  {
    if actions != [] {
      var last := |actions| - 1;
      SentAsSet(ccm, d0, actions[..last]);
      StepSent(ccm, Run(ccm, d0, actions[..last]), actions[last]);
    }
  }

  // A packet that reaches the host carries the content of its PDU: in plain if it was
  // transmitted without encryption.
  ghost predicate CarriesPdu(ccm: Ccm, raw: bytes, s: Setting, hdr: byte, pdu: bytes) {
    && raw == DriverSend(ccm, s.keys, s.aa, hdr, pdu)
    && (!s.keys.enabled ==> raw == Pdu(s.aa, hdr, |pdu| % 256, pdu) + [0, 0, 0])
  }

  // Main result for the peer's PDUs. On data channels, in every interleaving, the packets that
  // reach the host are those that the peer transmitted, in order: the i-th one is what the
  // driver makes of the content of the PDU with the i-th number. These numbers leave none out,
  // so no PDU is lost; and none reaches the host twice if and only if the peer receives
  // something between any two transmissions, as the driver passes retransmissions on.
  lemma PdusDelivered(ccm: Ccm, l: Link, actions: seq<Action>, content: nat -> bytes, rx: HostRx)
    requires Lawful(ccm) && Valid(l.phy) && ValidPeer(l.peer) && l.log == [] && ValidActions(actions)
    requires AllConform(ccm, l, actions) && OnDataChannels(l.phy, actions) && Carries(ccm, l, actions, content)
    requires l.phy.sent == [] && l.phy.uart == [] && l.phy.tx == []
    requires LinkRun(ccm, l, actions).phy.status.Running? && rx.input == Run(ccm, l.phy, actions).uart
    ensures var log, txs := LinkRun(ccm, l, actions).log, Txs(ccm, l.phy, actions);
            var pdus, settings, received := SentPdus(log), Settings(ccm, l.phy, actions), ReceiveAll(rx).1;
            && |received| <= |pdus| == |txs| == |settings|
            && (Run(ccm, l.phy, actions).tx == [] ==> |received| == |pdus|)
            && (forall i | 0 <= i < |received| ::
                  CarriesPdu(ccm, received[i], settings[i], txs[i].hdr, content(pdus[i])))
            && NoGaps(pdus) && (Increasing(pdus) <==> AlwaysAnswered(log))
  {
    LinkPhy(ccm, l, actions);
    OneBitAcknowledgement(ccm, l, actions);
    RunCarries(ccm, l, actions, content);
    UplinkDelivered(ccm, l.phy, actions, rx);
    SentAsSet(ccm, l.phy, actions);
    ReceivedCarry(ccm, ReceiveAll(rx).1, Run(ccm, l.phy, actions).sent, Settings(ccm, l.phy, actions),
                  Txs(ccm, l.phy, actions), SentPdus(LinkRun(ccm, l, actions).log), content);
  }

  lemma ReceivedCarry(ccm: Ccm, received: seq<bytes>, sent: seq<bytes>, settings: seq<Setting>, txs: seq<DataPacket>,
                      pdus: seq<nat>, content: nat -> bytes)
    requires received <= sent && AllEmitted(ccm, sent, settings, txs) && PayloadsAre(txs, pdus, content)
    ensures forall i | 0 <= i < |received| ::
              CarriesPdu(ccm, received[i], settings[i], txs[i].hdr, content(pdus[i]))
  {
    forall i | 0 <= i < |received|
      ensures CarriesPdu(ccm, received[i], settings[i], txs[i].hdr, content(pdus[i]))
    {
      assert received[i] == sent[i] == Emitted(ccm, settings[i], txs[i]);
    }
  }
}
