/**
 Both serial directions from one side's packet to the other side's packet: the driver's state
 machine composed with the host's formats and with the encryption on both sides.
 */
module EndToEnd {
  import opened Bytes
  import opened Framing
  import opened LinkCrypto
  import opened PhyModel
  import opened Downlink

  // ---------- downlink ----------

  // A data packet as the host's packet builder makes it, with its CRC.
  function HostPacket(aa: bytes, hdr: byte, payload: bytes, crc: bytes): bytes
    requires |payload| <= 255
  {
    Pdu(aa, hdr, |payload|, payload) + crc
  }

  lemma FrameTaken(rx: bytes, body: bytes, behind: bytes)
    requires rx == DownFrame(body) + behind && 1 <= |body| <= 0xFFFF
    ensures PktLen(rx) == Some(|body|) && rx[3..3 + |body|] == body && rx[|body| + 4..] == behind
  {
    Le16RoundTrip(|body|);
    assert rx[1] == Le16(|body|)[0] && rx[2] == Le16(|body|)[1];
  }

  // An encrypted data packet of the host that has arrived completely is taken by the driver in
  // one step and offered to the link layer as the host's original, except for the sequence
  // bits and without a MIC mark, exactly when its payload has 1 to 250 bytes: an empty one is
  // not decrypted, and the 261 bytes of a full one do not fit into rx_buf.
  lemma EncryptedPacketOffered(ccm: Ccm, h: HostKeys, d: Phy, aa: bytes, hdr: byte, payload: bytes,
                               crc: bytes, behind: bytes)
    requires Lawful(ccm) && Valid(d) && d.status.Running? && d.pc.Testing?
    requires d.channel < FIRST_ADV_CHANNEL && h.encrypted && SameEpoch(h, h.txCount, d.keys)
    requires |aa| == 4 && aa != ADV_ACCESS_ADDRESS && |crc| == 3 && |payload| <= 251
    requires var sent := HostSend(ccm, h, true, HostPacket(aa, hdr, payload, crc));
             sent.Some? && d.rx == DownFrame(PySlice(sent.value, 0, -3)) + behind
    ensures var d' := Step(ccm, d, TestFifo);
            var fixed := aa + [WithSeqBits(hdr, d.rxSn, d.rxNesn), |payload|] + payload;
            d'.rx == behind && d'.offers == d.offers + [Offer(fixed, d.channel, d.llState, false)]
            <==> 1 <= |payload| <= 250
  {
    var sent := HostSend(ccm, h, true, HostPacket(aa, hdr, payload, crc));
    var body := PySlice(sent.value, 0, -3);
    HostSendSealed(ccm, h, aa, hdr, payload, crc);
    EncryptedDownlink(ccm, h, d.keys, aa, hdr, payload, crc);
    FrameTaken(d.rx, body, behind);
    SealedFrame(ccm, d, body, behind, aa, hdr, payload);
  }

  lemma SealedFrame(ccm: Ccm, d: Phy, body: bytes, behind: bytes, aa: bytes, hdr: byte, payload: bytes)
    requires Lawful(ccm) && Valid(d) && d.status.Running? && d.pc.Testing? && d.channel < FIRST_ADV_CHANNEL
    requires |aa| == 4 && aa != ADV_ACCESS_ADDRESS && |payload| <= 251
    requires |body| == |payload| + 10 && body[..4] == aa && body[5] == |payload| + 4
    requires DriverReceive(ccm, d.keys, body) == (true, Pdu(aa, hdr, |payload|, payload)) <==> |payload| >= 1
    requires PktLen(d.rx) == Some(|body|) && d.rx[3..3 + |body|] == body && d.rx[|body| + 4..] == behind
    ensures var d' := Step(ccm, d, TestFifo);
            var fixed := aa + [WithSeqBits(hdr, d.rxSn, d.rxNesn), |payload|] + payload;
            d'.rx == behind && d'.offers == d.offers + [Offer(fixed, d.channel, d.llState, false)]
            <==> 1 <= |payload| <= 250
  {
    if |payload| <= 250 {
      TakenPacketOffered(ccm, d, body, behind);
      OfferedOriginal(ccm, d, body, aa, hdr, payload);
      SameLast(d.offers, Step(ccm, d, TestFifo).offers);
    } else {
      assert Step(ccm, d, TestFifo) == Stop(d, RxBufferSize);
    }
  }

  lemma SameLast(offers: seq<Offer>, offers': seq<Offer>)
    requires |offers'| == |offers| + 1
    ensures forall o :: offers' == offers + [o] ==> offers'[|offers|] == o
  {
  }

  // What an iteration adds to the offers.
  ghost function Added(d: Phy, packet: bytes): seq<Offer>
    requires Valid(d) && (packet == [] || 6 <= |packet| <= RX_BUF_SIZE)
  {
    var offered := Offered(d, packet);
    if offered == [] then [] else [Offer(offered, d.channel, d.llState, !d.cryptoOk)]
  }

  lemma JudgeAdds(d: Phy, packet: bytes, ok: bool)
    requires Valid(d) && 6 <= |packet| <= RX_BUF_SIZE
    ensures var r, accept := Judge(d, packet, ok), Accepts(d, packet);
            r.offers == d.offers + if d.lastWasConn && d.channel >= FIRST_ADV_CHANNEL then []
                                   else Added(d.(cryptoOk := !accept || ok), if accept then packet else [])
  {
  }

  // What the step offers for a frame that is no advertising packet.
  lemma TakenPacketOffered(ccm: Ccm, d: Phy, body: bytes, behind: bytes)
    requires Lawful(ccm) && Valid(d) && d.status.Running? && d.pc.Testing?
    requires d.channel < FIRST_ADV_CHANNEL && 6 <= |body| <= RX_BUF_SIZE && body[..4] != ADV_ACCESS_ADDRESS
    requires PktLen(d.rx) == Some(|body|) && d.rx[3..3 + |body|] == body && d.rx[|body| + 4..] == behind
    ensures var (ok, plain) := DriverReceive(ccm, d.keys, body);
            var d' := Step(ccm, d, TestFifo);
            && |plain| >= 6 && d'.rx == behind
            && d'.offers == d.offers +
                            [Offer(plain[4 := WithSeqBits(plain[4], d.rxSn, d.rxNesn)], d.channel, d.llState, !ok)]
  {
    var (ok, plain) := DriverReceive(ccm, d.keys, body);
    StepJudges(ccm, d, |body|);
    SameAddress(ccm, d.keys, body);
    OfferedFixed(AfterRead(ccm, d, |body|), plain, ok);
  }

  lemma SameAddress(ccm: Ccm, k: PhyKeys, body: bytes)
    requires |body| >= 6
    ensures |DriverReceive(ccm, k, body).1| >= 6 && DriverReceive(ccm, k, body).1[..4] == body[..4]
  {
  }

  lemma StepJudges(ccm: Ccm, d: Phy, n: nat)
    requires Lawful(ccm) && Valid(d) && d.status.Running? && d.pc.Testing?
    requires PktLen(d.rx) == Some(n) && 6 <= n <= RX_BUF_SIZE && |d.rx| >= n + 4
    ensures var (ok, plain) := DriverReceive(ccm, d.keys, d.rx[3..3 + n]);
            6 <= |plain| <= RX_BUF_SIZE && Step(ccm, d, TestFifo) == Judge(AfterRead(ccm, d, n), plain, ok)
  {
  }

  lemma OfferedFixed(d: Phy, packet: bytes, ok: bool)
    requires Valid(d) && d.status.Running? && d.channel < FIRST_ADV_CHANNEL
    requires 6 <= |packet| <= RX_BUF_SIZE && packet[..4] != ADV_ACCESS_ADDRESS
    ensures var r := Judge(d, packet, ok);
            && r.rx == d.rx
            && r.offers == d.offers +
                           [Offer(packet[4 := WithSeqBits(packet[4], d.rxSn, d.rxNesn)], d.channel, d.llState, !ok)]
  {
    JudgeAdds(d, packet, ok);
    JudgeTransport(d, packet, ok);
  }

  lemma OfferedOriginal(ccm: Ccm, d: Phy, body: bytes, aa: bytes, hdr: byte, payload: bytes)
    requires Lawful(ccm) && Valid(d) && |aa| == 4 && |payload| <= 250 && |body| == |payload| + 10
    requires DriverReceive(ccm, d.keys, body) == (true, Pdu(aa, hdr, |payload|, payload)) <==> |payload| >= 1
    requires body[5] == |payload| + 4
    ensures var (ok, plain) := DriverReceive(ccm, d.keys, body);
            var fixed := aa + [WithSeqBits(hdr, d.rxSn, d.rxNesn), |payload|] + payload;
            |plain| >= 6
            && (plain[4 := WithSeqBits(plain[4], d.rxSn, d.rxNesn)] == fixed && ok <==> |payload| >= 1)
  {
    var (ok, plain) := DriverReceive(ccm, d.keys, body);
    if |payload| >= 1 {
      var fixed := aa + [WithSeqBits(hdr, d.rxSn, d.rxNesn), |payload|] + payload;
      assert plain[4 := WithSeqBits(plain[4], d.rxSn, d.rxNesn)] == fixed;
    }
  }

  // ---------- channels ----------

  // Advertising packets are offered on advertising channels only, others on data channels only.
  ghost predicate OffersMatchChannel(d: Phy) {
    && (d.channel < FIRST_ADV_CHANNEL ==> d.accessAddress != ADV_ACCESS_ADDRESS)
    && (forall i | 0 <= i < |d.offers| ::
          IsAdv(d.offers[i].packet) <==> d.offers[i].channel >= FIRST_ADV_CHANNEL)
  }

  // The stack never uses the advertising access address on a data channel.
  ghost predicate DataAddresses(actions: seq<Action>) {
    forall i | 0 <= i < |actions| :: actions[i].SetChan? && actions[i].chan < FIRST_ADV_CHANNEL ==>
                                       actions[i].aa != ADV_ACCESS_ADDRESS
  }

  lemma IterateMatches(d: Phy, i: nat, packet: bytes)
    requires Valid(d) && i < POLLS && (packet == [] || 6 <= |packet| <= RX_BUF_SIZE) && OffersMatchChannel(d)
    requires packet != [] ==> (IsAdv(packet) <==> d.channel >= FIRST_ADV_CHANNEL)
    ensures OffersMatchChannel(Iterate(d, i, packet))
  {
    var offered := if packet == [] then EmptyPacket(d) else packet;
    var fixed := offered[4 := WithSeqBits(offered[4], d.rxSn, d.rxNesn)];
    assert fixed[..4] == offered[..4];
    assert EmptyPacket(d)[..4] == d.accessAddress;
  }

  lemma JudgeMatches(d: Phy, packet: bytes, ok: bool)
    requires Valid(d) && 6 <= |packet| <= RX_BUF_SIZE && OffersMatchChannel(d)
    ensures OffersMatchChannel(Judge(d, packet, ok))
  {
    var accept := Accepts(d, packet);
    var d1 := d.(cryptoOk := !accept || ok);
    var d2 := d1.(lastWasConn := accept && IsConnectInd(packet));
    MatchKept(d, d1);
    MatchKept(d, d2);
    MatchKept(d, Stop(d1, NotOnDataChannel));
    IterateMatches(d2, 0, if accept then packet else []);
  }

  lemma TakeMatches(ccm: Ccm, d: Phy, n: nat)
    requires Lawful(ccm) && Valid(d) && n <= RX_BUF_SIZE && |d.rx| >= n + 4 && OffersMatchChannel(d)
    ensures OffersMatchChannel(TakeStep(ccm, d, n))
  {
    var (ok, plain) := DriverReceive(ccm, d.keys, d.rx[3..3 + n]);
    var d1 := AfterRead(ccm, d, n);
    MatchKept(d, d1);
    JudgeMatches(d1, Readable(d1.rxBuf, plain), ok);
  }

  lemma ResumeMatches(d: Phy)
    requires Valid(d) && d.pc.Polling? && OffersMatchChannel(d)
    ensures OffersMatchChannel(ResumeStep(d))
  {
    var d1 := d.(sentNonEmpty := false);
    var i := (if d.sentNonEmpty then 0 else d.pc.i) + 1;
    MatchKept(d, d1);
    if i < POLLS {
      IterateMatches(d1, i, []);
    }
  }

  lemma MatchKept(d: Phy, d': Phy)
    requires OffersMatchChannel(d) && d'.offers == d.offers
    requires d'.channel < FIRST_ADV_CHANNEL ==> d'.accessAddress != ADV_ACCESS_ADDRESS
    ensures OffersMatchChannel(d')
  {
  }

  ghost predicate SameOffers(d: Phy, d': Phy) {
    d'.offers == d.offers && d'.channel == d.channel && d'.accessAddress == d.accessAddress
  }

  lemma TxOffersNothing(d: Phy, hdr: byte, len: nat, packet: bytes, wire: bytes)
    requires Valid(d)
    ensures SameOffers(d, TxStep(d, hdr, len, packet, wire))
  {
  }

  lemma OffersUntouched(ccm: Ccm, d: Phy, a: Action)
    requires Lawful(ccm) && Valid(d) && ValidAction(a) && d.status.Running?
    requires !a.TestFifo? && !a.Resume? && !a.SetChan?
    ensures SameOffers(d, Step(ccm, d, a))
  {
    if a.Tx? {
      var packet := DriverSend(ccm, d.keys, d.accessAddress, a.hdr, a.payload);
      TxOffersNothing(d, a.hdr, |a.payload|, packet, Encode(UpMessage(packet)));
    }
  }

  lemma StepChannel(ccm: Ccm, d: Phy, a: Action)
    requires Lawful(ccm) && Valid(d) && ValidAction(a)
    ensures Step(ccm, d, a).channel == if a.SetChan? && d.status.Running? then a.chan else d.channel
  {
    if d.status.Running? {
      if a.TestFifo? {
        TestChannel(ccm, d);
      } else if a.Resume? {
        if d.pc.Polling? {
          ResumeChannel(d);
        }
      } else if !a.SetChan? {
        OffersUntouched(ccm, d, a);
      }
    }
  }

  lemma TestChannel(ccm: Ccm, d: Phy)
    requires Lawful(ccm) && Valid(d) && d.status.Running?
    ensures TestStep(ccm, d).channel == d.channel
  {
    if HeadComplete(d) && PktLen(d.rx).value <= RX_BUF_SIZE {
      TakeTransport(ccm, d, PktLen(d.rx).value);
    }
  }

  lemma ResumeChannel(d: Phy)
    requires Valid(d) && d.pc.Polling?
    ensures ResumeStep(d).channel == d.channel
  {
  }

  lemma StepMatches(ccm: Ccm, d: Phy, a: Action)
    requires Lawful(ccm) && Valid(d) && ValidAction(a) && OffersMatchChannel(d) && d.status.Running?
    requires a.SetChan? && a.chan < FIRST_ADV_CHANNEL ==> a.aa != ADV_ACCESS_ADDRESS
    ensures OffersMatchChannel(Step(ccm, d, a))
  {
    if a.TestFifo? {
      if d.pc.Testing? && PktLen(d.rx).Some? && 1 <= PktLen(d.rx).value <= RX_BUF_SIZE {
        TakeMatches(ccm, d, PktLen(d.rx).value);
      } else {
        MatchKept(d, Step(ccm, d, a));
      }
    } else if a.Resume? {
      if d.pc.Polling? {
        ResumeMatches(d);
      }
    } else {
      if !a.SetChan? {
        OffersUntouched(ccm, d, a);
      }
      MatchKept(d, Step(ccm, d, a));
    }
  }

  // In every run, whatever the host sends and whenever the stack changes the channel, no
  // advertising packet is offered on a data channel and no other packet on an advertising one.
  lemma {:induction false} ChannelSafety(ccm: Ccm, d0: Phy, actions: seq<Action>)
    requires Lawful(ccm) && Valid(d0) && ValidActions(actions) && DataAddresses(actions)
    requires OffersMatchChannel(d0)
    ensures OffersMatchChannel(Run(ccm, d0, actions))
  {
    if actions != [] {
      var last := |actions| - 1;
      ChannelSafety(ccm, d0, actions[..last]);
      if Run(ccm, d0, actions[..last]).status.Running? {
        StepMatches(ccm, Run(ccm, d0, actions[..last]), actions[last]);
      }
    }
  }

  // ---------- settings ----------

  // The position of the last action of a kind, or -1.
  ghost function LastAction(actions: seq<Action>, kind: Action -> bool): (i: int)
    ensures -1 <= i < |actions|
    ensures i >= 0 ==> kind(actions[i])
    ensures forall j | i < j < |actions| :: !kind(actions[j])
  {
    if actions == [] then -1
    else if kind(actions[|actions| - 1]) then |actions| - 1
    else LastAction(actions[..|actions| - 1], kind)
  }

  function Tunes(a: Action): bool { a.SetChan? }
  function Switches(a: Action): bool { a.EncryptEnable? || a.EncryptDisable? }
  function SetsKey(a: Action): bool { a.EncryptEnable? }
  function SetsIv(a: Action): bool { a.SetIv? }
  function SetsCounter(a: Action): bool { a.SetCounter? }

  ghost predicate SameTuning(d: Phy, r: Phy) {
    r.channel == d.channel && r.accessAddress == d.accessAddress && r.llState == d.llState
  }

  // What a step does to the settings.
  ghost predicate SettingsStep(d: Phy, a: Action, r: Phy) {
    && (if Tunes(a) then
          && r.channel == a.chan && r.accessAddress == a.aa
          && r.llState == (if 37 <= a.chan <= 39 then Advertising else Connection)
        else SameTuning(d, r))
    && r.keys.enabled == (if Switches(a) then a.EncryptEnable? else d.keys.enabled)
    && r.keys.key == (if SetsKey(a) then a.key else d.keys.key)
    && r.keys.iv == (if SetsIv(a) then a.iv else d.keys.iv)
    && r.keys.counter == (if SetsCounter(a) then a.counter else d.keys.counter)
  }

  lemma StepSettings(ccm: Ccm, d: Phy, a: Action)
    requires Lawful(ccm) && Valid(d) && ValidAction(a) && d.status.Running?
    ensures SettingsStep(d, a, Step(ccm, d, a))
  {
    match a {
      case RxChar(b) => RxCharSettings(d, b);
      case TestFifo =>
        if d.pc.Testing? {
          TestSettings(ccm, d);
        }
      case Resume =>
        if d.pc.Polling? {
          ResumeSettings(d);
        }
      case Tx(hdr, payload) =>
        var packet := DriverSend(ccm, d.keys, d.accessAddress, hdr, payload);
        TxSettings(d, hdr, |payload|, packet, Encode(UpMessage(packet)));
      case _ =>
    }
  }

  ghost predicate SameSettings(d: Phy, r: Phy) {
    SameTuning(d, r) && r.keys == d.keys
  }

  lemma RxCharSettings(d: Phy, b: byte)
    requires Valid(d)
    ensures SameSettings(d, RxCharStep(d, b))
  {
  }

  lemma TestSettings(ccm: Ccm, d: Phy)
    requires Lawful(ccm) && Valid(d) && d.status.Running?
    ensures SameSettings(d, TestStep(ccm, d))
  {
    if HeadComplete(d) && PktLen(d.rx).value <= RX_BUF_SIZE {
      TakeTransport(ccm, d, PktLen(d.rx).value);
    }
  }

  lemma ResumeSettings(d: Phy)
    requires Valid(d) && d.pc.Polling?
    ensures SameSettings(d, ResumeStep(d))
  {
  }

  lemma TxSettings(d: Phy, hdr: byte, len: nat, packet: bytes, wire: bytes)
    requires Valid(d)
    ensures SameSettings(d, TxStep(d, hdr, len, packet, wire))
  {
  }

  // The settings after a run are the last ones made: channel, access address and link layer
  // state, the encryption flag, the key, the IV and the counter.
  ghost predicate AsSet(d0: Phy, actions: seq<Action>, r: Phy) {
    TunedAsSet(d0, actions, r) && KeysAsSet(d0.keys, actions, r.keys)
  }

  ghost predicate TunedAsSet(d0: Phy, actions: seq<Action>, r: Phy) {
    var i := LastAction(actions, Tunes);
    if i < 0 then SameTuning(d0, r)
    else
      && r.channel == actions[i].chan && r.accessAddress == actions[i].aa
      && r.llState == if 37 <= actions[i].chan <= 39 then Advertising else Connection
  }

  ghost predicate KeysAsSet(k0: PhyKeys, actions: seq<Action>, k: PhyKeys) {
    && (var i := LastAction(actions, Switches);
        k.enabled == if i < 0 then k0.enabled else actions[i].EncryptEnable?)
    && (var i := LastAction(actions, SetsKey);
        k.key == if i < 0 then k0.key else actions[i].key)
    && (var i := LastAction(actions, SetsIv);
        k.iv == if i < 0 then k0.iv else actions[i].iv)
    && (var i := LastAction(actions, SetsCounter);
        k.counter == if i < 0 then k0.counter else actions[i].counter)
  }

  lemma {:induction false} SettingsAre(ccm: Ccm, d0: Phy, actions: seq<Action>)
    requires Lawful(ccm) && Valid(d0) && ValidActions(actions) && Run(ccm, d0, actions).status.Running?
    ensures AsSet(d0, actions, Run(ccm, d0, actions))
  {
    if actions != [] {
      var last := |actions| - 1;
      var d := Run(ccm, d0, actions[..last]);
      StoppedStays(ccm, d, actions[last]);
      SettingsAre(ccm, d0, actions[..last]);
      StepSettings(ccm, d, actions[last]);
      SetMore(d0, actions, d, Run(ccm, d0, actions));
    }
  }

  lemma StoppedStays(ccm: Ccm, d: Phy, a: Action)
    requires Lawful(ccm) && Valid(d) && ValidAction(a) && Step(ccm, d, a).status.Running?
    ensures d.status.Running?
  {
  }

  lemma SetMore(d0: Phy, actions: seq<Action>, d: Phy, r: Phy)
    requires actions != [] && AsSet(d0, actions[..|actions| - 1], d) && SettingsStep(d, actions[|actions| - 1], r)
    ensures AsSet(d0, actions, r)
  {
    TunedMore(d0, actions, d, r);
    KeysMore(d0, actions, d, r);
  }

  lemma TunedMore(d0: Phy, actions: seq<Action>, d: Phy, r: Phy)
    requires actions != [] && TunedAsSet(d0, actions[..|actions| - 1], d)
    requires SettingsStep(d, actions[|actions| - 1], r)
    ensures TunedAsSet(d0, actions, r)
  {
  }

  lemma KeysMore(d0: Phy, actions: seq<Action>, d: Phy, r: Phy)
    requires actions != [] && KeysAsSet(d0.keys, actions[..|actions| - 1], d.keys)
    requires SettingsStep(d, actions[|actions| - 1], r)
    ensures KeysAsSet(d0.keys, actions, r.keys)
  {
  }

  // ---------- uplink ----------

  // The serial output so far, and what still waits in the driver's buffer, are the frames of
  // the transmitted packets, in order.
  ghost predicate UplinkInv(d: Phy) {
    FrameSizes(d.sent, 0, 0xFFFF) && d.uart + d.tx == EncodeAll(UpMessages(d.sent))
  }

  lemma UpFrameAppended(sent: seq<bytes>, packet: bytes)
    ensures EncodeAll(UpMessages(sent + [packet])) == EncodeAll(UpMessages(sent)) + Encode(UpMessage(packet))
  {
    var one := [UpMessage(packet)];
    assert UpMessages(sent + [packet]) == UpMessages(sent) + one;
    EncodeAllConcat(UpMessages(sent), one);
    assert EncodeAll(one) == Encode(one[0]) + EncodeAll([]);
  }

  ghost predicate SameOutput(d: Phy, d': Phy) {
    d'.sent == d.sent && d'.uart == d.uart && d'.tx == d.tx
  }

  lemma TxOutput(d: Phy, hdr: byte, len: nat, packet: bytes, wire: bytes)
    requires Valid(d)
    ensures var d' := TxStep(d, hdr, len, packet, wire);
            || SameOutput(d, d')
            || (d'.uart == d.uart && d'.tx == d.tx + wire && d'.sent == d.sent + [packet])
  {
  }

  lemma TxKeepsUplink(d: Phy, d': Phy, packet: bytes, wire: bytes)
    requires UplinkInv(d) && |packet| <= 0xFFFF
    requires EncodeAll(UpMessages(d.sent + [packet])) == EncodeAll(UpMessages(d.sent)) + wire
    requires d'.uart == d.uart && d'.tx == d.tx + wire && d'.sent == d.sent + [packet]
    ensures UplinkInv(d')
  {
    Associative(d.uart, d.tx, wire);
  }

  lemma PacketSize(ccm: Ccm, d: Phy, hdr: byte, payload: bytes)
    requires Lawful(ccm) && Valid(d)
    ensures |DriverSend(ccm, d.keys, d.accessAddress, hdr, payload)| <= |payload| + 13
  {
  }

  // A transmission succeeds exactly if tx_buf can hold its packet and serial_tx_buf the frame: 15
  // bytes around the payload, and 4 more if it is encrypted.
  lemma TxRunsIff(ccm: Ccm, d: Phy, hdr: byte, payload: bytes)
    requires Lawful(ccm) && Valid(d) && d.status.Running?
    ensures var mic := if d.keys.enabled && payload != [] then 4 else 0;
            Step(ccm, d, Tx(hdr, payload)).status.Running? <==>
            |payload| <= 499 && |d.tx| + |payload| + mic + 15 <= 1024
  {
    var packet := DriverSend(ccm, d.keys, d.accessAddress, hdr, payload);
    WireSize(packet);
    TxRuns(d, hdr, |payload|, packet, Encode(UpMessage(packet)));
  }

  lemma TxRuns(d: Phy, hdr: byte, len: nat, packet: bytes, wire: bytes)
    requires Valid(d) && d.status.Running?
    ensures TxStep(d, hdr, len, packet, wire).status.Running? <==> len <= 499 && |d.tx| + |wire| <= 1024
  {
  }

  lemma FirstMoved(uart: bytes, tx: bytes)
    requires tx != []
    ensures uart + [tx[0]] + tx[1..] == uart + tx
  {
  }

  lemma OutputUntouched(ccm: Ccm, d: Phy, a: Action)
    requires Lawful(ccm) && Valid(d) && ValidAction(a) && !a.Tx? && !a.TxChar?
    ensures SameOutput(d, Step(ccm, d, a))
  {
    if a.TestFifo? && d.status.Running? {
      TestOutput(ccm, d);
    }
  }

  lemma TestOutput(ccm: Ccm, d: Phy)
    requires Lawful(ccm) && Valid(d) && d.status.Running?
    ensures SameOutput(d, TestStep(ccm, d))
  {
    if HeadComplete(d) && PktLen(d.rx).value <= RX_BUF_SIZE {
      TakeTransport(ccm, d, PktLen(d.rx).value);
    }
  }

  lemma StepKeepsUplink(ccm: Ccm, d: Phy, a: Action)
    requires Lawful(ccm) && Valid(d) && ValidAction(a) && UplinkInv(d) && d.status.Running?
    ensures UplinkInv(Step(ccm, d, a))
  {
    var d' := Step(ccm, d, a);
    if a.Tx? {
      var packet := DriverSend(ccm, d.keys, d.accessAddress, a.hdr, a.payload);
      var wire := Encode(UpMessage(packet));
      TxOutput(d, a.hdr, |a.payload|, packet, wire);
      if !SameOutput(d, d') {
        PacketSize(ccm, d, a.hdr, a.payload);
        UpFrameAppended(d.sent, packet);
        TxKeepsUplink(d, d', packet, wire);
      }
    } else if a.TxChar? {
      if d.tx != [] {
        FirstMoved(d.uart, d.tx);
      }
    } else {
      OutputUntouched(ccm, d, a);
    }
  }

  lemma {:induction false} RunKeepsUplink(ccm: Ccm, d0: Phy, actions: seq<Action>)
    requires Lawful(ccm) && Valid(d0) && ValidActions(actions) && UplinkInv(d0)
    ensures UplinkInv(Run(ccm, d0, actions))
  {
    if actions != [] {
      var last := |actions| - 1;
      RunKeepsUplink(ccm, d0, actions[..last]);
      if Run(ccm, d0, actions[..last]).status.Running? {
        StepKeepsUplink(ccm, Run(ccm, d0, actions[..last]), actions[last]);
      }
    }
  }

  // Main result. In every run, a host that reads what the driver has given to the UART so far
  // receives a beginning of the transmitted packets, in order and unchanged, and all of them
  // once the driver's buffer is empty.
  lemma UplinkDelivered(ccm: Ccm, d0: Phy, actions: seq<Action>, h: HostRx)
    requires Lawful(ccm) && Valid(d0) && ValidActions(actions)
    requires d0.sent == [] && d0.uart == [] && d0.tx == []
    requires h.input == Run(ccm, d0, actions).uart
    ensures var d := Run(ccm, d0, actions);
            && ReceiveAll(h).1 <= d.sent
            && (d.tx == [] ==> ReceiveAll(h).1 == d.sent && ReceiveAll(h).0.input == [])
  {
    var d := Run(ccm, d0, actions);
    assert UpMessages([]) == [];
    RunKeepsUplink(ccm, d0, actions);
    DriverStream(h, d.sent);
  }
}
