/**
 What the driver offers to the link layer: the packets it takes and accepts, each once and in
 order, and between them the empty packets of its polling loop.
 */
module OfferStreams {
  import opened Bytes
  import opened Framing
  import opened LinkCrypto
  import opened PhyModel
  import opened Downlink
  import opened EndToEnd
  import opened EncryptedStreams
  import opened Acknowledgement
  import opened Deliveries

  // What the driver makes of the frame at the head of its buffer: the packet it reads, the MIC
  // verdict, and whether it offers the packet.
  datatype Verdict = Verdict(packet: bytes, ok: bool, offered: bool)

  ghost function HeadVerdict(ccm: Ccm, d: Phy): (v: Verdict)
    requires Lawful(ccm) && Valid(d)
    requires PktLen(d.rx).Some? && 1 <= PktLen(d.rx).value <= RX_BUF_SIZE
    ensures 6 <= |v.packet| <= RX_BUF_SIZE
  {
    var (ok, plain) := DriverReceive(ccm, d.keys, Head(d));
    var packet := Readable(AfterRead(ccm, d, PktLen(d.rx).value).rxBuf, plain);
    var stops := d.lastWasConn && d.channel >= FIRST_ADV_CHANNEL;
    Verdict(packet, ok, Accepts(d, packet) && !stops)
  }

  // The verdicts of a run, one for each frame taken.
  ghost function Verdicts(ccm: Ccm, d0: Phy, actions: seq<Action>): seq<Verdict>
    requires Lawful(ccm) && Valid(d0) && ValidActions(actions)
  {
    if actions == [] then []
    else
      var last := |actions| - 1;
      var d := Run(ccm, d0, actions[..last]);
      Verdicts(ccm, d0, actions[..last]) + if Takes(d, actions[last]) then [HeadVerdict(ccm, d)] else []
  }

  // The step offers the packet that it takes.
  ghost predicate OffersTaken(ccm: Ccm, d: Phy, a: Action)
    requires Lawful(ccm) && Valid(d)
  {
    Takes(d, a) && HeadVerdict(ccm, d).offered
  }

  ghost function NewOffers(ccm: Ccm, d: Phy, a: Action): seq<Offer>
    requires Lawful(ccm) && Valid(d) && ValidAction(a)
  {
    var d' := Step(ccm, d, a);
    if |d.offers| <= |d'.offers| then d'.offers[|d.offers|..] else []
  }

  // The offers of a run that are packets taken from the buffer, and the others.
  ghost function PacketOffers(ccm: Ccm, d0: Phy, actions: seq<Action>): seq<Offer>
    requires Lawful(ccm) && Valid(d0) && ValidActions(actions)
  {
    if actions == [] then []
    else
      var last := |actions| - 1;
      var d := Run(ccm, d0, actions[..last]);
      PacketOffers(ccm, d0, actions[..last]) +
      if OffersTaken(ccm, d, actions[last]) then NewOffers(ccm, d, actions[last]) else []
  }

  ghost function PollOffers(ccm: Ccm, d0: Phy, actions: seq<Action>): seq<Offer>
    requires Lawful(ccm) && Valid(d0) && ValidActions(actions)
  {
    if actions == [] then []
    else
      var last := |actions| - 1;
      var d := Run(ccm, d0, actions[..last]);
      PollOffers(ccm, d0, actions[..last]) +
      if OffersTaken(ccm, d, actions[last]) then [] else NewOffers(ccm, d, actions[last])
  }

  // all is a and b, each in order.
  ghost predicate Merge<T(!new)>(all: seq<T>, a: seq<T>, b: seq<T>) {
    if all == [] then a == [] && b == []
    else
      var last := |all| - 1;
      || (a != [] && a[|a| - 1] == all[last] && Merge(all[..last], a[..|a| - 1], b))
      || (b != [] && b[|b| - 1] == all[last] && Merge(all[..last], a, b[..|b| - 1]))
  }

  // An empty data packet.
  ghost predicate IsPollOffer(o: Offer) {
    && |o.packet| == 6 && o.packet[5] == 0 && o.packet[4] % 4 == 1 && o.packet[4] < 16
    && o.channel < FIRST_ADV_CHANNEL
  }

  // For the access address, the channel and the state in force.
  ghost predicate IsPollOf(o: Offer, d: Phy) {
    IsPollOffer(o) && o.packet[..4] == d.accessAddress && o.channel == d.channel && o.llState == d.llState
  }

  // The packet is offered as it was read, but for the sequence bits of a data packet, and with
  // its MIC mark.
  ghost predicate OfferedAs(o: Offer, v: Verdict) {
    && |v.packet| >= 6 && |o.packet| == |v.packet| && o.micFailure == !v.ok
    && o.packet == if IsAdv(v.packet) then v.packet
                   else v.packet[4 := WithSeqBits(v.packet[4], Sn(o.packet[4]), Nesn(o.packet[4]))]
  }

  // The offers are those of the offered packets, in order, each once.
  ghost predicate InOrderOnce(offers: seq<Offer>, verdicts: seq<Verdict>) {
    if verdicts == [] then offers == []
    else
      var v := verdicts[|verdicts| - 1];
      if v.offered then
        && offers != [] && OfferedAs(offers[|offers| - 1], v)
        && InOrderOnce(offers[..|offers| - 1], verdicts[..|verdicts| - 1])
      else InOrderOnce(offers, verdicts[..|verdicts| - 1])
  }

  // ---------- one step ----------

  lemma PollAdded(d: Phy)
    requires Valid(d)
    ensures var added := Added(d, []);
            |added| <= 1 && forall i | 0 <= i < |added| :: IsPollOf(added[i], d)
  {
    PollHeader(d.rxSn, d.rxNesn);
  }

  lemma PollHeader(sn: int, nesn: int)
    requires 0 <= sn <= 1 && 0 <= nesn <= 1
    ensures WithSeqBits(0x01, sn, nesn) % 4 == 1 && WithSeqBits(0x01, sn, nesn) < 16
  {
    assert WithSeqBits(0x01, sn, nesn) == sn * 8 + nesn * 4 + 1;
  }

  lemma PacketAdded(d: Phy, v: Verdict)
    requires Valid(d) && 6 <= |v.packet| <= RX_BUF_SIZE && d.cryptoOk == v.ok
    ensures var added := Added(d, v.packet);
            |added| == 1 && OfferedAs(added[0], v) && added[0].channel == d.channel && added[0].llState == d.llState
  {
    SeqBitsAt(v.packet[4], d.rxSn, d.rxNesn);
  }

  // A step that takes a frame offers it, or at most an empty packet instead.
  lemma TakeAdds(ccm: Ccm, d: Phy)
    requires Lawful(ccm) && Valid(d) && d.status.Running? && Takes(d, TestFifo)
    ensures var r, v := TestStep(ccm, d), HeadVerdict(ccm, d);
            && |r.offers| >= |d.offers| && r.offers[..|d.offers|] == d.offers
            && var added := r.offers[|d.offers|..];
               if v.offered then
                 && |added| == 1 && OfferedAs(added[0], v)
                 && added[0].channel == d.channel && added[0].llState == d.llState
               else |added| <= 1 && forall i | 0 <= i < |added| :: IsPollOf(added[i], d)
  {
    var n, v := PktLen(d.rx).value, HeadVerdict(ccm, d);
    var d1 := AfterRead(ccm, d, n);
    JudgeAdds(d1, v.packet, v.ok);
    if v.offered {
      PacketAdded(d1.(cryptoOk := v.ok), v);
    } else {
      PollAdded(d1.(cryptoOk := !Accepts(d1, v.packet) || v.ok));
    }
  }

  lemma ResumeAdds(d: Phy)
    requires Valid(d) && d.pc.Polling?
    ensures var r := ResumeStep(d);
            && |r.offers| >= |d.offers| && r.offers[..|d.offers|] == d.offers
            && var added := r.offers[|d.offers|..];
               |added| <= 1 && forall i | 0 <= i < |added| :: IsPollOf(added[i], d)
  {
    PollAdded(d.(sentNonEmpty := false));
  }

  lemma QuietTest(ccm: Ccm, d: Phy)
    requires Lawful(ccm) && Valid(d) && d.status.Running? && d.pc.Testing? && !Takes(d, TestFifo)
    ensures TestStep(ccm, d).offers == d.offers
  {
  }

  // Every step adds at most one offer: the packet it takes, or an empty one.
  ghost predicate AddsOne(ccm: Ccm, d: Phy, a: Action)
    requires Lawful(ccm) && Valid(d) && ValidAction(a)
  {
    var added := NewOffers(ccm, d, a);
    && Step(ccm, d, a).offers == d.offers + added
    && if OffersTaken(ccm, d, a) then
         && |added| == 1 && OfferedAs(added[0], HeadVerdict(ccm, d))
         && added[0].channel == d.channel && added[0].llState == d.llState
       else |added| <= 1 && forall i | 0 <= i < |added| :: IsPollOf(added[i], d)
  }

  lemma StepAdds(ccm: Ccm, d: Phy, a: Action)
    requires Lawful(ccm) && Valid(d) && ValidAction(a)
    ensures AddsOne(ccm, d, a)
  {
    if d.status.Running? && a.TestFifo? && d.pc.Testing? {
      TestAddsOne(ccm, d);
    } else if d.status.Running? && a.Resume? && d.pc.Polling? {
      ResumeAddsOne(ccm, d);
    } else {
      OffersKept(ccm, d, a);
    }
  }

  lemma TestAddsOne(ccm: Ccm, d: Phy)
    requires Lawful(ccm) && Valid(d) && d.status.Running? && d.pc.Testing?
    ensures AddsOne(ccm, d, TestFifo)
  {
    assert Step(ccm, d, TestFifo) == TestStep(ccm, d);
    if Takes(d, TestFifo) {
      TakeAdds(ccm, d);
    } else {
      QuietTest(ccm, d);
    }
  }

  lemma ResumeAddsOne(ccm: Ccm, d: Phy)
    requires Lawful(ccm) && Valid(d) && d.status.Running? && d.pc.Polling?
    ensures AddsOne(ccm, d, Resume)
  {
    assert Step(ccm, d, Resume) == ResumeStep(d);
    ResumeAdds(d);
  }

  lemma OffersKept(ccm: Ccm, d: Phy, a: Action)
    requires Lawful(ccm) && Valid(d) && ValidAction(a)
    requires !(d.status.Running? && a.TestFifo? && d.pc.Testing?)
    requires !(d.status.Running? && a.Resume? && d.pc.Polling?)
    ensures Step(ccm, d, a).offers == d.offers
  {
    if d.status.Running? && !a.TestFifo? && !a.Resume? && !a.SetChan? {
      OffersUntouched(ccm, d, a);
    }
  }

  // ---------- runs ----------

  lemma {:induction false} MergeMore<T(!new)>(all: seq<T>, a: seq<T>, b: seq<T>, x: T)
    requires Merge(all, a, b)
    ensures Merge(all + [x], a + [x], b) && Merge(all + [x], a, b + [x])
  {
    assert (all + [x])[..|all|] == all && (a + [x])[..|a|] == a && (b + [x])[..|b|] == b;
  }

  ghost predicate OffersInv(d0: Phy, d: Phy, packets: seq<Offer>, polls: seq<Offer>, verdicts: seq<Verdict>) {
    && d0.offers <= d.offers && Merge(d.offers[|d0.offers|..], packets, polls)
    && InOrderOnce(packets, verdicts) && |verdicts| == |d.taken| - |d0.taken|
    && forall i | 0 <= i < |polls| :: IsPollOffer(polls[i])
  }

  lemma {:induction false} OnceMore(packets: seq<Offer>, verdicts: seq<Verdict>, o: Offer, v: Verdict)
    requires InOrderOnce(packets, verdicts)
    ensures v.offered && OfferedAs(o, v) ==> InOrderOnce(packets + [o], verdicts + [v])
    ensures !v.offered ==> InOrderOnce(packets, verdicts + [v])
  {
    assert (verdicts + [v])[..|verdicts|] == verdicts && (packets + [o])[..|packets|] == packets;
  }

  lemma StepKeepsOffers(ccm: Ccm, d0: Phy, d: Phy, a: Action, packets: seq<Offer>, polls: seq<Offer>,
                        verdicts: seq<Verdict>)
    requires Lawful(ccm) && Valid(d) && ValidAction(a) && OffersInv(d0, d, packets, polls, verdicts)
    ensures var added := NewOffers(ccm, d, a);
            OffersInv(d0, Step(ccm, d, a),
                      packets + if OffersTaken(ccm, d, a) then added else [],
                      polls + if OffersTaken(ccm, d, a) then [] else added,
                      verdicts + if Takes(d, a) then [HeadVerdict(ccm, d)] else [])
  {
    StepAdds(ccm, d, a);
    StepTaken(ccm, d, a);
    OffersMore(d0, d, Step(ccm, d, a), packets, polls, verdicts, NewOffers(ccm, d, a), OffersTaken(ccm, d, a),
               if Takes(d, a) then [HeadVerdict(ccm, d)] else []);
  }

  lemma {:induction false} OffersMore(d0: Phy, d: Phy, d': Phy, packets: seq<Offer>, polls: seq<Offer>,
                                      verdicts: seq<Verdict>,
                   added: seq<Offer>, taken: bool, v: seq<Verdict>)
    requires OffersInv(d0, d, packets, polls, verdicts) && d'.offers == d.offers + added
    requires |v| <= 1 && |d'.taken| == |d.taken| + |v| && |added| <= 1
    requires taken ==> |v| == 1 && v[0].offered && |added| == 1 && OfferedAs(added[0], v[0])
    requires !taken ==> (v != [] ==> !v[0].offered) && forall i | 0 <= i < |added| :: IsPollOffer(added[i])
    ensures OffersInv(d0, d', packets + if taken then added else [], polls + if taken then [] else added, verdicts + v)
  {
    var all := d.offers[|d0.offers|..];
    assert d'.offers[|d0.offers|..] == all + added;
    if added != [] {
      assert added == [added[0]];
      MergeMore(all, packets, polls, added[0]);
    }
    assert packets + [] == packets && polls + [] == polls && all + [] == all;
    if v == [] {
      assert verdicts + v == verdicts;
    } else {
      assert v == [v[0]];
      OnceMore(packets, verdicts, if taken then added[0] else Offer([], 0, NoState, false), v[0]);
      assert taken ==> added == [added[0]];
    }
  }

  // Main result for the offers. In every run, whatever the stack does, the offers are those of
  // the packets taken and offered, each once and in order, unchanged but for the sequence bits
  // and with the right MIC mark, and empty packets on data channels between them.
  lemma {:induction false} OffersAreTaken(ccm: Ccm, d0: Phy, actions: seq<Action>)
    requires Lawful(ccm) && Valid(d0) && ValidActions(actions)
    ensures OffersInv(d0, Run(ccm, d0, actions), PacketOffers(ccm, d0, actions), PollOffers(ccm, d0, actions),
                      Verdicts(ccm, d0, actions))
  {
    if actions != [] {
      var before := actions[..|actions| - 1];
      OffersAreTaken(ccm, d0, before);
      StepKeepsOffers(ccm, d0, Run(ccm, d0, before), actions[|actions| - 1], PacketOffers(ccm, d0, before),
                      PollOffers(ccm, d0, before), Verdicts(ccm, d0, before));
    }
  }

  // ---------- encrypted packets ----------

  // All frames after the first n are taken on data channels.
  ghost predicate TakenOnData(ccm: Ccm, d0: Phy, actions: seq<Action>, n: nat)
    requires Lawful(ccm) && Valid(d0) && ValidActions(actions)
  {
    actions != [] ==>
      var last := |actions| - 1;
      var d := Run(ccm, d0, actions[..last]);
      && TakenOnData(ccm, d0, actions[..last], n)
      && (Takes(d, actions[last]) && |d.taken| >= n ==> d.channel < FIRST_ADV_CHANNEL)
  }

  ghost predicate VerdictOf(v: Verdict, r: (bool, bytes)) {
    v.ok == r.0 && (|r.1| >= 6 ==> v.packet == r.1)
  }

  ghost predicate SameVerdicts(verdicts: seq<Verdict>, results: seq<(bool, bytes)>, n: nat) {
    && |verdicts| == |results|
    && (forall j | 0 <= j < |verdicts| :: VerdictOf(verdicts[j], results[j]))
    && (forall j | n <= j < |verdicts| :: verdicts[j].offered == !IsAdv(verdicts[j].packet))
  }

  lemma HeadVerdictOf(ccm: Ccm, d: Phy)
    requires Lawful(ccm) && Valid(d)
    requires PktLen(d.rx).Some? && 1 <= PktLen(d.rx).value <= RX_BUF_SIZE
    ensures VerdictOf(HeadVerdict(ccm, d), DriverReceive(ccm, d.keys, Head(d)))
    ensures d.channel < FIRST_ADV_CHANNEL ==>
              HeadVerdict(ccm, d).offered == !IsAdv(HeadVerdict(ccm, d).packet)
  {
  }

  lemma {:induction false} RunVerdicts(ccm: Ccm, d0: Phy, actions: seq<Action>, n: nat)
    requires Lawful(ccm) && Valid(d0) && ValidActions(actions) && d0.taken == []
    requires TakenOnData(ccm, d0, actions, n)
    ensures SameVerdicts(Verdicts(ccm, d0, actions), Opens(ccm, d0, actions), n)
    ensures |Verdicts(ccm, d0, actions)| == |Run(ccm, d0, actions).taken|
  {
    if actions != [] {
      var last := |actions| - 1;
      var d := Run(ccm, d0, actions[..last]);
      RunVerdicts(ccm, d0, actions[..last], n);
      StepTaken(ccm, d, actions[last]);
      if Takes(d, actions[last]) {
        HeadVerdictOf(ccm, d);
      }
    }
  }

  ghost predicate LastAt(offers: seq<Offer>, verdicts: seq<Verdict>, j: nat)
    requires j < |verdicts| <= |offers| + j
  {
    OfferedAs(offers[|offers| - |verdicts| + j], verdicts[j])
  }

  // If all verdicts from n on are offers, the last offers are theirs, one by one.
  lemma {:induction false} LastOffers(offers: seq<Offer>, verdicts: seq<Verdict>, n: nat)
    requires n <= |verdicts| && InOrderOnce(offers, verdicts)
    requires forall j | n <= j < |verdicts| :: verdicts[j].offered
    ensures |verdicts| <= |offers| + n
    ensures forall j | n <= j < |verdicts| :: LastAt(offers, verdicts, j)
    decreases |verdicts|
  {
    if n < |verdicts| {
      var o, v := offers[..|offers| - 1], verdicts[..|verdicts| - 1];
      LastOffers(o, v, n);
      forall j | n <= j < |verdicts|
        ensures LastAt(offers, verdicts, j)
      {
        if j < |v| {
          assert LastAt(o, v, j);
        }
      }
    }
  }

  // Main result for encrypted packets: in every run in which the stack keeps the counter and
  // the driver takes the encrypted packets on data channels, the last packets that it offers,
  // empty ones aside, are the host's originals, one by one, but for the sequence bits and
  // without MIC mark.
  lemma EncryptedDownlinkOffered(ccm: Ccm, d0: Phy, actions: seq<Action>, logTx: byte, early: seq<bytes>,
                                 h: HostKeys, p: PhyKeys, aa: bytes, crc: bytes, ps: seq<DataPacket>)
    requires Lawful(ccm) && Fresh(d0) && ValidActions(actions) && FrameSizes(early, 0, 0xFFFF)
    requires h.encrypted && SameEpoch(h, h.txCount, p) && |aa| == 4 && aa != ADV_ACCESS_ADDRESS && |crc| == 3
    requires Sizes(ps, 251) && forall i | 0 <= i < |ps| :: ps[i].payload != []
    requires Arrived(actions) <= HostStream(logTx, early + HostBodies(ccm, h, aa, crc, ps))
    requires |Arrived(actions)| <= UINT32 && StackCounts(ccm, d0, actions, |early|, p)
    requires TakenOnData(ccm, d0, actions, |early|)
    ensures var taken, offers := |Run(ccm, d0, actions).taken|, PacketOffers(ccm, d0, actions);
            && taken <= |early| + |ps|
            && (taken > |early| ==> EndsWithOriginals(offers, taken - |early|, aa, ps))
  {
    var verdicts, results := Verdicts(ccm, d0, actions), Opens(ccm, d0, actions);
    Decrypts(ccm, d0, actions, logTx, early, h, p, aa, crc, ps);
    RunInOrder(ccm, d0, actions);
    RunVerdicts(ccm, d0, actions, |early|);
    if |early| < |verdicts| {
      OriginalsOffered(PacketOffers(ccm, d0, actions), verdicts, results, |early|, aa, ps);
    }
  }

  ghost predicate ResultsAre(results: seq<(bool, bytes)>, n: nat, aa: bytes, ps: seq<DataPacket>)
    requires Sizes(ps, 251)
  {
    |results| <= n + |ps| && forall j | n <= j < |results| :: results[j] == (true, Original(aa, ps[j - n]))
  }

  lemma Decrypts(ccm: Ccm, d0: Phy, actions: seq<Action>, logTx: byte, early: seq<bytes>,
                 h: HostKeys, p: PhyKeys, aa: bytes, crc: bytes, ps: seq<DataPacket>)
    requires Lawful(ccm) && Fresh(d0) && ValidActions(actions) && FrameSizes(early, 0, 0xFFFF)
    requires h.encrypted && SameEpoch(h, h.txCount, p) && |aa| == 4 && |crc| == 3
    requires Sizes(ps, 251) && forall i | 0 <= i < |ps| :: ps[i].payload != []
    requires Arrived(actions) <= HostStream(logTx, early + HostBodies(ccm, h, aa, crc, ps))
    requires |Arrived(actions)| <= UINT32 && StackCounts(ccm, d0, actions, |early|, p)
    ensures ResultsAre(Opens(ccm, d0, actions), |early|, aa, ps)
  {
    EncryptedDownlinkDelivered(ccm, d0, actions, logTx, early, h, p, aa, crc, ps);
    assert |HostBodies(ccm, h, aa, crc, ps)| == |ps|;
  }

  lemma RunInOrder(ccm: Ccm, d0: Phy, actions: seq<Action>)
    requires Lawful(ccm) && Valid(d0) && ValidActions(actions)
    ensures InOrderOnce(PacketOffers(ccm, d0, actions), Verdicts(ccm, d0, actions))
  {
    OffersAreTaken(ccm, d0, actions);
  }

  lemma OriginalsOffered(offers: seq<Offer>, verdicts: seq<Verdict>, results: seq<(bool, bytes)>, n: nat, aa: bytes,
                         ps: seq<DataPacket>)
    requires SameVerdicts(verdicts, results, n) && InOrderOnce(offers, verdicts)
    requires |aa| == 4 && aa != ADV_ACCESS_ADDRESS && Sizes(ps, 251) && n <= |verdicts|
    requires ResultsAre(results, n, aa, ps)
    ensures EndsWithOriginals(offers, |verdicts| - n, aa, ps)
  {
    OriginalVerdicts(verdicts, results, aa, ps, n);
    LastAreOriginals(offers, verdicts, n, aa, ps);
  }

  // The last k offers are the first k originals.
  ghost predicate EndsWithOriginals(offers: seq<Offer>, k: nat, aa: bytes, ps: seq<DataPacket>)
    requires Sizes(ps, 251)
  {
    && k <= |offers| && k <= |ps|
    && var tail := offers[|offers| - k..];
       forall i | 0 <= i < k :: OfferedAs(tail[i], Verdict(Original(aa, ps[i]), true, true))
  }

  lemma LastAreOriginals(offers: seq<Offer>, verdicts: seq<Verdict>, n: nat, aa: bytes, ps: seq<DataPacket>)
    requires n <= |verdicts| <= n + |ps| && Sizes(ps, 251) && InOrderOnce(offers, verdicts)
    requires forall j | n <= j < |verdicts| :: verdicts[j] == Verdict(Original(aa, ps[j - n]), true, true)
    ensures EndsWithOriginals(offers, |verdicts| - n, aa, ps)
  {
    LastOffers(offers, verdicts, n);
    var k := |verdicts| - n;
    var tail := offers[|offers| - k..];
    forall i | 0 <= i < k
      ensures OfferedAs(tail[i], Verdict(Original(aa, ps[i]), true, true))
    {
      assert verdicts[n + i] == Verdict(Original(aa, ps[i]), true, true);
      assert LastAt(offers, verdicts, n + i);
    }
  }

  lemma OriginalVerdicts(verdicts: seq<Verdict>, results: seq<(bool, bytes)>, aa: bytes, ps: seq<DataPacket>, n: nat)
    requires SameVerdicts(verdicts, results, n) && |aa| == 4 && aa != ADV_ACCESS_ADDRESS && Sizes(ps, 251)
    requires n <= |verdicts| <= n + |ps|
    requires forall j | n <= j < |verdicts| :: results[j] == (true, Original(aa, ps[j - n]))
    ensures forall j | n <= j < |verdicts| :: verdicts[j] == Verdict(Original(aa, ps[j - n]), true, true)
  {
    forall j | n <= j < |verdicts|
      ensures verdicts[j] == Verdict(Original(aa, ps[j - n]), true, true)
    {
      assert VerdictOf(verdicts[j], results[j]);
      assert Original(aa, ps[j - n])[..4] == aa;
    }
  }

  // ---------- packets of the host at the link layer ----------

  // A packet of the host that is taken and offered on a data channel is new data for the peer
  // if and only if the peer's last event was a transmission: if anything has been offered to
  // it since, be it an empty packet of the polling loop, it drops the packet as a
  // retransmission.
  lemma HostPacketIsNew(ccm: Ccm, l: Link, actions: seq<Action>)
    requires Lawful(ccm) && Valid(l.phy) && ValidPeer(l.peer) && l.log == [] && ValidActions(actions)
    requires AllConform(ccm, l, actions)
    requires var r := LinkRun(ccm, l, actions);
             && r.phy.status.Running? && r.phy.channel < FIRST_ADV_CHANNEL && Acknowledgement.LastSent(r.log) >= 0
             && OffersTaken(ccm, r.phy, TestFifo)
    ensures var r := LinkRun(ccm, l, actions);
            var isNew := r.log[|r.log| - 1].Sent?;
            LinkStep(ccm, r, TestFifo).log == r.log + [Got(isNew, isNew)]
  {
    var r := LinkRun(ccm, l, actions);
    OneBitAcknowledgement(ccm, l, actions);
    TakeAdds(ccm, r.phy);
    StepSequence(ccm, r.phy, TestFifo);
    AnswerIs(r);
    TakenIsData(ccm, r.phy);
    DataOffered(ccm, r);
  }

  lemma TakenIsData(ccm: Ccm, d: Phy)
    requires Lawful(ccm) && Valid(d) && d.channel < FIRST_ADV_CHANNEL && OffersTaken(ccm, d, TestFifo)
    ensures Step(ccm, d, TestFifo) == TestStep(ccm, d) && TestStep(ccm, d).status.Running?
    ensures OffersData(d, TestStep(ccm, d))
  {
    TakeTransport(ccm, d, PktLen(d.rx).value);
    TakeAdds(ccm, d);
  }

  lemma DataOffered(ccm: Ccm, l: Link)
    requires Lawful(ccm) && Valid(l.phy) && l.phy.status.Running? && Step(ccm, l.phy, TestFifo).status.Running?
    requires OffersData(l.phy, Step(ccm, l.phy, TestFifo))
    ensures LinkStep(ccm, l, TestFifo).log == l.log + [Receive(l.peer, l.phy.rxSn, l.phy.rxNesn).1]
  {
    StepSequence(ccm, l.phy, TestFifo);
  }

  lemma AnswerIs(l: Link)
    requires LinkInv(l) && Acknowledgement.LastSent(l.log) >= 0
    ensures var isNew := l.log[|l.log| - 1].Sent?;
            Receive(l.peer, l.phy.rxSn, l.phy.rxNesn).1 == Got(isNew, isNew)
  {
    SentIsLast(l.log);
  }

  // ---------- which packets are offered ----------

  // The four bytes of the advertising access address.
  predicate AdvBytes(body: bytes)
    requires |body| >= 4
  {
    body[0] == 0xD6 && body[1] == 0xBE && body[2] == 0x89 && body[3] == 0x8E
  }

  // A packet of the channel's own kind: 37 and up are advertising channels.
  predicate OwnKind(channel: nat, body: bytes)
    requires |body| >= 4
  {
    channel >= 37 <==> AdvBytes(body)
  }

  // What the driver reads of the frame at its head: the address is never changed; without
  // encryption it is the whole body; and a body of less than 6 bytes is filled up from what is
  // left in rx_buf of the frame's first three bytes and of earlier packets.
  lemma HeadPacket(ccm: Ccm, d: Phy)
    requires Lawful(ccm) && Valid(d)
    requires PktLen(d.rx).Some? && 1 <= PktLen(d.rx).value <= RX_BUF_SIZE
    ensures var body, v := Head(d), HeadVerdict(ccm, d);
            && |body| == PktLen(d.rx).value
            && (|body| >= 4 ==> v.packet[..4] == body[..4])
            && (|body| >= 6 && !d.keys.enabled ==> v.packet == body && v.ok)
            && (|body| < 6 ==>
                  && v.ok && |v.packet| == 6
                  && forall i | 0 <= i < 6 ::
                       v.packet[i] == if i < |body| then body[i] else if i < 3 then d.rx[i] else d.rxBuf[i])
  {
    var body := Head(d);
    DriverReads(ccm, d.keys, body);
    if |body| < 6 {
      LeftOver(d.rxBuf, d.rx[..3], body);
      assert AfterRead(ccm, d, |body|).rxBuf == Overlay(ReadInto(d.rxBuf, d.rx[..3], body), body);
    } else {
      SameAddress(ccm, d.keys, body);
    }
  }

  // rx_buf after a short frame.
  lemma LeftOver(buf: bytes, header: bytes, body: bytes)
    requires |buf| >= 6 && |header| == 3 && |body| < 6
    ensures forall i | 0 <= i < 6 ::
              Overlay(ReadInto(buf, header, body), body)[i] ==
              if i < |body| then body[i] else if i < 3 then header[i] else buf[i]
  {
  }

  lemma JudgeStops(d: Phy, packet: bytes, ok: bool)
    requires Valid(d) && 6 <= |packet| <= RX_BUF_SIZE && d.status.Running?
    ensures Judge(d, packet, ok).status.Stopped? <==> d.lastWasConn && d.channel >= 37
  {
  }

  lemma KindOf(d: Phy, packet: bytes, body: bytes)
    requires |body| >= 4 && |packet| >= 4 && packet[..4] == body[..4]
    ensures Accepts(d, packet) <==> OwnKind(d.channel, body)
  {
    AdvAddress(packet);
    assert packet[0] == packet[..4][0] && packet[1] == packet[..4][1];
    assert packet[2] == packet[..4][2] && packet[3] == packet[..4][3];
  }

  // One step: a frame with an access address is offered exactly if it is of the channel's own
  // kind and the driver does not stop.
  lemma HeadOffered(ccm: Ccm, d: Phy)
    requires Lawful(ccm) && Valid(d) && d.status.Running? && Takes(d, TestFifo) && |Head(d)| >= 4
    ensures HeadVerdict(ccm, d).offered <==> OwnKind(d.channel, Head(d)) && !(d.lastWasConn && d.channel >= 37)
    ensures Step(ccm, d, TestFifo).status.Stopped? <==> d.lastWasConn && d.channel >= 37
  {
    var v := HeadVerdict(ccm, d);
    HeadPacket(ccm, d);
    KindOf(d, v.packet, Head(d));
    StepIsJudge(ccm, d);
    JudgeStops(AfterRead(ccm, d, PktLen(d.rx).value), v.packet, v.ok);
  }

  // The channel on which each frame is taken.
  ghost function Channels(ccm: Ccm, d0: Phy, actions: seq<Action>): seq<nat>
    requires Lawful(ccm) && Valid(d0) && ValidActions(actions)
  {
    if actions == [] then []
    else
      var last := |actions| - 1;
      var d := Run(ccm, d0, actions[..last]);
      Channels(ccm, d0, actions[..last]) + if Takes(d, actions[last]) then [d.channel] else []
  }

  ghost predicate OfferedByKind(verdicts: seq<Verdict>, channels: seq<nat>, taken: seq<bytes>) {
    && |verdicts| == |channels| == |taken|
    && forall j | 0 <= j < |taken| && |taken[j]| >= 4 :: verdicts[j].offered <==> OwnKind(channels[j], taken[j])
  }

  lemma OneMoreByKind(verdicts: seq<Verdict>, channels: seq<nat>, taken: seq<bytes>, v: Verdict, channel: nat,
                      body: bytes)
    requires OfferedByKind(verdicts, channels, taken)
    requires |body| >= 4 ==> (v.offered <==> OwnKind(channel, body))
    ensures OfferedByKind(verdicts + [v], channels + [channel], taken + [body])
  {
  }

  lemma StepByKind(ccm: Ccm, d: Phy, a: Action, verdicts: seq<Verdict>, channels: seq<nat>)
    requires Lawful(ccm) && Valid(d) && ValidAction(a) && OfferedByKind(verdicts, channels, d.taken)
    requires d.status.Running? && Step(ccm, d, a).status.Running?
    ensures OfferedByKind(verdicts + if Takes(d, a) then [HeadVerdict(ccm, d)] else [],
                          channels + if Takes(d, a) then [d.channel] else [], Step(ccm, d, a).taken)
  {
    StepTaken(ccm, d, a);
    if Takes(d, a) {
      if |Head(d)| >= 4 {
        HeadOffered(ccm, d);
      }
      OneMoreByKind(verdicts, channels, d.taken, HeadVerdict(ccm, d), d.channel, Head(d));
    } else {
      assert verdicts + [] == verdicts && channels + [] == channels;
    }
  }

  // In every run that does not stop, exactly those of the frames taken are offered that are of
  // the kind of the channel: advertising packets on advertising channels, others on others.
  lemma {:induction false} OfferedIff(ccm: Ccm, d0: Phy, actions: seq<Action>)
    requires Lawful(ccm) && Valid(d0) && ValidActions(actions) && d0.taken == []
    requires Run(ccm, d0, actions).status.Running?
    ensures OfferedByKind(Verdicts(ccm, d0, actions), Channels(ccm, d0, actions), Run(ccm, d0, actions).taken)
  {
    if actions != [] {
      var before, a := actions[..|actions| - 1], actions[|actions| - 1];
      RunningBefore(ccm, Run(ccm, d0, before), a);
      OfferedIff(ccm, d0, before);
      StepByKind(ccm, Run(ccm, d0, before), a, Verdicts(ccm, d0, before), Channels(ccm, d0, before));
    }
  }

  lemma RunningBefore(ccm: Ccm, d: Phy, a: Action)
    requires Lawful(ccm) && Valid(d) && ValidAction(a) && Step(ccm, d, a).status.Running?
    ensures d.status.Running?
  {
  }

  // ---------- plain packets ----------

  // All frames after the first n are taken without encryption, on channels of their own kind.
  ghost predicate TakenPlain(ccm: Ccm, d0: Phy, actions: seq<Action>, n: nat)
    requires Lawful(ccm) && Valid(d0) && ValidActions(actions)
  {
    actions != [] ==>
      var last := |actions| - 1;
      var d := Run(ccm, d0, actions[..last]);
      && TakenPlain(ccm, d0, actions[..last], n)
      && (Takes(d, actions[last]) && |d.taken| >= n ==>
            !d.keys.enabled && |Head(d)| >= 6 && OwnKind(d.channel, Head(d)))
  }

  ghost predicate PlainVerdicts(verdicts: seq<Verdict>, taken: seq<bytes>, n: nat) {
    && |verdicts| == |taken|
    && forall j | n <= j < |taken| :: verdicts[j] == Verdict(taken[j], true, true)
  }

  lemma {:induction false} RunPlain(ccm: Ccm, d0: Phy, actions: seq<Action>, n: nat)
    requires Lawful(ccm) && Valid(d0) && ValidActions(actions) && d0.taken == []
    requires TakenPlain(ccm, d0, actions, n) && Run(ccm, d0, actions).status.Running?
    ensures PlainVerdicts(Verdicts(ccm, d0, actions), Run(ccm, d0, actions).taken, n)
  {
    if actions != [] {
      var last := |actions| - 1;
      var a, d := actions[last], Run(ccm, d0, actions[..last]);
      RunningBefore(ccm, d, a);
      RunPlain(ccm, d0, actions[..last], n);
      StepTaken(ccm, d, a);
      if Takes(d, a) && |d.taken| >= n {
        HeadPacket(ccm, d);
        HeadOffered(ccm, d);
      }
    }
  }

  // The packet is offered for a body: byte for byte if it is an advertising packet, otherwise
  // apart from SN and NESN; without MIC mark.
  ghost predicate OfferedPlain(o: Offer, body: bytes) {
    && |o.packet| == |body| >= 6 && !o.micFailure
    && (forall i | 0 <= i < |body| && i != 4 :: o.packet[i] == body[i])
    && (AdvBytes(body) ==> o.packet[4] == body[4])
    && o.packet[4] / 16 == body[4] / 16 && o.packet[4] % 4 == body[4] % 4
  }

  lemma OfferedAsPlain(o: Offer, body: bytes)
    requires OfferedAs(o, Verdict(body, true, true))
    ensures OfferedPlain(o, body)
  {
    AdvAddress(body);
    SeqBitsAt(body[4], Sn(o.packet[4]), Nesn(o.packet[4]));
  }

  // Main result for plain packets: in every run that goes on, from the first frame on that is
  // taken without encryption on channels of its own kind, the last packets offered are the
  // host's packets, one by one.
  lemma PlainDownlinkOffered(ccm: Ccm, d0: Phy, actions: seq<Action>, logTx: byte, bodies: seq<bytes>, n: nat)
    requires Lawful(ccm) && Fresh(d0) && ValidActions(actions) && FrameSizes(bodies, 0, 0xFFFF)
    requires Arrived(actions) <= HostStream(logTx, bodies) && |Arrived(actions)| <= UINT32
    requires TakenPlain(ccm, d0, actions, n) && Run(ccm, d0, actions).status.Running?
    ensures var taken, offers := |Run(ccm, d0, actions).taken|, PacketOffers(ccm, d0, actions);
            taken <= |bodies| && (taken > n ==> EndsWithBodies(offers, bodies[n..taken]))
  {
    var taken := Run(ccm, d0, actions).taken;
    TakenOfStream(ccm, d0, actions, logTx, bodies);
    RunPlain(ccm, d0, actions, n);
    RunInOrder(ccm, d0, actions);
    if |taken| > n {
      LastArePlain(PacketOffers(ccm, d0, actions), Verdicts(ccm, d0, actions), taken, n);
      SameTail(taken, bodies, n);
    }
  }

  lemma TakenOfStream(ccm: Ccm, d0: Phy, actions: seq<Action>, logTx: byte, bodies: seq<bytes>)
    requires Lawful(ccm) && Fresh(d0) && ValidActions(actions) && FrameSizes(bodies, 0, 0xFFFF)
    requires Arrived(actions) <= HostStream(logTx, bodies) && |Arrived(actions)| <= UINT32
    ensures Run(ccm, d0, actions).taken <= bodies
  {
    DownlinkStream(ccm, d0, actions, logTx, bodies);
  }

  lemma SameTail(taken: seq<bytes>, bodies: seq<bytes>, n: nat)
    requires taken <= bodies && n <= |taken|
    ensures taken[n..] == bodies[n..|taken|]
  {
  }

  ghost predicate EndsWithBodies(offers: seq<Offer>, bodies: seq<bytes>) {
    && |bodies| <= |offers|
    && var tail := offers[|offers| - |bodies|..];
       forall i | 0 <= i < |bodies| :: OfferedPlain(tail[i], bodies[i])
  }

  lemma LastArePlain(offers: seq<Offer>, verdicts: seq<Verdict>, taken: seq<bytes>, n: nat)
    requires n <= |taken| && PlainVerdicts(verdicts, taken, n) && InOrderOnce(offers, verdicts)
    ensures EndsWithBodies(offers, taken[n..])
  {
    LastOffers(offers, verdicts, n);
    var bodies := taken[n..];
    var tail := offers[|offers| - |bodies|..];
    forall i | 0 <= i < |bodies|
      ensures OfferedPlain(tail[i], bodies[i])
    {
      assert LastAt(offers, verdicts, n + i);
      assert verdicts[n + i] == Verdict(taken[n + i], true, true);
      OfferedAsPlain(tail[i], bodies[i]);
    }
  }

  // ---------- the stop after a CONNECT_IND ----------

  // A CONNECT_IND: a packet of the advertising channels of PDU type 5 (Bluetooth Core
  // Specification, Vol 6 Part B section 2.3).
  predicate ConnectInd(packet: bytes) {
    |packet| >= 6 && AdvBytes(packet) && packet[4] % 16 == 5
  }

  ghost predicate LastWasConnect(verdicts: seq<Verdict>) {
    verdicts != [] &&
    var v := verdicts[|verdicts| - 1];
    v.offered && ConnectInd(v.packet)
  }

  lemma HeadNoted(ccm: Ccm, d: Phy)
    requires Lawful(ccm) && Valid(d) && d.status.Running? && Takes(d, TestFifo)
    ensures Step(ccm, d, TestFifo).status.Running? ==>
              Step(ccm, d, TestFifo).lastWasConn ==
              (HeadVerdict(ccm, d).offered && ConnectInd(HeadVerdict(ccm, d).packet))
    ensures Step(ccm, d, TestFifo).status.Stopped? <==> d.lastWasConn && d.channel >= 37
  {
    var v := HeadVerdict(ccm, d);
    var d1 := AfterRead(ccm, d, PktLen(d.rx).value);
    AdvAddress(v.packet);
    StepIsJudge(ccm, d);
    JudgeStops(d1, v.packet, v.ok);
    JudgeNotes(d1, v.packet, v.ok);
  }

  lemma StepIsJudge(ccm: Ccm, d: Phy)
    requires Lawful(ccm) && Valid(d) && d.status.Running? && Takes(d, TestFifo)
    ensures var v := HeadVerdict(ccm, d);
            Step(ccm, d, TestFifo) == Judge(AfterRead(ccm, d, PktLen(d.rx).value), v.packet, v.ok)
  {
  }

  lemma JudgeNotes(d: Phy, packet: bytes, ok: bool)
    requires Valid(d) && 6 <= |packet| <= RX_BUF_SIZE && d.status.Running?
    ensures Judge(d, packet, ok).status.Running? ==>
              Judge(d, packet, ok).lastWasConn == (Accepts(d, packet) && IsConnectInd(packet))
  {
  }

  lemma ConnKept(ccm: Ccm, d: Phy, a: Action)
    requires Lawful(ccm) && Valid(d) && ValidAction(a) && !Takes(d, a)
    ensures Step(ccm, d, a).lastWasConn == d.lastWasConn
  {
    if d.status.Running? {
      match a {
        case RxChar(b) => RxCharConn(d, b);
        case TestFifo =>
          if d.pc.Testing? {
            QuietTestConn(ccm, d);
          }
        case Resume =>
          if d.pc.Polling? {
            ResumeConn(d);
          }
        case Tx(hdr, payload) =>
          var packet := DriverSend(ccm, d.keys, d.accessAddress, hdr, payload);
          TxConn(d, hdr, |payload|, packet, Encode(UpMessage(packet)));
        case _ =>
      }
    }
  }

  lemma RxCharConn(d: Phy, b: byte)
    requires Valid(d)
    ensures RxCharStep(d, b).lastWasConn == d.lastWasConn
  {
  }

  lemma QuietTestConn(ccm: Ccm, d: Phy)
    requires Lawful(ccm) && Valid(d) && d.status.Running? && d.pc.Testing? && !Takes(d, TestFifo)
    ensures TestStep(ccm, d).lastWasConn == d.lastWasConn
  {
  }

  lemma ResumeConn(d: Phy)
    requires Valid(d) && d.pc.Polling?
    ensures ResumeStep(d).lastWasConn == d.lastWasConn
  {
  }

  lemma TxConn(d: Phy, hdr: byte, len: nat, packet: bytes, wire: bytes)
    requires Valid(d)
    ensures TxStep(d, hdr, len, packet, wire).lastWasConn == d.lastWasConn
  {
  }

  // In every run, a driver that was not waiting for a connection in the beginning remembers
  // exactly whether the last frame it took was an offered CONNECT_IND; so the next frame stops
  // it exactly if that was one and the channel is still an advertising channel.
  lemma {:induction false} ConnectRemembered(ccm: Ccm, d0: Phy, actions: seq<Action>)
    requires Lawful(ccm) && Valid(d0) && ValidActions(actions) && !d0.lastWasConn
    requires Run(ccm, d0, actions).status.Running?
    ensures Run(ccm, d0, actions).lastWasConn <==> LastWasConnect(Verdicts(ccm, d0, actions))
  {
    if actions != [] {
      var last := |actions| - 1;
      var a, d := actions[last], Run(ccm, d0, actions[..last]);
      RunningBefore(ccm, d, a);
      ConnectRemembered(ccm, d0, actions[..last]);
      if Takes(d, a) {
        HeadNoted(ccm, d);
      } else {
        ConnKept(ccm, d, a);
      }
    }
  }

  lemma ConnectStops(ccm: Ccm, d0: Phy, actions: seq<Action>)
    requires Lawful(ccm) && Valid(d0) && ValidActions(actions) && !d0.lastWasConn
    requires var d := Run(ccm, d0, actions); d.status.Running? && Takes(d, TestFifo)
    ensures var d := Run(ccm, d0, actions);
            Step(ccm, d, TestFifo).status == Stopped(NotOnDataChannel) <==>
            LastWasConnect(Verdicts(ccm, d0, actions)) && d.channel >= 37
  {
    var d := Run(ccm, d0, actions);
    ConnectRemembered(ccm, d0, actions);
    HeadNoted(ccm, d);
    TakeTransport(ccm, d, PktLen(d.rx).value);
  }
}
