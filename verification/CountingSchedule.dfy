/**
 A stack that keeps the driver's counter: runs in which the conditions of the theorems about
 encrypted packets hold, so that all packets of the host arrive at the link layer.
 */
module CountingSchedules {
  import opened Bytes
  import opened Framing
  import opened LinkCrypto
  import opened PhyModel
  import opened Downlink
  import opened PollingLoop
  import opened EndToEnd
  import opened EncryptedStreams
  import opened Deliveries
  import opened OfferStreams
  import opened Schedules

  // What the stack sets before a frame is taken.
  function Due(p: PhyKeys, taken: seq<bytes>, n: nat): PhyKeys {
    if |taken| >= n then PhyAfterRx(p, taken[n..]) else p
  }

  function SetKeys(k: PhyKeys): seq<Action> {
    [SetIv(k.iv), EncryptEnable(k.key), SetCounter(k.counter)]
  }

  lemma RunSetKeys(ccm: Ccm, d: Phy, k: PhyKeys)
    requires Lawful(ccm) && Valid(d) && d.status.Running? && k.enabled
    ensures ValidActions(SetKeys(k)) && NothingArrives(SetKeys(k))
    ensures Run(ccm, d, SetKeys(k)) == d.(keys := k)
  {
    RunLast(ccm, d, [], SetIv(k.iv));
    RunLast(ccm, d, [SetIv(k.iv)], EncryptEnable(k.key));
    RunLast(ccm, d, [SetIv(k.iv), EncryptEnable(k.key)], SetCounter(k.counter));
    assert [] + [SetIv(k.iv)] == [SetIv(k.iv)];
    assert [SetIv(k.iv)] + [EncryptEnable(k.key)] == [SetIv(k.iv), EncryptEnable(k.key)];
    assert [SetIv(k.iv), EncryptEnable(k.key)] + [SetCounter(k.counter)] == SetKeys(k);
  }

  // The stack keeps the counter, and frames are taken on data channels.
  ghost predicate Counted(ccm: Ccm, d: Phy, actions: seq<Action>, n: nat, p: PhyKeys)
    requires Lawful(ccm) && Valid(d) && ValidActions(actions)
  {
    StackCounts(ccm, d, actions, n, p) && TakenOnData(ccm, d, actions, n)
  }

  lemma {:induction false} CountedAppend(ccm: Ccm, d: Phy, a: seq<Action>, b: seq<Action>, both: seq<Action>, n: nat,
                                         p: PhyKeys)
    requires Lawful(ccm) && Valid(d) && ValidActions(a) && ValidActions(b) && both == a + b && ValidActions(both)
    requires Counted(ccm, d, a, n, p) && Counted(ccm, Run(ccm, d, a), b, n, p)
    ensures Counted(ccm, d, both, n, p)
    decreases |b|
  {
    if b == [] {
      assert both == a;
    } else {
      var before, b0 := both[..|both| - 1], b[..|b| - 1];
      assert before == a + b0 && both[|both| - 1] == b[|b| - 1];
      CountedUnfolds(ccm, d, both, n, p);
      CountedUnfolds(ccm, Run(ccm, d, a), b, n, p);
      CountedAppend(ccm, d, a, b0, before, n, p);
      RunAppend(ccm, d, a, b0, before);
    }
  }

  ghost predicate CountedStep(d: Phy, a: Action, n: nat, p: PhyKeys) {
    Takes(d, a) && |d.taken| >= n ==> d.keys == PhyAfterRx(p, d.taken[n..]) && d.channel < FIRST_ADV_CHANNEL
  }

  lemma CountedUnfolds(ccm: Ccm, d: Phy, actions: seq<Action>, n: nat, p: PhyKeys)
    requires Lawful(ccm) && Valid(d) && ValidActions(actions) && actions != []
    ensures var last := |actions| - 1;
            Counted(ccm, d, actions, n, p) <==>
            Counted(ccm, d, actions[..last], n, p) && CountedStep(Run(ccm, d, actions[..last]), actions[last], n, p)
  {
  }

  lemma {:induction false} NoTestCounted(ccm: Ccm, d: Phy, actions: seq<Action>, n: nat, p: PhyKeys)
    requires Lawful(ccm) && Valid(d) && ValidActions(actions)
    requires forall i | 0 <= i < |actions| :: !actions[i].TestFifo?
    ensures Counted(ccm, d, actions, n, p)
  {
    if actions != [] {
      NoTestCounted(ccm, d, actions[..|actions| - 1], n, p);
    }
  }

  lemma OneCounted(ccm: Ccm, d: Phy, a: Action, n: nat, p: PhyKeys)
    requires Lawful(ccm) && Valid(d) && ValidAction(a) && ValidActions([a])
    requires d.channel < FIRST_ADV_CHANNEL && (|d.taken| >= n ==> d.keys == PhyAfterRx(p, d.taken[n..]))
    ensures Counted(ccm, d, [a], n, p)
  {
    assert [a][..0] == [];
  }

  ghost predicate Quiet(ccm: Ccm, d: Phy, actions: seq<Action>, n: nat, p: PhyKeys)
    requires Lawful(ccm) && Valid(d)
  {
    ValidActions(actions) && NothingArrives(actions) && Counted(ccm, d, actions, n, p)
  }

  lemma QuietAppend(ccm: Ccm, d: Phy, a: seq<Action>, b: seq<Action>, n: nat, p: PhyKeys)
    requires Lawful(ccm) && Valid(d) && Quiet(ccm, d, a, n, p) && Quiet(ccm, Run(ccm, d, a), b, n, p)
    ensures Quiet(ccm, d, a + b, n, p) && Run(ccm, d, a + b) == Run(ccm, Run(ccm, d, a), b)
  {
    ValidAppend(a, b);
    RunAppend(ccm, d, a, b, a + b);
    CountedAppend(ccm, d, a, b, a + b, n, p);
  }

  lemma KeysKeepInv(d: Phy, k: PhyKeys, bodies: seq<bytes>, arrived: bytes, coming: bytes)
    requires Valid(d) && Inv(d, bodies, arrived, coming)
    ensures Inv(d.(keys := k), bodies, arrived, coming) && Work(d.(keys := k)) == Work(d)
  {
  }

  // Sets the keys and makes one step.
  lemma StepCounting(ccm: Ccm, d: Phy, bodies: seq<bytes>, arrived: bytes, coming: bytes, n: nat, p: PhyKeys)
      returns (actions: seq<Action>)
    requires Lawful(ccm) && Valid(d) && d.status.Running? && !Settled(d) && d.channel < FIRST_ADV_CHANNEL && p.enabled
    requires FrameSizes(bodies, 1, RX_BUF_SIZE) && Inv(d, bodies, arrived, coming)
    ensures Quiet(ccm, d, actions, n, p)
    ensures var r := Run(ccm, d, actions);
            && r.status.Running? && Inv(r, bodies, arrived, coming) && r.tx == d.tx
            && r.channel < FIRST_ADV_CHANNEL && Work(r) < Work(d)
  {
    var k := Due(p, d.taken, n);
    var d1 := d.(keys := k);
    var a := NextStep(d1);
    KeysKeepInv(d, k, bodies, arrived, coming);
    RunSetKeys(ccm, d, k);
    NoTestCounted(ccm, d, SetKeys(k), n, p);
    NextStepRuns(ccm, d1, bodies, arrived, coming);
    NextStepKeeps(ccm, d1);
    OneCounted(ccm, d1, a, n, p);
    RunLast(ccm, d1, [], a);
    assert [] + [a] == [a];
    QuietAppend(ccm, d, SetKeys(k), [a], n, p);
    actions := SetKeys(k) + [a];
  }

  lemma DrainCounting(ccm: Ccm, d: Phy, bodies: seq<bytes>, arrived: bytes, coming: bytes, n: nat, p: PhyKeys)
      returns (actions: seq<Action>)
    requires Lawful(ccm) && Valid(d) && d.status.Running? && d.channel < FIRST_ADV_CHANNEL && p.enabled
    requires FrameSizes(bodies, 1, RX_BUF_SIZE) && Inv(d, bodies, arrived, coming)
    ensures Quiet(ccm, d, actions, n, p)
    ensures var r := Run(ccm, d, actions);
            Settled(r) && Inv(r, bodies, arrived, coming) && r.tx == d.tx && r.channel < FIRST_ADV_CHANNEL
    decreases Work(d)
  {
    if Settled(d) {
      actions := [];
    } else {
      var first := StepCounting(ccm, d, bodies, arrived, coming, n, p);
      var more := DrainCounting(ccm, Run(ccm, d, first), bodies, arrived, coming, n, p);
      QuietAppend(ccm, d, first, more, n, p);
      actions := first + more;
    }
  }

  ghost predicate DeliversCounting(ccm: Ccm, d0: Phy, bodies: seq<bytes>, actions: seq<Action>, arrived: bytes,
                                   coming: bytes, n: nat, p: PhyKeys)
    requires Lawful(ccm) && Valid(d0)
  {
    Delivers(ccm, d0, bodies, actions, arrived, coming) && Counted(ccm, d0, actions, n, p)
  }

  lemma CountingByte(ccm: Ccm, d0: Phy, logTx: byte, bodies: seq<bytes>, before: seq<Action>, arrived: bytes, b: byte,
                     coming: bytes, n: nat, p: PhyKeys) returns (actions: seq<Action>)
    requires Lawful(ccm) && Fresh(d0) && FrameSizes(bodies, 1, RX_BUF_SIZE) && |arrived| < UINT32 && p.enabled
    requires arrived + [b] + coming == HostStream(logTx, bodies)
    requires DeliversCounting(ccm, d0, bodies, before, arrived, [b] + coming, n, p)
    ensures DeliversCounting(ccm, d0, bodies, actions, arrived + [b], coming, n, p)
  {
    var next := before + [RxChar(b)];
    NextByte(ccm, d0, logTx, bodies, before, arrived, b, coming);
    NoTestCounted(ccm, Run(ccm, d0, before), [RxChar(b)], n, p);
    CountedAppend(ccm, d0, before, [RxChar(b)], next, n, p);
    var more := DrainCounting(ccm, Run(ccm, d0, next), bodies, arrived + [b], coming, n, p);
    actions := next + more;
    ValidAppend(next, more);
    RunAppend(ccm, d0, next, more, actions);
    ArrivedAppend(next, more);
    CountedAppend(ccm, d0, next, more, actions, n, p);
  }

  lemma {:induction false} SerialCounting(ccm: Ccm, d0: Phy, logTx: byte, bodies: seq<bytes>, arrived: bytes,
                                          coming: bytes, n: nat, p: PhyKeys) returns (actions: seq<Action>)
    requires Lawful(ccm) && Fresh(d0) && FrameSizes(bodies, 1, RX_BUF_SIZE) && p.enabled
    requires arrived + coming == HostStream(logTx, bodies) && |arrived| <= UINT32
    ensures DeliversCounting(ccm, d0, bodies, actions, arrived, coming, n, p)
    decreases |arrived|
  {
    if arrived == [] {
      actions := SerialStart(ccm, d0, bodies, coming);
      NoTestCounted(ccm, d0, actions, n, p);
    } else {
      var last := |arrived| - 1;
      var first, b := arrived[..last], arrived[last];
      assert arrived == first + [b];
      Associative(first, [b], coming);
      var before := SerialCounting(ccm, d0, logTx, bodies, first, [b] + coming, n, p);
      actions := CountingByte(ccm, d0, logTx, bodies, before, first, b, coming, n, p);
    }
  }

  // For any packets followed by encrypted ones of 1 to 250 payload bytes there is a run in which
  // the stack keeps the counter and the driver takes all of them; so the encrypted ones are all
  // offered to the link layer as the host meant them.
  lemma AllEncryptedOffered(ccm: Ccm, d0: Phy, logTx: byte, early: seq<bytes>, h: HostKeys, p: PhyKeys, aa: bytes,
                            crc: bytes, ps: seq<DataPacket>) returns (actions: seq<Action>)
    requires Lawful(ccm) && Fresh(d0) && FrameSizes(early, 1, RX_BUF_SIZE) && ps != []
    requires h.encrypted && SameEpoch(h, h.txCount, p) && |aa| == 4 && aa != ADV_ACCESS_ADDRESS && |crc| == 3
    requires Sizes(ps, 250) && Sizes(ps, 251) && forall i | 0 <= i < |ps| :: ps[i].payload != []
    requires |HostStream(logTx, early + HostBodies(ccm, h, aa, crc, ps))| <= UINT32
    ensures ValidActions(actions)
    ensures Run(ccm, d0, actions).taken == early + HostBodies(ccm, h, aa, crc, ps)
    ensures EndsWithOriginals(PacketOffers(ccm, d0, actions), |ps|, aa, ps)
  {
    var bodies := early + HostBodies(ccm, h, aa, crc, ps);
    var stream := HostStream(logTx, bodies);
    AllFit(ccm, early, h, aa, crc, ps);
    assert stream + [] == stream;
    actions := SerialCounting(ccm, d0, logTx, bodies, stream, [], |early|, p);
    AllTakenIff(ccm, d0, actions, logTx, bodies);
    OfferedAtEnd(ccm, d0, actions, logTx, early, h, p, aa, crc, ps);
  }

  lemma AllFit(ccm: Ccm, early: seq<bytes>, h: HostKeys, aa: bytes, crc: bytes, ps: seq<DataPacket>)
    requires Lawful(ccm) && h.encrypted && |aa| == 4 && |crc| == 3 && Sizes(ps, 250) && Sizes(ps, 251)
    requires FrameSizes(early, 1, RX_BUF_SIZE)
    ensures FrameSizes(early + HostBodies(ccm, h, aa, crc, ps), 1, RX_BUF_SIZE)
  {
    forall i | 0 <= i < |ps|
      ensures |HostBody(ccm, h, aa, crc, ps[i], i)| == |ps[i].payload| + 10
    {
      HostSendSealed(ccm, HostAfterTx(h, i), aa, ps[i].hdr, ps[i].payload, crc);
    }
  }

  lemma OfferedAtEnd(ccm: Ccm, d0: Phy, actions: seq<Action>, logTx: byte, early: seq<bytes>, h: HostKeys, p: PhyKeys,
                     aa: bytes, crc: bytes, ps: seq<DataPacket>)
    requires Lawful(ccm) && Fresh(d0) && ValidActions(actions) && FrameSizes(early, 0, 0xFFFF) && ps != []
    requires h.encrypted && SameEpoch(h, h.txCount, p) && |aa| == 4 && aa != ADV_ACCESS_ADDRESS && |crc| == 3
    requires Sizes(ps, 251) && forall i | 0 <= i < |ps| :: ps[i].payload != []
    requires Arrived(actions) == HostStream(logTx, early + HostBodies(ccm, h, aa, crc, ps))
    requires |Arrived(actions)| <= UINT32 && Counted(ccm, d0, actions, |early|, p)
    requires Run(ccm, d0, actions).taken == early + HostBodies(ccm, h, aa, crc, ps)
    ensures EndsWithOriginals(PacketOffers(ccm, d0, actions), |ps|, aa, ps)
  {
    assert |HostBodies(ccm, h, aa, crc, ps)| == |ps|;
    EncryptedDownlinkOffered(ccm, d0, actions, logTx, early, h, p, aa, crc, ps);
  }
}
