/**
 Runs that exist. The serial schedule hands over a byte and lets the receive task finish
 before the next one; with it the conditions of the downlink theorems can be met, and so can
 the ones under which the code falls short.
 */
module Schedules {
  import opened Bytes
  import opened Framing
  import opened LinkCrypto
  import opened PhyModel
  import opened Downlink
  import opened PollingLoop
  import opened EndToEnd
  import opened Acknowledgement

  ghost predicate Settled(d: Phy) {
    d.status.Running? && d.pc.Idle? && !d.queued
  }

  // The next step of a receive task that is not finished.
  function NextStep(d: Phy): Action {
    match d.pc
    case Idle => PopEvent(d.rxBuf)
    case Testing => TestFifo
    case Polling(_) => Resume
  }

  lemma NextStepRuns(ccm: Ccm, d: Phy, bodies: seq<bytes>, arrived: bytes, coming: bytes)
    requires Lawful(ccm) && Valid(d) && d.status.Running? && !Settled(d) && d.channel < FIRST_ADV_CHANNEL
    requires FrameSizes(bodies, 1, RX_BUF_SIZE) && Inv(d, bodies, arrived, coming)
    ensures var d' := Step(ccm, d, NextStep(d));
            && TaskStep(d, NextStep(d)) && ValidAction(NextStep(d)) && !NextStep(d).RxChar?
            && d'.status.Running? && Inv(d', bodies, arrived, coming)
  {
    QuietStepKeepsInv(ccm, d, NextStep(d), bodies, arrived, coming);
    TestFaults(ccm, d);
  }

  lemma NextStepKeeps(ccm: Ccm, d: Phy)
    requires Lawful(ccm) && Valid(d) && d.status.Running? && d.channel < FIRST_ADV_CHANNEL
    requires TaskStep(d, NextStep(d)) && Step(ccm, d, NextStep(d)).status.Running?
    ensures var d' := Step(ccm, d, NextStep(d));
            d'.channel < FIRST_ADV_CHANNEL && d'.tx == d.tx && Work(d') < Work(d)
  {
    StepChannel(ccm, d, NextStep(d));
    OutputUntouched(ccm, d, NextStep(d));
    StepWork(ccm, d, NextStep(d));
  }

  lemma TestFaults(ccm: Ccm, d: Phy)
    requires Lawful(ccm) && Valid(d) && d.status.Running?
    ensures var status := TestStep(ccm, d).status;
            status.Stopped? ==>
              || status.fault in {NotOnFrameBoundary, RxBufferSize}
              || (status.fault.NotOnDataChannel? && d.channel >= FIRST_ADV_CHANNEL)
  {
    if PktLen(d.rx).Some? && 1 <= PktLen(d.rx).value <= RX_BUF_SIZE {
      TakeTransport(ccm, d, PktLen(d.rx).value);
    }
  }

  // The receive task finishes, and nothing else happens meanwhile.
  lemma Drain(ccm: Ccm, d: Phy, bodies: seq<bytes>, arrived: bytes, coming: bytes) returns (actions: seq<Action>)
    requires Lawful(ccm) && Valid(d) && d.status.Running? && d.channel < FIRST_ADV_CHANNEL
    requires FrameSizes(bodies, 1, RX_BUF_SIZE) && Inv(d, bodies, arrived, coming)
    ensures ValidActions(actions) && NothingArrives(actions)
    ensures var r := Run(ccm, d, actions);
            Settled(r) && Inv(r, bodies, arrived, coming) && r.tx == d.tx && r.channel < FIRST_ADV_CHANNEL
    decreases Work(d)
  {
    if Settled(d) {
      actions := [];
    } else {
      var a := NextStep(d);
      var d1 := Step(ccm, d, a);
      NextStepRuns(ccm, d, bodies, arrived, coming);
      NextStepKeeps(ccm, d);
      var more := Drain(ccm, d1, bodies, arrived, coming);
      actions := [a] + more;
      RunFirst(ccm, d, a, more);
      NothingFirst(a, more);
    }
  }

  lemma NothingFirst(a: Action, more: seq<Action>)
    requires !a.RxChar? && NothingArrives(more)
    ensures NothingArrives([a] + more)
  {
  }

  lemma RunFirst(ccm: Ccm, d: Phy, a: Action, more: seq<Action>)
    requires Lawful(ccm) && Valid(d) && ValidAction(a) && ValidActions(more)
    ensures ValidActions([a] + more) && Run(ccm, d, [a] + more) == Run(ccm, Step(ccm, d, a), more)
  {
    assert [a][..0] == [];
    assert Run(ccm, d, [a]) == Step(ccm, Run(ccm, d, []), a);
    ValidAppend([a], more);
    RunAppend(ccm, d, [a], more, [a] + more);
  }

  lemma RunLast(ccm: Ccm, d: Phy, actions: seq<Action>, a: Action)
    requires Lawful(ccm) && Valid(d) && ValidActions(actions) && ValidAction(a)
    ensures ValidActions(actions + [a])
    ensures Run(ccm, d, actions + [a]) == Step(ccm, Run(ccm, d, actions), a)
    ensures Arrived(actions + [a]) == Arrived(actions) + if a.RxChar? then [a.b] else []
  {
    assert (actions + [a])[..|actions|] == actions;
  }

  // A settled driver does not stop at the next byte of the stream.
  lemma NextByteRuns(d: Phy, b: byte, logTx: byte, bodies: seq<bytes>, arrived: bytes, coming: bytes)
    requires Valid(d) && Settled(d) && FrameSizes(bodies, 1, RX_BUF_SIZE) && |arrived| < UINT32
    requires arrived + [b] + coming == HostStream(logTx, bodies)
    requires Inv(d, bodies, arrived, [b] + coming)
    ensures RxCharStep(d, b).status.Running? && Inv(RxCharStep(d, b), bodies, arrived + [b], coming)
  {
    RxCharKeepsInv(d, b, logTx, bodies, arrived, coming);
    RxCharFaults(d, b);
    assert HostStream(logTx, bodies)[|arrived|] == b;
    if |arrived| >= 2 {
      HeadOfStream(d.rx, [b] + coming, bodies[|d.taken|..]);
    }
  }

  lemma RxCharFaults(d: Phy, b: byte)
    requires Valid(d) && d.status.Running?
    ensures var status := RxCharStep(d, b).status;
            status.Stopped? ==>
              || status.fault in {FirstByteNotConfig, NotOnFrameBoundary}
              || (status.fault.RxFifoFull? && |d.rx| == FIFO_CAPACITY)
  {
  }

  // A run in which `arrived` arrives and the driver settles.
  ghost predicate Delivers(ccm: Ccm, d0: Phy, bodies: seq<bytes>, actions: seq<Action>, arrived: bytes, coming: bytes)
    requires Lawful(ccm) && Valid(d0)
  {
    && ValidActions(actions) && Arrived(actions) == arrived
    && Settled(Run(ccm, d0, actions)) && Run(ccm, d0, actions).tx == d0.tx
    && Run(ccm, d0, actions).channel < FIRST_ADV_CHANNEL
    && Inv(Run(ccm, d0, actions), bodies, arrived, coming)
  }

  // On a data channel, no CONNECT_IND stops the driver.
  lemma SerialStart(ccm: Ccm, d0: Phy, bodies: seq<bytes>, coming: bytes) returns (actions: seq<Action>)
    requires Lawful(ccm) && Fresh(d0)
    ensures Delivers(ccm, d0, bodies, actions, [], coming)
    ensures forall i | 0 <= i < |actions| :: actions[i].SetChan?
  {
    var a := SetChan(0, [0, 0, 0, 0]);
    RunLast(ccm, d0, [], a);
    actions := [] + [a];
  }

  // For every beginning of the host's stream of at most 2^32 bytes there is such a run.
  lemma {:induction false} Serial(ccm: Ccm, d0: Phy, logTx: byte, bodies: seq<bytes>, arrived: bytes, coming: bytes)
      returns (actions: seq<Action>)
    requires Lawful(ccm) && Fresh(d0) && FrameSizes(bodies, 1, RX_BUF_SIZE)
    requires arrived + coming == HostStream(logTx, bodies) && |arrived| <= UINT32
    ensures Delivers(ccm, d0, bodies, actions, arrived, coming)
    decreases |arrived|
  {
    if arrived == [] {
      actions := SerialStart(ccm, d0, bodies, coming);
    } else {
      var last := |arrived| - 1;
      var first, b := arrived[..last], arrived[last];
      assert arrived == first + [b];
      Associative(first, [b], coming);
      var before := Serial(ccm, d0, logTx, bodies, first, [b] + coming);
      actions := SerialByte(ccm, d0, logTx, bodies, before, first, b, coming);
    }
  }

  lemma NextByte(ccm: Ccm, d0: Phy, logTx: byte, bodies: seq<bytes>, before: seq<Action>, arrived: bytes,
                 b: byte, coming: bytes)
    requires Lawful(ccm) && Fresh(d0) && FrameSizes(bodies, 1, RX_BUF_SIZE) && |arrived| < UINT32
    requires arrived + [b] + coming == HostStream(logTx, bodies)
    requires Delivers(ccm, d0, bodies, before, arrived, [b] + coming)
    ensures ValidActions(before + [RxChar(b)]) && Arrived(before + [RxChar(b)]) == arrived + [b]
    ensures var d, r := Run(ccm, d0, before), Run(ccm, d0, before + [RxChar(b)]);
            && r.status.Running? && r.tx == d0.tx && r.taken == d.taken && r.pc == d.pc
            && r.channel < FIRST_ADV_CHANNEL
            && Inv(r, bodies, arrived + [b], coming)
  {
    var d := Run(ccm, d0, before);
    NextByteRuns(d, b, logTx, bodies, arrived, coming);
    OutputUntouched(ccm, d, RxChar(b));
    RunLast(ccm, d0, before, RxChar(b));
    RxCharKeepsTask(d, b);
  }

  lemma RxCharKeepsTask(d: Phy, b: byte)
    requires Valid(d)
    ensures RxCharStep(d, b).taken == d.taken && RxCharStep(d, b).pc == d.pc
    ensures RxCharStep(d, b).channel == d.channel
  {
  }

  lemma SerialByte(ccm: Ccm, d0: Phy, logTx: byte, bodies: seq<bytes>, before: seq<Action>, arrived: bytes,
                   b: byte, coming: bytes) returns (actions: seq<Action>)
    requires Lawful(ccm) && Fresh(d0) && FrameSizes(bodies, 1, RX_BUF_SIZE) && |arrived| < UINT32
    requires arrived + [b] + coming == HostStream(logTx, bodies)
    requires Delivers(ccm, d0, bodies, before, arrived, [b] + coming)
    ensures Delivers(ccm, d0, bodies, actions, arrived + [b], coming)
  {
    NextByte(ccm, d0, logTx, bodies, before, arrived, b, coming);
    var next := before + [RxChar(b)];
    var more := Drain(ccm, Run(ccm, d0, next), bodies, arrived + [b], coming);
    actions := next + more;
    ValidAppend(next, more);
    RunAppend(ccm, d0, next, more, actions);
    ArrivedAppend(next, more);
  }

  // Streams of at most 2^32 bytes: some run takes all packets if and only if the driver can
  // take each of them.
  lemma AllTakenInSomeRunIff(ccm: Ccm, d0: Phy, logTx: byte, bodies: seq<bytes>)
    requires Lawful(ccm) && Fresh(d0) && FrameSizes(bodies, 0, 0xFFFF) && |HostStream(logTx, bodies)| <= UINT32
    ensures (exists actions :: TakesAll(ccm, d0, actions, logTx, bodies)) <==>
            forall k | 0 <= k < |bodies| :: Fitting(bodies[k])
  {
    if forall k | 0 <= k < |bodies| :: Fitting(bodies[k]) {
      var stream := HostStream(logTx, bodies);
      assert stream + [] == stream;
      var actions := Serial(ccm, d0, logTx, bodies, stream, []);
      AllTakenIff(ccm, d0, actions, logTx, bodies);
      assert TakesAll(ccm, d0, actions, logTx, bodies);
    }
    if actions :| TakesAll(ccm, d0, actions, logTx, bodies) {
      AllTakenIff(ccm, d0, actions, logTx, bodies);
    }
  }

  ghost predicate TakesAll(ccm: Ccm, d0: Phy, actions: seq<Action>, logTx: byte, bodies: seq<bytes>)
    requires Lawful(ccm) && Valid(d0)
  {
    && ValidActions(actions) && Arrived(actions) <= HostStream(logTx, bodies)
    && Run(ccm, d0, actions).taken == bodies
  }

  // ---------- a run beyond 2^32 bytes ----------

  const CONFIG_BODY: bytes := [CMD_CONFIG_LOG_TX, CMD_CONFIG_LOG_TX, CMD_CONFIG_LOG_TX,
                               CMD_CONFIG_LOG_TX, CMD_CONFIG_LOG_TX, CMD_CONFIG_LOG_TX]

  function Repeated(n: nat): (r: seq<bytes>)
    ensures |r| == n && forall i | 0 <= i < n :: r[i] == CONFIG_BODY
  {
    if n == 0 then [] else Repeated(n - 1) + [CONFIG_BODY]
  }

  lemma {:induction false} RepeatedSize(n: nat)
    ensures |DownFrames(Repeated(n))| == 10 * n
  {
    if n > 0 {
      RepeatedSize(n - 1);
      OneMoreFrame(Repeated(n - 1), CONFIG_BODY);
    }
  }

  lemma RepeatedByte(logTx: byte, n: nat)
    ensures var stream := HostStream(logTx, Repeated(n + 1));
            |stream| == 10 * n + 12 && stream[10 * n + 6] == CMD_CONFIG_LOG_TX
  {
    RepeatedSize(n);
    DownFramesConcat(Repeated(n), [CONFIG_BODY]);
    var frame := DownFrame(CONFIG_BODY);
    assert DownFrames([CONFIG_BODY]) == frame + DownFrames([]);
    assert |frame| == 10 && frame[4] == CMD_CONFIG_LOG_TX;
  }

  // There is a run on a stream of packets that the driver can take in which it does not stop
  // at 2^32 + 1 bytes; from then on bytes are missing.
  lemma BeyondWrap(ccm: Ccm, d0: Phy, logTx: byte) returns (actions: seq<Action>, bodies: seq<bytes>)
    requires Lawful(ccm) && Fresh(d0)
    ensures FrameSizes(bodies, 1, RX_BUF_SIZE) && ValidActions(actions)
    ensures Arrived(actions) <= HostStream(logTx, bodies) && |Arrived(actions)| == UINT32 + 1
    ensures var d := Run(ccm, d0, actions);
            d.status.Running? && Arrived(actions)[2..] != DownFrames(d.taken) + d.rx
  {
    var n: nat := 429_496_729;
    bodies := Repeated(n + 1);
    RepeatedByte(logTx, n);
    var stream := HostStream(logTx, bodies);
    assert stream[..UINT32] + stream[UINT32..] == stream;
    var before := Serial(ccm, d0, logTx, bodies, stream[..UINT32], stream[UINT32..]);
    CounterWraps(ccm, d0, before, logTx, bodies, stream[UINT32]);
    RunLast(ccm, d0, before, RxChar(stream[UINT32]));
    actions := before + [RxChar(stream[UINT32])];
    assert stream[..UINT32] + [stream[UINT32]] == stream[..UINT32 + 1];
    ConservedIff(ccm, d0, actions, logTx, bodies);
  }

  // ---------- a new connection with old sequence bits ----------

  // There is a run after which a complete frame waits for the receive task.
  lemma FrameWaits(ccm: Ccm, d0: Phy, body: bytes) returns (actions: seq<Action>)
    requires Lawful(ccm) && Fresh(d0) && d0.tx == [] && Fitting(body)
    ensures ValidActions(actions) && Waits(Run(ccm, d0, actions), body)
  {
    var bodies := [body];
    var stream := HostStream(0, bodies);
    var k := |stream| - 1;
    OneFrameStream(body);
    var arrived, b := stream[..k], stream[k];
    assert arrived + [b] == stream && [b] + [] == [b] && arrived + [b] + [] == stream;
    var before := Serial(ccm, d0, 0, bodies, arrived, [b]);
    NextByte(ccm, d0, 0, bodies, before, arrived, b, []);
    actions := before + [RxChar(b)];
    LastFrame(Run(ccm, d0, before), Run(ccm, d0, actions), body, arrived, b);
  }

  ghost predicate Waits(d: Phy, body: bytes) {
    && d.status.Running? && d.pc.Idle? && d.queued && d.tx == []
    && PktLen(d.rx) == Some(|body|) && |d.rx| >= |body| + 4 && d.rx[3..3 + |body|] == body
  }

  lemma OneFrameStream(body: bytes)
    ensures |HostStream(0, [body])| == |body| + 6
  {
    assert DownFrames([body]) == DownFrame(body) + DownFrames([]);
  }

  lemma LastFrame(d: Phy, d': Phy, body: bytes, arrived: bytes, b: byte)
    requires Fitting(body) && |arrived| == |body| + 5
    requires Settled(d) && Inv(d, [body], arrived, [b] + []) && Inv(d', [body], arrived + [b], [])
    requires d'.taken == d.taken && d'.pc == d.pc && d'.status.Running? && d'.tx == []
    ensures Waits(d', body)
  {
    var rest := [body][|d.taken|..];
    HeadOfStream(d.rx, [b] + [], rest);
    HeadOfStream(d'.rx, [], rest);
  }

  // The steps from there to a transmission on a data channel.
  function TxSteps(hdr: byte, aa: bytes, stack: bytes): seq<Action> {
    [PopEvent(stack), SetChan(0, aa), TestFifo, Tx(hdr, [])]
  }

  lemma RunFour(ccm: Ccm, d: Phy, a1: Action, a2: Action, a3: Action, a4: Action)
    requires Lawful(ccm) && Valid(d) && ValidActions([a1, a2, a3, a4])
    requires ValidAction(a1) && ValidAction(a2) && ValidAction(a3) && ValidAction(a4)
    ensures Run(ccm, d, [a1, a2, a3, a4]) ==
            Step(ccm, Step(ccm, Step(ccm, Step(ccm, d, a1), a2), a3), a4)
  {
    RunLast(ccm, d, [], a1);
    RunLast(ccm, d, [a1], a2);
    RunLast(ccm, d, [a1, a2], a3);
    RunLast(ccm, d, [a1, a2, a3], a4);
    assert [] + [a1] == [a1] && [a1] + [a2] == [a1, a2] && [a1, a2] + [a3] == [a1, a2, a3];
    assert [a1, a2, a3] + [a4] == [a1, a2, a3, a4];
  }

  lemma ToTransmission(ccm: Ccm, d: Phy, hdr: byte, aa: bytes, body: bytes)
    requires Lawful(ccm) && Valid(d) && |aa| == 4 && Fitting(body) && Waits(d, body)
    ensures ValidActions(TxSteps(hdr, aa, d.rxBuf))
    ensures var r := Run(ccm, d, TxSteps(hdr, aa, d.rxBuf));
            && r.status.Running? && r.pc == Polling(0) && r.channel == 0
            && r.rxSn == Nesn(hdr) && r.rxNesn == 1 - Sn(hdr)
  {
    RunFour(ccm, d, PopEvent(d.rxBuf), SetChan(0, aa), TestFifo, Tx(hdr, []));
    var d1 := d.(queued := false, pc := Testing);
    var d2 := d1.(channel := 0, llState := Connection, accessAddress := aa);
    assert Step(ccm, d, PopEvent(d.rxBuf)) == d1 && Step(ccm, d1, SetChan(0, aa)) == d2;
    TakesFitting(ccm, d2);
    EmptyTx(ccm, TestStep(ccm, d2), hdr);
  }

  lemma TakesFitting(ccm: Ccm, d: Phy)
    requires Lawful(ccm) && Valid(d) && PktLen(d.rx).Some? && 1 <= PktLen(d.rx).value <= RX_BUF_SIZE
    requires d.channel < FIRST_ADV_CHANNEL && d.status.Running?
    ensures var r := TestStep(ccm, d);
            r.status.Running? && r.pc == Polling(0) && r.channel == d.channel && r.tx == d.tx
  {
    TakeTransport(ccm, d, PktLen(d.rx).value);
  }

  lemma EmptyTx(ccm: Ccm, d: Phy, hdr: byte)
    requires Lawful(ccm) && Valid(d) && d.status.Running? && d.channel == 0 && d.tx == []
    ensures var r := Step(ccm, d, Tx(hdr, []));
            && r.status.Running? && r.pc == d.pc && r.channel == 0
            && r.rxSn == Nesn(hdr) && r.rxNesn == 1 - Sn(hdr)
  {
    WireSize(DriverSend(ccm, d.keys, d.accessAddress, hdr, []));
  }

  // The first packet of a new connection.
  function ConnectSteps(aa: bytes): seq<Action> {
    [SetChan(1, aa), Resume]
  }

  lemma LinkTwo(ccm: Ccm, l: Link, a1: Action, a2: Action)
    requires Lawful(ccm) && Valid(l.phy) && ValidActions([a1, a2]) && ValidAction(a1) && ValidAction(a2)
    ensures LinkRun(ccm, l, [a1, a2]) == LinkStep(ccm, LinkStep(ccm, l, a1), a2)
  {
    assert [a1, a2][..1] == [a1] && [a1][..0] == [];
    assert LinkRun(ccm, l, []) == l;
    assert LinkRun(ccm, l, [a1]) == LinkStep(ccm, LinkRun(ccm, l, []), a1);
  }

  lemma ResumeOffersData(ccm: Ccm, d: Phy)
    requires Lawful(ccm) && Valid(d) && d.status.Running? && d.pc == Polling(0) && d.channel < FIRST_ADV_CHANNEL
    ensures var r := Step(ccm, d, Resume);
            r.status.Running? && r.channel == d.channel && OffersData(d, r)
  {
  }

  lemma FirstOffer(ccm: Ccm, l: Link, aa: bytes)
    requires Lawful(ccm) && Valid(l.phy) && |aa| == 4 && l.peer == Peer(0, 0, 0) && l.log == []
    requires l.phy.status.Running? && l.phy.pc == Polling(0)
    ensures ValidActions(ConnectSteps(aa)) && NoneSent(ccm, l, ConnectSteps(aa))
    ensures LinkRun(ccm, l, ConnectSteps(aa)).log == [Got(l.phy.rxSn == 0, l.phy.rxNesn == 1)]
  {
    var l1 := l.(phy := l.phy.(channel := 1, llState := Connection, accessAddress := aa));
    assert LinkStep(ccm, l, SetChan(1, aa)) == l1;
    LinkTwo(ccm, l, SetChan(1, aa), Resume);
    ResumeOffersData(ccm, l1.phy);
    FreshConnection(ccm, l, ConnectSteps(aa));
  }

  // The input for which a new connection starts wrongly: after a transmission with NESN set and
  // SN clear on an old connection, the first packet of the new one is taken for a
  // retransmission and for an acknowledgement of a PDU that was never sent.
  lemma StaleConnection(ccm: Ccm, d0: Phy, oldAa: bytes, newAa: bytes) returns (before: seq<Action>)
    requires Lawful(ccm) && Fresh(d0) && d0.tx == [] && |oldAa| == 4 && |newAa| == 4
    ensures ValidActions(before) && ValidActions(ConnectSteps(newAa))
    ensures var l := Link(Run(ccm, d0, before), Peer(0, 0, 0), []);
            LinkRun(ccm, l, ConnectSteps(newAa)).log == [Got(false, true)]
  {
    var hdr: byte := 4;
    assert Nesn(hdr) == 1 && Sn(hdr) == 0;
    var body: bytes := [0, 0, 0, 0, 1, 0];
    var arrival := FrameWaits(ccm, d0, body);
    ToTransmission(ccm, Run(ccm, d0, arrival), hdr, oldAa, body);
    before := arrival + TxSteps(hdr, oldAa, Run(ccm, d0, arrival).rxBuf);
    RunAppend(ccm, d0, arrival, TxSteps(hdr, oldAa, Run(ccm, d0, arrival).rxBuf), before);
    FirstOffer(ccm, Link(Run(ccm, d0, before), Peer(0, 0, 0), []), newAa);
  }
}
