/**
 The downlink as a producer/consumer protocol: for every interleaving of arriving bytes,
 receive task and BLE stack, the driver takes the host's packets in order and loses none.
 */
module Downlink {
  import opened Bytes
  import opened Framing
  import opened LinkCrypto
  import opened PhyModel

  // A driver that has just started; everything the transport does not use is arbitrary.
  ghost predicate Fresh(d: Phy) {
    && Valid(d) && d.status.Running? && d.pktCount == 0
    && d.rx == [] && !d.queued && d.pc.Idle? && d.taken == []
  }

  // The bytes that arrive in a run, in order.
  ghost function Arrived(actions: seq<Action>): bytes {
    if actions == [] then []
    else
      var last := actions[|actions| - 1];
      Arrived(actions[..|actions| - 1]) + if last.RxChar? then [last.b] else []
  }

  ghost predicate HeadComplete(d: Phy) {
    PktLen(d.rx).Some? && PktLen(d.rx).value > 0
  }

  // A body that the driver can take: not empty, and no more than rx_buf holds.
  predicate Fitting(body: bytes) {
    1 <= |body| <= 260
  }

  // `arrived` has reached the driver and `coming` has not.
  ghost predicate Inv(d: Phy, bodies: seq<bytes>, arrived: bytes, coming: bytes) {
    && d.taken <= bodies && FrameSizes(d.taken, 1, RX_BUF_SIZE)
    && match d.status
       case Stopped(fault) => Expected(fault, bodies, |d.taken|)
       case Running =>
         && d.pktCount == |arrived| % UINT32
         && (|arrived| < 2 ==> d.rx == [] && d.taken == [])
         && (|arrived| >= 2 ==> d.rx + coming == DownFrames(bodies[|d.taken|..]))
         && (HeadComplete(d) ==> d.queued || !d.pc.Idle?)
  }

  // What may stop the driver after n packets: a full buffer, a transmission, a CONNECT_IND
  // without effect, or a packet that it cannot take.
  ghost predicate Expected(fault: Fault, bodies: seq<bytes>, n: nat) {
    || fault.RxFifoFull? || fault.TxFifoFull? || fault.TxBufferSize? || fault.NotOnDataChannel?
    || (fault.RxBufferSize? && n < |bodies| && bodies[n] != [] && !Fitting(bodies[n]))
  }

  lemma RxCharKeepsInv(d: Phy, b: byte, logTx: byte, bodies: seq<bytes>, arrived: bytes, coming: bytes)
    requires Valid(d) && d.status.Running? && FrameSizes(bodies, 0, 0xFFFF)
    requires arrived + [b] + coming == HostStream(logTx, bodies) && |arrived| < UINT32
    requires Inv(d, bodies, arrived, [b] + coming)
    ensures Inv(RxCharStep(d, b), bodies, arrived + [b], coming)
  {
    var stream := HostStream(logTx, bodies);
    assert stream[|arrived|] == b;
    if |arrived| == 1 {
      assert coming == stream[2..] == DownFrames(bodies);
    } else if |arrived| >= 2 {
      DataByteKeepsInv(d, b, bodies, arrived, coming);
    }
  }

  lemma BufferByteStep(d: Phy, b: byte)
    requires Valid(d)
    ensures var r := BufferByte(d, b);
            && r.taken == d.taken && r.pc == d.pc && r.pktCount == d.pktCount
            && if |d.rx| == 1024 then r.status == Stopped(RxFifoFull)
               else
                 && r.rx == d.rx + [b]
                 && match PktLen(d.rx + [b])
                    case None => r.status == Stopped(NotOnFrameBoundary)
                    case Some(n) => r.status == d.status && r.queued == (d.queued || n > 0)
  {
  }

  lemma DataByteStep(d: Phy, b: byte)
    requires Valid(d) && d.pktCount >= 2
    ensures RxCharStep(d, b) == BufferByte(d.(pktCount := (d.pktCount + 1) % UINT32), b)
  {
  }

  lemma DataByteKeepsInv(d: Phy, b: byte, bodies: seq<bytes>, arrived: bytes, coming: bytes)
    requires Valid(d) && d.status.Running? && FrameSizes(bodies, 0, 0xFFFF)
    requires 2 <= |arrived| < UINT32
    requires Inv(d, bodies, arrived, [b] + coming)
    ensures Inv(RxCharStep(d, b), bodies, arrived + [b], coming)
  {
    var rest := bodies[|d.taken|..];
    Associative(d.rx, [b], coming);
    HeadOfStream(d.rx + [b], coming, rest);
    assert d.pktCount == |arrived|;
    DataByteStep(d, b);
    BufferByteStep(d.(pktCount := (d.pktCount + 1) % UINT32), b);
  }

  // What judging a packet and the first iteration leave alone.
  ghost predicate TaskOnly(d: Phy, r: Phy) {
    && r.taken == d.taken && r.rx == d.rx && r.pktCount == d.pktCount && r.queued == d.queued
    && r.tx == d.tx && r.sent == d.sent && r.uart == d.uart
    && r.channel == d.channel && r.keys == d.keys && r.sentNonEmpty == d.sentNonEmpty
    && r.accessAddress == d.accessAddress && r.llState == d.llState
  }

  // It ends in the first delay, or in the stop after a CONNECT_IND.
  ghost predicate Judged(d: Phy, r: Phy) {
    if r.status.Running? then r.pc == Polling(0)
    else r.status.fault.NotOnDataChannel? && d.lastWasConn && d.channel >= FIRST_ADV_CHANNEL
  }

  lemma IterateOnly(d: Phy, i: nat, packet: bytes)
    requires Valid(d) && i < POLLS && (packet == [] || 6 <= |packet| <= RX_BUF_SIZE)
    ensures var r := Iterate(d, i, packet);
            TaskOnly(d, r) && r.pc == Polling(i) && r.status == d.status && r.cryptoOk == d.cryptoOk
  {
  }

  lemma JudgeTransport(d: Phy, packet: bytes, ok: bool)
    requires Valid(d) && d.status.Running? && 6 <= |packet| <= RX_BUF_SIZE
    ensures TaskOnly(d, Judge(d, packet, ok)) && Judged(d, Judge(d, packet, ok))
  {
    var accept := Accepts(d, packet);
    var d1 := d.(cryptoOk := !accept || ok, lastWasConn := accept && IsConnectInd(packet));
    IterateOnly(d1, 0, if accept then packet else []);
  }

  lemma TakeTransport(ccm: Ccm, d: Phy, n: nat)
    requires Lawful(ccm) && Valid(d) && d.status.Running? && n <= RX_BUF_SIZE && |d.rx| >= n + 4
    ensures var r := TakeStep(ccm, d, n);
            && TaskOnly(d.(rx := d.rx[n + 4..], taken := d.taken + [d.rx[3..3 + n]]), r)
            && Judged(d, r)
  {
    var (ok, plain) := DriverReceive(ccm, d.keys, d.rx[3..3 + n]);
    var d1 := AfterRead(ccm, d, n);
    JudgeTransport(d1, Readable(d1.rxBuf, plain), ok);
  }

  lemma TakeKeepsInv(ccm: Ccm, d: Phy, bodies: seq<bytes>, arrived: bytes, coming: bytes)
    requires Lawful(ccm) && Valid(d) && d.status.Running? && d.pc.Testing?
    requires FrameSizes(bodies, 0, 0xFFFF)
    requires Inv(d, bodies, arrived, coming)
    ensures Inv(TestStep(ccm, d), bodies, arrived, coming)
  {
    if |arrived| >= 2 {
      var rest := bodies[|d.taken|..];
      HeadOfStream(d.rx, coming, rest);
      var n := PktLen(d.rx).value;
      if n > 0 {
        assert rest[0] == bodies[|d.taken|];
        if n <= RX_BUF_SIZE {
          TakeTransport(ccm, d, n);
          HeadTaken(d, TestStep(ccm, d), bodies, arrived, coming);
        }
      }
    }
  }

  lemma HeadTaken(d: Phy, d': Phy, bodies: seq<bytes>, arrived: bytes, coming: bytes)
    requires Inv(d, bodies, arrived, coming) && d.status.Running? && |arrived| >= 2
    requires |d.taken| < |bodies| && Fitting(bodies[|d.taken|])
    requires d'.pktCount == d.pktCount
    requires Judged(d, d')
    requires d'.taken == d.taken + [bodies[|d.taken|]]
    requires d'.rx + coming == DownFrames(bodies[|d.taken|..][1..])
    ensures Inv(d', bodies, arrived, coming)
  {
    assert bodies[|d.taken|..][1..] == bodies[|d'.taken|..];
  }

  // Every other step leaves the transport alone, except that a failing transmission may stop
  // the driver; and it does not make an active receive task idle.
  lemma OtherSteps(ccm: Ccm, d: Phy, a: Action)
    requires Lawful(ccm) && Valid(d) && ValidAction(a) && d.status.Running?
    requires !a.RxChar? && !(a.TestFifo? && d.pc.Testing?)
    ensures TransportKept(d, Step(ccm, d, a))
  {
    match a {
      case Tx(hdr, payload) =>
        var packet := DriverSend(ccm, d.keys, d.accessAddress, hdr, payload);
        TxKeepsTransport(d, hdr, |payload|, packet, Encode(UpMessage(packet)));
      case _ =>
    }
  }

  ghost predicate TransportKept(d: Phy, d': Phy) {
    && d'.taken == d.taken && d'.rx == d.rx && d'.pktCount == d.pktCount
    && (d'.status.Stopped? ==> d'.status.fault.TxFifoFull? || d'.status.fault.TxBufferSize?)
    && (d.queued || !d.pc.Idle? ==> d'.queued || !d'.pc.Idle?)
  }

  lemma TxKeepsTransport(d: Phy, hdr: byte, len: nat, packet: bytes, wire: bytes)
    requires Valid(d) && d.status.Running?
    ensures TransportKept(d, TxStep(d, hdr, len, packet, wire))
  {
    NoteTxOnly(d, hdr, len);
    EnqueueOnly(NoteTx(d, hdr, len), packet, wire);
  }

  lemma NoteTxOnly(d: Phy, hdr: byte, len: nat)
    requires Valid(d)
    ensures var r := NoteTx(d, hdr, len);
            && r.taken == d.taken && r.rx == d.rx && r.pktCount == d.pktCount && r.status == d.status
            && r.queued == d.queued && r.pc == d.pc
  {
  }

  lemma EnqueueOnly(d: Phy, packet: bytes, wire: bytes)
    requires Valid(d) && d.status.Running?
    ensures TransportKept(d, Enqueue(d, packet, wire))
  {
  }

  lemma QuietStepKeepsInv(ccm: Ccm, d: Phy, a: Action, bodies: seq<bytes>, arrived: bytes, coming: bytes)
    requires Lawful(ccm) && Valid(d) && ValidAction(a) && !a.RxChar?
    requires FrameSizes(bodies, 0, 0xFFFF) && Inv(d, bodies, arrived, coming)
    ensures Inv(Step(ccm, d, a), bodies, arrived, coming)
  {
    if d.status.Running? {
      if a.TestFifo? && d.pc.Testing? {
        TakeKeepsInv(ccm, d, bodies, arrived, coming);
      } else {
        OtherSteps(ccm, d, a);
        KeptKeepsInv(d, Step(ccm, d, a), bodies, arrived, coming);
      }
    }
  }

  lemma KeptKeepsInv(d: Phy, d': Phy, bodies: seq<bytes>, arrived: bytes, coming: bytes)
    requires TransportKept(d, d') && d.status.Running? && Inv(d, bodies, arrived, coming)
    ensures Inv(d', bodies, arrived, coming)
  {
  }

  lemma {:induction false} RunKeepsInv(ccm: Ccm, d0: Phy, actions: seq<Action>, logTx: byte,
                                       bodies: seq<bytes>, coming: bytes)
    requires Lawful(ccm) && Fresh(d0) && ValidActions(actions)
    requires FrameSizes(bodies, 0, 0xFFFF)
    requires Arrived(actions) + coming == HostStream(logTx, bodies) && |Arrived(actions)| <= UINT32
    ensures Inv(Run(ccm, d0, actions), bodies, Arrived(actions), coming)
  {
    if actions != [] {
      var last := |actions| - 1;
      var a, before := actions[last], Run(ccm, d0, actions[..last]);
      var arrived := Arrived(actions[..last]);
      if a.RxChar? {
        assert Arrived(actions) == arrived + [a.b];
        Associative(arrived, [a.b], coming);
        RunKeepsInv(ccm, d0, actions[..last], logTx, bodies, [a.b] + coming);
        if before.status.Running? {
          RxCharKeepsInv(before, a.b, logTx, bodies, arrived, coming);
        }
      } else {
        assert arrived == Arrived(actions);
        RunKeepsInv(ccm, d0, actions[..last], logTx, bodies, coming);
        QuietStepKeepsInv(ccm, before, a, bodies, arrived, coming);
      }
    }
  }

  // Main result. In every run in which the bytes that arrive are the beginning of the host's
  // stream, the frames taken are a beginning of the packets sent; taken frames and buffered
  // bytes together are exactly what has arrived; no assertion about the stream fails, and only
  // a packet that rx_buf cannot hold stops the receive task; and once everything has arrived
  // and the driver is idle with no event queued, all packets have been taken, or all before
  // the first one without a body.
  lemma DownlinkStream(ccm: Ccm, d0: Phy, actions: seq<Action>, logTx: byte, bodies: seq<bytes>)
    requires Lawful(ccm) && Fresh(d0) && ValidActions(actions)
    requires FrameSizes(bodies, 0, 0xFFFF)
    requires Arrived(actions) <= HostStream(logTx, bodies) && |Arrived(actions)| <= UINT32
    ensures var d := Run(ccm, d0, actions);
            && d.taken <= bodies && FrameSizes(d.taken, 1, RX_BUF_SIZE)
            && (d.status.Stopped? ==> Expected(d.status.fault, bodies, |d.taken|))
            && (d.status.Running? && |Arrived(actions)| >= 2 ==>
                  Arrived(actions)[2..] == DownFrames(d.taken) + d.rx)
            && (d.status.Running? && Arrived(actions) == HostStream(logTx, bodies) && d.pc.Idle? && !d.queued ==>
                  if |d.taken| < |bodies| then bodies[|d.taken|] == [] else d.rx == [])
  {
    var arrived, stream := Arrived(actions), HostStream(logTx, bodies);
    var coming := stream[|arrived|..];
    assert arrived + coming == stream;
    RunKeepsInv(ccm, d0, actions, logTx, bodies, coming);
    if Run(ccm, d0, actions).status.Running? && |arrived| >= 2 {
      InvMeans(Run(ccm, d0, actions), logTx, bodies, arrived, coming);
    }
  }

  lemma InvMeans(d: Phy, logTx: byte, bodies: seq<bytes>, arrived: bytes, coming: bytes)
    requires FrameSizes(bodies, 0, 0xFFFF) && arrived + coming == HostStream(logTx, bodies)
    requires Inv(d, bodies, arrived, coming) && d.status.Running? && |arrived| >= 2
    ensures PktLen(d.rx).Some? && arrived[2..] == DownFrames(d.taken) + d.rx
    ensures coming == [] && d.pc.Idle? && !d.queued ==>
              if |d.taken| < |bodies| then bodies[|d.taken|] == [] else d.rx == []
  {
    assert arrived[2..] + coming == (arrived + coming)[2..] == DownFrames(bodies);
    Conserved(d.taken, d.rx, arrived[2..], coming, bodies);
    HeadOfStream(d.rx, coming, bodies[|d.taken|..]);
  }

  // Taken frames and buffered bytes are what has arrived.
  lemma Conserved(taken: seq<bytes>, rx: bytes, arrived: bytes, coming: bytes, bodies: seq<bytes>)
    requires taken <= bodies && rx + coming == DownFrames(bodies[|taken|..])
    requires arrived + coming == DownFrames(bodies)
    ensures arrived == DownFrames(taken) + rx
  {
    var rest := bodies[|taken|..];
    assert bodies == taken + rest;
    DownFramesConcat(taken, rest);
    Associative(DownFrames(taken), rx, coming);
    SameSuffix(arrived, DownFrames(taken) + rx, coming);
  }

  lemma SameSuffix(a: bytes, b: bytes, s: bytes)
    requires a + s == b + s
    ensures a == b
  {
    assert |a| == |b|;
    assert a == (a + s)[..|a|] && b == (b + s)[..|b|];
  }

  // No lost wakeup: whenever a complete frame waits at the head of the buffer, the receive
  // event is queued or the receive task is running and will test the buffer again; and every
  // test of the buffer finds it on a frame boundary.
  lemma NoLostWakeup(ccm: Ccm, d0: Phy, actions: seq<Action>, logTx: byte, bodies: seq<bytes>)
    requires Lawful(ccm) && Fresh(d0) && ValidActions(actions)
    requires FrameSizes(bodies, 0, 0xFFFF)
    requires Arrived(actions) <= HostStream(logTx, bodies) && |Arrived(actions)| <= UINT32
    requires Run(ccm, d0, actions).status.Running?
    ensures var d := Run(ccm, d0, actions);
            && PktLen(d.rx).Some?
            && (PktLen(d.rx).value > 0 ==> d.queued || d.pc.Testing? || d.pc.Polling?)
  {
    var d := Run(ccm, d0, actions);
    var arrived, stream := Arrived(actions), HostStream(logTx, bodies);
    var coming := stream[|arrived|..];
    assert arrived + coming == stream;
    RunKeepsInv(ccm, d0, actions, logTx, bodies, coming);
    if |arrived| >= 2 {
      HeadOfStream(d.rx, coming, bodies[|d.taken|..]);
    }
  }

  // ---------- the bound of 2^32 bytes ----------

  // How many of n arriving bytes go into the buffer: not those that `pkt_count` makes the
  // first or second.
  ghost function Buffered(n: nat): (r: nat)
    ensures r <= n
  {
    if n == 0 then 0 else Buffered(n - 1) + if n % UINT32 == 1 || n % UINT32 == 2 then 0 else 1
  }

  lemma {:induction false} BufferedCount(n: nat)
    ensures 2 <= n <= UINT32 ==> Buffered(n) == n - 2
    ensures n > UINT32 ==> Buffered(n) < n - 2
  {
    if 2 < n {
      BufferedCount(n - 1);
      assert n <= UINT32 ==> n % UINT32 == if n == UINT32 then 0 else n;
      assert n == UINT32 + 1 ==> n % UINT32 == 1;
    } else if n == 2 {
      assert Buffered(1) == 0 + Buffered(0);
    }
  }

  ghost predicate SizeInv(d: Phy, n: nat) {
    d.status.Running? ==> d.pktCount == n % UINT32 && |DownFrames(d.taken)| + |d.rx| == Buffered(n)
  }

  lemma OneMoreFrame(taken: seq<bytes>, body: bytes)
    ensures |DownFrames(taken + [body])| == |DownFrames(taken)| + |body| + 4
  {
    DownFramesConcat(taken, [body]);
    assert DownFrames([body]) == DownFrame(body) + DownFrames([]);
  }

  lemma TestKeepsSize(ccm: Ccm, d: Phy, n: nat)
    requires Lawful(ccm) && Valid(d) && d.status.Running? && SizeInv(d, n)
    ensures SizeInv(TestStep(ccm, d), n)
  {
    if HeadComplete(d) && PktLen(d.rx).value <= RX_BUF_SIZE {
      TakeTransport(ccm, d, PktLen(d.rx).value);
      OneMoreFrame(d.taken, d.rx[3..3 + PktLen(d.rx).value]);
    }
  }

  lemma RxCharCounts(d: Phy, b: byte)
    requires Valid(d) && RxCharStep(d, b).status.Running?
    ensures var d' := RxCharStep(d, b);
            && d'.pktCount == (d.pktCount + 1) % UINT32 && d'.taken == d.taken
            && |d'.rx| == |d.rx| + if d'.pktCount == 1 || d'.pktCount == 2 then 0 else 1
  {
  }

  lemma RxCharKeepsSize(d: Phy, b: byte, n: nat)
    requires Valid(d) && d.status.Running? && SizeInv(d, n)
    ensures SizeInv(RxCharStep(d, b), n + 1)
  {
    if RxCharStep(d, b).status.Running? {
      RxCharCounts(d, b);
      NextCount(n);
    }
  }

  lemma NextCount(n: nat)
    ensures (n % UINT32 + 1) % UINT32 == (n + 1) % UINT32
  {
  }

  lemma StepKeepsSize(ccm: Ccm, d: Phy, a: Action, n: nat)
    requires Lawful(ccm) && Valid(d) && ValidAction(a) && SizeInv(d, n)
    ensures SizeInv(Step(ccm, d, a), if a.RxChar? then n + 1 else n)
  {
    if d.status.Running? {
      if a.RxChar? {
        RxCharKeepsSize(d, a.b, n);
      } else if a.TestFifo? && d.pc.Testing? {
        TestKeepsSize(ccm, d, n);
      } else {
        OtherSteps(ccm, d, a);
      }
    }
  }

  lemma {:induction false} RunKeepsSize(ccm: Ccm, d0: Phy, actions: seq<Action>)
    requires Lawful(ccm) && Fresh(d0) && ValidActions(actions)
    ensures SizeInv(Run(ccm, d0, actions), |Arrived(actions)|)
  {
    if actions != [] {
      var last := |actions| - 1;
      RunKeepsSize(ccm, d0, actions[..last]);
      StepKeepsSize(ccm, Run(ccm, d0, actions[..last]), actions[last], |Arrived(actions[..last])|);
    }
  }

  // The bound of the stream theorem is exact: in every run on the host's stream that has not
  // stopped, taken frames and buffered bytes are what has arrived if and only if that is at
  // most 2^32 bytes, as `pkt_count` starts again then.
  lemma ConservedIff(ccm: Ccm, d0: Phy, actions: seq<Action>, logTx: byte, bodies: seq<bytes>)
    requires Lawful(ccm) && Fresh(d0) && ValidActions(actions)
    requires FrameSizes(bodies, 0, 0xFFFF) && Arrived(actions) <= HostStream(logTx, bodies)
    requires |Arrived(actions)| >= 2 && Run(ccm, d0, actions).status.Running?
    ensures var d := Run(ccm, d0, actions);
            Arrived(actions)[2..] == DownFrames(d.taken) + d.rx <==> |Arrived(actions)| <= 0x1_0000_0000
  {
    if |Arrived(actions)| <= UINT32 {
      DownlinkStream(ccm, d0, actions, logTx, bodies);
    } else {
      RunKeepsSize(ccm, d0, actions);
      BufferedCount(|Arrived(actions)|);
    }
  }

  // What becomes of the byte after 2^32: it is taken for the first one of the connection, so
  // the driver stops unless it is 0xCC, and loses it if it is.
  lemma CounterWraps(ccm: Ccm, d0: Phy, actions: seq<Action>, logTx: byte, bodies: seq<bytes>, b: byte)
    requires Lawful(ccm) && Fresh(d0) && ValidActions(actions)
    requires FrameSizes(bodies, 0, 0xFFFF)
    requires Arrived(actions) <= HostStream(logTx, bodies) && |Arrived(actions)| == UINT32
    requires Run(ccm, d0, actions).status.Running?
    ensures var d := Run(ccm, d0, actions);
            var d' := Step(ccm, d, RxChar(b));
            if b == CMD_CONFIG_LOG_TX then d' == d.(pktCount := 1)
            else d'.status == Stopped(FirstByteNotConfig)
  {
    RunKeepsSize(ccm, d0, actions);
  }

  // ---------- packets without a body ----------

  // The driver uses length 0 for "no frame", so a frame without a body at the head of the
  // buffer stays there and nothing is taken ever again.
  lemma {:induction false} EmptyFrameBlocks(ccm: Ccm, d0: Phy, actions: seq<Action>)
    requires Lawful(ccm) && Valid(d0) && ValidActions(actions)
    requires DownFrame([])[..3] <= d0.rx
    ensures DownFrame([])[..3] <= Run(ccm, d0, actions).rx && Run(ccm, d0, actions).taken == d0.taken
  {
    if actions != [] {
      var last := |actions| - 1;
      EmptyFrameBlocks(ccm, d0, actions[..last]);
      EmptyHead(Run(ccm, d0, actions[..last]).rx);
      BlockedStep(ccm, Run(ccm, d0, actions[..last]), actions[last]);
      EmptyHead(Run(ccm, d0, actions).rx);
    }
  }

  // No run takes more than the packets before the first one that the driver cannot take; and
  // once everything has arrived and the driver is idle with no event queued, it has taken all
  // packets if and only if it can take each of them.
  lemma AllTakenIff(ccm: Ccm, d0: Phy, actions: seq<Action>, logTx: byte, bodies: seq<bytes>)
    requires Lawful(ccm) && Fresh(d0) && ValidActions(actions)
    requires FrameSizes(bodies, 0, 0xFFFF)
    requires Arrived(actions) <= HostStream(logTx, bodies) && |Arrived(actions)| <= UINT32
    ensures var d := Run(ccm, d0, actions);
            && (forall k | 0 <= k < |bodies| && !Fitting(bodies[k]) :: |d.taken| <= k)
            && (d.status.Running? && Arrived(actions) == HostStream(logTx, bodies) && d.pc.Idle? && !d.queued ==>
                  (d.taken == bodies <==> forall k | 0 <= k < |bodies| :: Fitting(bodies[k])))
  {
    DownlinkStream(ccm, d0, actions, logTx, bodies);
    var d := Run(ccm, d0, actions);
    assert forall k | 0 <= k < |d.taken| :: d.taken[k] == bodies[k] && Fitting(d.taken[k]);
  }

  ghost predicate Blocked(rx: bytes) {
    |rx| >= 3 && rx[0] == CMD_DATA && rx[1] == 0 && rx[2] == 0
  }

  lemma EmptyHead(rx: bytes)
    ensures DownFrame([])[..3] <= rx <==> Blocked(rx)
  {
    assert DownFrame([])[..3] == [CMD_DATA, 0, 0];
  }

  lemma BlockedRxChar(d: Phy, b: byte)
    requires Valid(d) && Blocked(d.rx)
    ensures Blocked(RxCharStep(d, b).rx) && RxCharStep(d, b).taken == d.taken
  {
  }

  lemma BlockedTest(ccm: Ccm, d: Phy)
    requires Lawful(ccm) && Valid(d) && Blocked(d.rx)
    ensures TestStep(ccm, d).rx == d.rx && TestStep(ccm, d).taken == d.taken
  {
    assert PktLen(d.rx).Some? ==> PktLen(d.rx).value == 0;
  }

  lemma BlockedStep(ccm: Ccm, d: Phy, a: Action)
    requires Lawful(ccm) && Valid(d) && ValidAction(a) && Blocked(d.rx)
    ensures Blocked(Step(ccm, d, a).rx) && Step(ccm, d, a).taken == d.taken
  {
    if a.TestFifo? {
      BlockedTest(ccm, d);
    } else if a.RxChar? {
      BlockedRxChar(d, a.b);
    } else if d.status.Running? {
      OtherSteps(ccm, d, a);
    }
  }
}
