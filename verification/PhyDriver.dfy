/**
 The bridge driver in its own form: global state that is updated in place, two ring buffers
 and two packet buffers. recv_packet is cut at its delay points; every method does exactly the
 corresponding step of the state machine, for which the protocol theorems are proved.
 */
module BridgeDriver {
  import opened Bytes
  import opened Fifos
  import opened Framing
  import opened LinkCrypto
  import opened PhyModel

  // The 8-bit sum that ble_phy_tx accumulates with wrap-around is the sum modulo 256 that
  // the host computes.
  method Checksum(buf: array<byte>, n: nat) returns (checksum: byte)
    requires n <= buf.Length
    ensures checksum == Sum(buf[..n]) % 256
  {
    checksum := 0;
    var i := 0;
    while i < n
      invariant 0 <= i <= n
      invariant checksum == Sum(buf[..i]) % 256
    {
      assert buf[..i + 1][..i] == buf[..i];
      var next := checksum as int + buf[i] as int;
      checksum := next % 256;
      i := i + 1;
    }
  }

  // Overwrites buf[at..at + |data|].
  method Store(buf: array<byte>, at: nat, data: bytes)
    requires at + |data| <= buf.Length
    modifies buf
    ensures forall i | 0 <= i < buf.Length ::
              buf[i] == if at <= i < at + |data| then data[i - at] else old(buf[i])
  {
    forall i | 0 <= i < |data| {
      buf[at + i] := data[i];
    }
  }

  lemma PacketParts(packet: bytes, aa: bytes, hdr: byte, len: byte, data: bytes)
    requires |aa| == 4 && |packet| == |data| + 9
    requires forall i | 0 <= i < 6 :: packet[i] == (aa + [hdr, len])[i]
    requires forall i | 6 <= i < |data| + 6 :: packet[i] == data[i - 6]
    requires forall i | |data| + 6 <= i < |packet| :: packet[i] == 0
    ensures packet == Pdu(aa, hdr, len, data) + [0, 0, 0]
  {
  }

  lemma CutFrame(was: bytes, header: bytes, afterHeader: bytes, body: bytes, afterBody: bytes,
                 checksum: byte, rest: bytes)
    requires was == header + afterHeader && |header| == 3
    requires afterHeader == body + afterBody && afterBody == [checksum] + rest
    ensures was[..3] == header && was[3..3 + |body|] == body && was[|body| + 4..] == rest
  {
    assert was == header + body + [checksum] + rest;
  }

  lemma ReadableIs(buf: bytes, n: nat)
    requires |buf| == RX_BUF_SIZE && n <= RX_BUF_SIZE
    ensures Readable(buf, buf[..n]) == buf[..if n < 6 then 6 else n]
  {
  }

  class PhyDriver {
    const ccm: Ccm
    const rxFifo: Fifo
    const txFifo: Fifo
    const rxBuf: array<byte>
    const txBuf: array<byte>
    var status: Status
    var pktCount: nat
    var queued: bool
    var pc: Pc
    var cryptoOk: bool
    var lastWasConn: bool
    var sentNonEmpty: bool
    var channel: nat
    var llState: LlState
    var accessAddress: bytes
    var rxSn: int
    var rxNesn: int
    var keys: PhyKeys
    ghost var taken: seq<bytes>
    ghost var offers: seq<Offer>
    ghost var sent: seq<bytes>
    ghost var uart: bytes

    ghost predicate Valid()
      reads this, rxFifo, txFifo
    {
      && Lawful(ccm)
      && rxFifo != txFifo && rxFifo.Valid() && txFifo.Valid()
      && rxFifo.capacity as int == FIFO_CAPACITY && txFifo.capacity as int == FIFO_CAPACITY
      && rxBuf.Length == RX_BUF_SIZE && txBuf.Length == TX_BUF_SIZE
      && rxFifo.buf != txFifo.buf && rxBuf != txBuf
      && rxFifo.buf != rxBuf && rxFifo.buf != txBuf && txFifo.buf != rxBuf && txFifo.buf != txBuf
      && 0 <= rxSn <= 1 && 0 <= rxNesn <= 1 && pktCount < UINT32 && |accessAddress| == 4
      && (pc.Polling? ==> pc.i < POLLS)
    }

    ghost function View(): (d: Phy)
      requires Valid()
      reads this, rxFifo, rxFifo.buf, txFifo, txFifo.buf, rxBuf
      ensures PhyModel.Valid(d)
    {
      Phy(status, pktCount, rxFifo.Contents(), queued, pc, rxBuf[..], cryptoOk, lastWasConn, sentNonEmpty, channel,
          llState, accessAddress, rxSn, rxNesn, keys, txFifo.Contents(), taken, offers, sent, uart)
    }

    constructor (ccm: Ccm)
      requires Lawful(ccm)
      ensures Valid() && View().status.Running? && View().pc.Idle? && View().channel >= FIRST_ADV_CHANNEL
      ensures View().rx == [] && View().tx == [] && !View().queued && View().pktCount == 0
      ensures View().taken == [] && View().offers == [] && View().sent == [] && View().uart == []
    {
      this.ccm := ccm;
      rxFifo := new Fifo(1024);
      txFifo := new Fifo(1024);
      rxBuf := new byte[RX_BUF_SIZE](_ => 0);
      txBuf := new byte[TX_BUF_SIZE](_ => 0);
      status, pktCount, queued, pc := Running, 0, false, Idle;
      cryptoOk, lastWasConn, sentNonEmpty := true, false, false;
      channel, llState, accessAddress, rxSn, rxNesn := 40, NoState, [0, 0, 0, 0], 0, 0;
      keys := PhyKeys(false, [], [], 0);
      taken, offers, sent, uart := [], [], [], [];
    }

    // A failing assertion.
    method Fail(fault: Fault)
      requires Valid()
      modifies this`status
      ensures Valid() && View() == Stop(old(View()), fault)
    {
      status := Stopped(fault);
    }

    // Where the receive task stands.
    method Goto(next: Pc)
      requires Valid() && (next.Polling? ==> next.i < POLLS)
      modifies this`pc
      ensures Valid() && View() == old(View()).(pc := next)
    {
      pc := next;
    }

    // fifo_get_pkt_len; `ok` is false if its assertion fails.
    method FifoGetPktLen(f: Fifo) returns (ok: bool, n: nat)
      requires f.Valid()
      ensures ok <==> PktLen(f.Contents()).Some?
      ensures ok ==> n == PktLen(f.Contents()).value
    {
      ok, n := true, 0;
      if f.size > 3 {
        var cmd := f.Peek(0);
        if cmd != CMD_DATA {
          ok := false;
          return;
        }
        var lo := f.Peek(1);
        var hi := f.Peek(2);
        var len := Le16Value(lo, hi);
        if f.size as int >= 1 + 2 + len + 1 {
          n := len;
        }
      }
    }

    // ble_phy_uart_rx_char
    method UartRxChar(b: byte)
      requires Valid() && status.Running?
      modifies this, rxFifo`size, rxFifo.buf
      ensures Valid() && View() == Step(ccm, old(View()), RxChar(b))
    {
      pktCount := (pktCount + 1) % UINT32;
      assert View() == old(View()).(pktCount := pktCount);
      if pktCount == 1 {
        if b != CMD_CONFIG_LOG_TX {
          Fail(FirstByteNotConfig);
        }
      } else if pktCount != 2 {
        BufferByte(b);
      }
    }

    // A byte of a frame: goes into the buffer and, if it leaves a complete frame at the head,
    // posts the receive event.
    method BufferByte(b: byte)
      requires Valid() && status.Running?
      modifies this`status, this`queued, rxFifo`size, rxFifo.buf
      ensures Valid()
      ensures View() == PhyModel.BufferByte(old(View()), b)
    {
      if rxFifo.size == rxFifo.capacity {
        Fail(RxFifoFull);
      } else {
        var ok, n := AddAndTest(b);
        if !ok {
          Fail(NotOnFrameBoundary);
        } else if n > 0 {
          queued := true;
        }
      }
    }

    method AddAndTest(b: byte) returns (ok: bool, n: nat)
      requires Valid() && rxFifo.size < rxFifo.capacity
      modifies rxFifo`size, rxFifo.buf
      ensures Valid() && View() == old(View()).(rx := old(View()).rx + [b])
      ensures ok <==> PktLen(View().rx).Some?
      ensures ok ==> n == PktLen(View().rx).value
    {
      rxFifo.AddByte(b);
      ghost var d := View();
      ok, n := FifoGetPktLen(rxFifo);
      assert View() == d;
    }

    // os_eventq_run takes the receive event and enters recv_packet, whose local rx_buf starts
    // with whatever the stack holds.
    method EventqRun(stack: bytes)
      requires Valid() && status.Running? && pc.Idle? && queued && |stack| == RX_BUF_SIZE
      modifies this`queued, this`pc, rxBuf
      ensures Valid() && View() == Step(ccm, old(View()), PopEvent(stack))
    {
      Store(rxBuf, 0, stack);
      assert rxBuf[..] == stack;
      queued, pc := false, Testing;
    }

    // The decryption branch of recv_packet, in place on the first n bytes of rx_buf.
    method Decrypt(n: nat) returns (ok: bool, len: nat)
      requires Valid() && n <= RX_BUF_SIZE
      modifies rxBuf
      ensures var (verified, plain) := DriverReceive(ccm, keys, old(rxBuf[..n]));
              && ok == verified && len == |plain| <= n
              && Valid() && View() == old(View()).(rxBuf := Overlay(old(View()).rxBuf, plain))
    {
      ok, len := true, n;
      ghost var was := rxBuf[..];
      if keys.enabled && n > 10 && rxBuf[5] > 0 {
        var nonce := Nonce(keys.counter, true, keys.iv);
        var (verified, plain) := ccm.dec(keys.key, nonce, MaskE3(rxBuf[4]), rxBuf[6..n]);
        assert was[..n][6..] == rxBuf[6..n];
        var length := (rxBuf[5] as int - 4) % 256;
        Store(rxBuf, 6, plain);
        rxBuf[5] := length;
        ok, len := verified, n - 4;
        assert rxBuf[..] == Overlay(was, was[..n][..5] + [length] + plain);
      } else {
        assert rxBuf[..] == Overlay(was, was[..n]);
      }
    }

    // One iteration of the polling loop up to its delay, for the first n bytes of rx_buf.
    method IterateLoop(i: nat, n: nat, isAdv: bool)
      requires Valid() && i < POLLS && (n == 0 || 6 <= n <= RX_BUF_SIZE)
      requires n > 0 ==> isAdv == IsAdv(rxBuf[..n])
      modifies this`pc, this`offers, rxBuf
      ensures Valid() && View() == Iterate(old(View()), i, old(rxBuf[..n]))
    {
      Goto(Polling(i));
      if n == 0 && channel < FIRST_ADV_CHANNEL {
        MakeEmptyPacket();
        OfferFixed(6, false);
      } else if n > 0 {
        OfferFixed(n, isAdv);
      }
    }

    // Fixes the sequence bits of a packet that is no advertising packet and offers it.
    method OfferFixed(n: nat, isAdv: bool)
      requires Valid() && 6 <= n <= RX_BUF_SIZE
      modifies this`offers, rxBuf
      ensures Valid()
      ensures View() ==
              var d, packet := old(View()), old(rxBuf[..n]);
              var fixed := if isAdv then packet else packet[4 := WithSeqBits(packet[4], d.rxSn, d.rxNesn)];
              d.(rxBuf := Overlay(d.rxBuf, fixed),
                 offers := d.offers + [Offer(fixed, d.channel, d.llState, !d.cryptoOk)])
    {
      if !isAdv {
        FixSequence(n);
      } else {
        assert View().rxBuf == Overlay(View().rxBuf, rxBuf[..n]);
      }
      OfferPacket(n);
    }

    method MakeEmptyPacket()
      requires Valid()
      modifies rxBuf
      ensures Valid() && View() == old(View()).(rxBuf := Overlay(old(View()).rxBuf, EmptyPacket(old(View()))))
    {
      ghost var was := rxBuf[..];
      Store(rxBuf, 0, accessAddress + [0x01, 0x00]);
      assert rxBuf[..] == Overlay(was, accessAddress + [0x01, 0x00]);
    }

    method FixSequence(n: nat)
      requires Valid() && 6 <= n <= RX_BUF_SIZE
      modifies rxBuf
      ensures var fixed := old(rxBuf[..n])[4 := WithSeqBits(old(rxBuf[4]), rxSn, rxNesn)];
              Valid() && View() == old(View()).(rxBuf := Overlay(old(View()).rxBuf, fixed))
    {
      ghost var was := rxBuf[..];
      rxBuf[4] := WithSeqBits(rxBuf[4], rxSn, rxNesn);
      assert rxBuf[..] == Overlay(was, was[..n][4 := WithSeqBits(was[4], rxSn, rxNesn)]);
    }

    method OfferPacket(n: nat)
      requires Valid() && n <= RX_BUF_SIZE
      modifies this`offers
      ensures Valid()
      ensures View() ==
              var d := old(View());
              d.(offers := d.offers + [Offer(d.rxBuf[..n], d.channel, d.llState, !d.cryptoOk)])
    {
      offers := offers + [Offer(rxBuf[..n], channel, llState, !cryptoOk)];
    }

    // The head of recv_packet's outer loop: leaves if there is no complete frame, otherwise
    // takes one, decrypts it, decides whether to accept it and starts polling.
    method TestFifo()
      requires Valid() && status.Running? && pc.Testing?
      modifies this, rxFifo`size, rxFifo`tail, rxBuf
      ensures Valid() && View() == Step(ccm, old(View()), Action.TestFifo)
    {
      ghost var d := View();
      var ok, n := FifoGetPktLen(rxFifo);
      assert View() == d;
      if !ok {
        Fail(NotOnFrameBoundary);
      } else if n == 0 {
        Goto(Idle);
      } else if n > RX_BUF_SIZE {
        Fail(RxBufferSize);
      } else {
        TakeFrame(n);
      }
    }

    method TakeFrame(n: nat)
      requires Valid() && n <= RX_BUF_SIZE && rxFifo.size as int >= n + 4
      modifies this, rxFifo`size, rxFifo`tail, rxBuf
      ensures Valid() && View() == TakeStep(ccm, old(View()), n)
    {
      var ok, len := OpenFrame(n);
      Decide(ok, len);
    }

    // Reads a frame of n body bytes into rx_buf and decrypts it.
    method OpenFrame(n: nat) returns (ok: bool, len: nat)
      requires Valid() && n <= RX_BUF_SIZE && rxFifo.size as int >= n + 4
      modifies this`taken, rxFifo`size, rxFifo`tail, rxBuf
      ensures Valid() && View() == AfterRead(ccm, old(View()), n)
      ensures var (verified, plain) := DriverReceive(ccm, old(View()).keys, old(View()).rx[3..3 + n]);
              ok == verified && len == |plain| && View().rxBuf[..len] == plain
    {
      ReadFrame(n);
      NoteTaken(rxBuf[..n]);
      ok, len := Decrypt(n);
    }

    ghost method NoteTaken(body: bytes)
      requires Valid()
      modifies this`taken
      ensures Valid() && View() == old(View()).(taken := old(View()).taken + [body])
    {
      taken := taken + [body];
    }

    // Accepts the first n bytes of rx_buf or drops them, then starts polling.
    method Decide(ok: bool, n: nat)
      requires Valid() && n <= RX_BUF_SIZE
      modifies this`status, this`cryptoOk, this`lastWasConn, this`pc, this`offers, rxBuf
      ensures Valid()
      ensures View() == Judge(old(View()), Readable(old(View()).rxBuf, old(rxBuf[..n])), ok)
    {
      var readable := if n < 6 then 6 else n;
      ReadableIs(rxBuf[..], n);
      ghost var d, packet := View(), rxBuf[..readable];
      assert packet[..4] == rxBuf[..4];
      var isAdv := rxBuf[..4] == ADV_ACCESS_ADDRESS;
      var accept := (channel >= FIRST_ADV_CHANNEL) == isAdv;
      SetCrypto(!accept || ok);
      assert rxBuf[..readable] == packet;
      StartPolling(readable, isAdv);
      assert View() == Judge(d, packet, ok);
    }

    // The debugging stop, or the first iteration for an accepted or dropped packet.
    method StartPolling(n: nat, isAdv: bool)
      requires Valid() && 6 <= n <= RX_BUF_SIZE && isAdv == IsAdv(rxBuf[..n])
      modifies this`status, this`lastWasConn, this`pc, this`offers, rxBuf
      ensures Valid()
      ensures View() ==
              var d, packet := old(View()), old(rxBuf[..n]);
              if d.lastWasConn && d.channel >= FIRST_ADV_CHANNEL then Stop(d, NotOnDataChannel)
              else
                Iterate(d.(lastWasConn := Accepts(d, packet) && IsConnectInd(packet)), 0,
                        if Accepts(d, packet) then packet else [])
    {
      assert rxBuf[..n][4] == rxBuf[4];
      var accept := (channel >= FIRST_ADV_CHANNEL) == isAdv;
      if lastWasConn && channel >= FIRST_ADV_CHANNEL {
        Fail(NotOnDataChannel);
      } else {
        NoteConnectInd(isAdv && rxBuf[4] % 16 == 5 && accept);
        var len := if accept then n else 0;
        IterateLoop(0, len, isAdv);
      }
    }

    method SetCrypto(ok: bool)
      requires Valid()
      modifies this`cryptoOk
      ensures Valid() && View() == old(View()).(cryptoOk := ok)
    {
      cryptoOk := ok;
    }

    method NoteConnectInd(conn: bool)
      requires Valid()
      modifies this`lastWasConn
      ensures Valid() && View() == old(View()).(lastWasConn := conn)
    {
      lastWasConn := conn;
    }

    // Reads a frame of n body bytes; its command, length and checksum bytes are dropped, but
    // what the body does not cover of the first three stays in rx_buf.
    method ReadFrame(n: nat)
      requires Valid() && n <= RX_BUF_SIZE && rxFifo.size as int >= n + 4
      modifies rxFifo`size, rxFifo`tail, rxBuf
      ensures Valid()
      ensures var d := old(View());
              var body := d.rx[3..3 + n];
              View() == d.(rx := d.rx[n + 4..], rxBuf := ReadInto(d.rxBuf, d.rx[..3], body)) && rxBuf[..n] == body
    {
      ghost var was, buf := rxFifo.Contents(), rxBuf[..];
      rxFifo.GetBuf(rxBuf, 3);
      ghost var header, afterHeader, buf1 := rxBuf[..3], rxFifo.Contents(), rxBuf[..];
      assert buf1 == Overlay(buf, header);
      rxFifo.GetBuf(rxBuf, n);
      ghost var body, afterBody, buf2 := rxBuf[..n], rxFifo.Contents(), rxBuf[..];
      assert buf2 == Overlay(buf1, body);
      var checksum := rxFifo.GetByte();
      CutFrame(was, header, afterHeader, body, afterBody, checksum, rxFifo.Contents());
    }

    // recv_packet continues after a delay: ends the iteration and starts the next one.
    method ResumeLoop()
      requires Valid() && status.Running? && pc.Polling?
      modifies this, rxBuf
      ensures Valid() && View() == Step(ccm, old(View()), Resume)
    {
      var i := pc.i;
      if sentNonEmpty {
        sentNonEmpty := false;
        i := 0;
      }
      assert View() == old(View()).(sentNonEmpty := false);
      i := i + 1;
      if i < POLLS {
        IterateLoop(i, 0, false);
      } else {
        Goto(Testing);
      }
    }

    // Puts the packet of ble_phy_tx together in tx_buf.
    method BuildPacket(hdr: byte, payload: bytes) returns (n: nat)
      requires Valid() && |payload| <= TX_BUF_SIZE - 13
      modifies txBuf
      ensures n <= TX_BUF_SIZE
      ensures txBuf[..n] == DriverSend(ccm, keys, accessAddress, hdr, payload)
    {
      var data := payload;
      if keys.enabled && |payload| > 0 {
        var nonce := Nonce(keys.counter, false, keys.iv);
        data := ccm.enc(keys.key, nonce, MaskE3(hdr), payload);
      }
      n := 4 + 2 + |data| + 3;
      Store(txBuf, 6, data);
      Store(txBuf, 0, accessAddress + [hdr, |data| % 256]);
      Store(txBuf, n - 3, [0, 0, 0]);
      PacketParts(txBuf[..n], accessAddress, hdr, |data| % 256, data);
    }

    // ble_phy_tx
    method Tx(hdr: byte, payload: bytes)
      requires Valid() && status.Running?
      modifies this, txFifo`size, txFifo.buf, txBuf
      ensures Valid() && View() == Step(ccm, old(View()), Action.Tx(hdr, payload))
    {
      if |payload| > TX_BUF_SIZE - 13 {
        Fail(TxBufferSize);
      } else {
        Transmit(hdr, payload);
      }
    }

    method Transmit(hdr: byte, payload: bytes)
      requires Valid() && |payload| <= TX_BUF_SIZE - 13
      modifies this, txFifo`size, txFifo.buf, txBuf
      ensures Valid()
      ensures var packet := DriverSend(ccm, old(keys), old(accessAddress), hdr, payload);
              View() == Enqueue(NoteTx(old(View()), hdr, |payload|), packet, Encode(UpMessage(packet)))
    {
      NoteHeader(hdr, |payload|);
      ghost var d := View();
      var n := BuildPacket(hdr, payload);
      assert View() == d;
      SendPacket(n);
    }

    method NoteHeader(hdr: byte, len: nat)
      requires Valid()
      modifies this`rxSn, this`rxNesn, this`sentNonEmpty
      ensures Valid() && View() == NoteTx(old(View()), hdr, len)
    {
      if channel < FIRST_ADV_CHANNEL {
        SetSequence(Nesn(hdr), 1 - Sn(hdr));
      }
      if len > 0 {
        SetSentNonEmpty();
      }
    }

    method SetSequence(sn: int, nesn: int)
      requires Valid() && 0 <= sn <= 1 && 0 <= nesn <= 1
      modifies this`rxSn, this`rxNesn
      ensures Valid() && View() == old(View()).(rxSn := sn, rxNesn := nesn)
    {
      rxSn, rxNesn := sn, nesn;
    }

    method SetSentNonEmpty()
      requires Valid()
      modifies this`sentNonEmpty
      ensures Valid() && View() == old(View()).(sentNonEmpty := true)
    {
      sentNonEmpty := true;
    }

    // Puts the first n bytes of tx_buf into serial_tx_buf as one frame, if there is space.
    method SendPacket(n: nat)
      requires Valid() && n <= TX_BUF_SIZE
      modifies this`status, this`sent, txFifo`size, txFifo.buf
      ensures Valid()
      ensures View() == Enqueue(old(View()), txBuf[..n], Encode(UpMessage(txBuf[..n])))
    {
      ghost var packet := txBuf[..n];
      WireSize(packet);
      if FIFO_CAPACITY - txFifo.size as int < 5 + n + 1 {
        Fail(TxFifoFull);
      } else {
        WriteFrame(n);
        NoteSent(packet);
      }
    }

    ghost method NoteSent(packet: bytes)
      requires Valid()
      modifies this`sent
      ensures Valid() && View() == old(View()).(sent := old(View()).sent + [packet])
    {
      sent := sent + [packet];
    }

    method WriteFrame(n: nat)
      requires Valid() && n <= TX_BUF_SIZE && FIFO_CAPACITY - txFifo.size as int >= n + 6
      modifies txFifo`size, txFifo.buf
      ensures Valid()
      ensures txFifo.Contents() == old(txFifo.Contents()) + Encode(UpMessage(txBuf[..n]))
    {
      WriteHeader(n);
      ghost var started, packet := txFifo.Contents(), txBuf[..n];
      var checksum := Checksum(txBuf, n);
      txFifo.AddBuf(txBuf, n);
      txFifo.AddByte(checksum);
      assert txFifo.Contents() == started + packet + [checksum];
      WireParts(old(txFifo.Contents()), packet);
    }

    // Command, length and event counter of a frame.
    method WriteHeader(n: nat)
      requires Valid() && FIFO_CAPACITY - txFifo.size as int >= 5
      modifies txFifo`size, txFifo.buf
      ensures Valid() && txFifo.size == old(txFifo.size) + 5
      ensures txFifo.Contents() == old(txFifo.Contents()) + ([CMD_DATA] + Le16(n) + Le16(0))
    {
      ghost var was := txFifo.Contents();
      txFifo.AddByte(CMD_DATA);
      txFifo.AddByte(n % 256);
      txFifo.AddByte(n / 256 % 256);
      assert txFifo.Contents() == was + ([CMD_DATA] + Le16(n));
      txFifo.AddByte(0);
      txFifo.AddByte(0);
    }

    // ble_phy_uart_tx_char; None stands for -1.
    method UartTxChar() returns (c: Option<byte>)
      requires Valid() && status.Running?
      modifies this`uart, txFifo`size, txFifo`tail
      ensures Valid() && View() == Step(ccm, old(View()), TxChar)
      ensures c == if old(txFifo.Contents()) == [] then None else Some(old(txFifo.Contents())[0])
    {
      if txFifo.size == 0 {
        c := None;
      } else {
        ghost var was := txFifo.Contents();
        var b := txFifo.GetByte();
        assert was[1..] == txFifo.Contents();
        uart := uart + [b];
        c := Some(b);
      }
    }

    method SetChannel(chan: nat, aa: bytes)
      requires Valid() && status.Running? && |aa| == 4
      modifies this`channel, this`llState, this`accessAddress
      ensures Valid() && View() == Step(ccm, old(View()), SetChan(chan, aa))
    {
      Tune(chan, aa, StateOn(chan));
    }

    method Tune(chan: nat, aa: bytes, state: LlState)
      requires Valid() && |aa| == 4
      modifies this`channel, this`llState, this`accessAddress
      ensures Valid() && View() == old(View()).(channel := chan, llState := state, accessAddress := aa)
    {
      accessAddress := aa;
      channel := chan;
      llState := state;
    }

    method EnableEncryption(key: bytes)
      requires Valid() && status.Running?
      modifies this`keys
      ensures Valid() && View() == Step(ccm, old(View()), EncryptEnable(key))
    {
      keys := keys.(key := key);
      keys := keys.(enabled := true);
    }

    method DisableEncryption()
      requires Valid() && status.Running?
      modifies this`keys
      ensures Valid() && View() == Step(ccm, old(View()), EncryptDisable)
    {
      keys := keys.(enabled := false);
    }

    method SetEncryptionIv(iv: bytes)
      requires Valid() && status.Running?
      modifies this`keys
      ensures Valid() && View() == Step(ccm, old(View()), SetIv(iv))
    {
      keys := keys.(iv := iv);
    }

    method SetEncryptionCounter(counter: nat)
      requires Valid() && status.Running?
      modifies this`keys
      ensures Valid() && View() == Step(ccm, old(View()), SetCounter(counter))
    {
      keys := keys.(counter := counter);
    }
  }
}
