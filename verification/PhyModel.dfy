/**
 The bridge driver as a state machine. One step is one uninterrupted stretch of driver code:
 the receive task runs from one delay point to the next, everything else (a byte from the
 UART, a transmission or a setting of the BLE stack) is one call. A run is any interleaving.
 */
module PhyModel {
  import opened Bytes
  import opened Framing
  import opened LinkCrypto

  const FIFO_CAPACITY: nat := 1024
  const RX_BUF_SIZE: nat := 260
  const TX_BUF_SIZE: nat := 512
  const FIRST_ADV_CHANNEL: nat := 37
  const POLLS: nat := 6
  const UINT32: nat := 0x1_0000_0000

  // Where the receive task is: waiting for an event, about to test the buffer for a frame, or
  // delayed in iteration i of the polling loop.
  datatype Pc = Idle | Testing | Polling(i: nat)

  datatype Fault =
    | FirstByteNotConfig   // assert(byte == 0xCC)
    | NotOnFrameBoundary   // assert(fifo_peek(f, 0) == 0xA7)
    | RxFifoFull           // assert(!fifo_is_full(&serial_rx_buf))
    | TxFifoFull           // assert(fifo_has_space(&serial_tx_buf, ...))
    | RxBufferSize         // a frame that rx_buf cannot hold
    | NotOnDataChannel     // the debugging stop after a CONNECT_IND
    | TxBufferSize         // a packet that tx_buf cannot hold

  datatype Status = Running | Stopped(fault: Fault)

  // The link layer state that goes into the flags of received packets.
  datatype LlState = NoState | Advertising | Connection

  // A packet offered to the link layer (access address included), the channel it is offered
  // for, and its flags: the state, and whether it is marked with a MIC failure.
  datatype Offer = Offer(packet: bytes, channel: nat, llState: LlState, micFailure: bool)

  datatype Phy = Phy(
    status: Status,
    pktCount: nat,
    rx: bytes,          // serial_rx_buf
    queued: bool,       // ev_recv_packet is in the event queue
    pc: Pc,
    rxBuf: bytes,       // rx_buf, what earlier packets have left in it included
    cryptoOk: bool,
    lastWasConn: bool,  // last_msg_was_conn
    sentNonEmpty: bool,
    channel: nat,
    llState: LlState,
    accessAddress: bytes,
    rxSn: int,
    rxNesn: int,
    keys: PhyKeys,
    tx: bytes,          // serial_tx_buf
    // What happened so far
    taken: seq<bytes>,  // frames read from serial_rx_buf
    offers: seq<Offer>, // packets offered to the link layer
    sent: seq<bytes>,   // packets put into serial_tx_buf
    uart: bytes         // bytes given to the UART
  )

  datatype Action =
    | RxChar(b: byte)
    | PopEvent(stack: bytes) // rx_buf is a local array: it starts with what the stack holds
    | TestFifo
    | Resume
    | Tx(hdr: byte, payload: bytes)
    | TxChar
    | SetChan(chan: nat, aa: bytes)
    | EncryptEnable(key: bytes)
    | EncryptDisable
    | SetIv(iv: bytes)
    | SetCounter(counter: nat)

  predicate Valid(d: Phy) {
    && 0 <= d.rxSn <= 1 && 0 <= d.rxNesn <= 1
    && |d.rx| <= FIFO_CAPACITY && |d.tx| <= FIFO_CAPACITY
    && d.pktCount < UINT32
    && |d.accessAddress| == 4 && |d.rxBuf| == RX_BUF_SIZE
    && (d.pc.Polling? ==> d.pc.i < POLLS)
  }

  predicate ValidAction(a: Action) {
    (a.SetChan? ==> |a.aa| == 4) && (a.PopEvent? ==> |a.stack| == RX_BUF_SIZE)
  }

  function Stop(d: Phy, fault: Fault): Phy {
    d.(status := Stopped(fault))
  }

  // ---------- ble_phy_uart_rx_char ----------

  // A byte of a frame.
  function BufferByte(d: Phy, b: byte): (r: Phy)
    requires Valid(d)
    ensures Valid(r)
  {
    if |d.rx| == FIFO_CAPACITY then Stop(d, RxFifoFull)
    else
      var rx := d.rx + [b];
      var n := PktLen(rx);
      d.(rx := rx,
         status := if n.None? then Stopped(NotOnFrameBoundary) else d.status,
         queued := d.queued || (n.Some? && n.value > 0))
  }

  function RxCharStep(d: Phy, b: byte): (r: Phy)
    requires Valid(d)
    ensures Valid(r)
  {
    var d := d.(pktCount := (d.pktCount + 1) % UINT32);
    if d.pktCount == 1 then if b == CMD_CONFIG_LOG_TX then d else Stop(d, FirstByteNotConfig)
    else if d.pktCount == 2 then d
    else BufferByte(d, b)
  }

  // ---------- recv_packet ----------

  function EmptyPacket(d: Phy): bytes {
    d.accessAddress + [0x01, 0x00]
  }

  // buf with its beginning overwritten.
  function Overlay(buf: bytes, s: bytes): (r: bytes)
    requires |s| <= |buf|
    ensures |r| == |buf| && r[..|s|] == s && r[|s|..] == buf[|s|..]
  {
    s + buf[|s|..]
  }

  // What one iteration offers for the packet in rx_buf, or without one: the sequence bits of a
  // packet that is no advertising packet are fixed.
  function Offered(d: Phy, packet: bytes): (r: bytes)
    requires Valid(d) && (packet == [] || 6 <= |packet| <= RX_BUF_SIZE)
    ensures r == [] || 6 <= |r| <= RX_BUF_SIZE
  {
    var polled := packet == [] && d.channel < FIRST_ADV_CHANNEL;
    var packet := if polled then EmptyPacket(d) else packet;
    if packet == [] || (!polled && IsAdv(packet)) then packet
    else packet[4 := WithSeqBits(packet[4], d.rxSn, d.rxNesn)]
  }

  // One iteration of the polling loop up to its delay; `packet` is the packet in rx_buf, empty
  // if rx_buf_len is 0.
  function Iterate(d: Phy, i: nat, packet: bytes): (r: Phy)
    requires Valid(d) && i < POLLS && (packet == [] || 6 <= |packet| <= RX_BUF_SIZE)
    ensures Valid(r)
  {
    var offered := Offered(d, packet);
    d.(pc := Polling(i),
       rxBuf := Overlay(d.rxBuf, offered),
       offers := d.offers + if offered == [] then [] else [Offer(offered, d.channel, d.llState, !d.cryptoOk)])
  }

  // rx_buf after a frame is read: three header bytes first, then the body over them.
  function ReadInto(buf: bytes, header: bytes, body: bytes): (r: bytes)
    requires |header| <= |buf| && |body| <= |buf|
    ensures |r| == |buf|
  {
    Overlay(Overlay(buf, header), body)
  }

  // What the driver goes on with: the decrypted body. The link layer always looks at a header,
  // which for a body of less than 6 bytes consists of what rx_buf held before.
  function Readable(buf: bytes, plain: bytes): (packet: bytes)
    requires |buf| == RX_BUF_SIZE && |plain| <= RX_BUF_SIZE
    ensures 6 <= |packet| <= RX_BUF_SIZE
  {
    if |plain| >= 6 then plain else buf[..6]
  }

  // A CONNECT_IND of the advertising channels.
  predicate IsConnectInd(packet: bytes)
    requires |packet| >= 6
  {
    IsAdv(packet) && packet[4] % 16 == 5
  }

  predicate Accepts(d: Phy, packet: bytes) {
    (d.channel >= FIRST_ADV_CHANNEL) == IsAdv(packet)
  }

  // Decides whether to accept a packet and runs the first iteration of the polling loop; stops
  // if a CONNECT_IND has not led to a data channel.
  function Judge(d: Phy, packet: bytes, ok: bool): (r: Phy)
    requires Valid(d) && 6 <= |packet| <= RX_BUF_SIZE
    ensures Valid(r)
  {
    var accept := Accepts(d, packet);
    var d := d.(cryptoOk := !accept || ok);
    if d.lastWasConn && d.channel >= FIRST_ADV_CHANNEL then Stop(d, NotOnDataChannel)
    else Iterate(d.(lastWasConn := accept && IsConnectInd(packet)), 0, if accept then packet else [])
  }

  // Reads the frame of n body bytes from the buffer and decrypts it.
  ghost function AfterRead(ccm: Ccm, d: Phy, n: nat): (r: Phy)
    requires Lawful(ccm) && Valid(d) && n <= RX_BUF_SIZE && |d.rx| >= n + 4
    ensures Valid(r)
  {
    var body := d.rx[3..3 + n];
    var plain := DriverReceive(ccm, d.keys, body).1;
    d.(rx := d.rx[n + 4..], taken := d.taken + [body],
       rxBuf := Overlay(ReadInto(d.rxBuf, d.rx[..3], body), plain))
  }

  // Takes the frame of n body bytes.
  ghost function TakeStep(ccm: Ccm, d: Phy, n: nat): (r: Phy)
    requires Lawful(ccm) && Valid(d) && n <= RX_BUF_SIZE && |d.rx| >= n + 4
    ensures Valid(r)
  {
    var (ok, plain) := DriverReceive(ccm, d.keys, d.rx[3..3 + n]);
    var d := AfterRead(ccm, d, n);
    Judge(d, Readable(d.rxBuf, plain), ok)
  }

  ghost function TestStep(ccm: Ccm, d: Phy): (r: Phy)
    requires Lawful(ccm) && Valid(d)
    ensures Valid(r)
  {
    match PktLen(d.rx)
    case None => Stop(d, NotOnFrameBoundary)
    case Some(n) =>
      if n == 0 then d.(pc := Idle)
      else if n > RX_BUF_SIZE then Stop(d, RxBufferSize)
      else TakeStep(ccm, d, n)
  }

  // The end of an iteration, after its delay, and the next one if there is one.
  function ResumeStep(d: Phy): (r: Phy)
    requires Valid(d) && d.pc.Polling?
    ensures Valid(r)
  {
    var i := (if d.sentNonEmpty then 0 else d.pc.i) + 1;
    var d := d.(sentNonEmpty := false);
    if i < POLLS then Iterate(d, i, []) else d.(pc := Testing)
  }

  // ---------- ble_phy_tx ----------

  // What a transmission leaves for the receive task: the sequence bits of its next packets,
  // and the flag that keeps its polling loop going.
  function NoteTx(d: Phy, hdr: byte, len: nat): (r: Phy)
    requires Valid(d)
    ensures Valid(r)
  {
    var onData := d.channel < FIRST_ADV_CHANNEL;
    d.(rxSn := if onData then Nesn(hdr) else d.rxSn,
       rxNesn := if onData then 1 - Sn(hdr) else d.rxNesn,
       sentNonEmpty := d.sentNonEmpty || len > 0)
  }

  function Enqueue(d: Phy, packet: bytes, wire: bytes): (r: Phy)
    requires Valid(d)
    ensures Valid(r)
  {
    if FIFO_CAPACITY - |d.tx| < |wire| then Stop(d, TxFifoFull)
    else d.(tx := d.tx + wire, sent := d.sent + [packet])
  }

  // `packet` is what ble_phy_tx puts together for a payload of `len` bytes, `wire` its frame.
  function TxStep(d: Phy, hdr: byte, len: nat, packet: bytes, wire: bytes): (r: Phy)
    requires Valid(d)
    ensures Valid(r)
  {
    if len > TX_BUF_SIZE - 13 then Stop(d, TxBufferSize) else Enqueue(NoteTx(d, hdr, len), packet, wire)
  }

  // ---------- ble_phy_setchan ----------

  function StateOn(chan: nat): LlState {
    if chan == 37 || chan == 38 || chan == 39 then Advertising else Connection
  }

  // ---------- one step, and runs ----------

  // An action that the driver's position does not allow leaves the state as it is.
  ghost function Step(ccm: Ccm, d: Phy, a: Action): (r: Phy)
    requires Lawful(ccm) && Valid(d) && ValidAction(a)
    ensures Valid(r)
  {
    if d.status.Stopped? then d
    else
      match a
      case RxChar(b) => RxCharStep(d, b)
      case PopEvent(stack) =>
        if d.pc.Idle? && d.queued then d.(queued := false, pc := Testing, rxBuf := stack) else d
      case TestFifo => if d.pc.Testing? then TestStep(ccm, d) else d
      case Resume => if d.pc.Polling? then ResumeStep(d) else d
      case Tx(hdr, payload) =>
        var packet := DriverSend(ccm, d.keys, d.accessAddress, hdr, payload);
        TxStep(d, hdr, |payload|, packet, Encode(UpMessage(packet)))
      case TxChar => if d.tx == [] then d else d.(tx := d.tx[1..], uart := d.uart + [d.tx[0]])
      case SetChan(chan, aa) => d.(channel := chan, llState := StateOn(chan), accessAddress := aa)
      case EncryptEnable(key) => d.(keys := d.keys.(enabled := true, key := key))
      case EncryptDisable => d.(keys := d.keys.(enabled := false))
      case SetIv(iv) => d.(keys := d.keys.(iv := iv))
      case SetCounter(counter) => d.(keys := d.keys.(counter := counter))
  }

  ghost predicate ValidActions(actions: seq<Action>) {
    forall i | 0 <= i < |actions| :: ValidAction(actions[i])
  }

  ghost function Run(ccm: Ccm, d: Phy, actions: seq<Action>): (r: Phy)
    requires Lawful(ccm) && Valid(d) && ValidActions(actions)
    ensures Valid(r)
  {
    if actions == [] then d
    else
      var last := |actions| - 1;
      var before := Run(ccm, d, actions[..last]);
      Step(ccm, before, actions[last])
  }
}
