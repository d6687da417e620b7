/**
 The two serial formats: what the host writes and the driver reads (downlink), and what
 the driver writes and the host reads (uplink). Only the uplink carries an event counter.
 */
module Framing {
  import opened Bytes

  const CMD_DATA: byte := 0xA7
  const CMD_DATA_TX: byte := 0xBB
  const CMD_CHECKSUM_ERROR: byte := 0xA8
  const CMD_CONFIG_LOG_TX: byte := 0xCC
  const CMD_LOG: byte := 0x7F

  function Le16(n: nat): bytes {
    [n % 256, n / 256 % 256]
  }

  function Le16Value(lo: byte, hi: byte): (n: nat)
    ensures n < 0x1_0000
  {
    lo + 256 * hi
  }

  // ---------- downlink ----------

  // The bytes that the host writes for one packet whose CRC is cut off.
  function DownFrame(body: bytes): bytes {
    [CMD_DATA] + Le16(|body|) + body + [Sum(body) % 256]
  }

  // The bytes that the host writes for a list of such packets.
  function DownFrames(bodies: seq<bytes>): bytes {
    if bodies == [] then [] else DownFrame(bodies[0]) + DownFrames(bodies[1..])
  }

  // Everything the host writes after it opened the port: two configuration bytes, then frames.
  function HostStream(logTx: byte, bodies: seq<bytes>): bytes {
    [CMD_CONFIG_LOG_TX, logTx] + DownFrames(bodies)
  }

  // The length of the complete packet at the head of the driver's buffer, 0 if there is none,
  // and None when the assertion on the first byte fails.
  function PktLen(f: bytes): (r: Option<nat>)
    ensures r.Some? && r.value > 0 ==> |f| >= r.value + 4
  {
    if |f| > 3 then
      if f[0] != CMD_DATA then None
      else
        var n := Le16Value(f[1], f[2]);
        Some(if |f| >= n + 4 then n else 0)
    else Some(0)
  }

  ghost predicate FrameSizes(bodies: seq<bytes>, lo: nat, hi: nat) {
    forall i | 0 <= i < |bodies| :: lo <= |bodies[i]| <= hi
  }

  // A buffer that is the beginning of a stream of frames either holds no complete frame, or
  // holds the first one, and then what is left is again the beginning of a stream of frames;
  // or its first frame has no body, which the driver cannot tell from no frame.
  lemma HeadOfStream(f: bytes, coming: bytes, bodies: seq<bytes>)
    requires FrameSizes(bodies, 0, 0xFFFF)
    requires f + coming == DownFrames(bodies)
    ensures PktLen(f).Some?
    ensures PktLen(f).value > 0 ==>
              && bodies != [] && PktLen(f).value == |bodies[0]|
              && f[3..3 + |bodies[0]|] == bodies[0]
              && f[4 + |bodies[0]|..] + coming == DownFrames(bodies[1..])
    ensures PktLen(f).value == 0 && bodies != [] && bodies[0] != [] ==> |f| < |bodies[0]| + 4 && coming != []
    ensures bodies == [] ==> f == [] && coming == []
  {
    if bodies != [] {
      FirstFrame(f, coming, bodies[0], DownFrames(bodies[1..]));
    }
  }

  lemma FirstFrame(f: bytes, coming: bytes, b: bytes, others: bytes)
    requires |b| <= 0xFFFF && f + coming == DownFrame(b) + others
    ensures PktLen(f) == Some(if |f| >= |b| + 4 then |b| else 0)
    ensures |f| >= |b| + 4 ==> f[3..3 + |b|] == b && f[4 + |b|..] + coming == others
    ensures |f| < |b| + 4 ==> coming != []
  {
    var stream := DownFrame(b) + others;
    Le16RoundTrip(|b|);
    assert stream[0] == CMD_DATA && stream[1] == Le16(|b|)[0] && stream[2] == Le16(|b|)[1];
    assert forall i | 0 <= i < |f| :: f[i] == stream[i];
    if |f| >= |b| + 4 {
      assert f[3..3 + |b|] == stream[3..3 + |b|] == b;
      assert f[4 + |b|..] + coming == stream[4 + |b|..] == others;
    }
  }

  lemma {:induction false} DownFramesConcat(a: seq<bytes>, b: seq<bytes>)
    ensures DownFrames(a + b) == DownFrames(a) + DownFrames(b)
  {
    if a == [] {
      assert a + b == b;
    } else {
      calc {
        DownFrames(a + b);
        { assert (a + b)[0] == a[0] && (a + b)[1..] == a[1..] + b; }
        DownFrame(a[0]) + DownFrames(a[1..] + b);
        { DownFramesConcat(a[1..], b); }
        DownFrame(a[0]) + (DownFrames(a[1..]) + DownFrames(b));
        { Associative(DownFrame(a[0]), DownFrames(a[1..]), DownFrames(b)); }
        DownFrames(a) + DownFrames(b);
      }
    }
  }

  // ---------- uplink ----------

  // What the host may find on the line, with whatever checksum the sender put there.
  datatype Message =
    | Data(tx: bool, event: nat, body: bytes, checksum: byte)
    | Log(text: bytes)
    | ChecksumError

  ghost predicate WellFormed(m: Message) {
    match m
    case Data(_, event, body, _) => event < 0x1_0000 && |body| < 0x1_0000
    case Log(text) => |text| < 0x1_0000
    case ChecksumError => true
  }

  function Encode(m: Message): bytes {
    match m
    case Data(tx, event, body, checksum) =>
      [if tx then CMD_DATA_TX else CMD_DATA] + Le16(|body|) + Le16(event) + body + [checksum]
    case Log(text) => [CMD_LOG] + Le16(|text|) + text
    case ChecksumError => [CMD_CHECKSUM_ERROR]
  }

  function EncodeAll(ms: seq<Message>): bytes {
    if ms == [] then [] else Encode(ms[0]) + EncodeAll(ms[1..])
  }

  predicate Intact(m: Message) {
    m.Data? && Sum(m.body) % 256 == m.checksum
  }

  // The receive side of the host driver: unread input and the two fields it keeps.
  datatype HostRx = HostRx(input: bytes, eventCounter: nat, sentPkt: Option<bytes>)

  // Outcome of one call: it waits for more bytes, or returns, possibly with a packet.
  datatype Received = Waiting | Returned(packet: Option<bytes>)

  // The input starts with a message of which bytes are still missing.
  predicate Incomplete(input: bytes) {
    && input != []
    && if input[0] == CMD_DATA || input[0] == CMD_DATA_TX then
         |input| < 3 || |input| < Le16Value(input[1], input[2]) + 6
       else
         input[0] == CMD_LOG && (|input| < 3 || |input| < Le16Value(input[1], input[2]) + 3)
  }

  function RawReceive(h: HostRx): (r: (HostRx, Received))
    ensures r.1.Waiting? <==> Incomplete(h.input)
    ensures r.1.Returned? && h.input != [] ==> |r.0.input| < |h.input|
  {
    var input := h.input;
    if input == [] then (h, Returned(None))
    else if Incomplete(input) then (h, Waiting)
    else if input[0] == CMD_DATA || input[0] == CMD_DATA_TX then
      var n := Le16Value(input[1], input[2]);
      var data, rest := input[5..5 + n], input[6 + n..];
      if Sum(data) % 256 != input[5 + n] then (h.(input := rest), Returned(None))
      else if input[0] == CMD_DATA_TX then
        (HostRx(rest, Le16Value(input[3], input[4]), Some(data)), Returned(None))
      else
        (HostRx(rest, Le16Value(input[3], input[4]), h.sentPkt), Returned(Some(data)))
    else if input[0] == CMD_LOG then
      (h.(input := input[3 + Le16Value(input[1], input[2])..]), Returned(None))
    else (h.(input := input[1..]), Returned(None))
  }

  // Repeated calls until the input is used up or a call waits.
  function ReceiveAll(h: HostRx): (HostRx, seq<bytes>)
    decreases |h.input|
  {
    if h.input == [] then (h, [])
    else
      match RawReceive(h)
      case (_, Waiting) => (h, [])
      case (h', Returned(packet)) =>
        var (end, packets) := ReceiveAll(h');
        (end, (match packet case Some(p) => [p] case None => []) + packets)
  }

  // The fields after a list of messages: those of the last intact one, if there is one.
  function LastEvent(ms: seq<Message>, event: nat): nat {
    if ms == [] then event
    else LastEvent(ms[1..], if Intact(ms[0]) then ms[0].event else event)
  }

  function LastSent(ms: seq<Message>, sent: Option<bytes>): Option<bytes> {
    if ms == [] then sent
    else LastSent(ms[1..], if Intact(ms[0]) && ms[0].tx then Some(ms[0].body) else sent)
  }

  // The bodies of the received-packet messages whose checksum is right, in order.
  function GoodBodies(ms: seq<Message>): seq<bytes> {
    if ms == [] then []
    else (if Intact(ms[0]) && !ms[0].tx then [ms[0].body] else []) + GoodBodies(ms[1..])
  }

  lemma Le16RoundTrip(n: nat)
    requires n < 0x1_0000
    ensures Le16Value(Le16(n)[0], Le16(n)[1]) == n
  {
  }

  // What one call makes of a message.
  function OneReceived(h: HostRx, m: Message, rest: bytes): (HostRx, Received) {
    if Intact(m) && m.tx then (HostRx(rest, m.event, Some(m.body)), Returned(None))
    else if Intact(m) then (HostRx(rest, m.event, h.sentPkt), Returned(Some(m.body)))
    else (h.(input := rest), Returned(None))
  }

  // The parts of a data message at the head of the input.
  lemma DataParts(input: bytes, m: Message, rest: bytes)
    requires m.Data? && WellFormed(m) && input == Encode(m) + rest
    ensures |input| >= |m.body| + 6 && input[0] == if m.tx then CMD_DATA_TX else CMD_DATA
    ensures Le16Value(input[1], input[2]) == |m.body| && Le16Value(input[3], input[4]) == m.event
    ensures input[5..5 + |m.body|] == m.body && input[5 + |m.body|] == m.checksum
    ensures input[6 + |m.body|..] == rest
  {
    Le16RoundTrip(|m.body|);
    Le16RoundTrip(m.event);
    assert input[1] == Le16(|m.body|)[0] && input[2] == Le16(|m.body|)[1];
    assert input[3] == Le16(m.event)[0] && input[4] == Le16(m.event)[1];
  }

  lemma ReceiveDataMessage(h: HostRx, m: Message, rest: bytes)
    requires m.Data? && WellFormed(m) && h.input == Encode(m) + rest
    ensures RawReceive(h) == OneReceived(h, m, rest)
  {
    DataParts(h.input, m, rest);
  }

  lemma ReceiveLogMessage(h: HostRx, m: Message, rest: bytes)
    requires m.Log? && WellFormed(m) && h.input == Encode(m) + rest
    ensures RawReceive(h) == OneReceived(h, m, rest)
  {
    var input := h.input;
    Le16RoundTrip(|m.text|);
    assert input[0] == CMD_LOG && input[1] == Le16(|m.text|)[0] && input[2] == Le16(|m.text|)[1];
    assert input[3 + |m.text|..] == rest;
  }

  // One call consumes exactly one message and yields its packet if it is intact.
  lemma ReceiveOne(h: HostRx, m: Message, rest: bytes)
    requires WellFormed(m) && h.input == Encode(m) + rest
    ensures RawReceive(h) == OneReceived(h, m, rest)
  {
    match m {
      case Data(_, _, _, _) => ReceiveDataMessage(h, m, rest);
      case Log(_) => ReceiveLogMessage(h, m, rest);
      case ChecksumError => assert h.input[1..] == rest;
    }
  }

  // Over any messages, followed by any beginning of a message that is not yet complete, the
  // host returns the good bodies in order and consumes every complete message whole.
  lemma {:induction false} UplinkStream(h: HostRx, ms: seq<Message>, partial: bytes)
    requires forall i | 0 <= i < |ms| :: WellFormed(ms[i])
    requires h.input == EncodeAll(ms) + partial
    requires partial == [] || Incomplete(partial)
    ensures ReceiveAll(h) ==
            (HostRx(partial, LastEvent(ms, h.eventCounter), LastSent(ms, h.sentPkt)), GoodBodies(ms))
    decreases |ms|
  {
    if ms == [] {
      assert h.input == partial;
    } else {
      var rest := EncodeAll(ms[1..]) + partial;
      Associative(Encode(ms[0]), EncodeAll(ms[1..]), partial);
      ReceiveOne(h, ms[0], rest);
      assert Encode(ms[0]) != [] && h.input != [];
      UplinkStream(RawReceive(h).0, ms[1..], partial);
    }
  }

  // What the driver writes for a packet: an intact message whose event counter is 0.
  function UpMessage(body: bytes): Message {
    Data(false, 0, body, Sum(body) % 256)
  }

  lemma WireSize(body: bytes)
    ensures |Encode(UpMessage(body))| == |body| + 6
  {
  }

  lemma WireParts(before: bytes, body: bytes)
    ensures before + ([CMD_DATA] + Le16(|body|) + Le16(0)) + body + [Sum(body) % 256] ==
            before + Encode(UpMessage(body))
  {
    var start := [CMD_DATA] + Le16(|body|) + Le16(0);
    assert start + body + [Sum(body) % 256] == Encode(UpMessage(body));
    Associative(before, start, body);
    Associative(before, start + body, [Sum(body) % 256]);
  }

  function UpMessages(bodies: seq<bytes>): seq<Message> {
    seq(|bodies|, i requires 0 <= i < |bodies| => UpMessage(bodies[i]))
  }

  lemma {:induction false} EncodeAllConcat(a: seq<Message>, b: seq<Message>)
    ensures EncodeAll(a + b) == EncodeAll(a) + EncodeAll(b)
  {
    if a == [] {
      assert a + b == b;
    } else {
      calc {
        EncodeAll(a + b);
        { assert (a + b)[0] == a[0] && (a + b)[1..] == a[1..] + b; }
        Encode(a[0]) + EncodeAll(a[1..] + b);
        { EncodeAllConcat(a[1..], b); }
        Encode(a[0]) + (EncodeAll(a[1..]) + EncodeAll(b));
        { Associative(Encode(a[0]), EncodeAll(a[1..]), EncodeAll(b)); }
        EncodeAll(a) + EncodeAll(b);
      }
    }
  }

  lemma Associative(a: bytes, b: bytes, c: bytes)
    ensures (a + b) + c == a + (b + c)
  {
  }

  lemma DropPrefix(a: bytes, b: bytes, p: bytes)
    requires p <= a + b && |a| <= |p|
    ensures p == a + p[|a|..] && p[|a|..] <= b
  {
    assert forall i | 0 <= i < |p| :: p[i] == (a + b)[i];
  }

  lemma {:induction false} UpMessagesIntact(bodies: seq<bytes>)
    ensures GoodBodies(UpMessages(bodies)) == bodies
  {
    if bodies != [] {
      UpMessagesIntact(bodies[1..]);
      assert UpMessages(bodies)[1..] == UpMessages(bodies[1..]);
      assert UpMessages(bodies)[0] == UpMessage(bodies[0]);
    }
  }

  // Whatever has arrived so far of a stream of messages is a number of whole messages and
  // possibly the beginning of one more.
  lemma {:induction false} SplitArrived(ms: seq<Message>, arrived: bytes) returns (k: nat, partial: bytes)
    requires forall i | 0 <= i < |ms| :: WellFormed(ms[i])
    requires arrived <= EncodeAll(ms)
    ensures k <= |ms| && arrived == EncodeAll(ms[..k]) + partial
    ensures partial == [] || Incomplete(partial)
  {
    if ms == [] {
      k, partial := 0, [];
    } else {
      var first := Encode(ms[0]);
      if |arrived| >= |first| {
        var rest := arrived[|first|..];
        DropPrefix(first, EncodeAll(ms[1..]), arrived);
        k, partial := SplitArrived(ms[1..], rest);
        assert ms[..k + 1][0] == ms[0] && ms[..k + 1][1..] == ms[1..][..k];
        Associative(first, EncodeAll(ms[1..][..k]), partial);
        k := k + 1;
      } else {
        k, partial := 0, arrived;
        ProperPrefixIncomplete(ms[0], arrived, EncodeAll(ms[1..]));
      }
    }
  }

  lemma ProperPrefixIncomplete(m: Message, arrived: bytes, rest: bytes)
    requires WellFormed(m) && arrived <= Encode(m) + rest && |arrived| < |Encode(m)|
    ensures arrived == [] || Incomplete(arrived)
  {
    var whole := Encode(m) + rest;
    assert forall i | 0 <= i < |arrived| :: arrived[i] == whole[i];
    match m {
      case Data(_, _, body, _) =>
        Le16RoundTrip(|body|);
        assert whole[1] == Le16(|body|)[0] && whole[2] == Le16(|body|)[1];
      case Log(text) =>
        Le16RoundTrip(|text|);
        assert whole[1] == Le16(|text|)[0] && whole[2] == Le16(|text|)[1];
      case ChecksumError =>
    }
  }

  // The host, reading the driver's stream at any moment, has received a beginning of what the
  // driver sent, and all of it once every byte has arrived.
  lemma DriverStream(h: HostRx, sent: seq<bytes>)
    requires FrameSizes(sent, 0, 0xFFFF)
    requires h.input <= EncodeAll(UpMessages(sent))
    ensures ReceiveAll(h).1 <= sent
    ensures h.input == EncodeAll(UpMessages(ReceiveAll(h).1)) + ReceiveAll(h).0.input
    ensures h.input == EncodeAll(UpMessages(sent)) ==> ReceiveAll(h).1 == sent
  {
    var ms := UpMessages(sent);
    var k, partial := SplitArrived(ms, h.input);
    assert ms[..k] == UpMessages(sent[..k]);
    UplinkStream(h, ms[..k], partial);
    UpMessagesIntact(sent[..k]);
    assert ReceiveAll(h).1 == sent[..k];
    if h.input == EncodeAll(ms) && k < |sent| {
      TailIncomplete(ms, k, partial);
    }
  }

  lemma TailIncomplete(ms: seq<Message>, k: nat, partial: bytes)
    requires k < |ms| && WellFormed(ms[k]) && EncodeAll(ms) == EncodeAll(ms[..k]) + partial
    ensures partial != [] && !Incomplete(partial)
  {
    assert ms == ms[..k] + ms[k..];
    EncodeAllConcat(ms[..k], ms[k..]);
    DropPrefix(EncodeAll(ms[..k]), partial, EncodeAll(ms));
    DropPrefix(EncodeAll(ms[..k]), EncodeAll(ms[k..]), EncodeAll(ms));
    WholeMessageFirst(ms[k..]);
  }

  lemma WholeMessageFirst(ms: seq<Message>)
    requires ms != [] && WellFormed(ms[0])
    ensures EncodeAll(ms) != [] && !Incomplete(EncodeAll(ms))
  {
    ReceiveOne(HostRx(EncodeAll(ms), 0, None), ms[0], EncodeAll(ms[1..]));
  }

  // ---------- the two formats, byte by byte ----------

  // What a frame of the downlink is: a length of two bytes, and a last byte that makes up the
  // checksum of the body.
  lemma DownFrameBytes(body: bytes)
    requires |body| <= 0xFFFF
    ensures var f := DownFrame(body);
            && |f| == |body| + 4 && f[0] == 0xA7 && f[1] as int + 256 * f[2] as int == |body|
            && f[3..3 + |body|] == body && (f[3 + |body|] as int - Sum(body)) % 256 == 0
  {
  }

  // What the host makes of a received packet (0xA7) or a log of a sent one (0xBB): it takes it
  // exactly if the checksum byte is right, and always reads it whole.
  lemma ReceivePacketBytes(h: HostRx, cmd: byte, lo: byte, hi: byte, e0: byte, e1: byte, body: bytes, c: byte,
                           rest: bytes)
    requires cmd == 0xA7 || cmd == 0xBB
    requires |body| == lo as int + 256 * hi as int && h.input == [cmd, lo, hi, e0, e1] + body + [c] + rest
    ensures var event := e0 as int + 256 * e1 as int;
            RawReceive(h) ==
            if (c as int - Sum(body)) % 256 != 0 then (h.(input := rest), Returned(None))
            else if cmd == 0xBB then (HostRx(rest, event, Some(body)), Returned(None))
            else (HostRx(rest, event, h.sentPkt), Returned(Some(body)))
  {
    PacketBytes(h.input, [cmd, lo, hi, e0, e1], body, c, rest);
    ReadParts(h, body, c, rest);
  }

  lemma PacketBytes(input: bytes, head: bytes, body: bytes, c: byte, rest: bytes)
    requires |head| == 5 && input == head + body + [c] + rest
    ensures |input| >= |body| + 6 && (forall i | 0 <= i < 5 :: input[i] == head[i])
    ensures input[5..5 + |body|] == body && input[5 + |body|] == c && input[6 + |body|..] == rest
  {
  }

  lemma ReadParts(h: HostRx, body: bytes, c: byte, rest: bytes)
    requires |h.input| >= |body| + 6 && (h.input[0] == CMD_DATA || h.input[0] == CMD_DATA_TX)
    requires Le16Value(h.input[1], h.input[2]) == |body| && h.input[5..5 + |body|] == body
    requires h.input[5 + |body|] == c && h.input[6 + |body|..] == rest
    ensures var event := Le16Value(h.input[3], h.input[4]);
            RawReceive(h) ==
            if (c as int - Sum(body)) % 256 != 0 then (h.(input := rest), Returned(None))
            else if h.input[0] == CMD_DATA_TX then (HostRx(rest, event, Some(body)), Returned(None))
            else (HostRx(rest, event, h.sentPkt), Returned(Some(body)))
  {
  }

  // What the host makes of a debugging message (0x7F), of a report of a wrong checksum (0xA8) and
  // of any other byte: it drops them.
  lemma ReceiveOtherBytes(h: HostRx, cmd: byte, lo: byte, hi: byte, text: bytes, rest: bytes)
    ensures h.input == [0x7F, lo, hi] + text + rest && |text| == lo as int + 256 * hi as int ==>
              RawReceive(h) == (h.(input := rest), Returned(None))
    ensures cmd != 0xA7 && cmd != 0xBB && cmd != 0x7F && h.input == [cmd] + rest ==>
              RawReceive(h) == (h.(input := rest), Returned(None))
  {
    var input := h.input;
    if input == [0x7F, lo, hi] + text + rest && |text| == lo as int + 256 * hi as int {
      assert input[0] == 0x7F && input[1] == lo && input[2] == hi && input[3 + |text|..] == rest;
    } else if input == [cmd] + rest {
      assert input[0] == cmd && input[1..] == rest;
    }
  }

  // What a frame of the uplink is: a length of two bytes, an unused event counter, and the
  // sum of the packet modulo 256.
  ghost predicate UpFrame(f: bytes, body: bytes, sum: int) {
    && |f| == |body| + 6 && f[0] == 0xA7 && f[1] as int + 256 * f[2] as int == |body|
    && f[3] == 0 && f[4] == 0 && f[5..5 + |body|] == body
    && f[5 + |body|] == sum
  }

  lemma UpFrameBytes(body: bytes)
    requires |body| <= 0xFFFF
    ensures UpFrame(Encode(UpMessage(body)), body, Sum(body) % 256)
  {
    var f := Encode(UpMessage(body));
    WireSize(body);
    NoEvent(body);
    LengthBytes(body);
    BodyBytes(body);
    IsUpFrame(f, body, Sum(body) % 256);
  }

  lemma BodyBytes(body: bytes)
    ensures var f := Encode(UpMessage(body));
            |f| == |body| + 6 && f[5..5 + |body|] == body && f[5 + |body|] == Sum(body) % 256
  {
    var f := Encode(UpMessage(body));
    WireParts([], body);
    assert f == ([CMD_DATA] + Le16(|body|) + Le16(0)) + body + [Sum(body) % 256];
  }

  lemma LengthBytes(body: bytes)
    requires |body| <= 0xFFFF
    ensures var f := Encode(UpMessage(body));
            f[0] == CMD_DATA && Le16Value(f[1], f[2]) == |body|
  {
    var f := Encode(UpMessage(body));
    Le16RoundTrip(|body|);
    assert f[1] == Le16(|body|)[0] && f[2] == Le16(|body|)[1];
  }

  lemma IsUpFrame(f: bytes, body: bytes, sum: int)
    requires |f| == |body| + 6 && f[0] == CMD_DATA && Le16Value(f[1], f[2]) == |body|
    requires f[3] == 0 && f[4] == 0 && f[5..5 + |body|] == body && f[5 + |body|] == sum
    ensures UpFrame(f, body, sum)
  {
  }

  lemma NoEvent(body: bytes)
    ensures Encode(UpMessage(body))[3] == 0 && Encode(UpMessage(body))[4] == 0
  {
    assert Encode(UpMessage(body))[3..5] == Le16(0);
  }
}
