/**
 The host's side of the serial line: a class that writes frames and reads messages step by
 step, tied to the formats for which the stream theorems are proved.
 */
module HostDriver {
  import opened Bytes
  import opened Framing

  class Nrf52 {
    var output: bytes            // everything written to the port
    var input: bytes             // what has arrived and nobody has read
    var eventCounter: nat
    var sentPkt: Option<bytes>
    var logTx: byte
    ghost var bodies: seq<bytes> // the packets sent so far, CRC cut off

    // Whatever is sent, the output is a stream that the driver's theorems apply to.
    ghost predicate Valid()
      reads this
    {
      output == HostStream(logTx, bodies)
    }

    ghost function View(): HostRx
      reads this
    {
      HostRx(input, eventCounter, sentPkt)
    }

    // Opening the port sends the two bytes of set_log_tx(0).
    constructor ()
      ensures Valid() && bodies == [] && View() == HostRx([], 0, None) && logTx == 0
      ensures output == [0xCC, 0]
    {
      output, input, eventCounter, sentPkt := [CMD_CONFIG_LOG_TX, 0], [], 0, None;
      logTx, bodies := 0, [];
    }

    // raw_send
    method RawSend(pkt: bytes) returns (data: bytes)
      requires Valid()
      modifies this`output, this`bodies
      ensures Valid() && bodies == old(bodies) + [PySlice(pkt, 0, -3)]
      ensures output == old(output) + data
      ensures 3 <= |pkt| <= 0x1_0002 ==>
                var n := |pkt| - 3;
                && |data| == n + 4 && data[0] == 0xA7 && data[1] as int + 256 * data[2] as int == n
                && data[3..3 + n] == pkt[..n] && (data[3 + n] as int - Sum(pkt[..n])) % 256 == 0
    {
      var rawPkt := PySlice(pkt, 0, -3);
      var crc := Sum(rawPkt) % 256;
      data := [CMD_DATA] + Le16(|rawPkt|) + rawPkt + [crc];
      FrameAppended(logTx, bodies, rawPkt);
      if 3 <= |pkt| <= 0x1_0002 {
        SliceIs(pkt, 0, -3);
        DownFrameBytes(rawPkt);
      }
      output := output + data;
      bodies := bodies + [rawPkt];
    }

    // A blocking read of n bytes; it does not return while fewer have arrived.
    method Read(n: nat) returns (ok: bool, data: bytes)
      modifies this`input
      ensures ok <==> n <= |old(input)|
      ensures ok ==> data == old(input)[..n] && input == old(input)[n..]
      ensures !ok ==> input == old(input)
    {
      ok, data := n <= |input|, [];
      if ok {
        data, input := input[..n], input[n..];
      }
    }

    // raw_receive. While a call waits for the rest of a message, the whole message counts as
    // unread.
    method RawReceive() returns (r: Received)
      modifies this`input, this`eventCounter, this`sentPkt
      ensures (View(), r) == Framing.RawReceive(old(View()))
    {
      var start := input;
      var ok, c := Read(1);
      if !ok {
        return Returned(None);
      }
      if c[0] == CMD_DATA || c[0] == CMD_DATA_TX {
        r := ReceiveData(start);
      } else if c[0] == CMD_LOG {
        r := ReceiveLog(start);
      } else {
        r := Returned(None);
      }
    }

    method ReceiveData(start: bytes) returns (r: Received)
      requires start != [] && (start[0] == CMD_DATA || start[0] == CMD_DATA_TX) && input == start[1..]
      modifies this`input, this`eventCounter, this`sentPkt
      ensures (View(), r) == Framing.RawReceive(HostRx(start, old(eventCounter), old(sentPkt)))
    {
      var ok, size, event, data, checksum;
      ok, size := Read(2);
      if ok {
        var n := Le16Value(size[0], size[1]);
        ok, event := Read(2);
        if ok {
          ok, data := Read(n);
          if ok {
            ok, checksum := Read(1);
            if ok {
              assert data == start[5..5 + n] && checksum[0] == start[5 + n] && input == start[6 + n..];
              r := Returned(None);
              if Sum(data) % 256 == checksum[0] {
                eventCounter := Le16Value(event[0], event[1]);
                if start[0] == CMD_DATA_TX {
                  sentPkt := Some(data);
                } else {
                  r := Returned(Some(data));
                }
              }
              return;
            }
          }
        }
      }
      input := start;
      r := Waiting;
    }

    method ReceiveLog(start: bytes) returns (r: Received)
      requires start != [] && start[0] == CMD_LOG && input == start[1..]
      modifies this`input
      ensures (View(), r) == Framing.RawReceive(HostRx(start, eventCounter, sentPkt))
    {
      var ok, size, data;
      ok, size := Read(2);
      if ok {
        var n := Le16Value(size[0], size[1]);
        ok, data := Read(n);
        if ok {
          assert input == start[3 + n..];
          return Returned(None);
        }
      }
      input := start;
      r := Waiting;
    }
  }

  lemma FrameAppended(logTx: byte, bodies: seq<bytes>, body: bytes)
    ensures HostStream(logTx, bodies + [body]) == HostStream(logTx, bodies) + DownFrame(body)
  {
    DownFramesConcat(bodies, [body]);
    assert DownFrames([body]) == DownFrame(body) + DownFrames([]);
    Associative([CMD_CONFIG_LOG_TX, logTx], DownFrames(bodies), DownFrame(body));
  }
}
