/**
 Encryption over whole streams of packets: both sides count packets on their own, and their
 counters stay equal packet after packet exactly when every packet is read as it was meant.
 The BLE stack is expected to set the driver's counter to the number of packets that the
 driver has decrypted, or encrypted, since the stream began.
 */
module EncryptedStreams {
  import opened Bytes
  import opened LinkCrypto

  datatype DataPacket = DataPacket(hdr: byte, payload: bytes)

  ghost predicate Sizes(ps: seq<DataPacket>, hi: nat) {
    forall i | 0 <= i < |ps| :: |ps[i].payload| <= hi
  }

  // A packet as its sender means it, without CRC.
  function Original(aa: bytes, p: DataPacket): bytes
    requires |p.payload| <= 255
  {
    Pdu(aa, p.hdr, |p.payload|, p.payload)
  }

  lemma SameRest(a: nat, b: nat, i: nat)
    requires a % COUNTER_PERIOD == b % COUNTER_PERIOD
    ensures (a + i) % COUNTER_PERIOD == (b + i) % COUNTER_PERIOD
    ensures (a + i + 1) % COUNTER_PERIOD != (b + i) % COUNTER_PERIOD
  {
    var q, r := a / COUNTER_PERIOD - b / COUNTER_PERIOD, b + i;
    assert a == b + q * COUNTER_PERIOD;
    Shifted(r, q);
    Shifted(r + 1, q);
    OneOff(r);
  }

  lemma Shifted(r: nat, q: int)
    requires r + q * COUNTER_PERIOD >= 0
    ensures (r + q * COUNTER_PERIOD) % COUNTER_PERIOD == r % COUNTER_PERIOD
  {
  }

  lemma OneOff(r: nat)
    ensures (r + 1) % COUNTER_PERIOD != r % COUNTER_PERIOD
  {
  }

  // ---------- downlink ----------

  // The host after n more data packets.
  function HostAfterTx(h: HostKeys, n: nat): HostKeys {
    h.(txCount := h.txCount + n)
  }

  // What reaches the serial line when the host sends p as its i-th data packet.
  function HostBody(ccm: Ccm, h: HostKeys, aa: bytes, crc: bytes, p: DataPacket, i: nat): bytes
    requires |aa| == 4 && |crc| == 3 && |p.payload| <= 251
  {
    PySlice(HostSend(ccm, HostAfterTx(h, i), true, Original(aa, p) + crc).value, 0, -3)
  }

  function HostBodies(ccm: Ccm, h: HostKeys, aa: bytes, crc: bytes, ps: seq<DataPacket>): seq<bytes>
    requires |aa| == 4 && |crc| == 3 && Sizes(ps, 251)
  {
    seq(|ps|, i requires 0 <= i < |ps| => HostBody(ccm, h, aa, crc, ps[i], i))
  }

  // How many of the packets the driver decrypts.
  function Decrypted(p: PhyKeys, bodies: seq<bytes>): (n: nat)
    ensures n <= |bodies|
  {
    if bodies == [] then 0
    else Decrypted(p, bodies[..|bodies| - 1]) + if DriverDecrypts(p, bodies[|bodies| - 1]) then 1 else 0
  }

  // The driver's keys after the packets, if the stack keeps its counter.
  function PhyAfterRx(p: PhyKeys, bodies: seq<bytes>): PhyKeys {
    p.(counter := p.counter + Decrypted(p, bodies))
  }

  function OpenedByDriver(ccm: Ccm, p: PhyKeys, bodies: seq<bytes>): seq<(bool, bytes)> {
    seq(|bodies|, i requires 0 <= i < |bodies| => DriverReceive(ccm, PhyAfterRx(p, bodies[..i]), bodies[i]))
  }

  // The i-th packet comes out as it was meant.
  ghost predicate Rebuilt(results: seq<(bool, bytes)>, aa: bytes, ps: seq<DataPacket>, i: nat)
    requires |results| == |ps| && Sizes(ps, 251) && i < |ps|
  {
    results[i] == (true, Original(aa, ps[i]))
  }

  ghost predicate InStep(h: HostKeys, p: PhyKeys, bodies: seq<bytes>, k: nat)
    requires k <= |bodies|
  {
    SameEpoch(HostAfterTx(h, k), h.txCount + k, PhyAfterRx(p, bodies[..k]))
  }

  // The counters stay in step exactly if the driver counts the packet that the host counted.
  lemma InStepNext(h: HostKeys, p: PhyKeys, bodies: seq<bytes>, i: nat)
    requires i < |bodies| && InStep(h, p, bodies, i)
    ensures InStep(h, p, bodies, i + 1) <==> DriverDecrypts(p, bodies[i])
  {
    assert bodies[..i + 1][..i] == bodies[..i];
    var pc := p.counter + Decrypted(p, bodies[..i]);
    SameRest(h.txCount + i, pc, 0);
    SameRest(h.txCount + i, pc, 1);
  }

  // One packet, with the counters in step.
  lemma OneDown(ccm: Ccm, h: HostKeys, p: PhyKeys, aa: bytes, crc: bytes, ps: seq<DataPacket>, i: nat)
    requires Lawful(ccm) && h.encrypted && |aa| == 4 && |crc| == 3 && Sizes(ps, 251) && i < |ps|
    requires InStep(h, p, HostBodies(ccm, h, aa, crc, ps), i)
    ensures var bodies := HostBodies(ccm, h, aa, crc, ps);
            && (Rebuilt(OpenedByDriver(ccm, p, bodies), aa, ps, i) <==> ps[i].payload != [])
            && (InStep(h, p, bodies, i + 1) <==> ps[i].payload != [])
  {
    var bodies := HostBodies(ccm, h, aa, crc, ps);
    var hi, pi := HostAfterTx(h, i), PhyAfterRx(p, bodies[..i]);
    EncryptedDownlink(ccm, hi, pi, aa, ps[i].hdr, ps[i].payload, crc);
    DownlinkAgreement(ccm, hi, pi, true, aa, ps[i].hdr, ps[i].payload, crc);
    assert DriverDecrypts(pi, bodies[i]) == DriverDecrypts(p, bodies[i]);
    InStepNext(h, p, bodies, i);
  }

  lemma {:induction false} DownInStep(ccm: Ccm, h: HostKeys, p: PhyKeys, aa: bytes, crc: bytes,
                                      ps: seq<DataPacket>, k: nat)
    requires Lawful(ccm) && h.encrypted && |aa| == 4 && |crc| == 3 && Sizes(ps, 251) && k <= |ps|
    requires SameEpoch(h, h.txCount, p) && forall i | 0 <= i < k :: ps[i].payload != []
    ensures InStep(h, p, HostBodies(ccm, h, aa, crc, ps), k)
  {
    if k == 0 {
      assert HostAfterTx(h, 0) == h;
    } else {
      DownInStep(ccm, h, p, aa, crc, ps, k - 1);
      OneDown(ccm, h, p, aa, crc, ps, k - 1);
    }
  }

  // The first packet without a payload, if there is one.
  lemma FirstEmpty(ps: seq<DataPacket>) returns (k: nat)
    ensures k <= |ps| && (forall i | 0 <= i < k :: ps[i].payload != [])
    ensures k < |ps| ==> ps[k].payload == []
  {
    k := 0;
    while k < |ps| && ps[k].payload != []
      invariant k <= |ps| && forall i | 0 <= i < k :: ps[i].payload != []
    {
      k := k + 1;
    }
  }

  // Main result for the downlink. The host encrypts a list of data packets and the driver
  // decrypts them, both with their own counters, equal in the beginning. Every packet comes
  // out as it was meant if and only if none has an empty payload, and just then the counters
  // are equal after each packet: the host counts an empty packet, the driver does not.
  lemma DownlinkCounters(ccm: Ccm, h: HostKeys, p: PhyKeys, aa: bytes, crc: bytes, ps: seq<DataPacket>)
    requires Lawful(ccm) && h.encrypted && |aa| == 4 && |crc| == 3 && Sizes(ps, 251)
    requires SameEpoch(h, h.txCount, p)
    ensures var bodies := HostBodies(ccm, h, aa, crc, ps);
            var noneEmpty := forall i | 0 <= i < |ps| :: ps[i].payload != [];
            && (noneEmpty <==> forall i | 0 <= i < |ps| :: Rebuilt(OpenedByDriver(ccm, p, bodies), aa, ps, i))
            && (noneEmpty <==> forall k | 0 <= k <= |ps| :: InStep(h, p, bodies, k))
  {
    var bodies := HostBodies(ccm, h, aa, crc, ps);
    var k := FirstEmpty(ps);
    DownInStep(ccm, h, p, aa, crc, ps, k);
    if k < |ps| {
      OneDown(ccm, h, p, aa, crc, ps, k);
      assert !Rebuilt(OpenedByDriver(ccm, p, bodies), aa, ps, k) && !InStep(h, p, bodies, k + 1);
    } else {
      forall i | 0 <= i <= |ps|
        ensures InStep(h, p, bodies, i) && (i < |ps| ==> Rebuilt(OpenedByDriver(ccm, p, bodies), aa, ps, i))
      {
        DownInStep(ccm, h, p, aa, crc, ps, i);
        if i < |ps| {
          OneDown(ccm, h, p, aa, crc, ps, i);
        }
      }
    }
  }

  // ---------- uplink ----------

  function NonEmpty(ps: seq<DataPacket>): (n: nat)
    ensures n <= |ps|
  {
    if ps == [] then 0
    else NonEmpty(ps[..|ps| - 1]) + if ps[|ps| - 1].payload != [] then 1 else 0
  }

  // The driver's keys after its packets, if the stack keeps its counter.
  function PhyAfterTx(p: PhyKeys, ps: seq<DataPacket>): PhyKeys {
    p.(counter := p.counter + NonEmpty(ps))
  }

  function DriverPackets(ccm: Ccm, p: PhyKeys, aa: bytes, ps: seq<DataPacket>): seq<bytes> {
    seq(|ps|, i requires 0 <= i < |ps| =>
      DriverSend(ccm, PhyAfterTx(p, ps[..i]), aa, ps[i].hdr, ps[i].payload))
  }

  // How many of the packets the host decrypts while encryption is on.
  function Long(raws: seq<bytes>): nat {
    if raws == [] then 0
    else
      var raw := raws[|raws| - 1];
      Long(raws[..|raws| - 1]) + if |raw| >= 6 && !IsAdv(raw) && raw[5] >= 5 then 1 else 0
  }

  function HostAfterRx(h: HostKeys, raws: seq<bytes>): HostKeys {
    h.(rxCount := h.rxCount + Long(raws))
  }

  function OpenedByHost(ccm: Ccm, h: HostKeys, raws: seq<bytes>): seq<Option<bytes>> {
    seq(|raws|, i requires 0 <= i < |raws| =>
      if |raws[i]| >= 6 then HostReceive(ccm, HostAfterRx(h, raws[..i]), raws[i]) else None)
  }

  ghost predicate RebuiltUp(results: seq<Option<bytes>>, aa: bytes, ps: seq<DataPacket>, i: nat)
    requires |results| == |ps| && Sizes(ps, 255) && i < |ps|
  {
    results[i] == Some(Original(aa, ps[i]) + [0, 0, 0])
  }

  ghost predicate InStepUp(h: HostKeys, p: PhyKeys, ps: seq<DataPacket>, raws: seq<bytes>, k: nat)
    requires k <= |raws| == |ps|
  {
    SameEpoch(HostAfterRx(h, raws[..k]), h.rxCount + Long(raws[..k]), PhyAfterTx(p, ps[..k]))
  }

  lemma OneMoreUp(ps: seq<DataPacket>, raws: seq<bytes>, i: nat)
    requires i < |ps| == |raws|
    ensures NonEmpty(ps[..i + 1]) == NonEmpty(ps[..i]) + if ps[i].payload != [] then 1 else 0
    ensures Long(raws[..i + 1]) ==
            Long(raws[..i]) + if |raws[i]| >= 6 && !IsAdv(raws[i]) && raws[i][5] >= 5 then 1 else 0
  {
    assert ps[..i + 1][..i] == ps[..i] && raws[..i + 1][..i] == raws[..i];
  }

  // What the driver emits for a packet counts for the host exactly if it counts for the driver.
  lemma CountedByBoth(ccm: Ccm, p: PhyKeys, aa: bytes, d: DataPacket)
    requires Lawful(ccm) && p.enabled && |aa| == 4 && aa != ADV_ACCESS_ADDRESS && |d.payload| <= 251
    ensures var raw := DriverSend(ccm, p, aa, d.hdr, d.payload);
            |raw| >= 6 && (d.payload != [] <==> !IsAdv(raw) && raw[5] >= 5)
  {
    UplinkAgreement(ccm, p, aa, d.hdr, d.payload);
    assert DriverSend(ccm, p, aa, d.hdr, d.payload)[..4] == aa;
  }

  lemma CountersStay(h: HostKeys, p: PhyKeys, ps: seq<DataPacket>, raws: seq<bytes>, i: nat)
    requires i < |ps| == |raws| && InStepUp(h, p, ps, raws, i)
    requires |raws[i]| >= 6 && (ps[i].payload != [] <==> !IsAdv(raws[i]) && raws[i][5] >= 5)
    ensures InStepUp(h, p, ps, raws, i + 1)
  {
    OneMoreUp(ps, raws, i);
    var hc, pc := h.rxCount + Long(raws[..i]), p.counter + NonEmpty(ps[..i]);
    SameRest(hc, pc, 0);
    SameRest(hc, pc, 1);
  }

  lemma OneUp(ccm: Ccm, h: HostKeys, p: PhyKeys, aa: bytes, ps: seq<DataPacket>, i: nat)
    requires Lawful(ccm) && h.encrypted && |aa| == 4 && aa != ADV_ACCESS_ADDRESS && Sizes(ps, 255) && i < |ps|
    requires InStepUp(h, p, ps, DriverPackets(ccm, p, aa, ps), i)
    ensures var raws := DriverPackets(ccm, p, aa, ps);
            && (RebuiltUp(OpenedByHost(ccm, h, raws), aa, ps, i) <==> |ps[i].payload| <= 251)
            && (|ps[i].payload| <= 251 ==> InStepUp(h, p, ps, raws, i + 1))
  {
    var raws := DriverPackets(ccm, p, aa, ps);
    var hi, pi := HostAfterRx(h, raws[..i]), PhyAfterTx(p, ps[..i]);
    EncryptedUplink(ccm, pi, hi, aa, ps[i].hdr, ps[i].payload);
    if |ps[i].payload| <= 251 {
      CountedByBoth(ccm, pi, aa, ps[i]);
      CountersStay(h, p, ps, raws, i);
    }
  }

  lemma {:induction false} UpInStep(ccm: Ccm, h: HostKeys, p: PhyKeys, aa: bytes, ps: seq<DataPacket>, k: nat)
    requires Lawful(ccm) && h.encrypted && |aa| == 4 && aa != ADV_ACCESS_ADDRESS && Sizes(ps, 255) && k <= |ps|
    requires SameEpoch(h, h.rxCount, p) && forall i | 0 <= i < k :: |ps[i].payload| <= 251
    ensures InStepUp(h, p, ps, DriverPackets(ccm, p, aa, ps), k)
  {
    if k > 0 {
      UpInStep(ccm, h, p, aa, ps, k - 1);
      OneUp(ccm, h, p, aa, ps, k - 1);
    }
  }

  // Main result for the uplink. Every packet of the driver comes out at the host as it was
  // meant if and only if none has more than 251 payload bytes; and then the counters are
  // equal after each packet.
  lemma UplinkCounters(ccm: Ccm, h: HostKeys, p: PhyKeys, aa: bytes, ps: seq<DataPacket>)
    requires Lawful(ccm) && h.encrypted && |aa| == 4 && aa != ADV_ACCESS_ADDRESS && Sizes(ps, 255)
    requires SameEpoch(h, h.rxCount, p)
    ensures var raws := DriverPackets(ccm, p, aa, ps);
            && (Sizes(ps, 251) <==> forall i | 0 <= i < |ps| :: RebuiltUp(OpenedByHost(ccm, h, raws), aa, ps, i))
            && (Sizes(ps, 251) ==> forall k | 0 <= k <= |ps| :: InStepUp(h, p, ps, raws, k))
  {
    var raws := DriverPackets(ccm, p, aa, ps);
    var k := FirstLarge(ps);
    UpInStep(ccm, h, p, aa, ps, k);
    if k < |ps| {
      OneUp(ccm, h, p, aa, ps, k);
      assert !RebuiltUp(OpenedByHost(ccm, h, raws), aa, ps, k);
    } else {
      forall i | 0 <= i <= |ps|
        ensures InStepUp(h, p, ps, raws, i) && (i < |ps| ==> RebuiltUp(OpenedByHost(ccm, h, raws), aa, ps, i))
      {
        UpInStep(ccm, h, p, aa, ps, i);
        if i < |ps| {
          OneUp(ccm, h, p, aa, ps, i);
        }
      }
    }
  }

  lemma FirstLarge(ps: seq<DataPacket>) returns (k: nat)
    ensures k <= |ps| && (forall i | 0 <= i < k :: |ps[i].payload| <= 251)
    ensures k < |ps| ==> |ps[k].payload| > 251
  {
    k := 0;
    while k < |ps| && |ps[k].payload| <= 251
      invariant k <= |ps| && forall i | 0 <= i < k :: |ps[i].payload| <= 251
    {
      k := k + 1;
    }
  }
}
