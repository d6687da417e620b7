/**
 Link encryption on both sides of the serial line. AES-CCM is a pair of functions of which
 only the round-trip law is used.
 */
module LinkCrypto {
  import opened Bytes

  // Arguments: key, nonce, authenticated byte, input. The ciphertext ends with the 4-byte tag.
  datatype Ccm = Ccm(
    enc: (bytes, bytes, byte, bytes) -> bytes,
    dec: (bytes, bytes, byte, bytes) -> (bool, bytes))

  ghost predicate Lawful(ccm: Ccm) {
    && (forall k, n, a, p :: |ccm.enc(k, n, a, p)| == |p| + 4)
    && (forall k, n, a, p :: ccm.dec(k, n, a, ccm.enc(k, n, a, p)) == (true, p))
    && (forall k, n, a, c :: |c| >= 4 ==> |ccm.dec(k, n, a, c).1| == |c| - 4)
  }

  const ADV_ACCESS_ADDRESS: bytes := [0xD6, 0xBE, 0x89, 0x8E]

  // ---------- nonce ----------

  const COUNTER_PERIOD: nat := 0x80_0000_0000 // 2^39

  // Bluetooth Core Specification, Vol 6 Part E section 2.1: 39 counter bits, the direction
  // bit (set for packets of the central), then the IV.
  function Nonce(counter: nat, fromCentral: bool, iv: bytes): (n: bytes)
    ensures |n| == 5 + |iv|
  {
    var c := LeBytes(counter, 5);
    c[4 := if fromCentral then SetBit7(c[4]) else ClearBit7(c[4])] + iv
  }

  lemma FiveBytes(s: bytes)
    requires |s| == 5
    ensures LeValue(s) ==
            s[0] as int + 256 * (s[1] as int + 256 * (s[2] as int + 256 * (s[3] as int + 256 * s[4] as int)))
  {
    var s1 := s[1..];
    var s2 := s1[1..];
    var s3 := s2[1..];
    assert LeValue(s3[1..]) == 0 + LeValue(s3[1..]) && s3[1..] == [s[4]];
    assert LeValue([s[4]]) == s[4] + 256 * LeValue([]);
    assert LeValue(s3) == s[3] as int + 256 * s[4] as int;
    assert LeValue(s2) == s[2] + 256 * LeValue(s3);
    assert LeValue(s1) == s[1] + 256 * LeValue(s2);
  }

  // The five bytes hold the counter modulo 2^39 and, in the top bit, the direction.
  lemma CounterField(counter: nat, fromCentral: bool, iv: bytes)
    ensures LeValue(Nonce(counter, fromCentral, iv)[..5]) ==
            counter % COUNTER_PERIOD + if fromCentral then COUNTER_PERIOD else 0
  {
    var n1 := counter / 256;
    var n2 := n1 / 256;
    var n3 := n2 / 256;
    var n4 := n3 / 256;
    var top: byte := n4 % 128 + if fromCentral then 128 else 0;
    NonceBytes(counter, fromCentral, iv, n1, n2, n3, n4, top);
    FiveBytes([counter % 256, n1 % 256, n2 % 256, n3 % 256, top]);
    SplitCounter(counter, n1, n2, n3, n4);
  }

  lemma NonceBytes(counter: nat, fromCentral: bool, iv: bytes, n1: nat, n2: nat, n3: nat, n4: nat, top: byte)
    requires n1 == counter / 256 && n2 == n1 / 256 && n3 == n2 / 256 && n4 == n3 / 256
    requires top == n4 % 128 + if fromCentral then 128 else 0
    ensures Nonce(counter, fromCentral, iv)[..5] == [counter % 256, n1 % 256, n2 % 256, n3 % 256, top]
  {
    FiveLeBytes(counter, n1, n2, n3, n4);
    SevenBits(n4);
    WithDirection(LeBytes(counter, 5), fromCentral, iv, top);
  }

  lemma SevenBits(n: nat)
    ensures n % 256 % 128 == n % 128
  {
  }

  lemma WithDirection(c: bytes, fromCentral: bool, iv: bytes, top: byte)
    requires |c| == 5 && top == c[4] % 128 + if fromCentral then 128 else 0
    ensures (c[4 := if fromCentral then SetBit7(c[4]) else ClearBit7(c[4])] + iv)[..5] ==
            [c[0], c[1], c[2], c[3], top]
  {
  }

  lemma FiveLeBytes(n: nat, n1: nat, n2: nat, n3: nat, n4: nat)
    requires n1 == n / 256 && n2 == n1 / 256 && n3 == n2 / 256 && n4 == n3 / 256
    ensures LeBytes(n, 5) == [n % 256, n1 % 256, n2 % 256, n3 % 256, n4 % 256]
  {
    assert LeBytes(n, 5) == [n % 256] + LeBytes(n1, 4);
    assert LeBytes(n1, 4) == [n1 % 256] + LeBytes(n2, 3);
    assert LeBytes(n2, 3) == [n2 % 256] + LeBytes(n3, 2);
    assert LeBytes(n3, 2) == [n3 % 256] + LeBytes(n4, 1);
    assert LeBytes(n4, 1) == [n4 % 256] + LeBytes(n4 / 256, 0);
  }

  lemma SplitCounter(n: nat, n1: nat, n2: nat, n3: nat, n4: nat)
    requires n1 == n / 256 && n2 == n1 / 256 && n3 == n2 / 256 && n4 == n3 / 256
    ensures n % COUNTER_PERIOD ==
            n % 256 + 256 * (n1 % 256 + 256 * (n2 % 256 + 256 * (n3 % 256 + 256 * (n4 % 128))))
  {
    var r := n % 256 + 256 * (n1 % 256 + 256 * (n2 % 256 + 256 * (n3 % 256 + 256 * (n4 % 128))));
    assert n == r + COUNTER_PERIOD * (n4 / 128);
    assert 0 <= r < COUNTER_PERIOD;
  }

  // Two nonces are equal exactly when direction, IV and the counter modulo 2^39 are.
  lemma NonceEqual(c1: nat, d1: bool, iv1: bytes, c2: nat, d2: bool, iv2: bytes)
    ensures Nonce(c1, d1, iv1) == Nonce(c2, d2, iv2)
            <==> d1 == d2 && iv1 == iv2 && c1 % COUNTER_PERIOD == c2 % COUNTER_PERIOD
  {
    var n1, n2 := Nonce(c1, d1, iv1), Nonce(c2, d2, iv2);
    CounterField(c1, d1, iv1);
    CounterField(c2, d2, iv2);
    assert n1 == n1[..5] + iv1 && n2 == n2[..5] + iv2;
    if n1 == n2 {
      assert iv1 == n1[5..] == n2[5..] == iv2;
    }
    if d1 == d2 && iv1 == iv2 && c1 % COUNTER_PERIOD == c2 % COUNTER_PERIOD {
      LeInjective(n1[..5], n2[..5]);
    }
  }

  // ---------- packets ----------

  // Access address, link layer header, payload. On the host a 3-byte CRC follows.
  function Pdu(aa: bytes, hdr: byte, len: byte, payload: bytes): (p: bytes)
    ensures |p| == |aa| + 2 + |payload|
  {
    aa + [hdr, len] + payload
  }

  predicate IsAdv(body: bytes) {
    |body| >= 4 && body[..4] == ADV_ACCESS_ADDRESS
  }

  // ---------- the host's side ----------

  datatype HostKeys = HostKeys(encrypted: bool, key: bytes, iv: bytes, txCount: nat, rxCount: nat)

  // The packet that `send` hands to `raw_send`; None stands for the ValueError of a length
  // byte above 255.
  function HostSend(ccm: Ccm, k: HostKeys, isData: bool, pkt: bytes): Option<bytes>
    requires |pkt| >= 9
  {
    if k.encrypted && isData then
      if pkt[5] as int + 4 > 255 then None
      else
        var sealed := ccm.enc(k.key, Nonce(k.txCount, true, k.iv), MaskE3(pkt[4]), PySlice(pkt, 6, -3));
        Some(pkt[..4] + [pkt[4], pkt[5] + 4] + sealed + [0, 0, 0])
    else Some(pkt)
  }

  // What `receive` makes of raw data; None stands for a packet dropped for its MIC.
  function HostReceive(ccm: Ccm, k: HostKeys, raw: bytes): Option<bytes>
    requires |raw| >= 6
  {
    if k.encrypted && !IsAdv(raw) && raw[5] >= 5 then
      var len: byte := raw[5] - 4;
      var mic := PySlice(raw, 6 + len, -3);
      var (ok, plain) :=
        ccm.dec(k.key, Nonce(k.rxCount, false, k.iv), MaskE3(raw[4]), PySlice(raw, 6, -7) + mic);
      if ok && |mic| == 4 then Some(raw[..4] + [raw[4], len] + plain + [0, 0, 0]) else None
    else Some(raw)
  }

  // ---------- the driver's side ----------

  datatype PhyKeys = PhyKeys(enabled: bool, key: bytes, iv: bytes, counter: nat)

  predicate DriverDecrypts(k: PhyKeys, body: bytes) {
    k.enabled && |body| > 10 && body[5] > 0
  }

  // The decryption branch of recv_packet on the received bytes: crypto_ok and the new bytes.
  function DriverReceive(ccm: Ccm, k: PhyKeys, body: bytes): (bool, bytes) {
    if DriverDecrypts(k, body) then
      var (ok, plain) := ccm.dec(k.key, Nonce(k.counter, true, k.iv), MaskE3(body[4]), body[6..]);
      (ok, body[..5] + [(body[5] as int - 4) % 256] + plain)
    else (true, body)
  }

  // The bytes that ble_phy_tx puts into a frame.
  function DriverSend(ccm: Ccm, k: PhyKeys, aa: bytes, hdr: byte, payload: bytes): bytes {
    var sent := if k.enabled && |payload| > 0
                then ccm.enc(k.key, Nonce(k.counter, false, k.iv), MaskE3(hdr), payload)
                else payload;
    Pdu(aa, hdr, |sent| % 256, sent) + [0, 0, 0]
  }

  // ---------- agreement of the two sides ----------

  ghost predicate SameEpoch(h: HostKeys, hostCounter: nat, p: PhyKeys) {
    && h.encrypted == p.enabled && h.key == p.key && h.iv == p.iv
    && hostCounter % COUNTER_PERIOD == p.counter % COUNTER_PERIOD
  }

  lemma PduSlices(aa: bytes, hdr: byte, len: byte, payload: bytes, crc: bytes)
    requires |aa| == 4 && |crc| == 3
    ensures var raw := Pdu(aa, hdr, len, payload) + crc;
            && raw[..4] == aa && raw[4] == hdr && raw[5] == len
            && PySlice(raw, 6, -3) == payload && PySlice(raw, 0, -3) == Pdu(aa, hdr, len, payload)
  {
    var raw := Pdu(aa, hdr, len, payload) + crc;
    assert PySlice(raw, 6, -3) == raw[6..|raw| - 3] == payload;
    assert PySlice(raw, 0, -3) == raw[0..|raw| - 3];
  }

  // What `send` and the CRC cut of `raw_send` produce, in plain terms.
  lemma HostSendSealed(ccm: Ccm, k: HostKeys, aa: bytes, hdr: byte, payload: bytes, crc: bytes)
    requires Lawful(ccm) && k.encrypted && |aa| == 4 && |crc| == 3 && |payload| <= 251
    ensures var sealed := ccm.enc(k.key, Nonce(k.txCount, true, k.iv), MaskE3(hdr), payload);
            var sent := HostSend(ccm, k, true, Pdu(aa, hdr, |payload|, payload) + crc);
            sent.Some? && PySlice(sent.value, 0, -3) == Pdu(aa, hdr, |payload| + 4, sealed)
  {
    var sealed := ccm.enc(k.key, Nonce(k.txCount, true, k.iv), MaskE3(hdr), payload);
    PduSlices(aa, hdr, |payload|, payload, crc);
    PduSlices(aa, hdr, |payload| + 4, sealed, [0, 0, 0]);
    assert HostSend(ccm, k, true, Pdu(aa, hdr, |payload|, payload) + crc).value ==
           Pdu(aa, hdr, |payload| + 4, sealed) + [0, 0, 0];
  }

  // A data packet that the host encrypts reaches the stack as it was exactly when its payload
  // is not empty: the driver takes the 10 bytes of an empty encrypted packet for plain text.
  lemma EncryptedDownlink(ccm: Ccm, h: HostKeys, p: PhyKeys, aa: bytes, hdr: byte, payload: bytes, crc: bytes)
    requires Lawful(ccm) && SameEpoch(h, h.txCount, p) && h.encrypted
    requires |aa| == 4 && |crc| == 3 && |payload| <= 251
    ensures var sent := HostSend(ccm, h, true, Pdu(aa, hdr, |payload|, payload) + crc);
            && sent.Some?
            && (DriverReceive(ccm, p, PySlice(sent.value, 0, -3)) == (true, Pdu(aa, hdr, |payload|, payload))
                <==> |payload| >= 1)
  {
    HostSendSealed(ccm, h, aa, hdr, payload, crc);
    NonceEqual(h.txCount, true, h.iv, p.counter, true, p.iv);
    DriverOpens(ccm, p, aa, hdr, payload);
  }

  lemma DriverOpens(ccm: Ccm, p: PhyKeys, aa: bytes, hdr: byte, payload: bytes)
    requires Lawful(ccm) && p.enabled && |aa| == 4 && |payload| <= 251
    ensures var sealed := ccm.enc(p.key, Nonce(p.counter, true, p.iv), MaskE3(hdr), payload);
            DriverReceive(ccm, p, Pdu(aa, hdr, |payload| + 4, sealed)) == (true, Pdu(aa, hdr, |payload|, payload))
            <==> |payload| >= 1
  {
    var sealed := ccm.enc(p.key, Nonce(p.counter, true, p.iv), MaskE3(hdr), payload);
    var body := Pdu(aa, hdr, |payload| + 4, sealed);
    assert body[6..] == sealed && body[4] == hdr && body[5] == |payload| + 4;
    if |payload| >= 1 {
      assert DriverDecrypts(p, body);
      OpenedPdu(body, aa, hdr, |payload|, payload, sealed);
    } else {
      assert !DriverDecrypts(p, body) && Pdu(aa, hdr, |payload|, payload)[5] == 0;
    }
  }

  lemma OpenedPdu(body: bytes, aa: bytes, hdr: byte, len: byte, payload: bytes, sealed: bytes)
    requires |aa| == 4 && len <= 251 && body == Pdu(aa, hdr, len + 4, sealed)
    ensures body[..5] + [(body[5] as int - 4) % 256] + payload == Pdu(aa, hdr, len, payload)
  {
    assert body[..5] == aa + [hdr] && body[5] == len + 4;
  }

  // With both flags on, the sides agree on whether a packet of the host is encrypted exactly
  // for data packets with a payload and for advertising packets of at most 4 payload bytes.
  lemma DownlinkAgreement(ccm: Ccm, h: HostKeys, p: PhyKeys, isData: bool, aa: bytes, hdr: byte,
                          payload: bytes, crc: bytes)
    requires Lawful(ccm) && h.encrypted && p.enabled
    requires |aa| == 4 && |crc| == 3 && |payload| <= 251
    ensures var sent := HostSend(ccm, h, isData, Pdu(aa, hdr, |payload|, payload) + crc);
            && sent.Some?
            && (DriverDecrypts(p, PySlice(sent.value, 0, -3)) == isData
                <==> if isData then |payload| >= 1 else |payload| <= 4)
  {
    PduSlices(aa, hdr, |payload|, payload, crc);
    if isData {
      HostSendSealed(ccm, h, aa, hdr, payload, crc);
    }
  }

  // Whatever the driver emits for a data packet is rebuilt by the host with the same header,
  // length and payload exactly when the length byte cannot wrap: up to 251 bytes if the
  // payload gets encrypted, up to 255 if not.
  lemma EncryptedUplink(ccm: Ccm, p: PhyKeys, h: HostKeys, aa: bytes, hdr: byte, payload: bytes)
    requires Lawful(ccm) && SameEpoch(h, h.rxCount, p)
    requires |aa| == 4 && aa != ADV_ACCESS_ADDRESS && |payload| <= 255
    ensures |DriverSend(ccm, p, aa, hdr, payload)| >= 9
    ensures HostReceive(ccm, h, DriverSend(ccm, p, aa, hdr, payload)) ==
            Some(Pdu(aa, hdr, |payload|, payload) + [0, 0, 0])
            <==> (p.enabled ==> |payload| <= 251)
  {
    NonceEqual(h.rxCount, false, h.iv, p.counter, false, p.iv);
    if p.enabled && |payload| > 0 {
      SealedUplink(ccm, p, h, aa, hdr, payload);
    } else {
      PduSlices(aa, hdr, |payload|, payload, [0, 0, 0]);
    }
  }

  lemma SealedUplink(ccm: Ccm, p: PhyKeys, h: HostKeys, aa: bytes, hdr: byte, payload: bytes)
    requires Lawful(ccm) && h.encrypted && p.enabled && h.key == p.key
    requires Nonce(h.rxCount, false, h.iv) == Nonce(p.counter, false, p.iv)
    requires |aa| == 4 && aa != ADV_ACCESS_ADDRESS && 0 < |payload| <= 255
    ensures |DriverSend(ccm, p, aa, hdr, payload)| >= 9
    ensures HostReceive(ccm, h, DriverSend(ccm, p, aa, hdr, payload)) ==
            Some(Pdu(aa, hdr, |payload|, payload) + [0, 0, 0])
            <==> |payload| <= 251
  {
    var raw := DriverSend(ccm, p, aa, hdr, payload);
    var sealed := ccm.enc(p.key, Nonce(p.counter, false, p.iv), MaskE3(hdr), payload);
    RawParts(raw, aa, hdr, |sealed| % 256, sealed);
    if |payload| <= 251 {
      HostOpens(ccm, h, raw, aa, hdr, payload, sealed);
    } else {
      WrappedLength(ccm, h, raw, aa, hdr, payload);
    }
  }

  lemma RawParts(raw: bytes, aa: bytes, hdr: byte, len: byte, data: bytes)
    requires |aa| == 4 && raw == Pdu(aa, hdr, len, data) + [0, 0, 0]
    ensures |raw| == |data| + 9 && raw[..4] == aa && raw[4] == hdr && raw[5] == len
    ensures IsAdv(raw) <==> aa == ADV_ACCESS_ADDRESS
  {
  }

  lemma HostOpens(ccm: Ccm, h: HostKeys, raw: bytes, aa: bytes, hdr: byte, payload: bytes, sealed: bytes)
    requires Lawful(ccm) && h.encrypted && 0 < |payload| <= 251 && |aa| == 4 && aa != ADV_ACCESS_ADDRESS
    requires sealed == ccm.enc(h.key, Nonce(h.rxCount, false, h.iv), MaskE3(hdr), payload)
    requires raw == Pdu(aa, hdr, |payload| + 4, sealed) + [0, 0, 0]
    ensures HostReceive(ccm, h, raw) == Some(Pdu(aa, hdr, |payload|, payload) + [0, 0, 0])
  {
    RawParts(raw, aa, hdr, |payload| + 4, sealed);
    DataSlices(raw, aa, hdr, |payload| + 4, sealed, [0, 0, 0]);
    PduBytes(aa, hdr, |payload|, payload);
  }

  lemma PduBytes(aa: bytes, hdr: byte, len: byte, payload: bytes)
    ensures aa + [hdr, len] + payload + [0, 0, 0] == Pdu(aa, hdr, len, payload) + [0, 0, 0]
  {
  }

  // A length byte that wraps cannot be read as the original.
  lemma WrappedLength(ccm: Ccm, h: HostKeys, raw: bytes, aa: bytes, hdr: byte, payload: bytes)
    requires h.encrypted && |aa| == 4 && 251 < |payload| <= 255 && |raw| == |payload| + 13
    requires raw[5] == |payload| - 252
    ensures HostReceive(ccm, h, raw) != Some(Pdu(aa, hdr, |payload|, payload) + [0, 0, 0])
  {
    RawParts(Pdu(aa, hdr, |payload|, payload) + [0, 0, 0], aa, hdr, |payload|, payload);
  }

  // With both flags on, the driver encrypts a data packet exactly when the host decrypts it.
  lemma UplinkAgreement(ccm: Ccm, p: PhyKeys, aa: bytes, hdr: byte, payload: bytes)
    requires Lawful(ccm) && p.enabled && |aa| == 4 && |payload| <= 251
    ensures |DriverSend(ccm, p, aa, hdr, payload)| >= 9
    ensures |payload| > 0 <==> DriverSend(ccm, p, aa, hdr, payload)[5] >= 5
  {
  }

  // ---------- without encryption, and with a wrong MIC ----------

  lemma AdvAddress(body: bytes)
    ensures LeValue(ADV_ACCESS_ADDRESS) == 0x8E89_BED6
    ensures IsAdv(body) <==> |body| >= 4 && body[0] == 0xD6 && body[1] == 0xBE && body[2] == 0x89 && body[3] == 0x8E
  {
    var s := ADV_ACCESS_ADDRESS;
    assert s[1..] == [0xBE, 0x89, 0x8E] && s[1..][1..] == [0x89, 0x8E] && s[1..][1..][1..] == [0x8E];
    assert s[1..][1..][1..][1..] == [];
    if |body| >= 4 {
      assert body[..4] == [body[0], body[1], body[2], body[3]];
    }
  }

  // A packet that neither side encrypts reaches the stack as it was.
  lemma PlainDownlink(ccm: Ccm, h: HostKeys, p: PhyKeys, isData: bool, pkt: bytes)
    requires |pkt| >= 9 && !p.enabled && (isData ==> !h.encrypted)
    ensures HostSend(ccm, h, isData, pkt) == Some(pkt)
    ensures DriverReceive(ccm, p, PySlice(pkt, 0, -3)) == (true, pkt[..|pkt| - 3])
  {
    assert PySlice(pkt, 0, -3) == pkt[..|pkt| - 3];
  }

  // The driver leaves every packet as it is while encryption is off, and with encryption on the
  // short ones and those whose length byte is 0. It opens the others, right or wrong MIC.
  lemma DriverReads(ccm: Ccm, k: PhyKeys, body: bytes)
    ensures !k.enabled || |body| <= 10 || body[5] == 0 ==> DriverReceive(ccm, k, body) == (true, body)
    ensures k.enabled && |body| >= 11 && body[5] != 0 ==>
              var (ok, plain) := ccm.dec(k.key, Nonce(k.counter, true, k.iv), MaskE3(body[4]), body[6..]);
              DriverReceive(ccm, k, body) == (ok, body[..5] + [(body[5] as int + 252) % 256] + plain)
  {
  }

  // The host reads a packet from the driver as it is while encryption is off, if it is an
  // advertising packet, or if it is too short for a MIC; otherwise it gets the opened packet if
  // the MIC is right and none if it is wrong.
  lemma HostReads(ccm: Ccm, k: HostKeys, aa: bytes, hdr: byte, data: bytes, crc: bytes)
    requires |aa| == 4 && |data| <= 255 && |crc| == 3
    ensures var raw := Pdu(aa, hdr, |data|, data) + crc;
            && (!k.encrypted || aa == ADV_ACCESS_ADDRESS || |data| <= 4 ==> HostReceive(ccm, k, raw) == Some(raw))
            && (k.encrypted && aa != ADV_ACCESS_ADDRESS && |data| >= 5 ==>
                  var (ok, plain) := ccm.dec(k.key, Nonce(k.rxCount, false, k.iv), MaskE3(hdr), data);
                  HostReceive(ccm, k, raw) ==
                  if ok then Some(aa + [hdr, |data| - 4] + plain + [0, 0, 0]) else None)
  {
    var raw := Pdu(aa, hdr, |data|, data) + crc;
    PduSlices(aa, hdr, |data|, data, crc);
    assert IsAdv(raw) <==> aa == ADV_ACCESS_ADDRESS;
    if |data| >= 5 {
      DataSlices(raw, aa, hdr, |data|, data, crc);
    }
  }

  lemma DataSlices(raw: bytes, aa: bytes, hdr: byte, len: byte, data: bytes, crc: bytes)
    requires |aa| == 4 && |data| >= 4 && |crc| == 3 && raw == Pdu(aa, hdr, len, data) + crc
    ensures PySlice(raw, 6, -7) + PySlice(raw, 6 + (|data| - 4), -3) == data
    ensures |PySlice(raw, 6 + (|data| - 4), -3)| == 4
  {
    var n := |data| - 4;
    assert PySlice(raw, 6, -7) == raw[6..6 + n] == data[..n];
    assert PySlice(raw, 6 + n, -3) == raw[6 + n..10 + n] == data[n..];
  }
}
