/**
 The mapper's encryption state: packet counters, SKD and IV, session key. The theorems are
 about every run of its steps; a class updates the fields as the mapper does.
 */
module EncryptionSession {
  import opened Bytes
  import opened LinkCrypto
  import opened Symbols

  type Cipher = (bytes, bytes) -> bytes // AES-128-ECB: key, plain text

  function Reverse(s: bytes): bytes {
    if s == [] then [] else Reverse(s[1..]) + [s[0]]
  }

  datatype Session = Session(
    encrypted: bool,
    txCount: nat,
    rxCount: nat,
    skd: bytes,
    iv: bytes,
    ltk: bytes,
    sessionKey: bytes)

  datatype Event =
    | SendData            // a data packet goes out, encrypted if encryption is on
    | ReceiveData         // a data packet that is long enough to carry a MIC comes in
    | ClearCounters       // ll_ctrl_enc_req, after its request is sent
    | EncRsp(skds: nat, ivs: nat)
    | StartEncReq
    | EncryptionEnds      // pause confirmed, scan or connect request, advertising packet
    | NewLtk(ltk: bytes)
    | Reset

  ghost predicate Valid(s: Session) {
    |s.skd| == 16 && |s.iv| == 8
  }

  ghost predicate ValidEvents(events: seq<Event>) {
    forall i | 0 <= i < |events| :: events[i].EncRsp? ==> events[i].skds < Pow256(8) && events[i].ivs < Pow256(4)
  }

  function Zeros(n: nat): (s: bytes)
    ensures |s| == n
  {
    seq(n, _ => 0)
  }

  function Cleared(): Session {
    Session(false, 0, 0, Zeros(16), Zeros(8), Zeros(16), Zeros(16))
  }

  // SKD and IV with a new peripheral's half behind the central's half.
  function WithHalf(both: bytes, half: nat): (r: bytes)
    ensures |r| == |both|
  {
    both[..|both| / 2] + LeBytes(half, |both| - |both| / 2)
  }

  ghost function Step(aes: Cipher, s: Session, e: Event): (r: Session)
    requires Valid(s)
    ensures Valid(r)
  {
    match e
    case SendData => if s.encrypted then s.(txCount := s.txCount + 1) else s
    case ReceiveData => if s.encrypted then s.(rxCount := s.rxCount + 1) else s
    case ClearCounters => s.(txCount := 0, rxCount := 0)
    case EncRsp(skds, ivs) =>
      var s := s.(skd := WithHalf(s.skd, skds), iv := WithHalf(s.iv, ivs));
      if s.encrypted then s else s.(sessionKey := aes(Reverse(s.ltk), Reverse(s.skd)))
    case StartEncReq => s.(encrypted := true)
    case EncryptionEnds => s.(encrypted := false)
    case NewLtk(ltk) => s.(ltk := ltk)
    case Reset => Cleared()
  }

  ghost function Run(aes: Cipher, s: Session, events: seq<Event>): (r: Session)
    requires Valid(s)
    ensures Valid(r)
  {
    if events == [] then s else Step(aes, Run(aes, s, events[..|events| - 1]), events[|events| - 1])
  }

  // ---------- SKD and IV ----------

  // The position of the last LL_ENC_RSP, or -1.
  ghost function LastRsp(events: seq<Event>): (i: int)
    ensures -1 <= i < |events|
    ensures i >= 0 ==> events[i].EncRsp?
    ensures forall j | i < j < |events| :: !events[j].EncRsp?
  {
    if events == [] then -1
    else if events[|events| - 1].EncRsp? then |events| - 1
    else LastRsp(events[..|events| - 1])
  }

  ghost predicate NoReset(events: seq<Event>) {
    forall i | 0 <= i < |events| :: !events[i].Reset?
  }

  lemma HalfValue(both: bytes, half: nat, k: nat)
    requires |both| == 2 * k && half < Pow256(k)
    ensures WithHalf(both, half)[..k] == both[..k]
    ensures LeValue(WithHalf(both, half)) == LeValue(both[..k]) + Pow256(k) * half
  {
    LeRoundTrip(half, k);
    LeConcat(both[..k], LeBytes(half, k));
  }

  lemma StepHalves(aes: Cipher, s: Session, e: Event)
    requires Valid(s) && !e.Reset?
    requires e.EncRsp? ==> e.skds < Pow256(8) && e.ivs < Pow256(4)
    ensures var r := Step(aes, s, e);
            && r.skd[..8] == s.skd[..8] && r.iv[..4] == s.iv[..4]
            && if e.EncRsp? then HalvesOf(r, s, e.skds, e.ivs) else r.skd == s.skd && r.iv == s.iv
  {
    if e.EncRsp? {
      HalfValue(s.skd, e.skds, 8);
      HalfValue(s.iv, e.ivs, 4);
    }
  }

  // SKD and IV of r are the central's halves of s followed by the given peripheral's halves.
  ghost predicate HalvesOf(r: Session, s: Session, skds: nat, ivs: nat)
    requires Valid(s)
  {
    && LeValue(r.skd) == LeValue(s.skd[..8]) + Pow256(8) * skds
    && LeValue(r.iv) == LeValue(s.iv[..4]) + Pow256(4) * ivs
  }

  // Between resets, after any number of responses, SKD and IV are the little-endian
  // concatenation of the central's halves, which never change and which the request carries,
  // and the peripheral's halves of the latest response.
  lemma {:induction false} KeyMaterial(aes: Cipher, s: Session, events: seq<Event>)
    requires Valid(s) && ValidEvents(events) && NoReset(events)
    ensures var r, i := Run(aes, s, events), LastRsp(events);
            && r.skd[..8] == s.skd[..8] && r.iv[..4] == s.iv[..4]
            && if i >= 0 then HalvesOf(r, s, events[i].skds, events[i].ivs)
               else r.skd == s.skd && r.iv == s.iv
  {
    if events != [] {
      var last := |events| - 1;
      KeyMaterial(aes, s, events[..last]);
      StepHalves(aes, Run(aes, s, events[..last]), events[last]);
    }
  }

  // ---------- session key ----------

  // The event gives the session a new key: a response while encryption is off, or a reset.
  ghost predicate Rekeys(s: Session, e: Event) {
    e.Reset? || (e.EncRsp? && !s.encrypted)
  }

  lemma StepKey(aes: Cipher, s: Session, e: Event)
    requires Valid(s)
    ensures var r := Step(aes, s, e);
            r.sessionKey == if e.Reset? then Cleared().sessionKey
                            else if Rekeys(s, e) then aes(Reverse(s.ltk), Reverse(r.skd))
                            else s.sessionKey
  {
  }

  // The session key is the one derived at the latest rekeying event: from the long term key
  // and the SKD that were in force then, whatever has become of them since.
  lemma {:induction false} KeyOrigin(aes: Cipher, s: Session, events: seq<Event>, k: nat)
    requires Valid(s) && k < |events| && Rekeys(Run(aes, s, events[..k]), events[k])
    requires forall j | k < j < |events| :: !Rekeys(Run(aes, s, events[..j]), events[j])
    ensures Run(aes, s, events).sessionKey ==
            if events[k].Reset? then Cleared().sessionKey
            else aes(Reverse(Run(aes, s, events[..k]).ltk), Reverse(Run(aes, s, events[..k + 1]).skd))
    decreases |events|
  {
    var last := |events| - 1;
    StepKey(aes, Run(aes, s, events[..last]), events[last]);
    if k == last {
      assert events[..k + 1] == events;
    } else {
      var before := events[..last];
      assert before[..k] == events[..k] && before[..k + 1] == events[..k + 1] && before[k] == events[k];
      forall j | k < j < |before|
        ensures !Rekeys(Run(aes, s, before[..j]), before[j])
      {
        assert before[..j] == events[..j];
      }
      KeyOrigin(aes, s, before, k);
      assert !Rekeys(Run(aes, s, events[..last]), events[last]);
    }
  }

  // While encryption stays on, the session key stays the same.
  lemma {:induction false} KeyStable(aes: Cipher, s: Session, events: seq<Event>)
    requires Valid(s)
    requires forall j | 0 <= j <= |events| :: Run(aes, s, events[..j]).encrypted
    ensures Run(aes, s, events).sessionKey == s.sessionKey
  {
    if events != [] {
      var last := |events| - 1;
      assert forall j | 0 <= j <= last :: events[..last][..j] == events[..j];
      KeyStable(aes, s, events[..last]);
      assert Run(aes, s, events[..last]).encrypted;
      assert events[..|events|] == events;
    } else {
      assert events[..0] == [];
    }
  }

  lemma {:induction false} ReverseAt(s: bytes)
    ensures |Reverse(s)| == |s|
    ensures forall i | 0 <= i < |s| :: Reverse(s)[i] == s[|s| - 1 - i]
  {
    if s != [] {
      ReverseAt(s[1..]);
      assert forall i | 0 <= i < |s| - 1 :: Reverse(s)[i] == s[1..][|s| - 2 - i];
    }
  }

  // ---------- when encryption is on ----------

  // The position of the last event that switches encryption on or off, or -1.
  ghost function LastSwitch(events: seq<Event>): (i: int)
    ensures -1 <= i < |events|
    ensures i >= 0 ==> events[i].StartEncReq? || events[i].EncryptionEnds? || events[i].Reset?
    ensures forall j | i < j < |events| ::
              !events[j].StartEncReq? && !events[j].EncryptionEnds? && !events[j].Reset?
  {
    if events == [] then -1
    else
      var e := events[|events| - 1];
      if e.StartEncReq? || e.EncryptionEnds? || e.Reset? then |events| - 1
      else LastSwitch(events[..|events| - 1])
  }

  // Encryption is on exactly if the last of these events started it, or if there is none and it
  // was on before.
  lemma {:induction false} EncryptedIff(aes: Cipher, s: Session, events: seq<Event>)
    requires Valid(s)
    ensures var i := LastSwitch(events);
            Run(aes, s, events).encrypted <==> if i < 0 then s.encrypted else events[i].StartEncReq?
  {
    if events != [] {
      EncryptedIff(aes, s, events[..|events| - 1]);
    }
  }

  // The position of the last event that sets the long term key, or -1.
  ghost function LastLtk(events: seq<Event>): (i: int)
    ensures -1 <= i < |events|
    ensures i >= 0 ==> events[i].NewLtk? || events[i].Reset?
    ensures forall j | i < j < |events| :: !events[j].NewLtk? && !events[j].Reset?
  {
    if events == [] then -1
    else if events[|events| - 1].NewLtk? || events[|events| - 1].Reset? then |events| - 1
    else LastLtk(events[..|events| - 1])
  }

  lemma {:induction false} LtkIs(aes: Cipher, s: Session, events: seq<Event>)
    requires Valid(s)
    ensures var i := LastLtk(events);
            Run(aes, s, events).ltk ==
            if i < 0 then s.ltk else if events[i].NewLtk? then events[i].ltk else seq(16, _ => 0)
  {
    if events != [] {
      LtkIs(aes, s, events[..|events| - 1]);
    }
  }

  // ---------- nonces ----------

  datatype Use = Use(counter: nat, fromCentral: bool, iv: bytes)

  function NonceOf(u: Use): bytes {
    Nonce(u.counter, u.fromCentral, u.iv)
  }

  // The nonces used in a run, in order.
  ghost function Uses(aes: Cipher, s: Session, events: seq<Event>): seq<Use>
    requires Valid(s)
  {
    if events == [] then []
    else
      var e, before := events[|events| - 1], Run(aes, s, events[..|events| - 1]);
      Uses(aes, s, events[..|events| - 1]) +
      if !before.encrypted then []
      else if e.SendData? then [Use(before.txCount, true, before.iv)]
      else if e.ReceiveData? then [Use(before.rxCount, false, before.iv)]
      else []
  }

  // No counter is cleared.
  ghost predicate Epoch(events: seq<Event>) {
    forall i | 0 <= i < |events| :: !events[i].ClearCounters? && !events[i].Reset?
  }

  ghost function CountOf(s: Session, fromCentral: bool): nat {
    if fromCentral then s.txCount else s.rxCount
  }

  // The uses of a run from s to r: each direction counts up from s's counter to r's.
  ghost predicate CountsUp(s: Session, r: Session, uses: seq<Use>) {
    && s.txCount <= r.txCount && s.rxCount <= r.rxCount
    && (forall i | 0 <= i < |uses| ::
          CountOf(s, uses[i].fromCentral) <= uses[i].counter < CountOf(r, uses[i].fromCentral))
    && (forall i, j | 0 <= i < j < |uses| && uses[i].fromCentral == uses[j].fromCentral ::
          uses[i].counter < uses[j].counter)
  }

  lemma OneMoreUse(s: Session, r: Session, uses: seq<Use>, u: Use, r': Session)
    requires CountsUp(s, r, uses) && u.counter == CountOf(r, u.fromCentral)
    requires r'.txCount == r.txCount + (if u.fromCentral then 1 else 0)
    requires r'.rxCount == r.rxCount + (if u.fromCentral then 0 else 1)
    ensures CountsUp(s, r', uses + [u])
  {
  }

  lemma {:induction false} UsesCountUp(aes: Cipher, s: Session, events: seq<Event>)
    requires Valid(s) && Epoch(events)
    ensures CountsUp(s, Run(aes, s, events), Uses(aes, s, events))
  {
    if events != [] {
      var last := |events| - 1;
      UsesCountUp(aes, s, events[..last]);
      var r, uses := Run(aes, s, events), Uses(aes, s, events);
      var r0, uses0 := Run(aes, s, events[..last]), Uses(aes, s, events[..last]);
      if r0.encrypted && (events[last].SendData? || events[last].ReceiveData?) {
        OneMoreUse(s, r0, uses0, uses[|uses0|], r);
      } else {
        assert uses == uses0;
      }
    }
  }

  lemma {:induction false} EveryCountUsed(aes: Cipher, s: Session, events: seq<Event>, fromCentral: bool, c: nat)
      returns (i: nat)
    requires Valid(s) && Epoch(events)
    requires CountOf(s, fromCentral) <= c < CountOf(Run(aes, s, events), fromCentral)
    ensures var uses := Uses(aes, s, events);
            i < |uses| && uses[i].fromCentral == fromCentral && uses[i].counter == c
  {
    var last := |events| - 1;
    if c < CountOf(Run(aes, s, events[..last]), fromCentral) {
      i := EveryCountUsed(aes, s, events[..last], fromCentral, c);
    } else {
      i := |Uses(aes, s, events[..last])|;
    }
  }

  ghost predicate AllDistinct(uses: seq<Use>) {
    forall i, j | 0 <= i < j < |uses| :: NonceOf(uses[i]) != NonceOf(uses[j])
  }

  // Main result. Within an epoch of at most 2^39 packets per direction no nonce is used twice,
  // by whatever direction and even if the IV changes.
  lemma NonceUniqueness(aes: Cipher, s: Session, events: seq<Event>)
    requires Valid(s) && Epoch(events)
    requires var r := Run(aes, s, events);
             r.txCount - s.txCount <= COUNTER_PERIOD && r.rxCount - s.rxCount <= COUNTER_PERIOD
    ensures AllDistinct(Uses(aes, s, events))
  {
    var r, uses := Run(aes, s, events), Uses(aes, s, events);
    UsesCountUp(aes, s, events);
    forall i, j | 0 <= i < j < |uses|
      ensures NonceOf(uses[i]) != NonceOf(uses[j])
    {
      var u, v := uses[i], uses[j];
      NonceEqual(u.counter, u.fromCentral, u.iv, v.counter, v.fromCentral, v.iv);
      if u.fromCentral == v.fromCentral {
        assert uses[i].counter < uses[j].counter;
        assert CountOf(s, u.fromCentral) <= uses[i].counter && uses[j].counter < CountOf(r, v.fromCentral);
        CloseCounters(u.counter, v.counter);
      }
    }
  }

  lemma CloseCounters(a: nat, b: nat)
    requires a < b < a + COUNTER_PERIOD
    ensures a % COUNTER_PERIOD != b % COUNTER_PERIOD
  {
  }

  // The bound is exact: with one IV, more packets in one direction repeat a nonce.
  lemma NonceBoundExact(aes: Cipher, s: Session, events: seq<Event>)
    requires Valid(s) && ValidEvents(events) && Epoch(events) && LastRsp(events) < 0
    ensures var r := Run(aes, s, events);
            AllDistinct(Uses(aes, s, events)) <==>
            r.txCount - s.txCount <= COUNTER_PERIOD && r.rxCount - s.rxCount <= COUNTER_PERIOD
  {
    var r := Run(aes, s, events);
    if r.txCount - s.txCount > COUNTER_PERIOD {
      NonceRepeats(aes, s, events, true);
    } else if r.rxCount - s.rxCount > COUNTER_PERIOD {
      NonceRepeats(aes, s, events, false);
    } else {
      NonceUniqueness(aes, s, events);
    }
  }

  lemma NonceRepeats(aes: Cipher, s: Session, events: seq<Event>, fromCentral: bool)
    requires Valid(s) && ValidEvents(events) && Epoch(events) && LastRsp(events) < 0
    requires CountOf(Run(aes, s, events), fromCentral) - CountOf(s, fromCentral) > COUNTER_PERIOD
    ensures !AllDistinct(Uses(aes, s, events))
  {
    var c, uses := CountOf(s, fromCentral), Uses(aes, s, events);
    var i := EveryCountUsed(aes, s, events, fromCentral, c);
    var j := EveryCountUsed(aes, s, events, fromCentral, c + COUNTER_PERIOD);
    UsesCountUp(aes, s, events);
    SameIv(aes, s, events);
    SameNonce(uses[i], uses[j]);
    InOrder(s, Run(aes, s, events), uses, i, j);
  }

  lemma InOrder(s: Session, r: Session, uses: seq<Use>, i: nat, j: nat)
    requires CountsUp(s, r, uses) && i < |uses| && j < |uses|
    requires uses[i].fromCentral == uses[j].fromCentral && uses[i].counter < uses[j].counter
    ensures i < j
  {
  }

  lemma SameNonce(u: Use, v: Use)
    requires u.fromCentral == v.fromCentral && u.iv == v.iv && v.counter == u.counter + COUNTER_PERIOD
    ensures NonceOf(u) == NonceOf(v)
  {
    NonceEqual(u.counter, u.fromCentral, u.iv, v.counter, v.fromCentral, v.iv);
    assert (u.counter + COUNTER_PERIOD) % COUNTER_PERIOD == u.counter % COUNTER_PERIOD;
  }

  lemma {:induction false} SameIv(aes: Cipher, s: Session, events: seq<Event>)
    requires Valid(s) && NoReset(events) && LastRsp(events) < 0
    ensures Run(aes, s, events).iv == s.iv
    ensures forall i | 0 <= i < |Uses(aes, s, events)| :: Uses(aes, s, events)[i].iv == s.iv
  {
    if events != [] {
      SameIv(aes, s, events[..|events| - 1]);
    }
  }

  // ---------- received packets ----------

  function KeysOf(s: Session): HostKeys {
    HostKeys(s.encrypted, s.sessionKey, s.iv, s.txCount, s.rxCount)
  }

  // What `receive` does with raw data for us. An advertising packet ends the encryption; the
  // receive counter advances even if the MIC turns out wrong.
  function RawEvents(raw: bytes): seq<Event>
    requires |raw| >= 6
  {
    if IsAdv(raw) then [EncryptionEnds] else if raw[5] >= 5 then [ReceiveData] else []
  }

  // What matters of a received packet: the peripheral's halves of SKD and IV, the start of
  // encryption, or a pairing packet from which the SMP server derives a long term key.
  datatype Response =
    | EncRspPacket(skds: nat, ivs: nat)
    | StartEncReqPacket
    | LtkPacket(ltk: bytes)
    | OtherPacket

  type Parser = bytes -> Response

  ghost predicate ValidParser(parse: Parser) {
    forall pkt :: parse(pkt).EncRspPacket? ==> parse(pkt).skds < Pow256(8) && parse(pkt).ivs < Pow256(4)
  }

  function ResponseEvents(p: Response): seq<Event> {
    match p
    case EncRspPacket(skds, ivs) => [EncRsp(skds, ivs)]
    case StartEncReqPacket => [StartEncReq]
    case LtkPacket(ltk) => [NewLtk(ltk)]
    case OtherPacket => []
  }

  // Receiving raw data and working through the packet it turns out to be.
  function PacketEvents(ccm: Ccm, parse: Parser, s: Session, raw: bytes): seq<Event>
    requires |raw| >= 6
  {
    RawEvents(raw) +
    match HostReceive(ccm, KeysOf(s), raw)
    case Some(pkt) => ResponseEvents(parse(pkt))
    case None => []
  }

  ghost predicate Raws(raws: seq<bytes>) {
    forall i | 0 <= i < |raws| :: |raws[i]| >= 6
  }

  // What a list of raw packets means for the session: each is decrypted in the state that the
  // ones before it have left.
  ghost function AllEvents(ccm: Ccm, aes: Cipher, parse: Parser, s: Session, raws: seq<bytes>): seq<Event>
    requires Valid(s) && Raws(raws)
  {
    if raws == [] then []
    else
      var last := |raws| - 1;
      var before := AllEvents(ccm, aes, parse, s, raws[..last]);
      before + PacketEvents(ccm, parse, Run(aes, s, before), raws[last])
  }

  // These events never clear the counters or reset, so the theorems about epochs and about
  // key material apply to them.
  lemma {:induction false} EventsOfRaws(ccm: Ccm, aes: Cipher, parse: Parser, s: Session, raws: seq<bytes>)
    requires Valid(s) && Raws(raws) && ValidParser(parse)
    ensures Harmless(AllEvents(ccm, aes, parse, s, raws))
  {
    if raws != [] {
      var last := |raws| - 1;
      var before := AllEvents(ccm, aes, parse, s, raws[..last]);
      EventsOfRaws(ccm, aes, parse, s, raws[..last]);
      EventsOfPacket(ccm, parse, Run(aes, s, before), raws[last]);
      HarmlessJoined(before, PacketEvents(ccm, parse, Run(aes, s, before), raws[last]));
    }
  }

  ghost predicate Harmless(events: seq<Event>) {
    ValidEvents(events) && Epoch(events) && NoReset(events)
  }

  lemma HarmlessJoined(a: seq<Event>, b: seq<Event>)
    requires Harmless(a) && Harmless(b)
    ensures Harmless(a + b)
  {
  }

  lemma EventsOfPacket(ccm: Ccm, parse: Parser, s: Session, raw: bytes)
    requires |raw| >= 6 && ValidParser(parse)
    ensures Harmless(PacketEvents(ccm, parse, s, raw))
  {
  }

  lemma {:induction false} RunJoined(aes: Cipher, s: Session, a: seq<Event>, b: seq<Event>)
    requires Valid(s)
    ensures Run(aes, s, a + b) == Run(aes, Run(aes, s, a), b)
    decreases |b|
  {
    if b == [] {
      assert a + b == a;
    } else {
      var last := |b| - 1;
      RunJoined(aes, s, a, b[..last]);
      assert (a + b)[..|a| + last] == a + b[..last];
    }
  }

  lemma RunOne(aes: Cipher, s: Session, e: Event)
    requires Valid(s)
    ensures Run(aes, s, [e]) == Step(aes, s, e)
    ensures Uses(aes, s, [e]) ==
            if !s.encrypted then []
            else if e.SendData? then [Use(s.txCount, true, s.iv)]
            else if e.ReceiveData? then [Use(s.rxCount, false, s.iv)]
            else []
  {
    assert [e][..0] == [];
  }

  lemma OneMoreRaw(ccm: Ccm, aes: Cipher, parse: Parser, s: Session, raws: seq<bytes>, raw: bytes)
    requires Valid(s) && Raws(raws) && |raw| >= 6
    ensures var r := Run(aes, s, AllEvents(ccm, aes, parse, s, raws));
            Run(aes, s, AllEvents(ccm, aes, parse, s, raws + [raw])) == Run(aes, r, PacketEvents(ccm, parse, r, raw))
  {
    assert (raws + [raw])[..|raws|] == raws;
    var before := AllEvents(ccm, aes, parse, s, raws);
    RunJoined(aes, s, before, PacketEvents(ccm, parse, Run(aes, s, before), raw));
  }

  // The packets that the mapper gets from them: those whose MIC is right.
  ghost function Received(ccm: Ccm, aes: Cipher, parse: Parser, s: Session, raws: seq<bytes>): seq<bytes>
    requires Valid(s) && Raws(raws)
  {
    if raws == [] then []
    else
      var last := |raws| - 1;
      var r := Run(aes, s, AllEvents(ccm, aes, parse, s, raws[..last]));
      Received(ccm, aes, parse, s, raws[..last]) +
      match HostReceive(ccm, KeysOf(r), raws[last]) case Some(pkt) => [pkt] case None => []
  }

  // One raw packet more: how the session and the packets received go on.
  lemma OneMoreReceived(ccm: Ccm, aes: Cipher, parse: Parser, s: Session, raws: seq<bytes>, i: nat)
    requires Valid(s) && Raws(raws) && i < |raws|
    ensures var r := Run(aes, s, AllEvents(ccm, aes, parse, s, raws[..i]));
            && Run(aes, s, AllEvents(ccm, aes, parse, s, raws[..i + 1])) ==
               Run(aes, r, PacketEvents(ccm, parse, r, raws[i]))
            && Received(ccm, aes, parse, s, raws[..i + 1]) ==
               Received(ccm, aes, parse, s, raws[..i]) +
               match HostReceive(ccm, KeysOf(r), raws[i]) case Some(pkt) => [pkt] case None => []
  {
    assert raws[..i + 1] == raws[..i] + [raws[i]] && raws[..i + 1][..i] == raws[..i];
    OneMoreRaw(ccm, aes, parse, s, raws[..i], raws[i]);
  }

  function SymbolsOf(pkts: seq<bytes>, symbolOf: bytes -> string): seq<string> {
    seq(|pkts|, i requires 0 <= i < |pkts| => symbolOf(pkts[i]))
  }

  // ---------- what the received packets do ----------

  predicate IsRsp(parse: Parser, pkt: bytes) {
    parse(pkt).EncRspPacket?
  }

  // A packet after which encryption is on, or off.
  predicate Switches(parse: Parser, pkt: bytes) {
    parse(pkt).StartEncReqPacket? || IsAdv(pkt)
  }

  // The positions of the last packets of these kinds, or -1.
  ghost function LastRspPacket(parse: Parser, pkts: seq<bytes>): (i: int)
    ensures -1 <= i < |pkts|
    ensures i >= 0 ==> IsRsp(parse, pkts[i])
    ensures forall j | i < j < |pkts| :: !IsRsp(parse, pkts[j])
  {
    if pkts == [] then -1
    else if IsRsp(parse, pkts[|pkts| - 1]) then |pkts| - 1
    else LastRspPacket(parse, pkts[..|pkts| - 1])
  }

  ghost function LastSwitchPacket(parse: Parser, pkts: seq<bytes>): (i: int)
    ensures -1 <= i < |pkts|
    ensures i >= 0 ==> Switches(parse, pkts[i])
    ensures forall j | i < j < |pkts| :: !Switches(parse, pkts[j])
  {
    if pkts == [] then -1
    else if Switches(parse, pkts[|pkts| - 1]) then |pkts| - 1
    else LastSwitchPacket(parse, pkts[..|pkts| - 1])
  }

  // Encryption, SKD and IV are as the packets say: on exactly if the last packet that switches
  // it starts it; and the peripheral's halves are those of the last response.
  ghost predicate AsReceived(parse: Parser, s: Session, pkts: seq<bytes>, r: Session)
    requires Valid(s) && Valid(r)
  {
    var i, j := LastSwitchPacket(parse, pkts), LastRspPacket(parse, pkts);
    && (r.encrypted <==> if i < 0 then s.encrypted else parse(pkts[i]).StartEncReqPacket?)
    && r.skd[..8] == s.skd[..8] && r.iv[..4] == s.iv[..4]
    && (if j < 0 then r.skd == s.skd && r.iv == s.iv
        else HalvesOf(r, s, parse(pkts[j]).skds, parse(pkts[j]).ivs))
    && r.txCount == s.txCount
  }

  // One packet: what `receive` and the handler do to the session.
  lemma OnePacket(ccm: Ccm, aes: Cipher, parse: Parser, s: Session, raw: bytes)
    requires Valid(s) && |raw| >= 6 && ValidParser(parse)
    ensures var r, got := Run(aes, s, PacketEvents(ccm, parse, s, raw)), HostReceive(ccm, KeysOf(s), raw);
            && r.txCount == s.txCount && r.skd[..8] == s.skd[..8] && r.iv[..4] == s.iv[..4]
            && (got.None? ==> AsIs(s, r))
            && (got.Some? ==>
                  && (r.encrypted <==> if Switches(parse, got.value) then parse(got.value).StartEncReqPacket?
                                       else s.encrypted)
                  && (if IsRsp(parse, got.value) then HalvesOf(r, s, parse(got.value).skds, parse(got.value).ivs)
                      else r.skd == s.skd && r.iv == s.iv)
                  && r.ltk == (if parse(got.value).LtkPacket? then parse(got.value).ltk else s.ltk)
                  && r.sessionKey == (if IsRsp(parse, got.value) && (!s.encrypted || IsAdv(got.value)) then
                                        aes(Reverse(s.ltk), Reverse(r.skd))
                                      else s.sessionKey))
  {
    var got := HostReceive(ccm, KeysOf(s), raw);
    var response := if got.Some? then ResponseEvents(parse(got.value)) else [];
    var s1 := Run(aes, s, RawEvents(raw));
    assert PacketEvents(ccm, parse, s, raw) == RawEvents(raw) + response;
    RunJoined(aes, s, RawEvents(raw), response);
    RunOne(aes, s, EncryptionEnds);
    RunOne(aes, s, ReceiveData);
    if got.Some? {
      SameAddress(ccm, s, raw);
      OneResponseStep(aes, s1, parse(got.value));
    }
  }

  ghost predicate AsIs(s: Session, r: Session) {
    && r.encrypted == s.encrypted && r.skd == s.skd && r.iv == s.iv && r.ltk == s.ltk
    && r.sessionKey == s.sessionKey
  }

  lemma SameAddress(ccm: Ccm, s: Session, raw: bytes)
    requires |raw| >= 6 && HostReceive(ccm, KeysOf(s), raw).Some?
    ensures IsAdv(HostReceive(ccm, KeysOf(s), raw).value) <==> IsAdv(raw)
  {
    var pkt := HostReceive(ccm, KeysOf(s), raw).value;
    assert pkt[..4] == raw[..4];
  }

  lemma OneResponseStep(aes: Cipher, s: Session, p: Response)
    requires Valid(s) && (p.EncRspPacket? ==> p.skds < Pow256(8) && p.ivs < Pow256(4))
    ensures var r := Run(aes, s, ResponseEvents(p));
            && r.txCount == s.txCount && r.skd[..8] == s.skd[..8] && r.iv[..4] == s.iv[..4]
            && r.encrypted == (p.StartEncReqPacket? || s.encrypted)
            && (if p.EncRspPacket? then HalvesOf(r, s, p.skds, p.ivs) else r.skd == s.skd && r.iv == s.iv)
            && r.ltk == (if p.LtkPacket? then p.ltk else s.ltk)
            && r.sessionKey == (if p.EncRspPacket? && !s.encrypted then aes(Reverse(s.ltk), Reverse(r.skd))
                                else s.sessionKey)
  {
    match p
    case EncRspPacket(skds, ivs) =>
      RunOne(aes, s, EncRsp(skds, ivs));
      StepHalves(aes, s, EncRsp(skds, ivs));
    case StartEncReqPacket => RunOne(aes, s, StartEncReq);
    case LtkPacket(ltk) => RunOne(aes, s, NewLtk(ltk));
    case OtherPacket =>
  }

  lemma LastRaw(ccm: Ccm, aes: Cipher, parse: Parser, s: Session, raws: seq<bytes>)
    requires Valid(s) && Raws(raws) && raws != []
    ensures var last := |raws| - 1;
            var r := Run(aes, s, AllEvents(ccm, aes, parse, s, raws[..last]));
            && Run(aes, s, AllEvents(ccm, aes, parse, s, raws)) == Run(aes, r, PacketEvents(ccm, parse, r, raws[last]))
            && Received(ccm, aes, parse, s, raws) ==
               Received(ccm, aes, parse, s, raws[..last]) +
               match HostReceive(ccm, KeysOf(r), raws[last]) case Some(pkt) => [pkt] case None => []
  {
    OneMoreReceived(ccm, aes, parse, s, raws, |raws| - 1);
    assert raws[..|raws|] == raws;
  }

  lemma ReceivedMore(parse: Parser, s: Session, pkts: seq<bytes>, pkt: bytes, r: Session, r': Session)
    requires Valid(s) && Valid(r) && Valid(r') && AsReceived(parse, s, pkts, r)
    requires r'.txCount == r.txCount && r'.skd[..8] == r.skd[..8] && r'.iv[..4] == r.iv[..4]
    requires r'.encrypted <==> if Switches(parse, pkt) then parse(pkt).StartEncReqPacket? else r.encrypted
    requires if IsRsp(parse, pkt) then HalvesOf(r', r, parse(pkt).skds, parse(pkt).ivs)
             else r'.skd == r.skd && r'.iv == r.iv
    ensures AsReceived(parse, s, pkts + [pkt], r')
  {
    assert (pkts + [pkt])[..|pkts|] == pkts;
  }

  // After ll_ctrl_enc_req, whatever it received: see AsReceived.
  lemma {:induction false} EncryptionAsReceived(ccm: Ccm, aes: Cipher, parse: Parser, s: Session, raws: seq<bytes>)
    requires Valid(s) && Raws(raws) && ValidParser(parse)
    ensures AsReceived(parse, s, Received(ccm, aes, parse, s, raws), Run(aes, s, AllEvents(ccm, aes, parse, s, raws)))
  {
    if raws != [] {
      var before, raw := raws[..|raws| - 1], raws[|raws| - 1];
      var r := Run(aes, s, AllEvents(ccm, aes, parse, s, before));
      EncryptionAsReceived(ccm, aes, parse, s, before);
      LastRaw(ccm, aes, parse, s, raws);
      OnePacket(ccm, aes, parse, r, raw);
      var pkts, got := Received(ccm, aes, parse, s, before), HostReceive(ccm, KeysOf(r), raw);
      if got.Some? {
        ReceivedMore(parse, s, pkts, got.value, r, Run(aes, r, PacketEvents(ccm, parse, r, raw)));
      } else {
        assert pkts + [] == pkts;
      }
    }
  }

  ghost predicate NoStart(parse: Parser, pkts: seq<bytes>) {
    forall i | 0 <= i < |pkts| :: !parse(pkts[i]).StartEncReqPacket?
  }

  // No response comes after encryption has been started, and no pairing packet at all.
  ghost predicate ResponsesFirst(parse: Parser, pkts: seq<bytes>) {
    pkts != [] ==>
      var before, pkt := pkts[..|pkts| - 1], pkts[|pkts| - 1];
      && ResponsesFirst(parse, before) && !parse(pkt).LtkPacket?
      && (IsRsp(parse, pkt) ==> NoStart(parse, before))
  }

  ghost predicate KeyAsReceived(aes: Cipher, parse: Parser, s: Session, pkts: seq<bytes>, r: Session) {
    && r.ltk == s.ltk
    && r.sessionKey == (if LastRspPacket(parse, pkts) < 0 then s.sessionKey else aes(Reverse(s.ltk), Reverse(r.skd)))
    && (NoStart(parse, pkts) ==> !r.encrypted)
  }

  lemma KeyMore(aes: Cipher, parse: Parser, s: Session, pkts: seq<bytes>, pkt: bytes, r: Session, r': Session)
    requires KeyAsReceived(aes, parse, s, pkts, r) && ResponsesFirst(parse, pkts + [pkt])
    requires r'.encrypted <==> if Switches(parse, pkt) then parse(pkt).StartEncReqPacket? else r.encrypted
    requires !IsRsp(parse, pkt) ==> r'.skd == r.skd
    requires r'.ltk == (if parse(pkt).LtkPacket? then parse(pkt).ltk else r.ltk)
    requires r'.sessionKey == (if IsRsp(parse, pkt) && (!r.encrypted || IsAdv(pkt)) then
                                 aes(Reverse(r.ltk), Reverse(r'.skd))
                               else r.sessionKey)
    ensures KeyAsReceived(aes, parse, s, pkts + [pkt], r')
  {
    var more := pkts + [pkt];
    assert more[..|pkts|] == pkts && more[|pkts|] == pkt;
    if NoStart(parse, more) {
      assert forall i | 0 <= i < |pkts| :: more[i] == pkts[i];
    }
  }

  lemma FirstPart(parse: Parser, pkts: seq<bytes>, pkt: bytes)
    requires ResponsesFirst(parse, pkts + [pkt])
    ensures ResponsesFirst(parse, pkts)
  {
    assert (pkts + [pkt])[..|pkts|] == pkts;
  }

  lemma KeyAfterRaw(ccm: Ccm, aes: Cipher, parse: Parser, s: Session, pkts: seq<bytes>, r: Session, raw: bytes)
    requires Valid(r) && |raw| >= 6 && ValidParser(parse) && KeyAsReceived(aes, parse, s, pkts, r)
    requires var got := HostReceive(ccm, KeysOf(r), raw);
             got.Some? ==> ResponsesFirst(parse, pkts + [got.value])
    ensures var r', got := Run(aes, r, PacketEvents(ccm, parse, r, raw)), HostReceive(ccm, KeysOf(r), raw);
            KeyAsReceived(aes, parse, s, pkts + (match got case Some(pkt) => [pkt] case None => []), r')
  {
    var got := HostReceive(ccm, KeysOf(r), raw);
    OnePacket(ccm, aes, parse, r, raw);
    if got.Some? {
      KeyMore(aes, parse, s, pkts, got.value, r, Run(aes, r, PacketEvents(ccm, parse, r, raw)));
    } else {
      assert pkts + [] == pkts;
    }
  }

  // The first encryption of a connection: the key in force at the end is the one derived from
  // the long term key and the SKD of the last response.
  lemma {:induction false} FirstKey(ccm: Ccm, aes: Cipher, parse: Parser, s: Session, raws: seq<bytes>)
    requires Valid(s) && Raws(raws) && ValidParser(parse) && !s.encrypted
    requires ResponsesFirst(parse, Received(ccm, aes, parse, s, raws))
    ensures KeyAsReceived(aes, parse, s, Received(ccm, aes, parse, s, raws),
                          Run(aes, s, AllEvents(ccm, aes, parse, s, raws)))
  {
    if raws != [] {
      var before, raw := raws[..|raws| - 1], raws[|raws| - 1];
      var r := Run(aes, s, AllEvents(ccm, aes, parse, s, before));
      var pkts, got := Received(ccm, aes, parse, s, before), HostReceive(ccm, KeysOf(r), raw);
      LastRaw(ccm, aes, parse, s, raws);
      if got.Some? {
        FirstPart(parse, pkts, got.value);
      } else {
        assert pkts + [] == pkts;
      }
      FirstKey(ccm, aes, parse, s, before);
      KeyAfterRaw(ccm, aes, parse, s, pkts, r, raw);
    }
  }

  // Main result for ll_ctrl_enc_req, after its request on a connection without encryption: if
  // the responses come before an LL_START_ENC_REQ and no advertising packet after it, then
  // encryption is on, with the key derived from the long term key and the assembled SKD and IV
  // of the last response, and the next packet is sent with counter 0.
  lemma EncryptionStarts(ccm: Ccm, aes: Cipher, parse: Parser, s0: Session, raws: seq<bytes>)
    requires Valid(s0) && Raws(raws) && ValidParser(parse) && !s0.encrypted
    requires var s := Step(aes, Step(aes, s0, SendData), ClearCounters);
             var pkts := Received(ccm, aes, parse, s, raws);
             && ResponsesFirst(parse, pkts) && LastRspPacket(parse, pkts) >= 0
             && LastSwitchPacket(parse, pkts) >= 0 && parse(pkts[LastSwitchPacket(parse, pkts)]).StartEncReqPacket?
    ensures var s := Step(aes, Step(aes, s0, SendData), ClearCounters);
            var r, pkts := Run(aes, s, AllEvents(ccm, aes, parse, s, raws)), Received(ccm, aes, parse, s, raws);
            var rsp := parse(pkts[LastRspPacket(parse, pkts)]);
            && r.encrypted && r.txCount == 0
            && r.sessionKey == aes(Reverse(s0.ltk), Reverse(r.skd))
            && LeValue(r.skd) == LeValue(s0.skd[..8]) + Pow256(8) * rsp.skds
            && LeValue(r.iv) == LeValue(s0.iv[..4]) + Pow256(4) * rsp.ivs
  {
    var s := Step(aes, Step(aes, s0, SendData), ClearCounters);
    EncryptionAsReceived(ccm, aes, parse, s, raws);
    FirstKey(ccm, aes, parse, s, raws);
  }

  // ---------- the nonces of the real calls ----------

  function Sealed(ccm: Ccm, key: bytes, nonce: bytes, pkt: bytes): bytes
    requires |pkt| >= 9 && pkt[5] <= 251
  {
    pkt[..4] + [pkt[4], pkt[5] + 4] + ccm.enc(key, nonce, MaskE3(pkt[4]), PySlice(pkt, 6, -3)) + [0, 0, 0]
  }

  function Unsealed(ccm: Ccm, key: bytes, nonce: bytes, raw: bytes): Option<bytes>
    requires |raw| >= 6 && raw[5] >= 5
  {
    var len: byte := raw[5] - 4;
    var mic := PySlice(raw, 6 + len, -3);
    var (ok, plain) := ccm.dec(key, nonce, MaskE3(raw[4]), PySlice(raw, 6, -7) + mic);
    if ok && |mic| == 4 then Some(raw[..4] + [raw[4], len] + plain + [0, 0, 0]) else None
  }

  class BleSession {
    const ccm: Ccm
    const aes: Cipher
    var encrypted: bool
    var encTxPktCount: nat
    var encRxPktCount: nat
    var connSkd: bytes
    var connIv: bytes
    var connLtk: bytes
    var connSessionKey: bytes

    ghost function View(): Session
      reads this
    {
      Session(encrypted, encTxPktCount, encRxPktCount, connSkd, connIv, connLtk, connSessionKey)
    }

    function Keys(): HostKeys
      reads this
    {
      HostKeys(encrypted, connSessionKey, connIv, encTxPktCount, encRxPktCount)
    }

    constructor (ccm: Ccm, aes: Cipher)
      ensures View() == Cleared() && this.ccm == ccm && this.aes == aes
    {
      this.ccm, this.aes := ccm, aes;
      encrypted, encTxPktCount, encRxPktCount := false, 0, 0;
      connSkd, connIv := Zeros(16), Zeros(8);
      connLtk, connSessionKey := Zeros(16), Zeros(16);
    }

    method ResetState()
      requires Valid(View())
      modifies this
      ensures View() == Step(aes, old(View()), Reset)
      ensures !encrypted && encTxPktCount == 0 && encRxPktCount == 0
      ensures connIv == seq(8, _ => 0) && connSkd == connLtk == connSessionKey == seq(16, _ => 0)
    {
      encrypted := false;
      encTxPktCount, encRxPktCount := 0, 0;
      connIv, connSkd := Zeros(8), Zeros(16);
      connLtk, connSessionKey := Zeros(16), Zeros(16);
    }

    // `send` of a packet with its CRC; None stands for the ValueError of the length byte. The
    // cipher gets the nonce of the use that is counted, and only then.
    method Send(pkt: bytes, isData: bool) returns (raw: Option<bytes>)
      requires Valid(View()) && |pkt| >= 9
      modifies this`encTxPktCount
      ensures raw == HostSend(ccm, old(Keys()), isData, pkt)
      ensures raw.Some? ==>
                var events := if isData then [SendData] else [];
                var uses := Uses(aes, old(View()), events);
                && View() == Run(aes, old(View()), events)
                && (uses == [] ==> raw == Some(pkt))
                && (uses != [] ==> pkt[5] <= 251 && |uses| == 1 &&
                                   raw == Some(Sealed(ccm, old(connSessionKey), NonceOf(uses[0]), pkt)))
      ensures raw.None? ==> View() == old(View())
    {
      RunOne(aes, View(), SendData);
      if encrypted && isData {
        if pkt[5] as int + 4 > 255 {
          return None;
        }
        var header, length := pkt[4], pkt[5] + 4;
        var pktCount := LeBytes(encTxPktCount, 5);
        pktCount := pktCount[4 := SetBit7(pktCount[4])];
        var nonce := pktCount + connIv;
        var sealed := ccm.enc(connSessionKey, nonce, MaskE3(header), PySlice(pkt, 6, -3));
        encTxPktCount := encTxPktCount + 1;
        raw := Some(pkt[..4] + [header, length] + sealed + [0, 0, 0]);
      } else {
        raw := Some(pkt);
      }
    }

    // What `receive` does with raw data for us.
    method Receive(raw: bytes) returns (pkt: Option<bytes>)
      requires Valid(View()) && |raw| >= 6
      modifies this`encrypted, this`encRxPktCount
      ensures Valid(View()) && pkt == HostReceive(ccm, old(Keys()), raw)
      ensures View() == Run(aes, old(View()), RawEvents(raw))
      ensures var uses := Uses(aes, old(View()), RawEvents(raw));
              && (uses == [] ==> pkt == Some(raw))
              && (uses != [] ==> raw[5] >= 5 && |uses| == 1 &&
                                 pkt == Unsealed(ccm, old(connSessionKey), NonceOf(uses[0]), raw))
    {
      RunOne(aes, View(), EncryptionEnds);
      RunOne(aes, View(), ReceiveData);
      if IsAdv(raw) {
        encrypted := false;
      }
      pkt := Some(raw);
      if encrypted {
        var header, length := raw[4], raw[5];
        if length >= 5 {
          length := length - 4;
          var pktCount := LeBytes(encRxPktCount, 5);
          pktCount := pktCount[4 := ClearBit7(pktCount[4])];
          var nonce := pktCount + connIv;
          var mic := PySlice(raw, length as int + 6, -3);
          var (ok, plain) := ccm.dec(connSessionKey, nonce, MaskE3(header), PySlice(raw, 6, -7) + mic);
          encRxPktCount := encRxPktCount + 1;
          pkt := if ok && |mic| == 4 then Some(raw[..4] + [header, length] + plain + [0, 0, 0]) else None;
        }
      }
    }

    method HandleResponse(p: Response)
      requires Valid(View())
      modifies this
      ensures Valid(View()) && View() == Run(aes, old(View()), ResponseEvents(p))
    {
      match p {
        case EncRspPacket(skds, ivs) =>
          RunOne(aes, View(), EncRsp(skds, ivs));
          connSkd := WithHalf(connSkd, skds);
          connIv := WithHalf(connIv, ivs);
          if !encrypted {
            connSessionKey := aes(Reverse(connLtk), Reverse(connSkd));
          }
        case StartEncReqPacket =>
          RunOne(aes, View(), StartEncReq);
          encrypted := true;
        case LtkPacket(ltk) =>
          RunOne(aes, View(), NewLtk(ltk));
          connLtk := ltk;
        case OtherPacket =>
      }
    }

    method HandleRaw(raw: bytes, parse: Parser) returns (pkt: Option<bytes>)
      requires Valid(View()) && |raw| >= 6
      modifies this
      ensures Valid(View()) && View() == Run(aes, old(View()), PacketEvents(ccm, parse, old(View()), raw))
      ensures pkt == HostReceive(ccm, KeysOf(old(View())), raw)
    {
      ghost var s := View();
      pkt := Receive(raw);
      ghost var response := if pkt.Some? then ResponseEvents(parse(pkt.value)) else [];
      RunJoined(aes, s, RawEvents(raw), response);
      assert PacketEvents(ccm, parse, s, raw) == RawEvents(raw) + response;
      if pkt.Some? {
        HandleResponse(parse(pkt.value));
      }
    }

    // The loop of ll_ctrl_enc_req: receives packets one by one and works through each before
    // the next one is decrypted.
    method HandleEncReq(raws: seq<bytes>, parse: Parser) returns (pkts: seq<bytes>)
      requires Valid(View()) && Raws(raws)
      modifies this
      ensures Valid(View()) && View() == Run(aes, old(View()), AllEvents(ccm, aes, parse, old(View()), raws))
      ensures pkts == Received(ccm, aes, parse, old(View()), raws)
    {
      ghost var start := View();
      pkts := [];
      var i := 0;
      while i < |raws|
        invariant 0 <= i <= |raws| && Valid(View())
        invariant View() == Run(aes, start, AllEvents(ccm, aes, parse, start, raws[..i]))
        invariant pkts == Received(ccm, aes, parse, start, raws[..i])
      {
        OneMoreReceived(ccm, aes, parse, start, raws, i);
        var pkt := HandleRaw(raws[i], parse);
        if pkt.Some? {
          pkts := pkts + [pkt.value];
        }
        i := i + 1;
      }
      assert raws[..i] == raws;
    }

    method ClearPktCounters()
      requires Valid(View())
      modifies this`encTxPktCount, this`encRxPktCount
      ensures Valid(View()) && View() == Step(aes, old(View()), ClearCounters)
    {
      encTxPktCount := 0;
      encRxPktCount := 0;
    }

    // ll_ctrl_enc_req: sends the request with the old counters, clears them, works through the
    // responses and returns their output symbol; None stands for the ValueError of `send`.
    method LlCtrlEncReq(pkt: bytes, raws: seq<bytes>, parse: Parser, symbolOf: bytes -> string)
        returns (raw: Option<bytes>, symbol: string)
      requires Valid(View()) && |pkt| >= 9 && Raws(raws)
      modifies this
      ensures raw == HostSend(ccm, old(Keys()), true, pkt)
      ensures raw.None? ==> View() == old(View())
      ensures raw.Some? ==>
                var start := Step(aes, Step(aes, old(View()), SendData), ClearCounters);
                && View() == Run(aes, start, AllEvents(ccm, aes, parse, start, raws))
                && symbol == OutputSymbol(SymbolsOf(Received(ccm, aes, parse, start, raws), symbolOf))
    {
      RunOne(aes, View(), SendData);
      symbol := "";
      raw := Send(pkt, true);
      if raw.Some? {
        ClearPktCounters();
        var pkts := HandleEncReq(raws, parse);
        symbol := OutputSymbol(SymbolsOf(pkts, symbolOf));
      }
    }
  }
}
