/**
 Nonces across counter epochs. `ll_ctrl_enc_req` clears both counters, and while encryption is
 on it keeps the session key, so what is unique within an epoch may repeat in the next one.
 */
module NonceEpochs {
  import opened Bytes
  import opened LinkCrypto
  import opened EncryptionSession

  // The event uses a nonce of the direction.
  ghost predicate UsedBy(s: Session, e: Event, fromCentral: bool) {
    s.encrypted && if fromCentral then e.SendData? else e.ReceiveData?
  }

  // How many nonces of the direction a run uses.
  ghost function Total(aes: Cipher, s: Session, events: seq<Event>, fromCentral: bool): nat
    requires Valid(s)
  {
    if events == [] then 0
    else
      var last := |events| - 1;
      Total(aes, s, events[..last], fromCentral) +
      if UsedBy(Run(aes, s, events[..last]), events[last], fromCentral) then 1 else 0
  }

  // The counter has been cleared after a use.
  ghost predicate Closed(aes: Cipher, s: Session, events: seq<Event>, fromCentral: bool)
    requires Valid(s)
  {
    events != [] &&
    var last := |events| - 1;
    || Closed(aes, s, events[..last], fromCentral)
    || (events[last].ClearCounters? && Total(aes, s, events[..last], fromCentral) > 0)
  }

  // All uses of the direction fall into one epoch: none comes after the counter has been
  // cleared behind an earlier one.
  ghost predicate OneEpoch(aes: Cipher, s: Session, events: seq<Event>, fromCentral: bool)
    requires Valid(s)
  {
    events != [] ==>
      var last := |events| - 1;
      && OneEpoch(aes, s, events[..last], fromCentral)
      && (Closed(aes, s, events[..last], fromCentral) ==>
            !UsedBy(Run(aes, s, events[..last]), events[last], fromCentral))
  }

  // The state of one direction's counter.
  lemma {:induction false} CounterIs(aes: Cipher, s: Session, events: seq<Event>, fromCentral: bool)
    requires Valid(s) && NoReset(events) && CountOf(s, fromCentral) == 0
    requires OneEpoch(aes, s, events, fromCentral)
    ensures CountOf(Run(aes, s, events), fromCentral) ==
            if Closed(aes, s, events, fromCentral) then 0 else Total(aes, s, events, fromCentral)
  {
    if events != [] {
      CounterIs(aes, s, events[..|events| - 1], fromCentral);
    }
  }

  ghost predicate CountsBelow(uses: seq<Use>, fromCentral: bool, total: nat) {
    && (forall i | 0 <= i < |uses| && uses[i].fromCentral == fromCentral :: uses[i].counter < total)
    && (forall i, j | 0 <= i < j < |uses| && uses[i].fromCentral == uses[j].fromCentral == fromCentral ::
          uses[i].counter < uses[j].counter)
  }

  // What the last event of a run adds to its uses.
  lemma LastUse(aes: Cipher, s: Session, events: seq<Event>)
    requires Valid(s) && events != []
    ensures var last := |events| - 1;
            var before, uses := Run(aes, s, events[..last]), Uses(aes, s, events[..last]);
            Uses(aes, s, events) ==
            if UsedBy(before, events[last], true) then uses + [Use(before.txCount, true, before.iv)]
            else if UsedBy(before, events[last], false) then uses + [Use(before.rxCount, false, before.iv)]
            else uses
  {
  }

  lemma OneMoreBelow(uses: seq<Use>, fromCentral: bool, total: nat, u: Use)
    requires CountsBelow(uses, fromCentral, total) && (u.fromCentral == fromCentral ==> u.counter == total)
    ensures CountsBelow(uses + [u], fromCentral, if u.fromCentral == fromCentral then total + 1 else total)
  {
  }

  // In one epoch, the uses of a direction count up from 0.
  lemma {:induction false} UsesBelow(aes: Cipher, s: Session, events: seq<Event>, fromCentral: bool)
    requires Valid(s) && NoReset(events) && CountOf(s, fromCentral) == 0
    requires OneEpoch(aes, s, events, fromCentral)
    ensures CountsBelow(Uses(aes, s, events), fromCentral, Total(aes, s, events, fromCentral))
  {
    if events != [] {
      var last := |events| - 1;
      var uses := Uses(aes, s, events[..last]);
      UsesBelow(aes, s, events[..last], fromCentral);
      CounterIs(aes, s, events[..last], fromCentral);
      LastUse(aes, s, events);
      if |Uses(aes, s, events)| > |uses| {
        OneMoreBelow(uses, fromCentral, Total(aes, s, events[..last], fromCentral), Uses(aes, s, events)[|uses|]);
      }
    }
  }

  // And every number below the total is used.
  lemma {:induction false} EveryNumberUsed(aes: Cipher, s: Session, events: seq<Event>, fromCentral: bool, c: nat)
      returns (i: nat)
    requires Valid(s) && NoReset(events) && CountOf(s, fromCentral) == 0
    requires OneEpoch(aes, s, events, fromCentral) && c < Total(aes, s, events, fromCentral)
    ensures var uses := Uses(aes, s, events);
            i < |uses| && uses[i].fromCentral == fromCentral && uses[i].counter == c
  {
    var last := |events| - 1;
    LastUse(aes, s, events);
    if c < Total(aes, s, events[..last], fromCentral) {
      i := EveryNumberUsed(aes, s, events[..last], fromCentral, c);
    } else {
      CounterIs(aes, s, events[..last], fromCentral);
      i := |Uses(aes, s, events[..last])|;
    }
  }

  lemma {:induction false} ClosedWasUsed(aes: Cipher, s: Session, events: seq<Event>, fromCentral: bool)
    requires Valid(s) && Closed(aes, s, events, fromCentral)
    ensures Total(aes, s, events, fromCentral) > 0
  {
    var last := |events| - 1;
    if Closed(aes, s, events[..last], fromCentral) {
      ClosedWasUsed(aes, s, events[..last], fromCentral);
    }
  }

  // Two epochs that use the same direction both use its counter 0.
  lemma {:induction false} TwoZeros(aes: Cipher, s: Session, events: seq<Event>, fromCentral: bool)
      returns (i: nat, j: nat)
    requires Valid(s) && NoReset(events) && CountOf(s, fromCentral) == 0
    requires !OneEpoch(aes, s, events, fromCentral)
    ensures var uses := Uses(aes, s, events);
            && i < j < |uses| && uses[i].fromCentral == uses[j].fromCentral
            && uses[i].counter == uses[j].counter == 0
  {
    var last := |events| - 1;
    LastUse(aes, s, events);
    if !OneEpoch(aes, s, events[..last], fromCentral) {
      i, j := TwoZeros(aes, s, events[..last], fromCentral);
    } else {
      CounterIs(aes, s, events[..last], fromCentral);
      ClosedWasUsed(aes, s, events[..last], fromCentral);
      i := EveryNumberUsed(aes, s, events[..last], fromCentral, 0);
      j := |Uses(aes, s, events[..last])|;
    }
  }

  lemma Repeated(uses: seq<Use>, i: nat, j: nat)
    requires i < |uses| && j < |uses| && i != j
    requires uses[i].fromCentral == uses[j].fromCentral && uses[i].iv == uses[j].iv
    requires uses[i].counter % COUNTER_PERIOD == uses[j].counter % COUNTER_PERIOD
    ensures !AllDistinct(uses)
  {
    var u, v := uses[i], uses[j];
    NonceEqual(u.counter, u.fromCentral, u.iv, v.counter, v.fromCentral, v.iv);
    var lo, hi := if i < j then i else j, if i < j then j else i;
    assert NonceOf(uses[lo]) == NonceOf(uses[hi]);
  }

  lemma BadDirection(aes: Cipher, s: Session, events: seq<Event>, fromCentral: bool)
    requires Valid(s) && NoReset(events) && LastRsp(events) < 0 && CountOf(s, fromCentral) == 0
    requires OneEpoch(aes, s, events, fromCentral) ==> Total(aes, s, events, fromCentral) > COUNTER_PERIOD
    ensures !AllDistinct(Uses(aes, s, events))
  {
    SameIv(aes, s, events);
    var i, j;
    if OneEpoch(aes, s, events, fromCentral) {
      i := EveryNumberUsed(aes, s, events, fromCentral, 0);
      j := EveryNumberUsed(aes, s, events, fromCentral, COUNTER_PERIOD);
    } else {
      i, j := TwoZeros(aes, s, events, fromCentral);
    }
    Repeated(Uses(aes, s, events), i, j);
  }

  ghost predicate GoodDirection(aes: Cipher, s: Session, events: seq<Event>, fromCentral: bool)
    requires Valid(s)
  {
    OneEpoch(aes, s, events, fromCentral) && Total(aes, s, events, fromCentral) <= COUNTER_PERIOD
  }

  lemma BothGood(uses: seq<Use>, tx: nat, rx: nat)
    requires CountsBelow(uses, true, tx) && CountsBelow(uses, false, rx)
    requires tx <= COUNTER_PERIOD && rx <= COUNTER_PERIOD
    ensures AllDistinct(uses)
  {
    forall i, j | 0 <= i < j < |uses|
      ensures NonceOf(uses[i]) != NonceOf(uses[j])
    {
      var u, v := uses[i], uses[j];
      NonceEqual(u.counter, u.fromCentral, u.iv, v.counter, v.fromCentral, v.iv);
      if u.fromCentral == v.fromCentral {
        CloseCounters(u.counter, v.counter);
      }
    }
  }

  lemma {:induction false} KeyUnchanged(aes: Cipher, s: Session, events: seq<Event>)
    requires Valid(s) && NoReset(events) && LastRsp(events) < 0
    ensures Run(aes, s, events).sessionKey == s.sessionKey
  {
    if events != [] {
      KeyUnchanged(aes, s, events[..|events| - 1]);
    }
  }

  // Main result. From cleared counters, over any number of epochs with the same key and IV,
  // no nonce is used twice if and only if in each direction all packets fall into one epoch
  // and are at most 2^39.
  lemma NonceReuseIff(aes: Cipher, s: Session, events: seq<Event>)
    requires Valid(s) && s.txCount == 0 && s.rxCount == 0 && NoReset(events) && LastRsp(events) < 0
    ensures Run(aes, s, events).sessionKey == s.sessionKey && Run(aes, s, events).iv == s.iv
    ensures AllDistinct(Uses(aes, s, events)) <==>
            GoodDirection(aes, s, events, true) && GoodDirection(aes, s, events, false)
  {
    KeyUnchanged(aes, s, events);
    SameIv(aes, s, events);
    if !GoodDirection(aes, s, events, true) {
      BadDirection(aes, s, events, true);
    } else if !GoodDirection(aes, s, events, false) {
      BadDirection(aes, s, events, false);
    } else {
      UsesBelow(aes, s, events, true);
      UsesBelow(aes, s, events, false);
      BothGood(Uses(aes, s, events), Total(aes, s, events, true), Total(aes, s, events, false));
    }
  }

  // The shortest input: one packet, the counters cleared while encryption is on, one packet.
  lemma SecondRequestRepeats(aes: Cipher, s: Session)
    requires Valid(s) && s.encrypted && s.txCount == 0 && s.rxCount == 0
    ensures var events := [SendData, ClearCounters, SendData];
            && Uses(aes, s, events) == [Use(0, true, s.iv), Use(0, true, s.iv)]
            && Run(aes, s, events).sessionKey == s.sessionKey && Run(aes, s, events).encrypted
  {
    var events := [SendData, ClearCounters, SendData];
    assert events[..2] == [SendData, ClearCounters] && events[..2][..1] == [SendData];
    RunOne(aes, s, SendData);
    var s1 := Run(aes, s, [SendData]);
    assert Run(aes, s, events[..2]) == Step(aes, s1, ClearCounters);
    assert Uses(aes, s, events[..2]) == Uses(aes, s, [SendData]);
    LastUse(aes, s, events);
  }

  // ---------- any IVs ----------

  // Consecutive counters lo to hi - 1 of one direction, all used with one IV.
  datatype Segment = Segment(iv: bytes, lo: nat, hi: nat)

  // The uses of a direction, as few segments as possible: one ends where the counter is
  // cleared or the IV changes.
  ghost function Segments(uses: seq<Use>, fromCentral: bool): (segs: seq<Segment>)
    ensures forall i | 0 <= i < |segs| :: segs[i].lo < segs[i].hi
  {
    if uses == [] then []
    else
      var u, segs := uses[|uses| - 1], Segments(uses[..|uses| - 1], fromCentral);
      if u.fromCentral != fromCentral then segs else WithUse(segs, u)
  }

  ghost predicate Continues(segs: seq<Segment>, u: Use) {
    segs != [] && segs[|segs| - 1].iv == u.iv && segs[|segs| - 1].hi == u.counter
  }

  ghost function WithUse(segs: seq<Segment>, u: Use): seq<Segment> {
    if Continues(segs, u) then segs[|segs| - 1 := segs[|segs| - 1].(hi := u.counter + 1)]
    else segs + [Segment(u.iv, u.counter, u.counter + 1)]
  }

  // How far a is behind b on the circle of 2^39 counters.
  function Behind(a: int, b: int): (r: nat)
    ensures r < COUNTER_PERIOD
  {
    (a - b) % COUNTER_PERIOD
  }

  // The segment uses a counter that is c modulo 2^39.
  predicate Includes(s: Segment, c: nat) {
    Behind(c, s.lo) < s.hi - s.lo
  }

  // Two segments share a nonce.
  predicate Meet(a: Segment, b: Segment) {
    a.iv == b.iv && (Behind(b.lo, a.lo) < a.hi - a.lo || Behind(a.lo, b.lo) < b.hi - b.lo)
  }

  // No segment is longer than 2^39, and no two meet.
  ghost predicate Apart(segs: seq<Segment>) {
    && (forall i | 0 <= i < |segs| :: segs[i].hi - segs[i].lo <= COUNTER_PERIOD)
    && (forall i, j | 0 <= i < j < |segs| :: !Meet(segs[i], segs[j]))
  }

  // ----- arithmetic modulo 2^39 -----

  lemma Congruent(a: nat, b: nat)
    ensures Behind(a, b) == 0 <==> a % COUNTER_PERIOD == b % COUNTER_PERIOD
  {
  }

  lemma BehindSum(a: int, b: int, n: nat)
    requires n < COUNTER_PERIOD
    ensures Behind(a, b) >= n ==> Behind(a, b + n) == Behind(a, b) - n
  {
    var r, q := Behind(a, b), (a - b) / COUNTER_PERIOD;
    assert a - b == q * COUNTER_PERIOD + r;
    if r >= n {
      Remainder(a - (b + n), q, r - n);
    }
  }

  lemma Remainder(x: int, q: int, r: int)
    requires x == q * COUNTER_PERIOD + r && 0 <= r < COUNTER_PERIOD
    ensures x % COUNTER_PERIOD == r
  {
  }

  // One more counter at the end of a segment.
  lemma OneMoreCounter(s: Segment, c: nat)
    requires s.lo < s.hi
    ensures Includes(s.(hi := s.hi + 1), c) <==> Includes(s, c) || c % COUNTER_PERIOD == s.hi % COUNTER_PERIOD
  {
    var n := s.hi - s.lo;
    if n < COUNTER_PERIOD {
      BehindSum(c, s.lo, n);
      Congruent(c, s.hi);
      if c % COUNTER_PERIOD == s.hi % COUNTER_PERIOD && Behind(c, s.lo) < n {
        assert Includes(s, c);
      }
      if !Includes(s, c) && c % COUNTER_PERIOD == s.hi % COUNTER_PERIOD {
        assert Behind(c, s.hi) == Behind(c, s.lo) - n == 0;
      }
    }
  }

  lemma OneCounter(s: Segment, c: nat)
    requires s.hi == s.lo + 1
    ensures Includes(s, c) <==> c % COUNTER_PERIOD == s.lo % COUNTER_PERIOD
  {
    Congruent(c, s.lo);
  }

  // A segment with one counter meets another one exactly if that uses the counter.
  lemma MeetsOne(s: Segment, iv: bytes, c: nat)
    requires s.lo < s.hi
    ensures Meet(s, Segment(iv, c, c + 1)) <==> s.iv == iv && Includes(s, c)
  {
    Congruent(s.lo, c);
    Congruent(c, s.lo);
  }

  // A segment that grows by one counter meets another one exactly if it did before or the other
  // one uses the new counter.
  lemma MeetsMore(s: Segment, t: Segment)
    requires s.lo < s.hi && t.lo < t.hi
    ensures Meet(s, t) || (s.iv == t.iv && Includes(s, t.hi)) <==> Meet(s, t.(hi := t.hi + 1))
  {
    OneMoreCounter(t, s.lo);
    Congruent(s.lo, t.hi);
    Congruent(t.hi, s.lo);
    if s.iv == t.iv && Includes(s, t.hi) && s.lo % COUNTER_PERIOD != t.hi % COUNTER_PERIOD {
      OneBefore(s, t);
    }
  }

  // If s uses the counter after t, and does not begin there, it uses the last counter of t.
  lemma OneBefore(s: Segment, t: Segment)
    requires s.lo < s.hi && t.lo < t.hi && s.iv == t.iv
    requires Includes(s, t.hi) && s.lo % COUNTER_PERIOD != t.hi % COUNTER_PERIOD
    ensures Meet(s, t)
  {
    Congruent(t.hi, s.lo);
    var m := Behind(t.hi, s.lo);
    var n := t.hi - t.lo;
    if m >= n {
      BehindLess(t.hi, s.lo, n);
    } else {
      BehindTurned(t.hi, s.lo, n);
    }
  }

  lemma BehindLess(a: int, b: int, n: nat)
    requires n <= Behind(a, b)
    ensures Behind(a - n, b) == Behind(a, b) - n
  {
    var r, q := Behind(a, b), (a - b) / COUNTER_PERIOD;
    assert a - b == q * COUNTER_PERIOD + r;
    Remainder(a - n - b, q, r - n);
  }

  lemma BehindTurned(a: int, b: int, n: nat)
    requires 0 < Behind(a, b) < n
    ensures Behind(b, a - n) < n
  {
    var r, q := Behind(a, b), (a - b) / COUNTER_PERIOD;
    assert a - b == q * COUNTER_PERIOD + r;
    var k := n - r;
    assert b - (a - n) == k - q * COUNTER_PERIOD;
    Reduced(b - (a - n), q, k);
  }

  lemma Reduced(x: int, q: int, k: nat)
    requires x == k - q * COUNTER_PERIOD && k > 0
    ensures x % COUNTER_PERIOD <= k
  {
    Remainder(x, k / COUNTER_PERIOD - q, k % COUNTER_PERIOD);
  }

  // ----- segments and nonces -----

  // Some segment uses the counter modulo 2^39 with the IV.
  ghost predicate Covered(segs: seq<Segment>, iv: bytes, c: nat) {
    exists i :: 0 <= i < |segs| && Covers(segs[i], iv, c)
  }

  predicate Covers(s: Segment, iv: bytes, c: nat) {
    s.iv == iv && Includes(s, c)
  }

  ghost predicate Used(uses: seq<Use>, fromCentral: bool, iv: bytes, c: nat) {
    exists i :: 0 <= i < |uses| && NonceOf(uses[i]) == Nonce(c, fromCentral, iv)
  }

  lemma CoveredMore(segs: seq<Segment>, u: Use, iv: bytes, c: nat)
    requires forall i | 0 <= i < |segs| :: segs[i].lo < segs[i].hi
    ensures Covered(WithUse(segs, u), iv, c) <==>
            Covered(segs, iv, c) || (u.iv == iv && c % COUNTER_PERIOD == u.counter % COUNTER_PERIOD)
  {
    var more, last := WithUse(segs, u), |segs| - 1;
    if Continues(segs, u) {
      OneMoreCounter(segs[last], c);
      assert Covers(more[last], iv, c) <==>
             Covers(segs[last], iv, c) || (u.iv == iv && c % COUNTER_PERIOD == u.counter % COUNTER_PERIOD);
      assert forall i | 0 <= i < last :: more[i] == segs[i];
    } else {
      OneCounter(more[|segs|], c);
      assert forall i | 0 <= i < |segs| :: more[i] == segs[i];
    }
  }

  lemma UsedMore(uses: seq<Use>, u: Use, fromCentral: bool, iv: bytes, c: nat)
    ensures Used(uses + [u], fromCentral, iv, c) <==>
            Used(uses, fromCentral, iv, c) || NonceOf(u) == Nonce(c, fromCentral, iv)
  {
    var more := uses + [u];
    assert more[|uses|] == u && forall i | 0 <= i < |uses| :: more[i] == uses[i];
  }

  lemma {:induction false} CoveredIsUsed(uses: seq<Use>, fromCentral: bool, iv: bytes, c: nat)
    ensures Covered(Segments(uses, fromCentral), iv, c) <==> Used(uses, fromCentral, iv, c)
  {
    if uses != [] {
      var before, u := uses[..|uses| - 1], uses[|uses| - 1];
      CoveredIsUsed(before, fromCentral, iv, c);
      UsedMore(before, u, fromCentral, iv, c);
      assert before + [u] == uses;
      NonceEqual(u.counter, u.fromCentral, u.iv, c, fromCentral, iv);
      if u.fromCentral == fromCentral {
        CoveredMore(Segments(before, fromCentral), u, iv, c);
      }
    }
  }

  lemma NewSegment(segs: seq<Segment>, iv: bytes, c: nat)
    requires forall i | 0 <= i < |segs| :: segs[i].lo < segs[i].hi
    ensures Apart(segs + [Segment(iv, c, c + 1)]) <==> Apart(segs) && !Covered(segs, iv, c)
  {
    var s := Segment(iv, c, c + 1);
    var more := segs + [s];
    forall i | 0 <= i < |segs|
      ensures Meet(segs[i], s) <==> Covers(segs[i], iv, c)
    {
      MeetsOne(segs[i], iv, c);
    }
    ApartMore(segs, s);
  }

  lemma ApartMore(segs: seq<Segment>, s: Segment)
    ensures Apart(segs + [s]) <==>
            Apart(segs) && s.hi - s.lo <= COUNTER_PERIOD && forall i | 0 <= i < |segs| :: !Meet(segs[i], s)
  {
    var more := segs + [s];
    assert more[|segs|] == s;
    if Apart(more) {
      assert forall i | 0 <= i < |segs| :: more[i] == segs[i];
      forall i | 0 <= i < |segs|
        ensures !Meet(segs[i], s)
      {
        assert !Meet(more[i], more[|segs|]);
      }
    }
  }

  // A segment reaches its own beginning again when it is 2^39 long.
  lemma MeetsItself(s: Segment)
    requires s.lo < s.hi
    ensures Includes(s, s.hi) <==> s.hi - s.lo >= COUNTER_PERIOD
  {
    if s.hi - s.lo < COUNTER_PERIOD {
      Remainder(s.hi - s.lo, 0, s.hi - s.lo);
    }
  }

  lemma GrownSegment(front: seq<Segment>, s: Segment)
    requires s.lo < s.hi && forall i | 0 <= i < |front| :: front[i].lo < front[i].hi
    ensures Apart(front + [s.(hi := s.hi + 1)]) <==> Apart(front + [s]) && !Covered(front + [s], s.iv, s.hi)
  {
    var segs, grown := front + [s], s.(hi := s.hi + 1);
    ApartMore(front, s);
    ApartMore(front, grown);
    MeetsItself(s);
    forall i | 0 <= i < |front|
      ensures Meet(front[i], grown) <==> Meet(front[i], s) || Covers(front[i], s.iv, s.hi)
    {
      MeetsMore(front[i], s);
    }
    CoveredOf(front, s, s.iv, s.hi);
  }

  lemma CoveredOf(front: seq<Segment>, s: Segment, iv: bytes, c: nat)
    ensures Covered(front + [s], iv, c) <==>
            Covers(s, iv, c) || exists i :: 0 <= i < |front| && Covers(front[i], iv, c)
  {
    var segs := front + [s];
    assert segs[|front|] == s && forall i | 0 <= i < |front| :: segs[i] == front[i];
  }

  lemma ApartWithUse(segs: seq<Segment>, u: Use)
    requires forall i | 0 <= i < |segs| :: segs[i].lo < segs[i].hi
    ensures Apart(WithUse(segs, u)) <==> Apart(segs) && !Covered(segs, u.iv, u.counter)
  {
    if Continues(segs, u) {
      var front, s := segs[..|segs| - 1], segs[|segs| - 1];
      assert segs == front + [s] && WithUse(segs, u) == front + [s.(hi := s.hi + 1)];
      GrownSegment(front, s);
    } else {
      NewSegment(segs, u.iv, u.counter);
    }
  }

  lemma DistinctMore(uses: seq<Use>, u: Use)
    ensures AllDistinct(uses + [u]) <==> AllDistinct(uses) && !Used(uses, u.fromCentral, u.iv, u.counter)
  {
    var more := uses + [u];
    assert more[|uses|] == u && forall i | 0 <= i < |uses| :: more[i] == uses[i];
    if AllDistinct(more) {
      forall i, j | 0 <= i < j < |uses|
        ensures NonceOf(uses[i]) != NonceOf(uses[j])
      {
        assert NonceOf(more[i]) != NonceOf(more[j]);
      }
      forall i | 0 <= i < |uses|
        ensures NonceOf(uses[i]) != NonceOf(u)
      {
        assert NonceOf(more[i]) != NonceOf(more[|uses|]);
      }
    }
  }

  // For any uses: no nonce is used twice if and only if in each direction no segment is longer
  // than 2^39 and no two segments with the same IV overlap on the circle of 2^39 counters.
  lemma {:induction false} DistinctIffApart(uses: seq<Use>)
    ensures AllDistinct(uses) <==> Apart(Segments(uses, true)) && Apart(Segments(uses, false))
  {
    if uses != [] {
      var before, u := uses[..|uses| - 1], uses[|uses| - 1];
      DistinctIffApart(before);
      DistinctMore(before, u);
      assert before + [u] == uses;
      CoveredIsUsed(before, u.fromCentral, u.iv, u.counter);
      ApartWithUse(Segments(before, u.fromCentral), u);
    }
  }

  // ----- runs with responses -----

  // The key is not replaced.
  ghost predicate KeepsKey(aes: Cipher, s: Session, events: seq<Event>)
    requires Valid(s)
  {
    events != [] ==>
      var last := |events| - 1;
      KeepsKey(aes, s, events[..last]) && !Rekeys(Run(aes, s, events[..last]), events[last])
  }

  // How often counters are cleared or a new IV arrives.
  ghost function Breaks(events: seq<Event>): nat {
    if events == [] then 0
    else
      var e := events[|events| - 1];
      Breaks(events[..|events| - 1]) + if e.ClearCounters? || e.EncRsp? then 1 else 0
  }

  // The next use of the direction continues the last segment.
  ghost predicate Open(segs: seq<Segment>, r: Session, fromCentral: bool) {
    segs != [] && segs[|segs| - 1].hi == CountOf(r, fromCentral) && segs[|segs| - 1].iv == r.iv
  }

  ghost predicate FewSoFar(segs: seq<Segment>, breaks: nat, r: Session, fromCentral: bool) {
    && |segs| <= breaks + 1
    && (|segs| == breaks + 1 ==> Open(segs, r, fromCentral))
  }

  lemma StepSegments(aes: Cipher, r: Session, e: Event, segs: seq<Segment>, breaks: nat, fromCentral: bool)
    requires Valid(r) && !e.Reset? && FewSoFar(segs, breaks, r, fromCentral)
    ensures var used := UsedBy(r, e, fromCentral);
            FewSoFar(if used then WithUse(segs, Use(CountOf(r, fromCentral), fromCentral, r.iv)) else segs,
                     breaks + if e.ClearCounters? || e.EncRsp? then 1 else 0, Step(aes, r, e), fromCentral)
  {
  }

  lemma SegmentsMore(uses: seq<Use>, u: Use, fromCentral: bool)
    ensures Segments(uses + [u], fromCentral) ==
            if u.fromCentral == fromCentral then WithUse(Segments(uses, fromCentral), u)
            else Segments(uses, fromCentral)
  {
    assert (uses + [u])[..|uses|] == uses;
  }

  lemma LastSegments(aes: Cipher, s: Session, events: seq<Event>, fromCentral: bool)
    requires Valid(s) && events != []
    ensures var last := |events| - 1;
            var r, segs := Run(aes, s, events[..last]), Segments(Uses(aes, s, events[..last]), fromCentral);
            Segments(Uses(aes, s, events), fromCentral) ==
            if UsedBy(r, events[last], fromCentral) then
              WithUse(segs, Use(CountOf(r, fromCentral), fromCentral, r.iv))
            else segs
  {
    var last := |events| - 1;
    var r, uses := Run(aes, s, events[..last]), Uses(aes, s, events[..last]);
    LastUse(aes, s, events);
    if UsedBy(r, events[last], true) {
      SegmentsMore(uses, Use(r.txCount, true, r.iv), fromCentral);
    } else if UsedBy(r, events[last], false) {
      SegmentsMore(uses, Use(r.rxCount, false, r.iv), fromCentral);
    }
  }

  lemma {:induction false} FewSegments(aes: Cipher, s: Session, events: seq<Event>, fromCentral: bool)
    requires Valid(s) && NoReset(events)
    ensures FewSoFar(Segments(Uses(aes, s, events), fromCentral), Breaks(events), Run(aes, s, events), fromCentral)
  {
    if events != [] {
      var last := |events| - 1;
      FewSegments(aes, s, events[..last], fromCentral);
      LastSegments(aes, s, events, fromCentral);
      StepSegments(aes, Run(aes, s, events[..last]), events[last], Segments(Uses(aes, s, events[..last]), fromCentral),
                   Breaks(events[..last]), fromCentral);
    }
  }

  lemma {:induction false} SameKey(aes: Cipher, s: Session, events: seq<Event>)
    requires Valid(s) && KeepsKey(aes, s, events)
    ensures Run(aes, s, events).sessionKey == s.sessionKey && NoReset(events)
  {
    if events != [] {
      var last := |events| - 1;
      SameKey(aes, s, events[..last]);
      StepKey(aes, Run(aes, s, events[..last]), events[last]);
    }
  }

  // Main result with responses: as long as the session key stays, over any number of epochs
  // and with any IVs, no nonce is used twice if and only if in each direction the segments are
  // apart, of which there is at most one more than there are clearings and responses.
  lemma NonceReuseWithResponses(aes: Cipher, s: Session, events: seq<Event>)
    requires Valid(s) && KeepsKey(aes, s, events)
    ensures Run(aes, s, events).sessionKey == s.sessionKey
    ensures var uses := Uses(aes, s, events);
            && (AllDistinct(uses) <==> Apart(Segments(uses, true)) && Apart(Segments(uses, false)))
            && |Segments(uses, true)| <= Breaks(events) + 1 && |Segments(uses, false)| <= Breaks(events) + 1
  {
    SameKey(aes, s, events);
    DistinctIffApart(Uses(aes, s, events));
    FewSegments(aes, s, events, true);
    FewSegments(aes, s, events, false);
  }

  // A response that is itself encrypted is still read with the old IV, but with a counter that
  // has been cleared: whatever new IV it brings, its nonce is that of the first packet received.
  lemma SecondResponseRepeats(ccm: Ccm, aes: Cipher, parse: Parser, s: Session, raw: bytes)
    requires Valid(s) && s.encrypted && s.rxCount == 0 && |raw| >= 6 && !IsAdv(raw) && raw[5] >= 5
    ensures var before := [ReceiveData, ClearCounters];
            var events := before + AllEvents(ccm, aes, parse, Run(aes, s, before), [raw]);
            [Use(0, false, s.iv), Use(0, false, s.iv)] <= Uses(aes, s, events) && !AllDistinct(Uses(aes, s, events))
  {
    var before := [ReceiveData, ClearCounters];
    var response := OneResponse(ccm, aes, parse, Run(aes, s, before), raw);
    var three := [ReceiveData, ClearCounters, ReceiveData];
    assert before + ([ReceiveData] + response) == three + response;
    ReceivedTwice(aes, s);
    UsesGrow(aes, s, three, response);
    var uses := Uses(aes, s, three + response);
    assert NonceOf(uses[0]) == NonceOf(uses[1]);
  }

  lemma OneResponse(ccm: Ccm, aes: Cipher, parse: Parser, r: Session, raw: bytes) returns (response: seq<Event>)
    requires Valid(r) && |raw| >= 6 && !IsAdv(raw) && raw[5] >= 5
    ensures AllEvents(ccm, aes, parse, r, [raw]) == [ReceiveData] + response
  {
    assert [raw][..0] == [];
    var packet := PacketEvents(ccm, parse, r, raw);
    assert AllEvents(ccm, aes, parse, r, [raw]) == packet;
    response := packet[1..];
  }

  lemma ReceivedTwice(aes: Cipher, s: Session)
    requires Valid(s) && s.encrypted && s.rxCount == 0
    ensures Uses(aes, s, [ReceiveData, ClearCounters, ReceiveData]) == [Use(0, false, s.iv), Use(0, false, s.iv)]
  {
    var events := [ReceiveData, ClearCounters, ReceiveData];
    assert events[..2] == [ReceiveData, ClearCounters] && events[..2][..1] == [ReceiveData];
    RunOne(aes, s, ReceiveData);
    assert Run(aes, s, events[..2]) == Step(aes, Run(aes, s, [ReceiveData]), ClearCounters);
    assert Uses(aes, s, events[..2]) == Uses(aes, s, [ReceiveData]);
    LastUse(aes, s, events);
  }

  lemma {:induction false} UsesGrow(aes: Cipher, s: Session, a: seq<Event>, b: seq<Event>)
    requires Valid(s)
    ensures Uses(aes, s, a) <= Uses(aes, s, a + b)
    decreases |b|
  {
    if b == [] {
      assert a + b == a;
    } else {
      var last := |b| - 1;
      UsesGrow(aes, s, a, b[..last]);
      assert (a + b)[..|a| + last] == a + b[..last];
      LastUse(aes, s, a + b);
    }
  }
}
