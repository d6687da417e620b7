/**
 When the mapper stops receiving: the heuristic that judges whether a response is complete,
 and the polling loop around it. Times are integer milliseconds.
 */
module Receiving {
  import opened Bytes
  import opened Symbols

  // A received packet: its symbol, and whether it is one of the packets that arrive cyclically.
  datatype Packet = Packet(symbol: string, cyclic: bool)

  // How many more responses typically follow a packet with a symbol.
  type Table = map<string, nat>

  const ADD_EXPECT: Table := map["LL_CTRL_ENC_RSP" := 1, "LL_CTRL_START_ENC_RSP" := 3]

  // is_rsp_complete looks packets up by their output symbol, which is just their symbol.
  lemma SingleOutput(symbol: string)
    ensures OutputSymbol([symbol]) == symbol
  {
    assert SortedSet([symbol]) == Insert(symbol, SortedSet([symbol][1..]));
  }

  predicate Trigger(table: Table, p: Packet) {
    !p.cyclic && p.symbol in table
  }

  // ---------- the heuristic in closed form ----------

  // The length of the longest suffix of cyclic packets.
  ghost function CyclicSuffix(pkts: seq<Packet>): (k: nat)
    ensures k <= |pkts|
    ensures forall i | |pkts| - k <= i < |pkts| :: pkts[i].cyclic
    ensures k < |pkts| ==> !pkts[|pkts| - k - 1].cyclic
  {
    if pkts == [] || !pkts[|pkts| - 1].cyclic then 0 else CyclicSuffix(pkts[..|pkts| - 1]) + 1
  }

  // The position of the last trigger packet, -1 if there is none.
  ghost function LastTrigger(table: Table, pkts: seq<Packet>): (i: int)
    ensures -1 <= i < |pkts|
    ensures i >= 0 ==> Trigger(table, pkts[i])
    ensures forall j | i < j < |pkts| :: !Trigger(table, pkts[j])
  {
    if pkts == [] then -1
    else if Trigger(table, pkts[|pkts| - 1]) then |pkts| - 1
    else LastTrigger(table, pkts[..|pkts| - 1])
  }

  // How many packets behind position t are not cyclic.
  ghost function NonCyclicAfter(pkts: seq<Packet>, t: int): nat {
    if |pkts| <= t + 1 || pkts == [] then 0
    else NonCyclicAfter(pkts[..|pkts| - 1], t) + if pkts[|pkts| - 1].cyclic then 0 else 1
  }

  function Max(a: int, b: int): int {
    if a < b then b else a
  }

  // The number of responses still expected: what the last trigger packet announces, or 1 if
  // there is none, less the non-cyclic packets after it.
  ghost function Expected(table: Table, pkts: seq<Packet>): nat {
    var i := LastTrigger(table, pkts);
    Max(0, (if i < 0 then 1 else table[pkts[i].symbol]) - NonCyclicAfter(pkts, i))
  }

  predicate SeemsComplete(expected: nat, cyclic: nat) {
    (expected == 0 && cyclic >= 5) || cyclic >= 10
  }

  datatype Limits = Limits(sMin: int, sMax: int, table: Table)

  // The decision in terms of the closed form.
  ghost predicate Complete(pkts: seq<Packet>, time: int, lim: Limits) {
    || time >= Max(lim.sMin, lim.sMax)
    || (time >= lim.sMin && SeemsComplete(Expected(lim.table, pkts), CyclicSuffix(pkts)))
  }

  // The decision in plain terms: never before the minimum; from then on if the maximum is
  // reached, if the last 10 packets are cyclic, or if the last 5 are and nothing is expected.
  lemma CompleteIff(pkts: seq<Packet>, time: int, lim: Limits)
    ensures Complete(pkts, time, lim) <==>
            && time >= lim.sMin
            && (time >= lim.sMax || AllCyclic(pkts, 10) || (AllCyclic(pkts, 5) && Expected(lim.table, pkts) <= 0))
  {
    SuffixIff(pkts, 10);
    SuffixIff(pkts, 5);
  }

  // The last n packets, all of which arrive cyclically.
  ghost predicate AllCyclic(pkts: seq<Packet>, n: nat) {
    n <= |pkts| && forall i | |pkts| - n <= i < |pkts| :: pkts[i].cyclic
  }

  lemma SuffixIff(pkts: seq<Packet>, n: nat)
    ensures CyclicSuffix(pkts) >= n <==> AllCyclic(pkts, n)
  {
    var k := CyclicSuffix(pkts);
    assert k < |pkts| ==> !pkts[|pkts| - k - 1].cyclic;
  }

  // The positions behind t of packets that are not cyclic.
  ghost function NonCyclicPositions(pkts: seq<Packet>, t: int): set<int> {
    set i | t < i < |pkts| && 0 <= i && !pkts[i].cyclic
  }

  lemma {:induction false} NonCyclicCount(pkts: seq<Packet>, t: int)
    requires -1 <= t
    ensures NonCyclicAfter(pkts, t) == |NonCyclicPositions(pkts, t)|
  {
    if pkts == [] || |pkts| <= t + 1 {
      assert NonCyclicPositions(pkts, t) == {};
    } else {
      var last := |pkts| - 1;
      NonCyclicCount(pkts[..last], t);
      var before := NonCyclicPositions(pkts[..last], t);
      assert NonCyclicPositions(pkts, t) == before + if pkts[last].cyclic then {} else {last};
    }
  }

  // How many responses are still expected: without a trigger packet one, less all packets that
  // are not cyclic; otherwise what the last trigger packet announces, less those behind it.
  lemma ExpectedIs(table: Table, pkts: seq<Packet>)
    ensures var t := LastTrigger(table, pkts);
            var b := if t < 0 then 1 else table[pkts[t].symbol];
            var n := |NonCyclicPositions(pkts, t)|;
            Expected(table, pkts) == if n >= b then 0 else b - n
  {
    NonCyclicCount(pkts, LastTrigger(table, pkts));
  }

  // The arguments of `receive`, where given, go before the limits of the mapper.
  lemma InForceIs(own: Limits, sMin: Option<int>, sMax: Option<int>)
    ensures var lim := InForce(own, sMin, sMax);
            && lim.sMin == (match sMin case Some(v) => v case None => own.sMin)
            && lim.sMax == (match sMax case Some(v) => v case None => own.sMax)
            && lim.table == own.table
  {
  }

  lemma CyclicOneMore(pkts: seq<Packet>, p: Packet)
    ensures CyclicSuffix(pkts + [p]) == if p.cyclic then CyclicSuffix(pkts) + 1 else 0
  {
    assert (pkts + [p])[..|pkts|] == pkts;
  }

  lemma ExpectedOneMore(table: Table, pkts: seq<Packet>, p: Packet)
    ensures Expected(table, pkts + [p]) ==
            if Trigger(table, p) then table[p.symbol]
            else if p.cyclic then Expected(table, pkts)
            else Max(0, Expected(table, pkts) - 1)
  {
    assert (pkts + [p])[..|pkts|] == pkts;
  }

  lemma CountOneMore(table: Table, pkts: seq<Packet>, i: nat)
    requires i < |pkts|
    ensures CyclicSuffix(pkts[..i + 1]) == if pkts[i].cyclic then CyclicSuffix(pkts[..i]) + 1 else 0
    ensures Expected(table, pkts[..i + 1]) ==
            if Trigger(table, pkts[i]) then table[pkts[i].symbol]
            else if pkts[i].cyclic then Expected(table, pkts[..i])
            else Max(0, Expected(table, pkts[..i]) - 1)
  {
    assert pkts[..i + 1] == pkts[..i] + [pkts[i]];
    CyclicOneMore(pkts[..i], pkts[i]);
    ExpectedOneMore(table, pkts[..i], pkts[i]);
  }

  // With the mapper's own table: what is still expected right after a packet that does not
  // arrive cyclically, and that an encryption response is followed by one more, the end of the
  // encryption start by three.
  lemma BaseExpected(recvSMin: int, recvSMax: int, pkts: seq<Packet>, p: Packet)
    requires !p.cyclic
    ensures var table := BaseLimits(recvSMin, recvSMax).table;
            Expected(table, pkts + [p]) ==
            if p.symbol == "LL_CTRL_ENC_RSP" then 1
            else if p.symbol == "LL_CTRL_START_ENC_RSP" then 3
            else Max(0, Expected(table, pkts) - 1)
  {
    ExpectedOneMore(ADD_EXPECT, pkts, p);
  }

  // The two counters of is_rsp_complete's loop are the closed form.
  method CountPackets(table: Table, pkts: seq<Packet>) returns (nRspExpected: nat, nCyclicSeen: nat)
    ensures nRspExpected == Expected(table, pkts) && nCyclicSeen == CyclicSuffix(pkts)
  {
    nRspExpected, nCyclicSeen := 1, 0;
    var i := 0;
    while i < |pkts|
      invariant 0 <= i <= |pkts|
      invariant nRspExpected == Expected(table, pkts[..i]) && nCyclicSeen == CyclicSuffix(pkts[..i])
    {
      var pkt := pkts[i];
      CountOneMore(table, pkts, i);
      if pkt.cyclic {
        nCyclicSeen := nCyclicSeen + 1;
      } else {
        nCyclicSeen := 0;
        var symbol := OutputSymbol([pkt.symbol]);
        SingleOutput(pkt.symbol);
        if symbol in table {
          nRspExpected := table[symbol];
        } else {
          nRspExpected := if nRspExpected > 0 then nRspExpected - 1 else 0;
        }
      }
      i := i + 1;
    }
    assert pkts[..i] == pkts;
  }

  // The limits in force: the arguments where given, else the mapper's own.
  function InForce(own: Limits, sMin: Option<int>, sMax: Option<int>): Limits {
    var own := if sMin.Some? then own.(sMin := sMin.value) else own;
    if sMax.Some? then own.(sMax := sMax.value) else own
  }

  // The mapper itself, whose table is fixed; the theorems hold for any table.
  function BaseLimits(recvSMin: int, recvSMax: int): Limits {
    Limits(recvSMin, recvSMax, ADD_EXPECT)
  }

  // is_rsp_complete
  method IsRspComplete(pkts: seq<Packet>, time: int, own: Limits, sMin: Option<int>, sMax: Option<int>)
    returns (stop: bool)
    ensures stop <==> Complete(pkts, time, InForce(own, sMin, sMax))
  {
    var nRspExpected, nCyclicSeen := CountPackets(own.table, pkts);
    var complete := (nRspExpected == 0 && nCyclicSeen >= 5) || nCyclicSeen >= 10;
    var lo, hi := own.sMin, own.sMax;
    if sMin.Some? {
      lo := sMin.value;
    }
    if sMax.Some? {
      hi := sMax.value;
    }
    if hi < lo {
      hi := lo;
    }
    stop := time >= hi || (time >= lo && complete);
  }

  // ---------- the receive loop ----------

  // One poll of the driver: nothing, a packet that is not for us or broken, or a packet, to
  // which the mapper may send a hidden reply.
  datatype Poll = Nothing | Dropped | Got(packet: Packet, replies: bool)

  // Everything outside the loop: what each poll yields, the time after it, and the time at
  // which the loop restarts its clock if the poll brings a hidden reply.
  datatype World = World(start: int, polls: nat -> Poll, clock: nat -> int, restart: nat -> int)

  // The time after n polls.
  function Time(w: World, n: nat): int {
    if n == 0 then w.start else w.clock(n - 1)
  }

  // Every poll is preceded by a sleep of 10 ms.
  ghost predicate Steady(w: World) {
    forall i: nat {:trigger w.restart(i)} :: Time(w, i) + 10 <= w.restart(i) <= w.clock(i)
  }

  function Replies(w: World, n: nat): nat {
    if n == 0 then 0
    else Replies(w, n - 1) + if w.polls(n - 1).Got? && w.polls(n - 1).replies then 1 else 0
  }

  // Only `most` hidden replies are ever sent.
  ghost predicate FewReplies(w: World, most: nat) {
    forall n: nat :: Replies(w, n) <= most
  }

  // Packets and time base after n polls.
  function Collected(w: World, n: nat): seq<Packet> {
    if n == 0 then []
    else Collected(w, n - 1) + if w.polls(n - 1).Got? then [w.polls(n - 1).packet] else []
  }

  function TimeBase(w: World, n: nat): int {
    if n == 0 then w.start
    else if w.polls(n - 1).Got? && w.polls(n - 1).replies then w.restart(n - 1)
    else TimeBase(w, n - 1)
  }

  // The time since the clock was last restarted, after n polls.
  function Elapsed(w: World, n: nat): int {
    Time(w, n) - TimeBase(w, n)
  }

  // k segments of `longest` ms, with one poll of 10 ms each on top.
  function Budget(k: nat, longest: nat): nat {
    if k == 0 then 0 else Budget(k - 1, longest) + longest + 10
  }

  lemma {:induction false} BudgetIsProduct(k: nat, longest: nat)
    ensures Budget(k, longest) == k * (longest + 10)
  {
    if k > 0 {
      BudgetIsProduct(k - 1, longest);
    }
  }

  lemma OneMorePoll(w: World, n: nat, longest: nat)
    requires Steady(w) && 0 <= Elapsed(w, n) <= longest
    requires 10 * n <= Budget(Replies(w, n), longest) + Elapsed(w, n)
    ensures 0 <= Elapsed(w, n + 1)
    ensures 10 * (n + 1) <= Budget(Replies(w, n + 1), longest) + Elapsed(w, n + 1)
    ensures if w.polls(n).Got? && w.polls(n).replies then Replies(w, n + 1) == Replies(w, n) + 1
            else Replies(w, n + 1) == Replies(w, n) && Elapsed(w, n) + 10 <= Elapsed(w, n + 1)
  {
    assert Time(w, n) + 10 <= w.restart(n) <= w.clock(n);
  }

  // The loop's exit condition after n polls.
  ghost predicate Stops(w: World, n: nat, lim: Limits, maxPkts: nat) {
    || Complete(Collected(w, n), Elapsed(w, n), lim)
    || (maxPkts > 0 && |Collected(w, n)| == maxPkts)
  }

  // The last of the first n polls that brought a hidden reply, or -1.
  ghost predicate LastReply(w: World, n: nat, i: int) {
    && -1 <= i < n
    && (i >= 0 ==> w.polls(i).Got? && w.polls(i).replies)
    && (forall j: nat | i < j < n :: !(w.polls(j).Got? && w.polls(j).replies))
  }

  // The clock runs from the last hidden reply, or from the beginning.
  lemma {:induction false} TimeBaseIs(w: World, n: nat, i: int)
    requires LastReply(w, n, i)
    ensures TimeBase(w, n) == if i < 0 then w.start else w.restart(i)
  {
    if n > 0 && i < n - 1 {
      assert !(w.polls(n - 1).Got? && w.polls(n - 1).replies);
      TimeBaseIs(w, n - 1, i);
    }
  }

  function Arrivals(w: World, n: nat): nat {
    if n == 0 then 0 else Arrivals(w, n - 1) + if w.polls(n - 1).Got? then 1 else 0
  }

  // The packets are those of the polls that brought one, in order.
  lemma {:induction false} CollectedIs(w: World, n: nat)
    ensures |Collected(w, n)| == Arrivals(w, n)
    ensures forall i | 0 <= i < n && w.polls(i).Got? ::
              Arrivals(w, i) < |Collected(w, n)| && Collected(w, n)[Arrivals(w, i)] == w.polls(i).packet
  {
    if n > 0 {
      CollectedIs(w, n - 1);
    }
  }

  // The exit condition in plain terms.
  lemma StopsIff(w: World, n: nat, lim: Limits, maxPkts: nat)
    ensures var pkts, time := Collected(w, n), Time(w, n) - TimeBase(w, n);
            Stops(w, n, lim, maxPkts) <==>
            || (maxPkts != 0 && |pkts| == maxPkts)
            || (time >= lim.sMin && (time >= lim.sMax || AllCyclic(pkts, 10)
                                     || (AllCyclic(pkts, 5) && Expected(lim.table, pkts) <= 0)))
  {
    CompleteIff(Collected(w, n), Elapsed(w, n), lim);
  }

  // One poll and the test of the exit condition after it.
  method PollOnce(w: World, n: nat, packets: seq<Packet>, timeStart: int, own: Limits,
                  sMin: Option<int>, sMax: Option<int>, maxPkts: nat)
    returns (packets': seq<Packet>, timeStart': int, stop: bool)
    requires packets == Collected(w, n) && timeStart == TimeBase(w, n)
    ensures packets' == Collected(w, n + 1) && timeStart' == TimeBase(w, n + 1)
    ensures var lim := InForce(own, sMin, sMax);
            && (stop <==> Stops(w, n + 1, lim, maxPkts))
            && (stop && maxPkts == 0 ==> Elapsed(w, n + 1) >= lim.sMin)
            && (!stop ==> Elapsed(w, n + 1) < Max(lim.sMin, lim.sMax))
  {
    packets', timeStart' := packets, timeStart;
    var poll := w.polls(n);
    if poll.Got? {
      packets' := packets + [poll.packet];
      if poll.replies {
        timeStart' := w.restart(n);
      }
    }
    var timeNow := w.clock(n);
    stop := IsRspComplete(packets', timeNow - timeStart', own, sMin, sMax);
    stop := stop || (maxPkts > 0 && |packets'| == maxPkts);
  }

  // `receive` terminates; it stops after the first poll at which its condition holds, and so
  // with no packet limit never before sMin has passed since the clock was last restarted; and
  // it makes no more polls than (k+1) times the longer limit allows, plus one for each
  // restart and one at the end, where k is the number of hidden replies.
  method Receive(w: World, own: Limits, sMin: Option<int>, sMax: Option<int>, maxPkts: nat, ghost most: nat)
    returns (packets: seq<Packet>, n: nat)
    requires Steady(w) && FewReplies(w, most)
    ensures 0 < n && packets == Collected(w, n)
    ensures var lim := InForce(own, sMin, sMax);
            && Stops(w, n, lim, maxPkts)
            && (forall j | 0 < j < n :: !Stops(w, j, lim, maxPkts))
            && (maxPkts == 0 ==> Elapsed(w, n) >= lim.sMin)
            && 10 * n <= Budget(Replies(w, n) + 1, Max(0, Max(lim.sMin, lim.sMax)))
  {
    ghost var lim := InForce(own, sMin, sMax);
    ghost var longest := Max(0, Max(lim.sMin, lim.sMax));
    var timeStart := w.start;
    packets, n := [], 0;
    while true
      invariant packets == Collected(w, n) && timeStart == TimeBase(w, n)
      invariant 0 <= Elapsed(w, n) <= longest
      invariant forall j | 0 < j <= n :: !Stops(w, j, lim, maxPkts)
      invariant 10 * n <= Budget(Replies(w, n), longest) + Elapsed(w, n)
      decreases most - Replies(w, n), longest - Elapsed(w, n)
    {
      OneMorePoll(w, n, longest);
      var stop;
      packets, timeStart, stop := PollOnce(w, n, packets, timeStart, own, sMin, sMax, maxPkts);
      n := n + 1;
      assert Replies(w, n) <= most;
      if stop {
        return;
      }
    }
  }
}
