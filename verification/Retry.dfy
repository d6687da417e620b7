/**
 The mapper as a learner's oracle: it records inputs and outputs and, when the last output
 looks suspicious, runs the whole sequence again. The device is any function of everything
 that has happened to it, which covers every nondeterministic device, too.
 */
module Retrying {
  import opened Symbols

  type Input = string

  datatype Event = Pre | DeviceReset | In(symbol: Input)

  datatype Config = Config(
    device: seq<Event> -> string,
    suspicious: (seq<Input>, seq<string>) -> bool,
    filter: string -> string)

  // What `step` applies to an output: the given filters and the ones for cyclic packets. The
  // theorems hold for any function in its place.
  function StepFilter(filters: set<string>): string -> string {
    s => FilterSymbol(s, filters + CYCLIC)
  }

  datatype Mapper = Mapper(
    history: seq<Event>,
    inputs: seq<Input>,
    outputs: seq<string>,
    retrying: bool)

  const MAX_ATTEMPTS: nat := 7

  predicate Valid(m: Mapper) {
    |m.inputs| == |m.outputs|
  }

  function DropLast<T>(s: seq<T>): seq<T> {
    if s == [] then [] else s[..|s| - 1]
  }

  // `pre`: resets the connection and starts new sequences.
  function AfterPre(m: Mapper): Mapper {
    Mapper(m.history + [Pre], [], [], m.retrying)
  }

  // The first part of step_internal: performs the input and records it with its output.
  function Record(c: Config, m: Mapper, i: Input): Mapper {
    var history := m.history + [In(i)];
    Mapper(history, m.inputs + [i], m.outputs + [c.device(history)], m.retrying)
  }

  function Replay(c: Config, m: Mapper, seqIn: seq<Input>): Mapper {
    if seqIn == [] then m else Record(c, Replay(c, m, DropLast(seqIn)), seqIn[|seqIn| - 1])
  }

  // One attempt of retry_sequence; from the fourth on, the device is reset first.
  function Attempt(c: Config, m: Mapper, seqIn: seq<Input>, attempt: nat): Mapper {
    var m := if attempt >= 4 then m.(history := m.history + [DeviceReset]) else m;
    Replay(c, AfterPre(m.(retrying := true)), seqIn)
  }

  function Filtered(f: string -> string, outputs: seq<string>): seq<string> {
    seq(|outputs|, k requires 0 <= k < |outputs| => f(outputs[k]))
  }

  predicate SamePrefix(c: Config, a: seq<string>, b: seq<string>) {
    Filtered(c.filter, DropLast(a)) == Filtered(c.filter, DropLast(b))
  }

  // Whether an attempt that left the mapper in a is followed by another one.
  predicate Again(c: Config, a: Mapper, seqOut: seq<string>, attempt: nat) {
    if !SamePrefix(c, seqOut, a.outputs) then attempt < 7
    else c.suspicious(a.inputs, a.outputs) && attempt < 6
  }

  // retry_sequence from the given attempt on: the mapper and the number of the last attempt.
  function RetryFrom(c: Config, m: Mapper, seqIn: seq<Input>, seqOut: seq<string>, attempt: nat): (Mapper, nat)
    requires 1 <= attempt <= MAX_ATTEMPTS
    decreases MAX_ATTEMPTS - attempt
  {
    var a := Attempt(c, m, seqIn, attempt);
    if Again(c, a, seqOut, attempt) then RetryFrom(c, a, seqIn, seqOut, attempt + 1) else (a, attempt)
  }

  predicate Retries(c: Config, m: Mapper) {
    !m.retrying && c.suspicious(m.inputs, m.outputs)
  }

  // step_internal: the mapper afterwards; its output is the last one recorded.
  function AfterStep(c: Config, m: Mapper, i: Input): Mapper {
    var m := Record(c, m, i);
    if Retries(c, m) then RetryFrom(c, m, m.inputs, m.outputs, 1).0.(retrying := false) else m
  }

  // ---------- bookkeeping, for any device ----------

  function Inputs(seqIn: seq<Input>): seq<Event> {
    seq(|seqIn|, k requires 0 <= k < |seqIn| => In(seqIn[k]))
  }

  // What happens to the device in one attempt, and in attempts `from` to `to`.
  function OneAttempt(seqIn: seq<Input>, attempt: nat): seq<Event> {
    (if attempt >= 4 then [DeviceReset] else []) + [Pre] + Inputs(seqIn)
  }

  function AttemptEvents(seqIn: seq<Input>, from: nat, to: nat): seq<Event>
    decreases to - from
  {
    if from > to then [] else OneAttempt(seqIn, from) + AttemptEvents(seqIn, from + 1, to)
  }

  lemma {:induction false} ReplayRecords(c: Config, m: Mapper, seqIn: seq<Input>)
    requires Valid(m)
    ensures var r := Replay(c, m, seqIn);
            && r.history == m.history + Inputs(seqIn) && r.inputs == m.inputs + seqIn
            && Valid(r) && r.retrying == m.retrying
    decreases |seqIn|
  {
    if seqIn != [] {
      ReplayRecords(c, m, DropLast(seqIn));
      assert seqIn == DropLast(seqIn) + [seqIn[|seqIn| - 1]];
      assert Inputs(seqIn) == Inputs(DropLast(seqIn)) + [In(seqIn[|seqIn| - 1])];
    }
  }

  lemma AttemptRecords(c: Config, m: Mapper, seqIn: seq<Input>, attempt: nat)
    ensures var a := Attempt(c, m, seqIn, attempt);
            && a.history == m.history + OneAttempt(seqIn, attempt)
            && a.inputs == seqIn && Valid(a)
  {
    var m1 := if attempt >= 4 then m.(history := m.history + [DeviceReset]) else m;
    ReplayRecords(c, AfterPre(m1.(retrying := true)), seqIn);
  }

  lemma {:induction false} RetryRecords(c: Config, m: Mapper, seqIn: seq<Input>, seqOut: seq<string>, attempt: nat)
    requires 1 <= attempt <= MAX_ATTEMPTS
    ensures var (r, n) := RetryFrom(c, m, seqIn, seqOut, attempt);
            && attempt <= n <= MAX_ATTEMPTS
            && r.history == m.history + AttemptEvents(seqIn, attempt, n)
            && r.inputs == seqIn && Valid(r)
            && (n < 7 ==> SamePrefix(c, seqOut, r.outputs))
            && (n < 6 ==> !c.suspicious(r.inputs, r.outputs))
    decreases MAX_ATTEMPTS - attempt
  {
    var a := Attempt(c, m, seqIn, attempt);
    AttemptRecords(c, m, seqIn, attempt);
    var (r, n) := RetryFrom(c, m, seqIn, seqOut, attempt);
    if Again(c, a, seqOut, attempt) {
      RetryRecords(c, a, seqIn, seqOut, attempt + 1);
      Chained(m.history, OneAttempt(seqIn, attempt), AttemptEvents(seqIn, attempt + 1, n));
    } else {
      assert AttemptEvents(seqIn, attempt + 1, attempt) == [];
      Chained(m.history, OneAttempt(seqIn, attempt), []);
    }
  }

  lemma Chained(history: seq<Event>, one: seq<Event>, more: seq<Event>)
    ensures history + one + more == history + (one + more)
    ensures one + [] == one
  {
  }

  // The mapper after j attempts.
  function AfterAttempts(c: Config, m: Mapper, seqIn: seq<Input>, j: nat): Mapper {
    if j == 0 then m else Attempt(c, AfterAttempts(c, m, seqIn, j - 1), seqIn, j)
  }

  // Every earlier output of the attempt is, once filtered, the one that was recorded before.
  ghost predicate Confirms(c: Config, recorded: seq<string>, outputs: seq<string>) {
    && |outputs| == |recorded|
    && forall k | 0 <= k < |recorded| - 1 :: c.filter(outputs[k]) == c.filter(recorded[k])
  }

  lemma SamePrefixIff(c: Config, recorded: seq<string>, outputs: seq<string>)
    requires recorded != [] && outputs != []
    ensures SamePrefix(c, recorded, outputs) <==> Confirms(c, recorded, outputs)
  {
    var a, b := Filtered(c.filter, DropLast(recorded)), Filtered(c.filter, DropLast(outputs));
    assert |a| == |recorded| - 1 && |b| == |outputs| - 1;
    assert forall k | 0 <= k < |a| :: a[k] == c.filter(recorded[k]);
    assert forall k | 0 <= k < |b| :: b[k] == c.filter(outputs[k]);
    if SamePrefix(c, recorded, outputs) {
      forall k | 0 <= k < |recorded| - 1
        ensures c.filter(outputs[k]) == c.filter(recorded[k])
      {
        assert a[k] == b[k];
      }
    }
  }

  // Attempt j is the last one: it confirms the earlier outputs and its last output is not
  // suspicious, or the attempts are used up, 6 for a suspicious output and 7 in all.
  ghost predicate IsLast(c: Config, recorded: seq<string>, a: Mapper, j: nat) {
    if Confirms(c, recorded, a.outputs) then !c.suspicious(a.inputs, a.outputs) || j >= 6 else j >= 7
  }

  lemma AgainIff(c: Config, a: Mapper, recorded: seq<string>, attempt: nat)
    requires recorded != [] && a.outputs != [] && attempt <= MAX_ATTEMPTS
    ensures Again(c, a, recorded, attempt) <==> !IsLast(c, recorded, a, attempt)
  {
    SamePrefixIff(c, recorded, a.outputs);
  }

  // None of the attempts `from` to n - 1 is the last one.
  ghost predicate NoneLast(c: Config, m0: Mapper, seqIn: seq<Input>, recorded: seq<string>, from: nat, n: nat)
    decreases n - from
  {
    from < n ==>
      && !IsLast(c, recorded, AfterAttempts(c, m0, seqIn, from), from)
      && NoneLast(c, m0, seqIn, recorded, from + 1, n)
  }

  lemma {:induction false} NoneLastMeans(c: Config, m0: Mapper, seqIn: seq<Input>, recorded: seq<string>, from: nat,
                                         n: nat)
    requires NoneLast(c, m0, seqIn, recorded, from, n)
    ensures forall j | from <= j < n :: !IsLast(c, recorded, AfterAttempts(c, m0, seqIn, j), j)
    decreases n - from
  {
    if from < n {
      NoneLastMeans(c, m0, seqIn, recorded, from + 1, n);
    }
  }

  lemma {:induction false} FirstLast(c: Config, m0: Mapper, m: Mapper, seqIn: seq<Input>, recorded: seq<string>,
                                     attempt: nat)
    requires 1 <= attempt <= MAX_ATTEMPTS && seqIn != [] && recorded != []
    requires m == AfterAttempts(c, m0, seqIn, attempt - 1)
    ensures var (r, n) := RetryFrom(c, m, seqIn, recorded, attempt);
            && attempt <= n <= 7 && r == AfterAttempts(c, m0, seqIn, n) && IsLast(c, recorded, r, n)
            && NoneLast(c, m0, seqIn, recorded, attempt, n)
    decreases MAX_ATTEMPTS - attempt
  {
    var a := Attempt(c, m, seqIn, attempt);
    AttemptRecords(c, m, seqIn, attempt);
    AgainIff(c, a, recorded, attempt);
    assert a == AfterAttempts(c, m0, seqIn, attempt);
    if Again(c, a, recorded, attempt) {
      FirstLast(c, m0, a, seqIn, recorded, attempt + 1);
    }
  }

  // Main result, for every device. A step records its input and an output; it runs n attempts,
  // 0 if nothing is suspicious and otherwise 1 to 7, in each of which exactly the recorded
  // inputs are run once after a `pre`, so retries never nest; the retry flag is clear again.
  // The last attempt is the first one that is enough: it confirms every earlier output and
  // its last one is not suspicious, or it is the 6th for a suspicious output or the 7th.
  lemma RetryBookkeeping(c: Config, m: Mapper, i: Input) returns (n: nat)
    requires Valid(m) && !m.retrying
    ensures var m1, r, seqIn := Record(c, m, i), AfterStep(c, m, i), m.inputs + [i];
            && r.inputs == seqIn && Valid(r) && !r.retrying
            && r.history == m1.history + AttemptEvents(seqIn, 1, n)
            && n <= 7 && (n == 0 <==> !c.suspicious(m1.inputs, m1.outputs))
            && (n == 0 ==> r == m1)
            && (n < 7 ==> Confirms(c, m1.outputs, r.outputs))
            && (0 < n < 6 ==> !c.suspicious(r.inputs, r.outputs))
            && (n > 0 ==>
                  && r == AfterAttempts(c, m1, seqIn, n).(retrying := false)
                  && IsLast(c, m1.outputs, AfterAttempts(c, m1, seqIn, n), n)
                  && forall j | 0 < j < n :: !IsLast(c, m1.outputs, AfterAttempts(c, m1, seqIn, j), j))
  {
    var m1 := Record(c, m, i);
    n := 0;
    if Retries(c, m1) {
      n := RetryFrom(c, m1, m1.inputs, m1.outputs, 1).1;
      RetryRecords(c, m1, m1.inputs, m1.outputs, 1);
      FirstLast(c, m1, m1, m1.inputs, m1.outputs, 1);
      NoneLastMeans(c, m1, m1.inputs, m1.outputs, 1, n);
      SamePrefixIff(c, m1.outputs, RetryFrom(c, m1, m1.inputs, m1.outputs, 1).0.outputs);
    }
  }

  // What an attempt records: the answers of the device, each to everything that has happened
  // until then.
  ghost predicate Answered(c: Config, m: Mapper, r: Mapper, seqIn: seq<Input>, k: nat)
    requires |r.outputs| == |m.outputs| + |seqIn| && k < |seqIn|
  {
    r.outputs[|m.outputs| + k] == c.device(m.history + Inputs(seqIn[..k + 1]))
  }

  lemma {:induction false} ReplayOutputs(c: Config, m: Mapper, seqIn: seq<Input>)
    requires Valid(m)
    ensures var r := Replay(c, m, seqIn);
            |r.outputs| == |m.outputs| + |seqIn| && forall k | 0 <= k < |seqIn| :: Answered(c, m, r, seqIn, k)
    decreases |seqIn|
  {
    if seqIn != [] {
      var last := |seqIn| - 1;
      var before := DropLast(seqIn);
      ReplayRecords(c, m, before);
      ReplayOutputs(c, m, before);
      assert seqIn[..last + 1] == seqIn && Inputs(seqIn) == Inputs(before) + [In(seqIn[last])];
      assert m.history + Inputs(seqIn) == m.history + Inputs(before) + [In(seqIn[last])];
      forall k | 0 <= k < |seqIn|
        ensures Answered(c, m, Replay(c, m, seqIn), seqIn, k)
      {
        if k < last {
          assert Answered(c, m, Replay(c, m, before), before, k);
          assert before[..k + 1] == seqIn[..k + 1];
        }
      }
    }
  }

  ghost predicate AnsweredIn(c: Config, m: Mapper, a: Mapper, seqIn: seq<Input>, attempt: nat, k: nat)
    requires |a.outputs| == |seqIn| && k < |seqIn|
  {
    a.outputs[k] == c.device(m.history + OneAttempt(seqIn[..k + 1], attempt))
  }

  lemma AttemptOutputs(c: Config, m: Mapper, seqIn: seq<Input>, attempt: nat)
    ensures var a := Attempt(c, m, seqIn, attempt);
            |a.outputs| == |seqIn| && forall k | 0 <= k < |seqIn| :: AnsweredIn(c, m, a, seqIn, attempt, k)
  {
    var m1 := if attempt >= 4 then m.(history := m.history + [DeviceReset]) else m;
    var m2 := AfterPre(m1.(retrying := true));
    ReplayOutputs(c, m2, seqIn);
    forall k | 0 <= k < |seqIn|
      ensures AnsweredIn(c, m, Attempt(c, m, seqIn, attempt), seqIn, attempt, k)
    {
      assert Answered(c, m2, Replay(c, m2, seqIn), seqIn, k);
      assert m2.history + Inputs(seqIn[..k + 1]) == m.history + OneAttempt(seqIn[..k + 1], attempt);
    }
  }

  ghost function CountOf(events: seq<Event>, e: Event): nat {
    if events == [] then 0
    else CountOf(events[..|events| - 1], e) + if events[|events| - 1] == e then 1 else 0
  }

  lemma {:induction false} CountSum(a: seq<Event>, b: seq<Event>, e: Event)
    ensures CountOf(a + b, e) == CountOf(a, e) + CountOf(b, e)
    decreases |b|
  {
    if b == [] {
      assert a + b == a;
    } else {
      var last := |b| - 1;
      CountSum(a, b[..last], e);
      assert (a + b)[..|a| + last] == a + b[..last];
    }
  }

  lemma {:induction false} NoneIn(seqIn: seq<Input>)
    ensures CountOf(Inputs(seqIn), Pre) == 0 && CountOf(Inputs(seqIn), DeviceReset) == 0
  {
    if seqIn != [] {
      NoneIn(seqIn[..|seqIn| - 1]);
      assert Inputs(seqIn)[..|seqIn| - 1] == Inputs(seqIn[..|seqIn| - 1]);
    }
  }

  lemma OneAttemptCounts(seqIn: seq<Input>, attempt: nat)
    ensures CountOf(OneAttempt(seqIn, attempt), Pre) == 1
    ensures CountOf(OneAttempt(seqIn, attempt), DeviceReset) == if attempt <= 3 then 0 else 1
  {
    var reset := if attempt >= 4 then [DeviceReset] else [];
    NoneIn(seqIn);
    forall e: Event | e == Pre || e == DeviceReset
      ensures CountOf(OneAttempt(seqIn, attempt), e) == CountOf(reset, e) + CountOf([Pre], e)
    {
      CountSum(reset + [Pre], Inputs(seqIn), e);
      CountSum(reset, [Pre], e);
    }
    assert [Pre][..0] == [] && [DeviceReset][..0] == [];
    assert CountOf([Pre], Pre) == 1 && CountOf([Pre], DeviceReset) == 0;
    assert attempt >= 4 ==> CountOf([DeviceReset], DeviceReset) == 1 && CountOf([DeviceReset], Pre) == 0;
  }

  // n attempts reset the connection n times, and the device once in each after the third.
  lemma {:induction false} AttemptCounts(seqIn: seq<Input>, from: nat, n: nat)
    requires 1 <= from <= n + 1
    ensures CountOf(AttemptEvents(seqIn, from, n), Pre) == n + 1 - from
    ensures CountOf(AttemptEvents(seqIn, from, n), DeviceReset) ==
            (if n >= 3 then n - 3 else 0) - (if from >= 4 then from - 4 else 0)
    decreases n + 1 - from
  {
    if from <= n {
      AttemptCounts(seqIn, from + 1, n);
      OneAttemptCounts(seqIn, from);
      CountSum(OneAttempt(seqIn, from), AttemptEvents(seqIn, from + 1, n), Pre);
      CountSum(OneAttempt(seqIn, from), AttemptEvents(seqIn, from + 1, n), DeviceReset);
    }
  }

  // ---------- transparency, for deterministic devices ----------

  // A Mealy machine that `pre` brings to its initial state; a device reset may do anything.
  datatype Mealy<!S> = Mealy(
    init: S,
    next: (S, Input) -> S,
    out: (S, Input) -> string,
    boot: S,
    deviceReset: S -> S)

  ghost function StateAfter<S>(d: Mealy<S>, history: seq<Event>): S {
    if history == [] then d.boot
    else
      match history[|history| - 1]
      case Pre => d.init
      case DeviceReset => d.deviceReset(StateAfter(d, history[..|history| - 1]))
      case In(i) => d.next(StateAfter(d, history[..|history| - 1]), i)
  }

  // The device is the machine as far as f can tell; for f the identity, it is deterministic.
  ghost predicate Implements<S(!new)>(f: string -> string, device: seq<Event> -> string, d: Mealy<S>) {
    forall history, i :: f(device(history + [In(i)])) == f(d.out(StateAfter(d, history), i))
  }

  // f tells apart whatever g does.
  ghost predicate Finer(f: string -> string, g: string -> string) {
    forall s, t :: f(s) == f(t) ==> g(s) == g(t)
  }

  function Same(s: string): string {
    s
  }

  // State and outputs of the machine on a word, without any mapper.
  ghost function Delta<S>(d: Mealy<S>, w: seq<Input>): S {
    if w == [] then d.init else d.next(Delta(d, DropLast(w)), w[|w| - 1])
  }

  ghost function Lambda<S>(d: Mealy<S>, w: seq<Input>): seq<string> {
    if w == [] then []
    else Lambda(d, DropLast(w)) + [d.out(Delta(d, DropLast(w)), w[|w| - 1])]
  }

  // The mapper is, as far as f can tell, where it would be if it had run w without retrying.
  ghost predicate Synced<S>(f: string -> string, d: Mealy<S>, m: Mapper, w: seq<Input>) {
    m.inputs == w && Filtered(f, m.outputs) == Filtered(f, Lambda(d, w)) && StateAfter(d, m.history) == Delta(d, w)
  }

  lemma FilteredOneMore(f: string -> string, outputs: seq<string>, output: string)
    ensures Filtered(f, outputs + [output]) == Filtered(f, outputs) + [f(output)]
  {
  }

  lemma FilteredFiner(f: string -> string, g: string -> string, a: seq<string>, b: seq<string>)
    requires Finer(f, g) && Filtered(f, a) == Filtered(f, b)
    ensures Filtered(g, a) == Filtered(g, b) && Filtered(g, DropLast(a)) == Filtered(g, DropLast(b))
  {
    assert |a| == |Filtered(f, a)| == |b|;
    forall k | 0 <= k < |a|
      ensures g(a[k]) == g(b[k])
    {
      assert f(a[k]) == Filtered(f, a)[k] == Filtered(f, b)[k] == f(b[k]);
    }
  }

  lemma FilteredSame(a: seq<string>, b: seq<string>)
    requires Filtered(Same, a) == Filtered(Same, b)
    ensures a == b
  {
    assert |a| == |Filtered(Same, a)| == |b|;
    forall k | 0 <= k < |a|
      ensures a[k] == b[k]
    {
      assert Same(a[k]) == Filtered(Same, a)[k] == Filtered(Same, b)[k] == Same(b[k]);
    }
  }

  lemma RecordSynced<S(!new)>(f: string -> string, c: Config, d: Mealy<S>, m: Mapper, w: seq<Input>)
    requires Implements(f, c.device, d) && w != [] && Synced(f, d, m, DropLast(w))
    ensures Synced(f, d, Record(c, m, w[|w| - 1]), w)
  {
    var v, i := DropLast(w), w[|w| - 1];
    assert w == v + [i];
    assert (m.history + [In(i)])[..|m.history|] == m.history;
    FilteredOneMore(f, m.outputs, c.device(m.history + [In(i)]));
    FilteredOneMore(f, Lambda(d, v), d.out(Delta(d, v), i));
  }

  lemma {:induction false} ReplaySynced<S(!new)>(f: string -> string, c: Config, d: Mealy<S>, m: Mapper,
                                                 seqIn: seq<Input>)
    requires Implements(f, c.device, d) && Synced(f, d, m, [])
    ensures Synced(f, d, Replay(c, m, seqIn), seqIn) && Replay(c, m, seqIn).retrying == m.retrying
    decreases |seqIn|
  {
    if seqIn != [] {
      ReplaySynced(f, c, d, m, DropLast(seqIn));
      RecordSynced(f, c, d, Replay(c, m, DropLast(seqIn)), seqIn);
    }
  }

  lemma PreSynced<S>(f: string -> string, d: Mealy<S>, m: Mapper)
    ensures Synced(f, d, AfterPre(m), [])
  {
  }

  lemma AttemptSynced<S(!new)>(f: string -> string, c: Config, d: Mealy<S>, m: Mapper, w: seq<Input>, attempt: nat)
    requires Implements(f, c.device, d)
    ensures Synced(f, d, Attempt(c, m, w, attempt), w)
  {
    var m1 := if attempt >= 4 then m.(history := m.history + [DeviceReset]) else m;
    PreSynced(f, d, m1.(retrying := true));
    ReplaySynced(f, c, d, AfterPre(m1.(retrying := true)), w);
  }

  // Every attempt reproduces the sequence, so it never messes up the earlier outputs, and the
  // attempt 7 is never made.
  lemma {:induction false} RetrySynced<S(!new)>(f: string -> string, c: Config, d: Mealy<S>, m: Mapper,
                                                w: seq<Input>, seqOut: seq<string>, attempt: nat)
    requires Implements(f, c.device, d) && Finer(f, c.filter) && 1 <= attempt <= 6
    requires Filtered(f, seqOut) == Filtered(f, Lambda(d, w))
    ensures var (r, n) := RetryFrom(c, m, w, seqOut, attempt);
            Synced(f, d, r, w) && n <= 6
    decreases 6 - attempt
  {
    var a := Attempt(c, m, w, attempt);
    AttemptSynced(f, c, d, m, w, attempt);
    FilteredFiner(f, c.filter, seqOut, a.outputs);
    if Again(c, a, seqOut, attempt) {
      RetrySynced(f, c, d, a, w, seqOut, attempt + 1);
    }
  }

  lemma StepSynced<S(!new)>(f: string -> string, c: Config, d: Mealy<S>, m: Mapper, w: seq<Input>)
    requires Implements(f, c.device, d) && Finer(f, c.filter)
    requires w != [] && Synced(f, d, m, DropLast(w)) && !m.retrying
    ensures var after := AfterStep(c, m, w[|w| - 1]);
            Synced(f, d, after, w) && !after.retrying
  {
    var m1 := Record(c, m, w[|w| - 1]);
    RecordSynced(f, c, d, m, w);
    if Retries(c, m1) {
      RetrySynced(f, c, d, m1, w, m1.outputs, 1);
    }
  }

  // What `step` returns when it leaves the mapper in m.
  function Answer(c: Config, m: Mapper): string {
    if m.outputs == [] then "" else c.filter(m.outputs[|m.outputs| - 1])
  }

  // A query of the learner: pre, then one step for each input; with what the steps return.
  ghost function Query(c: Config, m: Mapper, w: seq<Input>): (Mapper, seq<string>) {
    if w == [] then (AfterPre(m), [])
    else
      var (before, answers) := Query(c, m, DropLast(w));
      var after := AfterStep(c, before, w[|w| - 1]);
      (after, answers + [Answer(c, after)])
  }

  lemma {:induction false} QuerySynced<S(!new)>(f: string -> string, c: Config, d: Mealy<S>, m: Mapper, w: seq<Input>)
    requires Implements(f, c.device, d) && Finer(f, c.filter) && !m.retrying
    ensures Synced(f, d, Query(c, m, w).0, w) && !Query(c, m, w).0.retrying
    decreases |w|
  {
    if w == [] {
      PreSynced(f, d, m);
    } else {
      QuerySynced(f, c, d, m, DropLast(w));
      StepSynced(f, c, d, Query(c, m, DropLast(w)).0, w);
    }
  }

  lemma LastAnswer<S>(c: Config, d: Mealy<S>, m: Mapper, w: seq<Input>)
    requires w != [] && Filtered(c.filter, m.outputs) == Filtered(c.filter, Lambda(d, w))
    ensures Filtered(c.filter, Lambda(d, w)) == Filtered(c.filter, Lambda(d, DropLast(w))) + [Answer(c, m)]
  {
    var v := DropLast(w);
    FilteredOneMore(c.filter, Lambda(d, v), d.out(Delta(d, v), w[|w| - 1]));
    var last := |m.outputs| - 1;
    assert |m.outputs| == |Filtered(c.filter, m.outputs)| == |Lambda(d, w)|;
    assert Filtered(c.filter, m.outputs)[last] == c.filter(m.outputs[last]);
  }

  // Main result. For every device that is deterministic as far as f can tell, where f tells
  // apart at least what the filter leaves, and every suspicion predicate, a query returns
  // exactly the filtered outputs of the device, and the device is left in the state in which
  // the word alone leaves it: retries are invisible. With the filter for f, the packets that
  // arrive cyclically may vary; with the identity, the recorded outputs are exact, too.
  lemma {:induction false} RetryTransparent<S(!new)>(f: string -> string, c: Config, d: Mealy<S>, m: Mapper,
                                                     w: seq<Input>)
    requires Implements(f, c.device, d) && Finer(f, c.filter) && !m.retrying
    ensures var (r, answers) := Query(c, m, w);
            && answers == Filtered(c.filter, Lambda(d, w))
            && StateAfter(d, r.history) == Delta(d, w)
            && r.inputs == w && Filtered(f, r.outputs) == Filtered(f, Lambda(d, w)) && !r.retrying
            && (f == Same ==> r.outputs == Lambda(d, w))
    decreases |w|
  {
    var r := Query(c, m, w).0;
    QuerySynced(f, c, d, m, w);
    FilteredFiner(f, c.filter, r.outputs, Lambda(d, w));
    if f == Same {
      FilteredSame(r.outputs, Lambda(d, w));
    }
    if w != [] {
      RetryTransparent(f, c, d, m, DropLast(w));
      LastAnswer(c, d, r, w);
    }
  }

  lemma {:induction false} GivesUp<S(!new)>(c: Config, d: Mealy<S>, m: Mapper, w: seq<Input>, attempt: nat)
    requires Implements(Same, c.device, d) && 1 <= attempt <= 6 && c.suspicious(w, Lambda(d, w))
    ensures RetryFrom(c, m, w, Lambda(d, w), attempt).1 == 6
    decreases 6 - attempt
  {
    AttemptSynced(Same, c, d, m, w, attempt);
    FilteredSame(Attempt(c, m, w, attempt).outputs, Lambda(d, w));
    if attempt < 6 {
      GivesUp(c, d, Attempt(c, m, w, attempt), w, attempt + 1);
    }
  }

  // What a suspicious output costs on a deterministic device: six attempts, always.
  lemma RetryCost<S(!new)>(c: Config, d: Mealy<S>, m: Mapper, w: seq<Input>)
    requires Implements(Same, c.device, d) && w != [] && Synced(Same, d, m, DropLast(w)) && !m.retrying
    ensures AfterStep(c, m, w[|w| - 1]).history ==
            m.history + [In(w[|w| - 1])] +
            if c.suspicious(w, Lambda(d, w)) then AttemptEvents(w, 1, 6) else []
  {
    var m1 := Record(c, m, w[|w| - 1]);
    RecordSynced(Same, c, d, m, w);
    FilteredSame(m1.outputs, Lambda(d, w));
    if Retries(c, m1) {
      GivesUp(c, d, m1, w, 1);
      RetryRecords(c, m1, w, m1.outputs, 1);
    }
  }

  // ---------- devices whose cyclic packets vary ----------

  // What a deterministic device answers, as packets given by their symbols.
  datatype Radio<!S> = Radio(machine: Mealy<S>, packets: (S, Input) -> seq<string>)

  ghost predicate ValidRadio<S(!new)>(r: Radio<S>) {
    forall s, i :: Plain(r.packets(s, i)) && r.machine.out(s, i) == OutputSymbol(r.packets(s, i))
  }

  // The device answers with the radio's packets, in any order and number, and with any packets
  // that arrive cyclically among them.
  ghost predicate AnswersAs<S(!new)>(packets: seq<Event> -> seq<string>, r: Radio<S>) {
    forall history, i ::
      var got, meant := packets(history + [In(i)]), r.packets(StateAfter(r.machine, history), i);
      Plain(got) && Elements(got) - CYCLIC == Elements(meant) - CYCLIC
  }

  lemma CyclicImplements<S(!new)>(filters: set<string>, c: Config, packets: seq<Event> -> seq<string>, r: Radio<S>)
    requires ValidRadio(r) && AnswersAs(packets, r) && c.filter == StepFilter(filters)
    requires forall history :: c.device(history) == OutputSymbol(packets(history))
    ensures Implements(c.filter, c.device, r.machine)
  {
    forall history, i
      ensures c.filter(c.device(history + [In(i)])) == c.filter(r.machine.out(StateAfter(r.machine, history), i))
    {
      var got, meant := packets(history + [In(i)]), r.packets(StateAfter(r.machine, history), i);
      CyclicPacketsInvisible(got, meant, filters);
    }
  }

  // The mapper with its own filter, on a device that is deterministic but for the packets that
  // arrive cyclically: whatever it retries, the learner gets for every input the output symbol
  // of the packets that the device means, without the filtered and the cyclic ones.
  lemma {:induction false} MapperTransparent<S(!new)>(filters: set<string>, c: Config,
                                                      packets: seq<Event> -> seq<string>, r: Radio<S>, m: Mapper,
                                                      w: seq<Input>)
    requires ValidRadio(r) && AnswersAs(packets, r) && c.filter == StepFilter(filters) && !m.retrying
    requires forall history :: c.device(history) == OutputSymbol(packets(history))
    ensures var answers := Query(c, m, w).1;
            && |answers| == |w|
            && forall k | 0 <= k < |w| ::
                 answers[k] == OutputSymbol(Keep(r.packets(Delta(r.machine, w[..k]), w[k]), filters + CYCLIC))
  {
    CyclicImplements(filters, c, packets, r);
    RetryTransparent(c.filter, c, r.machine, m, w);
    LambdaAt(r.machine, w);
    forall k | 0 <= k < |w|
      ensures c.filter(Lambda(r.machine, w)[k]) ==
              OutputSymbol(Keep(r.packets(Delta(r.machine, w[..k]), w[k]), filters + CYCLIC))
    {
      FilterCommutes(r.packets(Delta(r.machine, w[..k]), w[k]), filters + CYCLIC);
    }
  }

  lemma {:induction false} LambdaAt<S>(d: Mealy<S>, w: seq<Input>)
    ensures |Lambda(d, w)| == |w|
    ensures forall k | 0 <= k < |w| :: Lambda(d, w)[k] == d.out(Delta(d, w[..k]), w[k])
    decreases |w|
  {
    if w != [] {
      var v := DropLast(w);
      LambdaAt(d, v);
      forall k | 0 <= k < |w|
        ensures Lambda(d, w)[k] == d.out(Delta(d, w[..k]), w[k])
      {
        if k < |v| {
          assert v[..k] == w[..k];
        } else {
          assert w[..k] == v;
        }
      }
    }
  }

  // ---------- the mapper's methods ----------

  // While a retry is running, a step only records.
  lemma ReplayMore(c: Config, m: Mapper, seqIn: seq<Input>, i: nat)
    requires i < |seqIn| && Valid(m) && m.retrying
    ensures var r := Replay(c, m, seqIn[..i]);
            && AfterStep(c, r, seqIn[i]) == Replay(c, m, seqIn[..i + 1])
            && (r.inputs == seqIn[..i] ==> Record(c, r, seqIn[i]).inputs == seqIn[..i + 1])
            && Valid(Replay(c, m, seqIn[..i + 1])) && Replay(c, m, seqIn[..i + 1]).retrying
  {
    assert DropLast(seqIn[..i + 1]) == seqIn[..i];
    ReplayRecords(c, m, seqIn[..i]);
    ReplayRecords(c, m, seqIn[..i + 1]);
  }

  class BleSul {
    const config: Config
    var history: seq<Event> // everything that has happened to the device
    var inputSequence: seq<Input>
    var outputSequence: seq<string>
    var isRetryRunning: bool

    function View(): Mapper
      reads this
    {
      Mapper(history, inputSequence, outputSequence, isRetryRunning)
    }

    constructor (device: seq<Event> -> string, suspicious: (seq<Input>, seq<string>) -> bool,
                 outputSymbolFilters: set<string>)
      ensures View() == Mapper([], [], [], false)
      ensures config == Config(device, suspicious, StepFilter(outputSymbolFilters))
    {
      config := Config(device, suspicious, StepFilter(outputSymbolFilters));
      history, inputSequence, outputSequence, isRetryRunning := [], [], [], false;
    }

    method DoPre()
      modifies this
      ensures View() == AfterPre(old(View()))
    {
      history := history + [Pre];
      inputSequence := [];
      outputSequence := [];
    }

    method Step(symbol: Input) returns (output: string)
      requires Valid(View()) && !isRetryRunning
      modifies this
      ensures View() == AfterStep(config, old(View()), symbol)
      ensures outputSequence != [] && output == Answer(config, View())
    {
      var s := StepInternal(symbol);
      output := config.filter(s);
    }

    // Calls retry_sequence, which calls this method again; that this terminates is the proof
    // that retries do not nest.
    method StepInternal(symbol: Input) returns (output: string)
      requires Valid(View())
      modifies this
      ensures View() == AfterStep(config, old(View()), symbol)
      ensures Valid(View()) && outputSequence != [] && output == outputSequence[|outputSequence| - 1]
      decreases if isRetryRunning then 0 else 3
    {
      history := history + [In(symbol)];
      output := config.device(history);
      inputSequence := inputSequence + [symbol];
      outputSequence := outputSequence + [output];
      if !isRetryRunning && config.suspicious(inputSequence, outputSequence) {
        output := RetrySequence();
      }
    }

    method RetrySequence() returns (output: string)
      requires Valid(View()) && inputSequence != [] && !isRetryRunning
      modifies this
      ensures View() == RetryFrom(config, old(View()), old(inputSequence), old(outputSequence), 1).0.(retrying := false)
      ensures Valid(View()) && outputSequence != [] && output == outputSequence[|outputSequence| - 1]
      decreases 2
    {
      var seqIn, seqOut := inputSequence, outputSequence;
      var attempt := 0;
      ghost var goal := RetryFrom(config, View(), seqIn, seqOut, 1).0;
      while true
        invariant 0 <= attempt < MAX_ATTEMPTS
        invariant goal == RetryFrom(config, View(), seqIn, seqOut, attempt + 1).0
        decreases MAX_ATTEMPTS - attempt
      {
        attempt := attempt + 1;
        ghost var before := View();
        RunAttempt(seqIn, attempt);
        assert View() == Attempt(config, before, seqIn, attempt);
        var again := TryAgain(seqOut, attempt);
        if !again {
          break;
        }
      }
      isRetryRunning := false;
      output := outputSequence[|outputSequence| - 1];
    }

    method TryAgain(seqOut: seq<string>, attempt: nat) returns (again: bool)
      ensures again <==> Again(config, View(), seqOut, attempt)
    {
      if !SamePrefix(config, seqOut, outputSequence) {
        return attempt < 7;
      }
      if config.suspicious(inputSequence, outputSequence) {
        return attempt < 6;
      }
      return false;
    }

    // The beginning of an attempt; from the fourth on, the device is reset first.
    method StartAttempt(attempt: nat)
      modifies this
      ensures var m := old(View());
              var m1 := if attempt >= 4 then m.(history := m.history + [DeviceReset]) else m;
              View() == AfterPre(m1.(retrying := true))
    {
      if attempt >= 4 {
        history := history + [DeviceReset];
      }
      isRetryRunning := true;
      DoPre();
    }

    method RunAttempt(seqIn: seq<Input>, attempt: nat)
      modifies this
      ensures View() == Attempt(config, old(View()), seqIn, attempt)
      ensures Valid(View()) && inputSequence == seqIn
      decreases 1
    {
      StartAttempt(attempt);
      ghost var start := View();
      var i := 0;
      while i < |seqIn|
        invariant 0 <= i <= |seqIn|
        invariant View() == Replay(config, start, seqIn[..i])
        invariant Valid(View()) && isRetryRunning && inputSequence == seqIn[..i]
      {
        ReplayMore(config, start, seqIn, i);
        var output := StepInternal(seqIn[i]);
        i := i + 1;
      }
      assert seqIn[..i] == seqIn;
    }
  }
}
