/**
 * go/ct/spc/enumeration.go: the pipeline that feeds test states to workers, as a state machine of
 * the feeding goroutine, the producers, the consumers and the two channels between them.
 */
module ForEachState {

  /** A test state a rule enumerates, and whether it is to be run (full mode, or the condition holds). */
  datatype Candidate = Candidate(state: int, applies: bool)

  /** A rule by what EnumerateTestCases does: it offers its candidates in order and may then fail. */
  datatype Rule = Rule(candidates: seq<Candidate>, fails: bool)

  datatype Main = Feeding(next: nat) | WaitingForProducers | WaitingForConsumers | Returned

  /** A generating goroutine: at the channel, holding a rule, inside an enumeration, blocked in a send, or done. */
  datatype Producer =
    | Waiting | Received(rule: Rule) | Enumerating(rule: Rule, next: nat) | Sending(rule: Rule, next: nat) | Finished

  datatype Consumer = Ready | Busy(state: int) | Stopped

  datatype State = State(main: Main, ruleChannel: seq<Rule>, rulesClosed: bool, stateChannel: seq<int>,
                         statesClosed: bool, producers: seq<Producer>, consumers: seq<Consumer>, aborted: bool,
                         failed: bool, sent: multiset<int>, consumed: multiset<int>)

  datatype Config = Config(rules: seq<Rule>, jobs: nat)

  function Capacity(c: Config): nat { 10 * c.jobs }

  function Init(c: Config): State {
    State(Feeding(0), [], false, [], false, seq(c.jobs, _ => Waiting), seq(c.jobs, _ => Ready), false, false,
          multiset{}, multiset{})
  }

  /** The atomic steps; a consumer may find out that everything is to be aborted. */
  datatype Step = Advance | Produce(producer: nat) | Consume(consumer: nat, abort: bool)

  // ------------------------------------------------------------ main goroutine

  predicate MainEnabled(c: Config, s: State) {
    match s.main
    case Feeding(i) => i >= |c.rules| || |s.ruleChannel| < Capacity(c)
    case WaitingForProducers => forall p :: 0 <= p < |s.producers| ==> s.producers[p].Finished?
    case WaitingForConsumers => forall k :: 0 <= k < |s.consumers| ==> s.consumers[k].Stopped?
    case Returned => false
  }

  function MainStep(c: Config, s: State): State
    requires MainEnabled(c, s)
  {
    match s.main
    case Feeding(i) =>
      if i < |c.rules| then s.(main := Feeding(i + 1), ruleChannel := s.ruleChannel + [c.rules[i]])
      else s.(main := WaitingForProducers, rulesClosed := true)
    case WaitingForProducers => s.(main := WaitingForConsumers, statesClosed := true)
    case WaitingForConsumers => s.(main := Returned)
  }

  // ----------------------------------------------------------------- producers

  predicate ProducerEnabled(c: Config, s: State, p: nat) {
    && p < |s.producers|
    && match s.producers[p]
       case Waiting => s.ruleChannel != [] || s.rulesClosed
       case Sending(rule, n) => n < |rule.candidates| && |s.stateChannel| < Capacity(c)
       case Enumerating(rule, n) => n <= |rule.candidates|
       case Received(_) => true
       case Finished => false
  }

  /** Where a producer goes next. */
  function NextProducer(s: State, p: Producer): Producer {
    match p
    case Waiting => if s.ruleChannel != [] then Received(s.ruleChannel[0]) else Finished
    case Received(rule) => if s.aborted then Waiting else Enumerating(rule, 0)
    case Enumerating(rule, n) =>
      if n >= |rule.candidates| || s.aborted then Waiting
      else if !rule.candidates[n].applies then Enumerating(rule, n + 1)
      else Sending(rule, n)
    case Sending(rule, n) => Enumerating(rule, n + 1)
    case Finished => Finished
  }

  function ProducerStep(c: Config, s: State, p: nat): State
    requires ProducerEnabled(c, s, p)
  {
    var s' := s.(producers := s.producers[p := NextProducer(s, s.producers[p])]);
    match s.producers[p]
    case Waiting => s'.(ruleChannel := if s.ruleChannel != [] then s.ruleChannel[1..] else [])
    case Enumerating(rule, n) =>
      if n == |rule.candidates| && rule.fails then s'.(aborted := true, failed := true) else s'
    case Sending(rule, n) =>
      s'.(stateChannel := s.stateChannel + [rule.candidates[n].state],
          sent := s.sent + multiset{rule.candidates[n].state})
    case _ => s'
  }

  // ----------------------------------------------------------------- consumers

  predicate ConsumerEnabled(s: State, k: nat) {
    && k < |s.consumers|
    && match s.consumers[k]
       case Ready => s.stateChannel != [] || s.statesClosed
       case Busy(_) => true
       case Stopped => false
  }

  function ConsumerStep(s: State, k: nat, abort: bool): State
    requires ConsumerEnabled(s, k)
  {
    match s.consumers[k]
    case Ready =>
      if s.stateChannel != [] then s.(consumers := s.consumers[k := Busy(s.stateChannel[0])],
                                      stateChannel := s.stateChannel[1..])
      else s.(consumers := s.consumers[k := Stopped])
    case Busy(state) =>
      s.(consumers := s.consumers[k := Ready], consumed := s.consumed + multiset{state}, aborted := s.aborted || abort)
  }

  predicate Enabled(c: Config, s: State, step: Step) {
    match step
    case Advance => MainEnabled(c, s)
    case Produce(p) => ProducerEnabled(c, s, p)
    case Consume(k, _) => ConsumerEnabled(s, k)
  }

  function Next(c: Config, s: State, step: Step): State
    requires Enabled(c, s, step)
  {
    match step
    case Advance => MainStep(c, s)
    case Produce(p) => ProducerStep(c, s, p)
    case Consume(k, abort) => ConsumerStep(s, k, abort)
  }

  // ----------------------------------------------------------------- invariant

  ghost predicate ProducerOk(p: Producer) {
    match p
    case Enumerating(rule, n) => n <= |rule.candidates|
    case Sending(rule, n) => n < |rule.candidates| && rule.candidates[n].applies
    case _ => true
  }

  /** The phases of the protocol: which channels are closed, and who may still be running. */
  ghost predicate Phases(c: Config, s: State) {
    && |s.producers| == |s.consumers| == c.jobs
    && (forall p :: 0 <= p < c.jobs ==> ProducerOk(s.producers[p]))
    && (s.main.Feeding? ==> s.main.next <= |c.rules|)
    && (s.rulesClosed <==> !s.main.Feeding?)
    && (s.statesClosed <==> s.main.WaitingForConsumers? || s.main.Returned?)
    && ((exists p :: 0 <= p < c.jobs && s.producers[p].Finished?) ==> s.rulesClosed && s.ruleChannel == [])
    && (s.statesClosed ==> forall p :: 0 <= p < c.jobs ==> s.producers[p].Finished?)
    && ((exists k :: 0 <= k < c.jobs && s.consumers[k].Stopped?) ==> s.statesClosed && s.stateChannel == [])
    && (s.main.Returned? ==> forall k :: 0 <= k < c.jobs ==> s.consumers[k].Stopped?)
    && (c.jobs == 0 ==> s.ruleChannel == [] && s.stateChannel == [])
    && (s.failed ==> s.aborted)
  }

  lemma MainKeepsPhases(c: Config, s: State)
    requires Phases(c, s) && MainEnabled(c, s)
    ensures Phases(c, MainStep(c, s))
  {}

  lemma ProducerKeepsPhases(c: Config, s: State, p: nat)
    requires Phases(c, s) && ProducerEnabled(c, s, p)
    ensures Phases(c, ProducerStep(c, s, p))
  {
    match s.producers[p]
    case Waiting =>
    case Received(rule) =>
    case Enumerating(rule, n) =>
    case Sending(rule, n) =>
  }

  lemma ConsumerKeepsPhases(c: Config, s: State, k: nat, abort: bool)
    requires Phases(c, s) && ConsumerEnabled(s, k)
    ensures Phases(c, ConsumerStep(s, k, abort))
  {}

  lemma StepKeepsPhases(c: Config, s: State, step: Step)
    requires Phases(c, s) && Enabled(c, s, step)
    ensures Phases(c, Next(c, s, step))
  {
    hide Phases, MainStep, ProducerStep, ConsumerStep;
    match step
    case Advance => MainKeepsPhases(c, s);
    case Produce(p) => ProducerKeepsPhases(c, s, p);
    case Consume(k, abort) => ConsumerKeepsPhases(c, s, k, abort);
  }

  /** No goroutine ever sends on a closed channel. */
  lemma NoSendOnClosedChannel(c: Config, s: State)
    requires Phases(c, s)
    ensures s.statesClosed ==> forall p :: 0 <= p < |s.producers| ==> !s.producers[p].Sending?
    ensures s.rulesClosed ==> !s.main.Feeding?
  {}

  /** With at least one job, or nothing to do, the pipeline can always go on until it returns. */
  lemma Progress(c: Config, s: State)
    requires Phases(c, s) && !s.main.Returned? && (c.jobs >= 1 || c.rules == [])
    ensures exists step :: Enabled(c, s, step)
  {
    if !MainEnabled(c, s) {
      if s.main.WaitingForConsumers? {
        var k :| 0 <= k < |s.consumers| && !s.consumers[k].Stopped?;
        assert Enabled(c, s, Consume(k, false));
      } else {
        var p := if s.main.Feeding? then 0 else var p :| 0 <= p < |s.producers| && !s.producers[p].Finished?; p;
        if s.producers[p].Sending? && |s.stateChannel| >= Capacity(c) {
          assert Enabled(c, s, Consume(0, false));
        } else {
          assert Enabled(c, s, Produce(p));
        }
      }
    } else {
      assert Enabled(c, s, Advance);
    }
  }

  /** Without jobs, the first rule blocks forever; without rules no reachable state is stuck (Progress). */
  lemma NoJobsDeadlock(c: Config)
    requires c.jobs == 0
    ensures (forall step :: !Enabled(c, Init(c), step)) <==> c.rules != []
  {
    if c.rules == [] { assert Enabled(c, Init(c), Advance); }
  }

  // ------------------------------------------------------------------------ sums

  ghost function Sum<T>(s: seq<T>, f: T -> nat): nat { if s == [] then 0 else f(s[0]) + Sum(s[1..], f) }

  lemma {:induction false} SumUpdate<T>(s: seq<T>, i: nat, v: T, f: T -> nat)
    requires i < |s|
    ensures Sum(s[i := v], f) == Sum(s, f) - f(s[i]) + f(v)
  {
    if i > 0 {
      SumUpdate(s[1..], i - 1, v, f);
      assert s[i := v][1..] == s[1..][i - 1 := v];
    } else {
      assert s[i := v][1..] == s[1..];
    }
  }

  lemma {:induction false} SumAppend<T>(s: seq<T>, v: T, f: T -> nat)
    ensures Sum(s + [v], f) == Sum(s, f) + f(v)
  {
    if s == [] {
      assert s + [v] == [v] && [v][1..] == [];
    } else {
      SumAppend(s[1..], v, f);
      assert (s + [v])[1..] == s[1..] + [v];
    }
  }

  lemma {:induction false} SumZero<T>(s: seq<T>, f: T -> nat)
    requires forall i :: 0 <= i < |s| ==> f(s[i]) == 0
    ensures Sum(s, f) == 0
  {
    if s != [] { SumZero(s[1..], f); }
  }

  lemma SumTail<T>(s: seq<T>, f: T -> nat)
    requires s != []
    ensures Sum(s, f) == f(s[0]) + Sum(s[1..], f)
  {}

  // -------------------------------------------------------------- conservation

  /** How often a rule still has to contribute state x, from its candidate n on. */
  ghost function Remaining(rule: Rule, n: nat, x: int): nat
    decreases |rule.candidates| - n
  {
    if n >= |rule.candidates| then 0
    else (if rule.candidates[n].applies && rule.candidates[n].state == x then 1 else 0) + Remaining(rule, n + 1, x)
  }

  lemma RemainingStep(rule: Rule, n: nat, x: int)
    requires n <= |rule.candidates|
    ensures Remaining(rule, n, x) == if n == |rule.candidates| then 0
      else (if rule.candidates[n].applies && rule.candidates[n].state == x then 1 else 0) + Remaining(rule, n + 1, x)
  {}

  /** How often a rule, a channel slot, a producer and a consumer account for state x. */
  ghost function InRule(x: int): Rule -> nat { (rule: Rule) => Remaining(rule, 0, x) }
  ghost function InSlot(x: int): int -> nat { (state: int) => if state == x then 1 else 0 }
  ghost function InConsumer(x: int): Consumer -> nat { (k: Consumer) => if k == Busy(x) then 1 else 0 }
  ghost function InProducer(x: int): Producer -> nat {
    (p: Producer) => match p
      case Received(rule) => Remaining(rule, 0, x)
      case Enumerating(rule, n) => Remaining(rule, n, x)
      case Sending(rule, n) => Remaining(rule, n, x)
      case _ => 0
  }

  /** The rules the main goroutine has not handed out yet. */
  function Unfed(c: Config, s: State): seq<Rule> {
    if s.main.Feeding? && s.main.next <= |c.rules| then c.rules[s.main.next..] else []
  }

  /** Every occurrence of x that was sent is in the channel, being processed, or consumed. */
  ghost predicate SentIsAccountedFor(s: State, x: int) {
    s.sent[x] == Sum(s.stateChannel, InSlot(x)) + Sum(s.consumers, InConsumer(x)) + s.consumed[x]
  }

  /** Unless aborted, what was sent and what is still to come is what the rules enumerate. */
  ghost predicate WorkIsAccountedFor(c: Config, s: State, x: int) {
    !s.aborted ==>
      s.sent[x] + Sum(s.producers, InProducer(x)) + Sum(s.ruleChannel, InRule(x)) + Sum(Unfed(c, s), InRule(x))
        == Sum(c.rules, InRule(x))
  }

  /** How often a rule that fails is in a slot or in the hands of a producer. */
  ghost function FailingRule(): Rule -> nat { (rule: Rule) => if rule.fails then 1 else 0 }
  ghost function FailingProducer(): Producer -> nat {
    (p: Producer) => match p
      case Received(rule) => if rule.fails then 1 else 0
      case Enumerating(rule, _) => if rule.fails then 1 else 0
      case Sending(rule, _) => if rule.fails then 1 else 0
      case _ => 0
  }

  /** Unless aborted, all rules that fail are still to come. */
  ghost predicate FailuresAreAhead(c: Config, s: State) {
    !s.aborted ==>
      Sum(s.producers, FailingProducer()) + Sum(s.ruleChannel, FailingRule()) + Sum(Unfed(c, s), FailingRule()) ==
      Sum(c.rules, FailingRule())
  }

  lemma ProducerKeepsFailures(c: Config, s: State, p: nat)
    requires ProducerEnabled(c, s, p) && FailuresAreAhead(c, s)
    ensures FailuresAreAhead(c, ProducerStep(c, s, p))
  {
    hide Sum;
    var producer := s.producers[p];
    SumUpdate(s.producers, p, NextProducer(s, producer), FailingProducer());
    if producer.Waiting? && s.ruleChannel != [] { SumTail(s.ruleChannel, FailingRule()); }
  }

  lemma MainKeepsFailures(c: Config, s: State)
    requires MainEnabled(c, s) && FailuresAreAhead(c, s)
    ensures FailuresAreAhead(c, MainStep(c, s))
  {
    if s.main.Feeding? && s.main.next < |c.rules| {
      SumAppend(s.ruleChannel, c.rules[s.main.next], FailingRule());
      assert c.rules[s.main.next..][1..] == c.rules[s.main.next + 1..];
    }
  }

  lemma StepKeepsFailures(c: Config, s: State, step: Step)
    requires FailuresAreAhead(c, s) && Enabled(c, s, step)
    ensures FailuresAreAhead(c, Next(c, s, step))
  {
    match step
    case Advance => MainKeepsFailures(c, s);
    case Produce(p) => ProducerKeepsFailures(c, s, p);
    case Consume(k, abort) =>
  }

  lemma ConsumerConserves(c: Config, s: State, k: nat, abort: bool, x: int)
    requires ConsumerEnabled(s, k) && SentIsAccountedFor(s, x) && WorkIsAccountedFor(c, s, x)
    ensures SentIsAccountedFor(ConsumerStep(s, k, abort), x) && WorkIsAccountedFor(c, ConsumerStep(s, k, abort), x)
  {
    hide Sum;
    SumUpdate(s.consumers, k, ConsumerStep(s, k, abort).consumers[k], InConsumer(x));
    if s.stateChannel != [] { SumTail(s.stateChannel, InSlot(x)); }
  }

  lemma ProducerConservesSent(c: Config, s: State, p: nat, x: int)
    requires ProducerEnabled(c, s, p) && SentIsAccountedFor(s, x)
    ensures SentIsAccountedFor(ProducerStep(c, s, p), x)
  {
    hide Sum, NextProducer;
    if s.producers[p].Sending? {
      SumAppend(s.stateChannel, s.producers[p].rule.candidates[s.producers[p].next].state, InSlot(x));
    }
  }

  lemma ProducerConservesWork(c: Config, s: State, p: nat, x: int)
    requires ProducerEnabled(c, s, p) && ProducerOk(s.producers[p]) && WorkIsAccountedFor(c, s, x)
    ensures WorkIsAccountedFor(c, ProducerStep(c, s, p), x)
  {
    hide Sum, Remaining;
    var producer := s.producers[p];
    SumUpdate(s.producers, p, NextProducer(s, producer), InProducer(x));
    match producer
    case Waiting =>
      if s.ruleChannel != [] { SumTail(s.ruleChannel, InRule(x)); }
    case Received(rule) =>
    case Enumerating(rule, n) => RemainingStep(rule, n, x);
    case Sending(rule, n) => RemainingStep(rule, n, x);
  }

  lemma MainConserves(c: Config, s: State, x: int)
    requires MainEnabled(c, s) && SentIsAccountedFor(s, x) && WorkIsAccountedFor(c, s, x)
    ensures SentIsAccountedFor(MainStep(c, s), x) && WorkIsAccountedFor(c, MainStep(c, s), x)
  {
    if s.main.Feeding? && s.main.next < |c.rules| {
      SumAppend(s.ruleChannel, c.rules[s.main.next], InRule(x));
      assert c.rules[s.main.next..][1..] == c.rules[s.main.next + 1..];
    }
  }

  ghost predicate Invariant(c: Config, s: State) {
    Phases(c, s) && FailuresAreAhead(c, s) && forall x :: SentIsAccountedFor(s, x) && WorkIsAccountedFor(c, s, x)
  }

  lemma StepKeepsInvariant(c: Config, s: State, step: Step)
    requires Invariant(c, s) && Enabled(c, s, step)
    ensures Invariant(c, Next(c, s, step))
  {
    StepKeepsPhases(c, s, step);
    StepKeepsFailures(c, s, step);
    hide FailuresAreAhead, MainStep, ProducerStep, ConsumerStep, SentIsAccountedFor, WorkIsAccountedFor;
    forall x ensures SentIsAccountedFor(Next(c, s, step), x) && WorkIsAccountedFor(c, Next(c, s, step), x) {
      match step
      case Advance => MainConserves(c, s, x);
      case Produce(p) => ProducerConservesSent(c, s, p, x); ProducerConservesWork(c, s, p, x);
      case Consume(k, abort) => ConsumerConserves(c, s, k, abort, x);
    }
  }

  // --------------------------------------------------------------- termination

  /** How many steps the rest of an enumeration can take, those of its states included. */
  function EnumerationWeight(rule: Rule, n: nat): nat {
    if n <= |rule.candidates| then 4 * (|rule.candidates| - n) + 1 else 0
  }

  ghost function RuleWeight(): Rule -> nat { (rule: Rule) => 2 + EnumerationWeight(rule, 0) }
  ghost function ConsumerWeight(): Consumer -> nat { (k: Consumer) => if k.Busy? then 2 else if k.Ready? then 1 else 0 }
  ghost function ProducerWeight(): Producer -> nat {
    (p: Producer) => match p
      case Waiting => 1
      case Received(rule) => 2 + EnumerationWeight(rule, 0)
      case Enumerating(rule, n) => 1 + EnumerationWeight(rule, n)
      case Sending(rule, n) => EnumerationWeight(rule, n)
      case Finished => 0
  }

  function MainWeight(m: Main): nat {
    match m
    case Feeding(_) => 3
    case WaitingForProducers => 2
    case WaitingForConsumers => 1
    case Returned => 0
  }

  /** An upper bound for the number of steps still to come. */
  ghost function Measure(c: Config, s: State): nat {
    MainWeight(s.main) + |Unfed(c, s)| + Sum(Unfed(c, s), RuleWeight()) + Sum(s.ruleChannel, RuleWeight())
    + Sum(s.producers, ProducerWeight()) + 2 * |s.stateChannel| + Sum(s.consumers, ConsumerWeight())
  }

  lemma MainDecreasesMeasure(c: Config, s: State)
    requires MainEnabled(c, s)
    ensures Measure(c, MainStep(c, s)) < Measure(c, s)
  {
    if s.main.Feeding? && s.main.next < |c.rules| {
      SumAppend(s.ruleChannel, c.rules[s.main.next], RuleWeight());
      assert c.rules[s.main.next..][1..] == c.rules[s.main.next + 1..];
    }
  }

  /**
   * A producer gets closer to its end by more than what it adds to the state channel or takes from
   * the rule channel.
   */
  lemma ProducerWeightDrops(c: Config, s: State, p: nat)
    requires ProducerEnabled(c, s, p)
    ensures var producer := s.producers[p];
      ProducerWeight()(NextProducer(s, producer)) + (if producer.Sending? then 2 else 0)
      < ProducerWeight()(producer)
        + (if producer.Waiting? && s.ruleChannel != [] then RuleWeight()(s.ruleChannel[0]) else 0)
  {}

  lemma ProducerDecreasesMeasure(c: Config, s: State, p: nat)
    requires ProducerEnabled(c, s, p)
    ensures Measure(c, ProducerStep(c, s, p)) < Measure(c, s)
  {
    hide Sum, EnumerationWeight, ProducerWeight, RuleWeight, NextProducer;
    ProducerWeightDrops(c, s, p);
    SumUpdate(s.producers, p, NextProducer(s, s.producers[p]), ProducerWeight());
    if s.ruleChannel != [] { SumTail(s.ruleChannel, RuleWeight()); }
  }

  lemma ConsumerDecreasesMeasure(c: Config, s: State, k: nat, abort: bool)
    requires ConsumerEnabled(s, k)
    ensures Measure(c, ConsumerStep(s, k, abort)) < Measure(c, s)
  {
    SumUpdate(s.consumers, k, ConsumerStep(s, k, abort).consumers[k], ConsumerWeight());
  }

  /** Whatever the schedule, every step brings the end closer. */
  lemma StepDecreasesMeasure(c: Config, s: State, step: Step)
    requires Enabled(c, s, step)
    ensures Measure(c, Next(c, s, step)) < Measure(c, s)
  {
    hide Measure, MainStep, ProducerStep, ConsumerStep;
    match step
    case Advance => MainDecreasesMeasure(c, s);
    case Produce(p) => ProducerDecreasesMeasure(c, s, p);
    case Consume(k, abort) => ConsumerDecreasesMeasure(c, s, k, abort);
  }

  // ----------------------------------------------------------------------- runs

  ghost predicate IsRun(c: Config, run: seq<State>, steps: seq<Step>) {
    && |run| == |steps| + 1 && run[0] == Init(c)
    && forall i :: 0 <= i < |steps| ==> Enabled(c, run[i], steps[i]) && run[i + 1] == Next(c, run[i], steps[i])
  }

  lemma InitInvariant(c: Config)
    ensures Invariant(c, Init(c))
  {
    assert Phases(c, Init(c));
    assert FailuresAreAhead(c, Init(c)) by {
      SumZero(Init(c).producers, FailingProducer());
      assert c.rules[0..] == c.rules;
    }
    forall x ensures SentIsAccountedFor(Init(c), x) && WorkIsAccountedFor(c, Init(c), x) {
      SumZero(Init(c).producers, InProducer(x));
      SumZero(Init(c).consumers, InConsumer(x));
      assert c.rules[0..] == c.rules;
    }
  }

  /** Every reachable state satisfies the invariant, and no run is longer than the measure of its start. */
  lemma {:induction false} ReachableInvariant(c: Config, run: seq<State>, steps: seq<Step>, n: nat)
    requires IsRun(c, run, steps) && n < |run|
    ensures Invariant(c, run[n]) && n + Measure(c, run[n]) <= Measure(c, Init(c))
  {
    hide Invariant, Measure, Next;
    if n == 0 {
      InitInvariant(c);
    } else {
      ReachableInvariant(c, run, steps, n - 1);
      assert run[n - 1 + 1] == Next(c, run[n - 1], steps[n - 1]);
      StepKeepsInvariant(c, run[n - 1], steps[n - 1]);
      StepDecreasesMeasure(c, run[n - 1], steps[n - 1]);
    }
  }

  lemma SameMultiset(a: multiset<int>, b: multiset<int>)
    requires forall x :: a[x] == b[x]
    ensures a == b
  {
    assert forall x: int :: a[x] == b[x];
    assert a <= b && b <= a;
  }

  /** A state in which the call has returned: everybody is done and the channels are drained. */
  lemma ReturnedState(c: Config, s: State, x: int)
    requires Invariant(c, s) && s.main.Returned?
    ensures s.consumed[x] == s.sent[x]
    ensures !s.aborted ==> s.consumed[x] == Sum(c.rules, InRule(x))
  {
    assert c.jobs >= 1 ==> s.producers[0].Finished? && s.consumers[0].Stopped?;
    assert s.stateChannel == [] && s.ruleChannel == [];
    SumZero(s.producers, InProducer(x));
    SumZero(s.consumers, InConsumer(x));
    assert SentIsAccountedFor(s, x) && WorkIsAccountedFor(c, s, x);
  }

  // ------------------------------------------------------------ errors and aborts

  /** A step in which an enumeration comes to its end and fails. */
  predicate EnumerationFails(s: State, step: Step) {
    && step.Produce? && step.producer < |s.producers|
    && match s.producers[step.producer]
       case Enumerating(rule, n) => n == |rule.candidates| && rule.fails
       case _ => false
  }

  /** A step in which a consumer asks to abort. */
  predicate ConsumerAborts(s: State, step: Step) {
    step.Consume? && step.abort && step.consumer < |s.consumers| && s.consumers[step.consumer].Busy?
  }

  ghost predicate SomeFailure(run: seq<State>, steps: seq<Step>, n: nat) {
    exists i :: 0 <= i < n && i < |steps| && i < |run| && EnumerationFails(run[i], steps[i])
  }

  ghost predicate SomeAbort(run: seq<State>, steps: seq<Step>, n: nat) {
    exists i :: 0 <= i < n && i < |steps| && i < |run| && ConsumerAborts(run[i], steps[i])
  }

  lemma FlagsStep(c: Config, s: State, step: Step)
    requires Enabled(c, s, step)
    ensures Next(c, s, step).failed <==> s.failed || EnumerationFails(s, step)
    ensures Next(c, s, step).aborted <==> s.aborted || EnumerationFails(s, step) || ConsumerAborts(s, step)
  {}

  lemma EventsStep(run: seq<State>, steps: seq<Step>, n: nat)
    requires 0 < n <= |steps| && n < |run|
    ensures SomeFailure(run, steps, n) <==> SomeFailure(run, steps, n - 1) || EnumerationFails(run[n - 1], steps[n - 1])
    ensures SomeAbort(run, steps, n) <==> SomeAbort(run, steps, n - 1) || ConsumerAborts(run[n - 1], steps[n - 1])
  {}

  /** The two flags say what has happened: an error is returned exactly if an enumeration has failed. */
  lemma {:induction false} FlagsRecordEvents(c: Config, run: seq<State>, steps: seq<Step>, n: nat)
    requires IsRun(c, run, steps) && n < |run|
    ensures run[n].failed <==> SomeFailure(run, steps, n)
    ensures run[n].aborted <==> SomeFailure(run, steps, n) || SomeAbort(run, steps, n)
  {
    if n > 0 {
      FlagsRecordEvents(c, run, steps, n - 1);
      hide SomeFailure, SomeAbort, EnumerationFails, ConsumerAborts, Next, Enabled;
      assert Enabled(c, run[n - 1], steps[n - 1]) && run[n - 1 + 1] == Next(c, run[n - 1], steps[n - 1]);
      FlagsStep(c, run[n - 1], steps[n - 1]);
      EventsStep(run, steps, n);
    }
  }

  /** A call that returns unaborted has seen no rule that fails. */
  lemma {:induction false} NoFailingRule(rules: seq<Rule>)
    requires Sum(rules, FailingRule()) == 0
    ensures forall i :: 0 <= i < |rules| ==> !rules[i].fails
  {
    if rules != [] {
      NoFailingRule(rules[1..]);
      forall i | 0 <= i < |rules| ensures !rules[i].fails {
        if i > 0 { assert rules[i] == rules[1..][i - 1]; }
      }
    }
  }

  lemma ReturnedWithoutFailure(c: Config, s: State)
    requires Invariant(c, s) && s.main.Returned? && !s.aborted
    ensures forall i :: 0 <= i < |c.rules| ==> !c.rules[i].fails
  {
    assert c.jobs >= 1 ==> s.producers[0].Finished?;
    assert s.ruleChannel == [];
    SumZero(s.producers, FailingProducer());
    NoFailingRule(c.rules);
  }

  /**
   * The answer of the call: it is an error exactly if an enumeration failed, and if some rule fails
   * and no consumer aborts, that is what happens.
   */
  lemma ErrorsAreReported(c: Config, run: seq<State>, steps: seq<Step>)
    requires IsRun(c, run, steps) && run[|steps|].main.Returned?
    ensures run[|steps|].failed <==> SomeFailure(run, steps, |steps|)
    ensures run[|steps|].aborted <==> SomeFailure(run, steps, |steps|) || SomeAbort(run, steps, |steps|)
    ensures !SomeAbort(run, steps, |steps|) ==>
      (run[|steps|].failed <==> exists i :: 0 <= i < |c.rules| && c.rules[i].fails)
  {
    var n := |steps|;
    FlagsRecordEvents(c, run, steps, n);
    ReachableInvariant(c, run, steps, n);
    if !run[n].aborted { ReturnedWithoutFailure(c, run[n]); }
    if run[n].failed {
      var i :| 0 <= i < n && i < |steps| && i < |run| && EnumerationFails(run[i], steps[i]);
      FailingRuleIsGiven(c, run, steps, i, steps[i].producer);
    }
  }

  // ---------------------------------------------------------------- given rules

  /** Rules come from the list handed to the call. */
  ghost predicate RulesAreGiven(c: Config, s: State) {
    && (forall i :: 0 <= i < |s.ruleChannel| ==> s.ruleChannel[i] in c.rules)
    && (forall p :: 0 <= p < |s.producers| ==> HoldsGivenRule(c, s.producers[p]))
  }

  ghost predicate HoldsGivenRule(c: Config, p: Producer) {
    p.Received? || p.Enumerating? || p.Sending? ==> p.rule in c.rules
  }

  lemma StepKeepsRules(c: Config, s: State, step: Step)
    requires RulesAreGiven(c, s) && Enabled(c, s, step)
    ensures RulesAreGiven(c, Next(c, s, step))
  {
    match step
    case Advance =>
    case Produce(p) => ProducerKeepsRules(c, s, p);
    case Consume(k, abort) =>
  }

  lemma ProducerKeepsRules(c: Config, s: State, p: nat)
    requires RulesAreGiven(c, s) && ProducerEnabled(c, s, p)
    ensures RulesAreGiven(c, ProducerStep(c, s, p))
  {
    var t := ProducerStep(c, s, p);
    assert HoldsGivenRule(c, s.producers[p]);
    assert HoldsGivenRule(c, NextProducer(s, s.producers[p])) by {
      if s.producers[p].Waiting? && s.ruleChannel != [] { assert s.ruleChannel[0] in c.rules; }
    }
    assert t.producers == s.producers[p := NextProducer(s, s.producers[p])];
    assert t.ruleChannel == s.ruleChannel || (s.ruleChannel != [] && t.ruleChannel == s.ruleChannel[1..])
      || t.ruleChannel == [];
    hide HoldsGivenRule, NextProducer, ProducerStep;
  }

  lemma {:induction false} RulesStayGiven(c: Config, run: seq<State>, steps: seq<Step>, n: nat)
    requires IsRun(c, run, steps) && n < |run|
    ensures RulesAreGiven(c, run[n])
  {
    if n > 0 {
      RulesStayGiven(c, run, steps, n - 1);
      hide RulesAreGiven, Next, Enabled;
      assert Enabled(c, run[n - 1], steps[n - 1]) && run[n - 1 + 1] == Next(c, run[n - 1], steps[n - 1]);
      StepKeepsRules(c, run[n - 1], steps[n - 1]);
    }
  }

  lemma FailingRuleIsGiven(c: Config, run: seq<State>, steps: seq<Step>, i: nat, p: nat)
    requires IsRun(c, run, steps) && i < |steps| && EnumerationFails(run[i], steps[i]) && p == steps[i].producer
    ensures exists k :: 0 <= k < |c.rules| && c.rules[k].fails
  {
    RulesStayGiven(c, run, steps, i);
    var rule := run[i].producers[p].rule;
    assert rule in c.rules;
    var k :| 0 <= k < |c.rules| && c.rules[k] == rule;
  }

  // ------------------------------------------------------------- after an abort

  ghost function IsSending(): Producer -> nat { (p: Producer) => if p.Sending? then 1 else 0 }
  ghost function IsEnumerating(): Producer -> nat { (p: Producer) => if p.Sending? || p.Enumerating? then 1 else 0 }

  /** Once aborted, a step sends at most what was already on its way, and no enumeration begins. */
  lemma AbortedStep(c: Config, s: State, step: Step)
    requires s.aborted && Enabled(c, s, step)
    ensures var t := Next(c, s, step);
      && t.aborted && |t.producers| == |s.producers|
      && |t.sent| + Sum(t.producers, IsSending()) <= |s.sent| + Sum(s.producers, IsSending())
      && Sum(t.producers, IsEnumerating()) <= Sum(s.producers, IsEnumerating())
  {
    hide Sum;
    if step.Produce? {
      var p := step.producer;
      SumUpdate(s.producers, p, NextProducer(s, s.producers[p]), IsSending());
      SumUpdate(s.producers, p, NextProducer(s, s.producers[p]), IsEnumerating());
    }
  }

  lemma {:induction false} SendingBound(producers: seq<Producer>)
    ensures Sum(producers, IsSending()) <= |producers|
  {
    if producers != [] { SendingBound(producers[1..]); }
  }

  /** After an abort at most one more state per job is sent, however the run goes on. */
  lemma {:induction false} AbortStopsSending(c: Config, run: seq<State>, steps: seq<Step>, n: nat, m: nat)
    requires IsRun(c, run, steps) && n <= m < |run| && run[n].aborted
    ensures run[m].aborted && |run[m].sent| + Sum(run[m].producers, IsSending()) <= |run[n].sent|
      + Sum(run[n].producers, IsSending())
    ensures Sum(run[m].producers, IsEnumerating()) <= Sum(run[n].producers, IsEnumerating())
    ensures |run[m].sent| <= |run[n].sent| + c.jobs
    decreases m - n
  {
    hide Next, Enabled, Sum, Phases;
    ReachableInvariant(c, run, steps, n);
    JobCount(c, run[n]);
    SendingBound(run[n].producers);
    if n < m {
      AbortStopsSending(c, run, steps, n, m - 1);
      assert Enabled(c, run[m - 1], steps[m - 1]) && run[m - 1 + 1] == Next(c, run[m - 1], steps[m - 1]);
      AbortedStep(c, run[m - 1], steps[m - 1]);
    }
  }

  lemma JobCount(c: Config, s: State)
    requires Phases(c, s)
    ensures |s.producers| == c.jobs
  {}

  // ------------------------------------------------------------------ the pipeline

  /**
   * The pipeline. In any schedule, with at least one job or no rule: no send hits a closed channel, some step
   * is possible until the call returns, and it does return, after a bounded number of steps. Then
   * every state sent has been consumed exactly once, and if nothing was aborted every state was
   * consumed exactly as often as the rules enumerate it.
   */
  lemma PipelineCorrect(c: Config, run: seq<State>, steps: seq<Step>)
    requires IsRun(c, run, steps) && (c.jobs >= 1 || c.rules == [])
    ensures |steps| <= Measure(c, Init(c))
    ensures var s := run[|steps|];
      && (s.statesClosed ==> forall p :: 0 <= p < |s.producers| ==> !s.producers[p].Sending?)
      && (s.rulesClosed ==> !s.main.Feeding?)
      && (s.main.Returned? || exists step :: Enabled(c, s, step))
      && (s.main.Returned? ==> s.consumed == s.sent)
      && (s.main.Returned? && !s.aborted ==> forall x :: s.consumed[x] == Sum(c.rules, InRule(x)))
  {
    hide Enabled, Measure, Next;
    var s := run[|steps|];
    ReachableInvariant(c, run, steps, |steps|);
    NoSendOnClosedChannel(c, s);
    hide Phases;
    if s.main.Returned? {
      forall x
        ensures s.consumed[x] == s.sent[x]
        ensures !s.aborted ==> s.consumed[x] == Sum(c.rules, InRule(x))
      {
        ReturnedState(c, s, x);
      }
      SameMultiset(s.consumed, s.sent);
    } else {
      Progress(c, s);
    }
  }
}
