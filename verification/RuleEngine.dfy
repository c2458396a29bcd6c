/**
 * The rule engine of the conformance tests: conditions (go/ct/rlz/conditions.go), the rules an
 * instruction gives rise to (rulesFor in go/ct/spc/specification.go) and the lookup of rules by
 * opcode (go/ct/spc/specification_map.go).
 */
module RuleEngine {
  import opened Evm
  import opened CodeScan

  datatype Status = Running | Stopped | Reverted | Failed

  /** The program counter of a test state is a uint16. */
  type Pc = x: int | 0 <= x < 0x1_0000

  /** The part of a test state that the conditions modelled here look at. */
  datatype State = State(status: Status, revision: Revision, pc: Pc, gas: nat, stack: seq<Word>, code: seq<Byte>)

  /** The two results of Check: a verdict, or an error (which goes with the verdict false). */
  datatype Verdict = Holds | DoesNotHold | Error

  function ToVerdict(b: bool): Verdict { if b then Holds else DoesNotHold }

  const MAX_INT: nat := 0x7FFF_FFFF_FFFF_FFFF

  /**
   * Conditions. Other stands for any condition on parts of the state that are not modelled; it
   * neither mentions the opcode at the program counter nor restricts the revision.
   */
  datatype Condition =
    | And(conditions: seq<Condition>)
    | StatusIs(status: Status)
    | OpAtPc(op: Byte)
    | IsCodeAtPc
    | IsDataAtPc
    | OpAtParam(param: nat, op: Byte)
    | OpAtParamIsNot(param: nat, op: Byte)
    | IsCodeAtParam(param: nat)
    | IsDataAtParam(param: nat)
    | ParamIs(param: nat, value: Word)
    | ParamIsNot(param: nat, value: Word)
    | GasBelow(amount: int)
    | GasAtLeast(amount: int)
    | StackBelow(size: int)
    | StackAtLeast(size: int)
    | StackAtMost(size: int)
    | RevisionBounds(min: Revision, max: Revision)
    | Other(check: State -> Verdict)

  /** Op(position): positions beyond the range of int read as STOP, positions in push data are errors. */
  function Op(s: State, pos: nat): Option<Byte> { if pos > MAX_INT then Some(STOP) else GetOperation(s.code, pos) }

  function Check(c: Condition, s: State): Verdict {
    match c
    case And(cs) => CheckAll(cs, s)
    case StatusIs(status) => ToVerdict(s.status == status)
    case OpAtPc(op) => if Op(s, s.pc).None? then Error else ToVerdict(Op(s, s.pc).value == op)
    case IsCodeAtPc => ToVerdict(IsCode(s.code, s.pc))
    case IsDataAtPc => ToVerdict(!IsCode(s.code, s.pc))
    case OpAtParam(i, op) => if i >= |s.stack| || Op(s, s.stack[i]).None? then Error
      else ToVerdict(Op(s, s.stack[i]).value == op)
    case OpAtParamIsNot(i, op) => if i >= |s.stack| || Op(s, s.stack[i]).None? then Error
      else ToVerdict(Op(s, s.stack[i]).value != op)
    case IsCodeAtParam(i) => if i >= |s.stack| then Error
      else ToVerdict(s.stack[i] > MAX_INT || IsCode(s.code, s.stack[i]))
    case IsDataAtParam(i) => if i >= |s.stack| then Error
      else ToVerdict(!(s.stack[i] > MAX_INT || IsCode(s.code, s.stack[i])))
    case ParamIs(i, v) => if i >= |s.stack| then Error else ToVerdict(s.stack[i] == v)
    case ParamIsNot(i, v) => if i >= |s.stack| then Error else ToVerdict(s.stack[i] != v)
    case GasBelow(n) => ToVerdict(s.gas < n)
    case GasAtLeast(n) => ToVerdict(s.gas >= n)
    case StackBelow(n) => ToVerdict(|s.stack| < n)
    case StackAtLeast(n) => ToVerdict(|s.stack| >= n)
    case StackAtMost(n) => ToVerdict(|s.stack| <= n)
    case RevisionBounds(min, max) => ToVerdict(min <= s.revision <= max)
    case Other(check) => check(s)
  }

  /** conjunction.Check: stops at the first condition that does not hold. */
  function CheckAll(cs: seq<Condition>, s: State): Verdict {
    if cs == [] then Holds else if Check(cs[0], s) != Holds then Check(cs[0], s) else CheckAll(cs[1..], s)
  }

  lemma {:induction false} CheckAllHolds(cs: seq<Condition>, s: State)
    ensures CheckAll(cs, s) == Holds <==> forall c :: c in cs ==> Check(c, s) == Holds
  {
    if cs != [] {
      CheckAllHolds(cs[1..], s);
      if CheckAll(cs, s) == Holds {
        forall c | c in cs ensures Check(c, s) == Holds {
          assert c == cs[0] || c in cs[1..];
        }
      } else {
        assert cs[0] in cs && forall c :: c in cs[1..] ==> c in cs;
      }
    }
  }

  lemma CheckAllAppend(a: seq<Condition>, b: seq<Condition>, s: State)
    ensures CheckAll(a + b, s) == Holds <==> CheckAll(a, s) == Holds && CheckAll(b, s) == Holds
  {
    CheckAllHolds(a, s);
    CheckAllHolds(b, s);
    CheckAllHolds(a + b, s);
    assert forall c :: c in a + b <==> c in a || c in b;
  }

  // ------------------------------------------------------------ rules by opcode

  /** A rule; regular tells the rule for the normal behaviour from those for failures. */
  datatype Rule = Rule(condition: Condition, regular: bool)

  predicate Applies(rule: Rule, s: State) { Check(rule.condition, s) == Holds }

  /** ruleToOpString: the first opcode at the program counter that the text of the condition mentions. */
  function OpOf(c: Condition): Option<Byte> {
    match c
    case And(cs) => FirstOpOf(cs)
    case OpAtPc(op) => Some(op)
    case _ => None
  }

  function FirstOpOf(cs: seq<Condition>): Option<Byte> {
    if cs == [] then None else if OpOf(cs[0]).Some? then OpOf(cs[0]) else FirstOpOf(cs[1..])
  }

  /** The key GetRulesFor looks a state up with; None is "noOp". */
  function KeyOf(s: State): Option<Byte> {
    if GetOperation(s.code, s.pc).None? || s.revision == UNKNOWN_NEXT || s.status != Status.Running then None
    else GetOperation(s.code, s.pc)
  }

  /** A rule applies only in states that look it up. */
  ghost predicate Separated(rule: Rule) { forall s: State :: Applies(rule, s) ==> KeyOf(s) == OpOf(rule.condition) }

  /** The specification without an index: all rules, filtered. */
  function Applicable(rules: seq<Rule>, s: State): seq<Rule> {
    if rules == [] then [] else (if Applies(rules[0], s) then [rules[0]] else []) + Applicable(rules[1..], s)
  }

  lemma ApplicableStep(rules: seq<Rule>, s: State)
    requires rules != []
    ensures Applicable(rules, s) == (if Applies(rules[0], s) then [rules[0]] else []) + Applicable(rules[1..], s)
  {}

  lemma {:induction false} ApplicableAppend(a: seq<Rule>, b: seq<Rule>, s: State)
    ensures Applicable(a + b, s) == Applicable(a, s) + Applicable(b, s)
  {
    if a == [] {
      assert a + b == b;
    } else {
      hide Applicable, Applies;
      var all := a + b;
      assert all[0] == a[0] && all[1..] == a[1..] + b;
      ApplicableAppend(a[1..], b, s);
      ApplicableStep(a, s);
      ApplicableStep(all, s);
    }
  }

  function WithKey(rules: seq<Rule>, key: Option<Byte>): seq<Rule> {
    if rules == [] then [] else (if OpOf(rules[0].condition) == key then [rules[0]] else []) + WithKey(rules[1..], key)
  }

  lemma WithKeyStep(rules: seq<Rule>, key: Option<Byte>)
    requires rules != []
    ensures WithKey(rules, key) == (if OpOf(rules[0].condition) == key then [rules[0]] else [])
      + WithKey(rules[1..], key)
  {}

  lemma {:induction false} WithKeyAppend(rules: seq<Rule>, rule: Rule, key: Option<Byte>)
    ensures WithKey(rules + [rule], key) == WithKey(rules, key) + if OpOf(rule.condition) == key then [rule] else []
  {
    var all := rules + [rule];
    WithKeyStep(all, key);
    if rules == [] {
      hide OpOf;
      assert all == [rule] && all[1..] == [];
    } else {
      hide OpOf, WithKey;
      assert all[0] == rules[0] && all[1..] == rules[1..] + [rule];
      WithKeyAppend(rules[1..], rule, key);
      WithKeyStep(rules, key);
    }
  }

  /** For separated rules it is enough to look at those with the key of the state. */
  lemma {:induction false} LookupFindsAll(rules: seq<Rule>, s: State)
    requires forall i :: 0 <= i < |rules| ==> Separated(rules[i])
    ensures Applicable(WithKey(rules, KeyOf(s)), s) == Applicable(rules, s)
  {
    if rules != [] {
      hide Applies, OpOf, KeyOf;
      LookupFindsAll(rules[1..], s);
      var first := if OpOf(rules[0].condition) == KeyOf(s) then [rules[0]] else [];
      ApplicableAppend(first, WithKey(rules[1..], KeyOf(s)), s);
      assert Separated(rules[0]);
    }
  }

  type Index = map<Option<Byte>, seq<Rule>>

  /** The rules an index holds for a key; absent keys have none. */
  function Bucket(index: Index, key: Option<Byte>): seq<Rule> { if key in index then index[key] else [] }

  ghost predicate Indexes(index: Index, rules: seq<Rule>) { forall key :: Bucket(index, key) == WithKey(rules, key) }

  lemma IndexAppend(index: Index, rules: seq<Rule>, rule: Rule)
    requires Indexes(index, rules)
    ensures Indexes(index[OpOf(rule.condition) := Bucket(index, OpOf(rule.condition)) + [rule]], rules + [rule])
  {
    hide OpOf, WithKey;
    var op := OpOf(rule.condition);
    var updated := index[op := Bucket(index, op) + [rule]];
    forall key ensures Bucket(updated, key) == WithKey(rules + [rule], key) {
      WithKeyAppend(rules, rule, key);
    }
  }

  /** specificationMap: rules by opcode, in their original order. */
  class SpecificationMap {
    var rules: Index
    ghost var all: seq<Rule>

    ghost predicate Valid()
      reads this
    {
      Indexes(rules, all)
    }

    constructor (list: seq<Rule>)
      ensures Valid() && all == list
    {
      var spec: Index := map[];
      for i := 0 to |list|
        invariant Indexes(spec, list[..i])
      {
        assert list[..i + 1] == list[..i] + [list[i]];
        var op := OpOf(list[i].condition);
        IndexAppend(spec, list[..i], list[i]);
        spec := spec[op := Bucket(spec, op) + [list[i]]];
      }
      assert list[..|list|] == list;
      rules, all := spec, list;
    }

    /** GetRulesFor returns what filtering the whole specification returns, in the same order. */
    method GetRulesFor(s: State) returns (result: seq<Rule>)
      requires Valid() && forall i :: 0 <= i < |all| ==> Separated(all[i])
      ensures result == Applicable(all, s)
    {
      var key := KeyOf(s);
      var candidates := Bucket(rules, key);
      result := [];
      for i := 0 to |candidates|
        invariant result == Applicable(candidates[..i], s)
      {
        ApplicableAppend(candidates[..i], [candidates[i]], s);
        assert candidates[..i + 1] == candidates[..i] + [candidates[i]];
        assert [candidates[i]][1..] == [];
        if Check(candidates[i].condition, s) == Holds {
          result := result + [candidates[i]];
        }
      }
      assert candidates[..|candidates|] == candidates;
      LookupFindsAll(all, s);
    }
  }

  // ------------------------------------------------------------------ rulesFor

  const MIN_REVISION: Revision := ISTANBUL
  const NEWEST_REVISION: Revision := OSAKA

  function AnyKnownRevision(): Condition { RevisionBounds(MIN_REVISION, NEWEST_REVISION) }

  datatype Instruction = Instruction(op: Byte, staticGas: int, pops: nat, pushes: nat, conditions: seq<Condition>)

  function TooLittleGas(i: Instruction): Rule {
    Rule(And(i.conditions + [AnyKnownRevision(), StatusIs(Status.Running), OpAtPc(i.op), IsCodeAtPc,
                             GasBelow(i.staticGas)]), false)
  }

  function NotEnoughSpace(i: Instruction): Rule {
    Rule(And(i.conditions + [AnyKnownRevision(), StatusIs(Status.Running), OpAtPc(i.op), IsCodeAtPc,
                             StackAtLeast(STACK_LIMIT)]), false)
  }

  function TooFewElements(i: Instruction): Rule {
    Rule(And([AnyKnownRevision(), StatusIs(Status.Running), OpAtPc(i.op), IsCodeAtPc, StackBelow(i.pops)]), false)
  }

  predicate HasRevisionCondition(cs: seq<Condition>) { exists k :: 0 <= k < |cs| && cs[k].RevisionBounds? }

  function Regular(i: Instruction): Rule {
    Rule(And(i.conditions
             + [StatusIs(Status.Running), OpAtPc(i.op), GasAtLeast(i.staticGas), StackAtLeast(i.pops),
                StackAtMost(STACK_LIMIT - Max(i.pushes - i.pops, 0))]
             + if HasRevisionCondition(i.conditions) then [] else [AnyKnownRevision()]), true)
  }

  function RulesFor(i: Instruction): seq<Rule> {
    (if i.staticGas > 0 then [TooLittleGas(i)] else [])
    + (if i.pops > 0 then [TooFewElements(i)] else [])
    + (if i.pushes > i.pops then [NotEnoughSpace(i)] else [])
    + [Regular(i)]
  }

  /** A state in which an instruction is about to be executed under a revision the rules cover. */
  predicate Executing(s: State, op: Byte) {
    s.status == Status.Running && MIN_REVISION <= s.revision <= NEWEST_REVISION
      && GetOperation(s.code, s.pc) == Some(op) && |s.stack| <= STACK_LIMIT
  }

  /** When the rules of an instruction apply while it is about to be executed. */
  lemma RulesForApplicability(i: Instruction, s: State)
    requires Executing(s, i.op)
    ensures var ok := CheckAll(i.conditions, s) == Holds;
      && (Applies(TooLittleGas(i), s) <==> ok && s.gas < i.staticGas)
      && (Applies(TooFewElements(i), s) <==> |s.stack| < i.pops)
      && (Applies(NotEnoughSpace(i), s) <==> ok && |s.stack| == STACK_LIMIT)
      && (Applies(Regular(i), s) <==>
          ok && s.gas >= i.staticGas && i.pops <= |s.stack| <= STACK_LIMIT - Max(i.pushes - i.pops, 0))
  {
    CommonConditionsHold(i, s);
    hide Check, CheckAll;
    FailureApplicability(i.conditions, i.op, GasBelow(i.staticGas), s);
    FailureApplicability(i.conditions, i.op, StackAtLeast(STACK_LIMIT), s);
    FailureApplicability([], i.op, StackBelow(i.pops), s);
    NoConditions(s);
    var few := [AnyKnownRevision(), StatusIs(Status.Running), OpAtPc(i.op), IsCodeAtPc, StackBelow(i.pops)];
    assert [] + few == few;
    RegularApplicability(i, s);
  }

  lemma NoConditions(s: State)
    ensures CheckAll([], s) == Holds
  {}

  /** The conditions that tell the failure rules of an instruction apart. */
  lemma CommonConditionsHold(i: Instruction, s: State)
    ensures Check(GasBelow(i.staticGas), s) == Holds <==> s.gas < i.staticGas
    ensures Check(StackAtLeast(STACK_LIMIT), s) == Holds <==> |s.stack| >= STACK_LIMIT
    ensures Check(StackBelow(i.pops), s) == Holds <==> |s.stack| < i.pops
    ensures forall c: Condition :: c.And? ==> Check(c, s) == CheckAll(c.conditions, s)
  {}

  lemma FailureApplicability(conditions: seq<Condition>, op: Byte, last: Condition, s: State)
    requires Executing(s, op)
    ensures CheckAll(conditions + [AnyKnownRevision(), StatusIs(Status.Running), OpAtPc(op), IsCodeAtPc, last], s)
      == Holds
      <==> CheckAll(conditions, s) == Holds && Check(last, s) == Holds
  {
    CheckAllAppend(conditions, [AnyKnownRevision(), StatusIs(Status.Running), OpAtPc(op), IsCodeAtPc, last], s);
    CheckFive(AnyKnownRevision(), StatusIs(Status.Running), OpAtPc(op), IsCodeAtPc, last, s);
    ExecutingHolds(op, s);
    hide Check, CheckAll;
  }

  lemma ExecutingHolds(op: Byte, s: State)
    requires Executing(s, op)
    ensures Check(AnyKnownRevision(), s) == Check(StatusIs(Status.Running), s) == Check(OpAtPc(op), s)
      == Check(IsCodeAtPc, s) == Holds
  {}

  lemma CheckFive(a: Condition, b: Condition, c: Condition, d: Condition, e: Condition, s: State)
    ensures CheckAll([a, b, c, d, e], s) == Holds <==>
      && Check(a, s) == Holds && Check(b, s) == Holds && Check(c, s) == Holds
      && Check(d, s) == Holds && Check(e, s) == Holds
  {
    CheckAllHolds([a, b, c, d, e], s);
    hide Check, CheckAll;
    assert a in [a, b, c, d, e] && b in [a, b, c, d, e] && c in [a, b, c, d, e] && d in [a, b, c, d, e]
      && e in [a, b, c, d, e];
  }

  lemma RegularApplicability(i: Instruction, s: State)
    requires Executing(s, i.op)
    ensures Applies(Regular(i), s) <==>
      CheckAll(i.conditions, s) == Holds && s.gas >= i.staticGas
        && i.pops <= |s.stack| <= STACK_LIMIT - Max(i.pushes - i.pops, 0)
  {
    var space := STACK_LIMIT - Max(i.pushes - i.pops, 0);
    var local := [StatusIs(Status.Running), OpAtPc(i.op), GasAtLeast(i.staticGas), StackAtLeast(i.pops),
                  StackAtMost(space)];
    var revision := if HasRevisionCondition(i.conditions) then [] else [AnyKnownRevision()];
    CheckFive(StatusIs(Status.Running), OpAtPc(i.op), GasAtLeast(i.staticGas), StackAtLeast(i.pops), StackAtMost(space),
              s);
    CheckAllAppend(i.conditions, local, s);
    CheckAllAppend(i.conditions + local, revision, s);
    CheckAllHolds(revision, s);
    hide CheckAll, HasRevisionCondition;
  }

  /**
   * The rules of one instruction leave no gap and no contradiction: if its conditions hold or the
   * stack is too small for it, either the regular rule is the only one to apply, or some failure
   * rule applies and the regular rule does not.
   */
  lemma RulesForComplete(i: Instruction, s: State)
    requires Executing(s, i.op) && i.pushes <= i.pops + 1 && i.staticGas >= 0
    requires CheckAll(i.conditions, s) == Holds || |s.stack| < i.pops
    ensures var rules := Applicable(RulesFor(i), s);
      if CheckAll(i.conditions, s) == Holds && s.gas >= i.staticGas && i.pops <= |s.stack|
        && |s.stack| + Max(i.pushes - i.pops, 0) <= STACK_LIMIT
      then rules == [Regular(i)]
      else rules != [] && forall r :: r in rules ==> !r.regular
  {
    RulesForSelected(i, s);
  }

  /** The applicable rules of an instruction, spelled out. */
  lemma RulesForSelected(i: Instruction, s: State)
    requires Executing(s, i.op) && i.pushes <= i.pops + 1 && i.staticGas >= 0
    ensures var ok := CheckAll(i.conditions, s) == Holds;
      Applicable(RulesFor(i), s) ==
        (if ok && s.gas < i.staticGas then [TooLittleGas(i)] else [])
        + (if |s.stack| < i.pops then [TooFewElements(i)] else [])
        + (if ok && i.pushes > i.pops && |s.stack| == STACK_LIMIT then [NotEnoughSpace(i)] else [])
        + (if ok && s.gas >= i.staticGas
           && i.pops <= |s.stack| <= STACK_LIMIT - Max(i.pushes - i.pops, 0) then [Regular(i)] else [])
  {
    RulesForApplicability(i, s);
    hide TooLittleGas, TooFewElements, NotEnoughSpace, Regular, Applies, CheckAll;
    var a := if i.staticGas > 0 then [TooLittleGas(i)] else [];
    var b := if i.pops > 0 then [TooFewElements(i)] else [];
    var c := if i.pushes > i.pops then [NotEnoughSpace(i)] else [];
    ApplicableAppend(a, b, s);
    ApplicableAppend(a + b, c, s);
    ApplicableAppend(a + b + c, [Regular(i)], s);
    SingleRule(TooLittleGas(i), s);
    SingleRule(TooFewElements(i), s);
    SingleRule(NotEnoughSpace(i), s);
    SingleRule(Regular(i), s);
    assert Applicable([], s) == [];
    assert RulesFor(i) == a + b + c + [Regular(i)];
    assert Applicable(RulesFor(i), s) == Applicable(a, s) + Applicable(b, s) + Applicable(c, s)
      + Applicable([Regular(i)], s);
  }

  lemma SingleRule(r: Rule, s: State)
    ensures Applicable([r], s) == if Applies(r, s) then [r] else []
  {
    assert [r][1..] == [];
  }

  // ------------------------------------------------ rules meet the lookup's premise

  lemma {:induction false} FirstOpAppend(a: seq<Condition>, b: seq<Condition>)
    ensures FirstOpOf(a + b) == if FirstOpOf(a).Some? then FirstOpOf(a) else FirstOpOf(b)
  {
    if a == [] {
      assert a + b == b;
    } else {
      FirstOpAppend(a[1..], b);
      assert (a + b)[1..] == a[1..] + b;
    }
  }

  lemma FirstOpStep(cs: seq<Condition>)
    requires cs != []
    ensures FirstOpOf(cs) == if OpOf(cs[0]).Some? then OpOf(cs[0]) else FirstOpOf(cs[1..])
    ensures cs[0].OpAtPc? ==> OpOf(cs[0]) == Some(cs[0].op)
    ensures cs[0].StatusIs? || cs[0].RevisionBounds? ==> OpOf(cs[0]).None?
  {}

  /** The conditions of an instruction speak about its own opcode and known revisions only. */
  ghost predicate Focused(i: Instruction) {
    && (FirstOpOf(i.conditions).Some? ==> FirstOpOf(i.conditions) == Some(i.op))
    && (forall k :: 0 <= k < |i.conditions| ==> i.conditions[k].RevisionBounds? ==> i.conditions[k].max < UNKNOWN_NEXT)
  }

  /** A conjunction that pins status, opcode and revision belongs to one bucket of the index. */
  lemma PinnedIsSeparated(cs: seq<Condition>, op: Byte, revision: Condition, regular: bool)
    requires StatusIs(Status.Running) in cs && OpAtPc(op) in cs && revision in cs
    requires revision.RevisionBounds? && revision.max < UNKNOWN_NEXT && FirstOpOf(cs) == Some(op)
    ensures Separated(Rule(And(cs), regular))
  {
    forall s: State | Applies(Rule(And(cs), regular), s) ensures KeyOf(s) == Some(op) {
      CheckAllHolds(cs, s);
      assert Check(StatusIs(Status.Running), s) == Holds && Check(OpAtPc(op), s) == Holds
        && Check(revision, s) == Holds;
    }
  }

  lemma FailureIsSeparated(conditions: seq<Condition>, op: Byte, last: Condition)
    requires FirstOpOf(conditions).Some? ==> FirstOpOf(conditions) == Some(op)
    ensures var local := [AnyKnownRevision(), StatusIs(Status.Running), OpAtPc(op), IsCodeAtPc, last];
      Separated(Rule(And(conditions + local), false))
  {
    var local := [AnyKnownRevision(), StatusIs(Status.Running), OpAtPc(op), IsCodeAtPc, last];
    FirstOpAppend(conditions, local);
    assert FirstOpOf(local) == Some(op) by {
      FirstOpStep(local);
      FirstOpStep(local[1..]);
      FirstOpStep(local[1..][1..]);
    }
    var cs := conditions + local;
    assert cs[|conditions|] == AnyKnownRevision() && cs[|conditions| + 1] == StatusIs(Status.Running)
      && cs[|conditions| + 2] == OpAtPc(op);
    PinnedIsSeparated(cs, op, AnyKnownRevision(), false);
  }

  lemma RegularFirstOp(op: Byte, a: Condition, b: Condition, c: Condition, more: seq<Condition>)
    ensures FirstOpOf([StatusIs(Status.Running), OpAtPc(op), a, b, c] + more) == Some(op)
  {
    var all := [StatusIs(Status.Running), OpAtPc(op), a, b, c] + more;
    assert all[0] == StatusIs(Status.Running) && all[1..][0] == OpAtPc(op);
    FirstOpStep(all);
    FirstOpStep(all[1..]);
  }

  lemma RegularIsSeparated(i: Instruction)
    requires Focused(i)
    ensures Separated(Regular(i))
  {
    var a, b, c := GasAtLeast(i.staticGas), StackAtLeast(i.pops), StackAtMost(STACK_LIMIT - Max(i.pushes - i.pops, 0));
    var local := [StatusIs(Status.Running), OpAtPc(i.op), a, b, c];
    var revision := if HasRevisionCondition(i.conditions) then [] else [AnyKnownRevision()];
    var cs := i.conditions + local + revision;
    assert Regular(i) == Rule(And(cs), true);
    var k := |i.conditions| + 5;
    if HasRevisionCondition(i.conditions) {
      k :| 0 <= k < |i.conditions| && i.conditions[k].RevisionBounds?;
    }
    assert cs[k].RevisionBounds? && cs[k].max < UNKNOWN_NEXT;
    assert cs[|i.conditions|] == StatusIs(Status.Running) && cs[|i.conditions| + 1] == OpAtPc(i.op);
    hide Separated, Regular, FirstOpOf, HasRevisionCondition;
    assert cs == i.conditions + (local + revision);
    FirstOpAppend(i.conditions, local + revision);
    RegularFirstOp(i.op, a, b, c, revision);
    PinnedIsSeparated(cs, i.op, cs[k], true);
  }

  /** All rules rulesFor produces are found through the index. */
  lemma RulesForSeparated(i: Instruction)
    requires Focused(i)
    ensures forall k :: 0 <= k < |RulesFor(i)| ==> Separated(RulesFor(i)[k])
  {
    FailureIsSeparated(i.conditions, i.op, GasBelow(i.staticGas));
    FailureIsSeparated(i.conditions, i.op, StackAtLeast(STACK_LIMIT));
    FailureIsSeparated([], i.op, StackBelow(i.pops));
    var local := [AnyKnownRevision(), StatusIs(Status.Running), OpAtPc(i.op), IsCodeAtPc, StackBelow(i.pops)];
    assert [] + local == local;
    RegularIsSeparated(i);
    hide Separated, Regular;
    assert Separated(TooLittleGas(i)) && Separated(NotEnoughSpace(i)) && Separated(TooFewElements(i));
    hide TooLittleGas, NotEnoughSpace, TooFewElements;
  }

  // --------------------------------------------------------- the whole specification

  /** The rules for states in which nothing is executed: the end of an execution, data at pc, an unknown revision. */
  function TerminalRules(): seq<Rule> {
    [Rule(And([AnyKnownRevision(), StatusIs(Status.Stopped)]), true),
     Rule(And([AnyKnownRevision(), StatusIs(Status.Reverted)]), true),
     Rule(And([AnyKnownRevision(), StatusIs(Status.Failed)]), true),
     Rule(IsDataAtPc, true),
     Rule(RevisionBounds(UNKNOWN_NEXT, UNKNOWN_NEXT), false)]
  }

  /** The rules for bytes that are no instructions. */
  function InvalidRules(ops: seq<Byte>): seq<Rule> {
    seq(|ops|, i requires 0 <= i < |ops| =>
      Rule(And([StatusIs(Status.Running), OpAtPc(ops[i]), IsCodeAtPc, AnyKnownRevision()]), false))
  }

  /** getAllRules, for any list of invalid opcodes and of instructions. */
  function AllRules(invalid: seq<Byte>, instructions: seq<Instruction>): seq<Rule> {
    TerminalRules() + InvalidRules(invalid) + FamilyRules(instructions)
  }

  lemma EndIsSeparated(status: Status)
    requires status != Status.Running
    ensures Separated(Rule(And([AnyKnownRevision(), StatusIs(status)]), true))
  {
    var cs := [AnyKnownRevision(), StatusIs(status)];
    FirstOpStep(cs);
    FirstOpStep(cs[1..]);
    assert FirstOpOf(cs[1..][1..]) == None;
    forall s: State | Applies(Rule(And(cs), true), s) ensures KeyOf(s) == None {
      CheckTwo(AnyKnownRevision(), StatusIs(status), s);
    }
  }

  /** The rules without an opcode only apply in states that are looked up without one. */
  lemma TerminalRulesSeparated()
    ensures forall i :: 0 <= i < |TerminalRules()| ==> Separated(TerminalRules()[i])
  {
    EndIsSeparated(Status.Stopped);
    EndIsSeparated(Status.Reverted);
    EndIsSeparated(Status.Failed);
    assert Separated(Rule(IsDataAtPc, true)) by {
      forall s: State | Applies(Rule(IsDataAtPc, true), s) ensures KeyOf(s) == None { CodeOrData(s, s.pc); }
    }
    assert Separated(Rule(RevisionBounds(UNKNOWN_NEXT, UNKNOWN_NEXT), false));
    hide Separated;
  }

  lemma InvalidRuleSeparated(op: Byte)
    ensures Separated(Rule(And([StatusIs(Status.Running), OpAtPc(op), IsCodeAtPc, AnyKnownRevision()]), false))
  {
    var cs := [StatusIs(Status.Running), OpAtPc(op), IsCodeAtPc, AnyKnownRevision()];
    FirstOpStep(cs);
    FirstOpStep(cs[1..]);
    assert cs[0] == StatusIs(Status.Running) && cs[1] == OpAtPc(op) && cs[3] == AnyKnownRevision();
    PinnedIsSeparated(cs, op, AnyKnownRevision(), false);
  }

  lemma {:induction false} FamilyRulesSeparated(instructions: seq<Instruction>)
    requires forall k :: 0 <= k < |instructions| ==> Focused(instructions[k])
    ensures forall i :: 0 <= i < |FamilyRules(instructions)| ==> Separated(FamilyRules(instructions)[i])
  {
    if instructions != [] {
      RulesForSeparated(instructions[0]);
      FamilyRulesSeparated(instructions[1..]);
      hide Separated, RulesFor;
    }
  }

  /** The lookup by opcode is right for the specification as a whole. */
  lemma AllRulesSeparated(invalid: seq<Byte>, instructions: seq<Instruction>)
    requires forall k :: 0 <= k < |instructions| ==> Focused(instructions[k])
    ensures forall i :: 0 <= i < |AllRules(invalid, instructions)| ==> Separated(AllRules(invalid, instructions)[i])
  {
    TerminalRulesSeparated();
    FamilyRulesSeparated(instructions);
    forall i | 0 <= i < |invalid| ensures Separated(InvalidRules(invalid)[i]) { InvalidRuleSeparated(invalid[i]); }
    hide Separated, TerminalRules, InvalidRules, FamilyRules;
  }

  // --------------------------------------------------------------- rule families

  function FamilyRules(family: seq<Instruction>): seq<Rule> {
    if family == [] then [] else RulesFor(family[0]) + FamilyRules(family[1..])
  }

  /** The instructions of a family are one opcode with different conditions. */
  ghost predicate IsFamily(family: seq<Instruction>, op: Byte, staticGas: int, pops: nat, pushes: nat) {
    && pushes <= pops + 1 && staticGas >= 0
    && forall k :: 0 <= k < |family| ==> family[k] == Instruction(op, staticGas, pops, pushes, family[k].conditions)
  }

  lemma {:induction false} NoVariantHolds(family: seq<Instruction>, op: Byte, staticGas: int, pops: nat, pushes: nat,
                                          s: State)
    requires IsFamily(family, op, staticGas, pops, pushes) && Executing(s, op) && pops <= |s.stack|
    requires forall k :: 0 <= k < |family| ==> CheckAll(family[k].conditions, s) != Holds
    ensures Applicable(FamilyRules(family), s) == []
  {
    if family != [] {
      RulesForSelected(family[0], s);
      hide RulesFor, CheckAll;
      NoVariantHolds(family[1..], op, staticGas, pops, pushes, s);
      ApplicableAppend(RulesFor(family[0]), FamilyRules(family[1..]), s);
    }
  }

  lemma {:induction false} OneVariantHolds(family: seq<Instruction>, op: Byte, staticGas: int, pops: nat, pushes: nat,
                                           s: State, v: nat)
    requires IsFamily(family, op, staticGas, pops, pushes) && Executing(s, op) && pops <= |s.stack| && v < |family|
    requires forall k :: 0 <= k < |family| ==> (CheckAll(family[k].conditions, s) == Holds <==> k == v)
    ensures Applicable(FamilyRules(family), s) == Applicable(RulesFor(family[v]), s)
  {
    RulesForSelected(family[0], s);
    hide RulesFor, CheckAll, Applicable, Regular, TooLittleGas, TooFewElements, NotEnoughSpace;
    ApplicableAppend(RulesFor(family[0]), FamilyRules(family[1..]), s);
    if v == 0 {
      NoVariantHolds(family[1..], op, staticGas, pops, pushes, s);
    } else {
      OneVariantHolds(family[1..], op, staticGas, pops, pushes, s, v - 1);
    }
  }

  lemma {:induction false} StackTooSmall(family: seq<Instruction>, op: Byte, staticGas: int, pops: nat, pushes: nat,
                                         s: State)
    requires IsFamily(family, op, staticGas, pops, pushes) && Executing(s, op) && |s.stack| < pops && family != []
    ensures var rules := Applicable(FamilyRules(family), s); rules != [] && forall r :: r in rules ==> !r.regular
  {
    RulesForComplete(family[0], s);
    hide RulesFor, CheckAll, Regular;
    ApplicableAppend(RulesFor(family[0]), FamilyRules(family[1..]), s);
    if |family| > 1 { StackTooSmall(family[1..], op, staticGas, pops, pushes, s); }
  }

  /** Exactly one regular rule applies, or failure rules only, but at least one. */
  ghost predicate Decided(rules: seq<Rule>) {
    (|rules| == 1 && rules[0].regular) || (rules != [] && forall r :: r in rules ==> !r.regular)
  }

  /** A family whose conditions are mutually exclusive and exhaustive is total and deterministic. */
  lemma FamilyDecided(family: seq<Instruction>, op: Byte, staticGas: int, pops: nat, pushes: nat, s: State, v: nat)
    requires IsFamily(family, op, staticGas, pops, pushes) && Executing(s, op) && v < |family|
    requires pops <= |s.stack| ==> forall k :: 0 <= k < |family| ==>
      (CheckAll(family[k].conditions, s) == Holds <==> k == v)
    ensures Decided(Applicable(FamilyRules(family), s))
  {
    if |s.stack| < pops {
      StackTooSmall(family, op, staticGas, pops, pushes, s);
    } else {
      OneVariantHolds(family, op, staticGas, pops, pushes, s, v);
      RulesForComplete(family[v], s);
    }
  }

  // -------------------------------------------------------------- JUMP and JUMPI

  function JumpFamily(): seq<Instruction> {
    [Instruction(JUMP, 8, 1, 0, [IsCodeAtParam(0), OpAtParam(0, JUMPDEST)]),
     Instruction(JUMP, 8, 1, 0, [AnyKnownRevision(), StatusIs(Status.Running), OpAtPc(JUMP), IsDataAtParam(0)]),
     Instruction(JUMP, 8, 1, 0,
                 [AnyKnownRevision(), StatusIs(Status.Running), OpAtPc(JUMP), IsCodeAtParam(0),
                  OpAtParamIsNot(0, JUMPDEST)])]
  }

  function JumpiFamily(): seq<Instruction> {
    [Instruction(JUMPI, 10, 2, 0, [IsCodeAtParam(0), OpAtParam(0, JUMPDEST), ParamIsNot(1, 0)]),
     Instruction(JUMPI, 10, 2, 0, [ParamIs(1, 0)]),
     Instruction(JUMPI, 10, 2, 0, [IsDataAtParam(0), ParamIsNot(1, 0)]),
     Instruction(JUMPI, 10, 2, 0, [ParamIsNot(1, 0), IsCodeAtParam(0), OpAtParamIsNot(0, JUMPDEST)])]
  }

  lemma CheckTwo(a: Condition, b: Condition, s: State)
    ensures CheckAll([a, b], s) == Holds <==> Check(a, s) == Holds && Check(b, s) == Holds
  {
    CheckAllHolds([a, b], s);
    assert a in [a, b] && b in [a, b];
  }

  lemma CheckThree(a: Condition, b: Condition, c: Condition, s: State)
    ensures CheckAll([a, b, c], s) == Holds <==> Check(a, s) == Holds && Check(b, s) == Holds && Check(c, s) == Holds
  {
    CheckAllHolds([a, b, c], s);
    assert a in [a, b, c] && b in [a, b, c] && c in [a, b, c];
  }

  /** The variant of JUMP that is meant for a state: a valid target, one in push data, or another instruction. */
  function JumpVariant(s: State): nat
    requires |s.stack| >= 1
  {
    if Op(s, s.stack[0]) == Some(JUMPDEST) then 0 else if Op(s, s.stack[0]).None? then 1 else 2
  }

  lemma JumpVariantHolds(s: State)
    requires Executing(s, JUMP) && |s.stack| >= 1
    ensures forall k :: 0 <= k < 3 ==> (CheckAll(JumpFamily()[k].conditions, s) == Holds <==> k == JumpVariant(s))
  {
    CheckTwo(IsCodeAtParam(0), OpAtParam(0, JUMPDEST), s);
    CheckFive(AnyKnownRevision(), StatusIs(Status.Running), OpAtPc(JUMP), IsCodeAtParam(0), OpAtParamIsNot(0, JUMPDEST),
              s);
    CheckAllAppend([AnyKnownRevision(), StatusIs(Status.Running)], [OpAtPc(JUMP), IsDataAtParam(0)], s);
    CheckTwo(AnyKnownRevision(), StatusIs(Status.Running), s);
    CheckTwo(OpAtPc(JUMP), IsDataAtParam(0), s);
    assert [AnyKnownRevision(), StatusIs(Status.Running)] + [OpAtPc(JUMP), IsDataAtParam(0)]
        == [AnyKnownRevision(), StatusIs(Status.Running), OpAtPc(JUMP), IsDataAtParam(0)];
    hide CheckAll, IsCode, GetOperation;
    assert Op(s, s.stack[0]).None? <==> Check(IsDataAtParam(0), s) == Holds by { CodeOrData(s, s.stack[0]); }
  }

  lemma CodeOrData(s: State, pos: nat)
    ensures Op(s, pos).Some? <==> pos > MAX_INT || IsCode(s.code, pos)
  {}

  /** In every state that is about to execute JUMP the specification is total and deterministic. */
  lemma JumpDecided(s: State)
    requires Executing(s, JUMP)
    ensures Decided(Applicable(FamilyRules(JumpFamily()), s))
  {
    if |s.stack| >= 1 { JumpVariantHolds(s); }
    hide CheckAll;
    FamilyDecided(JumpFamily(), JUMP, 8, 1, 0, s, if |s.stack| >= 1 then JumpVariant(s) else 0);
  }

  /** A jump target is taken exactly if it is one of the jump targets of evmzero. */
  lemma JumpTakenIffEvmzeroTarget(s: State)
    requires Executing(s, JUMP) && |s.stack| >= 1
    ensures JumpVariant(s) == 0 <==> s.stack[0] <= MAX_INT && s.stack[0] < |s.code| && JumpTargets(s.code)[s.stack[0]]
  {
    JumpTargetsMatchSpecification(s.code);
  }

  function JumpiVariant(s: State): nat
    requires |s.stack| >= 2
  {
    if s.stack[1] == 0 then 1
    else if Op(s, s.stack[0]) == Some(JUMPDEST) then 0
    else if Op(s, s.stack[0]).None? then 2
    else 3
  }

  lemma JumpiVariantHolds(s: State)
    requires Executing(s, JUMPI) && |s.stack| >= 2
    ensures forall k :: 0 <= k < 4 ==> (CheckAll(JumpiFamily()[k].conditions, s) == Holds <==> k == JumpiVariant(s))
  {
    CheckThree(IsCodeAtParam(0), OpAtParam(0, JUMPDEST), ParamIsNot(1, 0), s);
    CheckTwo(IsDataAtParam(0), ParamIsNot(1, 0), s);
    CheckThree(ParamIsNot(1, 0), IsCodeAtParam(0), OpAtParamIsNot(0, JUMPDEST), s);
    CheckAllHolds([ParamIs(1, 0)], s);
    assert ParamIs(1, 0) in [ParamIs(1, 0)];
    hide CheckAll, IsCode, GetOperation;
    CodeOrData(s, s.stack[0]);
  }

  lemma JumpiDecided(s: State)
    requires Executing(s, JUMPI)
    ensures Decided(Applicable(FamilyRules(JumpiFamily()), s))
  {
    if |s.stack| >= 2 { JumpiVariantHolds(s); }
    hide CheckAll;
    FamilyDecided(JumpiFamily(), JUMPI, 10, 2, 0, s, if |s.stack| >= 2 then JumpiVariant(s) else 0);
  }
}
