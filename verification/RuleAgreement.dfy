/**
 * evmzero, one dispatch at a time, against the rules of the conformance tests: jumps, pushes, memory
 * opcodes, calls and creates. Everything is stated by positions on the stack.
 */
module RuleAgreement {
  import opened Evm
  import opened Encoding
  import opened CodeScan
  import opened MemoryCost
  import opened MemoryModel
  import opened Calls
  import opened CallAgreement
  import opened MemoryRules
  import opened CreateRules
  import opened Interpreter
  import opened InterpreterRuns
  import Rules = RuleEngine

  // ----------------------------------------------------------------- the dispatch

  /** The checks that Run makes for every opcode. */
  predicate PassesChecks(env: Env, f: Frame, op: Byte) {
    var info := Info(env, op);
    && env.ctx.revision >= info.since && !(info.noStatic && env.ctx.isStatic)
    && info.pops <= f.size && f.size + Delta(info) <= STACK_LIMIT && info.staticGas <= f.gas
  }

  /** The frame after the static gas has been charged. */
  function Charged(env: Env, f: Frame, op: Byte): Frame
    requires PassesChecks(env, f, op)
  {
    f.(gas := f.gas - Info(env, op).staticGas)
  }

  /** A dispatch fails in its checks, or it is the jump or the handler and then the new pc, gas and stack. */
  lemma DispatchResult(env: Env, f: Frame, stepping: bool)
    requires f.state.Running? && Valid(env, f)
    ensures var op, r := OpAt(env, f), RunOp(env, f, stepping);
      && (!PassesChecks(env, f, op) ==> IsFailure(r.state) && r.gas == 0 && r.memory == f.memory)
      && (PassesChecks(env, f, op) && IsJump(op) ==> r == RunJump(env, Charged(env, f, op), op, stepping))
      && (PassesChecks(env, f, op) && !IsJump(op) ==>
            && (IsPush(op) ==> f.size < STACK_LIMIT && f.pc + Width(op) <= |env.code| + PADDING)
            && r == Complete(Execute(env, Charged(env, f, op), op), Info(env, op), Charged(env, f, op).gas,
                             f.pc + Width(op),
                             f.size + Delta(Info(env, op))))
  {
    PushFits(env, f);
    PushInfo(env, OpAt(env, f));
    hide Execute, Info, RunJump, Complete;
  }

  /** Which check is reported if several fail: revision, static mode, stack, space, gas. */
  lemma FirstFailedCheck(env: Env, f: Frame, stepping: bool)
    requires f.state.Running? && Valid(env, f)
    ensures var info, state := Info(env, OpAt(env, f)), RunOp(env, f, stepping).state;
      if env.ctx.revision < info.since then state == ErrorOpcode
      else if info.noStatic && env.ctx.isStatic then state == ErrorStaticCall
      else if |StackOf(f)| < info.pops then state == ErrorStackUnderflow
      else if |StackOf(f)| + Delta(info) > STACK_LIMIT then state == ErrorStackOverflow
      else f.gas < info.staticGas ==> state == ErrorGas
  {
    hide Execute, Info, RunJump, Complete;
    PushFits(env, f);
    PushInfo(env, OpAt(env, f));
  }

  lemma SameStack(f: Frame, g: Frame)
    requires |f.slots| == STACK_LIMIT && 0 <= f.size <= STACK_LIMIT && g.slots == f.slots && g.size == f.size
    ensures StackOf(g) == StackOf(f)
  {}

  // ------------------------------------------------------------------------ jumps

  function JumpGas(op: Byte): nat { if op == JUMPI then 10 else 8 }
  function JumpPops(op: Byte): nat { if op == JUMPI then 2 else 1 }

  /** What a JUMP or JUMPI does: it goes on, lands on a JUMPDEST, or fails. */
  ghost predicate JumpedAsSpecified(code: seq<Byte>, f: Frame, op: Byte, stepping: bool, r: Frame)
    requires |f.slots| == STACK_LIMIT && JumpPops(op) <= f.size <= STACK_LIMIT && JumpGas(op) <= f.gas
  {
    var stack := StackOf(f);
    var popped := f.(gas := f.gas - JumpGas(op), size := f.size - JumpPops(op));
    if op == JUMPI && stack[1] == 0 then r == popped.(pc := f.pc + 1)
    else if GetOperation(code, stack[0]) == Some(JUMPDEST) then
      var landed := popped.(pc := stack[0]);
      r == if stepping then landed else AfterJumpdest(landed)
    else r.state == ErrorJump && r.gas == 0
  }

  lemma JumpOutcome(env: Env, f: Frame, stepping: bool)
    requires f.state.Running? && Valid(env, f) && IsJump(OpAt(env, f))
    ensures var op, r := OpAt(env, f), RunOp(env, f, stepping);
      if JumpPops(op) <= f.size && JumpGas(op) <= f.gas then JumpedAsSpecified(env.code, f, op, stepping, r)
      else IsFailure(r.state) && r.gas == 0
  {
    var op := OpAt(env, f);
    DispatchResult(env, f, stepping);
    assert Info(env, op) == OpInfo(JumpPops(op), 0, JumpGas(op), false, ISTANBUL);
    if JumpPops(op) <= f.size && JumpGas(op) <= f.gas {
      JumpTargetsMatchSpecification(env.code);
      hide Info, RunOp, IsCodeFlags, JumpTargets, GetOperation;
      TargetIsReported(env, StackOf(f)[0]);
    }
  }

  lemma TargetIsReported(env: Env, target: Word)
    requires |env.code| < TWO_32
    ensures CheckJumpDest(env, target) <==> GetOperation(env.code, target) == Some(JUMPDEST)
    ensures CheckJumpDest(env, target) ==> target % TWO_32 == target
  {
    JumpTargetsMatchSpecification(env.code);
  }

  /** A frame and a test state at the same point of the same execution. */
  ghost predicate SamePoint(env: Env, f: Frame, s: Rules.State) {
    && f.state.Running? && Valid(env, f)
    && s.status == Rules.Status.Running && s.revision == env.ctx.revision <= Rules.NEWEST_REVISION
    && s.code == env.code && s.pc == f.pc && s.gas == f.gas && s.stack == StackOf(f)
  }

  lemma ExecutingAt(env: Env, f: Frame, s: Rules.State)
    requires SamePoint(env, f, s) && OpAt(env, f) != STOP
    ensures Rules.Executing(s, OpAt(env, f))
  {
    StartBound(env.code, 0, f.pc);
    assert PadCode(env.code)[f.pc] == OpAt(env, f);
    assert f.pc < |env.code|;
    assert GetOperation(env.code, f.pc) == Some(env.code[f.pc]);
  }

  /** The rules of a jump family in a state with enough operands: one variant, regular or without gas. */
  lemma FamilyRule(family: seq<Rules.Instruction>, op: Byte, s: Rules.State, v: nat)
    requires IsJump(op) && Rules.IsFamily(family, op, JumpGas(op), JumpPops(op), 0) && Rules.Executing(s, op)
    requires JumpPops(op) <= |s.stack| && v < |family|
    requires forall k :: 0 <= k < |family| ==> (Rules.CheckAll(family[k].conditions, s) == Rules.Holds <==> k == v)
    ensures Rules.Applicable(Rules.FamilyRules(family), s) ==
      [if s.gas < JumpGas(op) then Rules.TooLittleGas(family[v]) else Rules.Regular(family[v])]
  {
    Rules.OneVariantHolds(family, op, JumpGas(op), JumpPops(op), 0, s, v);
    Rules.RulesForSelected(family[v], s);
  }

  /** A rule for the normal behaviour begins with the first condition of its instruction. */
  lemma RegularBegins(i: Rules.Instruction)
    requires i.conditions != []
    ensures Rules.Regular(i).regular && Rules.Regular(i).condition.And? && Rules.Regular(i).condition.conditions != []
    ensures Rules.Regular(i).condition.conditions[0] == i.conditions[0]
    ensures !Rules.TooLittleGas(i).regular
  {}

  /** Of rules that are all failures, none is regular. */
  lemma NotRegular(rules: seq<Rules.Rule>, i: Rules.Instruction)
    requires i.conditions != [] && forall r :: r in rules ==> !r.regular
    ensures rules != [Rules.Regular(i)]
  {
    RegularBegins(i);
    assert Rules.Regular(i) in [Rules.Regular(i)];
  }

  /** The only regular rule of a family that applies is that of the variant that holds. */
  ghost predicate OnlyRule(family: seq<Rules.Instruction>, s: Rules.State, v: nat)
    requires v < |family|
  {
    Rules.Applicable(Rules.FamilyRules(family), s) == [Rules.Regular(family[v])]
  }

  lemma OnlyRuleWhich(family: seq<Rules.Instruction>, op: Byte, s: Rules.State, v: nat, k: nat)
    requires IsJump(op) && Rules.IsFamily(family, op, JumpGas(op), JumpPops(op), 0) && Rules.Executing(s, op)
    requires v < |family| && k < |family| && family[v].conditions != [] && family[k].conditions != []
    requires JumpPops(op) <= |s.stack| ==>
      forall k :: 0 <= k < |family| ==> (Rules.CheckAll(family[k].conditions, s) == Rules.Holds <==> k == v)
    requires k != v ==> family[k].conditions[0] != family[v].conditions[0]
    ensures OnlyRule(family, s, k) <==> k == v && JumpPops(op) <= |s.stack| && JumpGas(op) <= s.gas
  {
    RegularBegins(family[k]);
    RegularBegins(family[v]);
    if |s.stack| < JumpPops(op) {
      Rules.StackTooSmall(family, op, JumpGas(op), JumpPops(op), 0, s);
      NotRegular(Rules.Applicable(Rules.FamilyRules(family), s), family[k]);
    } else {
      FamilyRule(family, op, s, v);
      hide Rules.Regular, Rules.TooLittleGas, Rules.FamilyRules, Rules.Applicable;
    }
  }

  /** The stack of a frame is the given one. */
  ghost predicate HasStack(r: Frame, stack: seq<Word>) {
    |r.slots| == STACK_LIMIT && 0 <= r.size <= STACK_LIMIT && StackOf(r) == stack
  }

  ghost predicate FollowsJumpRules(s: Rules.State, r: Frame) {
    if OnlyRule(Rules.JumpFamily(), s, 0) then
      r.state.Running? && |s.stack| >= 1 && r.pc == s.stack[0] && r.gas == s.gas - 8 && HasStack(r, s.stack[1..])
    else IsFailure(r.state)
  }

  ghost predicate FollowsJumpiRules(s: Rules.State, r: Frame) {
    if OnlyRule(Rules.JumpiFamily(), s, 0) then
      r.state.Running? && |s.stack| >= 2 && r.pc == s.stack[0] && r.gas == s.gas - 10 && HasStack(r, s.stack[2..])
    else if OnlyRule(Rules.JumpiFamily(), s, 1) then
      r.state.Running? && |s.stack| >= 2 && r.pc == s.pc + 1 && r.gas == s.gas - 10 && HasStack(r, s.stack[2..])
    else IsFailure(r.state)
  }

  /**
   * JUMP goes on exactly if the rule for a valid target is the one that applies, and then to that
   * target. All other rules of its family are failures, and evmzero fails.
   */
  lemma JumpFollowsRules(env: Env, f: Frame, s: Rules.State)
    requires SamePoint(env, f, s) && OpAt(env, f) == JUMP
    ensures FollowsJumpRules(s, RunOp(env, f, true))
  {
    hide Rules.Executing, OnlyRule, RunOp, GetOperation, OpAt;
    ExecutingAt(env, f, s);
    JumpOutcome(env, f, true);
    JumpRules(s);
  }

  /**
   * JUMPI goes to its target exactly if the rule for a valid target and a nonzero condition applies, and
   * to the next instruction exactly if the rule for a zero condition does. Otherwise both fail.
   */
  lemma JumpiFollowsRules(env: Env, f: Frame, s: Rules.State)
    requires SamePoint(env, f, s) && OpAt(env, f) == JUMPI
    ensures FollowsJumpiRules(s, RunOp(env, f, true))
  {
    hide Rules.Executing, OnlyRule, RunOp, GetOperation, OpAt;
    ExecutingAt(env, f, s);
    JumpOutcome(env, f, true);
    JumpiRules(s);
  }

  /** Enough operands and gas, and a valid target. */
  predicate HasTarget(s: Rules.State, op: Byte) {
    JumpPops(op) <= |s.stack| && JumpGas(op) <= s.gas && GetOperation(s.code, s.stack[0]) == Some(JUMPDEST)
  }

  lemma JumpiRules(s: Rules.State)
    requires Rules.Executing(s, JUMPI) && |s.code| < TWO_32
    ensures OnlyRule(Rules.JumpiFamily(), s, 0) <==> HasTarget(s, JUMPI) && s.stack[1] != 0
    ensures OnlyRule(Rules.JumpiFamily(), s, 1) <==> |s.stack| >= 2 && s.gas >= 10 && s.stack[1] == 0
  {
    JumpiFamilyFacts();
    var v := 0;
    if |s.stack| >= 2 {
      v := Rules.JumpiVariant(s);
      Rules.JumpiVariantHolds(s);
      JumpiVariantMeans(s);
    }
    hide Rules.CheckAll, Rules.JumpiFamily, Rules.JumpiVariant, Rules.Executing, OnlyRule, GetOperation;
    OnlyRuleWhich(Rules.JumpiFamily(), JUMPI, s, v, 0);
    OnlyRuleWhich(Rules.JumpiFamily(), JUMPI, s, v, 1);
  }

  lemma JumpRules(s: Rules.State)
    requires Rules.Executing(s, JUMP) && |s.code| < TWO_32
    ensures OnlyRule(Rules.JumpFamily(), s, 0) <==> HasTarget(s, JUMP)
  {
    var v := 0;
    if |s.stack| >= 1 {
      v := Rules.JumpVariant(s);
      Rules.JumpVariantHolds(s);
      TargetInRange(s.code, s.stack[0]);
    }
    hide Rules.CheckAll, Rules.Executing, OnlyRule, GetOperation;
    OnlyRuleWhich(Rules.JumpFamily(), JUMP, s, v, 0);
  }

  lemma JumpiFamilyFacts()
    ensures var family := Rules.JumpiFamily();
      && |family| == 4 && Rules.IsFamily(family, JUMPI, 10, 2, 0)
      && (forall k :: 0 <= k < 4 ==> family[k].conditions != [])
      && (forall k, v :: 0 <= k < v < 4 ==> family[k].conditions[0] != family[v].conditions[0])
  {}

  lemma JumpiVariantMeans(s: Rules.State)
    requires |s.stack| >= 2 && |s.code| < TWO_32
    ensures Rules.JumpiVariant(s) == 1 <==> s.stack[1] == 0
    ensures Rules.JumpiVariant(s) == 0 <==> s.stack[1] != 0 && GetOperation(s.code, s.stack[0]) == Some(JUMPDEST)
    ensures Rules.JumpiVariant(s) < 4
  {
    TargetInRange(s.code, s.stack[0]);
  }

  /** The rules read positions beyond int as STOP, the code does so from its end on. */
  lemma TargetInRange(code: seq<Byte>, target: Word)
    ensures |code| < TWO_32 && target > Rules.MAX_INT ==> GetOperation(code, target) == Some(STOP)
  {
    if |code| < TWO_32 { FlagsAreShort(code, 0); }
  }

  lemma {:induction false} FlagsAreShort(code: seq<Byte>, from: nat)
    requires from < |code| + PADDING
    ensures ScanEnd(code, from) < |code| + PADDING
    decreases |code| - from
  {
    if from < |code| { FlagsAreShort(code, from + Width(code[from])); }
  }

  // ----------------------------------------------------------------------- pushes

  /** What a push leaves behind: the number whose digits are the bytes behind the opcode. */
  ghost predicate Pushed(code: seq<Byte>, f: Frame, n: nat, r: Frame)
    requires |f.slots| == STACK_LIMIT && 0 <= f.size < STACK_LIMIT && f.gas >= 3 && f.pc >= 0
  {
    && r == f.(pc := f.pc + 1 + n, gas := f.gas - 3, size := f.size + 1, slots := r.slots)
    && |r.slots| == STACK_LIMIT && StackOf(r)[1..] == StackOf(f)
    && StackOf(r)[0] < Pow256(n) && Digits(StackOf(r)[0], n) == Padded(code, f.pc + 1, n)
  }

  /**
   * PUSHn puts on the stack the number whose n digits are the bytes behind the opcode, zeros where the
   * code has ended, and goes on behind them. It fails without gas or space.
   */
  lemma PushOutcome(env: Env, f: Frame, stepping: bool)
    requires f.state.Running? && Valid(env, f) && IsPush(OpAt(env, f))
    ensures var n, r := OpAt(env, f) - PUSH1 + 1, RunOp(env, f, stepping);
      if f.size < STACK_LIMIT && f.gas >= 3 then Pushed(env.code, f, n, r) else IsFailure(r.state) && r.gas == 0
  {
    hide RunOp, Execute, Info, OpAt, Pushed, IsStart;
    var op := OpAt(env, f);
    DispatchResult(env, f, stepping);
    PushInfoExact(env, op);
    if f.size < STACK_LIMIT && f.gas >= 3 { PushedByHandler(env, f, op, Charged(env, f, op)); }
  }

  lemma PushInfoExact(env: Env, op: Byte)
    requires IsPush(op)
    ensures Info(env, op) == OpInfo(0, 1, 3, false, ISTANBUL) && Delta(Info(env, op)) == 1
    ensures Width(op) == op - PUSH1 + 2 && !IsJump(op)
  {}

  lemma PushedByHandler(env: Env, f: Frame, op: Byte, charged: Frame)
    requires IsPush(op) && f.state.Running? && |f.slots| == STACK_LIMIT && 0 <= f.size < STACK_LIMIT && f.gas >= 3
    requires f.pc >= 0
    requires f.pc + Width(op) <= |env.code| + PADDING && charged == f.(gas := f.gas - 3) && Info(env, op).pops <= f.size
    ensures Pushed(env.code, f, op - PUSH1 + 1,
                   Complete(Execute(env, charged, op), Info(env, op), charged.gas, f.pc + Width(op), f.size + 1))
  {
    hide Info, PadCode, Padded, BigEndian, Digits, Pow256, Execute, Pushed, StackOf, SetTop;
    ExecuteIsPush(env, charged, op);
    var n := op - PUSH1 + 1;
    var data := PadCode(env.code)[f.pc + 1..f.pc + Width(op)];
    PaddedSlice(env.code, f.pc + 1, n);
    DigitsOfBigEndian(data);
    BigEndianFits(data);
    PushedSlot(charged, BigEndian(data));
    SameStack(f, charged);
    PushedIs(env.code, f, n, BigEndian(data),
             Complete(Execute(env, charged, op), Info(env, op), charged.gas, f.pc + Width(op), f.size + 1));
  }

  lemma ExecuteIsPush(env: Env, f: Frame, op: Byte)
    requires IsPush(op) && |f.slots| == STACK_LIMIT && 0 <= f.size < STACK_LIMIT && Info(env, op).pops <= f.size
    requires 0 <= f.pc && f.pc + Width(op) <= |env.code| + PADDING
    ensures Execute(env, f, op) == ExecPush(env, f, op)
  {
    hide ExecPush;
  }

  lemma PaddedSlice(code: seq<Byte>, from: nat, n: nat)
    requires from + n <= |code| + PADDING
    ensures PadCode(code)[from..from + n] == Padded(code, from, n)
  {
    var padded := PadCode(code);
    hide PadCode;
    assert padded[from..from + n] == Padded(code, from, n);
  }

  lemma PushedSlot(f: Frame, w: Word)
    requires |f.slots| == STACK_LIMIT && 0 <= f.size < STACK_LIMIT
    ensures var slots := SetTop(f, -1, w);
      |slots| == STACK_LIMIT && slots[STACK_LIMIT - f.size - 1..] == [w] + StackOf(f)
  {}

  lemma PushedIs(code: seq<Byte>, f: Frame, n: nat, w: Word, r: Frame)
    requires |f.slots| == STACK_LIMIT && 0 <= f.size < STACK_LIMIT && f.gas >= 3 && f.pc >= 0
    requires r == f.(pc := f.pc + 1 + n, gas := f.gas - 3, size := f.size + 1, slots := r.slots)
    requires |r.slots| == STACK_LIMIT
    requires r.slots[STACK_LIMIT - f.size - 1..] == [w] + StackOf(f)
    requires w < Pow256(n) && Digits(w, n) == Padded(code, f.pc + 1, n)
    ensures Pushed(code, f, n, r)
  {
    hide Pow256, Digits, Padded;
    assert StackOf(r) == [w] + StackOf(f);
  }

  // --------------------------------------------------------------- memory opcodes

  /** What the effects of the rules read, in the surroundings of a frame. */
  function WorldOf(env: Env, f: Frame, codeOf: Address -> Bytes): World {
    World(env.input, env.code, codeOf, f.returnData, env.hash)
  }

  /** The access cost of EXTCODECOPY, which its rules charge as static gas. */
  function AccessGas(env: Env, f: Frame, op: Byte): nat
    requires |f.slots| == STACK_LIMIT && 1 <= f.size <= STACK_LIMIT
  {
    if op != EXTCODECOPY then 0
    else if env.ctx.revision < BERLIN then 700
    else if env.host.isWarm(f.trace, ToAddress(StackOf(f)[0])) then 100 else 2600
  }

  /** The static gas of the rules for a memory opcode. */
  function RuleGas(op: Byte): nat {
    if op == SHA3 then 30
    else if op == RETURN || op == REVERT || op == EXTCODECOPY then 0
    else if IsLog(op) then 375 + 375 * (op - LOG0)
    else 3
  }

  ghost predicate InPriceRange(f: Frame) {
    |f.memory| % 32 == 0 && f.gas + C(|f.memory| / 32) < C(CPP_CUTOFF)
  }

  /** The host has the code of accounts that the rules see. */
  ghost predicate SeesCode(env: Env, codeOf: Address -> Bytes) {
    forall trace, a :: env.host.code(trace, a) == codeOf(a)
  }

  /** evmzero reads the ranges the rules pop. */
  lemma RangesAgree(f: Frame, op: Byte)
    requires IsMemoryOp(op) && |f.slots| == STACK_LIMIT && RulePops(op) <= f.size <= STACK_LIMIT
    ensures var a := AccessOf(op, StackOf(f)); Ranges(f, op) == (a.offset, a.size, a.from, a.fromSize)
  {}

  /** Prices: affordable alike, and then the same. */
  lemma MemoryPricesAgree(env: Env, f: Frame, op: Byte)
    requires IsMemoryOp(op) && |f.slots| == STACK_LIMIT && RulePops(op) <= f.size <= STACK_LIMIT && InPriceRange(f)
    ensures var a := AccessOf(op, StackOf(f));
      var e1, e2 := CppExpansion(|f.memory|, a.offset, a.size), CppExpansion(|f.memory|, a.from, a.fromSize);
      var price := AccessPrice(f.memory, a) + HandlingCost(op, a.size) + AccessGas(env, f, op);
      && (MemoryOpCost(env, f, op) <= f.gas <==> price <= f.gas)
      && (price <= f.gas ==>
            && MemoryOpCost(env, f, op) == price
            && SameRange(e1, a.offset, a.size) && SameRange(e2, a.from, a.fromSize)
            && Grown(Grown(f.memory, e1.offset, e1.size), e2.offset, e2.size) == AccessGrown(f.memory, a))
  {
    hide C, CppExpansion;
    RangesAgree(f, op);
    hide Ranges, AccessOf;
    var a, have := AccessOf(op, StackOf(f)), |f.memory| / 32;
    assert |f.memory| == 32 * have;
    CppPricesExactly(f.gas, have, a.offset, a.size);
    CppPricesExactly(f.gas, have, a.from, a.fromSize);
    if ExactCost(have, a.offset, a.size) <= f.gas { SmallWords(f.gas, have, a.offset, a.size); }
  }

  /** Below the cut-off the size in words does not wrap around. */
  lemma SmallWords(gas: nat, have: nat, offset: nat, size: nat)
    requires gas + C(have) < C(CPP_CUTOFF) && ExactCost(have, offset, size) <= gas
    ensures Words64(size) == Words(size)
  {
    hide C;
    CutoffPrices();
    AffordableIsSmall(gas, have, offset, size);
  }

  /** Memory afterwards: the same bytes are written to the same place. */
  lemma StoredAgrees(env: Env, f: Frame, op: Byte, codeOf: Address -> Bytes, events: seq<Event>, grown: Bytes,
                     e1: Expansion, e2: Expansion)
    requires IsMemoryOp(op) && |f.slots| == STACK_LIMIT && RulePops(op) <= f.size <= STACK_LIMIT
    requires SeesCode(env, codeOf)
    requires Info(env, op).pops <= f.size
    requires var a := AccessOf(op, StackOf(f)); SameRange(e1, a.offset, a.size) && SameRange(e2, a.from, a.fromSize)
    ensures Stored(env, f, op, events, grown, e1, e2) ==
      Written(grown, Incoming(WorldOf(env, f, codeOf), op, StackOf(f), grown), AccessOf(op, StackOf(f)).offset)
  {
    var stack := StackOf(f);
    var a, data := AccessOf(op, stack), Incoming(WorldOf(env, f, codeOf), op, stack, grown);
    WrittenNothing(grown, e1.offset, a.offset);
    assert Span(grown, e2.offset, 0) == [] == Span(grown, a.from, 0);
    hide Written, Span, Padded, Digits;
  }

  lemma PopsAgree(env: Env, op: Byte)
    requires IsMemoryOp(op)
    ensures var info := Info(env, op);
      && info.pops == RulePops(op) && info.pushes == (if op == SHA3 || op == MLOAD then 1 else 0)
      && info.staticGas == RuleGas(op) && info.noStatic == IsLog(op)
        && info.since == (if op == MCOPY then CANCUN else ISTANBUL)
      && Width(op) == 1 && !IsJump(op) && !IsPush(op)
  {}

  /** The outcome the rules for a memory opcode specify; None is a failed execution. */
  function MemoryRule(env: Env, f: Frame, op: Byte, codeOf: Address -> Bytes): Option<RuleState>
    requires IsMemoryOp(op) && |f.slots| == STACK_LIMIT && 0 <= f.size <= STACK_LIMIT
  {
    if f.size < RulePops(op) || (IsLog(op) && env.ctx.isStatic) || (op == MCOPY && env.ctx.revision < CANCUN) then None
    else
      SpecMemoryOp(WorldOf(env, f, codeOf),
                   RuleState(f.gas - RuleGas(op) - AccessGas(env, f, op), StackOf(f), f.memory, [], []), op)
  }

  /** What the host is told by a memory opcode: an access, a log. */
  function AccessEvents(env: Env, f: Frame, op: Byte): seq<Event>
    requires IsMemoryOp(op) && |f.slots| == STACK_LIMIT && RulePops(op) <= f.size <= STACK_LIMIT
  {
    if op == EXTCODECOPY && env.ctx.revision >= BERLIN then [Accessed(ToAddress(StackOf(f)[0]))] else []
  }

  function LogEvents(logs: seq<Log>): seq<Event> {
    seq(|logs|, i requires 0 <= i < |logs| => Logged(logs[i].data, logs[i].topics))
  }

  ghost predicate FollowsMemoryRule(env: Env, f: Frame, op: Byte, codeOf: Address -> Bytes, r: Frame)
    requires IsMemoryOp(op) && |f.slots| == STACK_LIMIT && 0 <= f.size <= STACK_LIMIT
  {
    var rule := MemoryRule(env, f, op, codeOf);
    if rule.None? then IsFailure(r.state) && r.memory == f.memory
    else
      && r.state == (if op == RETURN then Return else if op == REVERT then Revert else Running)
      && r.pc == f.pc + 1 && r.gas == rule.value.gas && HasStack(r, rule.value.stack) && r.memory == rule.value.memory
      && r.returnData == (if op == RETURN || op == REVERT then rule.value.output else f.returnData)
      && r.refunds == f.refunds && r.trace == f.trace + AccessEvents(env, f, op) + LogEvents(rule.value.logs)
  }

  /** The handler has done what the rule state says, and nothing else. */
  ghost predicate HandlerDid(env: Env, f: Frame, op: Byte, r: Exec, s: RuleState)
    requires IsMemoryOp(op) && |f.slots| == STACK_LIMIT && RulePops(op) <= f.size <= STACK_LIMIT
  {
    var pushes := if op == SHA3 || op == MLOAD then 1 else 0;
    && r.state == (if op == RETURN then Return else if op == REVERT then Revert else Running)
    && r.cost == f.gas - s.gas && r.frame.memory == s.memory
    && r.frame.returnData == (if op == RETURN || op == REVERT then s.output else f.returnData)
    && r.frame.pc == f.pc && r.frame.gas == f.gas && r.frame.size == f.size && r.frame.refunds == f.refunds
    && |r.frame.slots| == STACK_LIMIT && r.frame.slots[STACK_LIMIT - f.size + RulePops(op) - pushes..] == s.stack
    && r.frame.trace == f.trace + AccessEvents(env, f, op) + LogEvents(s.logs)
  }

  lemma SlotsAgree(env: Env, f: Frame, op: Byte, w: World, data: Bytes)
    requires IsMemoryOp(op) && |f.slots| == STACK_LIMIT && RulePops(op) <= f.size <= STACK_LIMIT
    requires Info(env, op).pops <= f.size && w.hash == env.hash
    ensures var pushes := if op == SHA3 || op == MLOAD then 1 else 0;
      SlotsAfter(env, f, op, data)[STACK_LIMIT - f.size + RulePops(op) - pushes..] ==
        Result(w, op, data) + StackOf(f)[RulePops(op)..]
  {
    hide Info, BigEndian, SetTop, StackOf;
    if op == SHA3 {
      ResultSlot(f, 1);
    } else if op == MLOAD {
      ResultSlot(f, 0);
    } else {
      StackTail(f, RulePops(op));
    }
  }

  lemma StackTail(f: Frame, k: nat)
    requires |f.slots| == STACK_LIMIT && k <= f.size <= STACK_LIMIT
    ensures f.slots[STACK_LIMIT - f.size + k..] == [] + StackOf(f)[k..]
  {}

  lemma LogsAgree(env: Env, f: Frame, op: Byte, data: Bytes)
    requires IsMemoryOp(op) && |f.slots| == STACK_LIMIT && RulePops(op) <= f.size <= STACK_LIMIT
    requires Info(env, op).pops <= f.size
    ensures LogOf(env, f, op, data)
      == LogEvents(if IsLog(op) then [] + [Log(data, StackOf(f)[2..RulePops(op)])] else [])
  {
    hide Info;
    if IsLog(op) { assert Topics(f, op - LOG0) == StackOf(f)[2..RulePops(op)]; }
  }

  lemma AfterAccessAgrees(env: Env, f: Frame, op: Byte, w: World, gas: int, price: nat, data: Bytes, memory: Bytes)
    requires IsMemoryOp(op) && |f.slots| == STACK_LIMIT && RulePops(op) <= f.size <= STACK_LIMIT
    requires Info(env, op).pops <= f.size && w.hash == env.hash
    ensures var s := RuleState(gas, StackOf(f), f.memory, [], []);
      HandlerDid(env, f, op, AfterAccess(env, f, op, f.gas - gas + price, data, memory, AccessEvents(env, f, op)),
                 SpecAfter(w, s, op, price, data, memory))
  {
    SlotsAgree(env, f, op, w, data);
    LogsAgree(env, f, op, data);
    hide Info, SlotsAfter, LogOf, LogEvents, Result, AccessEvents, StackOf;
  }

  /** The part of a rule state that a memory opcode starts from, once all but the access is paid. */
  function StartOf(env: Env, f: Frame, op: Byte): RuleState
    requires |f.slots| == STACK_LIMIT && 1 <= f.size <= STACK_LIMIT
  {
    RuleState(f.gas - AccessGas(env, f, op), StackOf(f), f.memory, [], [])
  }

  /** A handler that can be paid for, and whose source is in bounds, does what is specified. */
  lemma PaidHandlerAgrees(env: Env, f: Frame, op: Byte, codeOf: Address -> Bytes)
    requires IsMemoryOp(op) && |f.slots| == STACK_LIMIT && RulePops(op) <= f.size <= STACK_LIMIT
    requires Info(env, op).pops <= f.size && InPriceRange(f) && SeesCode(env, codeOf)
    requires SpecMemoryOp(WorldOf(env, f, codeOf), StartOf(env, f, op), op).Some?
    ensures HandlerDid(env, f, op, ExecMemory(env, f, op),
                       SpecMemoryOp(WorldOf(env, f, codeOf), StartOf(env, f, op), op).value)
  {
    hide C, CppExpansion, Grown, Written, Stored, Incoming, Ranges, AccessPrice, AccessGrown, MemoryOpCost, BigEndian;
    hide AfterAccess, SpecAfter, HandlerDid, AccessOf, HandlingCost, AccessGas, UsageCost;
    MemoryPricesAgree(env, f, op);
    RangesAgree(f, op);
    var a, w := AccessOf(op, StackOf(f)), WorldOf(env, f, codeOf);
    var e1, e2 := CppExpansion(|f.memory|, a.offset, a.size), CppExpansion(|f.memory|, a.from, a.fromSize);
    var grown := AccessGrown(f.memory, a);
    StoredAgrees(env, f, op, codeOf, AccessEvents(env, f, op), grown, e1, e2);
    assert Span(grown, e1.offset, e1.size) == Span(grown, a.offset, a.size);
    AfterAccessAgrees(env, f, op, w, f.gas - AccessGas(env, f, op), SpecPrice(StartOf(env, f, op), op),
                      Span(grown, a.offset, a.size), Written(grown, Incoming(w, op, StackOf(f), grown), a.offset));
  }

  /** A handler for which nothing is specified fails, without touching memory. */
  lemma UnpaidHandlerFails(env: Env, f: Frame, op: Byte, codeOf: Address -> Bytes)
    requires IsMemoryOp(op) && |f.slots| == STACK_LIMIT && RulePops(op) <= f.size <= STACK_LIMIT
    requires Info(env, op).pops <= f.size && InPriceRange(f)
    requires SpecMemoryOp(WorldOf(env, f, codeOf), StartOf(env, f, op), op).None?
    ensures var r := ExecMemory(env, f, op); (r.cost > f.gas || IsFailure(r.state)) && r.frame.memory == f.memory
  {
    hide C, CppExpansion, Grown, Written, Stored, Incoming, Ranges, AccessPrice, AccessGrown, MemoryOpCost, BigEndian;
    hide AfterAccess, SpecAfter, AccessOf, HandlingCost, AccessGas, UsageCost;
    MemoryPricesAgree(env, f, op);
  }

  /** Completing a handler that has done what is specified completes the rule ... */
  lemma CompleteAgrees(env: Env, f: Frame, op: Byte, codeOf: Address -> Bytes, charged: Frame, x: Exec, info: OpInfo)
    requires IsMemoryOp(op) && |f.slots| == STACK_LIMIT && RulePops(op) <= f.size <= STACK_LIMIT
    requires MemoryRule(env, f, op, codeOf).Some? && charged == f.(gas := charged.gas)
    requires HandlerDid(env, charged, op, x, MemoryRule(env, f, op, codeOf).value)
    requires 0 <= MemoryRule(env, f, op, codeOf).value.gas <= charged.gas
    requires info.pops == RulePops(op) && info.pushes == if op == SHA3 || op == MLOAD then 1 else 0
    ensures FollowsMemoryRule(env, f, op, codeOf, Complete(x, info, charged.gas, f.pc + 1, f.size + Delta(info)))
  {
    hide LogEvents, MemoryRule;
    var s := MemoryRule(env, f, op, codeOf).value;
    var r := Complete(x, info, charged.gas, f.pc + 1, f.size + Delta(info));
    assert r.gas == s.gas && HasStack(r, s.stack);
    assert AccessEvents(env, charged, op) == AccessEvents(env, f, op);
    hide HasStack, AccessEvents;
  }

  /** ... and completing one that has failed fails. */
  lemma CompleteFails(env: Env, f: Frame, op: Byte, codeOf: Address -> Bytes, charged: Frame, x: Exec, info: OpInfo)
    requires IsMemoryOp(op) && |f.slots| == STACK_LIMIT && 0 <= f.size <= STACK_LIMIT
    requires MemoryRule(env, f, op, codeOf).None? && x.frame.memory == f.memory
    requires (x.cost > charged.gas || IsFailure(x.state))
    ensures FollowsMemoryRule(env, f, op, codeOf, Complete(x, info, charged.gas, f.pc + 1, f.size + Delta(info)))
  {
    hide MemoryRule;
  }

  /** Whether the handler of an opcode is reached says nothing about memory and gas. */
  lemma ChecksAgree(env: Env, f: Frame, op: Byte, codeOf: Address -> Bytes)
    requires IsMemoryOp(op) && |f.slots| == STACK_LIMIT && 0 <= f.size <= STACK_LIMIT
    ensures !PassesChecks(env, f, op) ==> MemoryRule(env, f, op, codeOf).None?
    ensures PassesChecks(env, f, op) ==>
      && Charged(env, f, op) == f.(gas := f.gas - RuleGas(op)) && f.size >= RulePops(op)
      && MemoryRule(env, f, op, codeOf)
        == SpecMemoryOp(WorldOf(env, f, codeOf), StartOf(env, Charged(env, f, op), op), op)
  {
    hide Info, SpecMemoryOp, AccessGas, StackOf, RuleGas;
    PopsAgree(env, op);
    if f.size >= RulePops(op) {
      var charged := f.(gas := f.gas - Min(RuleGas(op), f.gas));
      SameStack(f, charged);
      SameAccessGas(env, f, charged, op);
      NegativeGasFails(WorldOf(env, f, codeOf),
                       RuleState(f.gas - RuleGas(op) - AccessGas(env, f, op), StackOf(f), f.memory, [], []), op);
    }
  }

  lemma SameAccessGas(env: Env, f: Frame, g: Frame, op: Byte)
    requires |f.slots| == STACK_LIMIT && 1 <= f.size <= STACK_LIMIT && g == f.(gas := g.gas)
    ensures AccessGas(env, f, op) == AccessGas(env, g, op)
  {
    SameStack(f, g);
  }

  lemma NegativeGasFails(w: World, s: RuleState, op: Byte)
    requires IsMemoryOp(op) && |s.stack| >= RulePops(op)
    ensures s.gas < 0 ==> SpecMemoryOp(w, s, op).None?
  {
    hide SpecPrice, SpecEffect;
  }

  /** A price that leaves a negative amount was not affordable. */
  lemma RuleGasBounds(w: World, s: RuleState, op: Byte)
    requires IsMemoryOp(op) && |s.stack| >= RulePops(op) && SpecMemoryOp(w, s, op).Some?
    ensures 0 <= SpecMemoryOp(w, s, op).value.gas <= s.gas
  {
    hide SpecPrice, AccessGrown, AccessOf;
  }

  lemma ExecuteIsMemory(env: Env, f: Frame, op: Byte)
    requires IsMemoryOp(op) && |f.slots| == STACK_LIMIT && Info(env, op).pops <= f.size <= STACK_LIMIT && !IsPush(op)
    ensures Execute(env, f, op) == ExecMemory(env, f, op)
  {
    hide ExecMemory;
  }

  lemma PassedMemoryOp(env: Env, f: Frame, op: Byte, codeOf: Address -> Bytes, charged: Frame, x: Exec, info: OpInfo)
    requires IsMemoryOp(op) && |f.slots| == STACK_LIMIT && RulePops(op) <= f.size <= STACK_LIMIT
    requires RuleGas(op) <= f.gas && charged == f.(gas := f.gas - RuleGas(op)) && InPriceRange(charged)
    requires SeesCode(env, codeOf)
    requires MemoryRule(env, f, op, codeOf)
      == SpecMemoryOp(WorldOf(env, charged, codeOf), StartOf(env, charged, op), op)
    requires info.pops == RulePops(op) && info.pushes == if op == SHA3 || op == MLOAD then 1 else 0
    requires Info(env, op).pops <= f.size && x == ExecMemory(env, charged, op)
    ensures FollowsMemoryRule(env, f, op, codeOf, Complete(x, info, charged.gas, f.pc + 1, f.size + Delta(info)))
  {
    hide C, Info, ExecMemory, SpecMemoryOp, HandlerDid;
    hide AccessGas, MemoryRule, StackOf, FollowsMemoryRule, Complete, Delta;
    hide InPriceRange, SeesCode, RuleGas, IsMemoryOp;
    if MemoryRule(env, f, op, codeOf).Some? {
      PaidHandlerAgrees(env, charged, op, codeOf);
      RuleGasBounds(WorldOf(env, charged, codeOf), StartOf(env, charged, op), op);
      CompleteAgrees(env, f, op, codeOf, charged, x, info);
    } else {
      UnpaidHandlerFails(env, charged, op, codeOf);
      CompleteFails(env, f, op, codeOf, charged, x, info);
    }
  }

  /** Every memory opcode does in evmzero what its rule does to a test state, and fails where that fails. */
  lemma MemoryOpsFollowRules(env: Env, f: Frame, stepping: bool, codeOf: Address -> Bytes)
    requires f.state.Running? && Valid(env, f) && IsMemoryOp(OpAt(env, f)) && InPriceRange(f) && SeesCode(env, codeOf)
    ensures FollowsMemoryRule(env, f, OpAt(env, f), codeOf, RunOp(env, f, stepping))
  {
    hide InPriceRange, RunOp, Execute, ExecMemory, Complete, Info;
    hide Delta, FollowsMemoryRule, OpAt, StackOf, IsStart, IsMemoryOp;
    var op := OpAt(env, f);
    DispatchResult(env, f, stepping);
    PopsAgree(env, op);
    if PassesChecks(env, f, op) {
      var charged := Charged(env, f, op);
      ChecksAgree(env, f, op, codeOf);
      PriceRangeKept(f, charged);
      ExecuteIsMemory(env, charged, op);
      PassedMemoryOp(env, f, op, codeOf, charged, ExecMemory(env, charged, op), Info(env, op));
    } else {
      FailedMemoryOp(env, f, op, codeOf, RunOp(env, f, stepping));
    }
  }

  lemma PriceRangeKept(f: Frame, charged: Frame)
    requires InPriceRange(f) && charged.memory == f.memory && charged.gas <= f.gas
    ensures InPriceRange(charged)
  {}

  lemma FailedMemoryOp(env: Env, f: Frame, op: Byte, codeOf: Address -> Bytes, r: Frame)
    requires IsMemoryOp(op) && |f.slots| == STACK_LIMIT && 0 <= f.size <= STACK_LIMIT && !PassesChecks(env, f, op)
    requires IsFailure(r.state) && r.memory == f.memory
    ensures FollowsMemoryRule(env, f, op, codeOf, r)
  {
    ChecksAgree(env, f, op, codeOf);
    hide MemoryRule;
  }

  // --------------------------------------------------------------- stored words

  lemma GrownForWord(memory: Bytes, o: Word)
    ensures AccessGrown(memory, Access(o, 32, 0, 0)) == Grown(memory, o, 32)
    ensures o + 32 <= |memory| ==> Grown(memory, o, 32) == memory
  {}

  /** What MSTORE leaves in memory, and what MLOAD finds there. */
  lemma StoreEffect(w: World, s: RuleState, price: nat)
    requires |s.stack| >= 2
    ensures var r, o := SpecEffect(w, s, MSTORE, price), s.stack[0];
      r.stack == s.stack[2..] && r.memory == Written(Grown(s.memory, o, 32), Digits(s.stack[1], 32), o)
  {
    hide Digits, Grown, Written, Span, AccessGrown;
    GrownForWord(s.memory, s.stack[0]);
  }

  lemma LoadEffect(w: World, s: RuleState, price: nat)
    requires |s.stack| >= 1 && s.stack[0] + 32 <= |s.memory|
    ensures var r, o := SpecEffect(w, s, MLOAD, price), s.stack[0];
      r.stack == [BigEndian(Span(s.memory, o, 32)) % TWO_256] + s.stack[1..] && r.memory == s.memory
  {
    hide BigEndian, Grown, Written, Span, AccessGrown;
    GrownForWord(s.memory, s.stack[0]);
    WrittenNothing(s.memory, s.stack[0], s.stack[0]);
  }

  /** Loading from where a word was stored gives the word back, whatever is around it. */
  lemma StoreThenLoad(w: World, s: RuleState, price1: nat, price2: nat)
    requires |s.stack| >= 2 && |s.memory| % 32 == 0
    ensures var stored := SpecEffect(w, s, MSTORE, price1);
      var loaded := SpecEffect(w, stored.(stack := [s.stack[0]] + stored.stack), MLOAD, price2);
      loaded.stack == [s.stack[1]] + s.stack[2..] && loaded.memory == stored.memory
  {
    var o, stored := s.stack[0], SpecEffect(w, s, MSTORE, price1);
    GrownFits(s.memory, o, 32);
    StoreEffect(w, s, price1);
    StoredWord(Grown(s.memory, o, 32), o, s.stack[1]);
    hide SpecEffect, Digits, BigEndian, Grown, Written, Span;
    LoadEffect(w, stored.(stack := [o] + stored.stack), price2);
  }

  lemma StoredWord(memory: Bytes, o: nat, v: Word)
    requires o + 32 <= |memory|
    ensures BigEndian(Span(Written(memory, Digits(v, 32), o), o, 32)) % TWO_256 == v
  {
    hide Digits, BigEndian, Pow256;
    WordBytes();
    BigEndianOfDigits(v, 32);
    assert Span(Written(memory, Digits(v, 32), o), o, 32) == Digits(v, 32);
  }

  // ------------------------------------------------------------------------ calls

  /** evmzero reads the operands that the rules pop. */
  lemma OperandsAgree(f: Frame, op: Byte)
    requires IsCall(op) && |f.slots| == STACK_LIMIT && Pops(op) <= f.size <= STACK_LIMIT
    ensures CallOperands(f, op) == ArgsOf(op, StackOf(f))
  {}

  /** The first operand behind gas, target and value. */
  function RangesAt(op: Byte): nat { if op == CALL || op == CALLCODE then 3 else 2 }

  /** Memory grown for the input and the output of a call, by their positions on the stack. */
  function CallGrown(op: Byte, stack: seq<Word>, memory: Bytes): Bytes
    requires |stack| >= RangesAt(op) + 4
  {
    var i := RangesAt(op);
    Grown(Grown(memory, stack[i], stack[i + 1]), stack[i + 2], stack[i + 3])
  }

  /** The output goes to its range, as far as it fits; all other bytes are those of the grown memory. */
  ghost predicate WritesOutput(op: Byte, stack: seq<Word>, memory: Bytes, after: Bytes, output: Bytes)
    requires |stack| >= RangesAt(op) + 4
  {
    var grown, offset, size := CallGrown(op, stack, memory), stack[RangesAt(op) + 2], stack[RangesAt(op) + 3];
    && |after| == |grown|
    && forall j :: 0 <= j < |grown| ==>
      (after[j] == if offset <= j < offset + size && j - offset < |output| then output[j - offset] else grown[j])
  }

  /** The message of a call is made of its operands. */
  ghost predicate CarriesOperands(op: Byte, stack: seq<Word>, memory: Bytes, m: Message)
    requires |stack| >= RangesAt(op) + 4
  {
    var i := RangesAt(op);
    && m.codeAddress == ToAddress(stack[1]) && (i == 3 ==> m.value == stack[2])
    && m.input == Span(CallGrown(op, stack, memory), stack[i], stack[i + 1])
    && m.gas <= stack[0] + (if i == 3 && stack[2] != 0 then STIPEND else 0)
  }

  lemma OutputWritten(op: Byte, stack: seq<Word>, memory: Bytes, output: Bytes)
    requires |stack| >= RangesAt(op) + 4 && |memory| % 32 == 0
    ensures var grown, offset, size := CallGrown(op, stack, memory), stack[RangesAt(op) + 2], stack[RangesAt(op) + 3];
      && WritesOutput(op, stack, memory, grown, [])
      && WritesOutput(op, stack, memory, Written(grown, output[..Min(size, |output|)], offset), output)
  {
    var i := RangesAt(op);
    var once := Grown(memory, stack[i], stack[i + 1]);
    var grown, offset, size := CallGrown(op, stack, memory), stack[i + 2], stack[i + 3];
    GrownFits(memory, stack[i], stack[i + 1]);
    GrownFits(once, offset, size);
    var data := output[..Min(size, |output|)];
    hide Grown, CallGrown;
    if size == 0 {
      WrittenNothing(grown, offset, offset);
      assert data == [];
    } else {
      WrittenAt(grown, data, offset);
    }
    hide Written;
  }

  /** The parts of a nested call in the rules. */
  lemma SpecForwardShape(ctx: Context, accounts: Accounts, s: CtState, envelope: Message, a: Args)
    requires s.gas >= 0
    ensures var r := SpecForward(ctx, accounts, s, envelope, a);
      var stipend, child := if a.value != 0 then STIPEND else 0, Min(a.gas, s.gas - s.gas / 64);
      && |r.stack| == 1 + |s.stack| && r.stack[1..] == s.stack
      && if a.value != 0 && BalanceOf(accounts, ctx.self) < a.value then
           r.past == s.past && r.memory == s.memory && r.returnData == []
         else
           && r.past == s.past + [envelope.(gas := child + stipend, input := Span(s.memory, a.inOffset, a.inSize))]
           && r.memory == Written(s.memory, r.returnData[..Min(a.outSize, |r.returnData|)], a.outOffset)
  {
    hide Written, Span, JournalAnswer, BalanceOf;
  }

  ghost predicate RuleUsed(ctx: Context, accounts: Accounts, s: CtState, op: Byte, r: CtState)
    requires |s.stack| >= RangesAt(op) + 4
  {
    var value := if RangesAt(op) == 3 then s.stack[2] else 0;
    && |r.stack| == 1 + |s.stack| - (RangesAt(op) + 4) && r.stack[1..] == s.stack[RangesAt(op) + 4..]
    && WritesOutput(op, s.stack, s.memory, r.memory, r.returnData)
    && if value != 0 && BalanceOf(accounts, ctx.self) < value then r.past == s.past && r.returnData == []
       else |r.past| == |s.past| + 1 && CarriesOperands(op, s.stack, s.memory, r.past[|s.past|])
  }

  /** callEffect, by positions on the stack. */
  lemma RuleUsesOperands(ctx: Context, accounts: Accounts, s: CtState, op: Byte, accessCost: nat)
    requires IsCall(op) && |s.stack| >= Pops(op) && SpecCost(ctx, accounts, s, op, accessCost) <= s.gas
    requires |s.memory| % 32 == 0
    ensures RuleUsed(ctx, accounts, s, op, SpecCall(ctx, accounts, s, op, accessCost))
  {
    hide WritesOutput, CarriesOperands, CallGrown, Written, Span, SpecCost, BalanceOf, SpecWarm, SpecForward, ArgsOf;
    hide Envelope, Journaled, RangesAt, SpecGrown;
    var a := ArgsOf(op, s.stack);
    var charged, envelope := SpecCharged(ctx, accounts, s, op, accessCost), Envelope(op, ctx, a);
    GrownBySpec(op, s.stack, s.memory);
    RangesOfOutput(op, s.stack);
    SpecForwardShape(ctx, accounts, charged, Journaled(envelope), a);
    JournaledCarries(op, ctx, s.stack, s.memory, Min(a.gas, charged.gas - charged.gas / 64));
    OutputWritten(op, s.stack, s.memory, SpecForward(ctx, accounts, charged, Journaled(envelope), a).returnData);
  }

  lemma JournaledCarries(op: Byte, ctx: Context, stack: seq<Word>, memory: Bytes, child: nat)
    requires IsCall(op) && |stack| >= Pops(op)
    ensures var a := ArgsOf(op, stack);
      child <= a.gas ==>
        CarriesOperands(op, stack, memory,
                        Journaled(Envelope(op, ctx, a)).(gas := child + (if a.value != 0 then STIPEND else 0),
                                                         input := Span(CallGrown(op, stack, memory), a.inOffset,
                                                               a.inSize)))
  {
    hide Span, CallGrown;
  }

  /** What an outcome of a call in evmzero tells about its operands; asked is what the host was asked before. */
  ghost predicate OutcomeUsed(op: Byte, ctx: Context, host: Host, stack: seq<Word>, memory: Bytes, asked: seq<Event>,
                              o: Outcome)
    requires |stack| >= RangesAt(op) + 4
  {
    var value := if RangesAt(op) == 3 then stack[2] else 0;
    o.Returned? ==>
      && WritesOutput(op, stack, memory, o.memory, o.returnData)
      && if value != 0 && host.balance(asked, ctx.self) < value then o.message.None?
         else o.message.Some? && CarriesOperands(op, stack, memory, o.message.value)
  }

  lemma ForwardUsesOperands(op: Byte, ctx: Context, host: Host, stack: seq<Word>, memory: Bytes, gas: nat,
                            input: Expansion,
                            output: Expansion, trace: seq<Event>)
    requires IsCall(op) && |stack| >= Pops(op) && |memory| % 32 == 0
    requires SameRange(input, ArgsOf(op, stack).inOffset, ArgsOf(op, stack).inSize)
    requires SameRange(output, ArgsOf(op, stack).outOffset, ArgsOf(op, stack).outSize)
    ensures OutcomeUsed(op, ctx, host, stack, memory, trace,
                        CppForward(ctx, host, ArgsOf(op, stack), Envelope(op, ctx, ArgsOf(op, stack)), gas,
                                   CallGrown(op, stack, memory), input, output, trace))
  {
    hide WritesOutput, CarriesOperands, CallGrown, Written, Span;
    hide CppForward, CppChildGas, Envelope, ArgsOf, SameRange, RangesAt;
    GrownBySpec(op, stack, memory);
    var a, grown := ArgsOf(op, stack), CallGrown(op, stack, memory);
    var o := CppForward(ctx, host, a, Envelope(op, ctx, a), gas, grown, input, output, trace);
    ForwardShape(ctx, host, a, Envelope(op, ctx, a), gas, grown, input, output, trace);
    SameSpan(grown, input, a.inOffset, a.inSize);
    SameOutput(grown, output, a.outOffset, a.outSize, o);
    EnvelopeCarries(op, ctx, stack, memory, CppChildGas(gas, a.gas));
    RangesOfOutput(op, stack);
    if o.Returned? { OutputWritten(op, stack, memory, o.returnData); }
  }

  lemma RangesOfOutput(op: Byte, stack: seq<Word>)
    requires IsCall(op) && |stack| >= Pops(op)
    ensures RangesAt(op) + 4 == Pops(op)
    ensures ArgsOf(op, stack).outOffset == stack[RangesAt(op) + 2]
      && ArgsOf(op, stack).outSize == stack[RangesAt(op) + 3]
  {}

  lemma SameOutput(m: Bytes, e: Expansion, offset: Word, size: Word, o: Outcome)
    requires SameRange(e, offset, size)
    ensures o.Returned? ==>
      Written(m, o.returnData[..Min(e.size, |o.returnData|)], e.offset)
        == Written(m, o.returnData[..Min(size, |o.returnData|)], offset)
    ensures o.Returned? && |o.returnData| == 0 ==> Written(m, o.returnData[..Min(size, |o.returnData|)], offset) == m
  {
    WrittenNothing(m, e.offset, offset);
    hide Written;
    if o.Returned? { assert Min(size, |o.returnData|) == 0 ==> o.returnData[..Min(size, |o.returnData|)] == []; }
  }

  /** The message of a call carries its operands. */
  lemma EnvelopeCarries(op: Byte, ctx: Context, stack: seq<Word>, memory: Bytes, child: nat)
    requires IsCall(op) && |stack| >= Pops(op)
    ensures var a := ArgsOf(op, stack);
      child <= a.gas ==>
        CarriesOperands(op, stack, memory,
                        Envelope(op, ctx, a).(gas := child + (if a.value != 0 then STIPEND else 0),
                                              input := Span(CallGrown(op, stack, memory), a.inOffset, a.inSize)))
  {
    hide Span, CallGrown;
  }

  /** The parts of a nested call. */
  lemma ForwardShape(ctx: Context, host: Host, a: Args, envelope: Message, gas: nat, memory: Bytes, input: Expansion,
                     output: Expansion, trace: seq<Event>)
    ensures var o := CppForward(ctx, host, a, envelope, gas, memory, input, output, trace);
      var stipend, child := if a.value != 0 then STIPEND else 0, CppChildGas(gas, a.gas);
      && child <= a.gas
      && (o.Returned? ==>
            if a.value != 0 && host.balance(trace, ctx.self) < a.value then
              o.message.None? && o.memory == memory && o.returnData == []
            else
              && o.message == Some(envelope.(gas := child + stipend, input := Span(memory, input.offset, input.size)))
              && o.memory == if |o.returnData| > 0
                             then Written(memory, o.returnData[..Min(output.size, |o.returnData|)], output.offset)
                             else memory)
  {
    hide Written, Span;
  }

  /** A call that returns has been paid for and is passed on. */
  lemma ReturnedIsForward(op: Byte, ctx: Context, host: Host, a: Args, gas: nat, memory: Bytes, trace: seq<Event>)
    requires CppCall(op, ctx, host, a, gas, memory, trace).Returned?
    ensures var input, output := CppExpansion(|memory|, a.inOffset, a.inSize),
      CppExpansion(|memory|, a.outOffset, a.outSize);
      var left := gas - Max(input.cost, output.cost) - CppOtherCost(op, ctx, host, trace, a);
      && Max(input.cost, output.cost) <= gas && left >= 0
      && CppCall(op, ctx, host, a, gas, memory, trace)
         == CppForward(ctx, host, a, Envelope(op, ctx, a), left,
                       Grown(Grown(memory, output.offset, output.size), input.offset, input.size), input, output,
                       CppAccess(ctx, host, trace, a.target).1)
  {
    OtherCostBound(op, ctx, host, trace, a);
    hide CppExpansion, CppOtherCost, Grown, Envelope, CppAccess, CppForward;
  }

  lemma GrownBySpec(op: Byte, stack: seq<Word>, memory: Bytes)
    requires IsCall(op) && |stack| >= Pops(op)
    ensures SpecGrown(memory, ArgsOf(op, stack)) == CallGrown(op, stack, memory)
    ensures RangesAt(op) + 4 == Pops(op)
    ensures ArgsOf(op, stack).value == (if RangesAt(op) == 3 then stack[2] else 0)
    ensures ArgsOf(op, stack).target == ToAddress(stack[1])
  {}

  lemma FailedUsesNothing(op: Byte, ctx: Context, host: Host, stack: seq<Word>, memory: Bytes, asked: seq<Event>,
                          o: Outcome)
    requires |stack| >= RangesAt(op) + 4
    ensures o.Failed? ==> OutcomeUsed(op, ctx, host, stack, memory, asked, o)
  {}

  /** The outcome of a call, by positions on the stack. */
  lemma CallUsesOperands(op: Byte, ctx: Context, host: Host, stack: seq<Word>, a: Args, gas: nat, memory: Bytes,
                         trace: seq<Event>)
    requires IsCall(op) && |stack| >= Pops(op) && a == ArgsOf(op, stack)
    requires |memory| % 32 == 0 && |memory| / 32 < CPP_CUTOFF && gas + C(|memory| / 32) < MAX_GAS
    ensures OutcomeUsed(op, ctx, host, stack, memory, CppAccess(ctx, host, trace, a.target).1,
                        CppCall(op, ctx, host, a, gas, memory, trace))
  {
    hide CallGrown, C, CppExpansion, CppOtherCost, CppAccess;
    hide SpecGrown, Grown, SpecMemoryCost, CppForward, CppCall, ArgsOf;
    hide OutcomeUsed, Envelope;
    var o := CppCall(op, ctx, host, a, gas, memory, trace);
    GrownBySpec(op, stack, memory);
    FailedUsesNothing(op, ctx, host, stack, memory, CppAccess(ctx, host, trace, a.target).1, o);
    if o.Returned? {
      var input, output := CppExpansion(|memory|, a.inOffset, a.inSize), CppExpansion(|memory|, a.outOffset, a.outSize);
      ReturnedIsForward(op, ctx, host, a, gas, memory, trace);
      CallMemory(gas, memory, a);
      ForwardUsesOperands(op, ctx, host, stack, memory,
                          gas - Max(input.cost, output.cost) - CppOtherCost(op, ctx, host, trace, a), input, output,
                          CppAccess(ctx, host, trace, a.target).1);
    }
  }

  /** evmzero, by positions on the stack, for every host. */
  lemma HandlerUsesOperands(env: Env, f: Frame, op: Byte)
    requires IsCall(op) && |f.slots| == STACK_LIMIT && Pops(op) <= f.size <= STACK_LIMIT && Solvent(f)
    requires ExecCall(env, f, op).state.Running? && ExecCall(env, f, op).cost <= f.gas
    ensures HandlerUsed(env, f, op, ExecCall(env, f, op).frame)
  {
    hide WritesOutput, CarriesOperands, CppCall, CppAccess, CallOperands;
    hide ArgsOf, C, SetTop, StackOf, ToAddress, RangesAt;
    OperandsAgree(f, op);
    var stack := StackOf(f);
    var a := ArgsOf(op, stack);
    GrownBySpec(op, stack, f.memory);
    FailedIsFailure(op, env.ctx, env.host, a, f.gas, f.memory, f.trace);
    CallUsesOperands(op, env.ctx, env.host, stack, a, f.gas, f.memory, f.trace);
  }

  lemma FailedIsFailure(op: Byte, ctx: Context, host: Host, a: Args, gas: nat, memory: Bytes, trace: seq<Event>)
    ensures var o := CppCall(op, ctx, host, a, gas, memory, trace); o.Failed? ==> IsFailure(o.state)
  {
    hide CppExpansion, CppOtherCost, Grown, Envelope, CppAccess, Span, Written, CppChildGas;
  }

  ghost predicate HandlerUsed(env: Env, f: Frame, op: Byte, r: Frame)
    requires IsCall(op) && |f.slots| == STACK_LIMIT && Pops(op) <= f.size <= STACK_LIMIT
  {
    var stack := StackOf(f);
    var value := if RangesAt(op) == 3 then stack[2] else 0;
    var asked := CppAccess(env.ctx, env.host, f.trace, ToAddress(stack[1])).1;
    && WritesOutput(op, stack, f.memory, r.memory, r.returnData)
    && if value != 0 && env.host.balance(asked, env.ctx.self) < value then r.trace == asked
       else exists m :: r.trace == asked + [Called(m)] && CarriesOperands(op, stack, f.memory, m)
  }

  /** A frame whose host, stack, memory and gas are those of a test state. */
  ghost predicate Represents(env: Env, f: Frame, accounts: Accounts, s: CtState) {
    Resembles(f, s) && env.host == HostOf(accounts, s) && f.trace == []
  }

  ghost predicate Resembles(f: Frame, s: CtState) {
    && |f.slots| == STACK_LIMIT && 0 <= f.size <= STACK_LIMIT
    && StackOf(f) == s.stack && f.gas == s.gas && f.memory == s.memory && f.returnData == s.returnData
      && f.refunds == s.refund
  }

  /** The frame after the test state has become r: everything the two have in common. */
  ghost predicate Became(f: Frame, r: CtState) {
    && f.state.Running? && f.gas == r.gas && HasStack(f, r.stack) && f.memory == r.memory
      && f.returnData == r.returnData
    && f.refunds == r.refund
  }

  /** Gas and memory as test states have them. */
  ghost predicate InTestRange(s: CtState) {
    |s.memory| % 32 == 0 && 0 <= s.gas <= MAX_CT_GAS && C(|s.memory| / 32) <= MAX_CT_GAS
  }

  lemma CallInfo(env: Env, op: Byte)
    requires IsCall(op)
    ensures Info(env, op) == OpInfo(Pops(op), 1, 0, false, ISTANBUL) && Width(op) == 1 && !IsJump(op) && !IsPush(op)
    ensures Pops(op) >= 6
  {}

  /** A call completed by the dispatch is the outcome of CallImpl on the stack. */
  lemma CompletedCall(env: Env, f: Frame, op: Byte, o: Outcome)
    requires IsCall(op) && |f.slots| == STACK_LIMIT && Pops(op) <= f.size <= STACK_LIMIT
    requires o == CppCall(op, env.ctx, env.host, CallOperands(f, op), f.gas, f.memory, f.trace)
    ensures var r := Complete(ExecCall(env, f, op), Info(env, op), f.gas, f.pc + 1, f.size + Delta(Info(env, op)));
      && (o.Failed? ==> IsFailure(r.state))
      && (o.Returned? && o.gas <= f.gas ==>
            && r.state.Running? && r.pc == f.pc + 1 && r.gas == o.gas && r.memory == o.memory
              && r.returnData == o.returnData
            && r.refunds == f.refunds + o.refund
            && HasStack(r, [if o.success then 1 else 0] + StackOf(f)[Pops(op)..]))
  {
    hide CppCall, CppAccess, CallOperands, Info, SetTop, StackOf;
    CallInfo(env, op);
    FailedIsFailure(op, env.ctx, env.host, CallOperands(f, op), f.gas, f.memory, f.trace);
    ResultSlot(f, Pops(op) - 1);
    if o.Returned? { SlotStack(f, Pops(op), if o.success then 1 else 0); }
  }

  lemma SlotStack(f: Frame, pops: nat, w: Word)
    requires |f.slots| == STACK_LIMIT && 1 <= pops <= f.size <= STACK_LIMIT
    ensures forall r: Frame :: r.slots == SetTop(f, pops - 1, w) && r.size == f.size + 1 - pops ==>
      HasStack(r, [w] + StackOf(f)[pops..])
  {
    ResultSlot(f, pops - 1);
  }

  /** A call leaves no more gas than there was. */
  lemma CallLeavesGas(op: Byte, ctx: Context, host: Host, a: Args, gas: nat, memory: Bytes, trace: seq<Event>)
    requires Honest(host)
    ensures var o := CppCall(op, ctx, host, a, gas, memory, trace); o.Returned? ==> o.gas <= gas
  {
    CppCostNonNegative(|memory|, a.inOffset, a.inSize);
    CppCostNonNegative(|memory|, a.outOffset, a.outSize);
    OtherCostBound(op, ctx, host, trace, a);
    hide CppExpansion, CppOtherCost, Grown, Envelope, CppAccess, Span, Written;
  }

  lemma CallHandlerAgrees(env: Env, f: Frame, accounts: Accounts, s: CtState, op: Byte)
    requires IsCall(op) && Represents(env, f, accounts, s) && f.size >= Pops(op) && InTestRange(s)
    requires env.ctx.depth <= MAX_CALL_DEPTH && Info(env, op).pops <= f.size
    requires !ColdSelfDelegation(env.ctx, accounts, s.warm, ToAddress(s.stack[1]))
    ensures var rule := SpecRule(env.ctx, accounts, s, op);
      var c := Complete(ExecCall(env, f, op), Info(env, op), f.gas, f.pc + 1, f.size + Delta(Info(env, op)));
      if rule.None? then IsFailure(c.state) else Became(c, rule.value) && c.pc == f.pc + 1
  {
    OperandsAgree(f, op);
    HostIsHonest(accounts, s);
    var a := ArgsOf(op, s.stack);
    assert a.target == ToAddress(s.stack[1]);
    hide CppCall, SpecRule, Info, ExecCall, Complete, CallOperands, ArgsOf, C, HostOf, StackOf, ColdSelfDelegation;
    CallsAgree(env.ctx, accounts, s, op);
    CallLeavesGas(op, env.ctx, env.host, a, f.gas, f.memory, []);
    CompletedCall(env, f, op, CppCall(op, env.ctx, env.host, a, f.gas, f.memory, []));
  }

  /** Every call does in evmzero what its rule does to a test state, and fails where that fails. */
  lemma CallsFollowRules(env: Env, f: Frame, stepping: bool, accounts: Accounts, s: CtState)
    requires f.state.Running? && Valid(env, f) && IsCall(OpAt(env, f)) && Represents(env, f, accounts, s)
    requires InTestRange(s)
    requires env.ctx.depth <= MAX_CALL_DEPTH
    requires f.size >= 2 ==> !ColdSelfDelegation(env.ctx, accounts, s.warm, ToAddress(s.stack[1]))
    ensures var op, r := OpAt(env, f), RunOp(env, f, stepping);
      if f.size < Pops(op) || SpecRule(env.ctx, accounts, s, op).None? then IsFailure(r.state)
      else Became(r, SpecRule(env.ctx, accounts, s, op).value) && r.pc == f.pc + 1
  {
    hide SpecRule, Info, RunOp, Execute, ExecCall, Complete, C, HostOf, StackOf, Became, IsStart, InTestRange, OpAt;
    hide ColdSelfDelegation, ToAddress;
    var op := OpAt(env, f);
    DispatchResult(env, f, stepping);
    CallInfo(env, op);
    if f.size >= Pops(op) {
      ExecuteIsCall(env, f, op);
      CallHandlerAgrees(env, f, accounts, s, op);
    }
  }

  lemma ExecuteIsCall(env: Env, f: Frame, op: Byte)
    requires IsCall(op) && |f.slots| == STACK_LIMIT && Pops(op) <= f.size <= STACK_LIMIT && Info(env, op).pops <= f.size
    requires !IsPush(op) && Info(env, op).staticGas == 0
    ensures Execute(env, f, op) == ExecCall(env, f, op)
  {
    hide ExecCall;
  }

  lemma HostIsHonest(accounts: Accounts, s: CtState)
    ensures Honest(HostOf(accounts, s))
  {}

  // ---------------------------------------------------------------------- creates

  lemma CreateInfo(env: Env, op: Byte)
    requires IsCreate(op)
    ensures Info(env, op) == OpInfo(CreatePops(op), 1, 32000, true, ISTANBUL)
    ensures Width(op) == 1 && !IsJump(op) && !IsPush(op) && !IsCall(op) && !IsMemoryOp(op) && op != STOP
      && op != JUMPDEST
  {}

  /** The price of a create and the memory it buys, by positions on the stack. */
  function StackPrice(env: Env, f: Frame, op: Byte): nat
    requires IsCreate(op) && |f.slots| == STACK_LIMIT && CreatePops(op) <= f.size <= STACK_LIMIT
  {
    PriceFor(env.ctx, f.memory, op, StackOf(f)[1], StackOf(f)[2])
  }

  /** If the memory is affordable and small, evmzero charges the exact price. */
  lemma CreatePriced(env: Env, f: Frame, op: Byte)
    requires IsCreate(op) && |f.slots| == STACK_LIMIT && CreatePops(op) <= f.size <= STACK_LIMIT && Solvent(f)
    requires CppExpansion(|f.memory|, StackOf(f)[1], StackOf(f)[2]).cost <= f.gas
    ensures var e := CppExpansion(|f.memory|, StackOf(f)[1], StackOf(f)[2]);
      && SameRange(e, StackOf(f)[1], StackOf(f)[2])
      && e.cost + CreateWordCost(env, op, e.size) == StackPrice(env, f, op)
      && Grown(f.memory, e.offset, e.size) == Grown(f.memory, StackOf(f)[1], StackOf(f)[2])
  {
    hide C, CppExpansion;
    var have, offset, size := |f.memory| / 32, StackOf(f)[1], StackOf(f)[2];
    assert |f.memory| == 32 * have;
    CppNeverUndercharges(f.gas, have, offset, size);
    assert ExactCost(have, 0, 0) == 0;
    SequentialGrowth(have, offset, size, 0, 0);
    hide StackOf;
    if size != 0 { assert Words64(size) == Words(size); }
  }

  /** What a create that runs leaves behind: left is the gas once all is paid. */
  ghost predicate Created(env: Env, f: Frame, op: Byte, left: nat, r: Frame, gas: int)
    requires IsCreate(op) && |f.slots| == STACK_LIMIT && CreatePops(op) <= f.size <= STACK_LIMIT
  {
    var stack := StackOf(f);
    var grown := Grown(f.memory, stack[1], stack[2]);
    var m := Message(if op == CREATE2 then Create2Kind else CreateKind, false, env.ctx.depth + 1, left - left / 64,
                     env.ctx.self, 0, 0, stack[0], if op == CREATE2 then stack[3] else 0,
                     Span(grown, stack[1], stack[2]));
    var answer := env.host.call(f.trace, m);
    var refused := stack[0] != 0 && env.host.balance(f.trace, env.ctx.self) < stack[0];
    && |r.slots| == STACK_LIMIT && r.memory == grown
    && r.slots[STACK_LIMIT - f.size + CreatePops(op) - 1..] ==
       [if !refused && answer.success then answer.created else 0] + stack[CreatePops(op)..]
    && if refused then gas == left && r.trace == f.trace && r.returnData == [] && r.refunds == f.refunds
       else
         && r.trace == f.trace + [Called(m)] && gas == left - (m.gas - answer.gasLeft)
         && r.returnData == (if answer.reverted then answer.output else []) && r.refunds == f.refunds + answer.refund
  }

  /**
   * For every host: a create that goes on has paid its exact price, passes on exactly all but one 64th
   * of what is left, so that the caller keeps at least one 64th, and gets back what is not used. The
   * message carries value, salt and init code, and the created address is pushed exactly on success.
   */
  lemma CreateGas(env: Env, f: Frame, op: Byte)
    requires IsCreate(op) && |f.slots| == STACK_LIMIT && CreatePops(op) <= f.size <= STACK_LIMIT && Solvent(f)
    requires Info(env, op).pops <= f.size && Honest(env.host)
    ensures var x := ExecCreate(env, f, op);
      x.state.Running? && x.cost <= f.gas ==>
        var left := f.gas - StackPrice(env, f, op);
        && 0 <= left && Created(env, f, op, left, x.frame, f.gas - x.cost) && left / 64 <= f.gas - x.cost <= left
        && x.frame == f.(slots := x.frame.slots, memory := x.frame.memory, returnData := x.frame.returnData,
                         refunds := x.frame.refunds, trace := x.frame.trace)
  {
    hide C, CppExpansion, Grown, Span, CreateWordCost, PriceFor, Info, CreateForward, Created, StackOf;
    CreateInfo(env, op);
    StackTop(f, 1);
    StackTop(f, 2);
    var offset, size := StackOf(f)[1], StackOf(f)[2];
    var e := CppExpansion(|f.memory|, offset, size);
    if ExecCreate(env, f, op).state.Running? && ExecCreate(env, f, op).cost <= f.gas {
      CreatePriced(env, f, op);
      var left, grown := f.gas - StackPrice(env, f, op), Grown(f.memory, offset, size);
      SameSpan(grown, e, offset, size);
      ForwardCreates(env, f, op, left);
    }
  }

  lemma StackTop(f: Frame, k: nat)
    requires |f.slots| == STACK_LIMIT && k < f.size <= STACK_LIMIT
    ensures Top(f, k) == StackOf(f)[k]
  {}

  lemma SameSpan(m: Bytes, e: Expansion, offset: Word, size: Word)
    requires SameRange(e, offset, size)
    ensures Span(m, e.offset, e.size) == Span(m, offset, size)
  {}

  lemma ForwardCreates(env: Env, f: Frame, op: Byte, left: nat)
    requires IsCreate(op) && |f.slots| == STACK_LIMIT && CreatePops(op) <= f.size <= STACK_LIMIT
    requires Info(env, op).pops <= f.size && Honest(env.host)
    ensures var stack := StackOf(f);
      var grown := Grown(f.memory, stack[1], stack[2]);
      var x := CreateForward(env, f, op, left, grown, Span(grown, stack[1], stack[2]));
      && x.state.Running? && Created(env, f, op, left, x.frame, f.gas - x.cost) && left / 64 <= f.gas - x.cost <= left
      && x.frame == f.(slots := x.frame.slots, memory := x.frame.memory, returnData := x.frame.returnData,
                       refunds := x.frame.refunds, trace := x.frame.trace)
  {
    hide Grown, Span, Info, StackOf, Top, SetTop;
    CreateInfo(env, op);
    StackTop(f, 0);
    if op == CREATE2 { StackTop(f, 3); }
    ResultSlot(f, CreatePops(op) - 1);
  }

  /** Writing the result over the operand at k, the last one, leaves it on top of the other words. */
  lemma ResultSlot(f: Frame, k: nat)
    requires |f.slots| == STACK_LIMIT && k < f.size <= STACK_LIMIT
    ensures forall w: Word :: |SetTop(f, k, w)| == STACK_LIMIT
    ensures forall w: Word :: SetTop(f, k, w)[STACK_LIMIT - f.size + k..] == [w] + StackOf(f)[k + 1..]
  {}

  /** What the rules for a create do to a test state. */
  function CreateRule(ctx: Context, accounts: Accounts, s: CtState, op: Byte): Option<CtState>
    requires IsCreate(op)
  {
    if |s.stack| < CreatePops(op) || ctx.isStatic || s.gas < 32000 then None
    else SpecCreate(ctx, accounts, s.(gas := s.gas - 32000), op)
  }

  /** A host that answers from accounts and a journal. */
  ghost predicate Answers(host: Host, accounts: Accounts, future: seq<FutureCall>) {
    && (forall trace, a :: host.balance(trace, a) == BalanceOf(accounts, a))
    && (forall trace, m :: host.call(trace, m) == JournalAnswer(future, m))
  }

  /** The nested execution in evmzero and in the rules. */
  lemma NestedAgrees(env: Env, f: Frame, accounts: Accounts, s: CtState, op: Byte, price: nat, x: Exec)
    requires IsCreate(op) && Resembles(f, s) && Answers(env.host, accounts, s.future) && f.size >= CreatePops(op)
    requires price <= f.gas
    requires Created(env, f, op, f.gas - price, x.frame, f.gas - x.cost)
    ensures var r := SpecCreated(env.ctx, accounts, s, op, price);
      && f.gas - x.cost == r.gas && x.frame.memory == r.memory && x.frame.returnData == r.returnData
      && x.frame.refunds == r.refund
      && |x.frame.slots| == STACK_LIMIT && x.frame.slots[STACK_LIMIT - f.size + CreatePops(op) - 1..] == r.stack
  {
    hide Grown, Span, BalanceOf, StackOf;
  }

  lemma UnpaidCreateFails(env: Env, f: Frame, accounts: Accounts, s: CtState, op: Byte)
    requires IsCreate(op) && Resembles(f, s) && Answers(env.host, accounts, s.future) && f.size >= CreatePops(op)
    requires Info(env, op).pops <= f.size
    requires InPriceRange(f) && Solvent(f) && env.ctx.depth <= MAX_CALL_DEPTH && Refused(env.ctx, s, op)
    ensures var x := ExecCreate(env, f, op); x.cost > f.gas || IsFailure(x.state)
  {
    hide C, CppExpansion, Grown, Span, CreateWordCost, PriceFor, Info, CreateForward, StackOf;
    CreateInfo(env, op);
    StackTop(f, 1);
    StackTop(f, 2);
    if CppExpansion(|f.memory|, StackOf(f)[1], StackOf(f)[2]).cost <= f.gas { CreatePriced(env, f, op); }
  }

  lemma PaidCreateRuns(env: Env, f: Frame, accounts: Accounts, s: CtState, op: Byte)
    requires IsCreate(op) && Resembles(f, s) && Answers(env.host, accounts, s.future) && f.size >= CreatePops(op)
    requires Info(env, op).pops <= f.size
    requires InPriceRange(f) && Solvent(f) && env.ctx.depth <= MAX_CALL_DEPTH && !Refused(env.ctx, s, op)
    ensures var x := ExecCreate(env, f, op); x.state.Running? && x.cost <= f.gas
  {
    hide C, CppExpansion, Grown, Span, CreateWordCost, Info, StackOf;
    CreateInfo(env, op);
    StackTop(f, 1);
    StackTop(f, 2);
    var have, offset, size := |f.memory| / 32, StackOf(f)[1], StackOf(f)[2];
    assert |f.memory| == 32 * have;
    CppPricesExactly(f.gas, have, offset, size);
    assert ExactCost(have, 0, 0) == 0;
    SequentialGrowth(have, offset, size, 0, 0);
    hide ExactCost;
    CreatePriced(env, f, op);
    hide PriceFor;
  }

  /** A completed create. */
  lemma CompletedCreate(env: Env, f: Frame, op: Byte, x: Exec, gas: nat, r: CtState)
    requires IsCreate(op) && |f.slots| == STACK_LIMIT && CreatePops(op) <= f.size <= STACK_LIMIT
    requires x.state.Running? && 0 <= r.gas == gas - x.cost && x.cost >= 0 && x.frame.memory == r.memory
    requires x.frame.returnData == r.returnData && x.frame.refunds == r.refund
    requires |x.frame.slots| == STACK_LIMIT && x.frame.slots[STACK_LIMIT - f.size + CreatePops(op) - 1..] == r.stack
    ensures var c := Complete(x, Info(env, op), gas, f.pc + 1, f.size + Delta(Info(env, op)));
      Became(c, r) && c.pc == f.pc + 1
  {
    CreateInfo(env, op);
    hide Info;
  }

  /** The handler of a create that has passed the checks, on a frame without the static gas. */
  lemma CreateHandlerAgrees(env: Env, f: Frame, accounts: Accounts, s: CtState, op: Byte, x: Exec)
    requires IsCreate(op) && Resembles(f, s) && Answers(env.host, accounts, s.future) && Honest(env.host)
    requires f.size >= CreatePops(op) && Info(env, op).pops <= f.size && x == ExecCreate(env, f, op)
    requires InPriceRange(f) && Solvent(f) && env.ctx.depth <= MAX_CALL_DEPTH
    ensures var rule := SpecCreate(env.ctx, accounts, s, op);
      var c := Complete(x, Info(env, op), f.gas, f.pc + 1, f.size + Delta(Info(env, op)));
      if rule.None? then IsFailure(c.state) else Became(c, rule.value) && c.pc == f.pc + 1
  {
    hide C, Info, ExecCreate, Created, Became, SpecCreated, StackOf, Honest, Answers;
    if Refused(env.ctx, s, op) {
      UnpaidCreateFails(env, f, accounts, s, op);
    } else {
      PaidCreateRuns(env, f, accounts, s, op);
      CreateGas(env, f, op);
      var price := CreatePrice(env.ctx, s, op);
      NestedAgrees(env, f, accounts, s, op, price, x);
      CompletedCreate(env, f, op, x, f.gas, SpecCreated(env.ctx, accounts, s, op, price));
    }
  }

  /** Every create does in evmzero what its rule does to a test state, and fails where that fails. */
  lemma CreatesFollowRules(env: Env, f: Frame, stepping: bool, accounts: Accounts, s: CtState)
    requires f.state.Running? && Valid(env, f) && IsCreate(OpAt(env, f)) && Represents(env, f, accounts, s)
    requires InTestRange(s)
    requires env.ctx.depth <= MAX_CALL_DEPTH
    ensures var op, r := OpAt(env, f), RunOp(env, f, stepping);
      var rule := CreateRule(env.ctx, accounts, s, op);
      if rule.None? then IsFailure(r.state) else Became(r, rule.value) && r.pc == f.pc + 1
  {
    hide C, Info, RunOp, Execute, ExecCreate, Complete, Honest, Answers, HostOf, IsStart, StackOf, InTestRange, OpAt;
    hide Became, SpecCreate, InPriceRange, Solvent;
    var op := OpAt(env, f);
    DispatchResult(env, f, stepping);
    CreateInfo(env, op);
    HostIsHonest(accounts, s);
    HostAnswers(accounts, s);
    if PassesChecks(env, f, op) {
      var charged, paid := Charged(env, f, op), s.(gas := s.gas - 32000);
      CreateInRange(s, charged);
      SameStack(f, charged);
      ExecuteIsCreate(env, charged, op);
      CreateHandlerAgrees(env, charged, accounts, paid, op, ExecCreate(env, charged, op));
    }
  }

  lemma HostAnswers(accounts: Accounts, s: CtState)
    ensures Answers(HostOf(accounts, s), accounts, s.future)
  {}

  lemma ExecuteIsCreate(env: Env, f: Frame, op: Byte)
    requires IsCreate(op) && |f.slots| == STACK_LIMIT && Info(env, op).pops <= f.size <= STACK_LIMIT && !IsPush(op)
    ensures Execute(env, f, op) == ExecCreate(env, f, op)
  {
    hide ExecCreate;
  }

  lemma CreateInRange(s: CtState, f: Frame)
    requires InTestRange(s) && f.memory == s.memory && f.gas <= s.gas
    ensures InPriceRange(f) && Solvent(f)
  {
    var have := |s.memory| / 32;
    CtGasIsInRange(f.gas, have);
    CppPricesExactly(f.gas, have, 0, 0);
  }
}
