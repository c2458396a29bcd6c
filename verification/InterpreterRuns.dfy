/** Whole runs of the evmzero interpreter. */
module InterpreterRuns {
  import opened Evm
  import opened Encoding
  import opened CodeScan
  import opened MemoryCost
  import opened MemoryModel
  import opened Calls
  import opened CallAgreement
  import opened Interpreter

  /** A frame at the head of the dispatch loop. */
  ghost predicate Valid(env: Env, f: Frame) {
    |f.slots| == STACK_LIMIT && |env.code| < TWO_32 && (f.state.Running? ==> Dispatchable(env, f))
  }

  // ------------------------------------------------------------ control flow

  /**
   * Every dispatch leaves the program counter at an instruction of the linear scan (or in the STOP
   * padding) and the stack within its limits, if it keeps running.
   */
  lemma DispatchStaysInCode(env: Env, f: Frame, stepping: bool)
    requires f.state.Running? && Valid(env, f)
    ensures Valid(env, RunOp(env, f, stepping))
  {
    hide Execute, Info, RunJump;
    var op := OpAt(env, f);
    var info := Info(env, op);
    StartBound(env.code, 0, f.pc);
    if f.pc < |env.code| { InstructionFootprint(env.code, f.pc); }
    PushFits(env, f);
    if info.pops <= f.size && Delta(info) <= STACK_LIMIT - f.size && info.staticGas <= f.gas {
      var charged := f.(gas := f.gas - info.staticGas);
      PushInfo(env, op);
      if IsJump(op) {
        JumpStaysInCode(env, charged, op, stepping);
      } else {
        ExecuteKeepsSlots(env, charged, op);
        if op == STOP { StopEndsExecution(env, charged); }
      }
    }
  }

  lemma JumpStaysInCode(env: Env, f: Frame, op: Byte, stepping: bool)
    requires Dispatchable(env, f) && op == OpAt(env, f) && IsJump(op) && Info(env, op).pops <= f.size
    ensures Valid(env, RunJump(env, f, op, stepping))
  {
    StartBound(env.code, 0, f.pc);
    InstructionFootprint(env.code, f.pc);
    if CheckJumpDest(env, Top(f, 0)) { InstructionFootprint(env.code, Top(f, 0)); }
  }

  lemma StopEndsExecution(env: Env, f: Frame)
    requires |f.slots| == STACK_LIMIT && Info(env, STOP).pops <= f.size <= STACK_LIMIT
    ensures Execute(env, f, STOP).state.Done?
  {}

  lemma ExecuteKeepsSlots(env: Env, f: Frame, op: Byte)
    requires |f.slots| == STACK_LIMIT && Info(env, op).pops <= f.size <= STACK_LIMIT
    requires IsPush(op) ==> f.size < STACK_LIMIT && 0 <= f.pc && f.pc + Width(op) <= |env.code| + PADDING
    ensures |Execute(env, f, op).frame.slots| == STACK_LIMIT
  {
    hide CppExpansion, CppCall, CallOperands, Grown, UsageCost, CreateWordCost, CppAccess;
  }

  /** n dispatches, fewer if the execution ends before. */
  ghost function Steps(env: Env, f: Frame, n: nat, stepping: bool): (r: Frame)
    requires Valid(env, f)
    ensures Valid(env, r)
    decreases n
  {
    if n == 0 || !f.state.Running? then f
    else
      DispatchStaysInCode(env, f, stepping);
      Steps(env, RunOp(env, f, stepping), n - 1, stepping)
  }

  lemma {:induction false} StepsAdd(env: Env, f: Frame, n: nat, m: nat, stepping: bool)
    requires Valid(env, f)
    ensures Steps(env, f, n + m, stepping) == Steps(env, Steps(env, f, n, stepping), m, stepping)
    decreases n
  {
    hide RunOp;
    if n > 0 && f.state.Running? {
      DispatchStaysInCode(env, f, stepping);
      StepsAdd(env, RunOp(env, f, stepping), n - 1, m, stepping);
    }
  }

  // ---------------------------------------------------------------- termination

  /**
   * The opcodes that are not modelled one by one cost something whenever execution goes on
   * (through their static or their dynamic gas), as all of them do in the opcode table.
   */
  ghost predicate PositiveCosts(env: Env) {
    forall op: Byte, f: Frame :: env.effect(op, f).state.Running? ==>
      env.info(op).staticGas + env.effect(op, f).cost > 0
  }

  /** A dispatch that keeps running has spent gas, nested calls and their stipends included. */
  lemma DispatchSpendsGas(env: Env, f: Frame, stepping: bool)
    requires f.state.Running? && Valid(env, f)
    requires PositiveCosts(env) && Honest(env.host)
    ensures var r := RunOp(env, f, stepping);
      r.gas <= f.gas && (r.state.Running? ==> r.gas < f.gas)
  {
    hide Execute, Info, PositiveCosts;
    var op := OpAt(env, f);
    var info := Info(env, op);
    PushFits(env, f);
    if info.pops <= f.size && Delta(info) <= STACK_LIMIT - f.size && info.staticGas <= f.gas {
      if IsJump(op) {
        JumpInfo(env, op);
      } else {
        PushInfo(env, op);
        ExecuteCosts(env, f.(gas := f.gas - info.staticGas), op);
      }
    }
  }

  lemma JumpInfo(env: Env, op: Byte)
    ensures IsJump(op) ==> Info(env, op).staticGas > 0 && Info(env, op).pops >= if op == JUMPI then 2 else 1
  {}

  lemma ExecuteCosts(env: Env, f: Frame, op: Byte)
    requires PositiveCosts(env) && Honest(env.host) && !IsJump(op)
    requires |f.slots| == STACK_LIMIT && Info(env, op).pops <= f.size <= STACK_LIMIT
    requires IsPush(op) ==> f.size < STACK_LIMIT && 0 <= f.pc && f.pc + Width(op) <= |env.code| + PADDING
    ensures var r := Execute(env, f, op);
      r.state.Running? ==> Info(env, op).staticGas + Max(r.cost, 0) > 0
  {
    if IsCall(op) {
      CallCosts(env, f, op);
      hide ExecCall;
    } else if op == EXTCODECOPY {
      ExtCodeCopyCosts(env, f);
      hide ExecMemory;
    } else {
      hide ExecMemory, ExecCreate, ExecPush;
    }
  }

  lemma ExtCodeCopyCosts(env: Env, f: Frame)
    requires |f.slots| == STACK_LIMIT && Info(env, EXTCODECOPY).pops <= f.size <= STACK_LIMIT
    ensures ExecMemory(env, f, EXTCODECOPY).state.Running? ==> ExecMemory(env, f, EXTCODECOPY).cost > 0
  {
    CppCostNonNegative(|f.memory|, Top(f, 1), Top(f, 3));
    hide CppExpansion, Grown, Span, Resized;
  }

  lemma CallCosts(env: Env, f: Frame, op: Byte)
    requires Honest(env.host) && IsCall(op) && |f.slots| == STACK_LIMIT && Pops(op) <= f.size <= STACK_LIMIT
    ensures ExecCall(env, f, op).state.Running? ==> ExecCall(env, f, op).cost > 0
  {
    var args := CallOperands(f, op);
    CppCostNonNegative(|f.memory|, args.inOffset, args.inSize);
    CppCostNonNegative(|f.memory|, args.outOffset, args.outSize);
    OtherCostBound(op, env.ctx, env.host, f.trace, args);
    hide CppExpansion, CppOtherCost, CallOperands, Grown, Envelope, CppAccess, Span, Written, SetTop;
  }

  /** An execution with gas g halts within g + 1 dispatches, and its gas stays within [0, g]. */
  lemma {:induction false} HaltsWithinGas(env: Env, f: Frame, n: nat, stepping: bool)
    requires Valid(env, f) && PositiveCosts(env) && Honest(env.host)
    ensures Steps(env, f, n, stepping).gas <= f.gas
    ensures n > f.gas ==> !Steps(env, f, n, stepping).state.Running?
    decreases n
  {
    hide RunOp, PositiveCosts, Honest;
    if n > 0 && f.state.Running? {
      DispatchStaysInCode(env, f, stepping);
      DispatchSpendsGas(env, f, stepping);
      HaltsWithinGas(env, RunOp(env, f, stepping), n - 1, stepping);
    }
  }

  // --------------------------------------------------------------------- memory

  /** Gas plus the price of the memory held. */
  ghost function Potential(f: Frame): nat { f.gas + C(|f.memory| / 32) }

  /**
   * The memory invariant: aligned, and worth less than MAX_GAS together with the gas left. By
   * ChargedExactly this is the weakest condition under which no growth is sold below its price.
   */
  ghost predicate Solvent(f: Frame) {
    |f.memory| % 32 == 0 && |f.memory| / 32 < CPP_CUTOFF && Potential(f) < MAX_GAS
  }

  /** No dispatch grows memory without paying its exact price, and the sentinels are never affordable. */
  lemma DispatchPaysForMemory(env: Env, f: Frame, stepping: bool)
    requires f.state.Running? && Valid(env, f) && Solvent(f) && Honest(env.host)
    ensures var r := RunOp(env, f, stepping);
      Solvent(r) && Potential(r) <= Potential(f)
  {
    hide C, Execute, Info;
    var op := OpAt(env, f);
    var info := Info(env, op);
    PushFits(env, f);
    if info.pops <= f.size && Delta(info) <= STACK_LIMIT - f.size && info.staticGas <= f.gas && !IsJump(op) {
      PushInfo(env, op);
      ExecutePaysForMemory(env, f.(gas := f.gas - info.staticGas), op);
    }
  }

  lemma PushInfo(env: Env, op: Byte)
    ensures IsPush(op) ==> Delta(Info(env, op)) == 1
  {}

  /** A handler that reports an affordable cost has charged for the growth; any other has not grown memory. */
  lemma ExecutePaysForMemory(env: Env, f: Frame, op: Byte)
    requires Solvent(f) && Honest(env.host) && !IsJump(op)
    requires |f.slots| == STACK_LIMIT && Info(env, op).pops <= f.size <= STACK_LIMIT
    requires IsPush(op) ==> f.size < STACK_LIMIT && 0 <= f.pc && f.pc + Width(op) <= |env.code| + PADDING
    ensures var r := Execute(env, f, op);
      && |r.frame.memory| % 32 == 0 && |r.frame.memory| / 32 < CPP_CUTOFF
      && 0 <= C(|r.frame.memory| / 32) - C(|f.memory| / 32) <= Max(r.cost, 0)
      && (r.frame.memory != f.memory ==> r.cost <= f.gas)
      && r.frame.gas == f.gas
  {
    hide C;
    if IsMemoryOp(op) {
      MemoryOpPays(env, f, op);
      hide ExecMemory;
    } else if IsCall(op) {
      CallPays(env, f, op);
      hide ExecCall;
    } else if IsCreate(op) {
      CreatePays(env, f, op);
      hide ExecCreate;
    }
  }

  lemma MemoryOpPays(env: Env, f: Frame, op: Byte)
    requires Solvent(f) && IsMemoryOp(op) && |f.slots| == STACK_LIMIT && Info(env, op).pops <= f.size <= STACK_LIMIT
    ensures var r := ExecMemory(env, f, op);
      && |r.frame.memory| % 32 == 0 && |r.frame.memory| / 32 < CPP_CUTOFF
      && 0 <= C(|r.frame.memory| / 32) - C(|f.memory| / 32) <= Max(r.cost, 0)
      && (r.frame.memory != f.memory ==> r.cost <= f.gas)
      && r.frame.gas == f.gas
  {
    hide C, CppExpansion, Grown, UsageCost;
    var (o1, s1, o2, s2) := Ranges(f, op);
    var e1, e2 := CppExpansion(|f.memory|, o1, s1), CppExpansion(|f.memory|, o2, s2);
    hide Ranges;
    if Max(e1.cost, e2.cost) <= f.gas { TwoGrowthsPaid(f.gas, f.memory, o1, s1, o2, s2); }
  }

  /** Growing for two accesses costs exactly the larger of the two prices. */
  lemma TwoGrowthsPaid(gas: nat, memory: Bytes, o1: Word, s1: Word, o2: Word, s2: Word)
    requires |memory| % 32 == 0 && |memory| / 32 < CPP_CUTOFF && gas + C(|memory| / 32) < MAX_GAS
    requires Max(CppExpansion(|memory|, o1, s1).cost, CppExpansion(|memory|, o2, s2).cost) <= gas
    ensures var e1, e2 := CppExpansion(|memory|, o1, s1), CppExpansion(|memory|, o2, s2);
      var grown := Grown(Grown(memory, e1.offset, e1.size), e2.offset, e2.size);
      && |grown| % 32 == 0 && |grown| / 32 < CPP_CUTOFF
      && C(|grown| / 32) - C(|memory| / 32) == Max(e1.cost, e2.cost) >= 0
  {
    hide C, CppExpansion;
    var have := |memory| / 32;
    assert |memory| == 32 * have;
    CppNeverUndercharges(gas, have, o1, s1);
    CppNeverUndercharges(gas, have, o2, s2);
    SequentialGrowth(have, o1, s1, o2, s2);
    GrownFits(memory, o1, s1);
    GrownFits(Grown(memory, o1, s1), o2, s2);
  }

  lemma CallPays(env: Env, f: Frame, op: Byte)
    requires Solvent(f) && Honest(env.host) && IsCall(op) && |f.slots| == STACK_LIMIT
    requires Pops(op) <= f.size <= STACK_LIMIT
    ensures var r := ExecCall(env, f, op);
      && |r.frame.memory| % 32 == 0 && |r.frame.memory| / 32 < CPP_CUTOFF
      && 0 <= C(|r.frame.memory| / 32) - C(|f.memory| / 32) <= Max(r.cost, 0)
      && (r.frame.memory != f.memory ==> r.cost <= f.gas)
      && r.frame.gas == f.gas
  {
    hide C, CppExpansion, CppForward, CppOtherCost, SpecMemoryCost, SpecGrown, Grown;
    var args := CallOperands(f, op);
    hide CallOperands;
    var input, output := CppExpansion(|f.memory|, args.inOffset, args.inSize),
        CppExpansion(|f.memory|, args.outOffset, args.outSize);
    if CppCall(op, env.ctx, env.host, args, f.gas, f.memory, f.trace).Returned? {
      CallGas(op, env.ctx, env.host, args, f.gas, f.memory, f.trace);
      CallMemory(f.gas, f.memory, args);
    }
  }

  lemma CreatePays(env: Env, f: Frame, op: Byte)
    requires Solvent(f) && Honest(env.host) && IsCreate(op) && |f.slots| == STACK_LIMIT
    requires Info(env, op).pops <= f.size <= STACK_LIMIT
    ensures var r := ExecCreate(env, f, op);
      && |r.frame.memory| % 32 == 0 && |r.frame.memory| / 32 < CPP_CUTOFF
      && 0 <= C(|r.frame.memory| / 32) - C(|f.memory| / 32) <= Max(r.cost, 0)
      && (r.frame.memory != f.memory ==> r.cost <= f.gas)
      && r.frame.gas == f.gas
  {
    hide C, CppExpansion, Grown, CreateWordCost;
    if CppExpansion(|f.memory|, Top(f, 1), Top(f, 2)).cost <= f.gas {
      CppSmallOffsetFree(|f.memory|);
      TwoGrowthsPaid(f.gas, f.memory, Top(f, 1), Top(f, 2), 0, 0);
    }
  }

  lemma CppSmallOffsetFree(memorySize: nat)
    ensures CppExpansion(memorySize, 0, 0) == Expansion(0, 0, 0)
    ensures forall m :: Grown(m, 0, 0) == m
  {}

  /**
   * Over a whole run, gas plus the price of the memory never increases. So a run that starts below
   * MAX_GAS never gets memory it did not pay for, and its final memory is worth at most what was spent.
   */
  lemma {:induction false} RunPaysForMemory(env: Env, f: Frame, n: nat, stepping: bool)
    requires Valid(env, f) && Solvent(f) && Honest(env.host)
    ensures var r := Steps(env, f, n, stepping);
      && Solvent(r) && Potential(r) <= Potential(f)
      && C(|r.memory| / 32) <= C(|f.memory| / 32) + (f.gas - r.gas)
    decreases n
  {
    hide RunOp, C, Honest;
    if n > 0 && f.state.Running? {
      DispatchStaysInCode(env, f, stepping);
      DispatchPaysForMemory(env, f, stepping);
      RunPaysForMemory(env, RunOp(env, f, stepping), n - 1, stepping);
    }
  }

  // -------------------------------------------------- stepping and full speed

  /** One dispatch at full speed is one stepping dispatch, or a jump and the JUMPDEST it lands on. */
  lemma FullSpeedDispatch(env: Env, f: Frame)
    requires f.state.Running? && Valid(env, f)
    ensures exists k :: 1 <= k <= 2 && RunOp(env, f, false) == Steps(env, f, k, true)
  {
    hide RunOp;
    SingleStep(env, f, true);
    var next := RunOp(env, f, true);
    if RunOp(env, f, false) != next {
      FusedJump(env, f);
      JumpdestDispatch(env, next);
      SingleStep(env, next, true);
      assert Steps(env, f, 2, true) == Steps(env, next, 1, true);
    }
  }

  /** The modes only differ on a jump taken, where full speed executes the JUMPDEST as well. */
  lemma FusedJump(env: Env, f: Frame)
    requires f.state.Running? && Valid(env, f) && RunOp(env, f, false) != RunOp(env, f, true)
    ensures var next := RunOp(env, f, true);
      && next.state.Running? && 0 <= next.pc < |env.code| && env.code[next.pc] == JUMPDEST
      && RunOp(env, f, false) == AfterJumpdest(next)
  {
    hide Execute, Info;
    JumpInfo(env, OpAt(env, f));
  }

  function AfterJumpdest(f: Frame): Frame {
    if f.gas < 1 then f.(state := ErrorGas, pc := -1, gas := 0) else f.(pc := f.pc + 1, gas := f.gas - 1)
  }

  /** Executing a JUMPDEST on its own. */
  lemma JumpdestDispatch(env: Env, f: Frame)
    requires f.state.Running? && Valid(env, f) && f.pc < |env.code| && env.code[f.pc] == JUMPDEST
    ensures RunOp(env, f, true) == AfterJumpdest(f)
  {
    hide Dispatch;
    DispatchJumpdest(env, f, OpAt(env, f));
  }

  lemma DispatchJumpdest(env: Env, f: Frame, op: Byte)
    requires op == JUMPDEST && f.state.Running? && |f.slots| == STACK_LIMIT && 0 <= f.size <= STACK_LIMIT && 0 <= f.pc
    ensures Dispatch(env, f, op, true) == AfterJumpdest(f)
  {
    hide Execute, Info, RunJump, Complete, Fail, Delta, Width, IsJump;
    JumpdestInfo(env, op);
    if f.gas < 1 {
      JumpdestFails(f, Info(env, op));
    } else {
      JumpdestCompletes(env, f.(gas := f.gas - 1), op);
    }
  }

  lemma JumpdestInfo(env: Env, op: Byte)
    requires op == JUMPDEST
    ensures var info := Info(env, op);
      info.pops == info.pushes == 0 && info.staticGas == 1 && !info.noStatic && info.since == ISTANBUL
    ensures Delta(Info(env, op)) == 0 && Width(op) == 1 && !IsJump(op)
  {}

  lemma JumpdestFails(f: Frame, info: OpInfo)
    requires Delta(info) == 0
    ensures Fail(f, info, ErrorGas) == f.(state := ErrorGas, pc := -1, gas := 0)
  {}

  lemma JumpdestCompletes(env: Env, f: Frame, op: Byte)
    requires op == JUMPDEST && f.state.Running? && |f.slots| == STACK_LIMIT
    requires Info(env, op).pops <= f.size <= STACK_LIMIT
    ensures forall pc :: Complete(Execute(env, f, op), Info(env, op), f.gas, pc, f.size) == f.(pc := pc)
  {
    hide ExecMemory, ExecCall, ExecCreate, ExecPush, ExecOther;
  }

  lemma SingleStep(env: Env, f: Frame, stepping: bool)
    requires f.state.Running? && Valid(env, f)
    ensures Valid(env, RunOp(env, f, stepping)) && Steps(env, f, 1, stepping) == RunOp(env, f, stepping)
  {
    DispatchStaysInCode(env, f, stepping);
    hide RunOp;
    assert Steps(env, RunOp(env, f, stepping), 0, stepping) == RunOp(env, f, stepping);
  }

  /** Every full-speed run is a stepping run. */
  lemma {:induction false} FullSpeedRun(env: Env, f: Frame, n: nat) returns (k: nat)
    requires Valid(env, f)
    ensures Steps(env, f, n, false) == Steps(env, f, k, true)
    decreases n
  {
    hide RunOp;
    if n == 0 || !f.state.Running? {
      k := 0;
    } else {
      FullSpeedDispatch(env, f);
      DispatchStaysInCode(env, f, false);
      var k1 :| 1 <= k1 <= 2 && RunOp(env, f, false) == Steps(env, f, k1, true);
      var k2 := FullSpeedRun(env, RunOp(env, f, false), n - 1);
      StepsAdd(env, f, k1, k2, true);
      k := k1 + k2;
    }
  }

  lemma HaltedStays(env: Env, f: Frame, n: nat, m: nat, stepping: bool)
    requires Valid(env, f) && n <= m && !Steps(env, f, n, stepping).state.Running?
    ensures Steps(env, f, m, stepping) == Steps(env, f, n, stepping)
  {
    hide RunOp;
    StepsAdd(env, f, n, m - n, stepping);
  }

  /** For every program, gas and host, both modes of the interpreter end in the same frame. */
  lemma FullSpeedSimulatesStepping(env: Env, f: Frame, n: nat, m: nat)
    requires Valid(env, f) && PositiveCosts(env) && Honest(env.host) && n > f.gas && m > f.gas
    ensures Steps(env, f, n, false) == Steps(env, f, m, true)
  {
    hide RunOp, PositiveCosts, Honest;
    HaltsWithinGas(env, f, n, false);
    HaltsWithinGas(env, f, m, true);
    var k := FullSpeedRun(env, f, n);
    if k <= m { HaltedStays(env, f, k, m, true); } else { HaltedStays(env, f, m, k, true); }
  }

  // ------------------------------------------------------------ RunInterpreter

  /** Keep return data only when something is returned, or when the run can go on. */
  function FinalReturnData(f: Frame): Bytes {
    if f.state.Return? || f.state.Revert? || f.state.Running? then f.returnData else []
  }

  /** The context after a stepping run: a failure restores the stack pointer and the pc of its start. */
  function FinishStepping(start: Frame, f: Frame): Frame {
    var ok := IsSuccess(f.state) || f.state.Running?;
    f.(gas := if ok then f.gas else 0, size := if ok then f.size else start.size,
       returnData := FinalReturnData(f), pc := if f.pc >= 0 then f.pc else start.pc)
  }

  /** The context after a full-speed run, which neither reads nor writes the pc of the context. */
  function FinishFullSpeed(start: Frame, f: Frame): Frame {
    f.(gas := if IsSuccess(f.state) then f.gas else 0, returnData := FinalReturnData(f), pc := start.pc)
  }

  /** What a caller of Interpret gets to see, and the memory and the history of the host. */
  datatype Observation = Observation(state: RunState, gas: nat, refunds: int, returnData: Bytes, memory: Bytes,
                                     trace: seq<Event>)

  function Observe(f: Frame): Observation { Observation(f.state, f.gas, f.refunds, f.returnData, f.memory, f.trace) }

  /** InterpretNSteps. */
  ghost function NSteps(env: Env, f: Frame, n: nat): Frame
    requires Valid(env, f)
  {
    FinishStepping(f, Steps(env, f, n, true))
  }

  /** Interpret: full speed from the start of the code. */
  ghost function Interpret(env: Env, f: Frame): Frame
    requires Valid(env, f.(pc := 0))
  {
    FinishFullSpeed(f, Steps(env, f.(pc := 0), f.gas + 1, false))
  }

  /** Interpret and InterpretNSteps agree on everything that can be observed. */
  lemma InterpretIsNSteps(env: Env, f: Frame, n: nat)
    requires f.state.Running? && Valid(env, f) && f.pc == 0 && PositiveCosts(env) && Honest(env.host) && n > f.gas
    ensures Observe(Interpret(env, f)) == Observe(NSteps(env, f, n))
    ensures IsSuccess(Interpret(env, f).state) ==>
      Interpret(env, f).slots == NSteps(env, f, n).slots && Interpret(env, f).size == NSteps(env, f, n).size
  {
    hide RunOp, PositiveCosts, Honest;
    assert f.(pc := 0) == f;
    FullSpeedSimulatesStepping(env, f, f.gas + 1, n);
    HaltsWithinGas(env, f, n, true);
  }

  /** A failed execution keeps neither gas nor return data, and only RETURN and REVERT return something. */
  lemma EndIsClean(env: Env, f: Frame, n: nat)
    requires Valid(env, f) && Valid(env, f.(pc := 0))
    ensures forall r :: r == NSteps(env, f, n) || r == Interpret(env, f) ==>
      && (IsFailure(r.state) ==> r.gas == 0 && r.returnData == [])
      && (r.state.Done? ==> r.returnData == [])
    ensures IsFailure(NSteps(env, f, n).state) ==> NSteps(env, f, n).size == f.size
  {
    hide RunOp;
  }

  lemma {:induction false} StepsKeepPc(env: Env, f: Frame, n: nat)
    requires Valid(env, f) && Steps(env, f, n, true).state.Running?
    ensures NSteps(env, f, n) == Steps(env, f, n, true)
  {
    hide RunOp;
  }

  // ------------------------------------------------- where a failure is reported

  /** The handler of an opcode other than a jump asks for more gas than there is. */
  predicate ExceedsGas(env: Env, f: Frame, op: Byte)
    requires |f.slots| == STACK_LIMIT && Info(env, op).pops <= f.size <= STACK_LIMIT
  {
    if IsMemoryOp(op) then
      var cost := MemoryOpCost(env, f, op);
      f.gas < cost && !ReportsOutOfGas(op, cost)
    else if IsCall(op) then CallExceedsGas(env, f, op)
    else if IsCreate(op) then CreateExceedsGas(env, f, op)
    else !IsModelled(op) && f.gas < env.effect(op, f).cost
  }

  predicate CallExceedsGas(env: Env, f: Frame, op: Byte)
    requires IsCall(op) && |f.slots| == STACK_LIMIT && Pops(op) <= f.size <= STACK_LIMIT
  {
    var a := CallOperands(f, op);
    var input, output := CppExpansion(|f.memory|, a.inOffset, a.inSize),
        CppExpansion(|f.memory|, a.outOffset, a.outSize);
    var cost := Max(input.cost, output.cost);
    && env.ctx.depth <= MAX_CALL_DEPTH
    && (f.gas < cost || (!(op == CALL && a.value != 0 && env.ctx.isStatic)
                         && f.gas < cost + CppOtherCost(op, env.ctx, env.host, f.trace, a)))
  }

  predicate CreateExceedsGas(env: Env, f: Frame, op: Byte)
    requires IsCreate(op) && |f.slots| == STACK_LIMIT && Info(env, op).pops <= f.size <= STACK_LIMIT
  {
    var e := CppExpansion(|f.memory|, Top(f, 1), Top(f, 2));
    && env.ctx.depth <= MAX_CALL_DEPTH
    && (f.gas < e.cost || (!(env.ctx.revision >= SHANGHAI && e.size > MAX_INIT_CODE)
                           && f.gas < e.cost + CreateWordCost(env, op, e.size)))
  }

  /** The checks of a dispatch that end it without a program counter to go on with. */
  ghost predicate LosesPc(env: Env, f: Frame)
    requires Dispatchable(env, f)
  {
    var op := OpAt(env, f);
    var info := Info(env, op);
    || env.ctx.revision < info.since
    || (info.noStatic && env.ctx.isStatic)
    || f.size < info.pops
    || STACK_LIMIT - f.size < Delta(info)
    || f.gas < info.staticGas
    || var charged := f.(gas := f.gas - info.staticGas);
       if IsJump(op) then BadJump(env, charged, op) else ExceedsGas(env, charged, op)
  }

  /** A jump that is taken, but not to a jump target. */
  predicate BadJump(env: Env, f: Frame, op: Byte)
    requires IsJump(op) && |f.slots| == STACK_LIMIT && Info(env, op).pops <= f.size <= STACK_LIMIT
  {
    !(op == JUMPI && Top(f, 1) == 0) && !CheckJumpDest(env, Top(f, 0))
  }

  lemma CallExceeds(env: Env, f: Frame, op: Byte)
    requires IsCall(op) && |f.slots| == STACK_LIMIT && Pops(op) <= f.size <= STACK_LIMIT
    ensures ExecCall(env, f, op).cost > f.gas <==> CallExceedsGas(env, f, op)
  {
    hide CppExpansion, CppOtherCost, Grown, Envelope, CppAccess, CallOperands, Span, Written, SetTop;
  }

  lemma HandlerExceeds(env: Env, f: Frame, op: Byte)
    requires !IsJump(op) && |f.slots| == STACK_LIMIT && Info(env, op).pops <= f.size <= STACK_LIMIT
    requires IsPush(op) ==> f.size < STACK_LIMIT && 0 <= f.pc && f.pc + Width(op) <= |env.code| + PADDING
    ensures Execute(env, f, op).cost > f.gas <==> ExceedsGas(env, f, op)
  {
    hide CppExpansion, Grown, UsageCost, CreateWordCost, Span, SetTop, Resized;
    if IsCall(op) {
      CallExceeds(env, f, op);
      hide ExecCall, CallExceedsGas;
    } else if IsMemoryOp(op) {
      hide MemoryOpCost, Ranges;
    }
  }

  /** A dispatch leaves a null program counter exactly if one of these checks fails. */
  lemma PcIsLost(env: Env, f: Frame)
    requires f.state.Running? && Valid(env, f)
    ensures RunOp(env, f, true).pc < 0 <==> LosesPc(env, f)
  {
    hide Execute, Info, ExceedsGas, CheckJumpDest;
    var op := OpAt(env, f);
    var info := Info(env, op);
    PushFits(env, f);
    JumpInfo(env, op);
    PushInfo(env, op);
    if info.pops <= f.size && Delta(info) <= STACK_LIMIT - f.size && info.staticGas <= f.gas && !IsJump(op) {
      HandlerExceeds(env, f.(gas := f.gas - info.staticGas), op);
    }
  }

  /** One of the next m dispatches loses the program counter. */
  ghost predicate LosesPcWithin(env: Env, f: Frame, m: nat)
    requires Valid(env, f)
    decreases m
  {
    m > 0 && f.state.Running?
      && (LosesPc(env, f) || (DispatchStaysInCode(env, f, true); LosesPcWithin(env, RunOp(env, f, true), m - 1)))
  }

  lemma {:induction false} PcIsLostWithin(env: Env, f: Frame, m: nat)
    requires Valid(env, f) && f.state.Running?
    ensures Steps(env, f, m, true).pc < 0 <==> LosesPcWithin(env, f, m)
    decreases m
  {
    hide RunOp, LosesPc;
    if m > 0 {
      PcIsLost(env, f);
      DispatchStaysInCode(env, f, true);
      var next := RunOp(env, f, true);
      if next.state.Running? { PcIsLostWithin(env, next, m - 1); }
    }
  }

  /**
   * n steps followed by m steps show the same as n + m steps. They are the same in every respect
   * except if they fail after a first part that moved the stack pointer, or lose the program counter
   * after a first part that moved it: run in one go, such a failure is attributed to the start.
   */
  lemma StepsCompose(env: Env, f: Frame, n: nat, m: nat)
    requires Valid(env, f)
    ensures Valid(env, NSteps(env, f, n))
    ensures var first, whole := NSteps(env, f, n), NSteps(env, f, n + m);
      var split := NSteps(env, first, m);
      && Observe(split) == Observe(whole) && split.slots == whole.slots
      && (split == whole <==>
            !(first.state.Running? &&
              (|| (IsFailure(whole.state) && first.size != f.size)
               || (LosesPcWithin(env, first, m) && first.pc != f.pc))))
  {
    hide RunOp, LosesPcWithin;
    StepsAdd(env, f, n, m, true);
    var middle := Steps(env, f, n, true);
    if middle.state.Running? {
      StepsKeepPc(env, f, n);
      PcIsLostWithin(env, middle, m);
    } else {
      assert Steps(env, NSteps(env, f, n), m, true) == NSteps(env, f, n);
      assert Steps(env, f, n + m, true) == middle;
    }
  }

  predicate IsFailure(state: RunState) { !state.Running? && !IsSuccess(state) }

  /** A JUMPDEST and then an instruction that loses the program counter: at 1 in two parts, at 0 in one. */
  lemma FailureAfterJumpdest(env: Env, f: Frame)
    requires f.state.Running? && Valid(env, f) && f.pc == 0 && f.gas >= 1 && |env.code| >= 2 && env.code[0] == JUMPDEST
    requires Dispatchable(env, AfterJumpdest(f)) && LosesPc(env, AfterJumpdest(f))
    ensures Valid(env, NSteps(env, f, 1))
    ensures NSteps(env, NSteps(env, f, 1), 1).pc == 1 && NSteps(env, f, 2).pc == 0
  {
    hide RunOp, LosesPc;
    JumpdestDispatch(env, f);
    SingleStep(env, f, true);
    var middle := RunOp(env, f, true);
    PcIsLost(env, middle);
    SingleStep(env, middle, true);
    StepsKeepPc(env, f, 1);
    StepsAdd(env, f, 1, 1, true);
  }

  /** A jump without operand fails at pc 1; run in one go, the failure is reported at pc 0. */
  lemma StepsDoNotComposeOnFailure(env: Env, f: Frame)
    requires env.code == [JUMPDEST, JUMP] && f.state.Running? && Valid(env, f) && f.pc == 0 && f.size == 0 && f.gas >= 1
    ensures Valid(env, NSteps(env, f, 1))
    ensures NSteps(env, NSteps(env, f, 1), 1).pc == 1 && NSteps(env, f, 2).pc == 0
  {
    SecondIsStart(env, f);
    JumpInfo(env, JUMP);
    assert LosesPc(env, AfterJumpdest(f)) by { hide Info, ExceedsGas; }
    FailureAfterJumpdest(env, f);
  }

  /** The same for a load from an offset nobody can pay for. */
  lemma StepsDoNotComposeOnOutOfGas(env: Env, f: Frame)
    requires env.code == [JUMPDEST, MLOAD] && env.ctx.revision >= ISTANBUL
    requires f.state.Running? && Valid(env, f) && f.pc == 0 && f.size == 1 && f.gas == 5 && Top(f, 0) == TWO_64
    ensures Valid(env, NSteps(env, f, 1))
    ensures NSteps(env, NSteps(env, f, 1), 1).pc == 1 && NSteps(env, f, 2).pc == 0
  {
    SecondIsStart(env, f);
    var charged := AfterJumpdest(f).(gas := 1);
    assert Info(env, MLOAD).staticGas == 3 && Info(env, MLOAD).pops == 1;
    assert Ranges(charged, MLOAD).0 == TWO_64 && MemoryOpCost(env, charged, MLOAD) >= MAX_GAS;
    FailureAfterJumpdest(env, f);
  }

  lemma SecondIsStart(env: Env, f: Frame)
    requires |env.code| == 2 && env.code[0] == JUMPDEST && Valid(env, f) && f.state.Running? && f.pc == 0 && f.gas >= 1
    ensures Dispatchable(env, AfterJumpdest(f)) && OpAt(env, AfterJumpdest(f)) == env.code[1]
  {
    assert Width(env.code[0]) == 1;
    assert Reaches(env.code, 1, 1);
  }

  // ------------------------------------------------------------ the loop itself

  /** The Context of an execution. */
  class ExecutionContext {
    const env: Env
    var state: RunState
    var pc: int
    var gas: nat
    var gasRefunds: int
    var returnData: Bytes
    var memory: Bytes
    var slots: seq<Word>
    var stackSize: int
    var trace: seq<Event>

    ghost function View(): Frame
      reads this
    {
      Frame(state, pc, gas, stackSize, slots, memory, gasRefunds, returnData, trace)
    }

    constructor (env: Env, gas: nat)
      ensures this.env == env
      ensures View() == Frame(Running, 0, gas, 0, seq(STACK_LIMIT, _ => 0), [], 0, [], [])
    {
      this.env, this.gas := env, gas;
      state, pc, gasRefunds, returnData, memory := Running, 0, 0, [], [];
      slots, stackSize, trace := seq(STACK_LIMIT, _ => 0), 0, [];
    }

    /**
     * RunInterpreter in both modes. The loop works on its own copy of the state, which is written
     * back at the end; at full speed it ends because gas runs out.
     */
    method RunInterpreter(stepping: bool, steps: int)
      requires Valid(env, if stepping then View() else View().(pc := 0))
      requires PositiveCosts(env) && Honest(env.host)
      modifies this
      ensures stepping ==> View() == NSteps(env, old(View()), Max(steps, 0))
      ensures !stepping ==> View() == Interpret(env, old(View()))
    {
      hide RunOp, PositiveCosts, Honest;
      ghost var start := View();
      var f := Frame(state, if stepping then pc else 0, gas, stackSize, slots, memory, gasRefunds, returnData, trace);
      ghost var first := f;
      var stepsExecuted := 0;
      ghost var budget := if stepping then Max(steps, 0) else gas + 1;
      HaltsWithinGas(env, first, first.gas + 1, false);
      while f.state.Running? && (!stepping || stepsExecuted < steps)
        invariant View() == start && 0 <= stepsExecuted <= budget && Valid(env, f)
        invariant Steps(env, f, budget - stepsExecuted, stepping) == Steps(env, first, budget, stepping)
        invariant !stepping ==> f.gas + stepsExecuted <= first.gas || !f.state.Running?
        decreases budget - stepsExecuted
      {
        DispatchStaysInCode(env, f, stepping);
        DispatchSpendsGas(env, f, stepping);
        f := RunOp(env, f, stepping);
        stepsExecuted := stepsExecuted + 1;
      }

      assert f == Steps(env, first, budget, stepping);
      assert start.(pc := first.pc) == first;

      var ok := IsSuccess(f.state) || (stepping && f.state.Running?);
      gas := if ok then f.gas else 0;
      returnData := if f.state.Return? || f.state.Revert? || f.state.Running? then f.returnData else [];
      state := f.state;
      if !stepping || ok {
        stackSize := f.size;
      }
      if stepping && f.pc >= 0 {
        pc := f.pc;
      }
      slots, memory, gasRefunds, trace := f.slots, f.memory, f.refunds, f.trace;
    }
  }
}
