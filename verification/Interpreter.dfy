/**
 * The evmzero interpreter: its opcode handlers as far as they touch the program counter, gas,
 * memory and nested calls, and the dispatch loop in both of its modes.
 */
module Interpreter {
  import opened Evm
  import opened Encoding
  import opened CodeScan
  import opened MemoryCost
  import opened MemoryModel
  import opened Calls

  datatype OpInfo = OpInfo(pops: nat, pushes: nat, staticGas: nat, noStatic: bool, since: Revision)

  /**
   * The state a dispatch works on. The operand stack is its backing store of STACK_LIMIT slots and
   * the number of slots in use; slots[STACK_LIMIT - size] is the top. A negative pc is the null
   * pointer that a failing instruction leaves behind.
   */
  datatype Frame = Frame(state: RunState, pc: int, gas: nat, size: int, slots: seq<Word>, memory: Bytes,
                         refunds: int, returnData: Bytes, trace: seq<Event>)

  /** The effect of an opcode that touches neither memory nor control flow. */
  datatype Effect = Effect(state: RunState, cost: nat, slots: seq<Word>, refunds: int, events: seq<Event>)

  /**
   * A program and its surroundings: the call data it was given, the hash function, and the opcodes
   * that are not modelled one by one, which are arbitrary functions, so every result below holds for
   * all of them.
   */
  datatype Env = Env(code: seq<Byte>, ctx: Context, host: Host, input: Bytes, hash: Bytes -> Word,
                     info: Byte -> OpInfo, effect: (Byte, Frame) -> Effect)

  // -------------------------------------------------------------- opcode table

  /** The opcodes with a handler of their own below. */
  predicate IsModelled(op: Byte) {
    op == STOP || op == JUMPDEST || IsJump(op) || IsPush(op) || IsMemoryOp(op) || IsCall(op) || IsCreate(op)
  }

  function OpPops(op: Byte): nat {
    if IsCall(op) then Pops(op)
    else if op == CREATE2 || op == EXTCODECOPY then 4
    else if op == CREATE || IsCopy(op) then 3
    else if IsLog(op) then op - LOG0 + 2
    else if op == JUMPI || op == SHA3 || op == MSTORE || op == MSTORE8 || op == RETURN || op == REVERT then 2
    else if op == JUMP || op == MLOAD then 1
    else 0
  }

  function OpPushes(op: Byte): nat {
    if IsCall(op) || IsCreate(op) || IsPush(op) || op == SHA3 || op == MLOAD then 1 else 0
  }

  function OpStaticGas(op: Byte): nat {
    if IsCreate(op) then 32000
    else if IsLog(op) then 375 + 375 * (op - LOG0)
    else if op == SHA3 then 30
    else if op == JUMPI then 10
    else if op == JUMP then 8
    else if IsPush(op) || (IsCopy(op) && op != EXTCODECOPY) || op == MLOAD || op == MSTORE || op == MSTORE8 then 3
    else if op == JUMPDEST then 1
    else 0
  }

  /** kInfo of an opcode. */
  function Info(env: Env, op: Byte): OpInfo {
    if IsModelled(op) then OpInfo(OpPops(op), OpPushes(op), OpStaticGas(op), IsCreate(op) || IsLog(op),
                                  if op == MCOPY then CANCUN else ISTANBUL)
    else env.info(op)
  }

  function Delta(info: OpInfo): int { info.pushes - info.pops }

  /** top[k] of the source. */
  function Top(f: Frame, k: int): Word
    requires |f.slots| == STACK_LIMIT && 0 <= f.size && f.size - STACK_LIMIT <= k < f.size
  {
    f.slots[STACK_LIMIT - f.size + k]
  }

  function SetTop(f: Frame, k: int, w: Word): seq<Word>
    requires |f.slots| == STACK_LIMIT && 0 <= f.size && f.size - STACK_LIMIT <= k < f.size
  {
    f.slots[STACK_LIMIT - f.size + k := w]
  }

  /** The operands in use, top first. */
  function StackOf(f: Frame): (stack: seq<Word>)
    requires |f.slots| == STACK_LIMIT && 0 <= f.size <= STACK_LIMIT
    ensures |stack| == f.size
  {
    f.slots[STACK_LIMIT - f.size..]
  }

  /** Handlers keep the size of the backing stores. */
  function Resized<T>(old_: seq<T>, new_: seq<T>): seq<T> { if |new_| == |old_| then new_ else old_ }

  // ------------------------------------------------------------------ handlers

  /** What an opcode handler reports: the new state, its dynamic gas costs and its side effects. */
  datatype Exec = Exec(state: RunState, cost: int, frame: Frame)

  /** PushImpl: the data is read from the padded code, without bounds checks. */
  function ExecPush(env: Env, f: Frame, op: Byte): Exec
    requires IsPush(op) && |f.slots| == STACK_LIMIT && 0 <= f.size < STACK_LIMIT
    requires 0 <= f.pc && f.pc + Width(op) <= |env.code| + PADDING
  {
    Exec(Running, 0, f.(slots := SetTop(f, -1, BigEndian(PadCode(env.code)[f.pc + 1..f.pc + Width(op)]) % TWO_256)))
  }

  /** (size + 31) / 32 in uint64 arithmetic. */
  function Words64(size: nat): nat { (size + 31) % TWO_64 / 32 }

  /** The memory ranges an opcode accesses; the second one is empty except for MCOPY. */
  function Ranges(f: Frame, op: Byte): (Word, Word, Word, Word)
    requires IsMemoryOp(op) && |f.slots| == STACK_LIMIT
    requires f.size >= if op == EXTCODECOPY then 4 else if IsCopy(op) then 3 else if op == MLOAD then 1 else 2
    requires f.size <= STACK_LIMIT
  {
    if op == MCOPY then (Top(f, 0), Top(f, 2), Top(f, 1), Top(f, 2))
    else if op == EXTCODECOPY then (Top(f, 1), Top(f, 3), 0, 0)
    else if IsCopy(op) then (Top(f, 0), Top(f, 2), 0, 0)
    else if op == MLOAD || op == MSTORE then (Top(f, 0), 32, 0, 0)
    else if op == MSTORE8 then (Top(f, 0), 1, 0, 0)
    else (Top(f, 0), Top(f, 1), 0, 0)
  }

  /** The price of handling size bytes, apart from the memory they occupy. */
  function UsageCost(env: Env, f: Frame, op: Byte, size: nat): nat
    requires op == EXTCODECOPY ==> |f.slots| == STACK_LIMIT && 1 <= f.size <= STACK_LIMIT
  {
    if op == SHA3 then 6 * Words64(size)
    else if op == EXTCODECOPY then
      3 * Words64(size) + (if env.ctx.revision < BERLIN then 700
                           else if env.host.isWarm(f.trace, ToAddress(Top(f, 0))) then 100 else 2600)
    else if IsCopy(op) then 3 * Words64(size)
    else if IsLog(op) then 8 * size
    else 0
  }

  /**
   * Running out of gas inside a handler. Most handlers report more dynamic gas than there is, a few
   * report the error themselves: SHA3, CODECOPY, and MCOPY if the sum of its costs overflows.
   */
  predicate ReportsOutOfGas(op: Byte, cost: int) { op == SHA3 || op == CODECOPY || (op == MCOPY && cost > MAX_GAS) }

  function OutOfGas(f: Frame): Exec { Exec(Running, f.gas + 1, f) }

  /** What a memory access costs: the larger of its expansions, and the bytes handled. */
  function MemoryOpCost(env: Env, f: Frame, op: Byte): (cost: int)
    requires IsMemoryOp(op) && |f.slots| == STACK_LIMIT && Info(env, op).pops <= f.size <= STACK_LIMIT
  {
    var (o1, s1, o2, s2) := Ranges(f, op);
    var e1, e2 := CppExpansion(|f.memory|, o1, s1), CppExpansion(|f.memory|, o2, s2);
    Max(e1.cost, e2.cost) + UsageCost(env, f, op, e1.size)
  }

  /** What a copying opcode reads: call data, code, the code of another account or the last return data. */
  function CopySource(env: Env, f: Frame, op: Byte, events: seq<Event>): Bytes
    requires IsCopy(op) && |f.slots| == STACK_LIMIT && Info(env, op).pops <= f.size <= STACK_LIMIT
  {
    if op == CALLDATACOPY then env.input
    else if op == CODECOPY then env.code
    else if op == EXTCODECOPY then env.host.code(f.trace + events, ToAddress(Top(f, 0)))
    else f.returnData
  }

  /** Memory after an access, given the memory grown for it. */
  function Stored(env: Env, f: Frame, op: Byte, events: seq<Event>, grown: Bytes, e1: Expansion, e2: Expansion)
    : (r: Bytes)
    requires IsMemoryOp(op) && |f.slots| == STACK_LIMIT && Info(env, op).pops <= f.size <= STACK_LIMIT
    ensures |r| == |grown|
  {
    if op == MSTORE then Written(grown, Digits(Top(f, 1), 32), e1.offset)
    else if op == MSTORE8 then Written(grown, [Top(f, 1) % 256], e1.offset)
    else if op == MCOPY then Written(grown, Span(grown, e2.offset, e1.size), e1.offset)
    else if IsCopy(op) then
      var offset := Top(f, if op == EXTCODECOPY then 2 else 1);
      Written(grown, Padded(CopySource(env, f, op, events), offset, e1.size), e1.offset)
    else grown
  }

  /** The topics of a log with n of them. */
  function Topics(f: Frame, n: nat): (topics: seq<Word>)
    requires |f.slots| == STACK_LIMIT && n + 2 <= f.size <= STACK_LIMIT
  {
    seq(n, i requires 0 <= i < n => Top(f, 2 + i))
  }

  /** SHA3 and MLOAD leave a result on the stack. */
  function SlotsAfter(env: Env, f: Frame, op: Byte, data: Bytes): (slots: seq<Word>)
    requires IsMemoryOp(op) && |f.slots| == STACK_LIMIT && Info(env, op).pops <= f.size <= STACK_LIMIT
    ensures |slots| == STACK_LIMIT
  {
    if op == SHA3 then SetTop(f, 1, env.hash(data))
    else if op == MLOAD then SetTop(f, 0, BigEndian(data) % TWO_256)
    else f.slots
  }

  function LogOf(env: Env, f: Frame, op: Byte, data: Bytes): seq<Event>
    requires IsMemoryOp(op) && |f.slots| == STACK_LIMIT && Info(env, op).pops <= f.size <= STACK_LIMIT
  {
    if IsLog(op) then [Logged(data, Topics(f, op - LOG0))] else []
  }

  /** What an access leaves behind, given the bytes accessed and the memory afterwards. */
  function AfterAccess(env: Env, f: Frame, op: Byte, cost: int, data: Bytes, memory: Bytes, events: seq<Event>): Exec
    requires IsMemoryOp(op) && |f.slots| == STACK_LIMIT && Info(env, op).pops <= f.size <= STACK_LIMIT
  {
    Exec(if op == RETURN then Return else if op == REVERT then Revert else Running, cost,
         f.(memory := memory, slots := SlotsAfter(env, f, op, data),
            returnData := if op == RETURN || op == REVERT then data else f.returnData,
            trace := f.trace + events + LogOf(env, f, op, data)))
  }

  /** The opcodes that buy, read and write memory. */
  function ExecMemory(env: Env, f: Frame, op: Byte): Exec
    requires IsMemoryOp(op) && |f.slots| == STACK_LIMIT && Info(env, op).pops <= f.size <= STACK_LIMIT
  {
    var (o1, s1, o2, s2) := Ranges(f, op);
    var e1, e2 := CppExpansion(|f.memory|, o1, s1), CppExpansion(|f.memory|, o2, s2);
    var cost := MemoryOpCost(env, f, op);
    var events := if op == EXTCODECOPY && env.ctx.revision >= BERLIN then [Accessed(ToAddress(Top(f, 0)))] else [];
    if f.gas < cost then
      if ReportsOutOfGas(op, cost) then Exec(ErrorGas, 0, f)
      else OutOfGas(if f.gas < Max(e1.cost, e2.cost) then f else f.(trace := f.trace + events))
    else if op == RETURNDATACOPY && Top(f, 1) + Top(f, 2) > |f.returnData| then
      Exec(ErrorReturnDataCopyOutOfBounds, 0, f)
    else
      var grown := Grown(Grown(f.memory, e1.offset, e1.size), e2.offset, e2.size);
      AfterAccess(env, f, op, cost, Span(grown, e1.offset, e1.size), Stored(env, f, op, events, grown, e1, e2), events)
  }

  /** What the outcome of a call leaves on the stack and elsewhere. */
  function ApplyOutcome(f: Frame, op: Byte, outcome: Outcome, accessed: seq<Event>): Exec
    requires IsCall(op) && |f.slots| == STACK_LIMIT && Pops(op) <= f.size <= STACK_LIMIT
  {
    match outcome
    case Failed(state, reached) =>
      var f' := f.(trace := if reached then accessed else f.trace);
      if state == ErrorGas then OutOfGas(f') else Exec(state, 0, f')
    case Returned(gas, memory, returnData, refund, message, success) =>
      Exec(Running, f.gas - gas,
           f.(slots := SetTop(f, Pops(op) - 1, if success then 1 else 0), memory := memory, returnData := returnData,
              refunds := f.refunds + refund,
              trace := accessed + if message.Some? then [Called(message.value)] else []))
  }

  /** The operands of a call, as CallImpl reads them. */
  function CallOperands(f: Frame, op: Byte): Args
    requires IsCall(op) && |f.slots| == STACK_LIMIT && Pops(op) <= f.size <= STACK_LIMIT
  {
    if op == STATICCALL || op == DELEGATECALL then
      Args(Top(f, 0), ToAddress(Top(f, 1)), 0, Top(f, 2), Top(f, 3), Top(f, 4), Top(f, 5))
    else
      Args(Top(f, 0), ToAddress(Top(f, 1)), Top(f, 2), Top(f, 3), Top(f, 4), Top(f, 5), Top(f, 6))
  }

  /** CallImpl, with its operands taken from the stack and its result left there. */
  function ExecCall(env: Env, f: Frame, op: Byte): Exec
    requires IsCall(op) && |f.slots| == STACK_LIMIT && Pops(op) <= f.size <= STACK_LIMIT
  {
    var args := CallOperands(f, op);
    ApplyOutcome(f, op, CppCall(op, env.ctx, env.host, args, f.gas, f.memory, f.trace),
                 CppAccess(env.ctx, env.host, f.trace, args.target).1)
  }

  const MAX_INIT_CODE: nat := 49152

  /** The charges of CreateImpl besides memory: per word since Shanghai, and for hashing. */
  function CreateWordCost(env: Env, op: Byte, size: nat): nat {
    (if env.ctx.revision >= SHANGHAI then 2 * Words64(size) else 0) + (if op == CREATE2 then 6 * Words64(size) else 0)
  }

  /** CreateImpl from the point at which everything but the nested execution has been paid for. */
  function CreateForward(env: Env, f: Frame, op: Byte, gas: nat, grown: Bytes, input: Bytes): Exec
    requires IsCreate(op) && |f.slots| == STACK_LIMIT && Info(env, op).pops <= f.size <= STACK_LIMIT
  {
    var result := if op == CREATE then 2 else 3;
    if Top(f, 0) != 0 && env.host.balance(f.trace, env.ctx.self) < Top(f, 0) then
      Exec(Running, f.gas - gas, f.(slots := SetTop(f, result, 0), memory := grown, returnData := []))
    else
      var message := Message(if op == CREATE then CreateKind else Create2Kind, false, env.ctx.depth + 1, gas - gas / 64,
                             env.ctx.self, 0, 0, Top(f, 0), if op == CREATE2 then Top(f, 3) else 0, input);
      var r := env.host.call(f.trace, message);
      Exec(Running, f.gas - gas + (message.gas - r.gasLeft),
           f.(slots := SetTop(f, result, if r.success then r.created else 0), memory := grown,
              returnData := if r.reverted then r.output else [],
              refunds := f.refunds + r.refund, trace := f.trace + [Called(message)]))
  }

  /** CreateImpl. */
  function ExecCreate(env: Env, f: Frame, op: Byte): Exec
    requires IsCreate(op) && |f.slots| == STACK_LIMIT && Info(env, op).pops <= f.size <= STACK_LIMIT
  {
    var e := CppExpansion(|f.memory|, Top(f, 1), Top(f, 2));
    if env.ctx.depth > MAX_CALL_DEPTH then Exec(ErrorCreate, 0, f)
    else if f.gas < e.cost then OutOfGas(f)
    else if env.ctx.revision >= SHANGHAI && e.size > MAX_INIT_CODE then Exec(ErrorInitCodeSizeExceeded, e.cost, f)
    else if f.gas < e.cost + CreateWordCost(env, op, e.size) then OutOfGas(f)
    else
      var grown := Grown(f.memory, e.offset, e.size);
      CreateForward(env, f, op, f.gas - e.cost - CreateWordCost(env, op, e.size), grown, Span(grown, e.offset, e.size))
  }

  /** Every other opcode: an arbitrary effect on the stack, refunds and the host. */
  function ExecOther(env: Env, f: Frame, op: Byte): Exec {
    var e := env.effect(op, f);
    Exec(e.state, e.cost, f.(slots := Resized(f.slots, e.slots), refunds := f.refunds + e.refunds,
                             trace := f.trace + e.events))
  }

  /** The frame of a failing instruction: Result{.state = ...}. */
  function Fail(f: Frame, info: OpInfo, state: RunState): Frame {
    f.(state := state, pc := -1, gas := 0, size := f.size + Delta(info))
  }

  /** Impl::Run for all opcodes but jumps. */
  function Execute(env: Env, f: Frame, op: Byte): Exec
    requires |f.slots| == STACK_LIMIT && Info(env, op).pops <= f.size <= STACK_LIMIT
    requires IsPush(op) ==> f.size < STACK_LIMIT && 0 <= f.pc && f.pc + Width(op) <= |env.code| + PADDING
  {
    if op == STOP then Exec(Done, 0, f)
    else if op == JUMPDEST then Exec(Running, 0, f)
    else if IsPush(op) then ExecPush(env, f, op)
    else if IsMemoryOp(op) then ExecMemory(env, f, op)
    else if IsCall(op) then ExecCall(env, f, op)
    else if IsCreate(op) then ExecCreate(env, f, op)
    else ExecOther(env, f, op)
  }

  /** CheckJumpDest. */
  predicate CheckJumpDest(env: Env, target: Word) {
    target < TWO_64 && target < |env.code| && JumpTargets(env.code)[target]
  }

  /** Jumps; outside of stepping mode the JUMPDEST is executed along with them. */
  function RunJump(env: Env, f: Frame, op: Byte, stepping: bool): Frame
    requires IsJump(op) && |f.slots| == STACK_LIMIT && Info(env, op).pops <= f.size <= STACK_LIMIT
  {
    var info := Info(env, op);
    if op == JUMPI && Top(f, 1) == 0 then f.(pc := f.pc + 1, size := f.size + Delta(info))
    else if !CheckJumpDest(env, Top(f, 0)) then Fail(f, info, ErrorJump)
    else
      var target := Top(f, 0) % TWO_32;
      if stepping then f.(pc := target, size := f.size + Delta(info))
      else if f.gas < 1 then Fail(f, info, ErrorGas)
      else f.(pc := target + 1, gas := f.gas - 1, size := f.size + Delta(info))
  }

  /** Well-formedness of a frame about to be dispatched: no read leaves the padded code or the stack. */
  ghost predicate Dispatchable(env: Env, f: Frame) {
    && |env.code| < TWO_32
    && |f.slots| == STACK_LIMIT && 0 <= f.size <= STACK_LIMIT
    && 0 <= f.pc && IsStart(env.code, f.pc)
  }

  function OpAt(env: Env, f: Frame): Byte
    requires Dispatchable(env, f)
  {
    StartBound(env.code, 0, f.pc);
    PadCode(env.code)[f.pc]
  }

  /** Charging the dynamic gas a handler reports, and moving to the next instruction. */
  function Complete(r: Exec, info: OpInfo, gas: nat, pc: int, size: int): Frame {
    if r.cost > gas then Fail(r.frame, info, ErrorGas)
    else r.frame.(state := r.state, pc := pc, gas := gas - Max(r.cost, 0), size := size)
  }

  /** Run<op, Stepping>: the checks common to all opcodes, and the opcode itself. */
  function Dispatch(env: Env, f: Frame, op: Byte, stepping: bool): Frame
    requires |f.slots| == STACK_LIMIT && 0 <= f.size <= STACK_LIMIT && 0 <= f.pc
    requires IsPush(op) ==> f.pc + Width(op) <= |env.code| + PADDING
  {
    var info := Info(env, op);
    if env.ctx.revision < info.since then Fail(f, info, ErrorOpcode)
    else if info.noStatic && env.ctx.isStatic then Fail(f, info, ErrorStaticCall)
    else if f.size < info.pops then Fail(f, info, ErrorStackUnderflow)
    else if STACK_LIMIT - f.size < Delta(info) then Fail(f, info, ErrorStackOverflow)
    else if f.gas < info.staticGas then Fail(f, info, ErrorGas)
    else
      var charged := f.(gas := f.gas - info.staticGas);
      if IsJump(op) then RunJump(env, charged, op, stepping)
      else Complete(Execute(env, charged, op), info, charged.gas, f.pc + Width(op), f.size + Delta(info))
  }

  /** One dispatch. */
  function RunOp(env: Env, f: Frame, stepping: bool): Frame
    requires Dispatchable(env, f)
  {
    PushFits(env, f);
    Dispatch(env, f, OpAt(env, f), stepping)
  }

  /** A PUSH inside the code finds all of its data in the padded buffer. */
  lemma PushFits(env: Env, f: Frame)
    requires Dispatchable(env, f)
    ensures IsPush(OpAt(env, f)) ==> f.pc + Width(OpAt(env, f)) <= |env.code| + PADDING
  {
    StartBound(env.code, 0, f.pc);
  }
}
