/**
 * The call family in the Rust interpreter: every cost is consumed when it arises, and the two memory
 * growths are bought one after the other. It ends as evmzero does.
 */
module RustCalls {
  import opened Evm
  import opened MemoryCost
  import opened MemoryModel
  import opened Calls
  import opened CallAgreement

  /** word_size and memory_cost on uint64; None stands for the overflow reported as out of gas. */
  function WordSize(size: nat): Option<nat> {
    if size + 31 > MAX_U64 then None else Some((size + 31) / 32)
  }

  function MemoryPrice(size: nat): Option<nat> {
    var words := WordSize(size);
    if words.None? then None
    else
      var square := words.value * words.value;
      if square > MAX_U64 then None else Some(square / 512 + 3 * words.value)
  }

  lemma SquareCutoff(w: nat)
    ensures w * w > MAX_U64 <==> w >= GO_CUTOFF
  {
    if w < GO_CUTOFF {
      SquareMonotone(w, GO_CUTOFF - 1);
    } else {
      SquareMonotone(GO_CUTOFF, w);
    }
  }

  /** The Rust price is exact up to its own cut-off, which is the one of the conformance tests. */
  lemma MemoryPriceIsC(size: nat)
    ensures Words(size) < GO_CUTOFF ==> MemoryPrice(size) == Some(C(Words(size)))
    ensures Words(size) >= GO_CUTOFF ==> MemoryPrice(size) == None
  {
    SquareCutoff(Words(size));
  }

  /** The range of an access leaves uint64 only if it is far too expensive. */
  lemma RangeOverflows(gas: nat, have: nat, offset: nat, size: nat)
    requires gas + C(have) < C(GO_CUTOFF) && size != 0 && offset + size > MAX_U64
    ensures ExactCost(have, offset, size) > gas
  {
    Unaffordable(gas, have, offset, size, GO_CUTOFF);
  }

  /** Looking at an account does not bring another one into existence. */
  ghost predicate AccessIsHarmless(host: Host) {
    forall trace, x, a :: host.exists_(trace + [Accessed(x)], a) == host.exists_(trace, a)
  }

  /** A stack with its top first, as the operands of calls are listed. */
  function TopFirst(stack: seq<Word>): (r: seq<Word>)
    ensures |r| == |stack|
  {
    seq(|stack|, i requires 0 <= i < |stack| => stack[|stack| - 1 - i])
  }

  /** The fields of the Rust interpreter that calls read or write. */
  class Interpreter {
    const ctx: Context
    const host: Host
    /** A vector: its last element is the top of the stack. */
    var stack: seq<Word>
    var gas: nat
    var memory: Bytes
    var trace: seq<Event>

    constructor (ctx: Context, host: Host, stack: seq<Word>, gas: nat, memory: Bytes, trace: seq<Event>)
      ensures this.ctx == ctx && this.host == host && this.stack == stack
      ensures this.gas == gas && this.memory == memory && this.trace == trace
    {
      this.ctx, this.host, this.stack, this.gas, this.memory, this.trace := ctx, host, stack, gas, memory, trace;
    }

    /** Stack::pop of several words, the top of the stack last, and their names in the call functions. */
    method PopArgs(op: Byte) returns (r: Option<Args>)
      requires IsCall(op)
      modifies `stack
      ensures r.Some? <==> |old(stack)| >= Pops(op)
      ensures r.Some? ==> r.value == ArgsOf(op, TopFirst(old(stack)))
    {
      var n := Pops(op);
      if |stack| < n {
        return None;
      }
      var popped := stack[|stack| - n..];
      stack := stack[..|stack| - n];
      var retLen, retOffset, argsLen, argsOffset := popped[0], popped[1], popped[2], popped[3];
      if op == CALL || op == CALLCODE {
        var value, address, gas := popped[4], popped[5], popped[6];
        return Some(Args(gas, ToAddress(address), value, argsOffset, argsLen, retOffset, retLen));
      }
      var address, gas := popped[4], popped[5];
      return Some(Args(gas, ToAddress(address), 0, argsOffset, argsLen, retOffset, retLen));
    }

    /** Gas::consume. */
    method Consume(cost: nat) returns (ok: bool)
      modifies `gas
      ensures ok <==> cost <= old(gas)
      ensures gas == if ok then old(gas) - cost else old(gas)
    {
      if gas < cost {
        return false;
      }
      gas := gas - cost;
      return true;
    }

    /** Gas::add on int64. */
    method Add(more: nat) returns (ok: bool)
      modifies `gas
      ensures ok <==> old(gas) + more <= MAX_GAS
      ensures gas == if ok then old(gas) + more else old(gas)
    {
      if gas + more > MAX_GAS {
        return false;
      }
      gas := gas + more;
      return true;
    }

    /** Gas::consume_address_access_cost. */
    method ConsumeAccess(address: Address) returns (ok: bool)
      modifies `gas, `trace
      ensures var cost := if ctx.revision < BERLIN then 0 else if host.isWarm(old(trace), address) then 100 else 2600;
        (ok <==> cost <= old(gas)) && (ok ==> gas == old(gas) - cost)
      ensures trace == if ctx.revision < BERLIN then old(trace) else old(trace) + [Accessed(address)]
    {
      if ctx.revision < BERLIN {
        return true;
      }
      var isWarm := host.isWarm(trace, address);
      trace := trace + [Accessed(address)];
      if !isWarm {
        ok := Consume(2600);
      } else {
        ok := Consume(100);
      }
    }

    /** Gas::consume_delegate_resolution_cost. */
    method ConsumeDelegation(address: Address) returns (ok: bool)
      modifies `gas, `trace
      ensures var delegate := host.delegate(old(trace), address);
        var cost := if ctx.revision < PRAGUE || delegate.None? then 0
          else if host.isWarm(old(trace), delegate.value) then 100 else 2600;
        && (ok <==> cost <= old(gas)) && (ok ==> gas == old(gas) - cost)
        && trace == if ctx.revision < PRAGUE || delegate.None? then old(trace)
          else old(trace) + [Accessed(delegate.value)]
    {
      ok := true;
      if ctx.revision < PRAGUE {
        return;
      }
      var delegate := host.delegate(trace, address);
      if delegate.Some? {
        ok := ConsumeAccess(delegate.value);
      }
    }

    /** All costs but those for memory: paid one by one, and affordable exactly if their sum is. */
    method PayForAccess(op: Byte, a: Args) returns (ok: bool)
      requires IsCall(op) && AccessIsHarmless(host) && (!TakesValue(op) ==> a.value == 0)
      modifies `gas, `trace
      ensures ok <==> CppOtherCost(op, ctx, host, old(trace), a) <= old(gas)
      ensures ok ==> gas == old(gas) - CppOtherCost(op, ctx, host, old(trace), a)
      ensures ok ==> trace == CppAccess(ctx, host, old(trace), a.target).1
    {
      if ctx.revision < BERLIN {
        ok := Consume(700);
        if !ok { return; }
      }
      ok := ConsumeAccess(a.target);
      if !ok { return; }
      if a.value != 0 {
        ok := Consume(9000);
        if !ok { return; }
      }
      if op == CALL && a.value != 0 && !host.exists_(trace, a.target) {
        ok := Consume(25000);
        if !ok { return; }
      }
      ok := ConsumeDelegation(a.target);
    }

    /** Memory::get_mut_slice: buys and grows exactly the range, or fails because it is too expensive. */
    method GetMutSlice(offset: Word, len: nat) returns (ok: bool)
      requires |memory| % 32 == 0 && gas + C(|memory| / 32) < C(GO_CUTOFF)
      requires len <= MAX_U64
      modifies `gas, `memory
      ensures ok <==> ExactCost(|old(memory)| / 32, offset, len) <= old(gas)
      ensures ok ==> gas == old(gas) - ExactCost(|old(memory)| / 32, offset, len)
      ensures ok ==> memory == Grown(old(memory), offset, len)
    {
      hide C, MemoryPrice;
      ghost var have := |memory| / 32;
      assert |memory| == 32 * have;
      if len == 0 {
        return true;
      }
      if offset + len > MAX_U64 {
        RangeOverflows(gas, have, offset, len);
        return false;
      }
      var end := offset + len;
      var words := WordSize(end);
      MemoryPriceIsC(end);
      MemoryPriceIsC(|memory|);
      if Words(end) >= GO_CUTOFF { Unaffordable(gas, have, offset, len, GO_CUTOFF); }
      CellsBelowCutoff(gas, have);
      if words.None? {
        return false;
      }
      var newLen := words.value * 32;
      assert Words(newLen) == Words(end);
      MemoryPriceIsC(newLen);
      if newLen > |memory| {
        var before, after := MemoryPrice(|memory|), MemoryPrice(newLen);
        if before.None? || after.None? {
          return false;
        }
        CMonotone(have, Words(end));
        ok := Consume(after.value - before.value);
        if !ok { return; }
        memory := memory + Zeros(newLen - |memory|);
      }
      return true;
    }

    /** The slices of output and input, bought one after the other. */
    method PayForMemory(a: Args) returns (ok: bool)
      requires |memory| % 32 == 0 && gas + C(|memory| / 32) < C(GO_CUTOFF)
      modifies `gas, `memory
      ensures ok <==> SpecMemoryCost(old(memory), a) <= old(gas)
      ensures ok ==> gas == old(gas) - SpecMemoryCost(old(memory), a) && memory == SpecGrown(old(memory), a)
    {
      ghost var start, have := memory, |memory| / 32;
      hide C;
      SequentialGrowth(have, a.outOffset, a.outSize, a.inOffset, a.inSize);
      SequentialGrowth(have, a.inOffset, a.inSize, a.outOffset, a.outSize);
      if a.inSize > MAX_U64 || a.outSize > MAX_U64 {
        if a.inSize > MAX_U64 { RangeOverflows(gas, have, a.inOffset, a.inSize); }
        if a.outSize > MAX_U64 { RangeOverflows(gas, have, a.outOffset, a.outSize); }
        return false;
      }
      ok := GetMutSlice(a.outOffset, a.outSize);
      if !ok { return; }
      GrownFits(start, a.outOffset, a.outSize);
      ok := GetMutSlice(a.inOffset, a.inSize);
      GrownCommutes(start, a.inOffset, a.inSize, a.outOffset, a.outSize);
    }

    /** What happens after the nested call: gas is added and consumed in steps, none of which fails. */
    method Settle(a: Args, message: Message, result: CallResult, stipend: nat, ghost output: Expansion)
      returns (o: Outcome)
      requires |memory| % 32 == 0 && gas + C(|memory| / 32) < C(GO_CUTOFF) && SameRange(output, a.outOffset, a.outSize)
      requires a.outSize <= MAX_U64 && (a.outSize != 0 ==> a.outOffset + a.outSize <= |memory|)
      requires stipend <= message.gas <= gas && result.gasLeft <= message.gas
      modifies this
      ensures o == CppFinish(old(gas), old(memory), output, message, result)
    {
      CutoffsAreFarApart();
      AlreadyGrown(memory, a.outOffset, a.outSize);
      WrittenNothing(memory, a.outOffset, output.offset);
      hide C, Grown, Written, ExactCost;
      var ok := GetMutSlice(a.outOffset, a.outSize);
      assert ok;
      var minLen := Min(|result.output|, a.outSize);
      if minLen > 0 {
        memory := Written(memory, result.output[..minLen], a.outOffset);
      }
      ok := Add(result.gasLeft);
      assert ok;
      ok := Consume(message.gas - stipend);
      assert ok;
      ok := Consume(stipend);
      assert ok;
      o := Returned(gas, memory, result.output, result.refund, Some(message), result.success);
    }

    /** All but one 64th of the gas left, or less if less is asked for. */
    method Endowment(requested: Word) returns (endowment: nat)
      requires gas <= MAX_GAS
      ensures endowment == CppChildGas(gas, requested) <= gas
    {
      var limit := gas - gas / 64;
      var saturated := if requested > MAX_U64 then MAX_U64 else requested;
      endowment := Min(saturated, limit);
    }

    /** The nested call: the gas passed on, the stipend, the balance check and the result. */
    method Forward(a: Args, envelope: Message, ghost input: Expansion, ghost output: Expansion) returns (o: Outcome)
      requires |memory| % 32 == 0 && gas + STIPEND + C(|memory| / 32) < C(GO_CUTOFF) && Honest(host)
      requires SameRange(input, a.inOffset, a.inSize) && SameRange(output, a.outOffset, a.outSize)
      requires a.outSize <= MAX_U64 && (a.outSize != 0 ==> a.outOffset + a.outSize <= |memory|)
      modifies this
      ensures o == CppForward(ctx, host, a, envelope, old(gas), old(memory), input, output, old(trace))
    {
      CutoffsAreFarApart();
      assert Span(memory, a.inOffset, a.inSize) == Span(memory, input.offset, input.size);
      hide C, Honest, CppFinish, Span, SameRange, CppChildGas;
      var left := gas;
      var endowment := Endowment(a.gas);
      var stipend := if a.value == 0 then 0 else STIPEND;
      var ok := Add(stipend);
      assert ok;
      if a.value > host.balance(trace, ctx.self) {
        return Returned(gas, memory, [], 0, None, false);
      }
      var message := envelope.(gas := endowment + stipend, input := Span(memory, a.inOffset, a.inSize));
      var result := host.call(trace, message);
      HonestCall(host, trace, message);
      o := Settle(a, message, result, stipend, output);
    }

    /** The four messages, field by field. */
    method NewEnvelope(op: Byte, a: Args) returns (message: Message)
      requires IsCall(op) && (!TakesValue(op) ==> a.value == 0)
      ensures message == Envelope(op, ctx, a)
    {
      var depth, self := ctx.depth + 1, ctx.self;
      if op == CALLCODE {
        message := Message(CallCodeKind, ctx.isStatic, depth, 0, self, self, a.target, a.value, 0, []);
      } else if op == CALL {
        message := Message(CallKind, ctx.isStatic, depth, 0, self, a.target, a.target, a.value, 0, []);
      } else if op == DELEGATECALL {
        message := Message(DelegateCallKind, ctx.isStatic, depth, 0, ctx.caller, self, a.target, ctx.value, 0, []);
      } else {
        message := Message(CallKind, true, depth, 0, self, a.target, a.target, 0, 0, []);
      }
    }

    /**
     * call_or_call_code and static_or_delegate_call: they fail exactly if evmzero fails, and otherwise
     * end with the same gas, memory, return data, refund and message to the callee.
     */
    method CallFamily(op: Byte) returns (o: Outcome)
      requires IsCall(op) && ctx.depth <= MAX_CALL_DEPTH && AccessIsHarmless(host) && Honest(host)
      requires |memory| % 32 == 0 && gas + C(|memory| / 32) < C(CPP_CUTOFF)
      modifies this
      ensures |old(stack)| < Pops(op) ==> o.Failed?
      ensures |old(stack)| >= Pops(op) ==>
        var cpp := CppCall(op, ctx, host, ArgsOf(op, TopFirst(old(stack))), old(gas), old(memory), old(trace));
        (o.Failed? <==> cpp.Failed?) && (o.Returned? ==> o == cpp)
    {
      hide C, Honest, AccessIsHarmless, CppCall;
      var a := PopArgs(op);
      if a.None? {
        return Failed(ErrorStackUnderflow, false);
      }
      o := CallWith(op, a.value);
    }

    /** The call functions once their operands are popped. */
    method CallWith(op: Byte, a: Args) returns (o: Outcome)
      requires IsCall(op) && (!TakesValue(op) ==> a.value == 0) && ctx.depth <= MAX_CALL_DEPTH
      requires AccessIsHarmless(host) && Honest(host)
      requires |memory| % 32 == 0 && gas + C(|memory| / 32) < C(CPP_CUTOFF)
      modifies this
      ensures o.Failed? <==> CppCall(op, ctx, host, a, old(gas), old(memory), old(trace)).Failed?
      ensures o.Returned? ==> o == CppCall(op, ctx, host, a, old(gas), old(memory), old(trace))
    {
      hide C, CppExpansion, SpecMemoryCost, Grown, SpecGrown, CppOtherCost;
      hide CppForward, Envelope, CppAccess, SameRange, Honest, AccessIsHarmless;
      ghost var gas0, memory0, trace0 := gas, memory, trace;
      ghost var input, output := CppExpansion(|memory|, a.inOffset, a.inSize),
          CppExpansion(|memory|, a.outOffset, a.outSize);
      PricesAgree(gas, memory, a);
      if op == CALL && a.value != 0 && ctx.isStatic {
        return Failed(ErrorStaticCall, false);
      }
      OtherCostBound(op, ctx, host, trace, a);
      var ok := PayForAccess(op, a);
      if !ok {
        return Failed(ErrorGas, true);
      }
      ok := PayForMemory(a);
      if !ok {
        return Failed(ErrorGas, true);
      }
      ForwardIsReady(gas0, memory0, gas, a);
      var envelope := NewEnvelope(op, a);
      o := Forward(a, envelope, input, output);
      ForwardReturns(ctx, host, a, Envelope(op, ctx, a),
                     gas0 - SpecMemoryCost(memory0, a) - CppOtherCost(op, ctx, host, trace0, a),
                     SpecGrown(memory0, a), input, output, CppAccess(ctx, host, trace0, a.target).1);
    }
  }

  lemma CellsBelowCutoff(gas: nat, have: nat)
    requires gas + C(have) < C(GO_CUTOFF)
    ensures have < GO_CUTOFF
  {
    if have >= GO_CUTOFF { CMonotone(GO_CUTOFF, have); }
  }

  lemma HonestCall(host: Host, trace: seq<Event>, message: Message)
    requires Honest(host)
    ensures host.call(trace, message).gasLeft <= message.gas
  {}

  lemma AlreadyGrown(memory: Bytes, offset: nat, size: nat)
    requires |memory| % 32 == 0 && (size != 0 ==> offset + size <= |memory|)
    ensures ExactCost(|memory| / 32, offset, size) == 0 && Grown(memory, offset, size) == memory
  {}

  lemma PricesAgree(gas: nat, memory: Bytes, a: Args)
    requires |memory| % 32 == 0 && gas + C(|memory| / 32) < C(CPP_CUTOFF)
    ensures gas + C(|memory| / 32) < C(GO_CUTOFF)
    ensures var input, output := CppExpansion(|memory|, a.inOffset, a.inSize),
      CppExpansion(|memory|, a.outOffset, a.outSize);
      && 0 <= SpecMemoryCost(memory, a)
      && (Max(input.cost, output.cost) <= gas <==> SpecMemoryCost(memory, a) <= gas)
      && (SpecMemoryCost(memory, a) <= gas ==>
            && Max(input.cost, output.cost) == SpecMemoryCost(memory, a)
            && SameRange(input, a.inOffset, a.inSize) && SameRange(output, a.outOffset, a.outSize)
            && Grown(Grown(memory, output.offset, output.size), input.offset, input.size) == SpecGrown(memory, a))
  {
    hide C, CppExpansion;
    var have := |memory| / 32;
    assert |memory| == 32 * have;
    CutoffPrices();
    CppPricesExactly(gas, have, a.inOffset, a.inSize);
    CppPricesExactly(gas, have, a.outOffset, a.outSize);
    GrownCommutes(memory, a.inOffset, a.inSize, a.outOffset, a.outSize);
  }

  lemma CutoffsAreFarApart()
    ensures C(CPP_CUTOFF) + STIPEND < C(GO_CUTOFF) && 2 * C(GO_CUTOFF) < MAX_GAS
  {}

  /** What was paid for is there, and the price of memory stays out of reach of the cut-off. */
  lemma ForwardIsReady(gas0: nat, memory: Bytes, gas: nat, a: Args)
    requires |memory| % 32 == 0 && gas0 + C(|memory| / 32) < C(CPP_CUTOFF) && gas + SpecMemoryCost(memory, a) <= gas0
    ensures |SpecGrown(memory, a)| % 32 == 0 && gas + STIPEND + C(|SpecGrown(memory, a)| / 32) < C(GO_CUTOFF)
    ensures a.outSize <= MAX_U64 && (a.outSize != 0 ==> a.outOffset + a.outSize <= |SpecGrown(memory, a)|)
  {
    CutoffsAreFarApart();
    CutoffPrices();
    hide C;
    var have := |memory| / 32;
    GrownFits(memory, a.inOffset, a.inSize);
    GrownFits(Grown(memory, a.inOffset, a.inSize), a.outOffset, a.outSize);
    SequentialGrowth(have, a.inOffset, a.inSize, a.outOffset, a.outSize);
    if a.outSize > MAX_U64 { RangeOverflows(gas0, have, a.outOffset, a.outSize); }
  }

  lemma ForwardReturns(ctx: Context, host: Host, a: Args, envelope: Message, gas: nat, memory: Bytes,
                       input: Expansion, output: Expansion, trace: seq<Event>)
    requires Honest(host)
    ensures CppForward(ctx, host, a, envelope, gas, memory, input, output, trace).Returned?
  {}

  /** The hosts of CallsAgree meet the premises of CallFamily, so all three executions agree there. */
  lemma TestHostsQualify(accounts: Accounts, s: CtState)
    ensures Honest(HostOf(accounts, s)) && AccessIsHarmless(HostOf(accounts, s))
  {}
}
