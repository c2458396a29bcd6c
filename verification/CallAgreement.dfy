/** evmzero executes calls as specified, and what both guarantee about gas. */
module CallAgreement {
  import opened Evm
  import opened MemoryCost
  import opened MemoryModel
  import opened Calls

  /** A host that answers from a test state: accessing an address makes it warm. */
  function HostOf(accounts: Accounts, s: CtState): Host {
    Host((trace: seq<Event>, a: Address) => a in s.warm || Accessed(a) in trace,
         (trace: seq<Event>, a: Address) => a !in accounts.empty,
         (trace: seq<Event>, a: Address) => DelegateOf(accounts, a),
         (trace: seq<Event>, a: Address) => BalanceOf(accounts, a),
         (trace: seq<Event>, a: Address) => CodeOf(accounts, a),
         (trace: seq<Event>, m: Message) => JournalAnswer(s.future, m))
  }

  ghost function WarmAfter(warm: set<Address>, trace: seq<Event>): set<Address> {
    warm + set e | e in trace && e.Accessed? :: e.address
  }

  /** getRulesForCall: the static gas of the rule and the access cost it passes to its effect. */
  function RuleStaticGas(ctx: Context): nat { if ctx.revision < BERLIN then 700 else 0 }

  function RuleAccessCost(ctx: Context, warm: set<Address>, target: Address): nat {
    if ctx.revision < BERLIN then 0 else if target in warm then 100 else 2600
  }

  /** What the rule for a call does to a test state; None stands for a failed execution. */
  function SpecRule(ctx: Context, accounts: Accounts, s: CtState, op: Byte): Option<CtState>
    requires |s.stack| >= Pops(op)
  {
    var a := ArgsOf(op, s.stack);
    var access := RuleAccessCost(ctx, s.warm, a.target);
    var charged := s.(gas := s.gas - RuleStaticGas(ctx));
    if charged.gas < 0 || (op == CALL && ctx.isStatic && a.value != 0) then None
    else if SpecCost(ctx, accounts, charged, op, access) > charged.gas then None
    else Some(SpecCall(ctx, accounts, charged, op, access))
  }

  /** The target delegates to itself and its first access is this call. */
  predicate ColdSelfDelegation(ctx: Context, accounts: Accounts, warm: set<Address>, target: Address) {
    ctx.revision >= PRAGUE && DelegateOf(accounts, target) == Some(target) && target !in warm
  }

  /**
   * evmzero marks the target warm before it looks at the delegate, callEffect afterwards; so they
   * charge the same exactly if the call is not the first access to a self-delegating target.
   */
  lemma AccessCostsAgree(ctx: Context, accounts: Accounts, s: CtState, target: Address)
    ensures var (cost, trace) := CppAccess(ctx, HostOf(accounts, s), [], target);
      && WarmAfter(s.warm, trace) == SpecWarm(ctx, accounts, s.warm, target)
      && (cost == RuleStaticGas(ctx) + RuleAccessCost(ctx, s.warm, target)
          + SpecDelegationCost(ctx, accounts, s.warm, target)
          <==> !ColdSelfDelegation(ctx, accounts, s.warm, target))
  {}

  /** The outcome of evmzero is the specified state. */
  ghost predicate Matches(o: Outcome, s: CtState, op: Byte, r: CtState)
    requires |s.stack| >= Pops(op)
  {
    && o.Returned?
    && o.gas == r.gas && o.memory == r.memory && o.returnData == r.returnData
    && s.refund + o.refund == r.refund
    && r.stack == [if o.success then 1 else 0] + s.stack[Pops(op)..]
    && r.past == s.past + (if o.message.Some? then [Journaled(o.message.value)] else [])
  }

  lemma MatchesReturned(o: Outcome, s: CtState, op: Byte, r: CtState)
    requires |s.stack| >= Pops(op) && Matches(o, s, op, r)
    ensures o.Returned?
  {}

  /** A state that differs from s0 only in what paying for a call changes. */
  ghost predicate PaidFor(s0: CtState, op: Byte, s: CtState)
    requires |s0.stack| >= Pops(op)
  {
    s == s0.(gas := s.gas, stack := s0.stack[Pops(op)..], memory := s.memory, warm := s.warm) && 0 <= s.gas
  }

  ghost predicate SameRange(e: Expansion, offset: Word, size: Word) {
    e.size == size && (size != 0 ==> e.offset == offset)
  }

  /** Both sides treat the result of the nested call alike. */
  lemma FinishAgrees(s0: CtState, op: Byte, s: CtState, message: Message, a: Args, output: Expansion)
    requires |s0.stack| >= Pops(op) && PaidFor(s0, op, s) && message.gas <= s.gas
    requires SameRange(output, a.outOffset, a.outSize)
    ensures Matches(CppFinish(s.gas, s.memory, output, message, JournalAnswer(s0.future, message)), s0, op,
                    SpecExecute(s, Journaled(message), a))
  {
    var data := JournalAnswer(s0.future, message).output;
    var written := data[..Min(a.outSize, |data|)];
    if |written| == 0 {
      assert Written(s.memory, written, a.outOffset) == s.memory == Written(s.memory, written, output.offset);
    }
  }

  lemma ForwardAgrees(ctx: Context, accounts: Accounts, s0: CtState, op: Byte, s: CtState, envelope: Message, a: Args,
                      input: Expansion, output: Expansion, trace: seq<Event>)
    requires |s0.stack| >= Pops(op) && PaidFor(s0, op, s) && s.gas <= MAX_GAS
    requires SameRange(input, a.inOffset, a.inSize) && SameRange(output, a.outOffset, a.outSize)
    ensures Matches(CppForward(ctx, HostOf(accounts, s0), a, envelope, s.gas, s.memory, input, output, trace), s0, op,
                    SpecForward(ctx, accounts, s, Journaled(envelope), a))
  {
    hide Matches, CppFinish, SpecExecute, JournalAnswer, BalanceOf;
    var stipend := if a.value != 0 then STIPEND else 0;
    var gas := s.gas + stipend;
    assert CppChildGas(s.gas, a.gas) == Min(a.gas, s.gas - s.gas / 64) <= s.gas;
    assert Span(s.memory, input.offset, input.size) == Span(s.memory, a.inOffset, a.inSize);
    hide CppChildGas, Span, Min, Journaled;
    if a.value != 0 && BalanceOf(accounts, ctx.self) < a.value {
      RefusalAgrees(s0, op, s, gas);
    } else {
      var message := envelope.(gas := CppChildGas(s.gas, a.gas) + stipend,
                               input := Span(s.memory, a.inOffset, a.inSize));
      JournaledGas(envelope, message.gas, message.input);
      FinishAgrees(s0, op, s.(gas := gas), message, a, output);
    }
  }

  lemma JournaledGas(m: Message, gas: nat, input: Bytes)
    ensures Journaled(m.(gas := gas, input := input)) == Journaled(m).(gas := gas, input := input)
  {}

  lemma RefusalAgrees(s0: CtState, op: Byte, s: CtState, gas: nat)
    requires |s0.stack| >= Pops(op) && PaidFor(s0, op, s)
    ensures Matches(Returned(gas, s.memory, [], 0, None, false), s0, op,
                    s.(gas := gas, stack := [0] + s.stack, returnData := []))
  {}

  lemma OtherCostsAgree(ctx: Context, accounts: Accounts, s: CtState, op: Byte, a: Args)
    requires !ColdSelfDelegation(ctx, accounts, s.warm, a.target)
    ensures CppOtherCost(op, ctx, HostOf(accounts, s), [], a)
         == RuleStaticGas(ctx) + SpecOtherCost(ctx, accounts, s.warm, op, a, RuleAccessCost(ctx, s.warm, a.target))
  {
    AccessCostsAgree(ctx, accounts, s, a.target);
  }

  /** Charging evmzero's larger expansion is charging the exact memory cost. */
  lemma MemoryAgrees(gas: nat, memory: Bytes, a: Args)
    requires |memory| % 32 == 0 && gas <= MAX_CT_GAS && C(|memory| / 32) <= MAX_CT_GAS
    ensures var input, output := CppExpansion(|memory|, a.inOffset, a.inSize),
      CppExpansion(|memory|, a.outOffset, a.outSize);
      var cost := Max(input.cost, output.cost);
      && (cost <= gas <==> SpecMemoryCost(memory, a) <= gas)
      && (cost <= gas ==>
            && cost == SpecMemoryCost(memory, a)
            && SameRange(input, a.inOffset, a.inSize) && SameRange(output, a.outOffset, a.outSize)
            && Grown(Grown(memory, output.offset, output.size), input.offset, input.size) == SpecGrown(memory, a))
  {
    hide C, CppExpansion;
    var have := |memory| / 32;
    CtGasIsInRange(gas, have);
    assert |memory| == 32 * have;
    CppPricesExactly(gas, have, a.inOffset, a.inSize);
    CppPricesExactly(gas, have, a.outOffset, a.outSize);
    GrownCommutes(memory, a.inOffset, a.inSize, a.outOffset, a.outSize);
  }

  /**
   * On every test state within the gas limit of the conformance tests, whatever the operands and
   * the journal: evmzero fails exactly if the rule does, and otherwise ends with the same gas,
   * memory, return data, refund, stack and message to the callee. (AccessCostsAgree adds the warm addresses.)
   */
  lemma CallsAgree(ctx: Context, accounts: Accounts, s: CtState, op: Byte)
    requires IsCall(op) && |s.stack| >= Pops(op) && ctx.depth <= MAX_CALL_DEPTH
    requires |s.memory| % 32 == 0 && 0 <= s.gas <= MAX_CT_GAS && C(|s.memory| / 32) <= MAX_CT_GAS
    requires !ColdSelfDelegation(ctx, accounts, s.warm, ArgsOf(op, s.stack).target)
    ensures var o, r := CppCall(op, ctx, HostOf(accounts, s), ArgsOf(op, s.stack), s.gas, s.memory, []),
      SpecRule(ctx, accounts, s, op);
      && (o.Failed? <==> r.None?)
      && (r.Some? ==> Matches(o, s, op, r.value))
  {
    hide C, CppExpansion, SpecMemoryCost, Grown, SpecGrown, CppOtherCost, SpecOtherCost;
    hide CppForward, SpecForward, Matches, Envelope, Journaled, HostOf, ArgsOf;
    var a := ArgsOf(op, s.stack);
    var host := HostOf(accounts, s);
    MemoryAgrees(s.gas, s.memory, a);
    OtherCostsAgree(ctx, accounts, s, op, a);
    var input, output := CppExpansion(|s.memory|, a.inOffset, a.inSize),
        CppExpansion(|s.memory|, a.outOffset, a.outSize);
    if SpecRule(ctx, accounts, s, op).Some? {
      var charged := SpecCharged(ctx, accounts, s.(gas := s.gas - RuleStaticGas(ctx)), op,
                                 RuleAccessCost(ctx, s.warm, a.target));
      ForwardAgrees(ctx, accounts, s, op, charged, Envelope(op, ctx, a), a, input, output,
                    CppAccess(ctx, host, [], a.target).1);
      assert CppCall(op, ctx, host, a, s.gas, s.memory, []).Returned? by {
        MatchesReturned(CppCall(op, ctx, host, a, s.gas, s.memory, []), s, op, SpecRule(ctx, accounts, s, op).value);
      }
    }
  }

  // ------------------------------------------------------------- gas of calls

  /**
   * What every host that returns at most the gas it was given leaves to the caller: the nested
   * call gets at most all but one 64th of what is left after paying, so the caller keeps at least
   * one 64th of it; gas is conserved; and a call always costs something, stipend included.
   */
  lemma CallGas(op: Byte, ctx: Context, host: Host, args: Args, gas: nat, memory: Bytes, trace: seq<Event>)
    requires Honest(host) && |memory| % 32 == 0 && |memory| / 32 < CPP_CUTOFF && gas + C(|memory| / 32) < MAX_GAS
    requires CppCall(op, ctx, host, args, gas, memory, trace).Returned?
    ensures var o := CppCall(op, ctx, host, args, gas, memory, trace);
      var stipend := if args.value != 0 then STIPEND else 0;
      var left := gas - SpecMemoryCost(memory, args) - CppOtherCost(op, ctx, host, trace, args);
      && 0 <= left
      && left / 64 <= o.gas < gas - SpecMemoryCost(memory, args)
      && |o.memory| == |SpecGrown(memory, args)| && |o.memory| % 32 == 0
      && (o.message.Some? ==>
            var child := host.call(CppAccess(ctx, host, trace, args.target).1, o.message.value);
            && o.message.value.gas <= left - left / 64 + stipend
            && o.message.value.gas - stipend <= args.gas
            && o.gas == left + stipend - (o.message.value.gas - child.gasLeft))
      && (o.message.None? ==> o.gas == left + stipend)
  {
    hide C, CppExpansion, SpecMemoryCost, Grown, SpecGrown, CppOtherCost, Envelope, CppAccess;
    var input, output := CppExpansion(|memory|, args.inOffset, args.inSize),
        CppExpansion(|memory|, args.outOffset, args.outSize);
    CallMemory(gas, memory, args);
    OtherCostBound(op, ctx, host, trace, args);
    var left := gas - SpecMemoryCost(memory, args) - CppOtherCost(op, ctx, host, trace, args);
    assert left / 64 <= left;
  }

  lemma OtherCostBound(op: Byte, ctx: Context, host: Host, trace: seq<Event>, args: Args)
    ensures CppOtherCost(op, ctx, host, trace, args) >= if args.value != 0 then 9100 else 100
  {}

  /** An affordable call buys exactly the memory it grows. */
  lemma CallMemory(gas: nat, memory: Bytes, a: Args)
    requires |memory| % 32 == 0 && |memory| / 32 < CPP_CUTOFF && gas + C(|memory| / 32) < MAX_GAS
    requires Max(CppExpansion(|memory|, a.inOffset, a.inSize).cost,
                 CppExpansion(|memory|, a.outOffset, a.outSize).cost) <= gas
    ensures var input, output := CppExpansion(|memory|, a.inOffset, a.inSize),
      CppExpansion(|memory|, a.outOffset, a.outSize);
      && Max(input.cost, output.cost) == SpecMemoryCost(memory, a)
      && SameRange(input, a.inOffset, a.inSize) && SameRange(output, a.outOffset, a.outSize)
      && Grown(Grown(memory, output.offset, output.size), input.offset, input.size) == SpecGrown(memory, a)
      && |SpecGrown(memory, a)| % 32 == 0 && |SpecGrown(memory, a)| / 32 < CPP_CUTOFF
      && C(|SpecGrown(memory, a)| / 32) - C(|memory| / 32) == SpecMemoryCost(memory, a)
  {
    hide C, CppExpansion;
    var have := |memory| / 32;
    assert |memory| == 32 * have;
    CppNeverUndercharges(gas, have, a.inOffset, a.inSize);
    CppNeverUndercharges(gas, have, a.outOffset, a.outSize);
    SequentialGrowth(have, a.inOffset, a.inSize, a.outOffset, a.outSize);
    GrownCommutes(memory, a.inOffset, a.inSize, a.outOffset, a.outSize);
    GrownFits(memory, a.inOffset, a.inSize);
    GrownFits(Grown(memory, a.inOffset, a.inSize), a.outOffset, a.outSize);
  }
}
