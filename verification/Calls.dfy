/**
 * The call family CALL, CALLCODE, DELEGATECALL and STATICCALL, as executed by evmzero (CallImpl)
 * and as specified for the conformance tests (getRulesForCall and callEffect).
 */
module Calls {
  import opened Evm
  import opened MemoryCost
  import opened MemoryModel

  const MAX_CALL_DEPTH: nat := 1024
  const STIPEND: nat := 2300

  predicate IsCall(op: Byte) { (op == CALL || op == CALLCODE || op == DELEGATECALL || op == STATICCALL) }
  predicate TakesValue(op: Byte) { op == CALL || op == CALLCODE }

  datatype Kind = CallKind | CallCodeKind | DelegateCallKind | StaticCallKind | CreateKind | Create2Kind

  /** A message to a nested execution, as EVMC has it: a static call is a call with a flag. */
  datatype Message = Message(kind: Kind, isStatic: bool, depth: nat, gas: nat, sender: Address, recipient: Address,
                             codeAddress: Address, value: Word, salt: Word, input: Bytes)

  /** What the adapter between EVMC and test states makes of a message: depth and flag are gone. */
  function Journaled(m: Message): Message {
    m.(kind := if m.kind == CallKind && m.isStatic then StaticCallKind else m.kind, isStatic := false, depth := 0)
  }

  datatype CallResult = CallResult(success: bool, reverted: bool, output: Bytes, gasLeft: nat, refund: int,
                                   created: Word)

  /** Everything an interpreter asks of its host, in order. */
  datatype Event = Accessed(address: Address) | Called(message: Message) | Logged(data: Bytes, topics: seq<Word>)

  /** A deterministic host answers from the history of the requests made so far. */
  datatype Host = Host(
    isWarm: (seq<Event>, Address) -> bool,
    exists_: (seq<Event>, Address) -> bool,
    delegate: (seq<Event>, Address) -> Option<Address>,
    balance: (seq<Event>, Address) -> Word,
    code: (seq<Event>, Address) -> Bytes,
    call: (seq<Event>, Message) -> CallResult)

  /** The one promise of a host: a nested call gives back at most the gas it was given. */
  ghost predicate Honest(host: Host) {
    forall trace, message :: host.call(trace, message).gasLeft <= message.gas
  }

  /** The immutable part of an execution: the message being executed. */
  datatype Context = Context(revision: Revision, isStatic: bool, depth: nat, self: Address, caller: Address,
                             value: Word)

  datatype Args = Args(gas: Word, target: Address, value: Word, inOffset: Word, inSize: Word, outOffset: Word,
                       outSize: Word)

  function ToAddress(w: Word): Address { w % 0x1_0000000000_0000000000_0000000000_0000000000 }

  function Pops(op: Byte): nat { if TakesValue(op) then 7 else 6 }

  /** The operands of a call, top of the stack first. */
  function ArgsOf(op: Byte, stack: seq<Word>): Args
    requires |stack| >= Pops(op)
  {
    var i := if TakesValue(op) then 3 else 2;
    Args(stack[0], ToAddress(stack[1]), if TakesValue(op) then stack[2] else 0,
         stack[i], stack[i + 1], stack[i + 2], stack[i + 3])
  }

  datatype Outcome =
    | Failed(state: RunState, accessed: bool)
    | Returned(gas: nat, memory: Bytes, returnData: Bytes, refund: int, message: Option<Message>, success: bool)

  // ------------------------------------------------------------------ evmzero

  /** Access and delegation costs, with the requests they put to the host. */
  function CppAccess(ctx: Context, host: Host, trace: seq<Event>, target: Address): (int, seq<Event>) {
    var access := if ctx.revision < BERLIN then 700 else if host.isWarm(trace, target) then 100 else 2600;
    var t1 := if ctx.revision < BERLIN then trace else trace + [Accessed(target)];
    if ctx.revision >= PRAGUE && host.delegate(t1, target).Some? then
      var delegate := host.delegate(t1, target).value;
      (access + (if host.isWarm(t1, delegate) then 100 else 2600), t1 + [Accessed(delegate)])
    else (access, t1)
  }

  /** A message without the parts that depend on the gas left: who calls whom, how, and with which value. */
  function Envelope(op: Byte, ctx: Context, args: Args): Message {
    Message(
      if op == DELEGATECALL then DelegateCallKind else if op == CALLCODE then CallCodeKind else CallKind,
      op == STATICCALL || ctx.isStatic,
      ctx.depth + 1,
      0,
      if op == DELEGATECALL then ctx.caller else ctx.self,
      if op == CALL || op == STATICCALL then args.target else ctx.self,
      args.target,
      if op == DELEGATECALL then ctx.value else args.value,
      0,
      [])
  }

  /** The end of CallImpl::Run: the effects of the result of the nested call. */
  function CppFinish(gas: int, memory: Bytes, output: Expansion, message: Message, result: CallResult): Outcome {
    var left := gas - (message.gas - result.gasLeft);
    if left < 0 then Failed(ErrorGas, true)
    else Returned(left,
                  if |result.output| > 0
                  then Written(memory, result.output[..Min(output.size, |result.output|)], output.offset)
                  else memory,
                  result.output, result.refund, Some(message), result.success)
  }

  /** The gas handed to the nested call, without the stipend. */
  function CppChildGas(gas: nat, requested: Word): nat {
    Min(if requested < MAX_GAS then requested else MAX_GAS, gas - gas / 64)
  }

  /** CallImpl::Run from the point at which everything but the nested call has been paid for. */
  function CppForward(ctx: Context, host: Host, args: Args, envelope: Message, gas: nat, memory: Bytes,
                      input: Expansion, output: Expansion, trace: seq<Event>): Outcome {
    var stipend := if args.value != 0 then STIPEND else 0;
    var message := envelope.(gas := CppChildGas(gas, args.gas) + stipend,
                             input := Span(memory, input.offset, input.size));
    if args.value != 0 && host.balance(trace, ctx.self) < args.value then
      Returned(gas + stipend, memory, [], 0, None, false)
    else CppFinish(gas + stipend, memory, output, message, host.call(trace, message))
  }

  /** The costs of a call that are not for memory. */
  function CppOtherCost(op: Byte, ctx: Context, host: Host, trace: seq<Event>, args: Args): int {
    var (accessCost, t) := CppAccess(ctx, host, trace, args.target);
    var valueCost := if args.value != 0 then 9000 else 0;
    var emptyCost := if op != CALLCODE && args.value != 0 && !host.exists_(t, args.target) then 25000 else 0;
    accessCost + valueCost + emptyCost
  }

  /** CallImpl::Run. */
  function CppCall(op: Byte, ctx: Context, host: Host, args: Args, gas: nat, memory: Bytes,
                   trace: seq<Event>): Outcome {
    if ctx.depth > MAX_CALL_DEPTH then Failed(ErrorCall, false)
    else
      var input := CppExpansion(|memory|, args.inOffset, args.inSize);
      var output := CppExpansion(|memory|, args.outOffset, args.outSize);
      var g1 := gas - Max(input.cost, output.cost);
      if g1 < 0 then Failed(ErrorGas, false)
      else if op == CALL && args.value != 0 && ctx.isStatic then Failed(ErrorStaticCall, false)
      else
        var g2 := g1 - CppOtherCost(op, ctx, host, trace, args);
        if g2 < 0 then Failed(ErrorGas, true)
        else
          var grown := Grown(Grown(memory, output.offset, output.size), input.offset, input.size);
          CppForward(ctx, host, args, Envelope(op, ctx, args), g2, grown, input, output,
                     CppAccess(ctx, host, trace, args.target).1)
  }

  // ------------------------------------------------------- conformance tests

  datatype FutureCall = FutureCall(success: bool, output: Bytes, gasCosts: nat, gasRefund: int, created: Word)

  /** The accounts of a test state; nothing a call does changes them. */
  datatype Accounts = Accounts(empty: set<Address>, delegates: map<Address, Address>, balances: map<Address, Word>,
                               codes: map<Address, Bytes>)

  /** The fields of a test state that calls read or write. */
  datatype CtState = CtState(failed: bool, gas: int, refund: int, stack: seq<Word>, memory: Bytes, returnData: Bytes,
                             warm: set<Address>, past: seq<Message>, future: seq<FutureCall>)

  function DelegateOf(accounts: Accounts, target: Address): Option<Address> {
    if target in accounts.delegates then Some(accounts.delegates[target]) else None
  }

  function CodeOf(accounts: Accounts, a: Address): Bytes {
    if a in accounts.codes then accounts.codes[a] else []
  }

  function BalanceOf(accounts: Accounts, a: Address): Word {
    if a in accounts.balances then accounts.balances[a] else 0
  }

  /**
   * CallJournal.Call: the answer the journal has prepared for a message. The adapter for EVMC reports
   * calls without success as reverted.
   */
  function JournalAnswer(future: seq<FutureCall>, message: Message): (r: CallResult)
    ensures r.gasLeft <= message.gas
  {
    var next := if |future| > 0 then future[0] else FutureCall(false, [], 0, 0, 0);
    CallResult(next.success, !next.success, next.output,
               if message.gas < next.gasCosts then 0 else message.gas - next.gasCosts, next.gasRefund, next.created)
  }

  /** sumWithOverflow on int64: detects a wrapped partial sum. */
  method SumWithOverflow(values: seq<nat>) returns (sum: nat, overflow: bool)
    requires forall v :: v in values ==> v <= MAX_GAS
    ensures overflow <==> Sum(values) > MAX_GAS
    ensures !overflow ==> sum == Sum(values)
  {
    sum, overflow := 0, false;
    for i := 0 to |values|
      invariant sum == Sum(values[..i]) <= MAX_GAS
    {
      SumSplit(values, i);
      assert values[i] in values;
      var next: int := sum + values[i];
      if next > MAX_GAS {
        next := next - TWO_64;   // two's complement wrap-around
      }
      assert values[..i + 1][..i] == values[..i];
      SumSplit(values[..i + 1], i);
      assert Sum(values[..i + 1]) == sum + values[i];
      if next < sum {
        return 0, true;
      }
      sum := next;
    }
    assert values[..|values|] == values;
  }

  function Sum(values: seq<nat>): nat { if values == [] then 0 else values[0] + Sum(values[1..]) }

  lemma {:induction false} SumSplit(values: seq<nat>, i: nat)
    requires i < |values|
    ensures Sum(values) >= Sum(values[..i]) + values[i]
    ensures i + 1 == |values| ==> Sum(values) == Sum(values[..i]) + values[i]
  {
    if i > 0 {
      SumSplit(values[1..], i - 1);
      assert values[1..][..i - 1] == values[..i][1..];
    }
  }

  lemma SumOfTwo(a: nat, b: nat)
    ensures Sum([a, b]) == a + b
  {
    assert [a, b][1..] == [b] && [b][1..] == [];
    assert Sum([b]) == b + Sum([]);
  }

  lemma SumOfFive(a: nat, b: nat, c: nat, d: nat, e: nat)
    ensures Sum([a, b, c, d, e]) == a + b + c + d + e
  {
    assert [a, b, c, d, e][1..] == [b, c, d, e] && [b, c, d, e][1..] == [c, d, e] && [c, d, e][1..] == [d, e];
    assert Sum([a, b, c, d, e]) == a + Sum([b, c, d, e]);
    assert Sum([b, c, d, e]) == b + Sum([c, d, e]);
    assert Sum([c, d, e]) == c + Sum([d, e]);
    SumOfTwo(d, e);
  }

  function SpecMemoryCost(memory: Bytes, a: Args): nat {
    var have := |memory| / 32;
    SequentialGrowth(have, a.inOffset, a.inSize, a.outOffset, a.outSize);
    Max(ExactCost(have, a.inOffset, a.inSize), ExactCost(have, a.outOffset, a.outSize))
  }

  function SpecGrown(memory: Bytes, a: Args): Bytes {
    Grown(Grown(memory, a.inOffset, a.inSize), a.outOffset, a.outSize)
  }

  function SpecOtherCost(ctx: Context, accounts: Accounts, warm: set<Address>, op: Byte, a: Args,
                         accessCost: nat): nat {
    (if a.value != 0 then 9000 else 0)
    + (if a.value != 0 && a.target in accounts.empty && op != CALLCODE then 25000 else 0)
    + accessCost
    + SpecDelegationCost(ctx, accounts, warm, a.target)
  }

  /** The exact cost of a call before any gas is passed on, given the price of the address access. */
  function SpecCost(ctx: Context, accounts: Accounts, s: CtState, op: Byte, accessCost: nat): nat
    requires |s.stack| >= Pops(op)
  {
    var a := ArgsOf(op, s.stack);
    SpecMemoryCost(s.memory, a) + SpecOtherCost(ctx, accounts, s.warm, op, a, accessCost)
  }

  function SpecDelegates(ctx: Context, accounts: Accounts, target: Address): set<Address> {
    var delegate := DelegateOf(accounts, target);
    if ctx.revision >= PRAGUE && delegate.Some? then {delegate.value} else {}
  }

  function SpecDelegationCost(ctx: Context, accounts: Accounts, warm: set<Address>, target: Address): (cost: nat)
    ensures cost <= 2600
  {
    if SpecDelegates(ctx, accounts, target) == {} then 0
    else if SpecDelegates(ctx, accounts, target) <= warm then 100
    else 2600
  }

  function SpecWarm(ctx: Context, accounts: Accounts, warm: set<Address>, target: Address): set<Address> {
    warm + SpecDelegates(ctx, accounts, target) + (if ctx.revision >= BERLIN then {target} else {})
  }

  /** The state once a call is paid for: operands popped, memory grown, addresses warm. */
  function SpecCharged(ctx: Context, accounts: Accounts, s: CtState, op: Byte, accessCost: nat): CtState
    requires |s.stack| >= Pops(op)
  {
    var a := ArgsOf(op, s.stack);
    s.(gas := s.gas - SpecCost(ctx, accounts, s, op, accessCost),
       stack := s.stack[Pops(op)..],
       memory := SpecGrown(s.memory, a),
       warm := SpecWarm(ctx, accounts, s.warm, a.target))
  }

  /** The nested call itself: the journal answers, the caller gets back what was not used. */
  function SpecExecute(s: CtState, message: Message, a: Args): CtState {
    var answer := JournalAnswer(s.future, message);
    s.(gas := s.gas - (message.gas - answer.gasLeft),
       refund := s.refund + answer.refund,
       stack := [if answer.success then 1 else 0] + s.stack,
       memory := Written(s.memory, answer.output[..Min(a.outSize, |answer.output|)], a.outOffset),
       returnData := answer.output,
       past := s.past + [message],
       future := if |s.future| > 0 then s.future[1..] else [])
  }

  /** Passing on all but one 64th of the gas that is left, plus the stipend of a value transfer. */
  function SpecForward(ctx: Context, accounts: Accounts, s: CtState, envelope: Message, a: Args): CtState
    requires s.gas >= 0
  {
    var stipend := if a.value != 0 then STIPEND else 0;
    if a.value != 0 && BalanceOf(accounts, ctx.self) < a.value then
      s.(gas := s.gas + stipend, stack := [0] + s.stack, returnData := [])
    else
      var message := envelope.(gas := Min(a.gas, s.gas - s.gas / 64) + stipend,
                               input := Span(s.memory, a.inOffset, a.inSize));
      SpecExecute(s.(gas := s.gas + stipend), message, a)
  }

  /** The state after an affordable call, over unbounded integers. */
  function SpecCall(ctx: Context, accounts: Accounts, s: CtState, op: Byte, accessCost: nat): CtState
    requires |s.stack| >= Pops(op) && SpecCost(ctx, accounts, s, op, accessCost) <= s.gas
  {
    var a := ArgsOf(op, s.stack);
    SpecForward(ctx, accounts, SpecCharged(ctx, accounts, s, op, accessCost), Journaled(Envelope(op, ctx, a)), a)
  }

  lemma EmptySpan(memory: Bytes, offset: nat, size: nat)
    ensures size == 0 ==> Span(memory, offset, size) == []
  {}

  /** A test state while an effect is applied to it. */
  class TestState {
    const ctx: Context
    const accounts: Accounts
    var failed: bool
    var gas: int
    var refund: int
    var stack: seq<Word>
    var memory: Bytes
    var returnData: Bytes
    var warm: set<Address>
    var past: seq<Message>
    var future: seq<FutureCall>

    ghost function View(): CtState
      reads this
    {
      CtState(failed, gas, refund, stack, memory, returnData, warm, past, future)
    }

    constructor (ctx: Context, accounts: Accounts, s: CtState)
      ensures this.ctx == ctx && this.accounts == accounts && View() == s
    {
      this.ctx, this.accounts := ctx, accounts;
      failed, gas, refund, stack, memory, returnData := s.failed, s.gas, s.refund, s.stack, s.memory, s.returnData;
      warm, past, future := s.warm, s.past, s.future;
    }

    method Pop() returns (w: Word)
      requires stack != []
      modifies `stack
      ensures w == old(stack)[0] && stack == old(stack)[1..]
    {
      w := stack[0];
      stack := stack[1..];
    }

    /** CallJournal.Call. */
    method JournalCall(message: Message) returns (r: CallResult)
      modifies `past, `future
      ensures r == JournalAnswer(old(future), message)
      ensures past == old(past) + [message]
      ensures future == if |old(future)| > 0 then old(future)[1..] else []
    {
      past := past + [message];
      var result := FutureCall(false, [], 0, 0, 0);
      if |future| > 0 {
        result := future[0];
        future := future[1..];
      }
      var gasLeft := message.gas;
      if gasLeft < result.gasCosts {
        gasLeft := 0;
      } else {
        gasLeft := gasLeft - result.gasCosts;
      }
      r := CallResult(result.success, !result.success, result.output, gasLeft, result.gasRefund, result.created);
    }

    method PopArgs(op: Byte) returns (a: Args)
      requires IsCall(op) && |stack| >= Pops(op)
      modifies `stack
      ensures a == ArgsOf(op, old(stack)) && stack == old(stack)[Pops(op)..]
    {
      var gas := Pop();
      var target := Pop();
      var value: Word := 0;
      if op == CALL || op == CALLCODE {
        value := Pop();
      }
      var argsOffset := Pop();
      var argsSize := Pop();
      var retOffset := Pop();
      var retSize := Pop();
      a := Args(gas, ToAddress(target), value, argsOffset, argsSize, retOffset, retSize);
    }

    /** EIP-7702: the access to the delegate of the target, if it has one. */
    method DelegationCost(target: Address) returns (cost: nat)
      modifies `warm
      ensures cost == SpecDelegationCost(ctx, accounts, old(warm), target)
      ensures warm == old(warm) + SpecDelegates(ctx, accounts, target)
    {
      cost := 0;
      if ctx.revision >= PRAGUE {
        var delegate := DelegateOf(accounts, target);
        if delegate.Some? {
          if delegate.value in warm {
            cost := 100;
          } else {
            warm := warm + {delegate.value};
            cost := 2600;
          }
        }
      }
    }

    /** The price of growing memory for the input and the output of a call. */
    method MemoryExpansionCost(a: Args) returns (cost: nat, input: Expansion, output: Expansion)
      requires |memory| % 32 == 0 && 0 <= gas && gas + C(|memory| / 32) < C(GO_CUTOFF)
      ensures cost <= MAX_GAS && (cost <= gas <==> SpecMemoryCost(memory, a) <= gas)
      ensures cost <= gas ==>
        && cost == SpecMemoryCost(memory, a)
        && Grown(Grown(memory, input.offset, input.size), output.offset, output.size) == SpecGrown(memory, a)
    {
      ghost var have := |memory| / 32;
      assert |memory| == 32 * have;
      GoPricesExactly(gas, have, a.inOffset, a.inSize);
      GoPricesExactly(gas, have, a.outOffset, a.outSize);
      input := GoExpansion(|memory|, a.inOffset, a.inSize);
      output := GoExpansion(|memory|, a.outOffset, a.outSize);
      cost := Max(input.cost, output.cost);
    }

    /** The part of callEffect that charges for the call; exact is what the memory is really worth. */
    method ChargeCall(op: Byte, a: Args, accessCost: nat, memoryCost: nat, ghost exact: nat)
      requires !failed && 0 <= gas <= MAX_GAS && accessCost <= 2600 && memoryCost <= MAX_GAS
      requires (memoryCost <= gas <==> exact <= gas) && (memoryCost <= gas ==> memoryCost == exact)
      modifies `failed, `gas, `warm
      ensures failed <==> exact + SpecOtherCost(ctx, accounts, old(warm), op, a, accessCost) > old(gas)
      ensures !failed ==>
        && gas == old(gas) - exact - SpecOtherCost(ctx, accounts, old(warm), op, a, accessCost)
        && warm == SpecWarm(ctx, accounts, old(warm), a.target)
    {
      var positiveValueCost := if a.value != 0 then 9000 else 0;
      var valueToEmptyAccountCost := if a.value != 0 && a.target in accounts.empty && op != CALLCODE then 25000 else 0;
      var delegationCost := DelegationCost(a.target);
      var dynamicGas, overflow := SumWithOverflow([memoryCost, positiveValueCost, valueToEmptyAccountCost, accessCost,
                                                   delegationCost]);
      SumOfFive(memoryCost, positiveValueCost, valueToEmptyAccountCost, accessCost, delegationCost);
      if gas < dynamicGas || overflow {
        failed := true;
        return;
      }
      gas := gas - dynamicGas;
      if ctx.revision >= BERLIN {
        warm := warm + {a.target};
      }
    }

    /** The part of callEffect up to and including the memory growth. */
    method PayCall(op: Byte, accessCost: nat) returns (a: Args)
      requires IsCall(op) && |stack| >= Pops(op) && !failed
      requires |memory| % 32 == 0 && 0 <= gas && gas + C(|memory| / 32) < C(GO_CUTOFF) && accessCost <= 2600
      modifies this
      ensures a == ArgsOf(op, old(stack))
      ensures failed <==> SpecCost(ctx, accounts, old(View()), op, accessCost) > old(gas)
      ensures !failed ==> 0 <= gas < TWO_64 && View() == SpecCharged(ctx, accounts, old(View()), op, accessCost)
    {
      a := PopArgs(op);
      var memoryCost, input, output := MemoryExpansionCost(a);
      assert gas <= MAX_GAS;
      ChargeCall(op, a, accessCost, memoryCost, SpecMemoryCost(memory, a));
      if !failed {
        memory := Grown(memory, input.offset, input.size);
        memory := Grown(memory, output.offset, output.size);
      }
    }

    /**
     * callEffect: fails exactly when the exact cost is not affordable, and otherwise computes the
     * specified state, as long as the memory cut-off is out of reach.
     */
    method CallEffect(op: Byte, accessCost: nat)
      requires IsCall(op) && |stack| >= Pops(op) && !failed
      requires |memory| % 32 == 0 && 0 <= gas && gas + C(|memory| / 32) < C(GO_CUTOFF) && accessCost <= 2600
      modifies this
      ensures failed <==> SpecCost(ctx, accounts, old(View()), op, accessCost) > old(gas)
      ensures !failed ==> View() == SpecCall(ctx, accounts, old(View()), op, accessCost)
    {
      var a := PayCall(op, accessCost);
      if !failed {
        var envelope := NewEnvelope(op, a);
        Forward(envelope, a);
      }
    }

    method NewEnvelope(op: Byte, a: Args) returns (message: Message)
      requires IsCall(op)
      ensures message == Journaled(Envelope(op, ctx, a))
    {
      var sender, recipient, value := ctx.self, a.target, a.value;
      var kind := CallKind;
      if op == DELEGATECALL {
        kind, sender, recipient, value := DelegateCallKind, ctx.caller, ctx.self, ctx.value;
      }
      if op == CALLCODE {
        kind, sender, recipient := CallCodeKind, ctx.self, ctx.self;
      }
      if (ctx.isStatic && op == CALL) || op == STATICCALL {
        kind := StaticCallKind;
      }
      message := Message(kind, false, 0, 0, sender, recipient, a.target, value, 0, []);
    }

    /** The gas provided to the nested call. */
    method Endowment(requested: Word) returns (endowment: nat)
      requires 0 <= gas < TWO_64
      ensures endowment == Min(requested, gas - gas / 64)
    {
      var limit := gas - gas / 64;
      endowment := limit;
      if requested < TWO_64 && requested < endowment {
        endowment := requested;
      }
    }

    /** The part of callEffect that executes the nested call. */
    method Forward(envelope: Message, a: Args)
      requires 0 <= gas < TWO_64
      modifies this
      ensures View() == SpecForward(ctx, accounts, old(View()), envelope, a)
    {
      EmptySpan(memory, a.inOffset, a.inSize);
      hide SpecExecute, BalanceOf, Span;
      var endowment := Endowment(a.gas);
      var stipend := if a.value != 0 then STIPEND else 0;
      gas := gas + stipend;
      var input := if a.inSize == 0 then [] else Span(memory, a.inOffset, a.inSize);
      if a.value != 0 {
        var balance := BalanceOf(accounts, ctx.self);
        if balance < a.value {
          stack := [0] + stack;
          returnData := [];
          return;
        }
      }

      var message := envelope.(gas := endowment + stipend, input := input);
      Execute(message, a);
    }

    method Execute(message: Message, a: Args)
      modifies this
      ensures View() == SpecExecute(old(View()), message, a)
    {
      var res := JournalCall(message);
      WriteOutput(a, res.output);
      gas := gas - (message.gas - res.gasLeft);
      refund := refund + res.refund;
      returnData := res.output;
      if res.success {
        stack := [1] + stack;
      } else {
        stack := [0] + stack;
      }
    }

    method WriteOutput(a: Args, output: Bytes)
      modifies `memory
      ensures memory == Written(old(memory), output[..Min(a.outSize, |output|)], a.outOffset)
    {
      if a.outSize > 0 {
        var data := output;
        if |data| > a.outSize {
          data := data[..a.outSize];
        }
        if |data| > 0 {
          memory := Written(memory, data, a.outOffset);
        }
      }
    }
  }
}
