/** createEffect in go/ct/spc/specification.go: CREATE and CREATE2 in test states. */
module CreateRules {
  import opened Evm
  import opened MemoryCost
  import opened MemoryModel
  import opened MemoryRules
  import opened Calls

  const MAX_INIT_CODE_SIZE: nat := 2 * 24576

  function CreatePops(op: Byte): nat { if op == CREATE2 then 4 else 3 }

  // -------------------------------------------------------------- specification

  /** The price of a create before any gas is passed on: memory, init code words and hashing. */
  function CreatePrice(ctx: Context, s: CtState, op: Byte): nat
    requires IsCreate(op) && |s.stack| >= CreatePops(op)
  {
    PriceFor(ctx, s.memory, op, s.stack[1], s.stack[2])
  }

  function PriceFor(ctx: Context, memory: Bytes, op: Byte, offset: Word, size: Word): nat {
    AccessPrice(memory, Access(offset, size, 0, 0))
    + (if ctx.revision >= SHANGHAI then 2 * Words(size) else 0)
    + (if op == CREATE2 then 6 * Words(size) else 0)
  }

  /** A create that fails: too much init code, or not enough gas. */
  predicate Refused(ctx: Context, s: CtState, op: Byte)
    requires IsCreate(op) && |s.stack| >= CreatePops(op)
  {
    (ctx.revision >= SHANGHAI && s.stack[2] > MAX_INIT_CODE_SIZE) || s.gas < CreatePrice(ctx, s, op)
  }

  /** The message of a create; left is the gas once all is paid. */
  function CreateMessage(ctx: Context, op: Byte, left: nat, value: Word, salt: Word, input: Bytes): Message {
    Message(if op == CREATE2 then Create2Kind else CreateKind, false, 0, left - left / 64, ctx.self, 0, 0, value, salt,
            input)
  }

  /** The nested execution: all but one 64th of the gas is passed on, what is not used comes back. */
  function SpecNested(ctx: Context, accounts: Accounts, s: CtState, op: Byte, value: Word, salt: Word,
                      input: Bytes): CtState
    requires s.gas >= 0
  {
    if value != 0 && BalanceOf(accounts, ctx.self) < value then s.(stack := [0] + s.stack, returnData := [])
    else
      var message := CreateMessage(ctx, op, s.gas, value, salt, input);
      var answer := JournalAnswer(s.future, message);
      s.(gas := s.gas - (message.gas - answer.gasLeft),
         refund := s.refund + answer.refund,
         stack := [if answer.success then answer.created else 0] + s.stack,
         returnData := if answer.success then [] else answer.output,
         past := s.past + [message],
         future := if |s.future| > 0 then s.future[1..] else [])
  }

  /** The state once a create is paid for: operands popped, memory grown. */
  function SpecPaid(s: CtState, op: Byte, price: nat): CtState
    requires IsCreate(op) && |s.stack| >= CreatePops(op) && price <= s.gas
  {
    s.(gas := s.gas - price, stack := s.stack[CreatePops(op)..], memory := Grown(s.memory, s.stack[1], s.stack[2]))
  }

  /** The state after an affordable create. */
  function SpecCreated(ctx: Context, accounts: Accounts, s: CtState, op: Byte, price: nat): CtState
    requires IsCreate(op) && |s.stack| >= CreatePops(op) && price <= s.gas
  {
    var paid := SpecPaid(s, op, price);
    SpecNested(ctx, accounts, paid, op, s.stack[0], if op == CREATE2 then s.stack[3] else 0,
               Span(paid.memory, s.stack[1], s.stack[2]))
  }

  /** A create over unbounded integers; None is a failed execution. */
  function SpecCreate(ctx: Context, accounts: Accounts, s: CtState, op: Byte): Option<CtState>
    requires IsCreate(op) && |s.stack| >= CreatePops(op)
  {
    if Refused(ctx, s, op) then None
    else Some(SpecCreated(ctx, accounts, s, op, CreatePrice(ctx, s, op)))
  }

  // ---------------------------------------------------------------- conformance tests

  /** Adding up the charges on int64; the result is exact or too much in either case. */
  method CreateCharge(ctx: Context, op: Byte, memoryCost: nat, size: nat) returns (dynamicGas: nat, overflow: bool)
    requires memoryCost <= MAX_GAS && size <= MAX_U64
    ensures var words := SizeInWords(size);
      var total := memoryCost + (if ctx.revision >= SHANGHAI then 2 * words else 0)
        + (if op == CREATE2 then 6 * words else 0);
      (overflow <==> total > MAX_GAS) && (!overflow ==> dynamicGas == total)
  {
    dynamicGas, overflow := memoryCost, false;
    if ctx.revision >= SHANGHAI {
      SumOfTwo(dynamicGas, 2 * SizeInWords(size));
      dynamicGas, overflow := SumWithOverflow([dynamicGas, 2 * SizeInWords(size)]);
      if overflow { return; }
    }
    if op == CREATE2 {
      SumOfTwo(dynamicGas, 6 * SizeInWords(size));
      dynamicGas, overflow := SumWithOverflow([dynamicGas, 6 * SizeInWords(size)]);
    }
  }

  /** The limit on init code and the charges; not ok stands for a failed execution. */
  method CreateCost(ctx: Context, op: Byte, gas: nat, memory: Bytes, offset256: Word, size256: Word)
    returns (ok: bool, dynamicGas: nat, e: Expansion)
    requires |memory| % 32 == 0 && gas + C(|memory| / 32) < C(GO_CUTOFF)
    ensures var price := PriceFor(ctx, memory, op, offset256, size256);
      && (ok <==> !(ctx.revision >= SHANGHAI && size256 > MAX_INIT_CODE_SIZE) && price <= gas)
      && (ok ==> dynamicGas == price && e.size == size256 && (e.size != 0 ==> e.offset == offset256))
  {
    hide C, AccessPrice, GoExpansion;
    CutoffPrices();
    OneRange(gas, memory, offset256, size256);
    e, dynamicGas := GoExpansion(|memory|, offset256, size256), 0;
    if ctx.revision >= SHANGHAI && (size256 > MAX_U64 || e.size > MAX_INIT_CODE_SIZE) {
      LargeInitCode(memory, offset256, size256);
      return false, 0, e;
    }
    var overflow;
    dynamicGas, overflow := CreateCharge(ctx, op, e.cost, e.size);
    ok := !overflow && gas >= dynamicGas;
  }

  /** The converted size is only smaller than the size asked for if that is not affordable anyway. */
  lemma LargeInitCode(memory: Bytes, offset: Word, size: Word)
    ensures size <= MAX_U64 ==> GoExpansion(|memory|, offset, size).size <= size
  {}

  /** The operands, the limit on init code, the charges and the growth of memory. */
  method PayCreate(t: Calls.TestState, op: Byte) returns (value: Word, salt: Word, input: Bytes)
    requires IsCreate(op) && |t.stack| >= CreatePops(op) && !t.failed
    requires |t.memory| % 32 == 0 && 0 <= t.gas && t.gas + C(|t.memory| / 32) < C(GO_CUTOFF)
    modifies t
    ensures t.failed <==> Refused(t.ctx, old(t.View()), op)
    ensures var s := old(t.View());
      !t.failed ==>
        && t.View() == SpecPaid(s, op, CreatePrice(t.ctx, s, op)) && t.gas >= 0
        && value == s.stack[0] && salt == (if op == CREATE2 then s.stack[3] else 0)
        && input == Span(t.memory, s.stack[1], s.stack[2])
  {
    ghost var s := t.View();
    hide C, Grown, Span, AccessPrice, Words;
    value := t.Pop();
    var offset256 := t.Pop();
    var size256 := t.Pop();
    salt, input := 0, [];
    if op == CREATE2 {
      salt := t.Pop();
    }
    var ok, dynamicGas, e := CreateCost(t.ctx, op, t.gas, t.memory, offset256, size256);
    if !ok {
      t.failed := true;
      return;
    }
    t.gas := t.gas - dynamicGas;
    SameAccess(t.memory, offset256, e.offset, e.size);
    t.memory := Grown(t.memory, e.offset, e.size);
    input := Span(t.memory, e.offset, e.size);
  }

  /** createEffect fails exactly if specified, and else computes the specified state. */
  method CreateEffect(t: Calls.TestState, op: Byte)
    requires IsCreate(op) && |t.stack| >= CreatePops(op) && !t.failed
    requires |t.memory| % 32 == 0 && 0 <= t.gas && t.gas + C(|t.memory| / 32) < C(GO_CUTOFF)
    modifies t
    ensures t.failed <==> SpecCreate(t.ctx, t.accounts, old(t.View()), op).None?
    ensures !t.failed ==> Some(t.View()) == SpecCreate(t.ctx, t.accounts, old(t.View()), op)
  {
    hide C, Span, SpecNested, SpecPaid, CreatePrice, Refused;
    var value, salt, input := PayCreate(t, op);
    if !t.failed {
      CreateCall(t, op, value, salt, input);
    }
  }

  /** The balance check and the nested execution. */
  method CreateCall(t: Calls.TestState, op: Byte, value: Word, salt: Word, input: Bytes)
    requires IsCreate(op) && 0 <= t.gas && !t.failed
    modifies t
    ensures !t.failed && t.View() == SpecNested(t.ctx, t.accounts, old(t.View()), op, value, salt, input)
  {
    hide JournalAnswer, BalanceOf;
    if value != 0 {
      var balance := BalanceOf(t.accounts, t.ctx.self);
      if balance < value {
        t.stack := [0] + t.stack;
        t.returnData := [];
        return;
      }
    }
    var limit := t.gas - t.gas / 64;
    var kind := if op == CREATE then CreateKind else Create2Kind;
    var res := t.JournalCall(Message(kind, false, 0, limit, t.ctx.self, 0, 0, value, salt, input));
    t.gas := t.gas - (limit - res.gasLeft);
    t.refund := t.refund + res.refund;
    if !res.success {
      t.stack := [0] + t.stack;
      t.returnData := res.output;
      return;
    }
    t.returnData := [];
    t.stack := [res.created] + t.stack;
  }
}
