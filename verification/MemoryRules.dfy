/**
 * The effects of the memory opcodes in go/ct/spc/specification.go: what they pop, what they charge
 * and what they read and write.
 */
module MemoryRules {
  import opened Evm
  import opened Encoding
  import opened MemoryCost
  import opened MemoryModel
  import opened Calls

  datatype Log = Log(data: Bytes, topics: seq<Word>)

  /** What the effects read but do not change. */
  datatype World = World(input: Bytes, code: Bytes, codeOf: Address -> Bytes, returnData: Bytes, hash: Bytes -> Word)

  /** The fields of a test state that the effects change. */
  datatype RuleState = RuleState(gas: int, stack: seq<Word>, memory: Bytes, output: Bytes, logs: seq<Log>)

  function RulePops(op: Byte): nat {
    if op == MLOAD then 1
    else if op == EXTCODECOPY then 4
    else if IsCopy(op) then 3
    else if IsLog(op) then 2 + (op - LOG0)
    else 2
  }

  // -------------------------------------------------------------- specification

  /** What handling size bytes costs besides the memory. */
  function HandlingCost(op: Byte, size: nat): nat {
    if op == SHA3 then 6 * Words(size) else if IsCopy(op) then 3 * Words(size) else if IsLog(op) then 8 * size else 0
  }

  /** A range of memory, and a second one that only MCOPY has. */
  datatype Access = Access(offset: Word, size: Word, from: Word, fromSize: Word)

  /** The ranges an opcode accesses, by the positions of its operands on the stack. */
  function AccessOf(op: Byte, stack: seq<Word>): Access
    requires IsMemoryOp(op) && |stack| >= RulePops(op)
  {
    if op == MLOAD || op == MSTORE then Access(stack[0], 32, 0, 0)
    else if op == MSTORE8 then Access(stack[0], 1, 0, 0)
    else if op == MCOPY then Access(stack[0], stack[2], stack[1], stack[2])
    else if op == EXTCODECOPY then Access(stack[1], stack[3], 0, 0)
    else if IsCopy(op) then Access(stack[0], stack[2], 0, 0)
    else Access(stack[0], stack[1], 0, 0)
  }

  function AccessPrice(memory: Bytes, a: Access): nat {
    SpecMemoryCost(memory, Args(0, 0, 0, a.offset, a.size, a.from, a.fromSize))
  }

  function AccessGrown(memory: Bytes, a: Access): Bytes {
    Grown(Grown(memory, a.offset, a.size), a.from, a.fromSize)
  }

  /** The bytes written to the accessed range, if any. */
  function Incoming(w: World, op: Byte, stack: seq<Word>, grown: Bytes): Bytes
    requires IsMemoryOp(op) && |stack| >= RulePops(op)
  {
    if op == MSTORE then Digits(stack[1], 32)
    else if op == MSTORE8 then [stack[1] % 256]
    else if op == MCOPY then Span(grown, stack[1], stack[2])
    else if op == CALLDATACOPY then Padded(w.input, stack[1], stack[2])
    else if op == CODECOPY then Padded(w.code, stack[1], stack[2])
    else if op == RETURNDATACOPY then Padded(w.returnData, stack[1], stack[2])
    else if op == EXTCODECOPY then Padded(w.codeOf(ToAddress(stack[0])), stack[2], stack[3])
    else []
  }

  /** The word an opcode pushes, if any, given the bytes it has accessed. */
  function Result(w: World, op: Byte, data: Bytes): seq<Word> {
    if op == SHA3 then [w.hash(data)] else if op == MLOAD then [BigEndian(data) % TWO_256] else []
  }

  /** The state after an access, given the bytes accessed and the memory afterwards. */
  function SpecAfter(w: World, s: RuleState, op: Byte, price: nat, data: Bytes, memory: Bytes): RuleState
    requires IsMemoryOp(op) && |s.stack| >= RulePops(op)
  {
    RuleState(
      s.gas - price,
      Result(w, op, data) + s.stack[RulePops(op)..],
      memory,
      if op == RETURN || op == REVERT then data else s.output,
      if IsLog(op) then s.logs + [Log(data, s.stack[2..RulePops(op)])] else s.logs)
  }

  /** The state once the price is paid. */
  function SpecEffect(w: World, s: RuleState, op: Byte, price: nat): RuleState
    requires IsMemoryOp(op) && |s.stack| >= RulePops(op)
  {
    var a := AccessOf(op, s.stack);
    var grown := AccessGrown(s.memory, a);
    SpecAfter(w, s, op, price, Span(grown, a.offset, a.size), Written(grown, Incoming(w, op, s.stack, grown), a.offset))
  }

  function SpecPrice(s: RuleState, op: Byte): nat
    requires IsMemoryOp(op) && |s.stack| >= RulePops(op)
  {
    var a := AccessOf(op, s.stack);
    AccessPrice(s.memory, a) + HandlingCost(op, a.size)
  }

  /** A memory opcode over unbounded integers; None is a failed execution. */
  function SpecMemoryOp(w: World, s: RuleState, op: Byte): Option<RuleState>
    requires IsMemoryOp(op) && |s.stack| >= RulePops(op)
  {
    if s.gas < SpecPrice(s, op) then None
    else if op == RETURNDATACOPY && s.stack[1] + s.stack[2] > |w.returnData| then None
    else Some(SpecEffect(w, s, op, SpecPrice(s, op)))
  }

  // ---------------------------------------------------------------- conformance tests

  /** SizeInWords on uint64. */
  function SizeInWords(size: nat): nat { if size > MAX_U64 - 31 then MAX_U64 / 32 + 1 else (size + 31) / 32 }

  /** Exactness of the price of one range: what is affordable is exact, and its size is small. */
  lemma OneRange(gas: nat, memory: Bytes, offset: Word, size: Word)
    requires |memory| % 32 == 0 && gas + C(|memory| / 32) < C(GO_CUTOFF)
    ensures var e := GoExpansion(|memory|, offset, size);
      var price := AccessPrice(memory, Access(offset, size, 0, 0));
      && 0 <= e.cost <= MAX_GAS && (e.cost <= gas <==> price <= gas)
      && (e.cost <= gas ==> e.cost == price && e.size == size <= MAX_U64 - 31 && (size != 0 ==> e.offset == offset))
      && e.size <= MAX_U64
  {
    hide C, GoPrice;
    var have := |memory| / 32;
    assert |memory| == 32 * have;
    GoPricesExactly(gas, have, offset, size);
    SequentialGrowth(have, offset, size, 0, 0);
    assert ExactCost(have, 0, 0) == 0;
    if GoExpansion(|memory|, offset, size).cost <= gas { AffordableIsSmall(gas, have, offset, size); }
  }

  lemma AffordableIsSmall(gas: nat, have: nat, offset: nat, size: nat)
    requires gas + C(have) < C(GO_CUTOFF) && ExactCost(have, offset, size) <= gas
    ensures size != 0 ==> Words(offset + size) < GO_CUTOFF
    ensures size <= MAX_U64 - 31
  {
    hide C;
    if size != 0 && Words(offset + size) >= GO_CUTOFF { Unaffordable(gas, have, offset, size, GO_CUTOFF); }
  }

  /** A test state while the effect of a memory opcode is applied to it. */
  class TestState {
    const world: World
    var failed: bool
    var gas: int
    var stack: seq<Word>
    var memory: Bytes
    var output: Bytes
    var logs: seq<Log>

    ghost function View(): RuleState
      reads this
    {
      RuleState(gas, stack, memory, output, logs)
    }

    ghost predicate Ready(op: Byte)
      reads this
    {
      && IsMemoryOp(op) && |stack| >= RulePops(op) && !failed && |world.returnData| <= MAX_U64
      && |memory| % 32 == 0 && 0 <= gas && gas + C(|memory| / 32) < C(GO_CUTOFF)
    }

    /** The effect has failed, or done, what is specified for the opcode in the given state. */
    ghost predicate Follows(s: RuleState, op: Byte)
      requires IsMemoryOp(op) && |s.stack| >= RulePops(op)
      reads this
    {
      var r := SpecMemoryOp(world, s, op);
      (failed <==> r.None?) && (r.Some? ==> View() == r.value)
    }

    constructor (world: World, s: RuleState)
      ensures this.world == world && View() == s && !failed
    {
      this.world, failed := world, false;
      gas, stack, memory, output, logs := s.gas, s.stack, s.memory, s.output, s.logs;
    }

    method Pop() returns (w: Word)
      requires stack != []
      modifies `stack
      ensures w == old(stack)[0] && stack == old(stack)[1..]
    {
      w := stack[0];
      stack := stack[1..];
    }

    /** Memory.Read, for a range that has been paid for. */
    method Read(offset: nat, size: nat) returns (data: Bytes)
      modifies `memory
      ensures memory == Grown(old(memory), offset, size) && data == Span(memory, offset, size)
    {
      if size == 0 {
        return [];
      }
      memory := Grown(memory, offset, size);
      data := memory[offset..offset + size];
    }

    /** Memory.Write. */
    method Write(data: Bytes, offset: nat)
      modifies `memory
      ensures memory == Written(Grown(old(memory), offset, |data|), data, offset)
    {
      if |data| == 0 {
        return;
      }
      memory := Grown(memory, offset, |data|);
      memory := Written(memory, data, offset);
    }

    /** The expansion costs are charged on their own. */
    method ChargeExpansion(offset256: Word, size256: Word) returns (offset: nat, size: nat)
      requires !failed && |memory| % 32 == 0 && 0 <= gas && gas + C(|memory| / 32) < C(GO_CUTOFF)
      modifies `failed, `gas
      ensures var price := AccessPrice(memory, Access(offset256, size256, 0, 0));
        (failed <==> old(gas) < price) && (!failed ==> gas == old(gas) - price)
      ensures !failed ==> size == size256 <= MAX_U64 - 31 && (size != 0 ==> offset == offset256)
    {
      OneRange(gas, memory, offset256, size256);
      var e := GoExpansion(|memory|, offset256, size256);
      if gas < e.cost {
        failed := true;
        return 0, 0;
      }
      gas := gas - e.cost;
      return e.offset, e.size;
    }

    /** The expansion costs are added to those for copying, with a check for overflow. */
    method ChargeCopy(offset256: Word, size256: Word) returns (offset: nat, size: nat)
      requires !failed && |memory| % 32 == 0 && 0 <= gas && gas + C(|memory| / 32) < C(GO_CUTOFF)
      modifies `failed, `gas
      ensures var price := AccessPrice(memory, Access(offset256, size256, 0, 0)) + 3 * Words(size256);
        (failed <==> old(gas) < price) && (!failed ==> gas == old(gas) - price)
      ensures !failed ==> size == size256 && (size != 0 ==> offset == offset256)
    {
      OneRange(gas, memory, offset256, size256);
      var e := GoExpansion(|memory|, offset256, size256);
      var cost, overflow := SumWithOverflow([e.cost, 3 * SizeInWords(e.size)]);
      SumOfTwo(e.cost, 3 * SizeInWords(e.size));
      if gas < cost || overflow {
        failed := true;
        return 0, 0;
      }
      gas := gas - cost;
      return e.offset, e.size;
    }

    method Sha3()
      requires Ready(SHA3)
      modifies this
      ensures Follows(old(View()), SHA3)
    {
      ghost var s := View();
      hide C, Grown, Written, Span, AccessPrice;
      var offset256 := Pop();
      var size256 := Pop();
      var offset, size := ChargeExpansion(offset256, size256);
      if failed { return; }
      var wordCost := 6 * SizeInWords(size);
      if gas < wordCost {
        failed := true;
        return;
      }
      gas := gas - wordCost;
      SameAccess(s.memory, offset256, offset, size);
      var data := Read(offset, size);
      stack := [world.hash(data)] + stack;
    }

    method Mload()
      requires Ready(MLOAD)
      modifies this
      ensures Follows(old(View()), MLOAD)
    {
      ghost var s := View();
      hide C, Grown, Written, Span, AccessPrice;
      var offset256 := Pop();
      var offset, size := ChargeExpansion(offset256, 32);
      if failed { return; }
      SameAccess(s.memory, offset256, offset, size);
      var data := Read(offset, 32);
      assert |data| <= 32 by { SpanSize(memory, offset, 32); }
      BigEndianFits(data);
      stack := [BigEndian(data)] + stack;
    }

    /** MSTORE writes the word, MSTORE8 its last byte. */
    method Store(op: Byte)
      requires (op == MSTORE || op == MSTORE8) && Ready(op)
      modifies this
      ensures Follows(old(View()), op)
    {
      ghost var s := View();
      hide C, Grown, Written, Span, AccessPrice;
      var offset256 := Pop();
      var value := Pop();
      var offset, size := ChargeExpansion(offset256, if op == MSTORE then 32 else 1);
      if failed { return; }
      SameAccess(s.memory, offset256, offset, size);
      LastDigit(value);
      Write(if op == MSTORE then Digits(value, 32) else [Digits(value, 32)[31]], offset);
    }

    /** RETURN and REVERT. */
    method End(op: Byte)
      requires (op == RETURN || op == REVERT) && Ready(op)
      modifies this
      ensures Follows(old(View()), op)
    {
      ghost var s := View();
      hide C, Grown, Written, Span, AccessPrice;
      var offset256 := Pop();
      var size256 := Pop();
      var offset, size := ChargeExpansion(offset256, size256);
      if failed { return; }
      SameAccess(s.memory, offset256, offset, size);
      output := Read(offset, size);
    }

    method PopTopics(n: nat) returns (topics: seq<Word>)
      requires |stack| >= n
      modifies `stack
      ensures topics == old(stack)[..n] && stack == old(stack)[n..]
    {
      topics := [];
      for i := 0 to n
        invariant stack == old(stack)[i..] && topics == old(stack)[..i]
      {
        var topic := Pop();
        topics := topics + [topic];
      }
    }

    method LogOp(n: nat)
      requires n <= 4 && Ready(LOG0 + n)
      modifies this
      ensures Follows(old(View()), LOG0 + n)
    {
      ghost var s := View();
      hide C, Grown, Written, Span, AccessPrice;
      var offset256 := Pop();
      var size256 := Pop();
      var topics := PopTopics(n);
      assert topics == s.stack[2..2 + n] && stack == s.stack[2 + n..];
      var offset, size := ChargeExpansion(offset256, size256);
      if failed { return; }
      if gas < 8 * size {
        failed := true;
        return;
      }
      gas := gas - 8 * size;
      SameAccess(s.memory, offset256, offset, size);
      var data := Read(offset, size);
      logs := logs + [Log(data, topics)];
    }

    /** The operands of a copy; EXTCODECOPY has the address of an account in front of them. */
    method PopCopy(op: Byte) returns (source: Bytes, dest: Word, offset: Word, size: Word)
      requires (op == CALLDATACOPY || op == CODECOPY || op == EXTCODECOPY) && |stack| >= RulePops(op)
      modifies `stack
      ensures stack == old(stack)[RulePops(op)..]
      ensures source == SourceOf(world, op, old(stack))
      ensures dest == old(stack)[CopyAt(op)] && offset == old(stack)[CopyAt(op) + 1]
      ensures size == old(stack)[CopyAt(op) + 2]
    {
      source := if op == CALLDATACOPY then world.input else world.code;
      if op == EXTCODECOPY {
        var address := Pop();
        source := world.codeOf(ToAddress(address));
      }
      dest := Pop();
      offset := Pop();
      size := Pop();
    }

    /** CALLDATACOPY, CODECOPY and EXTCODECOPY: a slice of the source, padded on the right. */
    method Copy(op: Byte)
      requires (op == CALLDATACOPY || op == CODECOPY || op == EXTCODECOPY) && Ready(op)
      modifies this
      ensures Follows(old(View()), op)
    {
      ghost var s := View();
      hide C, Grown, Written, Span, AccessPrice, Padded, ToAddress, SpecPrice, SpecEffect, Words;
      var source, dest256, offset256, size256 := PopCopy(op);
      CopySpec(world, s, op, source, dest256, offset256, size256);
      var dest, size := ChargeCopy(dest256, size256);
      if failed { return; }
      SameAccess(s.memory, dest256, dest, size);
      SameWrite(s.memory, Padded(source, offset256, size), dest256, dest);
      WritePadded(source, offset256, size, dest);
    }

    /** A slice of the source, padded on the right, is written to memory. */
    method WritePadded(source: Bytes, offset256: Word, size: nat, dest: nat)
      modifies `memory
      ensures memory == Written(Grown(old(memory), dest, size), Padded(source, offset256, size), dest)
    {
      var start := if offset256 > |source| then |source| else offset256;
      var end := Min(start + size, |source|);
      var slice := source[start..end];
      SliceIsPadded(source, offset256, size, start, end);
      hide Grown, Written, Padded;
      Write(slice + Zeros(size - |slice|), dest);
    }

    method Mcopy()
      requires Ready(MCOPY)
      modifies this
      ensures Follows(old(View()), MCOPY)
    {
      ghost var s := View();
      hide C, Grown, Written, Span, AccessPrice, GoExpansion;
      var dest256 := Pop();
      var src256 := Pop();
      var size256 := Pop();
      TwoRanges(gas, memory, dest256, src256, size256);
      CutoffPrices();
      var src := GoExpansion(|memory|, src256, size256);
      var dest := GoExpansion(|memory|, dest256, size256);
      var wordCount := 3 * SizeInWords(src.size);
      var dynamicGas, overflow := SumWithOverflow([Max(src.cost, dest.cost), wordCount]);
      SumOfTwo(Max(src.cost, dest.cost), wordCount);
      if gas < dynamicGas || overflow {
        failed := true;
        return;
      }
      gas := gas - dynamicGas;
      CopySpan(s.memory, dest256, src256, size256);
      SameAccess(s.memory, src256, src.offset, src.size);
      var value := Read(src.offset, src.size);
      SameAccess(memory, dest256, dest.offset, dest.size);
      SameWrite(memory, value, dest256, dest.offset);
      Write(value, dest.offset);
    }

    /** Whether a range lies in the last return data, on uint64. */
    method InReturnData(offset256: Word, size256: Word) returns (b: bool)
      requires |world.returnData| <= MAX_U64
      ensures b <==> offset256 + size256 <= |world.returnData|
    {
      var readUntil := offset256 % TWO_64 + size256 % TWO_64;
      var overflow := readUntil > MAX_U64;
      b := !(offset256 >= TWO_64 || size256 >= TWO_64 || overflow || readUntil > |world.returnData|);
    }

    method ReturnDataCopy()
      requires Ready(RETURNDATACOPY)
      modifies this
      ensures Follows(old(View()), RETURNDATACOPY)
    {
      ghost var s := View();
      hide C, Grown, Written, Span, AccessPrice, Padded, SpecPrice, SpecEffect, Words;
      var dest256 := Pop();
      var offset256 := Pop();
      var size256 := Pop();
      CopySpec(world, s, RETURNDATACOPY, world.returnData, dest256, offset256, size256);
      var inBounds := InReturnData(offset256, size256);
      if !inBounds {
        failed := true;
        return;
      }
      var readUntil := offset256 + size256;
      var dest, size := ChargeCopy(dest256, size256);
      if failed { return; }
      SliceIsPadded(world.returnData, offset256, size, offset256, readUntil);
      SameAccess(s.memory, dest256, dest, size);
      SameWrite(s.memory, Padded(world.returnData, offset256, size), dest256, dest);
      Write(world.returnData[offset256..readUntil], dest);
    }
  }

  // ------------------------------------------------------------------ small facts

  /** What is specified for a copy, given its source and its operands. */
  lemma CopySpec(w: World, s: RuleState, op: Byte, source: Bytes, dest: Word, offset: Word, size: Word)
    requires IsCopy(op) && op != MCOPY && |s.stack| >= RulePops(op)
    requires dest == s.stack[CopyAt(op)] && offset == s.stack[CopyAt(op) + 1] && size == s.stack[CopyAt(op) + 2]
    requires source == SourceOf(w, op, s.stack)
    ensures SpecPrice(s, op) == AccessPrice(s.memory, Access(dest, size, 0, 0)) + 3 * Words(size)
    ensures var price := SpecPrice(s, op);
      var memory := Written(Grown(s.memory, dest, size), Padded(source, offset, size), dest);
      SpecEffect(w, s, op, price) == s.(gas := s.gas - price, stack := s.stack[RulePops(op)..], memory := memory)
  {
    hide Grown, Written, Span, AccessPrice, Padded, Words;
    SameAccess(s.memory, dest, dest, size);
  }

  /** The first of the three operands that all copies have. */
  function CopyAt(op: Byte): nat { if op == EXTCODECOPY then 1 else 0 }

  function SourceOf(w: World, op: Byte, stack: seq<Word>): Bytes
    requires |stack| >= 1
  {
    if op == CALLDATACOPY then w.input
    else if op == CODECOPY then w.code
    else if op == RETURNDATACOPY then w.returnData
    else w.codeOf(ToAddress(stack[0]))
  }

  /** Reading before or after the growth for the target makes no difference. */
  lemma CopySpan(memory: Bytes, dest: nat, src: nat, size: nat)
    requires |memory| % 32 == 0
    ensures var once, twice := Grown(memory, src, size), Grown(Grown(memory, dest, size), src, size);
      && twice == Grown(once, dest, size)
      && Span(once, src, size) == Span(twice, src, size) && |Span(twice, src, size)| == size
  {
    GrownCommutes(memory, dest, size, src, size);
    GrownFits(memory, src, size);
    var once := Grown(memory, src, size);
    GrownFits(once, dest, size);
    var twice := Grown(once, dest, size);
    hide Grown;
    if size != 0 {
      assert twice[..|once|] == once;
      assert twice[src..src + size] == twice[..|once|][src..src + size];
    } else {
      assert Span(once, src, 0) == [] == Span(twice, src, 0);
    }
  }

  lemma TwoRanges(gas: nat, memory: Bytes, o1: Word, o2: Word, size: Word)
    requires |memory| % 32 == 0 && gas + C(|memory| / 32) < C(GO_CUTOFF)
    ensures var e1, e2 := GoExpansion(|memory|, o1, size), GoExpansion(|memory|, o2, size);
      var cost, price := Max(e1.cost, e2.cost), AccessPrice(memory, Access(o1, size, o2, size));
      && 0 <= cost <= MAX_GAS && (cost <= gas <==> price <= gas) && e1.size <= MAX_U64 && e2.size <= MAX_U64
      && (cost <= gas ==> cost == price && e1.size == e2.size == size <= MAX_U64 - 31)
      && (cost <= gas && size != 0 ==> e1.offset == o1 && e2.offset == o2)
  {
    OneRange(gas, memory, o1, size);
    OneRange(gas, memory, o2, size);
    hide C, GoExpansion;
    var have := |memory| / 32;
    assert ExactCost(have, 0, 0) == 0;
    SequentialGrowth(have, o1, size, o2, size);
    SequentialGrowth(have, o2, size, o1, size);
  }

  /** The converted offset only differs for empty ranges, for which it does not matter. */
  lemma SameAccess(memory: Bytes, offset256: Word, offset: nat, size: nat)
    requires size != 0 ==> offset == offset256
    ensures Grown(memory, offset, size) == Grown(memory, offset256, size)
    ensures forall m :: Grown(m, 0, 0) == m
    ensures forall m :: Span(m, offset, size) == Span(m, offset256, size)
    ensures forall m :: Written(m, [], offset256) == m
  {
    forall m ensures Written(m, [], offset256) == m { WrittenNothing(m, offset256, offset256); }
  }

  lemma SameWrite(memory: Bytes, data: Bytes, offset256: Word, offset: nat)
    requires |data| != 0 ==> offset == offset256
    ensures forall m :: Written(m, data, offset) == Written(m, data, offset256)
  {
    if |data| == 0 {
      forall m ensures Written(m, data, offset) == Written(m, data, offset256) { WrittenNothing(m, offset, offset256); }
    }
  }

  lemma SpanSize(memory: Bytes, offset: nat, size: nat)
    ensures |Span(memory, offset, size)| <= size
  {}

  lemma LastDigit(w: nat)
    ensures Digits(w, 32)[31] == w % 256
  {}

  lemma SliceIsPadded(source: Bytes, offset: nat, size: nat, start: nat, end: nat)
    requires start == Min(offset, |source|) && end == Min(start + size, |source|)
    ensures source[start..end] + Zeros(size - (end - start)) == Padded(source, offset, size)
    ensures end == start + size ==> source[start..end] == Padded(source, offset, size)
  {}
}
