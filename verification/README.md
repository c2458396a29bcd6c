# Tosca: a verified model of its interpreters and its conformance specification

Tosca runs smart contracts on several EVM interpreters (evmzero in C++, evmrs in Rust and others) and
checks them against a conformance-test (CT) specification: a set of rules, generators that produce
states satisfying a rule, and a parallel driver that feeds these states to an interpreter. This project
models the parts of that system in which a mistake is hard to see by reading one function, and proves
what they promise for all inputs, all runs and all schedules.

Check everything with `dafny verify dfyconfig.toml`.

| file | models |
|---|---|
| `Evm.dfy`, `Encoding.dfy` | integer widths, opcodes, revisions, words as bytes |
| `CodeScan.dfy` | the linear code scan, in evmzero and in the CT code representation |
| `MemoryCost.dfy`, `Memory.dfy` | memory pricing in both implementations, memory contents |
| `Calls.dfy`, `CallAgreement.dfy`, `RustCalls.dfy` | the call family in evmzero, in the CT rules and in Rust |
| `Interpreter.dfy`, `InterpreterRuns.dfy` | one dispatch of evmzero, and whole runs in its two modes |
| `MemoryRules.dfy`, `CreateRules.dfy` | the CT effects of the memory opcodes and of CREATE and CREATE2 |
| `RuleAgreement.dfy` | evmzero against the CT rules, dispatch by dispatch |
| `Sstore.dfy` | SSTORE net gas metering, four times |
| `LruCache.dfy`, `Sha3Cache.dfy` | the intrusive LRU list on the heap, and concurrent hashing through it |
| `IntervalSolver.dfy` | the interval-set solver over wrap-around integers |
| `CodeBuilder.dfy`, `CodeSolver.dfy`, `CodeGenerator.dfy` | the code generator and its constraint solver |
| `RuleEngine.dfy` | conditions, `rulesFor`, and the rule lookup by opcode |
| `ParameterEnumeration.dfy` | the backtracking enumeration of stack parameters |
| `ForEachState.dfy` | the goroutine and channel pipeline of the test driver |

Code that updates state step by step is a class or a method with loops proved against a specification
function; arithmetic and case analyses are functions. A random choice is an arbitrary choice (`:|`, or a
function that respects its bound), so every statement holds for all outcomes. The host of an
interpreter is an arbitrary deterministic function of the requests made so far. Its only obligation is
that a nested call returns at most the gas it was given (`Honest`). Opcodes that touch neither pc,
memory nor nested executions are an arbitrary effect that costs something whenever execution goes on
(`PositiveCosts`), as they do in the opcode table. Goroutines and threads are state machines over
atomic steps.

## What turned out not to hold as written

Where the code departs from what one would claim about it, the code is modelled as it is, and the
condition under which the claim holds is proved.

- n steps and then m steps are not always n + m steps: a failing stepping run puts the stack pointer back to
  where *this call* started, and an instruction that loses the program counter leaves the pc there
  (cpp/vm/evmzero/interpreter.cc:2117-2150). What an outside observer sees is the same always; the whole context is
  the same if and only if the condition in `StepsCompose` holds, which speaks of what the first call returned and
  of the checks that make an instruction lose the program counter (`PcIsLost`). Running out of gas inside a
  handler is one of them, except for SHA3, CODECOPY and an overflow in MCOPY, which report the error themselves.
  `StepsDoNotComposeOnFailure` and `StepsDoNotComposeOnOutOfGas` are instances.
- evmzero makes the target of a call warm before it prices the delegate, `callEffect` afterwards. They
  charge the same if and only if the call is not the first access to a target that delegates to itself
  (`AccessCostsAgree`).
- evmzero refunds 4900 instead of 2800 for restoring a cold slot to its nonzero original value. The
  difference occurs exactly there (`PricesAgree`), and no run gets there (`ReachablePricesAgree`).
- The overflow cut-offs of C++ and Go memory pricing differ: the two agree on all accesses if and only if gas
  plus the price of the memory is below the price of 3037000500 words (`AgreementCondition`).
- evmzero can sell memory below its price: from 3037000500 words on the next word is free (`NextWordIsFree`), and
  with enough gas the sentinel itself is affordable and too cheap (`SentinelIsTooCheap`). Every affordable access is
  charged exactly if and only if memory is below that size and gas plus its price is below kMaxGas
  (`ChargedExactly`); runs that start there stay there (`RunPaysForMemory`).
- Refunds can exceed charges: from London on, exactly if some slot starts warm and nonzero (`RefundCoveredByCharges`
  for one slot, `TransactionRefundCovered` for many).
- `ForEachState` with zero jobs blocks forever, if and only if there is a rule (`NoJobsDeadlock`, and `Progress` for no rules).
- The size `Generate` picks as "large enough for all const constraints" can be one byte short, because
  go/ct/gen/code.go:105 compares the position with the size. `FixedSizeBounds` shows that it is never more
  than one byte, `FixedSizeCovers` when exactly it suffices, and `FixedSizeTooSmall` is an instance in which generation can fail.
- A variable that is bound before code generation may be moved by an isCode or isData constraint
  (go/ct/gen/code.go:426-465 and 467-516). Variables at the position of an operation are never moved (`Generate`). An
  isCode constraint is sure to leave a variable where it is if and only if that is an instruction, or the only
  position that is not data (`IsCodeKeeps`; `IsCodeMoves` is an instance). The positions an isData constraint can choose
  are exactly data and free space behind free space (`SolveOneIsData`).
- The last entry of a cleared LRU cache has a successor one past the end of the array, since the test in
  cpp/common/lru_cache.h:87 is always true. `Touch` asks for that link to be null before it moves the
  last entry, and all callers can show it.

## Model

| member | source | states |
|---|---|---|
| `CodeScan.CalculateValidJumpTargets` | cpp/vm/evmzero/opcodes.cc:15-28 | flags exactly the JUMPDEST bytes the scan visits as instructions |
| `CodeScan.NewCode` | go/ct/st/code.go:47-63 | flags exactly the instruction starts; truncated push data extends the flags by less than 33 |
| `CodeScan.GetOperation` | go/ct/st/code.go:97-105 | an operation is reported exactly for code positions, and except for STOP it is the byte there |
| `CodeScan.InstructionFootprint` | go/ct/st/code.go:47-63 | the scan goes from each instruction to the one after its data and visits nothing in between |
| `CodeScan.StartBound` | cpp/vm/evmzero/interpreter.cc:1948-1954 | no instruction start lies behind the 33 padding bytes |
| `CodeScan.ReachesDependsOnPrefix` | cpp/vm/evmzero/opcodes.cc:15-28 | whether a position is a start depends only on the bytes before it |
| `CodeScan.PadCode` | cpp/vm/evmzero/interpreter.cc:1948-1954 | the code followed by 33 STOP bytes |
| `CodeScan.JumpTargetsMatchSpecification` | cpp/vm/evmzero/opcodes.cc:15-28 | jump targets of evmzero are exactly where the CT code representation reports JUMPDEST |
| `Encoding.BigEndianOfDigits` | cpp/vm/evmzero/interpreter.cc:1109-1132 | reading a word that was written as bytes gives it back |
| `Encoding.DigitsOfBigEndian` | cpp/vm/evmzero/interpreter.cc:1379-1417 | writing a word that was read from bytes gives the bytes back |
| `MemoryCost.SequentialGrowth` | rust/src/interpreter.rs:1416-1423 | buying two growths one after the other costs the maximum of buying either |
| `MemoryCost.CppPriceIsC` | cpp/vm/evmzero/interpreter.cc:1929-1939 | the price is w*w/512 + 3w below 3037000500 words and the sentinel from there on |
| `MemoryCost.CppCostNonNegative` | cpp/vm/evmzero/interpreter.cc:1907-1946 | no expansion has a negative price, whatever the sentinels involved |
| `MemoryCost.CppNeverUndercharges` | cpp/vm/evmzero/interpreter.cc:1907-1946 | below the cut-off and kMaxGas, an affordable expansion is charged exactly and denotes the requested range |
| `MemoryCost.NextWordIsFree` | cpp/vm/evmzero/interpreter.cc:1929-1945 | from the cut-off on, the next word costs 0 |
| `MemoryCost.SentinelIsTooCheap` | cpp/vm/evmzero/interpreter.cc:1929-1945 | below the cut-off, the largest memory is priced at the sentinel, less than it is worth |
| `MemoryCost.ChargedExactly` | cpp/vm/evmzero/interpreter.cc:1907-1946 | all affordable expansions are charged exactly, and none too little, if and only if memory is below the cut-off and gas plus its price below kMaxGas |
| `MemoryCost.CppPricesExactly` | cpp/vm/evmzero/interpreter.cc:1907-1946 | below the cut-off, affordable if and only if the exact price is, and then charged exactly |
| `MemoryCost.GoPricesExactly` | go/ct/st/memory.go:95-144 | the same for ExpansionCosts and its own cut-off |
| `MemoryCost.ExpansionsAgree` | go/ct/st/memory.go:95-144 | C++ and Go agree on affordability, price and range for every offset and size |
| `MemoryCost.AgreementCondition` | go/ct/st/memory.go:95-144 | C++ and Go agree on every access if and only if gas plus memory price is below the price at the C++ cut-off |
| `MemoryCost.CtGasIsInRange` | go/ct/st/state.go:25-50 | the gas limit of generated states is within the bound of that agreement |
| `MemoryModel.GrownFits` | cpp/vm/evmzero/memory.h:81-88 | growth keeps contents and alignment, adds zeros, covers the range |
| `MemoryModel.GrownCommutes` | cpp/vm/evmzero/memory.h:81-88 | growing for two ranges does not depend on their order |
| `MemoryModel.Memory.Grow` | cpp/vm/evmzero/memory.h:81-88 | memory becomes the grown memory, size zero excepted |
| `MemoryModel.Memory.ReadFromWithSize` | cpp/vm/evmzero/memory.h:55-62 | the buffer, zero-padded, is written to the grown memory and nothing else changes |
| `MemoryModel.Memory.MemCopy` | cpp/vm/evmzero/memory.h:72-77 | overlapping or not, the target range gets the old source range |
| `Calls.SumWithOverflow` | go/ct/spc/specification.go:2733-2743 | overflow is reported exactly when the true sum exceeds int64, otherwise the sum is exact |
| `Calls.JournalAnswer` | go/ct/st/call_journal.go:34-66 | the journal never returns more gas than it was given |
| `Calls.TestState.JournalCall` | go/ct/st/call_journal.go:34-66 | the answer is the head of the future, which is consumed, and the call is recorded |
| `Calls.TestState.DelegationCost` | go/ct/spc/specification.go:2618-2630 | the price of accessing the delegate, which becomes warm |
| `Calls.TestState.MemoryExpansionCost` | go/ct/spc/specification.go:2596-2599 | affordable exactly if the exact price is, and then equal to it |
| `Calls.TestState.ChargeCall` | go/ct/spc/specification.go:2603-2648 | fails exactly if the exact total is not affordable, else charges it and warms the addresses |
| `Calls.TestState.CallEffect` | go/ct/spc/specification.go:2580-2731 | fails exactly if the exact cost exceeds the gas, else reaches the specified state over unbounded integers, whose dependence on the stack is `RuleUsesOperands` |
| `Calls.TestState.Forward` | go/ct/spc/specification.go:2654-2731 | child gas, stipend, balance check, message and result as specified |
| `CallAgreement.AccessCostsAgree` | cpp/vm/evmzero/interpreter.cc:1729-1755 | same warm addresses always; same access and delegation charges if and only if not a cold self-delegation |
| `CallAgreement.MemoryAgrees` | cpp/vm/evmzero/interpreter.cc:1716-1721 | the larger of two expansions is the exact price of growing for both |
| `CallAgreement.CallsAgree` | cpp/vm/evmzero/interpreter.cc:1669-1827 | evmzero fails exactly if the CT rule does, else same gas, memory, return data, refund, stack and, after the EVMC adapter (go/interpreter/evmc/evmc_interpreter.go:281-310), the same message to the callee |
| `CallAgreement.CallGas` | cpp/vm/evmzero/interpreter.cc:1669-1827 | for every host: the callee gets at most all but 1/64 plus stipend, the caller keeps at least 1/64, gas is conserved, every call costs gas |
| `CallAgreement.CallMemory` | cpp/vm/evmzero/interpreter.cc:1669-1827 | an affordable call pays exactly C(new) - C(old) for its memory |
| `RustCalls.MemoryPriceIsC` | rust/src/types/memory.rs:62-72 | the Rust price is exact below 2^32 words and an error from there on |
| `RustCalls.Interpreter.GetMutSlice` | rust/src/types/memory.rs:84-108 | succeeds exactly if the exact price is affordable, charges it and grows for the range |
| `RustCalls.Interpreter.PayForAccess` | rust/src/interpreter.rs:1394-1415 | charging one by one succeeds exactly if the sum evmzero charges is affordable, with the same requests to the host |
| `RustCalls.Interpreter.PayForMemory` | rust/src/interpreter.rs:1416-1423 | two purchases in sequence succeed exactly if the maximum is affordable, and cost it |
| `RustCalls.Interpreter.Forward` | rust/src/interpreter.rs:1425-1490 | adding and consuming gas in steps never fails and ends as in evmzero |
| `RustCalls.Interpreter.NewEnvelope` | rust/src/interpreter.rs:1440-1557 | the messages of the four call kinds have the kind, static flag, depth, sender, recipient and value of those of evmzero |
| `RustCalls.Interpreter.PopArgs` | rust/src/interpreter.rs:1397-1405 | the operands popped, top of the stack last, are those evmzero and the rules read |
| `RustCalls.Interpreter.CallFamily` | rust/src/interpreter.rs:1393-1490 | for every host and stack, fails exactly if evmzero does on the same operands, else the identical outcome, message with static flag and depth included |
| `RustCalls.TestHostsQualify` | go/ct/st/call_journal.go:34-66 | hosts backed by a test state meet the premises, so all three executions agree |
| `Interpreter.PushFits` | cpp/vm/evmzero/interpreter.cc:1379-1417 | the unchecked read of push data stays inside the padded code |
| `InterpreterRuns.DispatchStaysInCode` | cpp/vm/evmzero/interpreter.cc:1962-2034 | after any dispatch that goes on, pc is an instruction start or in the padding and the stack is within its limits |
| `InterpreterRuns.DispatchSpendsGas` | cpp/vm/evmzero/interpreter.cc:1988-2033 | a dispatch that goes on has spent gas, nested calls and stipends included |
| `InterpreterRuns.HaltsWithinGas` | cpp/vm/evmzero/interpreter.cc:2036-2150 | an execution with gas g halts within g + 1 dispatches and its gas stays in [0, g] |
| `InterpreterRuns.DispatchPaysForMemory` | cpp/vm/evmzero/interpreter.cc:1962-2034 | gas plus the price of memory does not increase, and stays below the sentinel |
| `InterpreterRuns.CreatePays` | cpp/vm/evmzero/interpreter.cc:1574-1660 | CREATE and CREATE2 grow memory only if they pay its exact price; what they pass on is `CreateGas` |
| `InterpreterRuns.RunPaysForMemory` | cpp/vm/evmzero/interpreter.cc:1907-1946 | over whole runs the potential never increases, so final memory is bounded by the gas spent |
| `InterpreterRuns.FusedJump` | cpp/vm/evmzero/interpreter.cc:1996-2015 | the modes differ only on jumps taken, where full speed is the jump followed by the JUMPDEST |
| `InterpreterRuns.FullSpeedSimulatesStepping` | cpp/vm/evmzero/interpreter.cc:1962-2150 | for every program, gas and host both modes end in the same frame |
| `InterpreterRuns.InterpretIsNSteps` | cpp/vm/evmzero/interpreter.cc:79-160 | Interpret and InterpretNSteps show the same status, gas, refund, return data, memory and host-call trace |
| `InterpreterRuns.EndIsClean` | cpp/vm/evmzero/interpreter.cc:2112-2143 | a failed execution keeps neither gas nor return data; only RETURN and REVERT return data; stepping puts the stack pointer back |
| `InterpreterRuns.StepsCompose` | cpp/vm/evmzero/interpreter.cc:2112-2150 | n then m steps: observably n + m steps always; identical if and only if no failure follows a moved stack pointer and no lost pc a moved pc |
| `InterpreterRuns.PcIsLost` | cpp/vm/evmzero/interpreter.cc:1962-2034 | a dispatch leaves a null pc exactly if revision, static mode, stack bounds, static gas, jump target or dynamic gas make it fail |
| `InterpreterRuns.StepsDoNotComposeOnFailure` | cpp/vm/evmzero/interpreter.cc:2112-2150 | an instance where the reported pc differs |
| `InterpreterRuns.StepsDoNotComposeOnOutOfGas` | cpp/vm/evmzero/interpreter.cc:1084-1106 | an instance for a load that runs out of gas |
| `InterpreterRuns.ExecutionContext.RunInterpreter` | cpp/vm/evmzero/interpreter.cc:2036-2150 | the loop with its local copies ends, and computes the specified context in both modes |
| `RuleAgreement.FirstFailedCheck` | cpp/vm/evmzero/interpreter.cc:1962-1992 | which of the common checks is reported |
| `RuleAgreement.JumpOutcome` | cpp/vm/evmzero/interpreter.cc:1994-2015 | a zero condition goes to pc + 1, a target reported as JUMPDEST is where the jump lands (one behind at full speed), anything else is ErrorJump; operands are popped |
| `RuleAgreement.JumpFollowsRules` | go/ct/spc/specification.go:595-648 | JUMP goes on exactly if the rule for valid targets is the one that applies, and then as it says; else both fail |
| `RuleAgreement.JumpiFollowsRules` | go/ct/spc/specification.go:652-728 | JUMPI is taken, or not taken, exactly if the rule for that case is the one that applies; else both fail |
| `RuleAgreement.PushOutcome` | cpp/vm/evmzero/interpreter.cc:1379-1417 | PUSHn pushes the number whose n digits are the bytes behind it, zeros behind the code, and skips them; fails without gas or space |
| `MemoryRules.TestState.Sha3` | go/ct/spc/specification.go:287-317 | the effect fails exactly if the exact price is not affordable, and else is the specified one |
| `MemoryRules.TestState.Mload` | go/ct/spc/specification.go:383-404 | likewise: the word at the offset is pushed |
| `MemoryRules.TestState.Store` | go/ct/spc/specification.go:408-458 | likewise for MSTORE and MSTORE8: the word, or its last byte, is written |
| `MemoryRules.TestState.Mcopy` | go/ct/spc/specification.go:918-951 | likewise: the larger expansion is charged, overlapping ranges are copied as if through a buffer |
| `MemoryRules.TestState.Copy` | go/ct/spc/specification.go:1541-1573 | likewise for CALLDATACOPY, CODECOPY and EXTCODECOPY: the padded slice of the source is written |
| `MemoryRules.TestState.ReturnDataCopy` | go/ct/spc/specification.go:1602-1636 | likewise; also fails exactly if the source is out of bounds |
| `MemoryRules.TestState.End` | go/ct/spc/specification.go:1639-1690 | likewise for RETURN and REVERT: the range is returned |
| `MemoryRules.TestState.LogOp` | go/ct/spc/specification.go:2146-2192 | likewise: data and topics are logged |
| `RuleAgreement.MemoryOpsFollowRules` | cpp/vm/evmzero/interpreter.cc:514-540 | every memory opcode of evmzero fails exactly if its rule does, else same gas, stack, memory, return data, accesses and logs |
| `RuleAgreement.StoreThenLoad` | go/ct/spc/specification.go:383-432 | a word stored is the word loaded from there |
| `RuleAgreement.OperandsAgree` | cpp/vm/evmzero/interpreter.cc:1683-1712 | evmzero reads the operands of a call that the rules pop |
| `RuleAgreement.RuleUsesOperands` | go/ct/spc/specification.go:2580-2731 | by stack positions: target, value, input range, gas limit and output range of a call, and that no other byte of memory changes |
| `RuleAgreement.HandlerUsesOperands` | cpp/vm/evmzero/interpreter.cc:1669-1827 | the same for evmzero and every host |
| `RuleAgreement.CallsFollowRules` | cpp/vm/evmzero/interpreter.cc:1669-1827 | dispatching a call ends exactly as its rule: fails alike, else same gas, stack, memory, return data, refund |
| `CreateRules.CreateEffect` | go/ct/spc/specification.go:1809-1883 | fails exactly if the init code is too large or the exact price not affordable, else reaches the specified state |
| `RuleAgreement.CreateGas` | cpp/vm/evmzero/interpreter.cc:1574-1660 | for every host: exactly all but 1/64 of what is left after the exact price is passed on, at least 1/64 is kept, gas is conserved; kind, depth, sender, value, salt and init code of the message; the created address exactly on success |
| `RuleAgreement.CreatesFollowRules` | cpp/vm/evmzero/interpreter.cc:1574-1660 | dispatching a create ends exactly as its rule |
| `Sstore.CalculateSStoreGas` | go/integration_test/interpreter/dynamic_gas.go:454-489 | with the amounts of a revision, computes the reference price and refund |
| `Sstore.StatusMeaning` | go/tosca/utils.go:18-68 | each of the nine statuses by what the slot was and what it becomes: clean, cleared, filled or changed |
| `Sstore.PricesAgree` | cpp/vm/evmzero/interpreter.cc:1183-1274 | Rust and the rule table equal the reference on every slot; evmzero if and only if it is not a cold restore of a nonzero value |
| `Sstore.RefundTelescopes` | go/ct/spc/specification.go:524-583 | the refund of any sequence from any state, from its first and last slot and the number of restores |
| `Sstore.RefundClosedForm` | go/ct/spc/specification.go:524-583 | from a clean slot: clear refund if now cleared, plus a fixed amount per restore, never negative |
| `Sstore.ReachableIsDirtyWarm` | go/ct/spc/specification.go:535-583 | from Berlin on, a modified slot is warm after any sequence of loads and stores |
| `Sstore.ReachablePricesAgree` | rust/src/interpreter.rs:1209-1245 | in every reachable state all four prices agree, where the table has a rule |
| `Sstore.LoadPricesAgree` | go/ct/spc/specification.go:460-520 | SLOAD costs the same in evmzero and in its three rules |
| `Sstore.RefundCoveredByCharges` | go/ct/spc/specification.go:524-583 | from London on, no sequence earns more refund than it was charged, if and only if the slot starts cold or zero |
| `Sstore.TransactionRefundCovered` | go/ct/spc/specification.go:524-583 | for any interleaving of accesses to any number of slots, if and only if all of them start cold or zero |
| `Sstore.Storage.SetCurrent` | go/ct/st/storage.go:73-80 | the slot reads the new value, its original value and warmth and all other slots are as before, absent keys included |
| `Sstore.Storage.MarkWarm` | go/ct/st/storage.go:117-124 | the slot is warm, its values and all other slots are as before |
| `Sstore.Storage.Sstore` | go/ct/spc/specification.go:2061-2116 | succeeds exactly with more than 2300 gas and the price, charges the reference price, touches no other slot |
| `LruCache.LruCache.constructor` | cpp/common/lru_cache.h:33-33 | an empty, well-formed cache |
| `LruCache.LruCache.Clear` | cpp/common/lru_cache.h:81-97 | all entries linked, none indexed, recency list empty |
| `LruCache.LruCache.Touch` | cpp/common/lru_cache.h:104-122 | moves the entry to the front of a list through all entries, which stays well linked; data untouched |
| `LruCache.LruCache.GetNewHead` | cpp/common/lru_cache.h:125-141 | the last entry becomes the head, its key is forgotten if the cache was full, and the new tail ends the list |
| `LruCache.LruCache.Get` | cpp/common/lru_cache.h:37-46 | refines lookup with move-to-front; a miss changes nothing |
| `LruCache.LruCache.InsertOrAssign` | cpp/common/lru_cache.h:49-66 | refines insertion: overwriting keeps the position, a new key goes first, the last is evicted from a full cache |
| `LruCache.LruCache.GetOrInsert` | cpp/common/lru_cache.h:71-77 | a hit returns the cached value, a miss inserts and returns the made one |
| `LruCache.ApplyKeepsDistinct` | cpp/common/lru_cache.h:37-77 | every operation keeps the keys distinct |
| `LruCache.RecentlyUsedStaysCached` | cpp/common/lru_cache.h:37-141 | over any sequence of operations, a key stays cached while fewer than capacity other keys are used |
| `LruCache.UsedIsMostRecent` | cpp/common/lru_cache.h:37-66 | a hit and a new insertion put the key in front |
| `Sha3Cache.StepKeepsInvariant` | cpp/common/lru_cache.h:71-77 | every atomic step of every thread keeps both caches sound |
| `Sha3Cache.HashesAreCorrect` | cpp/vm/evmzero/sha3_cache.h:31-49 | under any interleaving, every call returns the hash of its input |
| `IntervalSolver.RemainderExact` | go/ct/gen/interval_solver.go:185-205 | each case of getRelationTo leaves exactly the values not excluded, and no stored bound wraps around |
| `IntervalSolver.IntervalSolver.constructor` | go/ct/gen/interval_solver.go:35-43 | the domain is [min..max], empty if min > max |
| `IntervalSolver.IntervalSolver.Exclude` | go/ct/gen/interval_solver.go:47-74 | intervals stay non-empty, sorted and disjoint; exactly [min..max] is removed |
| `IntervalSolver.IntervalSolver.AddLowerBoundary` | go/ct/gen/interval_solver.go:90-99 | the domain is intersected with [value..] |
| `IntervalSolver.IntervalSolver.AddUpperBoundary` | go/ct/gen/interval_solver.go:101-110 | the domain is intersected with [..value] |
| `IntervalSolver.IntervalSolver.AddEqualityConstraint` | go/ct/gen/interval_solver.go:85-88 | the domain is intersected with {value} and satisfiable exactly if value was in it |
| `IntervalSolver.PickRank` | go/ct/gen/interval_solver.go:117-139 | every sample denotes a domain value with that rank |
| `IntervalSolver.RankPick` | go/ct/gen/interval_solver.go:117-139 | every domain value is denoted by its rank, so samples and domain correspond one to one |
| `IntervalSolver.SizeBound` | go/ct/gen/interval_solver.go:117-139 | the size is that of the type only for the full domain |
| `IntervalSolver.DomainSize` | go/ct/gen/interval_solver.go:122-125 | the loop computes the size modulo 2^64 |
| `IntervalSolver.Generate` | go/ct/gen/interval_solver.go:117-139 | unsatisfiable exactly for the empty domain, never "internal error", otherwise the value its sample stands for, also when the size wraps to 0 |
| `CodeBuilder.PickOperation` | go/ct/gen/code.go:199-208 | a random operation never overshoots the next fixed position |
| `CodeBuilder.SortOps` | go/ct/gen/code.go:176-176 | a sorted permutation, exactly as placeable |
| `CodeBuilder.BuildNext` | go/ct/gen/code.go:186-225 | one round keeps the placed operations as instructions and, if the operations are placeable, stops at or before the next one |
| `CodeBuilder.BuildSorted` | go/ct/gen/code.go:177-235 | succeeds if and only if footprints are disjoint and in range; then every operation is an instruction of the code |
| `CodeBuilder.Build` | go/ct/gen/code.go:165-235 | the same for operations in any order, and for none |
| `CodeBuilder.PlacedIsReported` | go/ct/st/code.go:97-105 | placed operations are those GetOperation reports |
| `CodeBuilder.BuildIsComplete` | go/ct/gen/code.go:165-235 | operations at different positions that any code satisfies can be built |
| `CodeSolver.MarkKeepsConsistent` | go/ct/gen/code.go:355-360 | marking an operation keeps every mark backed by an operation and every operation marked |
| `CodeSolver.FreeIsApart` | go/ct/gen/code.go:362-373 | an operation that fits is placeable together with the others if and only if the others are |
| `CodeSolver.MarksAreJudged` | go/ct/gen/code.go:355-360 | in the finished code, positions marked code are code and positions marked data are data, as NewCode sees it |
| `CodeSolver.VarCodeConstraintSolver.constructor` | go/ct/gen/code.go:316-328 | the marks are consistent with the given operations |
| `CodeSolver.VarCodeConstraintSolver.MarkUsed` | go/ct/gen/code.go:355-360 | one instruction mark, its data marks, nothing else |
| `CodeSolver.VarCodeConstraintSolver.Fits` | go/ct/gen/code.go:362-373 | true exactly if the footprint is unused and inside the code |
| `CodeSolver.VarCodeConstraintSolver.LargestFit` | go/ct/gen/code.go:375-385 | the number of unused positions from pos, at most 33 |
| `CodeSolver.VarCodeConstraintSolver.FindFit` | go/ct/gen/code.go:403-414 | the wrap-around search finds a fitting position if and only if there is one |
| `CodeSolver.VarCodeConstraintSolver.FindCode` | go/ct/gen/code.go:439-452 | finds the first position from the start, wrapping around, that is not data; fails if and only if there is none |
| `CodeSolver.IsCodeKeeps` | go/ct/gen/code.go:426-465 | whatever the random start, a bound variable stays if and only if it points to an instruction or to the only position that is not data |
| `CodeSolver.IsCodeMoves` | go/ct/gen/code.go:426-465 | an instance of a bound variable that moves |
| `CodeSolver.VarCodeConstraintSolver.FindData` | go/ct/gen/code.go:477-501 | finds data or room for a push if and only if there is any; a chosen push fits |
| `CodeSolver.VarCodeConstraintSolver.SolveOneIsCode` | go/ct/gen/code.go:439-462 | the variable ends up where the search from the random start ends, on an instruction |
| `CodeSolver.VarCodeConstraintSolver.SolveOneIsData` | go/ct/gen/code.go:477-513 | fails if and only if there is no data and no room for it; the variable ends up at a data place, and at any of them for some random numbers |
| `CodeSolver.VarCodeConstraintSolver.SolveVarOps` | go/ct/gen/code.go:393-424 | on success each variable points to a reserved copy of its operation; nothing decided before is revised; a single operation succeeds if and only if it fits somewhere |
| `CodeSolver.VarCodeConstraintSolver.SolveIsCode` | go/ct/gen/code.go:426-465 | on success each variable points to an instruction; with placeable operations it fails if and only if a variable was bound behind the code |
| `CodeSolver.VarCodeConstraintSolver.SolveIsData` | go/ct/gen/code.go:467-516 | on success each variable points to push data and variables on instructions have not moved; the causes of a failure |
| `CodeGenerator.FixedSizeBounds` | go/ct/gen/code.go:102-108 | the size asked for covers all constant positions up to one byte |
| `CodeGenerator.FixedSizeCovers` | go/ct/gen/code.go:102-108 | it covers them if and only if no operation sits exactly at the size asked for by those before it with none behind it |
| `CodeGenerator.FixedSizeTooSmall` | go/ct/gen/code.go:102-108 | an instance it does not cover |
| `CodeGenerator.CodeGenerator.PickSize` | go/ct/gen/code.go:142-153 | a fixed size is kept or refused if below the minimum; a random one respects minimum and maximum |
| `CodeGenerator.CodeGenerator.SplitOps` | go/ct/gen/code.go:88-100 | bound variables become constant positions, an error exactly if one is beyond the maximal code size |
| `CodeGenerator.CodeGenerator.ComputeMinSize` | go/ct/gen/code.go:102-140 | the three loops and adjustments compute the minimum that `MinSizeIsLeast` characterises |
| `CodeGenerator.MinSizeIsLeast` | go/ct/gen/code.go:102-140 | that minimum is the least size that meets all demands |
| `CodeGenerator.OpCodesAreThoseUsed` | go/ct/gen/code.go:120-128 | the opcodes counted are exactly those some constraint uses |
| `CodeGenerator.TotalWidthAdds` | go/ct/gen/code.go:110-118 | variable operations are counted with their full width |
| `CodeGenerator.SingleOpFits` | go/ct/gen/code.go:120-128 | one operation always fits into the minimum, also at position 0 |
| `CodeGenerator.SplitIsPartition` | go/ct/gen/code.go:88-100 | every operation constraint becomes a fixed operation or is left to the solver, and nothing else does |
| `CodeGenerator.CodeGenerator.Solve` | go/ct/gen/code.go:332-353 | on success all variable constraints are solved, and the operations are placeable if and only if the given ones were |
| `CodeGenerator.CodeGenerator.Generate` | go/ct/gen/code.go:85-236 | generated code and assignment satisfy every constOp, varOp, isCode and isData constraint; variables at the position of an operation keep it; a bad position and a too small fixed size are reported exactly if they occur; the build only fails if the operations at known positions are not placeable; exact success condition without variables, and for one unbound operation (its width), unbound isCode (1 byte) or unbound isData constraints (2 bytes): always without a fixed size |
| `RuleEngine.LookupFindsAll` | go/ct/spc/specification_map.go:48-69 | for rules that only apply in states with their key, the bucket of a state holds all applicable rules, in order |
| `RuleEngine.SpecificationMap.constructor` | go/ct/spc/specification_map.go:37-46 | the map holds for each key the rules with that key, in order |
| `RuleEngine.SpecificationMap.GetRulesFor` | go/ct/spc/specification_map.go:48-69 | the same rule sequence as filtering all rules |
| `RuleEngine.RulesForSeparated` | go/ct/spc/specification.go:2347-2428 | the rules of rulesFor meet that premise |
| `RuleEngine.TerminalRulesSeparated` | go/ct/spc/specification.go:69-121 | so do the rules without an opcode: ended executions, data at pc, unknown revision |
| `RuleEngine.AllRulesSeparated` | go/ct/spc/specification.go:64-1806 | and therefore the specification as a whole |
| `RuleEngine.RulesForApplicability` | go/ct/spc/specification.go:2347-2428 | when each kind of rule applies to a state about to execute the instruction |
| `RuleEngine.RulesForComplete` | go/ct/spc/specification.go:2394-2428 | only the regular rule applies, or failure rules only and at least one |
| `RuleEngine.FamilyDecided` | go/ct/spc/specification.go:2394-2428 | a family of variants with exclusive and exhaustive conditions is total and deterministic |
| `RuleEngine.JumpVariantHolds` | go/ct/spc/specification.go:595-648 | of the three JUMP variants exactly the intended one has its conditions met |
| `RuleEngine.JumpDecided` | go/ct/spc/specification.go:595-648 | in every state about to execute JUMP the rules are total and deterministic |
| `RuleEngine.JumpTakenIffEvmzeroTarget` | go/ct/spc/specification.go:595-612 | the specification takes a jump exactly to the jump targets of evmzero |
| `RuleEngine.JumpiVariantHolds` | go/ct/spc/specification.go:652-728 | of the four JUMPI variants exactly the intended one has its conditions met |
| `RuleEngine.JumpiDecided` | go/ct/spc/specification.go:652-728 | in every state about to execute JUMPI the rules are total and deterministic |
| `ParameterEnumeration.ProductAt` | go/ct/rlz/rules.go:62-84 | the j-th combination handed over has the digits of j in the mixed radix of the sample counts, hence lexicographic order |
| `ParameterEnumeration.CombinationFrame` | go/ct/rlz/rules.go:62-84 | stack positions without a parameter keep their value |
| `ParameterEnumeration.CombinationsDiffer` | go/ct/rlz/rules.go:62-84 | with fresh samples no combination is handed over twice |
| `ParameterEnumeration.TestState.EnumerateParameters` | go/ct/rlz/rules.go:62-84 | hands over the cross product in order up to the first abort, reports the abort, and restores the stack if there was none |
| `ParameterEnumeration.TotalNumberOfCases` | go/ct/rlz/rules.go:128-137 | the product of all domain sizes |
| `ParameterEnumeration.CountIsAnnounced` | go/ct/rlz/rules.go:128-137 | with enough stack, the number of combinations is the announced product of (samples + 1) |
| `ForEachState.NoSendOnClosedChannel` | go/ct/spc/enumeration.go:86-151 | no goroutine is about to send on a closed channel |
| `ForEachState.Progress` | go/ct/spc/enumeration.go:86-151 | with at least one job, or without rules, some step is enabled until the call returns |
| `ForEachState.NoJobsDeadlock` | go/ct/spc/enumeration.go:86-151 | with zero jobs the start is a deadlock if and only if there is a rule |
| `ForEachState.StepKeepsInvariant` | go/ct/spc/enumeration.go:86-151 | every step keeps the phases, and conserves each state sent and each state still to come |
| `ForEachState.StepDecreasesMeasure` | go/ct/spc/enumeration.go:86-151 | every step brings the pipeline closer to its end |
| `ForEachState.PipelineCorrect` | go/ct/spc/enumeration.go:86-160 | under any schedule: bounded, deadlock-free, no send on a closed channel; on return everything sent was consumed exactly once, and without abort or error exactly what the rules enumerate |
| `ForEachState.FlagsRecordEvents` | go/ct/spc/enumeration.go:91-146 | the abort flag and the error record exactly the consumer aborts and the failed enumerations of the run |
| `ForEachState.ErrorsAreReported` | go/ct/spc/enumeration.go:86-160 | the call returns an error if and only if an enumeration failed; without consumer aborts, if and only if some rule fails |
| `ForEachState.AbortStopsSending` | go/ct/spc/enumeration.go:111-135 | after an abort at most one more state per job is sent and no enumeration begins |

## Left out

- Arithmetic, comparison, environment and storage opcodes of evmzero one by one: an arbitrary effect with a positive cost; each is settled by reading one branch.
- Opcode handlers work on values (a frame goes in, a frame comes out) instead of overwriting stack slots through pointers; the dispatch loop, memory and all CT effects are imperative.
- Observers, the profiler and computed gotos of `RunInterpreter`.
- Overflow of int64 when extra charges are added to a memory cost: out of reach while gas plus memory price is below kMaxGas, which runs preserve.
- Code of 2^32 bytes or more: `RunInterpreter` truncates a jump target to 32 bits.
- Rules for CREATE2 in read-only mode ask for three operands where the opcode has four (go/ct/spc/specification.go:1767-1783); both fail, which is all the model says.
- Pure queries of the host (balance, existence, code) in the recorded trace.
- The run loop, stack and code reader of the Rust interpreter; its call family and its SSTORE are modelled.
- Revisions before Istanbul, and SSTORE checks for static mode and for more than 2300 gas in evmzero and Rust: easy; the CT rule with its 2301 gas threshold is modelled.
- Sstore.Storage.Sstore: claims nothing for a cold slot that is assigned its current value, because the rule table has no rule for it.
- LRU caches with fewer than two entries: the code needs two.
- Keccak: an uninterpreted function, also for SHA3; the mutex of `LruCache` appears as the atomicity of the steps of `Sha3Cache`.
- IntervalSolver.Generate: for uint64 only; for narrow signed types the size computation of go/ct/gen/interval_solver.go:122-125 does not stay within the type.
- CodeSolver.VarCodeConstraintSolver.SolveIsData: gives the causes of a failure but no equivalence, because an earlier random push may or may not take the position of a later variable.
- CodeGenerator.CodeGenerator.Generate: a nil assignment is not modelled, nor code sizes beyond int32, which only the test-only fixed size could ask for; a random instruction may be any byte but a push where the code picks a defined one.
- Completeness of the variable solver for several variables: the source itself says it is incomplete because of fragmentation.
- `Restrict` of conditions, the other generators, `bindVariablesInRangeConstraints`, and conditions on accounts, storage and block data, which `RuleEngine` treats as arbitrary.
- An account that exists and an account that is not empty are the same to the model of the call family.
- ParameterEnumeration.TotalNumberOfCases: unbounded integers instead of Go's int.
- The progress printer and timing of `ForEachState`, and what a consumer does with a state.
- Wrappers around geth and EVMC, command-line tools, JSON, `String` and `Diff`: plumbing and formatting.
