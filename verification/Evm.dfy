/** Numeric ranges, opcodes and revisions shared by all parts of the model. */
module Evm {
  const TWO_32: nat := 0x1_0000_0000
  const TWO_64: nat := 0x1_0000_0000_0000_0000
  const TWO_256: nat := 0x1_0000000000000000_0000000000000000_0000000000000000_0000000000000000

  const MAX_U64: nat := TWO_64 - 1
  /** kMaxGas of evmzero: the largest int64, also used as "overflow" sentinel. */
  const MAX_GAS: nat := 0x7FFF_FFFF_FFFF_FFFF

  type Byte = x: int | 0 <= x < 256
  type Word = x: int | 0 <= x < TWO_256
  /** Addresses are only ever compared, so they need no structure of their own. */
  type Address = int

  /** Revisions in the numbering of tosca.Revision. */
  type Revision = nat
  const ISTANBUL: Revision := 0
  const BERLIN: Revision := 1
  const LONDON: Revision := 2
  const SHANGHAI: Revision := 4
  const CANCUN: Revision := 5
  const PRAGUE: Revision := 6
  const OSAKA: Revision := 7
  const UNKNOWN_NEXT: Revision := 99

  const STACK_LIMIT: nat := 1024

  const STOP: Byte := 0x00
  const SHA3: Byte := 0x20
  const CALLDATACOPY: Byte := 0x37
  const CODECOPY: Byte := 0x39
  const EXTCODECOPY: Byte := 0x3C
  const RETURNDATACOPY: Byte := 0x3E
  const MLOAD: Byte := 0x51
  const MSTORE: Byte := 0x52
  const MSTORE8: Byte := 0x53
  const JUMP: Byte := 0x56
  const JUMPI: Byte := 0x57
  const JUMPDEST: Byte := 0x5B
  const MCOPY: Byte := 0x5E
  const PUSH0: Byte := 0x5F
  const PUSH1: Byte := 0x60
  const PUSH32: Byte := 0x7F
  const LOG0: Byte := 0xA0
  const LOG4: Byte := 0xA4
  const CREATE: Byte := 0xF0
  const CALL: Byte := 0xF1
  const CALLCODE: Byte := 0xF2
  const RETURN: Byte := 0xF3
  const DELEGATECALL: Byte := 0xF4
  const CREATE2: Byte := 0xF5
  const STATICCALL: Byte := 0xFA
  const REVERT: Byte := 0xFD

  predicate IsPush(op: Byte) { PUSH1 <= op <= PUSH32 }

  predicate IsLog(op: Byte) { LOG0 <= op <= LOG4 }
  predicate IsCopy(op: Byte) {
    (op == CALLDATACOPY || op == CODECOPY || op == EXTCODECOPY || op == RETURNDATACOPY || op == MCOPY)
  }
  predicate IsMemoryOp(op: Byte) {
    || op == SHA3 || op == MLOAD || op == MSTORE || op == MSTORE8 || op == RETURN || op == REVERT
    || IsCopy(op) || IsLog(op)
  }
  predicate IsCreate(op: Byte) { op == CREATE || op == CREATE2 }
  predicate IsJump(op: Byte) { op == JUMP || op == JUMPI }

  /** The number of bytes an instruction occupies, its immediate data included. */
  function Width(op: Byte): (w: nat)
    ensures 1 <= w <= 33
  {
    if IsPush(op) then op - PUSH1 + 2 else 1
  }

  function Max(a: int, b: int): int { if a < b then b else a }
  function Min(a: int, b: int): int { if a < b then a else b }

  /** RunState of evmzero. */
  datatype RunState =
    | Running | Done | Return | Revert | Invalid
    | ErrorOpcode | ErrorGas | ErrorStackUnderflow | ErrorStackOverflow | ErrorJump
    | ErrorReturnDataCopyOutOfBounds | ErrorCall | ErrorCreate | ErrorStaticCall | ErrorInitCodeSizeExceeded

  predicate IsSuccess(s: RunState) { s.Done? || s.Return? || s.Revert? }

  datatype Option<+T> = None | Some(value: T)
}
