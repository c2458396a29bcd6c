/**
 * The linear scan that separates instructions from push data. It exists twice in the
 * repository: as the jump-target analysis of evmzero and as the code representation of the
 * conformance tests. Both are proved against one definition of instruction start.
 */
module CodeScan {
  import opened Evm

  const PADDING: nat := 33

  /** Position i is visited by a scan that starts at position from. */
  predicate Reaches(code: seq<Byte>, from: nat, i: nat)
    decreases |code| - from
  {
    from == i || (from < i && from < |code| && Reaches(code, from + Width(code[from]), i))
  }

  predicate IsStart(code: seq<Byte>, i: nat) { Reaches(code, 0, i) }

  lemma {:induction false} ReachesTransitive(code: seq<Byte>, a: nat, b: nat, c: nat)
    requires Reaches(code, a, b) && Reaches(code, b, c)
    ensures Reaches(code, a, c)
    decreases |code| - a
  {
    if a < b {
      ReachesMonotone(code, b, c);
      ReachesTransitive(code, a + Width(code[a]), b, c);
    }
  }

  lemma {:induction false} ReachesMonotone(code: seq<Byte>, a: nat, b: nat)
    requires Reaches(code, a, b)
    ensures a <= b
  {}

  /** Of two visited positions the smaller one reaches the larger one. */
  lemma {:induction false} ReachesLinear(code: seq<Byte>, a: nat, b: nat, c: nat)
    requires Reaches(code, a, b) && Reaches(code, a, c) && b <= c
    ensures Reaches(code, b, c)
    decreases |code| - a
  {
    if a < b { ReachesLinear(code, a + Width(code[a]), b, c); }
  }

  /** An instruction start is followed by exactly Width - 1 bytes that are not starts. */
  lemma InstructionFootprint(code: seq<Byte>, p: nat)
    requires IsStart(code, p) && p < |code|
    ensures IsStart(code, p + Width(code[p]))
    ensures forall j :: p < j < p + Width(code[p]) ==> !IsStart(code, j)
  {
    ReachesTransitive(code, 0, p, p + Width(code[p]));
    forall j | p < j < p + Width(code[p]) ensures !IsStart(code, j) {
      if IsStart(code, j) { ReachesLinear(code, 0, p, j); }
    }
  }

  /** A start lies in the code or in its STOP padding, never behind the padded buffer. */
  lemma {:induction false} StartBound(code: seq<Byte>, from: nat, i: nat)
    requires Reaches(code, from, i) && from < |code| + PADDING
    ensures i < |code| + PADDING
    decreases |code| - from
  {
    if from < i { StartBound(code, from + Width(code[from]), i); }
  }

  /** The scan only depends on the bytes before the position asked for. */
  lemma {:induction false} ReachesDependsOnPrefix(code: seq<Byte>, other: seq<Byte>, from: nat, i: nat)
    requires |code| == |other| && i <= |code| && code[..i] == other[..i]
    ensures Reaches(code, from, i) == Reaches(other, from, i)
    decreases |code| - from
  {
    if from < i {
      assert code[from] == code[..i][from] == other[..i][from] == other[from];
      ReachesDependsOnPrefix(code, other, from + Width(code[from]), i);
    }
  }

  function PadCode(code: seq<Byte>): (padded: seq<Byte>)
    ensures |padded| == |code| + PADDING
    ensures forall i :: 0 <= i < |padded| ==> padded[i] == if i < |code| then code[i] else STOP
  {
    code + seq(PADDING, _ => STOP)
  }

  /** The flags evmzero consults: JUMPDEST bytes that are instructions. */
  function JumpTargets(code: seq<Byte>): seq<bool> {
    seq(|code|, i requires 0 <= i < |code| => IsStart(code, i) && code[i] == JUMPDEST)
  }

  /** CalculateValidJumpTargets: one flag per code byte. */
  method CalculateValidJumpTargets(code: seq<Byte>) returns (targets: seq<bool>)
    ensures targets == JumpTargets(code)
  {
    var buffer := new bool[|code|](_ => false);
    var i := 0;
    while i < |code|
      invariant IsStart(code, i)
      invariant forall j :: 0 <= j < |code| && j < i ==> (buffer[j] <==> IsStart(code, j) && code[j] == JUMPDEST)
      invariant forall j :: i <= j < |code| ==> !buffer[j]
    {
      InstructionFootprint(code, i);
      var instruction := code[i];
      if IsPush(instruction) {
        i := i + (instruction - PUSH1 + 1);
      } else {
        buffer[i] := instruction == JUMPDEST;
      }
      i := i + 1;
    }
    targets := buffer[..];
  }

  /**
   * NewCode: the isCode flags run past the code when the last PUSH is truncated. Positions behind
   * the flags count as code, positions behind the code but inside the flags as data.
   */
  method NewCode(code: seq<Byte>) returns (isCode: seq<bool>)
    ensures isCode == IsCodeFlags(code)
    ensures |code| <= |isCode| < |code| + PADDING
    ensures forall i :: 0 <= i < |isCode| ==> (isCode[i] <==> i < |code| && IsStart(code, i))
  {
    isCode := [];
    var i := 0;
    while i < |code|
      invariant IsStart(code, i) && |isCode| == i < |code| + PADDING
      invariant forall j :: 0 <= j < i ==> (isCode[j] <==> j < |code| && IsStart(code, j))
    {
      StartBound(code, 0, i + Width(code[i])) by { InstructionFootprint(code, i); }
      InstructionFootprint(code, i);
      isCode := isCode + [true];
      var op := code[i];
      if IsPush(op) {
        var width := op - PUSH1 + 1;
        isCode := isCode + seq(width, _ => false);
        i := i + width;
      }
      i := i + 1;
    }
    FlagsLength(code, 0, i);
  }

  /** The position at which a scan from the given start leaves the code. */
  function ScanEnd(code: seq<Byte>, from: nat): (end: nat)
    ensures |code| <= end
    decreases |code| - from
  {
    if from < |code| then ScanEnd(code, from + Width(code[from])) else from
  }

  function IsCodeFlags(code: seq<Byte>): seq<bool> {
    seq(ScanEnd(code, 0), i requires 0 <= i => i < |code| && IsStart(code, i))
  }

  lemma {:induction false} FlagsLength(code: seq<Byte>, from: nat, end: nat)
    requires Reaches(code, from, end) && |code| <= end
    ensures ScanEnd(code, from) == end
    decreases |code| - from
  {
    if from < |code| { FlagsLength(code, from + Width(code[from]), end); }
  }

  /** Code.IsCode and Code.GetOperation on the flags computed by NewCode. */
  predicate IsCode(code: seq<Byte>, pos: int) {
    var flags := IsCodeFlags(code);
    if pos < 0 || pos >= |flags| then true else flags[pos]
  }

  function GetOperation(code: seq<Byte>, pos: int): (op: Option<Byte>)
    ensures op.Some? <==> IsCode(code, pos)
    ensures op.Some? && op.value != STOP ==> 0 <= pos < |code| && op.value == code[pos]
  {
    var flags := IsCodeFlags(code);
    if pos < 0 || pos >= |flags| then Some(STOP)
    else if !flags[pos] then None
    else Some(code[pos])
  }

  /**
   * The jump targets of evmzero are exactly the positions at which the conformance tests see a
   * JUMPDEST instruction.
   */
  lemma JumpTargetsMatchSpecification(code: seq<Byte>)
    ensures forall i: nat :: (i < |code| && JumpTargets(code)[i]) <==> GetOperation(code, i) == Some(JUMPDEST)
  {
    forall i: nat ensures (i < |code| && JumpTargets(code)[i]) <==> GetOperation(code, i) == Some(JUMPDEST) {
      assert i < |code| ==> IsCode(code, i) == IsStart(code, i);
    }
  }
}
