/** CodeGenerator.Generate in go/ct/gen/code.go, from the constraints to the finished code. */
module CodeGenerator {
  import opened Evm
  import opened CodeScan
  import opened CodeBuilder
  import opened CodeSolver

  const MAX_CODE_SIZE: nat := 24576

  datatype Failure = BadPosition | SizeTooSmall | Unsolved | Unbuildable

  datatype Result<+T> = Ok(value: T) | Err(error: Failure)

  // --------------------------------------------------- constraints on bound variables

  predicate BadlyBound(a: Assignment, c: VarOp) { c.variable in a && a[c.variable] > MAX_CODE_SIZE }

  /** Operation constraints on bound variables are constraints on fixed positions. */
  function BoundOps(a: Assignment, varOps: seq<VarOp>): (ops: seq<FixedOp>)
    ensures forall k :: 0 <= k < |ops| ==> ops[k].pos >= 0
    ensures forall c :: c in varOps && c.variable in a ==> FixedOp(a[c.variable], c.op) in ops
  {
    if varOps == [] then []
    else
      var c, rest := varOps[|varOps| - 1], BoundOps(a, varOps[..|varOps| - 1]);
      if c.variable in a then rest + [FixedOp(a[c.variable], c.op)] else rest
  }

  /** The operation constraints left to the solver. */
  function FreeOps(a: Assignment, varOps: seq<VarOp>): (free: seq<VarOp>)
    ensures forall k :: 0 <= k < |free| ==> free[k].variable !in a && free[k] in varOps
    ensures forall c :: c in varOps && c.variable !in a ==> c in free
  {
    if varOps == [] then []
    else
      var c, rest := varOps[|varOps| - 1], FreeOps(a, varOps[..|varOps| - 1]);
      if c.variable in a then rest else rest + [c]
  }

  lemma NoOpsSplit(a: Assignment, varOps: seq<VarOp>)
    ensures BoundOps(a, varOps[..0]) == [] && FreeOps(a, varOps[..0]) == []
  {}

  lemma SplitStep(a: Assignment, varOps: seq<VarOp>, k: nat)
    requires k < |varOps|
    ensures var c := varOps[k];
      if c.variable in a then
        && BoundOps(a, varOps[..k + 1]) == BoundOps(a, varOps[..k]) + [FixedOp(a[c.variable], c.op)]
        && FreeOps(a, varOps[..k + 1]) == FreeOps(a, varOps[..k])
      else
        && BoundOps(a, varOps[..k + 1]) == BoundOps(a, varOps[..k])
        && FreeOps(a, varOps[..k + 1]) == FreeOps(a, varOps[..k]) + [c]
  {
    assert varOps[..k + 1][..k] == varOps[..k] && varOps[..k + 1][k] == varOps[k];
  }

  // ------------------------------------------------------------------ code size

  /** The size asked for by the fixed operations. */
  function FixedSize(ops: seq<FixedOp>): (size: nat) {
    if ops == [] then 0
    else
      var last, size := ops[|ops| - 1], FixedSize(ops[..|ops| - 1]);
      if last.pos > size then last.pos + 1 else size
  }

  function TotalWidth(ops: seq<VarOp>): (size: nat)
    ensures size >= |ops|
  {
    if ops == [] then 0 else TotalWidth(ops[..|ops| - 1]) + Width(ops[|ops| - 1].op)
  }

  function OpCodes(ops: seq<FixedOp>, free: seq<VarOp>): set<Byte> {
    (set k | 0 <= k < |free| :: free[k].op) + (set k | 0 <= k < |ops| :: ops[k].op)
  }

  function MinSize(ops: seq<FixedOp>, free: seq<VarOp>, isCode: nat, isData: nat): (size: nat)
    ensures |free| + isCode + isData > 0 ==> size > 0
  {
    var forOps := Max(FixedSize(ops) + TotalWidth(free), |OpCodes(ops, free)|);
    var forCode := if forOps == 0 && isCode > 0 then 1 else forOps;
    if isData > 0 && forCode < 2 then 2 else forCode
  }

  /** The size asked for is the least one that meets all demands: operations, distinct opcodes, code and data. */
  lemma MinSizeIsLeast(ops: seq<FixedOp>, free: seq<VarOp>, isCode: nat, isData: nat, n: nat)
    ensures MinSize(ops, free, isCode, isData) <= n <==>
      && FixedSize(ops) + TotalWidth(free) <= n && |OpCodes(ops, free)| <= n
      && (isCode > 0 ==> 1 <= n) && (isData > 0 ==> 2 <= n)
  {}

  lemma OpCodesAreThoseUsed(ops: seq<FixedOp>, free: seq<VarOp>, op: Byte)
    ensures op in OpCodes(ops, free) <==>
      (exists k :: 0 <= k < |free| && free[k].op == op) || (exists k :: 0 <= k < |ops| && ops[k].op == op)
  {}

  /** Variable operations need their full width, one after the other. */
  lemma {:induction false} TotalWidthAdds(a: seq<VarOp>, b: seq<VarOp>)
    ensures TotalWidth(a + b) == TotalWidth(a) + TotalWidth(b)
    ensures |a| == 1 ==> TotalWidth(a) == Width(a[0].op)
  {
    if b == [] {
      assert a + b == a;
    } else {
      var front := b[..|b| - 1];
      assert (a + b)[..|a + b| - 1] == a + front;
      TotalWidthAdds(a, front);
    }
    if |a| == 1 { assert a[..0] == []; }
  }

  /** An operation that a constraint on a bound variable asks for. */
  ghost predicate AskedFor(a: Assignment, varOps: seq<VarOp>, o: FixedOp) {
    exists k :: 0 <= k < |varOps| && varOps[k].variable in a && o == FixedOp(a[varOps[k].variable], varOps[k].op)
  }

  /** Every operation constraint ends up as a fixed operation or with the solver, and nothing else does. */
  lemma {:induction false} SplitIsPartition(a: Assignment, varOps: seq<VarOp>)
    ensures |BoundOps(a, varOps)| + |FreeOps(a, varOps)| == |varOps|
    ensures forall j :: 0 <= j < |BoundOps(a, varOps)| ==> AskedFor(a, varOps, BoundOps(a, varOps)[j])
  {
    if varOps != [] {
      var front, n := varOps[..|varOps| - 1], |varOps| - 1;
      SplitIsPartition(a, front);
      forall j | 0 <= j < |BoundOps(a, varOps)| ensures AskedFor(a, varOps, BoundOps(a, varOps)[j]) {
        if j < |BoundOps(a, front)| {
          var o := BoundOps(a, front)[j];
          assert AskedFor(a, front, o);
          var k :| 0 <= k < |front| && front[k].variable in a && o == FixedOp(a[front[k].variable], front[k].op);
          assert varOps[k] == front[k];
        } else {
          assert varOps[n].variable in a && BoundOps(a, varOps)[j] == FixedOp(a[varOps[n].variable], varOps[n].op);
        }
      }
    }
  }

  /** A single operation fits into the size asked for, also at position 0. */
  lemma SingleOpFits(o: FixedOp)
    requires o.pos >= 0
    ensures Placeable(MinSize([o], [], 0, 0), [o])
  {
    assert [o][..0] == [];
    assert FixedSize([]) == 0;
    assert OpCodes([o], []) == {o.op} by { assert [o][0].op == o.op; }
    assert TotalWidth([]) == 0;
    MinSizeIsLeast([o], [], 0, 0, MinSize([o], [], 0, 0));
  }

  // ------------------------------------------------------------- simple requests

  /** Nothing is fixed, and there is one variable operation, or only isCode, or only isData constraints. */
  ghost predicate Simple(ops: seq<FixedOp>, free: seq<VarOp>, codes: seq<Variable>, datas: seq<Variable>,
                         a: Assignment) {
    && ops == []
    && (|| (|free| == 1 && codes == [] && datas == [])
        || (free == [] && codes != [] && datas == [] && forall v :: v in codes ==> v !in a)
        || (free == [] && codes == [] && datas != [] && forall v :: v in datas ==> v !in a))
  }

  /** The bytes a simple request takes: an instruction with its data, an instruction, or a push and a byte. */
  function Needed(free: seq<VarOp>, codes: seq<Variable>): nat {
    if free != [] then Width(free[0].op) else if codes != [] then 1 else 2
  }

  lemma SimpleMinSize(ops: seq<FixedOp>, free: seq<VarOp>, codes: seq<Variable>, datas: seq<Variable>, a: Assignment)
    requires Simple(ops, free, codes, datas, a)
    ensures MinSize(ops, free, |codes|, |datas|) == Needed(free, codes) <= 33
  {
    if |free| == 1 {
      TotalWidthAdds(free, []);
      assert OpCodes([], free) == {free[0].op};
    } else {
      assert OpCodes([], []) == {};
    }
  }

  /** Positions are at most one behind the size asked for ... */
  lemma {:induction false} FixedSizeBounds(ops: seq<FixedOp>)
    ensures forall k :: 0 <= k < |ops| ==> ops[k].pos <= FixedSize(ops)
    ensures FixedSize(ops) == 0 || exists k :: 0 <= k < |ops| && FixedSize(ops) == ops[k].pos + 1
  {
    if ops != [] {
      var front := ops[..|ops| - 1];
      FixedSizeBounds(front);
      assert forall k :: 0 <= k < |front| ==> front[k] == ops[k];
    }
  }

  lemma {:induction false} FixedSizeMonotone(ops: seq<FixedOp>, k: nat)
    requires k <= |ops|
    ensures FixedSize(ops[..k]) <= FixedSize(ops)
    ensures (forall j :: k <= j < |ops| ==> ops[j].pos <= FixedSize(ops[..k])) ==> FixedSize(ops) == FixedSize(ops[..k])
  {
    if k == |ops| {
      assert ops[..k] == ops;
    } else {
      var front := ops[..|ops| - 1];
      assert front[..k] == ops[..k];
      FixedSizeMonotone(front, k);
    }
  }

  /** The operation sits exactly at the size asked for by those before it, and none sits behind it. */
  ghost predicate JustMissed(ops: seq<FixedOp>, k: nat)
    requires k < |ops|
  {
    ops[k].pos == FixedSize(ops[..k]) && forall j :: 0 <= j < |ops| ==> ops[j].pos <= ops[k].pos
  }

  /** ... and the size suffices exactly if no operation is just missed by the comparison of the loop ... */
  lemma FixedSizeCovers(ops: seq<FixedOp>)
    ensures (forall k :: 0 <= k < |ops| ==> ops[k].pos < FixedSize(ops)) <==>
      !exists k :: 0 <= k < |ops| && JustMissed(ops, k)
  {
    FixedSizeBounds(ops);
    forall k | 0 <= k < |ops| ensures JustMissed(ops, k) <==> ops[k].pos == FixedSize(ops) {
      FixedSizeMonotone(ops, k);
      FixedSizeMonotone(ops, k + 1);
      assert ops[..k + 1][..k] == ops[..k];
    }
  }

  /** ... but it may not: the operation at 2 does not fit into the two bytes asked for. */
  lemma FixedSizeTooSmall()
    ensures var ops := [FixedOp(1, STOP), FixedOp(2, STOP)];
      MinSize(ops, [], 0, 0) == 2 && !Placeable(2, ops) && Placeable(3, ops)
  {
    var ops := [FixedOp(1, STOP), FixedOp(2, STOP)];
    assert ops[..1] == [FixedOp(1, STOP)] && ops[..1][..0] == [];
    assert FixedSize(ops[..1][..0]) == 0;
    assert FixedSize(ops[..1]) == 2;
    assert FixedSize(ops) == 2;
    assert OpCodes(ops, []) == {STOP} by {
      assert ops[0].op == STOP;
    }
    assert ops[1].pos == 2;
  }

  lemma PlaceableGrows(size: nat, larger: nat, ops: seq<FixedOp>)
    requires size <= larger
    ensures Placeable(size, ops) ==> Placeable(larger, ops)
  {}

  // ---------------------------------------------------------------- satisfaction

  /** The code satisfies the constraints under the assignment, as the scan of NewCode judges it. */
  predicate OpAt(code: seq<Byte>, o: FixedOp) { 0 <= o.pos < |code| && GetOperation(code, o.pos) == Some(o.op) }

  predicate VarOpHolds(code: seq<Byte>, a: Assignment, c: VarOp) {
    c.variable in a && OpAt(code, FixedOp(a[c.variable], c.op))
  }

  predicate KindHolds(code: seq<Byte>, a: Assignment, v: Variable, isCode: bool) {
    v in a && a[v] < |code| && IsCode(code, a[v]) == isCode
  }

  predicate KeepsBinding(a: Assignment, b: Assignment, v: Variable) { v in a && v in b && a[v] == b[v] }

  /** What the solver hands over, given the fixed operations and the assignment it started from. */
  ghost predicate Solution(size: nat, ops: seq<FixedOp>, a: Assignment, free: seq<VarOp>, codes: seq<Variable>,
                           datas: seq<Variable>, end: Layout) {
    && ops <= end.ops && (Placeable(size, end.ops) <==> Placeable(size, ops))
    && (|codes| + |datas| > 0 ==> Consistent(end.ops, end.used))
    && (forall k :: 0 <= k < |free| ==> Solved(size, end, free[k]))
    && (forall k :: 0 <= k < |codes| ==> BoundTo(size, end, codes[k], Instruction))
    && (forall k :: 0 <= k < |datas| ==> BoundTo(size, end, datas[k], Data))
    && (Placeable(size, ops) ==> forall v :: v in a && HasOp(ops, a[v]) ==>
        v in end.assignment && end.assignment[v] == a[v])
  }

  lemma NothingToSolve(size: nat, ops: seq<FixedOp>, a: Assignment, free: seq<VarOp>, codes: seq<Variable>,
                       datas: seq<Variable>)
    requires |free| + |codes| + |datas| == 0
    ensures Solution(size, ops, a, free, codes, datas, Layout(ops, map[], a))
    ensures DifferOnlyOn(a, a, Variables(free) + codes + datas)
  {}

  lemma SolutionKeepsPlaceable(size: nat, ops: seq<FixedOp>, a: Assignment, free: seq<VarOp>, codes: seq<Variable>,
                               datas: seq<Variable>, end: Layout)
    requires Solution(size, ops, a, free, codes, datas, end)
    ensures Placeable(size, end.ops) <==> Placeable(size, ops)
  {}

  lemma SolutionKeepsBindings(size: nat, ops: seq<FixedOp>, a: Assignment, free: seq<VarOp>, codes: seq<Variable>,
                              datas: seq<Variable>, end: Layout)
    requires Solution(size, ops, a, free, codes, datas, end) && Placeable(size, ops)
    ensures forall v :: v in a && HasOp(ops, a[v]) ==> KeepsBinding(a, end.assignment, v)
  {
    hide HasOp, Placeable, Consistent, Solved;
  }

  lemma SolutionFromPhases(size: nat, start: Layout, m1: Layout, m2: Layout, end: Layout, free: seq<VarOp>,
                           codes: seq<Variable>, datas: seq<Variable>)
    requires Consistent(start.ops, start.used) && Consistent(end.ops, end.used)
    requires Extends(size, start, m1) && Extends(size, m1, m2) && Extends(size, m2, end)
    requires forall k :: 0 <= k < |free| ==> Solved(size, m1, free[k])
    requires forall k :: 0 <= k < |codes| ==> BoundTo(size, m2, codes[k], Instruction)
    requires forall k :: 0 <= k < |datas| ==> BoundTo(size, end, datas[k], Data)
    ensures Solution(size, start.ops, start.assignment, free, codes, datas, end)
  {
    hide Consistent, Placeable, Solved;
    ExtendsTransitive(size, start, m1, m2);
    ExtendsTransitive(size, m1, m2, end);
    ExtendsTransitive(size, start, m2, end);
    ExtendsKeeps(size, m1, end);
    ExtendsKeeps(size, m2, end);
    if Placeable(size, start.ops) {
      forall v | v in start.assignment && HasOp(start.ops, start.assignment[v])
        ensures v in end.assignment && end.assignment[v] == start.assignment[v]
      {
        BoundOpIsMarked(size, start, v);
      }
    }
  }

  lemma BoundOpIsMarked(size: nat, s: Layout, v: Variable)
    requires Consistent(s.ops, s.used) && Placeable(size, s.ops)
    requires v in s.assignment && HasOp(s.ops, s.assignment[v])
    ensures BoundTo(size, s, v, Instruction)
  {
    var k :| 0 <= k < |s.ops| && s.ops[k].pos == s.assignment[v];
    OperationIsMarked(s.ops, s.used, k);
  }

  lemma DifferencesAdd(a: Assignment, b: Assignment, c: Assignment, v: seq<Variable>, w: seq<Variable>)
    requires DifferOnlyOn(a, b, v) && DifferOnlyOn(b, c, w)
    ensures DifferOnlyOn(a, c, v + w)
  {}

  /** A built solution satisfies the operation constraints ... */
  lemma VarOpsHold(code: seq<Byte>, ops: seq<FixedOp>, a: Assignment, varOps: seq<VarOp>, codes: seq<Variable>,
                   datas: seq<Variable>, end: Layout)
    requires Solution(|code|, ops + BoundOps(a, varOps), a, FreeOps(a, varOps), codes, datas, end)
    requires Placeable(|code|, end.ops) && AllPlaced(code, end.ops)
    ensures forall k :: 0 <= k < |ops| ==> OpAt(code, ops[k])
    ensures forall k :: 0 <= k < |varOps| ==> VarOpHolds(code, end.assignment, varOps[k])
    ensures forall k :: 0 <= k < |varOps| && varOps[k].variable in a ==>
      KeepsBinding(a, end.assignment, varOps[k].variable)
  {
    hide Placeable, GetOperation, BoundOps, FreeOps, Consistent;
    var fixed := ops + BoundOps(a, varOps);
    forall o | o in end.ops ensures OpAt(code, o) { PlacedIsReported(code, o); }
    forall k | 0 <= k < |ops| ensures OpAt(code, ops[k]) { assert fixed[k] == ops[k] == end.ops[k]; }
    forall k | 0 <= k < |varOps|
      ensures VarOpHolds(code, end.assignment, varOps[k])
      ensures varOps[k].variable in a ==> KeepsBinding(a, end.assignment, varOps[k].variable)
    {
      var c := varOps[k];
      if c.variable in a {
        BoundOpHolds(|code|, ops, a, varOps, c, end.ops);
      } else {
        FreeOpSolved(|code|, a, varOps, c, end);
      }
    }
  }

  lemma BoundOpHolds(size: nat, ops: seq<FixedOp>, a: Assignment, varOps: seq<VarOp>, c: VarOp, all: seq<FixedOp>)
    requires c in varOps && c.variable in a && ops + BoundOps(a, varOps) <= all
    ensures FixedOp(a[c.variable], c.op) in all && HasOp(ops + BoundOps(a, varOps), a[c.variable])
  {
    var o, bound, fixed := FixedOp(a[c.variable], c.op), BoundOps(a, varOps), ops + BoundOps(a, varOps);
    assert o in bound;
    var k :| 0 <= k < |bound| && bound[k] == o;
    assert fixed[|ops| + k] == o == all[|ops| + k];
  }

  lemma FreeOpSolved(size: nat, a: Assignment, varOps: seq<VarOp>, c: VarOp, end: Layout)
    requires c in varOps && c.variable !in a
    requires forall k :: 0 <= k < |FreeOps(a, varOps)| ==> Solved(size, end, FreeOps(a, varOps)[k])
    ensures Solved(size, end, c) && FixedOp(end.assignment[c.variable], c.op) in end.ops
  {
    var free := FreeOps(a, varOps);
    assert c in free;
    var k :| 0 <= k < |free| && free[k] == c;
    assert Solved(size, end, free[k]);
  }

  /** ... and the isCode and isData constraints. */
  lemma KindsHold(code: seq<Byte>, ops: seq<FixedOp>, a: Assignment, free: seq<VarOp>, codes: seq<Variable>,
                  datas: seq<Variable>, end: Layout)
    requires Solution(|code|, ops, a, free, codes, datas, end) && AllPlaced(code, end.ops)
    ensures forall k :: 0 <= k < |codes| ==> KindHolds(code, end.assignment, codes[k], true)
    ensures forall k :: 0 <= k < |datas| ==> KindHolds(code, end.assignment, datas[k], false)
  {
    hide Placeable, IsCode, Consistent, AllPlaced;
    forall k | 0 <= k < |codes| ensures KindHolds(code, end.assignment, codes[k], true) {
      assert BoundTo(|code|, end, codes[k], Instruction);
      MarksAreJudged(code, end.ops, end.used, end.assignment[codes[k]]);
    }
    forall k | 0 <= k < |datas| ensures KindHolds(code, end.assignment, datas[k], false) {
      assert BoundTo(|code|, end, datas[k], Data);
      MarksAreJudged(code, end.ops, end.used, end.assignment[datas[k]]);
    }
  }

  class CodeGenerator {
    var constOps: seq<FixedOp>
    var varOps: seq<VarOp>
    var isCode: seq<Variable>
    var isData: seq<Variable>
    var codeSize: Option<nat>

    constructor ()
      ensures constOps == [] && varOps == [] && isCode == [] && isData == [] && codeSize == None
    {
      constOps, varOps, isCode, isData, codeSize := [], [], [], [], None;
    }

    method SetOperation(pos: int, op: Byte)
      modifies `constOps
      ensures constOps == old(constOps) + [FixedOp(pos, op)]
    {
      constOps := constOps + [FixedOp(pos, op)];
    }

    method AddOperation(v: Variable, op: Byte)
      modifies `varOps
      ensures varOps == old(varOps) + [VarOp(v, op)]
    {
      varOps := varOps + [VarOp(v, op)];
    }

    method AddIsCode(v: Variable)
      modifies `isCode
      ensures isCode == old(isCode) + [v]
    {
      isCode := isCode + [v];
    }

    method AddIsData(v: Variable)
      modifies `isData
      ensures isData == old(isData) + [v]
    {
      isData := isData + [v];
    }

    ghost predicate Satisfied(code: seq<Byte>, a: Assignment)
      reads this
    {
      && (forall k :: 0 <= k < |constOps| ==> OpAt(code, constOps[k]))
      && (forall k :: 0 <= k < |varOps| ==> VarOpHolds(code, a, varOps[k]))
      && (forall k :: 0 <= k < |isCode| ==> KindHolds(code, a, isCode[k], true))
      && (forall k :: 0 <= k < |isData| ==> KindHolds(code, a, isData[k], false))
    }

    ghost function FixedOps(a: Assignment): seq<FixedOp>
      reads this
    {
      constOps + BoundOps(a, varOps)
    }

    ghost function LeastSize(a: Assignment): nat
      reads this
    {
      MinSize(FixedOps(a), FreeOps(a, varOps), |isCode|, |isData|)
    }

    /** The smallest size that may be picked. */
    ghost function SmallestSize(a: Assignment): nat
      reads this
    {
      if codeSize.Some? then codeSize.value else if LeastSize(a) <= MAX_CODE_SIZE then LeastSize(a) else MAX_CODE_SIZE
    }

    /** Splits the operation constraints by whether their variable is bound. */
    method SplitOps(a: Assignment) returns (ok: bool, ops: seq<FixedOp>, free: seq<VarOp>)
      ensures ok <==> forall k :: 0 <= k < |varOps| ==> !BadlyBound(a, varOps[k])
      ensures ok ==> ops == FixedOps(a) && free == FreeOps(a, varOps)
    {
      ops, free := constOps, [];
      NoOpsSplit(a, varOps);
      hide BoundOps, FreeOps, Width;
      for k := 0 to |varOps|
        invariant forall j :: 0 <= j < k ==> !BadlyBound(a, varOps[j])
        invariant ops == constOps + BoundOps(a, varOps[..k]) && free == FreeOps(a, varOps[..k])
      {
        var cur := varOps[k];
        SplitStep(a, varOps, k);
        if cur.variable in a {
          if a[cur.variable] > MAX_CODE_SIZE {
            return false, [], [];
          }
          ops := ops + [FixedOp(a[cur.variable], cur.op)];
        } else {
          free := free + [cur];
        }
      }
      assert varOps[..|varOps|] == varOps;
      ok := true;
    }

    method ComputeMinSize(ops: seq<FixedOp>, free: seq<VarOp>) returns (minSize: nat)
      ensures minSize == MinSize(ops, free, |isCode|, |isData|)
    {
      minSize := 0;
      for k := 0 to |ops|
        invariant minSize == FixedSize(ops[..k])
      {
        assert ops[..k + 1][..k] == ops[..k];
        if ops[k].pos > minSize {
          minSize := ops[k].pos + 1;
        }
      }
      assert ops[..|ops|] == ops;
      for k := 0 to |free|
        invariant minSize == FixedSize(ops) + TotalWidth(free[..k])
      {
        assert free[..k + 1][..k] == free[..k];
        var size := 1;
        if IsPush(free[k].op) {
          size := size + (free[k].op - PUSH1 + 1);
        }
        minSize := minSize + size;
      }
      assert free[..|free|] == free;
      minSize := Max(minSize, |OpCodes(ops, free)|);
      if minSize == 0 && |isCode| > 0 {
        minSize := 1;
      }
      if |isData| > 0 && minSize < 2 {
        minSize := 2;
      }
    }

    /** Runs the solver, if there is anything to solve. */
    method Solve(size: nat, ops: seq<FixedOp>, free: seq<VarOp>, a: Assignment)
      returns (ok: bool, solved: seq<FixedOp>, bound: Assignment, ghost end: Layout)
      requires size < TWO_256 && (|free| + |isCode| + |isData| > 0 ==> size > 0)
      requires forall k :: 0 <= k < |free| ==> free[k].variable !in a
      ensures DifferOnlyOn(a, bound, Variables(free) + isCode + isData)
      ensures ok ==> Solution(size, ops, a, free, isCode, isData, end) && solved == end.ops && bound == end.assignment
      ensures |free| + |isCode| + |isData| == 0 ==> ok && bound == a && solved == ops
      ensures Simple(ops, free, isCode, isData, a) ==> (ok <==> Needed(free, isCode) <= size)
    {
      hide Consistent, Placeable, Extends, Solution, CanFit, NoRoomForData, Width, Solved, BoundTo;
      if |free| + |isCode| + |isData| == 0 {
        NothingToSolve(size, ops, a, free, isCode, isData);
        return true, ops, a, Layout(ops, map[], a);
      }
      var solver := new VarCodeConstraintSolver(size, ops, a);
      ghost var start := solver.State();
      if ops == [] { EmptyStart(size, start); }
      ok := solver.SolveVarOps(free);
      ghost var m1 := solver.State();
      if !ok {
        return false, ops, solver.assignment, m1;
      }
      ok := solver.SolveIsCode(isCode);
      ghost var m2 := solver.State();
      DifferencesAdd(a, m1.assignment, m2.assignment, Variables(free), isCode);
      if !ok {
        return false, ops, solver.assignment, m2;
      }
      ok := solver.SolveIsData(isData);
      end := solver.State();
      DifferencesAdd(a, m2.assignment, end.assignment, Variables(free) + isCode, isData);
      if ok { SolutionFromPhases(size, start, m1, m2, end, free, isCode, isData); }
      return ok, solver.ops, solver.assignment, end;
    }

    /** A fixed code size, or a random one that respects the minimum and the maximum. */
    method PickSize(minSize: nat) returns (r: Option<nat>)
      ensures r.None? <==> codeSize.Some? && codeSize.value < minSize
      ensures r.Some? && codeSize.Some? ==> r.value == codeSize.value
      ensures r.Some? && codeSize.None? ==> Min(minSize, MAX_CODE_SIZE) <= r.value <= MAX_CODE_SIZE
    {
      if codeSize.Some? {
        if codeSize.value < minSize {
          return None;
        }
        return Some(codeSize.value);
      }
      var extra: nat :| 0 <= extra;
      var size: nat := Min(extra + minSize, MAX_CODE_SIZE);
      r := Some(size);
    }

    /**
     * Generated code satisfies all constraints under the updated assignment. Variables that point to
     * the position of an operation, in particular those with an operation constraint, are not moved.
     * A bad position and a small fixed size are reported exactly if they occur; the build itself only
     * fails if the operations at known positions could not be placed in the first place.
     */
    method Generate(a: Assignment) returns (r: Result<seq<Byte>>, bound: Assignment)
      requires codeSize.Some? ==> codeSize.value < TWO_256
      ensures r.Ok? ==> Satisfied(r.value, bound)
      ensures r.Ok? ==> forall k :: 0 <= k < |varOps| && varOps[k].variable in a ==>
        KeepsBinding(a, bound, varOps[k].variable)
      ensures r.Ok? ==> forall v :: v in a && HasOp(FixedOps(a), a[v]) ==> KeepsBinding(a, bound, v)
      ensures r.Ok? ==> if codeSize.Some? then |r.value| == codeSize.value else |r.value| <= MAX_CODE_SIZE
      ensures DifferOnlyOn(a, bound, Variables(FreeOps(a, varOps)) + isCode + isData)
      ensures r == Err(BadPosition) <==> exists k :: 0 <= k < |varOps| && BadlyBound(a, varOps[k])
      ensures r == Err(SizeTooSmall) <==> r != Err(BadPosition) && codeSize.Some? && codeSize.value < LeastSize(a)
      ensures r == Err(Unbuildable) ==> !Placeable(SmallestSize(a), FixedOps(a))
      ensures codeSize.Some? && varOps == [] && isCode == [] && isData == [] ==>
        (r.Ok? <==> LeastSize(a) <= codeSize.value && Placeable(codeSize.value, constOps))
      ensures Simple(FixedOps(a), FreeOps(a, varOps), isCode, isData, a) ==>
        (r.Ok? <==> codeSize.None? || Needed(FreeOps(a, varOps), isCode) <= codeSize.value)
    {
      hide Placeable, Satisfied, BadlyBound, MinSize, FreeOps, BoundOps, DifferOnlyOn, KeepsBinding, HasOp;
      hide Simple, Needed, Variables;
      SimpleRequest(a);
      NothingFree(a, varOps);
      assert constOps + [] == constOps;
      NoDifference(a, Variables(FreeOps(a, varOps)) + isCode + isData);
      var ok, ops, free := SplitOps(a);
      if !ok {
        return Err(BadPosition), a;
      }
      var minSize := ComputeMinSize(ops, free);
      var picked := PickSize(minSize);
      if picked.None? {
        return Err(SizeTooSmall), a;
      }
      PlaceableGrows(SmallestSize(a), picked.value, FixedOps(a));
      r, bound := SolveAndBuild(a, picked.value, ops, free);
    }

    /** A simple request has no bad position, and asks for what it needs. */
    lemma SimpleRequest(a: Assignment)
      ensures Simple(FixedOps(a), FreeOps(a, varOps), isCode, isData, a) ==>
        && LeastSize(a) == Needed(FreeOps(a, varOps), isCode) <= 33
        && forall k :: 0 <= k < |varOps| ==> !BadlyBound(a, varOps[k])
    {
      if Simple(FixedOps(a), FreeOps(a, varOps), isCode, isData, a) {
        SimpleMinSize(FixedOps(a), FreeOps(a, varOps), isCode, isData, a);
        assert BoundOps(a, varOps) == [];
        forall k | 0 <= k < |varOps| ensures !BadlyBound(a, varOps[k]) { assert varOps[k] in varOps; }
      }
    }

    /** What is left once the size is known. */
    method SolveAndBuild(a: Assignment, size: nat, ops: seq<FixedOp>, free: seq<VarOp>)
      returns (r: Result<seq<Byte>>, bound: Assignment)
      requires ops == FixedOps(a) && free == FreeOps(a, varOps)
      requires size < TWO_256 && (|free| + |isCode| + |isData| > 0 ==> size > 0)
      ensures r.Ok? ==> Satisfied(r.value, bound) && |r.value| == size
      ensures r.Ok? ==> forall k :: 0 <= k < |varOps| && varOps[k].variable in a ==>
        KeepsBinding(a, bound, varOps[k].variable)
      ensures r.Ok? ==> forall v :: v in a && HasOp(ops, a[v]) ==> KeepsBinding(a, bound, v)
      ensures DifferOnlyOn(a, bound, Variables(free) + isCode + isData)
      ensures r.Ok? || r == Err(Unsolved) || r == Err(Unbuildable)
      ensures r == Err(Unbuildable) ==> !Placeable(size, ops)
      ensures |free| + |isCode| + |isData| == 0 ==> (r.Ok? <==> Placeable(size, ops))
      ensures Simple(ops, free, isCode, isData, a) ==> (r.Ok? <==> Needed(free, isCode) <= size)
    {
      assert ops == [] ==> Placeable(size, ops);
      hide Placeable, Solution, OpAt, VarOpHolds, KindHolds;
      hide AllPlaced, FreeOps, BoundOps, DifferOnlyOn, KeepsBinding, HasOp;
      var ok, solved;
      ghost var end;
      ok, solved, bound, end := Solve(size, ops, free, a);
      if !ok {
        return Err(Unsolved), bound;
      }
      SolutionKeepsPlaceable(size, ops, a, free, isCode, isData, end);
      var code := Build(size, solved);
      if code.None? {
        return Err(Unbuildable), bound;
      }
      VarOpsHold(code.value, constOps, a, varOps, isCode, isData, end);
      SolutionKeepsBindings(size, ops, a, free, isCode, isData, end);
      KindsHold(code.value, ops, a, free, isCode, isData, end);
      r := Ok(code.value);
    }
  }

  /** A solver without operations: what fits, and that nothing is in the way of code or data. */
  lemma EmptyStart(size: nat, s: Layout)
    requires s.ops == [] && Consistent(s.ops, s.used)
    ensures forall op: Byte :: CanFit(size, s.used, op) <==> Width(op) <= size
    ensures NoRoomForData(size, s.used) <==> size < 2
    ensures Placeable(size, s.ops)
  {
    EmptyCode(size, s.used);
    EmptyRoom(size, s.used);
  }

  lemma NothingFree(a: Assignment, varOps: seq<VarOp>)
    ensures varOps == [] ==> BoundOps(a, varOps) == [] && FreeOps(a, varOps) == []
  {}

  lemma NoDifference(a: Assignment, vars: seq<Variable>)
    ensures DifferOnlyOn(a, a, vars)
  {}
}
