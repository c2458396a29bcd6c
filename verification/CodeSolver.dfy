/**
 * varCodeConstraintSolver in go/ct/gen/code.go: chooses code positions for variables that must
 * point to a given operation, to some instruction, or to push data.
 */
module CodeSolver {
  import opened Evm
  import opened CodeScan
  import opened CodeBuilder

  type Variable = string
  type Assignment = map<Variable, Word>

  datatype VarOp = VarOp(variable: Variable, op: Byte)

  /** Used: what a code position is reserved for. */
  datatype Used = Unused | Instruction | Data

  type Marks = map<int, Used>

  function At(used: Marks, p: int): Used { if p in used then used[p] else Unused }

  /** What the solver has decided so far. */
  datatype Layout = Layout(ops: seq<FixedOp>, used: Marks, assignment: Assignment)

  ghost predicate HasOp(ops: seq<FixedOp>, p: int) { exists k :: 0 <= k < |ops| && ops[k].pos == p }

  ghost predicate InData(ops: seq<FixedOp>, p: int) { exists k :: 0 <= k < |ops| && ops[k].pos < p < End(ops[k]) }

  /** Every mark has an operation to show for it, and every operation is marked. */
  ghost predicate Consistent(ops: seq<FixedOp>, used: Marks) {
    && (forall p :: At(used, p) == Instruction ==> HasOp(ops, p))
    && (forall p :: At(used, p) == Data ==> InData(ops, p))
    && (forall k, p :: 0 <= k < |ops| && ops[k].pos <= p < End(ops[k]) ==> At(used, p) != Unused)
  }

  ghost predicate Marked(before: Marks, after: Marks, o: FixedOp) {
    forall p :: At(after, p) == if p == o.pos then Instruction else if o.pos < p < End(o) then Data else At(before, p)
  }

  ghost predicate Free(used: Marks, o: FixedOp) { forall p :: o.pos <= p < End(o) ==> At(used, p) == Unused }

  ghost predicate FitsAt(size: nat, used: Marks, o: FixedOp) { Width(o.op) <= size - o.pos && Free(used, o) }

  /** There is a place for an operation. */
  ghost predicate CanFit(size: nat, used: Marks, op: Byte) {
    exists p :: 0 <= p < size && FitsAt(size, used, FixedOp(p, op))
  }

  /** Without operations nothing is in the way: what matters is the size of the code. */
  lemma EmptyCode(size: nat, used: Marks)
    requires Consistent([], used)
    ensures forall op: Byte :: CanFit(size, used, op) <==> Width(op) <= size
    ensures forall p :: At(used, p) == Unused
  {
    assert forall p :: !HasOp([], p) && !InData([], p);
    assert forall p :: At(used, p) == Unused;
    hide Consistent, Width;
    forall op: Byte ensures CanFit(size, used, op) <==> Width(op) <= size {
      if Width(op) <= size { assert FitsAt(size, used, FixedOp(0, op)); }
    }
  }

  // ------------------------------------------------------ consistency of the marks

  lemma NothingMarked()
    ensures Consistent([], map[])
  {}

  lemma MarkKeepsConsistent(ops: seq<FixedOp>, before: Marks, after: Marks, o: FixedOp)
    requires Consistent(ops, before) && Marked(before, after, o)
    ensures Consistent(ops + [o], after)
  {
    var all := ops + [o];
    assert all[|ops|] == o && forall k :: 0 <= k < |ops| ==> all[k] == ops[k];
    hide End;
    forall p | At(after, p) == Instruction ensures HasOp(all, p) {
      if p != o.pos {
        assert HasOp(ops, p);
        var k :| 0 <= k < |ops| && ops[k].pos == p;
        assert all[k].pos == p;
      }
    }
    forall p | At(after, p) == Data ensures InData(all, p) {
      if !(o.pos < p < End(o)) {
        assert InData(ops, p);
        var k :| 0 <= k < |ops| && ops[k].pos < p < End(ops[k]);
        assert all[k].pos < p < End(all[k]);
      }
    }
  }

  /** An operation in free space overlaps none of the others. */
  lemma FreeIsApart(size: nat, ops: seq<FixedOp>, used: Marks, o: FixedOp)
    requires Consistent(ops, used) && Free(used, o) && 0 <= o.pos < size
    ensures Placeable(size, ops + [o]) <==> Placeable(size, ops)
  {
    var all := ops + [o];
    assert all[|ops|] == o && forall k :: 0 <= k < |ops| ==> all[k] == ops[k];
    forall k | 0 <= k < |ops| ensures Apart(ops[k], o) {
      var p := Max(ops[k].pos, o.pos);
      assert At(used, p) == At(used, p);
    }
    assert Disjoint(all) ==> Disjoint(ops) by {
      if Disjoint(all) {
        forall j, k | 0 <= j < k < |ops| ensures Apart(ops[j], ops[k]) { assert Apart(all[j], all[k]); }
      }
    }
  }

  /** If the operations do not overlap, no mark of an operation is overwritten by another one. */
  lemma OperationIsMarked(ops: seq<FixedOp>, used: Marks, k: nat)
    requires Consistent(ops, used) && Disjoint(ops) && k < |ops|
    ensures At(used, ops[k].pos) == Instruction
  {
    var p := ops[k].pos;
    assert At(used, p) != Unused;
    forall j | 0 <= j < |ops| ensures !(ops[j].pos < p < End(ops[j])) {
      assert j < k ==> Apart(ops[j], ops[k]);
      assert k < j ==> Apart(ops[k], ops[j]);
    }
    assert !InData(ops, p);
  }

  /** The marks tell what the scan of the finished code will find. */
  lemma MarksAreJudged(code: seq<Byte>, ops: seq<FixedOp>, used: Marks, p: nat)
    requires AllPlaced(code, ops) && Consistent(ops, used) && p < |code|
    ensures At(used, p) == Instruction ==> IsCode(code, p)
    ensures At(used, p) == Data ==> !IsCode(code, p)
  {
    hide Consistent, Reaches;
    assert IsCode(code, p) == IsStart(code, p);
    if At(used, p) == Instruction {
      assert HasOp(ops, p) by { MarkIsBacked(ops, used, p); }
      var k :| 0 <= k < |ops| && ops[k].pos == p;
      assert PlacedAt(code, ops[k]);
    }
    if At(used, p) == Data {
      assert InData(ops, p) by { MarkIsBacked(ops, used, p); }
      var k :| 0 <= k < |ops| && ops[k].pos < p < End(ops[k]);
      assert PlacedAt(code, ops[k]);
      InstructionFootprint(code, ops[k].pos);
    }
  }

  lemma MarkIsBacked(ops: seq<FixedOp>, used: Marks, p: int)
    requires Consistent(ops, used)
    ensures At(used, p) == Instruction ==> HasOp(ops, p)
    ensures At(used, p) == Data ==> InData(ops, p)
  {}

  // ---------------------------------------------------------- progress of a solution

  ghost predicate BoundTo(size: nat, s: Layout, v: Variable, what: Used) {
    v in s.assignment && s.assignment[v] < size && At(s.used, s.assignment[v]) == what
  }

  ghost predicate BoundElsewhere(size: nat, s: Layout, v: Variable) {
    v in s.assignment && s.assignment[v] < size && At(s.used, s.assignment[v]) != Data
  }

  ghost predicate SomeElsewhere(size: nat, s: Layout, vars: seq<Variable>) {
    exists k :: 0 <= k < |vars| && BoundElsewhere(size, s, vars[k])
  }

  /** The variable points to a reserved copy of the operation. */
  ghost predicate Solved(size: nat, s: Layout, c: VarOp) {
    && BoundTo(size, s, c.variable, Instruction)
    && exists k :: 0 <= k < |s.ops| && s.ops[k] == FixedOp(s.assignment[c.variable], c.op)
  }

  /**
   * Nothing decided is revised: operations and marks are only added, what is added fits in, and
   * variables that point to an instruction stay.
   */
  ghost predicate Extends(size: nat, s: Layout, s': Layout) {
    && s.ops <= s'.ops
    && (Placeable(size, s'.ops) <==> Placeable(size, s.ops))
    && (forall p :: At(s.used, p) != Unused ==> At(s'.used, p) == At(s.used, p))
    && (forall v :: BoundTo(size, s, v, Instruction) ==> v in s'.assignment && s'.assignment[v] == s.assignment[v])
  }

  lemma ExtendsKeeps(size: nat, s: Layout, s': Layout)
    requires Extends(size, s, s')
    ensures forall v :: BoundTo(size, s, v, Instruction) ==> BoundTo(size, s', v, Instruction)
    ensures forall c :: Solved(size, s, c) ==> Solved(size, s', c)
  {
    hide Placeable;
    forall v | BoundTo(size, s, v, Instruction) ensures BoundTo(size, s', v, Instruction) {
      assert At(s.used, s.assignment[v]) != Unused;
    }
    forall c | Solved(size, s, c) ensures Solved(size, s', c) {
      var k :| 0 <= k < |s.ops| && s.ops[k] == FixedOp(s.assignment[c.variable], c.op);
      assert s'.ops[k] == s.ops[k];
    }
  }

  lemma ExtendsTransitive(size: nat, s: Layout, m: Layout, e: Layout)
    requires Extends(size, s, m) && Extends(size, m, e)
    ensures Extends(size, s, e)
  {
    ExtendsKeeps(size, s, m);
    hide Placeable, BoundTo;
    forall p | At(s.used, p) != Unused ensures At(e.used, p) == At(s.used, p) {
      assert At(m.used, p) == At(s.used, p);
    }
    forall v | BoundTo(size, s, v, Instruction) ensures v in e.assignment && e.assignment[v] == s.assignment[v] {
      assert BoundTo(size, m, v, Instruction);
    }
  }

  lemma Unchanged(size: nat, s: Layout)
    ensures Extends(size, s, s)
  {}

  /** Binding a variable that did not point to an instruction revises nothing, even after a placement. */
  lemma BindExtends(size: nat, s: Layout, m: Layout, v: Variable, pos: Word)
    requires Extends(size, s, m) && m.assignment == s.assignment && !BoundTo(size, s, v, Instruction)
    ensures Extends(size, s, m.(assignment := m.assignment[v := pos]))
  {
    hide Placeable;
  }

  /** Reserving free space revises nothing. */
  lemma PlaceExtends(size: nat, s: Layout, s': Layout, o: FixedOp)
    requires Consistent(s.ops, s.used) && Free(s.used, o) && 0 <= o.pos < size
    requires Marked(s.used, s'.used, o) && s'.ops == s.ops + [o] && s'.assignment == s.assignment
    ensures Extends(size, s, s') && Consistent(s'.ops, s'.used)
  {
    FreeIsApart(size, s.ops, s.used, o);
    MarkKeepsConsistent(s.ops, s.used, s'.used, o);
    hide Consistent, Placeable;
  }

  /** The assignments differ at most on the given variables. */
  ghost predicate DifferOnlyOn(a: Assignment, b: Assignment, vars: seq<Variable>) {
    forall v :: v !in vars ==> ((v in a <==> v in b) && (v in a ==> a[v] == b[v]))
  }

  function Variables(ops: seq<VarOp>): (vars: seq<Variable>)
    ensures |vars| == |ops| && forall k :: 0 <= k < |ops| ==> vars[k] == ops[k].variable
  {
    seq(|ops|, k requires 0 <= k < |ops| => ops[k].variable)
  }

  // ------------------------------------------------------------- cyclic searches

  /** The n-th position tried by a search that starts anywhere and wraps around at the end. */
  function Around(start: nat, n: nat, size: nat): (p: nat)
    requires start < size && n <= size
    ensures n < size ==> p < size
    ensures p == start <==> n == 0 || n == size
  {
    if start + n < size then start + n else start + n - size
  }

  function Distance(start: nat, p: nat, size: nat): (n: nat)
    requires start < size && p < size
    ensures n < size && Around(start, n, size) == p
  {
    if p >= start then p - start else p - start + size
  }

  /** Where the search for an instruction ends that has tried n positions. */
  ghost function CodeTarget(size: nat, used: Marks, start: nat, n: nat): Option<nat>
    requires start < size && n <= size
    decreases size - n
  {
    if n == size then None
    else
      var p := Around(start, n, size);
      if At(used, p) != Data then Some(p) else CodeTarget(size, used, start, n + 1)
  }

  lemma {:induction false} CodeTargetFound(size: nat, used: Marks, start: nat, n: nat)
    requires start < size && n <= size
    ensures var r := CodeTarget(size, used, start, n);
      && (r.Some? ==> r.value < size && At(used, r.value) != Data)
      && (r.None? ==> forall m :: n <= m < size ==> At(used, Around(start, m, size)) == Data)
    decreases size - n
  {
    if n < size { CodeTargetFound(size, used, start, n + 1); }
  }

  /** Where an isCode constraint leaves a variable that is bound to p, if the search starts at start. */
  ghost function IsCodeTarget(size: nat, used: Marks, p: nat, start: nat): Option<nat>
    requires start < size
  {
    if p < size && At(used, p) == Instruction then Some(p) else CodeTarget(size, used, start, 0)
  }

  ghost predicate OthersAreData(size: nat, used: Marks, p: nat) {
    forall q :: 0 <= q < size && q != p ==> At(used, q) == Data
  }

  /**
   * A variable bound to a position of the code is sure to stay there exactly if it points to an
   * instruction, or to the only position that is not data.
   */
  lemma IsCodeKeeps(size: nat, used: Marks, p: nat)
    requires p < size
    ensures (forall start: nat :: start < size ==> IsCodeTarget(size, used, p, start) == Some(p))
      <==> At(used, p) == Instruction || (At(used, p) == Unused && OthersAreData(size, used, p))
  {
    if At(used, p) != Instruction {
      if q :| 0 <= q < size && q != p && At(used, q) != Data {
        assert Around(q, 0, size) == q && IsCodeTarget(size, used, p, q) == Some(q);
      } else {
        forall start: nat | start < size
          ensures CodeTarget(size, used, start, 0) == if At(used, p) == Data then None else Some(p) {
          CodeTargetFound(size, used, start, 0);
          assert Around(start, Distance(start, p, size), size) == p;
        }
        assert IsCodeTarget(size, used, p, 0) == CodeTarget(size, used, 0, 0);
      }
    }
  }

  /** A variable bound to an unused position of otherwise empty code, and a start that moves it. */
  lemma IsCodeMoves()
    ensures IsCodeTarget(2, map[], 0, 1) == Some(1)
  {
    assert Around(1, 0, 2) == 1;
  }

  /** The positions an isData constraint may leave a variable at: data, or free space behind free space. */
  ghost predicate DataPlace(size: nat, used: Marks, q: int) {
    0 <= q < size && (At(used, q) == Data || (q >= 1 && At(used, q - 1) == At(used, q) == Unused))
  }

  /** rnd.Intn(n): any number below n, computed from an arbitrary one. */
  function Intn(random: nat, n: nat): (r: nat)
    requires n > 0
    ensures r < n && (random == 0 ==> r == 0)
  {
    random % n
  }

  /** The shortest push fits exactly where two positions are unused. */
  lemma PushFitsAt(size: nat, used: Marks, p: nat)
    ensures FitsAt(size, used, FixedOp(p, PUSH1)) <==> p + 1 < size && At(used, p) == At(used, p + 1) == Unused
  {
    assert End(FixedOp(p, PUSH1)) == p + 2;
    assert At(used, p) == Unused && At(used, p + 1) == Unused ==> Free(used, FixedOp(p, PUSH1));
  }

  lemma RunFits(size: nat, used: Marks, o: FixedOp, n: nat)
    requires Width(o.op) <= n && o.pos + n <= size && forall p :: o.pos <= p < o.pos + n ==> At(used, p) == Unused
    ensures FitsAt(size, used, o)
  {}

  /** No push with data can be added, and no data is there. */
  ghost predicate NoRoomForData(size: nat, used: Marks) {
    forall p :: 0 <= p < size ==> !DataPossible(size, used, p)
  }

  ghost predicate DataPossible(size: nat, used: Marks, p: nat) {
    At(used, p) == Data || FitsAt(size, used, FixedOp(p, PUSH1))
  }

  class VarCodeConstraintSolver {
    const codeSize: nat
    var ops: seq<FixedOp>
    var used: Marks
    var assignment: Assignment

    ghost predicate Valid()
      reads this
    {
      codeSize > 0 && codeSize < TWO_256 && Consistent(ops, used)
    }

    ghost function State(): Layout
      reads this
    {
      Layout(ops, used, assignment)
    }

    constructor (codeSize: nat, constOps: seq<FixedOp>, assignment: Assignment)
      requires 0 < codeSize < TWO_256
      ensures Valid() && this.codeSize == codeSize
      ensures ops == constOps && this.assignment == assignment
    {
      this.codeSize, ops, this.assignment, used := codeSize, constOps, assignment, map[];
      new;
      NothingMarked();
      hide Consistent;
      assert constOps[..0] == [];
      for k := 0 to |constOps|
        invariant ops == constOps && this.assignment == assignment && Consistent(constOps[..k], used)
      {
        ghost var before := used;
        MarkUsed(constOps[k].pos, constOps[k].op);
        MarkKeepsConsistent(constOps[..k], before, used, constOps[k]);
        assert constOps[..k + 1] == constOps[..k] + [constOps[k]];
      }
      assert constOps[..|constOps|] == constOps;
    }

    method MarkUsed(pos: int, op: Byte)
      modifies `used
      ensures Marked(old(used), used, FixedOp(pos, op))
    {
      used := used[pos := Instruction];
      for i := 1 to Width(op)
        invariant forall p :: At(used, p) == if p == pos then Instruction else if pos < p < pos + i then Data
          else At(old(used), p)
      {
        ghost var before := used;
        used := used[pos + i := Data];
        assert forall p :: At(used, p) == if p == pos + i then Data else At(before, p);
      }
    }

    method Fits(pos: int, op: Byte) returns (b: bool)
      ensures b <==> FitsAt(codeSize, used, FixedOp(pos, op))
    {
      if Width(op) > codeSize - pos {
        return false;
      }
      for i := 0 to Width(op)
        invariant forall p :: pos <= p < pos + i ==> At(used, p) == Unused
      {
        if At(used, pos + i) != Unused {
          return false;
        }
      }
      return true;
    }

    /** The number of unused positions from pos on, at most the width of the longest instruction. */
    method LargestFit(pos: nat) returns (n: nat)
      ensures n <= 33 && pos + n <= Max(pos, codeSize)
      ensures forall p :: pos <= p < pos + n ==> At(used, p) == Unused
      ensures n < 33 ==> pos + n >= codeSize || At(used, pos + n) != Unused
    {
      n := 0;
      while n < 33 && pos + n < codeSize
        invariant n <= 33 && pos + n <= Max(pos, codeSize)
        invariant forall p :: pos <= p < pos + n ==> At(used, p) == Unused
      {
        if At(used, pos + n) != Unused {
          break;
        }
        n := n + 1;
      }
    }

    /** Reserves free space for an operation. */
    method Place(o: FixedOp)
      requires Valid() && Free(used, o) && 0 <= o.pos < codeSize
      modifies `ops, `used
      ensures Valid() && ops == old(ops) + [o] && Marked(old(used), used, o)
      ensures Extends(codeSize, old(State()), State())
    {
      ghost var before := State();
      hide Consistent, Extends;
      MarkUsed(o.pos, o.op);
      ops := ops + [o];
      PlaceExtends(codeSize, before, State(), o);
    }

    /** Finds a place for an operation if and only if there is one. */
    method FindFit(op: Byte) returns (r: Option<nat>)
      requires Valid()
      ensures r.Some? ==> r.value < codeSize && FitsAt(codeSize, used, FixedOp(r.value, op))
      ensures r.None? ==> forall p :: 0 <= p < codeSize ==> !FitsAt(codeSize, used, FixedOp(p, op))
    {
      hide Consistent, FitsAt;
      var start: nat :| start < codeSize;
      var pos := start;
      ghost var n := 0;
      var fits := Fits(pos, op);
      while !fits
        invariant 0 <= n < codeSize && pos == Around(start, n, codeSize)
        invariant fits <==> FitsAt(codeSize, used, FixedOp(pos, op))
        invariant forall m :: 0 <= m < n ==> !FitsAt(codeSize, used, FixedOp(Around(start, m, codeSize), op))
        decreases codeSize - n
      {
        pos := pos + 1;
        if pos >= codeSize {
          pos := 0;
        }
        n := n + 1;
        if pos == start {
          forall p | 0 <= p < codeSize ensures !FitsAt(codeSize, used, FixedOp(p, op)) {
            assert Around(start, Distance(start, p, codeSize), codeSize) == p;
          }
          return None;
        }
        fits := Fits(pos, op);
      }
      return Some(pos);
    }

    /** Finds the first position from start on, wrapping around, that is not data. */
    method FindCode(start: nat) returns (r: Option<nat>)
      requires Valid() && start < codeSize
      ensures r == CodeTarget(codeSize, used, start, 0)
      ensures r.Some? ==> r.value < codeSize && At(used, r.value) != Data
      ensures r.None? ==> forall p :: 0 <= p < codeSize ==> At(used, p) == Data
    {
      hide Consistent;
      var pos := start;
      ghost var n := 0;
      while At(used, pos) == Data
        invariant 0 <= n < codeSize && pos == Around(start, n, codeSize)
        invariant CodeTarget(codeSize, used, start, 0) == CodeTarget(codeSize, used, start, n)
        decreases codeSize - n
      {
        pos := pos + 1;
        if pos >= codeSize {
          pos := 0;
        }
        n := n + 1;
        if pos == start {
          CodeTargetFound(codeSize, used, start, 0);
          forall p | 0 <= p < codeSize ensures At(used, p) == Data {
            assert Around(start, Distance(start, p, codeSize), codeSize) == p;
          }
          return None;
        }
      }
      return Some(pos);
    }

    /** Whether a position is data, or has room for a random push with some data. */
    method PushAt(pos: nat, push: nat) returns (r: Option<FixedOp>)
      requires pos < codeSize
      ensures r.Some? <==> DataPossible(codeSize, used, pos)
      ensures r.Some? ==> r.value.pos == pos && (push == 0 ==> r.value.op == PUSH1)
      ensures r.Some? && At(used, pos) != Data ==> IsPush(r.value.op) && FitsAt(codeSize, used, r.value)
    {
      hide Intn;
      PushFitsAt(codeSize, used, pos);
      hide FitsAt;
      if At(used, pos) == Data {
        return Some(FixedOp(pos, PUSH1));
      }
      if At(used, pos) == Unused {
        var largestFit := LargestFit(pos);
        if largestFit >= 2 {
          var o := FixedOp(pos, PUSH1 + Intn(push, largestFit - 1));
          RunFits(codeSize, used, o, largestFit);
          return Some(o);
        }
      }
      return None;
    }

    /** Finds data, or room for a push with some data, if and only if there is any. */
    method FindData(start: nat, push: nat) returns (r: Option<FixedOp>)
      requires Valid() && start < codeSize
      ensures r.Some? ==> 0 <= r.value.pos < codeSize && DataPossible(codeSize, used, r.value.pos)
      ensures r.Some? && At(used, r.value.pos) != Data ==> IsPush(r.value.op) && FitsAt(codeSize, used, r.value)
      ensures r.Some? && push == 0 ==> r.value.op == PUSH1
      ensures r.None? <==> NoRoomForData(codeSize, used)
      ensures DataPossible(codeSize, used, start) ==> r.Some? && r.value.pos == start
    {
      hide Consistent, NoRoomForData, DataPossible, FitsAt, At;
      var pos := start;
      ghost var n := 0;
      assert Around(start, 0, codeSize) == start;
      r := PushAt(pos, push);
      while r.None?
        invariant 0 <= n < codeSize && pos == Around(start, n, codeSize)
        invariant forall m :: 0 <= m < n ==> !DataPossible(codeSize, used, Around(start, m, codeSize))
        invariant r.Some? <==> DataPossible(codeSize, used, pos)
        invariant r.Some? ==> r.value.pos == pos && (push == 0 ==> r.value.op == PUSH1)
        invariant r.Some? && At(used, pos) != Data ==> IsPush(r.value.op) && FitsAt(codeSize, used, r.value)
        decreases codeSize - n
      {
        pos := pos + 1;
        if pos >= codeSize {
          pos := 0;
        }
        n := n + 1;
        if pos == start {
          NoRoomFound(codeSize, used, start);
          return None;
        }
        r := PushAt(pos, push);
      }
      RoomFound(codeSize, used, pos);
    }

    /** assign: binds a variable; start is a state in which it did not point to an instruction. */
    method Assign(v: Variable, pos: nat, ghost start: Layout)
      requires Valid() && pos < codeSize && !BoundTo(codeSize, start, v, Instruction)
      requires Extends(codeSize, start, State()) && start.assignment == assignment
      modifies `assignment
      ensures Valid() && assignment == old(assignment)[v := pos]
      ensures Extends(codeSize, start, State())
    {
      BindExtends(codeSize, start, State(), v, pos);
      hide *;
      assignment := assignment[v := pos];
    }

    /** Places an operation and lets an unbound variable point to it. */
    method PlaceVarOp(c: VarOp, pos: nat)
      requires Valid() && c.variable !in assignment && pos < codeSize && FitsAt(codeSize, used, FixedOp(pos, c.op))
      modifies this
      ensures Valid() && assignment == old(assignment)[c.variable := pos]
      ensures Extends(codeSize, old(State()), State()) && Solved(codeSize, State(), c)
    {
      ghost var start := State();
      hide Consistent, Extends, Placeable;
      Place(FixedOp(pos, c.op));
      Assign(c.variable, pos, start);
      assert ops[|ops| - 1] == FixedOp(pos, c.op);
    }

    /** Every variable is bound to a reserved copy of its operation. */
    method SolveVarOps(varOps: seq<VarOp>) returns (ok: bool)
      requires Valid() && forall k :: 0 <= k < |varOps| ==> varOps[k].variable !in assignment
      modifies this
      ensures Valid() && Extends(codeSize, old(State()), State())
      ensures ok ==> forall k :: 0 <= k < |varOps| ==> Solved(codeSize, State(), varOps[k])
      ensures |varOps| == 1 ==> (ok <==> CanFit(codeSize, old(used), varOps[0].op))
      ensures varOps == [] ==> ok && State() == old(State())
      ensures DifferOnlyOn(old(assignment), assignment, Variables(varOps))
    {
      ghost var start := State();
      Unchanged(codeSize, start);
      hide Consistent, Extends, Placeable, Solved, FitsAt;
      var bound: map<Variable, Byte> := map[];
      for k := 0 to |varOps|
        invariant Valid() && Extends(codeSize, start, State())
        invariant forall j :: 0 <= j < k ==> Solved(codeSize, State(), varOps[j])
        invariant forall v :: v in bound ==> Solved(codeSize, State(), VarOp(v, bound[v]))
        invariant forall v :: v in assignment ==> v in start.assignment || v in bound
        invariant k == 0 ==> State() == start && bound == map[]
        invariant |varOps| == 1 && k == 1 ==> CanFit(codeSize, start.used, varOps[0].op)
        invariant DifferOnlyOn(start.assignment, assignment, Variables(varOps))
      {
        var cur := varOps[k];
        if cur.variable in bound {
          if bound[cur.variable] != cur.op {
            return false;
          }
          assert cur == VarOp(cur.variable, bound[cur.variable]);
          continue;
        }
        var r := FindFit(cur.op);
        if r.None? {
          return false;
        }
        bound := bound[cur.variable := cur.op];
        ghost var before := State();
        PlaceVarOp(cur, r.value);
        ExtendsKeeps(codeSize, before, State());
        ExtendsTransitive(codeSize, start, before, State());
        assert Variables(varOps)[k] == cur.variable;
      }
      return true;
    }

    /** A position for one isCode constraint: an instruction, or a new one in unused space; start and op are random. */
    method SolveOneIsCode(v: Variable, start: nat, op: Byte) returns (ok: bool)
      requires Valid() && start < codeSize && !(PUSH0 <= op <= PUSH32) && !BoundTo(codeSize, State(), v, Instruction)
      modifies this
      ensures Valid() && Extends(codeSize, old(State()), State())
      ensures ok <==> CodeTarget(codeSize, old(used), start, 0).Some?
      ensures ok ==> BoundTo(codeSize, State(), v, Instruction) && assignment == old(assignment)[v := assignment[v]]
      ensures ok ==> CodeTarget(codeSize, old(used), start, 0) == Some(assignment[v])
      ensures !ok ==> assignment == old(assignment) && exists k :: 0 <= k < |ops| && ops[k].pos < 0
    {
      ghost var before := State();
      Unchanged(codeSize, before);
      hide Consistent, Extends, Placeable;
      var r := FindCode(start);
      if r.None? {
        MarkIsBacked(ops, used, 0);
        return false;
      }
      var pos := r.value;
      if At(used, pos) == Unused {
        Place(FixedOp(pos, op));
      }
      Assign(v, pos, before);
      return true;
    }

    /**
     * Every variable is bound to an instruction. With placeable operations this fails if and only if
     * a variable is already bound behind the code.
     */
    method SolveIsCode(vars: seq<Variable>) returns (ok: bool)
      requires Valid()
      modifies this
      ensures Valid() && Extends(codeSize, old(State()), State())
      ensures ok ==> forall k :: 0 <= k < |vars| ==> BoundTo(codeSize, State(), vars[k], Instruction)
      ensures Placeable(codeSize, old(ops)) ==>
        (ok <==> forall k :: 0 <= k < |vars| ==> vars[k] in old(assignment) ==> old(assignment)[vars[k]] < codeSize)
      ensures vars == [] ==> ok && State() == old(State())
      ensures DifferOnlyOn(old(assignment), assignment, vars)
    {
      ghost var start := State();
      Unchanged(codeSize, start);
      hide Consistent, Extends, Placeable;
      for k := 0 to |vars|
        invariant Valid() && Extends(codeSize, start, State())
        invariant k == 0 ==> State() == start
        invariant forall j :: 0 <= j < k ==> BoundTo(codeSize, State(), vars[j], Instruction)
        invariant forall v :: (v in assignment && assignment[v] >= codeSize) <==>
          (v in start.assignment && start.assignment[v] >= codeSize)
        invariant DifferOnlyOn(start.assignment, assignment, vars)
      {
        var cur := vars[k];
        if cur in assignment {
          if assignment[cur] >= codeSize {
            return false;
          }
          if At(used, assignment[cur]) == Instruction {
            continue;
          }
        }
        ghost var before := State();
        var first: nat :| first < codeSize;
        var op: Byte :| 0 <= op < 256;
        ok := SolveOneIsCode(cur, first, if PUSH0 <= op <= PUSH32 then STOP else op);
        ExtendsKeeps(codeSize, before, State());
        ExtendsTransitive(codeSize, start, before, State());
        if !ok {
          NegativeIsNotPlaceable(codeSize, start, State());
          return;
        }
      }
      return true;
    }

    /**
     * A position for one isData constraint: existing data, or the data of a new push. The variable
     * can end up exactly at the data places, depending on the three random numbers.
     */
    method SolveOneIsData(v: Variable, start: nat, push: nat, byte: nat) returns (ok: bool)
      requires Valid() && start < codeSize && !BoundTo(codeSize, State(), v, Instruction)
      modifies this
      ensures Valid() && Extends(codeSize, old(State()), State())
      ensures ok <==> !NoRoomForData(codeSize, old(used))
      ensures ok ==> BoundTo(codeSize, State(), v, Data) && assignment == old(assignment)[v := assignment[v]]
      ensures ok ==> DataPlace(codeSize, old(used), assignment[v])
      ensures At(old(used), start) == Data ==> ok && assignment[v] == start
      ensures push == byte == 0 && FitsAt(codeSize, old(used), FixedOp(start, PUSH1)) ==>
        ok && assignment[v] == start + 1
      ensures !ok ==> State() == old(State())
    {
      ghost var before := State();
      Unchanged(codeSize, before);
      hide Consistent, Extends, Placeable, NoRoomForData, Intn;
      var r := FindData(start, push);
      if r.None? {
        return false;
      }
      var pos := r.value.pos;
      if At(used, pos) != Data {
        Place(r.value);
        pos := pos + 1 + Intn(byte, r.value.op - PUSH1 + 1);
      }
      Assign(v, pos, before);
      return true;
    }

    method PointsToCode(v: Variable) returns (b: bool)
      ensures b <==> BoundTo(codeSize, State(), v, Instruction)
    {
      b := v in assignment && assignment[v] < codeSize && At(used, assignment[v]) == Instruction;
    }

    /** The same with random numbers of its own choice. */
    method SolveSomehow(v: Variable) returns (ok: bool)
      requires Valid() && !BoundTo(codeSize, State(), v, Instruction)
      modifies this
      ensures Valid() && Extends(codeSize, old(State()), State())
      ensures ok <==> !NoRoomForData(codeSize, old(used))
      ensures ok ==> BoundTo(codeSize, State(), v, Data) && assignment == old(assignment)[v := assignment[v]]
      ensures !ok ==> State() == old(State())
    {
      hide Consistent, Extends, NoRoomForData;
      var start: nat :| start < codeSize;
      var push: nat, byte: nat :| 0 <= push && 0 <= byte;
      ok := SolveOneIsData(v, start, push, byte);
    }

    /**
     * Every variable is bound to push data. It fails if there is no data and no room for it, or if a
     * variable is bound to a position that is not data.
     */
    method SolveIsData(vars: seq<Variable>) returns (ok: bool)
      requires Valid()
      modifies this
      ensures Valid() && Extends(codeSize, old(State()), State())
      ensures ok ==> forall k :: 0 <= k < |vars| ==> BoundTo(codeSize, State(), vars[k], Data)
      ensures ok && vars != [] ==> !NoRoomForData(codeSize, old(used))
      ensures vars == [] ==> ok
      ensures ok || NoRoomForData(codeSize, old(used)) || SomeElsewhere(codeSize, old(State()), vars)
      ensures DifferOnlyOn(old(assignment), assignment, vars)
    {
      ghost var start := State();
      Unchanged(codeSize, start);
      assert DataSolved(codeSize, start, start, vars, 0);
      hide Consistent, Placeable, NoRoomForData, Extends, DataSolved, DifferOnlyOn, SomeElsewhere, BoundTo, At;
      for k := 0 to |vars|
        invariant Valid() && Extends(codeSize, start, State()) && DataSolved(codeSize, start, State(), vars, k)
        invariant k == 0 ==> State() == start
        invariant k > 0 ==> !NoRoomForData(codeSize, start.used)
      {
        var cur := vars[k];
        DataSolvedMeans(codeSize, start, State(), vars, k);
        var onCode := PointsToCode(cur);
        if onCode {
          BoundElsewhereFromStart(codeSize, start, State(), vars, k);
          return false;
        }
        ghost var before := State();
        ok := SolveSomehow(cur);
        ExtendsTransitive(codeSize, start, before, State());
        if !ok {
          if k > 0 { DataIsThere(codeSize, start, before, vars, k); }
          return;
        }
        DataStep(codeSize, start, before, State(), vars, k);
      }
      DataSolvedMeans(codeSize, start, State(), vars, |vars|);
      return true;
    }
  }

  /** The first k variables point to data, and no other variable has moved. */
  ghost predicate DataSolved(size: nat, start: Layout, s: Layout, vars: seq<Variable>, k: nat)
    requires k <= |vars|
  {
    && (forall j :: 0 <= j < k ==> BoundTo(size, s, vars[j], Data))
    && (forall v :: v in s.assignment ==>
        (v in start.assignment && s.assignment[v] == start.assignment[v]) || BoundTo(size, s, v, Data))
    && DifferOnlyOn(start.assignment, s.assignment, vars)
  }

  lemma DataSolvedMeans(size: nat, start: Layout, s: Layout, vars: seq<Variable>, k: nat)
    requires k <= |vars| && DataSolved(size, start, s, vars, k)
    ensures forall j :: 0 <= j < k ==> BoundTo(size, s, vars[j], Data)
    ensures DifferOnlyOn(start.assignment, s.assignment, vars)
  {}

  lemma DataStep(size: nat, start: Layout, before: Layout, after: Layout, vars: seq<Variable>, k: nat)
    requires k < |vars| && DataSolved(size, start, before, vars, k) && Extends(size, before, after)
    requires BoundTo(size, after, vars[k], Data)
    requires after.assignment == before.assignment[vars[k] := after.assignment[vars[k]]]
    ensures DataSolved(size, start, after, vars, k + 1)
  {
    hide Placeable;
    forall v | BoundTo(size, before, v, Data) && v != vars[k] ensures BoundTo(size, after, v, Data) {
      assert At(before.used, before.assignment[v]) != Unused;
    }
  }

  lemma DataIsThere(size: nat, start: Layout, s: Layout, vars: seq<Variable>, k: nat)
    requires 0 < k <= |vars| && DataSolved(size, start, s, vars, k)
    ensures !NoRoomForData(size, s.used)
  {
    assert BoundTo(size, s, vars[0], Data);
    RoomFound(size, s.used, s.assignment[vars[0]]);
  }

  lemma BoundElsewhereFromStart(size: nat, start: Layout, s: Layout, vars: seq<Variable>, k: nat)
    requires k < |vars| && DataSolved(size, start, s, vars, k) && Extends(size, start, s)
    requires BoundTo(size, s, vars[k], Instruction)
    ensures SomeElsewhere(size, start, vars)
  {
    hide Placeable;
    assert !BoundTo(size, s, vars[k], Data);
    assert At(start.used, start.assignment[vars[k]]) != Unused ==>
      At(s.used, s.assignment[vars[k]]) == At(start.used, start.assignment[vars[k]]);
    assert BoundElsewhere(size, start, vars[k]);
  }

  /** In empty code there is room for data from two bytes on. */
  lemma EmptyRoom(size: nat, used: Marks)
    requires forall p :: At(used, p) == Unused
    ensures NoRoomForData(size, used) <==> size < 2
  {
    if size >= 2 {
      PushFitsAt(size, used, 0);
      RoomFound(size, used, 0);
    } else {
      forall p: nat | p < size ensures !DataPossible(size, used, p) { PushFitsAt(size, used, p); }
    }
  }

  lemma RoomFound(size: nat, used: Marks, p: nat)
    requires p < size && DataPossible(size, used, p)
    ensures !NoRoomForData(size, used)
  {}

  lemma NoRoomFound(size: nat, used: Marks, start: nat)
    requires start < size && forall m :: 0 <= m < size ==> !DataPossible(size, used, Around(start, m, size))
    ensures NoRoomForData(size, used)
  {
    forall p | 0 <= p < size ensures !DataPossible(size, used, p) {
      assert Around(start, Distance(start, p, size), size) == p;
    }
  }

  lemma NegativeIsNotPlaceable(size: nat, s: Layout, s': Layout)
    requires Extends(size, s, s') && exists k :: 0 <= k < |s'.ops| && s'.ops[k].pos < 0
    ensures !Placeable(size, s.ops)
  {}
}
