/**
 * The build loop of CodeGenerator.Generate in go/ct/gen/code.go: fixed operations are placed and
 * the gaps are filled with random code. Random values are arbitrary choices.
 */
module CodeBuilder {
  import opened Evm
  import opened CodeScan

  /** constOpConstraint: an operation fixed at a position. */
  datatype FixedOp = FixedOp(pos: int, op: Byte)

  function End(o: FixedOp): int { o.pos + Width(o.op) }

  predicate InRange(size: nat, ops: seq<FixedOp>) { forall k :: 0 <= k < |ops| ==> 0 <= ops[k].pos < size }

  predicate Apart(a: FixedOp, b: FixedOp) { End(a) <= b.pos || End(b) <= a.pos }

  predicate Disjoint(ops: seq<FixedOp>) { forall j, k :: 0 <= j < k < |ops| ==> Apart(ops[j], ops[k]) }

  /** All operations start in the code, and none of them in the footprint of another one. */
  predicate Placeable(size: nat, ops: seq<FixedOp>) { InRange(size, ops) && Disjoint(ops) }

  /** The position holds the operation, as an instruction. */
  predicate PlacedAt(code: seq<Byte>, o: FixedOp) { 0 <= o.pos < |code| && code[o.pos] == o.op && IsStart(code, o.pos) }

  predicate AllPlaced(code: seq<Byte>, ops: seq<FixedOp>) { forall k :: 0 <= k < |ops| ==> PlacedAt(code, ops[k]) }

  /** Placed is what the code representation of the conformance tests reports back. */
  lemma PlacedIsReported(code: seq<Byte>, o: FixedOp)
    ensures PlacedAt(code, o) <==> 0 <= o.pos < |code| && GetOperation(code, o.pos) == Some(o.op)
  {}

  /** Two operations can only be placed together if their footprints are disjoint. */
  lemma PlacedAreApart(code: seq<Byte>, a: FixedOp, b: FixedOp)
    requires PlacedAt(code, a) && PlacedAt(code, b) && a.pos != b.pos
    ensures Apart(a, b)
  {
    InstructionFootprint(code, a.pos);
    InstructionFootprint(code, b.pos);
  }

  // -------------------------------------------------------------------- sorting

  predicate Sorted(ops: seq<FixedOp>) { forall j, k :: 0 <= j < k < |ops| ==> ops[j].pos <= ops[k].pos }

  function Swap(ops: seq<FixedOp>, i: nat): (r: seq<FixedOp>)
    requires i + 1 < |ops|
    ensures |r| == |ops|
    ensures forall k :: 0 <= k < |ops| ==> r[k] == if k == i then ops[i + 1] else if k == i + 1 then ops[i] else ops[k]
  {
    ops[i := ops[i + 1]][i + 1 := ops[i]]
  }

  lemma SwapKeepsMembers(ops: seq<FixedOp>, i: nat)
    requires i + 1 < |ops|
    ensures multiset(Swap(ops, i)) == multiset(ops)
  {}

  lemma SwapKeepsDisjoint(ops: seq<FixedOp>, i: nat)
    requires i + 1 < |ops| && Disjoint(ops)
    ensures Disjoint(Swap(ops, i))
  {
    var r := Swap(ops, i);
    hide Swap, End;
    forall j, k | 0 <= j < k < |r| ensures Apart(r[j], r[k]) {
      var a := if j == i then i + 1 else if j == i + 1 then i else j;
      var b := if k == i then i + 1 else if k == i + 1 then i else k;
      assert r[j] == ops[a] && r[k] == ops[b];
    }
  }

  lemma SwapKeepsPlaceable(size: nat, ops: seq<FixedOp>, i: nat)
    requires i + 1 < |ops|
    ensures Placeable(size, Swap(ops, i)) <==> Placeable(size, ops)
  {
    hide Disjoint;
    var r := Swap(ops, i);
    assert Swap(r, i) == ops;
    assert Disjoint(ops) ==> Disjoint(r) by { if Disjoint(ops) { SwapKeepsDisjoint(ops, i); } }
    assert Disjoint(r) ==> Disjoint(ops) by { if Disjoint(r) { SwapKeepsDisjoint(r, i); } }
    assert InRange(size, r) <==> InRange(size, ops) by {
      assert ops[i] == r[i + 1] && ops[i + 1] == r[i];
    }
  }

  /** The same constraints in another order, and just as placeable. */
  predicate Reordered(size: nat, a: seq<FixedOp>, b: seq<FixedOp>) {
    |a| == |b| && multiset(a) == multiset(b) && (Placeable(size, a) <==> Placeable(size, b))
  }

  lemma SwapReorders(size: nat, a: seq<FixedOp>, b: seq<FixedOp>, i: nat)
    requires |a| == |b| && Reordered(size, a, b) && i + 1 < |b|
    ensures Reordered(size, a, Swap(b, i))
  {
    SwapKeepsMembers(b, i);
    SwapKeepsPlaceable(size, b, i);
  }

  /** The first n + 1 operations are sorted, but for the one at i being too far back. */
  predicate SortedBut(ops: seq<FixedOp>, n: nat, i: nat) {
    i <= n < |ops| && forall j, k :: 0 <= j < k <= n && k != i ==> ops[j].pos <= ops[k].pos
  }

  lemma SortStep(ops: seq<FixedOp>, n: nat, i: nat)
    requires SortedBut(ops, n, i)
    ensures i > 0 && ops[i - 1].pos > ops[i].pos ==> SortedBut(Swap(ops, i - 1), n, i - 1)
    ensures i == 0 || ops[i - 1].pos <= ops[i].pos ==> Sorted(ops[..n + 1])
  {}

  lemma SortNext(ops: seq<FixedOp>, n: nat)
    requires n < |ops| && Sorted(ops[..n])
    ensures SortedBut(ops, n, n)
  {
    assert forall j :: 0 <= j < n ==> ops[j] == ops[..n][j];
  }

  /** Moves the operation at n to its place among the sorted ones before it. */
  method SortInto(size: nat, ops: seq<FixedOp>, before: seq<FixedOp>, n: nat) returns (sorted: seq<FixedOp>)
    requires n < |before| == |ops| && Sorted(before[..n]) && Reordered(size, ops, before)
    ensures |sorted| == |ops| && Sorted(sorted[..n + 1]) && Reordered(size, ops, sorted)
  {
    hide *;
    sorted := before;
    var i := n;
    SortNext(sorted, n);
    while i > 0 && sorted[i - 1].pos > sorted[i].pos
      invariant 0 <= i <= n && |sorted| == |ops|
      invariant SortedBut(sorted, n, i) && Reordered(size, ops, sorted)
    {
      SortStep(sorted, n, i);
      SwapReorders(size, ops, sorted, i - 1);
      sorted := Swap(sorted, i - 1);
      i := i - 1;
    }
    SortStep(sorted, n, i);
  }

  /** sort.Slice by position, here as an insertion sort: a sorted permutation. */
  method SortOps(size: nat, ops: seq<FixedOp>) returns (sorted: seq<FixedOp>)
    ensures Sorted(sorted) && Reordered(size, ops, sorted)
  {
    sorted := ops;
    assert Reordered(size, ops, sorted) && Sorted(sorted[..0]);
    hide *;
    for n := 0 to |ops|
      invariant |sorted| == |ops| && Sorted(sorted[..n]) && Reordered(size, ops, sorted)
    {
      sorted := SortInto(size, ops, sorted, n);
    }
    assert sorted[..|ops|] == sorted;
  }

  // ----------------------------------------------------------------- building

  /** Writing at or behind position i keeps all instruction starts up to i. */
  lemma StartsKept(before: seq<Byte>, after: seq<Byte>, i: nat)
    requires |before| == |after| && i <= |before| && before[..i] == after[..i]
    ensures forall p: nat :: p <= i ==> IsStart(before, p) == IsStart(after, p)
  {
    forall p: nat | p <= i ensures IsStart(before, p) == IsStart(after, p) {
      assert before[..p] == before[..i][..p] == after[..i][..p] == after[..p];
      ReachesDependsOnPrefix(before, after, 0, p);
    }
  }

  lemma PlacedKept(before: seq<Byte>, after: seq<Byte>, i: nat, ops: seq<FixedOp>)
    requires |before| == |after| && i <= |before| && before[..i] == after[..i]
    requires AllPlaced(before, ops) && forall k :: 0 <= k < |ops| ==> ops[k].pos < i
    ensures AllPlaced(after, ops)
  {
    StartsKept(before, after, i);
    forall k | 0 <= k < |ops| ensures PlacedAt(after, ops[k]) {
      assert PlacedAt(before, ops[k]) && before[..i][ops[k].pos] == after[..i][ops[k].pos];
    }
  }

  method FillRandomly(code: array<Byte>, from: nat, to: nat)
    requires from <= to <= code.Length
    modifies code
    ensures forall p :: 0 <= p < code.Length && !(from <= p < to) ==> code[p] == old(code[p])
  {
    for p := from to to
      invariant forall q :: 0 <= q < code.Length && !(from <= q < to) ==> code[q] == old(code[q])
    {
      var b: Byte :| 0 <= b < 256;
      code[p] := b;
    }
  }

  /** A random operation whose data does not overshoot the next fixed position. */
  method PickOperation(gap: nat) returns (op: Byte)
    requires gap >= 1
    ensures Width(op) <= gap
  {
    var limit: Byte := PUSH32;
    var maxDataSize := gap - 1;
    if maxDataSize < 32 {
      limit := PUSH1 + maxDataSize - 1;
    }
    op :| 0 <= op < 256;
    if limit < op <= PUSH32 {
      op := limit;
    }
  }

  /** The operations processed so far occupy the code up to i, without overlap. */
  predicate Packed(ops: seq<FixedOp>, k: nat, i: nat)
    requires k <= |ops|
  {
    && (forall j :: 0 <= j < k ==> 0 <= ops[j].pos && End(ops[j]) <= i)
    && (forall j, j' :: 0 <= j < j' < k ==> End(ops[j]) <= ops[j'].pos)
  }

  lemma PackedStep(ops: seq<FixedOp>, k: nat, i: nat)
    requires k < |ops| && Packed(ops, k, i) && ops[k].pos == i
    ensures Packed(ops, k + 1, End(ops[k]))
  {}

  lemma PackedLater(ops: seq<FixedOp>, k: nat, i: nat, i': nat)
    requires k <= |ops| && Packed(ops, k, i) && i <= i'
    ensures Packed(ops, k, i')
  {}

  lemma NothingPlaced(code: seq<Byte>, ops: seq<FixedOp>)
    ensures AllPlaced(code, ops[..0]) && IsStart(code, 0)
  {}

  lemma PackedIsPlaceable(size: nat, ops: seq<FixedOp>, i: nat)
    requires Sorted(ops) && Packed(ops, |ops|, i) && (ops == [] || ops[|ops| - 1].pos < size)
    ensures Placeable(size, ops)
  {}

  /** What placing the next operation at i leaves behind, whatever the bytes at and behind i were. */
  lemma PlacedStep(before: seq<Byte>, after: seq<Byte>, i: nat, ops: seq<FixedOp>, k: nat)
    requires |before| == |after| && i < |before| && before[..i] == after[..i] && IsStart(before, i)
    requires k <= |ops| && Packed(ops, k, i) && AllPlaced(before, ops[..k])
    ensures IsStart(after, i + Width(after[i]))
    ensures AllPlaced(after, ops[..k])
    ensures k < |ops| && ops[k] == FixedOp(i, after[i]) ==> AllPlaced(after, ops[..k + 1])
  {
    StartsKept(before, after, i);
    InstructionFootprint(after, i);
    assert forall j :: 0 <= j < k ==> ops[..k][j] == ops[j];
    PlacedKept(before, after, i, ops[..k]);
    if k < |ops| && ops[k] == FixedOp(i, after[i]) {
      assert ops[..k + 1] == ops[..k] + [ops[k]];
    }
  }

  /** No room is left for the next operation: the loop may give up. */
  lemma NextIsBehind(size: nat, ops: seq<FixedOp>, k: nat)
    requires k < |ops| && Sorted(ops)
    ensures Placeable(size, ops) ==>
      ops[k].pos < size && (k > 0 ==> ops[k - 1].pos + Width(ops[k - 1].op) <= ops[k].pos) && ops[k].pos >= 0
  {
    assert k > 0 && Disjoint(ops) ==> Apart(ops[k - 1], ops[k]);
  }

  /** The state of the build loop: k operations are placed, and the scan has come to i. */
  ghost predicate Built(code: seq<Byte>, ops: seq<FixedOp>, k: nat, i: nat)
    requires k <= |ops|
  {
    IsStart(code, i) && Packed(ops, k, i) && AllPlaced(code, ops[..k])
  }

  lemma NothingBuilt(code: seq<Byte>, ops: seq<FixedOp>)
    ensures Built(code, ops, 0, 0)
  {
    NothingPlaced(code, ops);
  }

  lemma BuiltStep(before: seq<Byte>, after: seq<Byte>, ops: seq<FixedOp>, k: nat, i: nat)
    requires k <= |ops| && Built(before, ops, k, i)
    requires |before| == |after| && i < |before| && before[..i] == after[..i]
    ensures Built(after, ops, k, i + Width(after[i]))
    ensures k < |ops| && ops[k] == FixedOp(i, after[i]) ==> Built(after, ops, k + 1, i + Width(after[i]))
  {
    PlacedStep(before, after, i, ops, k);
    PackedLater(ops, k, i, i + Width(after[i]));
    if k < |ops| && ops[k] == FixedOp(i, after[i]) { PackedStep(ops, k, i); }
  }

  lemma BuiltAll(code: seq<Byte>, ops: seq<FixedOp>, i: nat)
    requires Built(code, ops, |ops|, i) && Sorted(ops) && (ops == [] || ops[|ops| - 1].pos < |code|)
    ensures Placeable(|code|, ops) && AllPlaced(code, ops)
  {
    PackedIsPlaceable(|code|, ops, i);
    assert ops[..|ops|] == ops;
  }

  /** Writes one instruction at i and random data behind it, to the end of the code for the last one. */
  method Emit(code: array<Byte>, i: nat, op: Byte, last: bool, ghost ops: seq<FixedOp>, ghost k: nat)
    requires i < code.Length && k <= |ops| && Built(code[..], ops, k, i)
    modifies code
    ensures Built(code[..], ops, k, i + Width(op))
    ensures k < |ops| && ops[k] == FixedOp(i, op) ==> Built(code[..], ops, k + 1, i + Width(op))
  {
    ghost var before := code[..];
    hide Built;
    code[i] := op;
    if last {
      FillRandomly(code, i + 1, code.Length);
    } else if IsPush(op) {
      FillRandomly(code, i + 1, Min(i + 1 + (op - PUSH1 + 1), code.Length));
    }
    assert code[..][..i] == before[..i];
    BuiltStep(before, code[..], ops, k, i);
  }

  /** One round of the build loop: the operation fixed at i, or a random one that does not overshoot the next. */
  method BuildNext(code: array<Byte>, ops: seq<FixedOp>, i: nat, k: nat) returns (i': nat, k': nat)
    requires Sorted(ops) && k < |ops| && i < code.Length && i <= ops[k].pos && Built(code[..], ops, k, i)
    modifies code
    ensures i < i' && k' <= |ops| && Built(code[..], ops, k', i')
    ensures Placeable(code.Length, ops) && k' < |ops| ==> i' <= ops[k'].pos < code.Length
  {
    NextIsBehind(code.Length, ops, k);
    if k + 1 < |ops| { NextIsBehind(code.Length, ops, k + 1); }
    hide Placeable, Built, Sorted, Width;
    var next := ops[k].pos;
    if i == next {
      var op := ops[k].op;
      Emit(code, i, op, k + 1 == |ops|, ops, k);
      return i + Width(op), k + 1;
    }
    var op := PickOperation(next - i);
    Emit(code, i, op, false, ops, k);
    return i + Width(op), k;
  }

  /**
   * The loop over the sorted operations. It succeeds exactly when the operations can be placed at
   * all: neither the random operations nor their data ever run into the next fixed position.
   */
  method BuildSorted(size: nat, ops: seq<FixedOp>) returns (r: Option<seq<Byte>>)
    requires Sorted(ops) && ops != []
    ensures r.Some? <==> Placeable(size, ops)
    ensures r.Some? ==> |r.value| == size && AllPlaced(r.value, ops)
  {
    NextIsBehind(size, ops, |ops| - 1);
    NextIsBehind(size, ops, 0);
    hide Placeable, AllPlaced, Built, Sorted, Width;
    if ops[|ops| - 1].pos >= size {
      return None;
    }
    var code := new Byte[size](_ => 0);
    NothingBuilt(code[..], ops);
    var i: nat, k: nat := 0, 0;
    while i < size
      invariant k < |ops| && Built(code[..], ops, k, i)
      invariant Placeable(size, ops) ==> i <= ops[k].pos < size
      decreases size - i
    {
      if ops[k].pos < i {
        return None;
      }
      i, k := BuildNext(code, ops, i, k);
      if k == |ops| {
        BuiltAll(code[..], ops, i);
        return Some(code[..]);
      }
    }
    r := None;
  }

  /** The code of a generator whose variables are solved; without constraints any code will do. */
  method Build(size: nat, ops: seq<FixedOp>) returns (r: Option<seq<Byte>>)
    ensures r.Some? <==> Placeable(size, ops)
    ensures r.Some? ==> |r.value| == size && AllPlaced(r.value, ops)
  {
    if ops == [] {
      var code := new Byte[size](_ => 0);
      FillRandomly(code, 0, size);
      return Some(code[..]);
    }
    var sorted := SortOps(size, ops);
    r := BuildSorted(size, sorted);
    if r.Some? { PlacedReordered(r.value, sorted, ops); }
  }

  lemma PlacedReordered(code: seq<Byte>, a: seq<FixedOp>, b: seq<FixedOp>)
    requires AllPlaced(code, a) && multiset(a) == multiset(b)
    ensures AllPlaced(code, b)
  {
    forall k | 0 <= k < |b| ensures PlacedAt(code, b[k]) {
      assert b[k] in multiset(b) && b[k] in multiset(a);
    }
  }

  /**
   * Operations at different positions for which any satisfying code exists at all can be placed, so
   * the build fails only for unsatisfiable constraints and for two constraints on one position.
   */
  lemma BuildIsComplete(code: seq<Byte>, ops: seq<FixedOp>)
    requires AllPlaced(code, ops) && forall j, k :: 0 <= j < k < |ops| ==> ops[j].pos != ops[k].pos
    ensures Placeable(|code|, ops)
  {
    forall j, k | 0 <= j < k < |ops| ensures Apart(ops[j], ops[k]) { PlacedAreApart(code, ops[j], ops[k]); }
  }
}
