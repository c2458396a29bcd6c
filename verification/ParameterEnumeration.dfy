/** enumerateParameters in go/ct/rlz/rules.go: all combinations of sample values on top of the stack. */
module ParameterEnumeration {
  import opened Evm

  type Stack = seq<Word>

  /** One parameter: the values to be sampled for it. */
  type Samples = seq<Word>

  // ------------------------------------------------------------- specification

  /** The values a parameter takes, in order: the generated one first. */
  function Choices(stack: Stack, pos: nat, samples: Samples): seq<Word>
    requires pos < |stack|
  {
    [stack[pos]] + samples
  }

  /** All combinations, the first position varying slowest. */
  function Product(stack: Stack, pos: nat, params: seq<Samples>): seq<Stack>
    decreases |params|, 0, 0
  {
    if params == [] || pos >= |stack| then [stack]
    else ProductOver(stack, pos, Choices(stack, pos, params[0]), params[1..])
  }

  function ProductOver(stack: Stack, pos: nat, values: seq<Word>, rest: seq<Samples>): seq<Stack>
    requires pos < |stack|
    decreases |rest|, 1, |values|
  {
    if values == [] then []
    else Product(stack[pos := values[0]], pos + 1, rest) + ProductOver(stack, pos, values[1..], rest)
  }

  /** The number of combinations: the product of (samples + 1) over the positions the stack has. */
  function Count(depth: nat, pos: nat, params: seq<Samples>): (n: nat)
    ensures n >= 1
    decreases |params|
  {
    if params == [] || pos >= depth then 1
    else
      var inner := Count(depth, pos + 1, params[1..]);
      assert (|params[0]| + 1) * inner >= inner;
      (|params[0]| + 1) * inner
  }

  /** The j-th combination in closed form: the digits of j in the mixed radix of the sample counts. */
  function Combination(stack: Stack, pos: nat, params: seq<Samples>, j: nat): Stack
    requires j < Count(|stack|, pos, params)
    decreases |params|
  {
    if params == [] || pos >= |stack| then stack
    else
      var inner := Count(|stack|, pos + 1, params[1..]);
      DigitBound(j, inner, |params[0]| + 1);
      Combination(stack[pos := Choices(stack, pos, params[0])[Digit(j, inner)]], pos + 1, params[1..], Below(j, inner))
  }

  /** The leading digit of j, and the number formed by the others. */
  function Digit(j: nat, inner: nat): nat
    requires inner >= 1
  {
    j / inner
  }

  function Below(j: nat, inner: nat): (r: nat)
    requires inner >= 1
    ensures r < inner
  {
    j % inner
  }

  lemma DigitsDetermine(j: nat, inner: nat)
    requires inner >= 1
    ensures j == Digit(j, inner) * inner + Below(j, inner)
  {}

  lemma DivisionUnique(j: int, n: int, q: int, r: int)
    requires n >= 1 && j == q * n + r && 0 <= r < n
    ensures j / n == q && j % n == r
  {
    var d := j / n - q;
    assert d * n == r - j % n;
    assert d >= 1 ==> d * n >= n;
    assert d <= -1 ==> d * n <= -n;
  }

  lemma DigitBound(j: nat, inner: nat, n: nat)
    requires inner >= 1 && j < n * inner
    ensures Digit(j, inner) < n
  {
    var q := j / inner;
    assert j == q * inner + j % inner;
    assert q >= n ==> q * inner >= n * inner;
  }

  lemma DigitStep(j: nat, inner: nat)
    requires inner >= 1 && j >= inner
    ensures Digit(j, inner) == Digit(j - inner, inner) + 1 && Below(j, inner) == Below(j - inner, inner)
  {
    var q, r := (j - inner) / inner, (j - inner) % inner;
    assert j == q * inner + r + inner == (q + 1) * inner + r;
    DivisionUnique(j, inner, q + 1, r);
  }

  lemma DigitZero(j: nat, inner: nat)
    requires j < inner
    ensures Digit(j, inner) == 0 && Below(j, inner) == j
  {
    DivisionUnique(j, inner, 0, j);
  }

  /** There are as many combinations as counted. */
  lemma {:induction false} ProductSize(stack: Stack, pos: nat, params: seq<Samples>)
    ensures |Product(stack, pos, params)| == Count(|stack|, pos, params)
    decreases |params|, 0, 0
  {
    if params != [] && pos < |stack| { ProductOverSize(stack, pos, Choices(stack, pos, params[0]), params[1..]); }
  }

  lemma {:induction false} ProductOverSize(stack: Stack, pos: nat, values: seq<Word>, rest: seq<Samples>)
    requires pos < |stack|
    ensures |ProductOver(stack, pos, values, rest)| == |values| * Count(|stack|, pos + 1, rest)
    decreases |rest|, 1, |values|
  {
    if values != [] {
      ProductSize(stack[pos := values[0]], pos + 1, rest);
      ProductOverSize(stack, pos, values[1..], rest);
      var n := Count(|stack|, pos + 1, rest);
      assert n + (|values| - 1) * n == |values| * n;
    }
  }

  /** The j-th state handed over is the j-th combination. */
  lemma {:induction false} ProductAt(stack: Stack, pos: nat, params: seq<Samples>, j: nat)
    requires j < Count(|stack|, pos, params)
    ensures |Product(stack, pos, params)| == Count(|stack|, pos, params)
    ensures Product(stack, pos, params)[j] == Combination(stack, pos, params, j)
    decreases |params|, 0, 0
  {
    ProductSize(stack, pos, params);
    if params != [] && pos < |stack| {
      var inner := Count(|stack|, pos + 1, params[1..]);
      DigitBound(j, inner, |params[0]| + 1);
      ProductOverAt(stack, pos, Choices(stack, pos, params[0]), params[1..], j);
    }
  }

  /** The first of several values: its combinations, then those of the other values. */
  lemma ProductOverSplit(stack: Stack, pos: nat, values: seq<Word>, rest: seq<Samples>, j: nat)
    requires pos < |stack| && values != [] && j < |ProductOver(stack, pos, values, rest)|
    ensures var part, tail := Product(stack[pos := values[0]], pos + 1, rest),
      ProductOver(stack, pos, values[1..], rest);
      && |ProductOver(stack, pos, values, rest)| == |part| + |tail|
      && ProductOver(stack, pos, values, rest)[j] == if j < |part| then part[j] else tail[j - |part|]
  {}

  lemma {:induction false} ProductOverAt(stack: Stack, pos: nat, values: seq<Word>, rest: seq<Samples>, j: nat)
    requires pos < |stack| && j < |values| * Count(|stack|, pos + 1, rest)
    ensures var inner := Count(|stack|, pos + 1, rest);
      && Digit(j, inner) < |values| && Below(j, inner) < inner && j < |ProductOver(stack, pos, values, rest)|
      && ProductOver(stack, pos, values, rest)[j]
        == Combination(stack[pos := values[Digit(j, inner)]], pos + 1, rest, Below(j, inner))
    decreases |rest|, 1, |values|
  {
    hide Product, ProductOver, Count, Combination, Digit, Below;
    var inner := Count(|stack|, pos + 1, rest);
    DigitBound(j, inner, |values|);
    ProductOverSize(stack, pos, values, rest);
    ProductOverSplit(stack, pos, values, rest, j);
    var first := stack[pos := values[0]];
    ProductSize(first, pos + 1, rest);
    if j < inner {
      DigitZero(j, inner);
      ProductAt(first, pos + 1, rest, j);
    } else {
      DigitStep(j, inner);
      OneLess(j, |values|, inner);
      ProductOverAt(stack, pos, values[1..], rest, j - inner);
    }
  }

  lemma OneLess(j: nat, n: nat, inner: nat)
    requires inner <= j < n * inner
    ensures n >= 1 && j - inner < (n - 1) * inner
  {
    assert n * inner == (n - 1) * inner + inner;
  }

  /** Positions before the first parameter, and those behind the last, keep their value. */
  lemma {:induction false} CombinationFrame(stack: Stack, pos: nat, params: seq<Samples>, j: nat)
    requires j < Count(|stack|, pos, params)
    ensures var c := Combination(stack, pos, params, j);
      |c| == |stack| && forall p :: 0 <= p < |stack| && (p < pos || pos + |params| <= p) ==> c[p] == stack[p]
    decreases |params|
  {
    if params != [] && pos < |stack| {
      var inner := Count(|stack|, pos + 1, params[1..]);
      DigitBound(j, inner, |params[0]| + 1);
      CombinationFrame(stack[pos := Choices(stack, pos, params[0])[Digit(j, inner)]], pos + 1, params[1..],
                       Below(j, inner));
    }
  }

  predicate NoDuplicates(values: seq<Word>) { forall i, k :: 0 <= i < k < |values| ==> values[i] != values[k] }

  /** No sample repeats, and none equals the value generated for its position. */
  predicate FreshSamples(stack: Stack, pos: nat, params: seq<Samples>) {
    forall k :: 0 <= k < |params| && pos + k < |stack| ==> NoDuplicates(Choices(stack, pos + k, params[k]))
  }

  /** With fresh samples no combination is handed over twice. */
  lemma {:induction false} CombinationsDiffer(stack: Stack, pos: nat, params: seq<Samples>, i: nat, j: nat)
    requires i < j < Count(|stack|, pos, params) && FreshSamples(stack, pos, params)
    ensures Combination(stack, pos, params, i) != Combination(stack, pos, params, j)
    decreases |params|
  {
    var inner, rest := Count(|stack|, pos + 1, params[1..]), params[1..];
    var choices := Choices(stack, pos, params[0]);
    DigitBound(i, inner, |params[0]| + 1);
    DigitBound(j, inner, |params[0]| + 1);
    var a, b := stack[pos := choices[Digit(i, inner)]], stack[pos := choices[Digit(j, inner)]];
    if Digit(i, inner) == Digit(j, inner) {
      DigitsDetermine(i, inner);
      DigitsDetermine(j, inner);
      FreshRest(stack, pos, params, choices[Digit(i, inner)]);
      CombinationsDiffer(a, pos + 1, rest, Below(i, inner), Below(j, inner));
    } else {
      assert NoDuplicates(Choices(stack, pos + 0, params[0]));
      CombinationFrame(a, pos + 1, rest, Below(i, inner));
      CombinationFrame(b, pos + 1, rest, Below(j, inner));
      assert a[pos] != b[pos];
    }
  }

  lemma FreshRest(stack: Stack, pos: nat, params: seq<Samples>, value: Word)
    requires params != [] && pos < |stack| && FreshSamples(stack, pos, params)
    ensures FreshSamples(stack[pos := value], pos + 1, params[1..])
  {
    var a, rest := stack[pos := value], params[1..];
    forall k | 0 <= k < |rest| && pos + 1 + k < |a| ensures NoDuplicates(Choices(a, pos + 1 + k, rest[k])) {
      assert NoDuplicates(Choices(stack, pos + (k + 1), params[k + 1]));
    }
  }

  function Times(sizes: seq<nat>): nat {
    if sizes == [] then 1 else sizes[0] * Times(sizes[1..])
  }

  lemma {:induction false} TimesAppend(sizes: seq<nat>, last: nat)
    ensures Times(sizes + [last]) == Times(sizes) * last
  {
    if sizes == [] {
      assert sizes + [last] == [last] && Times([last]) == last * Times([]);
    } else {
      assert (sizes + [last])[1..] == sizes[1..] + [last];
      TimesAppend(sizes[1..], last);
      TimesAssociative(sizes[0], Times(sizes[1..]), last);
    }
  }

  lemma TimesAssociative(a: nat, b: nat, c: nat)
    ensures a * (b * c) == (a * b) * c
  {}

  /** TotalNumberOfCases: the announced number of test cases, as an unbounded integer. */
  method TotalNumberOfCases(domains: seq<nat>, parameterDomainSizes: seq<nat>) returns (res: nat)
    ensures res == Times(domains + parameterDomainSizes)
  {
    res := 1;
    for k := 0 to |domains|
      invariant res == Times(domains[..k])
    {
      assert domains[..k + 1] == domains[..k] + [domains[k]];
      TimesAppend(domains[..k], domains[k]);
      res := res * domains[k];
    }
    assert domains + parameterDomainSizes[..0] == domains[..|domains|];
    for k := 0 to |parameterDomainSizes|
      invariant res == Times(domains + parameterDomainSizes[..k])
    {
      assert domains + parameterDomainSizes[..k + 1] == (domains + parameterDomainSizes[..k])
        + [parameterDomainSizes[k]];
      TimesAppend(domains + parameterDomainSizes[..k], parameterDomainSizes[k]);
      res := res * parameterDomainSizes[k];
    }
    assert parameterDomainSizes[..|parameterDomainSizes|] == parameterDomainSizes;
  }

  /** The parameterDomainSizes of GetTestCaseEnumerationInfo. */
  function DomainSizes(params: seq<Samples>): (sizes: seq<nat>) {
    seq(|params|, k requires 0 <= k < |params| => |params[k]| + 1)
  }

  /** With enough stack the announced number of cases per generated state is the real one. */
  lemma {:induction false} CountIsAnnounced(depth: nat, pos: nat, params: seq<Samples>)
    requires pos + |params| <= depth
    ensures Count(depth, pos, params) == Times(DomainSizes(params))
    decreases |params|
  {
    if params != [] {
      assert DomainSizes(params)[1..] == DomainSizes(params[1..]);
      CountIsAnnounced(depth, pos + 1, params[1..]);
    }
  }

  // ------------------------------------------------------------ the enumeration

  /** What a consumer gets to see of a list: everything up to the first state on which it aborts. */
  function Consumed<T>(list: seq<T>, aborts: T -> bool): seq<T> {
    if list == [] then [] else if aborts(list[0]) then [list[0]] else [list[0]] + Consumed(list[1..], aborts)
  }

  predicate AnyAborts<T>(list: seq<T>, aborts: T -> bool) { exists i :: 0 <= i < |list| && aborts(list[i]) }

  lemma ConsumedStep<T>(list: seq<T>, aborts: T -> bool)
    requires list != []
    ensures Consumed(list, aborts) == [list[0]] + if aborts(list[0]) then [] else Consumed(list[1..], aborts)
  {}

  lemma {:induction false} ConsumedAppend<T>(a: seq<T>, b: seq<T>, aborts: T -> bool)
    ensures Consumed(a + b, aborts) == if AnyAborts(a, aborts) then Consumed(a, aborts) else a + Consumed(b, aborts)
  {
    hide AnyAborts, Consumed;
    if a == [] {
      assert a + b == b;
      assert !AnyAborts(a, aborts) by { NoAborts(aborts); }
    } else {
      assert (a + b)[0] == a[0] && (a + b)[1..] == a[1..] + b;
      AnyAbortsStep(a, aborts);
      ConsumedStep(a, aborts);
      ConsumedStep(a + b, aborts);
      if !aborts(a[0]) {
        ConsumedAppend(a[1..], b, aborts);
        assert a + Consumed(b, aborts) == [a[0]] + (a[1..] + Consumed(b, aborts));
      }
    }
  }

  lemma AnyAbortsAppend<T>(a: seq<T>, b: seq<T>, aborts: T -> bool)
    ensures AnyAborts(a + b, aborts) <==> AnyAborts(a, aborts) || AnyAborts(b, aborts)
  {
    var all := a + b;
    assert forall i :: 0 <= i < |a| ==> all[i] == a[i];
    assert forall i :: 0 <= i < |b| ==> b[i] == all[i + |a|];
  }

  lemma NoAborts<T>(aborts: T -> bool)
    ensures !AnyAborts([], aborts)
  {}

  lemma AnyAbortsStep<T>(list: seq<T>, aborts: T -> bool)
    requires list != []
    ensures AnyAborts(list, aborts) <==> aborts(list[0]) || AnyAborts(list[1..], aborts)
  {
    if AnyAborts(list, aborts) && !aborts(list[0]) {
      var i :| 0 <= i < |list| && aborts(list[i]);
      assert list[1..][i - 1] == list[i];
    }
    if AnyAborts(list[1..], aborts) {
      var i :| 0 <= i < |list[1..]| && aborts(list[1..][i]);
      assert list[i + 1] == list[1..][i];
    }
  }

  lemma {:induction false} NoneAbort<T>(list: seq<T>, aborts: T -> bool)
    requires !AnyAborts(list, aborts)
    ensures Consumed(list, aborts) == list
  {
    if list != [] {
      AnyAbortsStep(list, aborts);
      NoneAbort(list[1..], aborts);
    }
  }

  /** A test state, as far as the enumeration changes it, and the states handed to the consumer. */
  class TestState {
    var stack: Stack
    var log: seq<Stack>

    constructor (stack: Stack)
      ensures this.stack == stack && log == []
    {
      this.stack, log := stack, [];
    }

    method Consume(aborts: Stack -> bool) returns (abort: bool)
      modifies `log
      ensures log == old(log) + [stack] && abort == aborts(stack)
    {
      log := log + [stack];
      abort := aborts(stack);
    }

    /**
     * enumerateParameters hands over exactly the combinations in order, up to the first one on which
     * the consumer aborts; if it never aborts, the stack is as before.
     */
    method EnumerateParameters(pos: nat, params: seq<Samples>, aborts: Stack -> bool) returns (abort: bool)
      modifies this
      ensures log == old(log) + Consumed(Product(old(stack), pos, params), aborts)
      ensures abort <==> AnyAborts(Product(old(stack), pos, params), aborts)
      ensures !abort ==> stack == old(stack)
      decreases |params|, 0
    {
      ghost var start := stack;
      if |params| == 0 || pos >= |stack| {
        abort := Consume(aborts);
        SingleConsumed(start, aborts);
        return;
      }
      var current := stack[pos];
      ghost var values := Choices(start, pos, params[0]);
      assert start[pos := values[0]] == start;
      ProductOverStep(start, pos, values, params[1..], aborts);
      hide Product, Consumed, AnyAborts;
      abort := EnumerateParameters(pos + 1, params[1..], aborts);
      if abort {
        return;
      }
      assert values[1..] == params[0];
      abort := EnumerateSamples(pos, params, aborts, start);
      if abort {
        return;
      }
      stack := stack[pos := current];
    }

    /** The loop over the samples of one parameter. */
    method EnumerateSamples(pos: nat, params: seq<Samples>, aborts: Stack -> bool, ghost start: Stack)
      returns (abort: bool)
      requires |params| > 0 && pos < |stack| && stack == start
      modifies this
      ensures log == old(log) + Consumed(ProductOver(start, pos, params[0], params[1..]), aborts)
      ensures abort <==> AnyAborts(ProductOver(start, pos, params[0], params[1..]), aborts)
      ensures !abort ==> |stack| == |start| && stack[pos := start[pos]] == start
      decreases |params| - 1, 1
    {
      hide *;
      ghost var seen, rest := log, params[1..];
      ghost var all := ProductOver(start, pos, params[0], rest);
      assert params[0][0..] == params[0];
      for k := 0 to |params[0]|
        invariant |stack| == |start| && stack[pos := start[pos]] == start
        invariant seen + Consumed(all, aborts) == log + Consumed(ProductOver(start, pos, params[0][k..], rest), aborts)
        invariant AnyAborts(all, aborts) <==> AnyAborts(ProductOver(start, pos, params[0][k..], rest), aborts)
      {
        ghost var before, values := log, params[0][k..];
        stack := stack[pos := params[0][k]];
        assert stack == start[pos := values[0]];
        assert values[1..] == params[0][k + 1..];
        ProductOverStep(start, pos, values, rest, aborts);
        abort := EnumerateParameters(pos + 1, params[1..], aborts);
        if abort {
          return;
        }
      }
      abort := false;
      NothingLeft(start, pos, params[0], rest, aborts);
    }
  }

  lemma NothingLeft(start: Stack, pos: nat, values: seq<Word>, rest: seq<Samples>, aborts: Stack -> bool)
    requires pos < |start|
    ensures Consumed(ProductOver(start, pos, values[|values|..], rest), aborts) == []
    ensures !AnyAborts(ProductOver(start, pos, values[|values|..], rest), aborts)
  {
    assert values[|values|..] == [];
  }

  lemma SingleConsumed(s: Stack, aborts: Stack -> bool)
    ensures Consumed([s], aborts) == [s] && (AnyAborts([s], aborts) <==> aborts(s))
  {
    assert AnyAborts([s], aborts) <==> aborts([s][0]);
  }

  /** One choice of a position: its combinations come first, and an abort among them decides. */
  lemma ProductOverStep(start: Stack, pos: nat, values: seq<Word>, rest: seq<Samples>, aborts: Stack -> bool)
    requires pos < |start| && values != []
    ensures var part := Product(start[pos := values[0]], pos + 1, rest);
      var tail := ProductOver(start, pos, values[1..], rest);
      var all := ProductOver(start, pos, values, rest);
      && (AnyAborts(all, aborts) <==> AnyAborts(part, aborts) || AnyAborts(tail, aborts))
      && Consumed(all, aborts) == Consumed(part, aborts) + if AnyAborts(part, aborts) then []
        else Consumed(tail, aborts)
  {
    var part, tail := Product(start[pos := values[0]], pos + 1, rest), ProductOver(start, pos, values[1..], rest);
    ConsumedAppend(part, tail, aborts);
    AnyAbortsAppend(part, tail, aborts);
    hide AnyAborts, Consumed;
    if !AnyAborts(part, aborts) { NoneAbort(part, aborts); }
  }
}
