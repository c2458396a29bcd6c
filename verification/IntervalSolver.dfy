/** go/ct/gen/interval_solver.go: sets of fixed-width integers as lists of inclusive intervals. */
module IntervalSolver {
  import opened Evm

  datatype Interval = Interval(low: int, high: int)

  predicate In(i: Interval, x: int) { i.low <= x <= i.high }

  /** The domain of a solver: x lies in one of its intervals. */
  ghost predicate Contains(s: seq<Interval>, x: int) { exists i :: 0 <= i < |s| && In(s[i], x) }

  /** Intervals are non-empty, representable, sorted and disjoint. */
  ghost predicate WellFormed(s: seq<Interval>, min: int, max: int) {
    && (forall i :: 0 <= i < |s| ==> min <= s[i].low <= s[i].high <= max)
    && (forall i, j :: 0 <= i < j < |s| ==> s[i].high < s[j].low)
  }

  datatype Relation = IsEqual | IsBefore | IsAfter | IsSubset | IsSuperset | IntersectsWithStart | IntersectsWithEnd

  function GetRelationTo(i: Interval, other: Interval): Relation {
    if i == other then IsEqual
    else if i.high < other.low then IsBefore
    else if i.low > other.high then IsAfter
    else if i.low < other.low && other.high < i.high then IsSubset
    else if other.low <= i.low && i.high <= other.high then IsSuperset
    else if other.low <= i.high && i.high <= other.high then IntersectsWithEnd
    else IntersectsWithStart
  }

  /** Wrap-around of the integer type with the given range. */
  function Wrap(x: int, min: int, max: int): int
    requires min <= max
  {
    min + (x - min) % (max - min + 1)
  }

  lemma WrapIdentity(x: int, min: int, max: int)
    requires min <= x <= max
    ensures Wrap(x, min, max) == x
  {}

  /** What remains of one interval, as the cases of Exclude compute it. */
  function Remainder(current: Interval, excluded: Interval, min: int, max: int): seq<Interval>
    requires min <= max
  {
    var newLeft := Interval(current.low, Wrap(excluded.low - 1, min, max));
    var newRight := Interval(Wrap(excluded.high + 1, min, max), current.high);
    match GetRelationTo(current, excluded)
    case IsEqual => []
    case IsSubset => [newLeft, newRight]
    case IsSuperset => []
    case IntersectsWithStart => [newRight]
    case IntersectsWithEnd => [newLeft]
    case _ => [current]
  }

  /** The bounds kept do not wrap around, and exactly the excluded values are gone. */
  lemma RemainderExact(current: Interval, excluded: Interval, min: int, max: int)
    requires min <= current.low <= current.high <= max && min <= excluded.low <= excluded.high <= max
    ensures var r := Remainder(current, excluded, min, max);
      && WellFormed(r, current.low, current.high)
      && (forall x :: Contains(r, x) <==> In(current, x) && !In(excluded, x))
  {
    var r := Remainder(current, excluded, min, max);
    if current.low < excluded.low { WrapIdentity(excluded.low - 1, min, max); }
    if excluded.high < current.high { WrapIdentity(excluded.high + 1, min, max); }
    hide Wrap;
    forall x ensures Contains(r, x) <==> In(current, x) && !In(excluded, x) {
      if |r| > 0 { assert In(r[0], x) ==> Contains(r, x); }
      if |r| > 1 { assert In(r[1], x) ==> Contains(r, x); }
    }
  }

  lemma ContainsAppend(a: seq<Interval>, b: seq<Interval>, x: int)
    ensures Contains(a + b, x) <==> Contains(a, x) || Contains(b, x)
  {
    if Contains(a, x) {
      var i :| 0 <= i < |a| && In(a[i], x);
      assert In((a + b)[i], x);
    }
    if Contains(b, x) {
      var i :| 0 <= i < |b| && In(b[i], x);
      assert In((a + b)[|a| + i], x);
    }
  }

  /** res is what remains of the first k intervals. */
  ghost predicate ExcludedUpTo(s: seq<Interval>, k: nat, excluded: Interval, res: seq<Interval>, min: int, max: int)
    requires k <= |s|
  {
    && WellFormed(res, min, max)
    && (k < |s| ==> forall i :: 0 <= i < |res| ==> res[i].high < s[k].low)
    && (forall x :: Contains(res, x) <==> Contains(s[..k], x) && !In(excluded, x))
  }

  lemma NothingExcluded(s: seq<Interval>, excluded: Interval, min: int, max: int)
    ensures ExcludedUpTo(s, 0, excluded, [], min, max)
  {}

  lemma ExcludeStep(s: seq<Interval>, k: nat, excluded: Interval, res: seq<Interval>, rest: seq<Interval>, min: int,
                    max: int)
    requires WellFormed(s, min, max) && k < |s| && min <= excluded.low <= excluded.high <= max
    requires ExcludedUpTo(s, k, excluded, res, min, max) && rest == Remainder(s[k], excluded, min, max)
    ensures ExcludedUpTo(s, k + 1, excluded, res + rest, min, max)
  {
    RemainderExact(s[k], excluded, min, max);
    hide Remainder;
    var one := [s[k]];
    assert s[..k + 1] == s[..k] + one;
    forall x ensures Contains(res + rest, x) <==> Contains(s[..k + 1], x) && !In(excluded, x) {
      hide WellFormed, Contains;
      ContainsAppend(res, rest, x);
      ContainsAppend(s[..k], one, x);
      SingleContains(s[k], x);
    }
    hide Contains;
    assert WellFormed(res + rest, min, max);
  }

  lemma SingleContains(i: Interval, x: int)
    ensures Contains([i], x) <==> In(i, x)
  {
    assert In([i][0], x) <==> In(i, x);
  }

  /** A solver for the integer type with the range [minValue..maxValue]. */
  class IntervalSolver {
    const minValue: int
    const maxValue: int
    var intervals: seq<Interval>

    ghost predicate Valid()
      reads this
    {
      minValue <= maxValue && WellFormed(intervals, minValue, maxValue)
    }

    constructor (minValue: int, maxValue: int, min: int, max: int)
      requires minValue <= min <= maxValue && minValue <= max <= maxValue
      ensures Valid() && this.minValue == minValue && this.maxValue == maxValue
      ensures forall x :: Contains(intervals, x) <==> min <= x <= max
    {
      this.minValue, this.maxValue := minValue, maxValue;
      intervals := if min > max then [] else [Interval(min, max)];
      new;
      assert min <= max ==> forall x :: In(intervals[0], x) <==> min <= x <= max;
    }

    /** Removes exactly [min..max] from the domain; an empty range is ignored. */
    method Exclude(min: int, max: int)
      requires Valid() && minValue <= min <= maxValue && minValue <= max <= maxValue
      modifies this
      ensures Valid()
      ensures forall x :: Contains(intervals, x) <==> Contains(old(intervals), x) && !(min <= x <= max)
    {
      if max < min {
        return;
      }
      var excluded := Interval(min, max);
      var res: seq<Interval> := [];
      NothingExcluded(intervals, excluded, minValue, maxValue);
      hide WellFormed, Contains, Remainder;
      for k := 0 to |intervals|
        invariant intervals == old(intervals) && ExcludedUpTo(intervals, k, excluded, res, minValue, maxValue)
      {
        var rest := Remainder(intervals[k], excluded, minValue, maxValue);
        ExcludeStep(intervals, k, excluded, res, rest, minValue, maxValue);
        res := res + rest;
      }
      assert intervals[..|intervals|] == intervals;
      intervals := res;
    }

    /** Intersects the domain with [value..]. */
    method AddLowerBoundary(value: int)
      requires Valid() && minValue <= value <= maxValue
      modifies this
      ensures Valid()
      ensures forall x :: Contains(intervals, x) <==> Contains(old(intervals), x) && value <= x
    {
      if |intervals| == 0 {
        return;
      }
      var min := intervals[0].low;
      FirstIsLeast(intervals, minValue, maxValue);
      if value <= min {
        return;
      }
      Exclude(min, value - 1);
    }

    /** Intersects the domain with [..value]. */
    method AddUpperBoundary(value: int)
      requires Valid() && minValue <= value <= maxValue
      modifies this
      ensures Valid()
      ensures forall x :: Contains(intervals, x) <==> Contains(old(intervals), x) && x <= value
    {
      if |intervals| == 0 {
        return;
      }
      var max := intervals[|intervals| - 1].high;
      FirstIsLeast(intervals, minValue, maxValue);
      if value >= max {
        return;
      }
      Exclude(value + 1, max);
    }

    /** Intersects the domain with {value}; the solver stays satisfiable exactly if value was in it. */
    method AddEqualityConstraint(value: int)
      requires Valid() && minValue <= value <= maxValue
      modifies this
      ensures Valid()
      ensures forall x :: Contains(intervals, x) <==> Contains(old(intervals), x) && x == value
      ensures intervals != [] <==> Contains(old(intervals), value)
    {
      AddUpperBoundary(value);
      AddLowerBoundary(value);
      if intervals != [] {
        assert In(intervals[0], intervals[0].low);
        assert Contains(intervals, intervals[0].low);
      }
    }
  }

  lemma FirstIsLeast(s: seq<Interval>, min: int, max: int)
    requires WellFormed(s, min, max) && s != []
    ensures forall x :: Contains(s, x) ==> s[0].low <= x <= s[|s| - 1].high
  {}

  // ------------------------------------------------------------------ sampling

  function Length(i: Interval): int { i.high - i.low + 1 }

  function Size(s: seq<Interval>): int { if s == [] then 0 else Length(s[0]) + Size(s[1..]) }

  /** The value a sample stands for: samples count through the domain from below. */
  function Pick(s: seq<Interval>, sample: int): int {
    if s == [] then 0 else if sample < Length(s[0]) then s[0].low + sample else Pick(s[1..], sample - Length(s[0]))
  }

  /** How many values of the domain are below x. */
  function Rank(s: seq<Interval>, x: int): int {
    if s == [] then 0 else if x <= s[0].high then x - s[0].low else Length(s[0]) + Rank(s[1..], x)
  }

  lemma TailContains(s: seq<Interval>, x: int)
    requires s != []
    ensures Contains(s, x) <==> In(s[0], x) || Contains(s[1..], x)
  {
    ContainsAppend([s[0]], s[1..], x);
    assert [s[0]] + s[1..] == s;
    assert In([s[0]][0], x) <==> In(s[0], x);
  }

  /** Pick and Rank are inverse to each other: samples and domain correspond one to one. */
  lemma {:induction false} PickRank(s: seq<Interval>, min: int, max: int, sample: int)
    requires WellFormed(s, min, max) && 0 <= sample < Size(s)
    ensures Contains(s, Pick(s, sample)) && Rank(s, Pick(s, sample)) == sample
  {
    var x := Pick(s, sample);
    if sample >= Length(s[0]) {
      PickRank(s[1..], min, max, sample - Length(s[0]));
      var i :| 0 <= i < |s[1..]| && In(s[1..][i], x);
      assert s[1..][i] == s[i + 1];
    }
    TailContains(s, x);
  }

  lemma TailIsAbove(s: seq<Interval>, min: int, max: int, x: int)
    requires WellFormed(s, min, max) && s != []
    ensures Contains(s[1..], x) ==> s[0].high < x
  {}

  lemma {:induction false} RankPick(s: seq<Interval>, min: int, max: int, x: int)
    requires WellFormed(s, min, max) && Contains(s, x)
    ensures 0 <= Rank(s, x) < Size(s) && Pick(s, Rank(s, x)) == x
  {
    TailContains(s, x);
    hide Contains;
    if s[0].high < x {
      RankPick(s[1..], min, max, x);
    } else {
      SizeNonNegative(s[1..], min, max);
      TailIsAbove(s, min, max, x);
    }
  }

  lemma {:induction false} SizeNonNegative(s: seq<Interval>, min: int, max: int)
    requires WellFormed(s, min, max)
    ensures Size(s) >= 0
  {
    if s != [] { SizeNonNegative(s[1..], min, max); }
  }

  /** The domain is at most as large as its type, and equally large only if it is everything. */
  lemma {:induction false} SizeBound(s: seq<Interval>, min: int, max: int)
    requires WellFormed(s, min, max) && min <= max + 1
    ensures 0 <= Size(s) <= max - min + 1
    ensures Size(s) == max - min + 1 ==> forall x :: min <= x <= max ==> Contains(s, x)
  {
    if s != [] {
      SizeBound(s[1..], s[0].high + 1, max);
      if Size(s) == max - min + 1 {
        forall x | min <= x <= max ensures Contains(s, x) { TailContains(s, x); }
      }
    }
  }

  lemma {:induction false} SizeAppend(s: seq<Interval>, i: Interval)
    ensures Size(s + [i]) == Size(s) + Length(i)
  {
    if s == [] {
      assert s + [i] == [i] && [i][1..] == [];
    } else {
      SizeAppend(s[1..], i);
      assert (s + [i])[1..] == s[1..] + [i];
    }
  }

  datatype Generated = Unsatisfiable | Value(value: int) | InternalError

  /** The size of the domain as Generate adds it up, in uint64 arithmetic. */
  method DomainSize(intervals: seq<Interval>) returns (size: int)
    requires WellFormed(intervals, 0, MAX_U64)
    ensures size == Size(intervals) % TWO_64
  {
    size := 0;
    for k := 0 to |intervals|
      invariant size == Size(intervals[..k]) % TWO_64
    {
      SizeAppend(intervals[..k], intervals[k]);
      assert intervals[..k + 1] == intervals[..k] + [intervals[k]];
      AddModulo(Size(intervals[..k]), Length(intervals[k]));
      size := U64(size + U64(intervals[k].high - intervals[k].low + 1));
    }
    assert intervals[..|intervals|] == intervals;
  }

  lemma AddModulo(a: int, b: int)
    ensures (a % TWO_64 + b % TWO_64) % TWO_64 == (a + b) % TWO_64
  {}

  /**
   * Generate over uint64. The random source is any function that respects the bound it is given.
   * The size of the domain is accumulated modulo 2^64 and is 0 only for the full domain. The method
   * fails exactly on an empty domain, never with an internal error, and otherwise returns the
   * domain value its sample stands for.
   */
  method Generate(intervals: seq<Interval>, uint64: nat, uint64n: int -> int) returns (r: Generated)
    requires WellFormed(intervals, 0, MAX_U64) && uint64 <= MAX_U64 && forall n :: n > 0 ==> 0 <= uint64n(n) < n
    ensures r.Unsatisfiable? <==> intervals == []
    ensures !r.InternalError?
    ensures r.Value? ==> Contains(intervals, r.value) && 0 <= r.value <= MAX_U64
    ensures r.Value? ==> r.value == if Size(intervals) == TWO_64 then uint64
      else Pick(intervals, uint64n(Size(intervals)))
  {
    if |intervals| == 0 {
      return Unsatisfiable;
    }
    SizeBound(intervals, 0, MAX_U64);
    SizePositive(intervals, 0, MAX_U64);
    var domainSize := DomainSize(intervals);
    if domainSize == 0 {
      return Value(uint64);
    }
    PickRank(intervals, 0, MAX_U64, uint64n(domainSize));
    var value := ValueAt(intervals, uint64n(domainSize));
    if value.Some? {
      return Value(value.value);
    }
    return InternalError;
  }

  /** The second loop of Generate: counts the sample down through the intervals. */
  method ValueAt(intervals: seq<Interval>, start: int) returns (r: Option<int>)
    requires WellFormed(intervals, 0, MAX_U64) && 0 <= start < Size(intervals) < TWO_64
    ensures r == Some(Pick(intervals, start))
  {
    hide U64, Pick, Size, WellFormed;
    var sample := start;
    assert intervals[0..] == intervals;
    for k := 0 to |intervals|
      invariant 0 <= sample < Size(intervals[k..]) < TWO_64
      invariant Pick(intervals[k..], sample) == Pick(intervals, start)
    {
      ValueStep(intervals, k, sample);
      SmallU64(Length(intervals[k]));
      if U64(intervals[k].high - intervals[k].low + 1) > sample {
        return Some(intervals[k].low + sample);
      }
      sample := sample - U64(intervals[k].high - intervals[k].low + 1);
    }
    NothingLeft(intervals);
    return None;
  }

  lemma NothingLeft(s: seq<Interval>)
    ensures Size(s[|s|..]) == 0
  {}

  /** A sample denotes a value of the first interval left, or it is counted down by its length. */
  lemma ValueStep(s: seq<Interval>, k: nat, sample: int)
    requires WellFormed(s, 0, MAX_U64) && k < |s| && 0 <= sample < Size(s[k..]) < TWO_64
    ensures 0 < Length(s[k]) < TWO_64 && 0 <= Size(s[k + 1..]) == Size(s[k..]) - Length(s[k])
    ensures Pick(s[k..], sample) ==
      if sample < Length(s[k]) then s[k].low + sample else Pick(s[k + 1..], sample - Length(s[k]))
  {
    TailSize(s[k..], 0, MAX_U64);
    assert s[k..][1..] == s[k + 1..] && s[k..][0] == s[k];
  }

  function U64(x: int): int { x % TWO_64 }

  lemma SmallU64(x: int)
    requires 0 <= x < TWO_64
    ensures U64(x) == x
  {}

  lemma SizePositive(s: seq<Interval>, min: int, max: int)
    requires WellFormed(s, min, max) && s != []
    ensures Size(s) > 0
  {
    SizeNonNegative(s[1..], min, max);
  }

  lemma TailSize(s: seq<Interval>, min: int, max: int)
    requires WellFormed(s, min, max) && s != []
    ensures 0 < Length(s[0]) <= Size(s) && 0 <= Size(s[1..]) == Size(s) - Length(s[0])
  {
    SizeNonNegative(s[1..], min, max);
  }
}
