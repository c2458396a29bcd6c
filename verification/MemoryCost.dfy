/**
 * Memory growth and its price: the evmzero and the conformance-test implementations, both with
 * fixed-width overflow cut-offs, against the unbounded price of appendix H.1 of the Yellow Paper.
 */
module MemoryCost {
  import opened Evm

  function Words(size: nat): nat { (size + 31) / 32 }

  /** C(w) = w * w / 512 + 3w, over unbounded integers. */
  function C(w: nat): nat { w * w / 512 + 3 * w }

  /** The words of a memory of `have` words after an access to [offset, offset + size). */
  function WordsAfter(have: nat, offset: nat, size: nat): nat {
    if size == 0 then have else Max(have, Words(offset + size))
  }

  /** The exact price of an access. */
  function ExactCost(have: nat, offset: nat, size: nat): int {
    C(WordsAfter(have, offset, size)) - C(have)
  }

  lemma CMonotone(a: nat, b: nat)
    requires a <= b
    ensures C(a) <= C(b)
    ensures a < b ==> C(a) + 3 * (b - a) <= C(b)
  {
    assert a * a <= b * b by {
      assert b * b - a * a == (b - a) * (b + a);
      assert 0 <= (b - a) * (b + a);
    }
    assert a * a / 512 <= b * b / 512;
  }

  /** Buying two growths in sequence costs as much as buying the larger one. */
  lemma SequentialGrowth(have: nat, o1: nat, s1: nat, o2: nat, s2: nat)
    ensures 0 <= ExactCost(have, o1, s1)
    ensures ExactCost(have, o1, s1) + ExactCost(WordsAfter(have, o1, s1), o2, s2)
         == Max(ExactCost(have, o1, s1), ExactCost(have, o2, s2))
  {
    var w1, w2 := WordsAfter(have, o1, s1), WordsAfter(have, o2, s2);
    CMonotone(have, w1);
    CMonotone(have, w2);
    if w1 <= w2 { CMonotone(w1, w2); } else { CMonotone(w2, w1); }
    assert WordsAfter(w1, o2, s2) == Max(w1, w2);
  }

  // ------------------------------------------------------------------ evmzero

  /** calc_memory_cost with its two overflow checks on uint64 and int64. */
  function CppPrice(size: nat): nat {
    if size + 31 > MAX_U64 then MAX_GAS
    else
      var words := (size + 31) / 32;
      if words * words > MAX_GAS then MAX_GAS else words * words / 512 + 3 * words
  }

  datatype Expansion = Expansion(cost: int, offset: nat, size: nat)

  /** Context::MemoryExpansionCost for a memory of memorySize bytes. */
  function CppExpansion(memorySize: nat, offset: Word, size: Word): Expansion {
    if size > MAX_U64 || (offset > MAX_U64 && size != 0) then Expansion(MAX_GAS, 0, 0)
    else if size == 0 then Expansion(0, offset % TWO_64, 0)
    else if offset + size > MAX_U64 then Expansion(MAX_GAS, offset, size)
    else if offset + size <= memorySize then Expansion(0, offset, size)
    else Expansion(CppPrice(offset + size) - CppPrice(memorySize), offset, size)
  }

  // ------------------------------------------------------- conformance tests

  /** The largest size Memory.ExpansionCosts is willing to price. */
  const MAX_EXPANSION: nat := 0x1F_FFFF_FFE0

  function GoPrice(size: nat): nat {
    var words := size / 32 + if size % 32 != 0 then 1 else 0;
    words * words / 512 + 3 * words
  }

  /** Memory.ExpansionCosts. */
  function GoExpansion(memorySize: nat, offset: Word, size: Word): Expansion {
    if size > MAX_U64 then Expansion(MAX_GAS, 0, 0)
    else if offset > MAX_U64 then (if size == 0 then Expansion(0, 0, 0) else Expansion(MAX_GAS, 0, 0))
    else if size == 0 then Expansion(0, offset, size)
    else if offset > MAX_U64 - size || size > MAX_U64 - offset then Expansion(MAX_GAS, offset, size)
    else if offset + size <= memorySize then Expansion(0, offset, size)
    else if offset + size > MAX_EXPANSION then Expansion(MAX_GAS, offset, size)
    else Expansion(GoPrice(offset + size) - GoPrice(memorySize), offset, size)
  }

  // -------------------------------------------------------------- refinement

  /** The smallest word count whose square does not fit int64: evmzero prices it as MAX_GAS. */
  const CPP_CUTOFF: nat := 3_037_000_500
  /** The smallest word count above MAX_EXPANSION bytes. */
  const GO_CUTOFF: nat := 0x1_0000_0000

  lemma CutoffPrices()
    ensures C(CPP_CUTOFF) < C(GO_CUTOFF) < MAX_GAS
  {}

  lemma SquareMonotone(a: nat, b: nat)
    requires a <= b
    ensures a * a <= b * b
  {
    assert a * a <= a * b;
    assert a * b <= b * b;
  }

  lemma CppCutoff(w: nat)
    ensures w * w > MAX_GAS <==> w >= CPP_CUTOFF
  {
    if w < CPP_CUTOFF {
      SquareMonotone(w, CPP_CUTOFF - 1);
    } else {
      SquareMonotone(CPP_CUTOFF, w);
    }
  }

  /** The price computed by evmzero is exact below the cut-off and the sentinel from there on. */
  lemma CppPriceIsC(size: nat)
    requires size <= MAX_U64
    ensures Words(size) < CPP_CUTOFF ==> CppPrice(size) == C(Words(size))
    ensures Words(size) >= CPP_CUTOFF ==> CppPrice(size) == MAX_GAS
  {
    CppCutoff(Words(size));
  }

  /** No access is sold at a negative price, sentinels included. */
  lemma CppCostNonNegative(memorySize: nat, offset: Word, size: Word)
    ensures CppExpansion(memorySize, offset, size).cost >= 0
  {
    hide C, CppPrice;
    CutoffPrices();
    if size != 0 && memorySize < offset + size <= MAX_U64 {
      CppPriceIsC(offset + size);
      CppPriceIsC(memorySize);
      var old_, new_ := Words(memorySize), Words(offset + size);
      if old_ <= new_ { CMonotone(old_, new_); }
      if old_ < CPP_CUTOFF { CMonotone(old_, CPP_CUTOFF); }
    }
  }

  /**
   * evmzero never sells memory below its price: if what is left plus what the memory cost is
   * below MAX_GAS, an expansion it declares affordable is charged exactly, and the converted
   * offset and size denote the requested range.
   */
  lemma CppNeverUndercharges(gas: nat, have: nat, offset: Word, size: Word)
    requires have < CPP_CUTOFF && gas + C(have) < MAX_GAS
    requires CppExpansion(32 * have, offset, size).cost <= gas
    ensures var e := CppExpansion(32 * have, offset, size);
      && e.cost == ExactCost(have, offset, size)
      && e.size == size
      && (size != 0 ==> e.offset == offset && Words(offset + size) < CPP_CUTOFF)
  {
    assert Words(32 * have) == have;
    CppPriceIsC(32 * have);
    if size != 0 && offset + size <= MAX_U64 {
      CppPriceIsC(offset + size);
      if offset + size <= 32 * have { CMonotone(Words(offset + size), have); }
    }
  }

  /** An access that would need w words or more is not affordable below C(w). */
  lemma Unaffordable(gas: nat, have: nat, offset: nat, size: nat, w: nat)
    requires gas + C(have) < C(w) && size != 0 && Words(offset + size) >= w
    ensures have < w && ExactCost(have, offset, size) > gas
  {
    if have >= w { CMonotone(w, have); }
    CMonotone(w, Words(offset + size));
  }

  /** e states the price of an access: exactly if it is affordable, else as something too large. */
  ghost predicate Prices(e: Expansion, gas: nat, have: nat, offset: nat, size: nat) {
    && (e.cost <= gas <==> ExactCost(have, offset, size) <= gas)
    && (e.cost <= gas ==>
          e.cost == ExactCost(have, offset, size) && e.size == size && (size != 0 ==> e.offset == offset))
  }

  lemma CppPricesExactly(gas: nat, have: nat, offset: Word, size: Word)
    requires gas + C(have) < C(CPP_CUTOFF)
    ensures Prices(CppExpansion(32 * have, offset, size), gas, have, offset, size)
    ensures have < CPP_CUTOFF
  {
    hide C, CppPrice;
    CutoffPrices();
    if have >= CPP_CUTOFF { CMonotone(CPP_CUTOFF, have); }
    CppPriceIsC(32 * have);
    if size != 0 && offset + size <= MAX_U64 { CppPriceIsC(offset + size); }
    if size != 0 && Words(offset + size) >= CPP_CUTOFF { Unaffordable(gas, have, offset, size, CPP_CUTOFF); }
  }

  lemma GoPriceIsC(size: nat)
    ensures GoPrice(size) == C(Words(size))
  {
    assert Words(size) == size / 32 + if size % 32 != 0 then 1 else 0;
  }

  lemma GoPricesExactly(gas: nat, have: nat, offset: Word, size: Word)
    requires gas + C(have) < C(GO_CUTOFF)
    ensures Prices(GoExpansion(32 * have, offset, size), gas, have, offset, size)
    ensures 0 <= GoExpansion(32 * have, offset, size).cost <= MAX_GAS
  {
    hide C, GoPrice;
    CutoffPrices();
    if have >= GO_CUTOFF { CMonotone(GO_CUTOFF, have); }
    GoPriceIsC(32 * have);
    GoPriceIsC(offset + size);
    var w := Words(offset + size);
    if size != 0 && w >= GO_CUTOFF { Unaffordable(gas, have, offset, size, GO_CUTOFF); }
    if have < w < GO_CUTOFF {
      CMonotone(w, GO_CUTOFF);
      CMonotone(have, w);
    }
    assert offset + size > MAX_EXPANSION <==> w >= GO_CUTOFF;
  }

  /**
   * Below C(CPP_CUTOFF) both implementations price every access exactly, so they agree on which
   * accesses are affordable, on their price and on the range to grow, although the cut-offs differ.
   */
  lemma ExpansionsAgree(gas: nat, have: nat, offset: Word, size: Word)
    requires gas + C(have) < C(CPP_CUTOFF)
    ensures Agree(gas, have, offset, size)
  {
    hide C, CppExpansion, GoExpansion;
    CutoffPrices();
    CppPricesExactly(gas, have, offset, size);
    GoPricesExactly(gas, have, offset, size);
  }

  /** MaxGasUsedByCt, the bound on gas in generated test states. */
  const MAX_CT_GAS: nat := 500_000_000_000

  lemma CtGasIsInRange(gas: nat, have: nat)
    requires gas <= MAX_CT_GAS && C(have) <= MAX_CT_GAS
    ensures gas + C(have) < C(CPP_CUTOFF) < C(GO_CUTOFF) < MAX_GAS
  {}

  // -------------------------------------------------------- exact conditions

  /** Memory that can still grow by a word without leaving uint64. */
  ghost predicate CanGrow(have: nat) { 32 * (have + 1) <= MAX_U64 }

  /** Accesses that evmzero declares affordable are charged exactly, or at least not too little. */
  ghost predicate AllChargedExactly(gas: nat, have: nat) {
    forall o: Word, s: Word :: CppExpansion(32 * have, o, s).cost <= gas ==>
      CppExpansion(32 * have, o, s).cost == ExactCost(have, o, s)
  }

  ghost predicate NoneUndercharged(gas: nat, have: nat) {
    forall o: Word, s: Word :: CppExpansion(32 * have, o, s).cost <= gas ==>
      CppExpansion(32 * have, o, s).cost >= ExactCost(have, o, s)
  }

  /** From the cut-off on, evmzero sells the next word for nothing. */
  lemma NextWordIsFree(have: nat)
    requires CPP_CUTOFF <= have && CanGrow(have)
    ensures CppExpansion(32 * have, 0, 32 * (have + 1)).cost == 0 < ExactCost(have, 0, 32 * (have + 1))
  {
    hide C, CppPrice;
    assert Words(32 * have) == have && Words(32 * (have + 1)) == have + 1;
    CppPriceIsC(32 * have);
    CppPriceIsC(32 * (have + 1));
    CMonotone(have, have + 1);
  }

  /** Below the cut-off, the largest memory costs the sentinel, which is less than its price. */
  lemma SentinelIsTooCheap(have: nat)
    requires have < CPP_CUTOFF
    ensures CppExpansion(32 * have, 0, TWO_64 - 32).cost == MAX_GAS - C(have) < ExactCost(have, 0, TWO_64 - 32)
  {
    LargestPrice();
    hide C, CppPrice;
    assert Words(32 * have) == have;
    CppPriceIsC(32 * have);
    CppPriceIsC(TWO_64 - 32);
  }

  lemma LargestPrice()
    ensures Words(TWO_64 - 32) >= CPP_CUTOFF && C(Words(TWO_64 - 32)) > MAX_GAS
  {}

  /**
   * evmzero charges every affordable access exactly, and sells none below its price, if and only if
   * the memory is below the cut-off and worth less than MAX_GAS together with the gas left.
   */
  lemma ChargedExactly(gas: nat, have: nat)
    requires CanGrow(have)
    ensures AllChargedExactly(gas, have) <==> have < CPP_CUTOFF && gas + C(have) < MAX_GAS
    ensures NoneUndercharged(gas, have) <==> have < CPP_CUTOFF && gas + C(have) < MAX_GAS
  {
    hide C, CppExpansion, ExactCost;
    if have >= CPP_CUTOFF {
      NextWordIsFree(have);
      assert CppExpansion(32 * have, 0, 32 * (have + 1)).cost <= gas;
    } else if gas + C(have) >= MAX_GAS {
      SentinelIsTooCheap(have);
      assert CppExpansion(32 * have, 0, TWO_64 - 32).cost <= gas;
    } else {
      forall o: Word, s: Word | CppExpansion(32 * have, o, s).cost <= gas
        ensures CppExpansion(32 * have, o, s).cost == ExactCost(have, o, s)
      {
        CppNeverUndercharges(gas, have, o, s);
      }
    }
  }

  /** Both implementations give the same answer for an access. */
  ghost predicate Agree(gas: nat, have: nat, offset: Word, size: Word) {
    var cpp, go := CppExpansion(32 * have, offset, size), GoExpansion(32 * have, offset, size);
    && (cpp.cost <= gas <==> go.cost <= gas)
    && (cpp.cost <= gas ==> cpp.cost == go.cost && cpp.size == go.size && (size != 0 ==> cpp.offset == go.offset))
  }

  ghost predicate AlwaysAgree(gas: nat, have: nat) { forall o: Word, s: Word :: Agree(gas, have, o, s) }

  /** At the cut-off only Go still charges the exact price. */
  lemma DisagreeAtCutoff(gas: nat, have: nat)
    requires have < CPP_CUTOFF && gas + C(have) >= C(CPP_CUTOFF)
    ensures !Agree(gas, have, 0, 32 * CPP_CUTOFF)
  {
    CutoffPrices();
    hide C, CppPrice, GoPrice;
    CMonotone(have, CPP_CUTOFF);
    assert Words(32 * have) == have && Words(32 * CPP_CUTOFF) == CPP_CUTOFF;
    CppPriceIsC(32 * have);
    CppPriceIsC(32 * CPP_CUTOFF);
    GoPriceIsC(32 * have);
    GoPriceIsC(32 * CPP_CUTOFF);
  }

  /** Behind the cut-off evmzero gives the next word away, Go does not. */
  lemma DisagreeBehindCutoff(gas: nat, have: nat)
    requires CPP_CUTOFF <= have && CanGrow(have)
    ensures !Agree(gas, have, 0, 32 * (have + 1))
  {
    hide C, CppExpansion, GoPrice;
    NextWordIsFree(have);
    assert Words(32 * have) == have && Words(32 * (have + 1)) == have + 1;
    CMonotone(have, have + 1);
    GoPriceIsC(32 * have);
    GoPriceIsC(32 * (have + 1));
  }

  /** The two implementations agree on every access if and only if gas and memory are below the cut-off. */
  lemma AgreementCondition(gas: nat, have: nat)
    requires CanGrow(have)
    ensures AlwaysAgree(gas, have) <==> gas + C(have) < C(CPP_CUTOFF)
  {
    hide C, Agree;
    if gas + C(have) < C(CPP_CUTOFF) {
      forall o: Word, s: Word ensures Agree(gas, have, o, s) { ExpansionsAgree(gas, have, o, s); }
    } else if have < CPP_CUTOFF {
      DisagreeAtCutoff(gas, have);
    } else {
      DisagreeBehindCutoff(gas, have);
    }
  }
}
