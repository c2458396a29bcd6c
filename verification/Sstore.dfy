/**
 * SSTORE net gas metering. The repository computes the price of a storage write four times: in
 * evmzero, in the Rust interpreter, in the rule table of the conformance tests and in the nested
 * conditionals of the integration tests, which serve as the reference here.
 */
module Sstore {
  import opened Evm

  /** One storage slot within a transaction. */
  datatype Slot = Slot(original: Word, current: Word, warm: bool)

  datatype Charge = Charge(gas: int, refund: int)

  datatype Status =
    | Assigned | Added | Deleted | Modified
    | DeletedAdded | ModifiedDeleted | DeletedRestored | AddedDeleted | ModifiedRestored

  /** GetStorageStatus. */
  function GetStorageStatus(original: Word, current: Word, new_: Word): Status {
    if current == new_ then Assigned
    else if original == 0 && current == 0 && new_ != 0 then Added
    else if original != 0 && current == original && new_ == 0 then Deleted
    else if original != 0 && current == original && new_ != 0 && new_ != original then Modified
    else if original != 0 && current == 0 && new_ != original && new_ != 0 then DeletedAdded
    else if original != 0 && current != original && current != 0 && new_ == 0 then ModifiedDeleted
    else if original != 0 && current == 0 && new_ == original then DeletedRestored
    else if original == 0 && current != 0 && new_ == 0 then AddedDeleted
    else if original != 0 && current != original && current != 0 && new_ == original then ModifiedRestored
    else Assigned
  }

  // --------------------------------------------------------------- reference

  function WarmCost(rev: Revision): int { if rev < BERLIN then 800 else 100 }
  function ColdCost(rev: Revision): int { if rev < BERLIN then 0 else 2100 }
  function ClearRefund(rev: Revision): int { if rev < LONDON then 15000 else 4800 }
  function ResetCost(rev: Revision): int { if rev < BERLIN then 5000 else 2900 }

  /** What restoring a slot to its original value gives back, per restore. */
  function RestoreRefund(rev: Revision, original: Word): int {
    if original == 0 then 20000 - WarmCost(rev) else 5000 - ColdCost(rev) - WarmCost(rev)
  }

  /** The reference price; London stands for all later revisions. */
  function Reference(rev: Revision, s: Slot, new_: Word): Charge {
    var access := if s.warm then 0 else ColdCost(rev);
    if new_ == s.current then Charge(access + WarmCost(rev), 0)
    else if s.current == s.original then
      if s.original == 0 then Charge(access + 20000, 0)
      else Charge(access + ResetCost(rev), if new_ == 0 then ClearRefund(rev) else 0)
    else
      Charge(access + WarmCost(rev),
             (if s.original == 0 then 0 else if s.current == 0 then -ClearRefund(rev)
              else if new_ == 0 then ClearRefund(rev) else 0)
             + (if new_ == s.original then RestoreRefund(rev, s.original) else 0))
  }

  /** calculateSStoreGas, accumulating into its two results. */
  method CalculateSStoreGas(original: Word, current: Word, new_: Word, expectedGas: int, warmAccessCost: int,
                            coldAccessCost: int, refundAmount: int, resetGasAmount: int) returns (gas: int, refund: int)
    ensures forall rev: Revision, warm: bool ::
      warmAccessCost == WarmCost(rev) && coldAccessCost == ColdCost(rev) && refundAmount == ClearRefund(rev)
        && resetGasAmount == ResetCost(rev)
      && expectedGas == (if warm then 0 else ColdCost(rev))
      ==> Charge(gas, refund) == Reference(rev, Slot(original, current, warm), new_)
  {
    gas, refund := expectedGas, 0;
    if new_ == current {
      gas := gas + warmAccessCost;
    } else {
      if current == original {
        if original == 0 {
          gas := gas + 20000;
        } else {
          gas := gas + resetGasAmount;
          if new_ == 0 {
            refund := refund + refundAmount;
          }
        }
      } else {
        gas := gas + warmAccessCost;
        if original != 0 {
          if current == 0 {
            refund := refund - refundAmount;
          } else if new_ == 0 {
            refund := refund + refundAmount;
          }
        }
        if new_ == original {
          if original == 0 {
            refund := refund + (20000 - warmAccessCost);
          } else {
            refund := refund + (5000 - coldAccessCost - warmAccessCost);
          }
        }
      }
    }
  }

  // ---------------------------------------------------------- implementations

  /** SSTORE of evmzero, after its check for more than 2300 gas. */
  function Cpp(rev: Revision, s: Slot, new_: Word): Charge {
    var status := GetStorageStatus(s.original, s.current, new_);
    var base := if status.Added? then 20000
                else if status.Modified? || status.Deleted? then (if rev >= BERLIN then 2900 else 5000)
                else if rev >= BERLIN then 100 else 800;
    var gas := base + if rev >= BERLIN && !s.warm then 2100 else 0;
    var clear := if rev >= LONDON then 4800 else 15000;
    var restored := if rev < BERLIN then 4200 else if s.warm then 5000 - 2100 - 100 else 4900;
    match status
    case Deleted => Charge(gas, clear)
    case DeletedAdded => Charge(gas, -clear)
    case ModifiedDeleted => Charge(gas, clear)
    case DeletedRestored => Charge(gas, -clear + restored)
    case AddedDeleted => Charge(gas, if rev >= BERLIN then 19900 else 19200)
    case ModifiedRestored => Charge(gas, restored)
    case _ => Charge(gas, 0)
  }

  /** sstore of the Rust interpreter, for Istanbul and later. */
  function Rust(rev: Revision, s: Slot, new_: Word): Charge {
    var (dyn1, dyn2, dyn3, refund1, refund2, refund3) :=
      if rev >= LONDON then (100, 2900, 20000, 5000 - 2100 - 100, 4800, 20000 - 100)
      else if rev >= BERLIN then (100, 2900, 20000, 5000 - 2100 - 100, 15000, 20000 - 100)
      else (800, 5000, 20000, 4200, 15000, 19200);
    var cold := if rev >= BERLIN && !s.warm then 2100 else 0;
    match GetStorageStatus(s.original, s.current, new_)
    case Assigned => Charge(dyn1 + cold, 0)
    case Added => Charge(dyn3 + cold, 0)
    case Deleted => Charge(dyn2 + cold, refund2)
    case Modified => Charge(dyn2 + cold, 0)
    case DeletedAdded => Charge(dyn1 + cold, -refund2)
    case ModifiedDeleted => Charge(dyn1 + cold, refund2)
    case DeletedRestored => Charge(dyn1 + cold, -refund2 + refund1)
    case AddedDeleted => Charge(dyn1 + cold, refund3)
    case ModifiedRestored => Charge(dyn1 + cold, refund1)
  }

  /** The rule table of the conformance tests; None where it has no rule. */
  function Table(rev: Revision, warm: bool, status: Status): Option<Charge> {
    if rev < BERLIN then
      match status
      case Assigned => Some(Charge(800, 0))
      case Added => Some(Charge(20000, 0))
      case AddedDeleted => Some(Charge(800, 19200))
      case DeletedRestored => Some(Charge(800, -10800))
      case DeletedAdded => Some(Charge(800, -15000))
      case Deleted => Some(Charge(5000, 15000))
      case Modified => Some(Charge(5000, 0))
      case ModifiedDeleted => Some(Charge(800, 15000))
      case ModifiedRestored => Some(Charge(800, 4200))
    else if !warm then
      match status
      case Added => Some(Charge(22100, 0))
      case Deleted => Some(Charge(5000, if rev < LONDON then 15000 else 4800))
      case Modified => Some(Charge(5000, 0))
      case _ => None
    else
      match status
      case Assigned => Some(Charge(100, 0))
      case Added => Some(Charge(20000, 0))
      case AddedDeleted => Some(Charge(100, 19900))
      case DeletedRestored => Some(Charge(100, if rev < LONDON then -12200 else -2000))
      case DeletedAdded => Some(Charge(100, if rev < LONDON then -15000 else -4800))
      case Deleted => Some(Charge(2900, if rev < LONDON then 15000 else 4800))
      case Modified => Some(Charge(2900, 0))
      case ModifiedDeleted => Some(Charge(100, if rev < LONDON then 15000 else 4800))
      case ModifiedRestored => Some(Charge(100, 2800))
  }

  /** A slot by what has happened to its original value. */
  predicate Clean(s: Slot) { s.current == s.original }
  predicate Cleared(s: Slot) { s.current == 0 != s.original }
  predicate Filled(s: Slot) { s.original == 0 != s.current }
  predicate Changed(s: Slot) { s.original != 0 && s.current != 0 && s.current != s.original }

  predicate SameCondition(s: Slot, t: Slot) {
    (Clean(s) && Clean(t)) || (Cleared(s) && Cleared(t)) || (Filled(s) && Filled(t)) || (Changed(s) && Changed(t))
  }

  /**
   * The statuses by their meaning: where the slot comes from and where it goes. Assigned is what
   * changes nothing in these terms, even if it changes the value.
   */
  lemma StatusMeaning(s: Slot, new_: Word)
    ensures var status, then_ := GetStorageStatus(s.original, s.current, new_), s.(current := new_);
      && (status.Added? <==> Clean(s) && Filled(then_))
      && (status.Deleted? <==> Clean(s) && Cleared(then_))
      && (status.Modified? <==> Clean(s) && Changed(then_))
      && (status.DeletedAdded? <==> Cleared(s) && Changed(then_))
      && (status.ModifiedDeleted? <==> Changed(s) && Cleared(then_))
      && (status.DeletedRestored? <==> Cleared(s) && Clean(then_))
      && (status.AddedDeleted? <==> Filled(s) && Clean(then_))
      && (status.ModifiedRestored? <==> Changed(s) && Clean(then_))
      && (status.Assigned? <==> SameCondition(s, then_))
  {}

  /**
   * The implementations against the reference, for every slot whatsoever. The Rust interpreter and
   * the table (where it has a rule) are exact; evmzero differs exactly when a cold slot is restored
   * to a nonzero original value.
   */
  lemma PricesAgree(rev: Revision, s: Slot, new_: Word)
    ensures var status, reference := GetStorageStatus(s.original, s.current, new_), Reference(rev, s, new_);
      && Rust(rev, s, new_) == reference
      && (Table(rev, s.warm, status).Some? ==> Table(rev, s.warm, status).value == reference)
      && (Table(rev, s.warm, status).None? <==>
          rev >= BERLIN && !s.warm && (s.current == new_ || s.current != s.original))
      && (Cpp(rev, s, new_) == reference <==>
          !(rev >= BERLIN && !s.warm && s.original != 0 && s.current != s.original == new_))
  {}

  // -------------------------------------------------------------- one slot

  datatype Access = Load | Store(value: Word)

  /** SLOAD and SSTORE on a slot; from Berlin on both make it warm. */
  function Price(rev: Revision, s: Slot, a: Access): Charge {
    match a
    case Load => Charge(if rev < BERLIN then 800 else if s.warm then 100 else 2100, 0)
    case Store(v) => Reference(rev, s, v)
  }

  /** SLOAD in evmzero: a base price, replaced from Berlin on by one that depends on the access. */
  function CppLoad(rev: Revision, warm: bool): int {
    if rev >= BERLIN then (if warm then 100 else 2100) else 800
  }

  /** The static gas of the three SLOAD rules; the cold one adds the price of the access to the warm price. */
  function LoadRuleGas(rev: Revision, warm: bool): int {
    if rev < BERLIN then 800 else if warm then 100 else 100 + 2000
  }

  lemma LoadPricesAgree(rev: Revision, s: Slot)
    ensures CppLoad(rev, s.warm) == LoadRuleGas(rev, s.warm) == Price(rev, s, Load).gas
      && Price(rev, s, Load).refund == 0
  {}

  function After(rev: Revision, s: Slot, a: Access): Slot {
    s.(current := if a.Store? then a.value else s.current, warm := s.warm || rev >= BERLIN)
  }

  /** The total price of a sequence of accesses. */
  function Total(rev: Revision, s: Slot, accesses: seq<Access>): Charge
    decreases |accesses|
  {
    if accesses == [] then Charge(0, 0)
    else
      var first, rest := Price(rev, s, accesses[0]), Total(rev, After(rev, s, accesses[0]), accesses[1..]);
      Charge(first.gas + rest.gas, first.refund + rest.refund)
  }

  function Final(rev: Revision, s: Slot, accesses: seq<Access>): Slot
    decreases |accesses|
  {
    if accesses == [] then s else Final(rev, After(rev, s, accesses[0]), accesses[1..])
  }

  /** How often a write brings back the original value. */
  function Restores(rev: Revision, s: Slot, accesses: seq<Access>): nat
    decreases |accesses|
  {
    if accesses == [] then 0
    else
      (if accesses[0].Store? && s.current != s.original && accesses[0].value == s.original then 1 else 0)
      + Restores(rev, After(rev, s, accesses[0]), accesses[1..])
  }

  /** The refund still held for a slot that is zero but was not. */
  function ClearedRefund(rev: Revision, s: Slot): int {
    if s.original != 0 && s.current == 0 then ClearRefund(rev) else 0
  }

  lemma {:induction false} RefundTelescopes(rev: Revision, s: Slot, accesses: seq<Access>)
    ensures Total(rev, s, accesses).refund
         == ClearedRefund(rev, Final(rev, s, accesses)) - ClearedRefund(rev, s)
           + Restores(rev, s, accesses) * RestoreRefund(rev, s.original)
    decreases |accesses|
  {
    if accesses != [] {
      var next := After(rev, s, accesses[0]);
      RefundTelescopes(rev, next, accesses[1..]);
      var restored := if accesses[0].Store? && s.current != s.original && accesses[0].value == s.original then 1 else 0;
      assert Price(rev, s, accesses[0]).refund == ClearedRefund(rev, next) - ClearedRefund(rev, s)
        + restored * RestoreRefund(rev, s.original);
      assert (restored + Restores(rev, next, accesses[1..])) * RestoreRefund(rev, s.original)
          == restored * RestoreRefund(rev, s.original)
            + Restores(rev, next, accesses[1..]) * RestoreRefund(rev, s.original);
    }
  }

  /**
   * Over any sequence of accesses to a slot that starts unmodified, the cumulative refund is the
   * clear refund if the slot ends up cleared, plus a fixed amount per restore; it is never negative.
   */
  lemma RefundClosedForm(rev: Revision, s: Slot, accesses: seq<Access>)
    requires s.current == s.original
    ensures var end := Final(rev, s, accesses);
      Total(rev, s, accesses).refund
      == (if s.original != 0 && end.current == 0 then ClearRefund(rev) else 0)
        + Restores(rev, s, accesses) * RestoreRefund(rev, s.original)
    ensures Total(rev, s, accesses).refund >= 0
  {
    RefundTelescopes(rev, s, accesses);
    FinalKeepsOriginal(rev, s, accesses);
    assert Restores(rev, s, accesses) * RestoreRefund(rev, s.original) >= 0;
  }

  lemma {:induction false} FinalKeepsOriginal(rev: Revision, s: Slot, accesses: seq<Access>)
    ensures Final(rev, s, accesses).original == s.original
    decreases |accesses|
  {
    if accesses != [] { FinalKeepsOriginal(rev, After(rev, s, accesses[0]), accesses[1..]); }
  }

  /** From Berlin on, a modified slot is warm. */
  ghost predicate DirtyIsWarm(rev: Revision, s: Slot) { rev >= BERLIN && s.current != s.original ==> s.warm }

  lemma {:induction false} ReachableIsDirtyWarm(rev: Revision, s: Slot, accesses: seq<Access>)
    requires DirtyIsWarm(rev, s)
    ensures DirtyIsWarm(rev, Final(rev, s, accesses))
    decreases |accesses|
  {
    if accesses != [] { ReachableIsDirtyWarm(rev, After(rev, s, accesses[0]), accesses[1..]); }
  }

  /**
   * After any sequence of accesses that starts with an unmodified slot, the next write costs the
   * same in all four implementations; only for writing the current value to a cold slot does the
   * table have no rule.
   */
  lemma ReachablePricesAgree(rev: Revision, s: Slot, accesses: seq<Access>, new_: Word)
    requires s.current == s.original
    ensures var end := Final(rev, s, accesses);
      var reference := Reference(rev, end, new_);
      var rule := Table(rev, end.warm, GetStorageStatus(end.original, end.current, new_));
      && Cpp(rev, end, new_) == Rust(rev, end, new_) == reference
      && (rule == Some(reference) || (rule.None? && rev >= BERLIN && !end.warm && end.current == new_))
  {
    ReachableIsDirtyWarm(rev, s, accesses);
    PricesAgree(rev, Final(rev, s, accesses), new_);
  }

  // ---------------------------------------------------- refunds against charges

  /** A lower bound for what has been paid net of refunds when a slot is in a given state. */
  function Credit(s: Slot): nat {
    if s.original == 0 then (if s.current == 0 then 0 else 20000)
    else if s.current == s.original then (if s.warm then 2100 else 0)
    else if s.current == 0 then 200 else 5000
  }

  lemma AccessPaysCredit(rev: Revision, s: Slot, a: Access)
    requires rev >= LONDON && DirtyIsWarm(rev, s)
    ensures Price(rev, s, a).gas - Price(rev, s, a).refund >= Credit(After(rev, s, a)) - Credit(s)
  {}

  lemma {:induction false} TotalPaysCredit(rev: Revision, s: Slot, accesses: seq<Access>)
    requires rev >= LONDON && DirtyIsWarm(rev, s)
    ensures Total(rev, s, accesses).gas - Total(rev, s, accesses).refund >= Credit(Final(rev, s, accesses)) - Credit(s)
    decreases |accesses|
  {
    if accesses != [] {
      AccessPaysCredit(rev, s, accesses[0]);
      TotalPaysCredit(rev, After(rev, s, accesses[0]), accesses[1..]);
    }
  }

  /**
   * From London on, the refund for an unmodified slot never exceeds the gas charged for it,
   * whatever is done to it, exactly if it starts out cold or zero.
   */
  lemma RefundCoveredByCharges(rev: Revision, s: Slot)
    requires rev >= LONDON && s.current == s.original
    ensures (forall accesses :: Total(rev, s, accesses).refund <= Total(rev, s, accesses).gas) <==>
      !s.warm || s.original == 0
  {
    if !s.warm || s.original == 0 {
      forall accesses ensures Total(rev, s, accesses).refund <= Total(rev, s, accesses).gas {
        TotalPaysCredit(rev, s, accesses);
      }
    } else {
      var clear := [Store(0)];
      assert clear[1..] == [];
      assert Total(rev, s, clear) == Charge(2900, 4800);
    }
  }

  // -------------------------------------------------------- a whole transaction

  /** The slots a transaction works on. */
  type Slots = map<Word, Slot>

  datatype KeyedAccess = At(key: Word, access: Access)

  ghost predicate Covers(slots: Slots, accesses: seq<KeyedAccess>) {
    forall i :: 0 <= i < |accesses| ==> accesses[i].key in slots
  }

  function TransactionTotal(rev: Revision, slots: Slots, accesses: seq<KeyedAccess>): Charge
    requires Covers(slots, accesses)
    decreases |accesses|
  {
    if accesses == [] then Charge(0, 0)
    else
      var At(key, access) := accesses[0];
      var first := Price(rev, slots[key], access);
      var rest := TransactionTotal(rev, slots[key := After(rev, slots[key], access)], accesses[1..]);
      Charge(first.gas + rest.gas, first.refund + rest.refund)
  }

  /** The credit of all slots, listed by their keys. */
  ghost function TotalCredit(slots: Slots, keys: seq<Word>): nat
    requires forall k :: k in keys ==> k in slots
  {
    if keys == [] then 0 else Credit(slots[keys[0]]) + TotalCredit(slots, keys[1..])
  }

  lemma {:induction false} CreditUpdate(slots: Slots, keys: seq<Word>, key: Word, slot: Slot)
    requires (forall k :: k in keys ==> k in slots) && (forall i, j :: 0 <= i < j < |keys| ==> keys[i] != keys[j])
    ensures TotalCredit(slots[key := slot], keys) == TotalCredit(slots, keys)
      + if key in keys then Credit(slot) - Credit(slots[key]) else 0
  {
    if keys != [] {
      CreditUpdate(slots, keys[1..], key, slot);
      if key == keys[0] { assert key !in keys[1..]; }
    }
  }

  lemma {:induction false} TransactionPaysCredit(rev: Revision, slots: Slots, keys: seq<Word>,
                                                 accesses: seq<KeyedAccess>)
    requires rev >= LONDON && Covers(slots, accesses) && (forall k :: k in keys <==> k in slots)
    requires (forall i, j :: 0 <= i < j < |keys| ==> keys[i] != keys[j])
    requires (forall k :: k in slots ==> DirtyIsWarm(rev, slots[k]))
    ensures var total := TransactionTotal(rev, slots, accesses);
      total.gas - total.refund + TotalCredit(slots, keys) >= 0
    decreases |accesses|
  {
    if accesses != [] {
      var At(key, access) := accesses[0];
      var next := After(rev, slots[key], access);
      AccessPaysCredit(rev, slots[key], access);
      CreditUpdate(slots, keys, key, next);
      hide Price, Credit;
      TransactionPaysCredit(rev, slots[key := next], keys, accesses[1..]);
    }
  }

  lemma {:induction false} NoCredit(slots: Slots, keys: seq<Word>)
    requires forall k :: k in keys ==> k in slots && Credit(slots[k]) == 0
    ensures TotalCredit(slots, keys) == 0
  {
    if keys != [] { NoCredit(slots, keys[1..]); }
  }

  lemma {:induction false} KeyList(keys: set<Word>) returns (list: seq<Word>)
    ensures forall k :: k in list <==> k in keys
    ensures forall i, j :: 0 <= i < j < |list| ==> list[i] != list[j]
    decreases |keys|
  {
    list := [];
    if keys != {} {
      var k :| k in keys;
      var rest := KeyList(keys - {k});
      list := [k] + rest;
    }
  }

  ghost predicate RefundsCovered(rev: Revision, slots: Slots) {
    forall accesses :: Covers(slots, accesses) ==>
      TransactionTotal(rev, slots, accesses).refund <= TransactionTotal(rev, slots, accesses).gas
  }

  /**
   * From London on, in a transaction that starts with unmodified slots, no interleaving of reads and
   * writes to any slots earns a refund larger than the gas charged, exactly if all slots start cold or zero.
   */
  lemma TransactionRefundCovered(rev: Revision, slots: Slots)
    requires rev >= LONDON && forall k :: k in slots ==> slots[k].current == slots[k].original
    ensures RefundsCovered(rev, slots) <==> forall k :: k in slots ==> !slots[k].warm || slots[k].original == 0
  {
    if k :| k in slots && slots[k].warm && slots[k].original != 0 {
      WarmSlotOverRefunds(rev, slots, k);
    } else {
      var keys := KeyList(slots.Keys);
      NoCredit(slots, keys);
      forall accesses | Covers(slots, accesses)
        ensures TransactionTotal(rev, slots, accesses).refund <= TransactionTotal(rev, slots, accesses).gas
      {
        TransactionPaysCredit(rev, slots, keys, accesses);
      }
    }
  }

  lemma WarmSlotOverRefunds(rev: Revision, slots: Slots, k: Word)
    requires rev >= LONDON && k in slots && slots[k].current == slots[k].original && slots[k].warm
    requires slots[k].original != 0
    ensures !RefundsCovered(rev, slots)
  {
    var clear := [At(k, Store(0))];
    assert clear[1..] == [] && Covers(slots, clear);
    assert TransactionTotal(rev, slots, clear) == Charge(2900, 4800);
  }

  // ------------------------------------------------------ storage of test states

  /** Storage of a test state: absent keys read as zero. */
  class Storage {
    var current: map<Word, Word>
    var original: map<Word, Word>
    var warm: set<Word>

    constructor (original: map<Word, Word>)
      ensures this.original == original && current == original && warm == {}
    {
      this.original, current, warm := original, original, {};
    }

    function SlotAt(key: Word): Slot
      reads this
    {
      Slot(if key in original then original[key] else 0, if key in current then current[key] else 0, key in warm)
    }

    method SetCurrent(key: Word, value: Word)
      modifies `current
      ensures SlotAt(key) == old(SlotAt(key)).(current := value)
      ensures forall k :: k != key ==> SlotAt(k) == old(SlotAt(k))
    {
      current := current[key := value];
    }

    method MarkWarm(key: Word)
      modifies `warm
      ensures SlotAt(key) == old(SlotAt(key)).(warm := true)
      ensures forall k :: k != key ==> SlotAt(k) == old(SlotAt(k))
    {
      warm := warm + {key};
    }

    /**
     * The SSTORE rules: the regular rule asks for at least 2301 gas and gives the difference to its
     * price back. The write happens exactly if more than 2300 gas and at least the price is left, it
     * then costs the reference price, and no other slot is affected.
     */
    method Sstore(rev: Revision, key: Word, value: Word, gas: int, refund: int) returns (left: Option<Charge>)
      requires DirtyIsWarm(rev, SlotAt(key)) && !(rev >= BERLIN && key !in warm && SlotAt(key).current == value)
      modifies this
      ensures var price := Reference(rev, old(SlotAt(key)), value);
        && (left.Some? <==> gas > 2300 && gas >= price.gas)
        && (left.Some? ==> left.value == Charge(gas - price.gas, refund + price.refund))
        && (left.Some? ==> SlotAt(key) == After(rev, old(SlotAt(key)), Store(value)))
        && (left.None? ==> SlotAt(key) == old(SlotAt(key)))
      ensures forall k :: k != key ==> SlotAt(k) == old(SlotAt(k))
    {
      var slot := SlotAt(key);
      PricesAgree(rev, slot, value);
      var params := Table(rev, slot.warm, GetStorageStatus(slot.original, slot.current, value)).value;
      hide Table, Reference, GetStorageStatus;
      var gasLimit, priceDiff := 2301, 0;
      if params.gas > gasLimit {
        gasLimit := params.gas;
      } else {
        priceDiff := gasLimit - params.gas;
      }
      if gas < gasLimit {
        return None;
      }
      SetCurrent(key, value);
      if rev >= BERLIN {
        MarkWarm(key);
      }
      return Some(Charge(gas - gasLimit + priceDiff, refund + params.refund));
    }
  }
}
