/**
 * cpp/vm/evmzero/sha3_cache.h: hashing through two LRU caches that are shared by threads. A call
 * locks the cache twice, once to look the key up and, after a miss, once more to insert the hash;
 * other threads may get in between.
 */
module Sha3Cache {
  import opened Evm
  import opened LruCache

  type Bytes = seq<Byte>
  type Hash = Bytes -> Word

  const CAPACITY: nat := 1024

  /** Where a thread is in its call of Hash. */
  datatype Thread = Idle | Missed(input: Bytes) | Computed(input: Bytes, hash: Word)

  /** returned lists what finished calls were asked for and what they answered. */
  datatype State = State(cache32: Recency<Bytes, Word>, cache64: Recency<Bytes, Word>, threads: seq<Thread>,
                         returned: seq<(Bytes, Word)>)

  /** The atomic steps of a thread: a critical section, or the computation between two of them. */
  datatype Step = Begin(thread: nat, input: Bytes) | Compute(thread: nat) | Insert(thread: nat)

  predicate IsCached(input: Bytes) { |input| == 32 || |input| == 64 }

  function CacheFor(s: State, input: Bytes): Recency<Bytes, Word> { if |input| == 32 then s.cache32 else s.cache64 }

  function WithCache(s: State, input: Bytes, cache: Recency<Bytes, Word>): State {
    if |input| == 32 then s.(cache32 := cache) else s.(cache64 := cache)
  }

  predicate Enabled(s: State, step: Step) {
    && step.thread < |s.threads|
    && match step
       case Begin(t, _) => s.threads[t].Idle?
       case Compute(t) => s.threads[t].Missed?
       case Insert(t) => s.threads[t].Computed?
  }

  function Return(s: State, t: nat, input: Bytes, hash: Word): State
    requires t < |s.threads|
  {
    s.(threads := s.threads[t := Idle], returned := s.returned + [(input, hash)])
  }

  /** One step of one thread. An input of any other length bypasses the caches. */
  function Next(s: State, step: Step, f: Hash): State
    requires Enabled(s, step) && |s.cache32| <= CAPACITY && |s.cache64| <= CAPACITY
  {
    match step
    case Begin(t, input) =>
      if !IsCached(input) then Return(s, t, input, f(input))
      else
        var cache := CacheFor(s, input);
        var s' := WithCache(s, input, Touched(cache, input));
        if Lookup(cache, input).Some? then Return(s', t, input, Lookup(cache, input).value)
        else s'.(threads := s.threads[t := Missed(input)])
    case Compute(t) => s.(threads := s.threads[t := Computed(s.threads[t].input, f(s.threads[t].input))])
    case Insert(t) =>
      var Computed(input, hash) := s.threads[t];
      Return(WithCache(s, input, Inserted(CacheFor(s, input), input, hash, CAPACITY)), t, input, hash)
  }

  /** A cache that only holds hashes of inputs of its length, each at most once. */
  ghost predicate Sound(cache: Recency<Bytes, Word>, length: nat, f: Hash) {
    |cache| <= CAPACITY && DistinctKeys(cache) && forall i :: 0 <= i < |cache| ==>
      |cache[i].0| == length && cache[i].1 == f(cache[i].0)
  }

  ghost predicate Invariant(s: State, f: Hash) {
    && Sound(s.cache32, 32, f) && Sound(s.cache64, 64, f)
    && (forall t :: 0 <= t < |s.threads| ==> !s.threads[t].Idle? ==> IsCached(s.threads[t].input))
    && (forall t :: 0 <= t < |s.threads| ==> s.threads[t].Computed? ==> s.threads[t].hash == f(s.threads[t].input))
    && (forall i :: 0 <= i < |s.returned| ==> s.returned[i].1 == f(s.returned[i].0))
  }

  lemma TouchedIsSound(cache: Recency<Bytes, Word>, length: nat, f: Hash, input: Bytes)
    requires Sound(cache, length, f)
    ensures Sound(Touched(cache, input), length, f)
    ensures Lookup(cache, input).Some? ==> Lookup(cache, input).value == f(input)
  {
    ApplyKeepsDistinct(cache, GetOp(input), CAPACITY);
    if Position(cache, input) < |cache| { MoveToFrontAt(cache, Position(cache, input)); }
  }

  lemma InsertedIsSound(cache: Recency<Bytes, Word>, length: nat, f: Hash, input: Bytes)
    requires Sound(cache, length, f) && |input| == length
    ensures Sound(Inserted(cache, input, f(input), CAPACITY), length, f)
  {
    ApplyKeepsDistinct(cache, PutOp(input, f(input)), CAPACITY);
  }

  lemma StepKeepsInvariant(s: State, step: Step, f: Hash)
    requires Invariant(s, f) && Enabled(s, step)
    ensures Invariant(Next(s, step, f), f)
  {
    hide Sound, Touched, Inserted, Lookup;
    SoundSize(s.cache32, 32, f);
    SoundSize(s.cache64, 64, f);
    match step
    case Begin(t, input) =>
      if IsCached(input) { TouchedIsSound(CacheFor(s, input), |input|, f, input); }
    case Compute(t) =>
    case Insert(t) =>
      var input := s.threads[t].input;
      InsertedIsSound(CacheFor(s, input), |input|, f, input);
  }

  lemma SoundSize(cache: Recency<Bytes, Word>, length: nat, f: Hash)
    requires Sound(cache, length, f)
    ensures |cache| <= CAPACITY
  {}

  /** The states of a run: any interleaving of enabled steps. */
  ghost predicate IsRun(run: seq<State>, steps: seq<Step>, f: Hash) {
    && |run| == |steps| + 1
    && forall i :: 0 <= i < |steps| ==>
         Enabled(run[i], steps[i]) && |run[i].cache32| <= CAPACITY && |run[i].cache64| <= CAPACITY
           && run[i + 1] == Next(run[i], steps[i], f)
  }

  /**
   * In every run of any number of threads from empty caches, every call of Hash answers with the
   * hash of its input, and no cache ever holds anything but hashes.
   */
  lemma {:induction false} HashesAreCorrect(run: seq<State>, steps: seq<Step>, f: Hash, n: nat)
    requires IsRun(run, steps, f) && n < |run|
    requires run[0].cache32 == run[0].cache64 == [] && run[0].returned == []
      && forall t :: 0 <= t < |run[0].threads| ==> run[0].threads[t].Idle?
    ensures Invariant(run[n], f)
    ensures forall i :: 0 <= i < |run[n].returned| ==> run[n].returned[i].1 == f(run[n].returned[i].0)
  {
    if n > 0 {
      HashesAreCorrect(run, steps, f, n - 1);
      assert run[n - 1 + 1] == Next(run[n - 1], steps[n - 1], f);
      StepKeepsInvariant(run[n - 1], steps[n - 1], f);
    }
  }
}
