/** Contents of the execution memory: cpp/vm/evmzero/memory.h. */
module MemoryModel {
  import opened Evm
  import opened MemoryCost

  type Bytes = seq<Byte>

  function Zeros(n: nat): Bytes { seq(n, _ => 0) }

  /** Memory after growing it for an access to [offset, offset + size). */
  function Grown(memory: Bytes, offset: nat, size: nat): (r: Bytes)
    ensures |memory| <= |r|
  {
    if size != 0 && offset + size > |memory| then memory + Zeros(32 * Words(offset + size) - |memory|) else memory
  }

  /** Growth keeps the contents and the alignment, and covers the range asked for. */
  lemma GrownFits(memory: Bytes, offset: nat, size: nat)
    requires |memory| % 32 == 0
    ensures var r := Grown(memory, offset, size);
      && |r| % 32 == 0 && |r| == 32 * WordsAfter(|memory| / 32, offset, size)
      && r[..|memory|] == memory
      && (forall i :: |memory| <= i < |r| ==> r[i] == 0)
      && (size != 0 ==> offset + size <= |r|)
  {}

  /** The bytes in [offset, offset + size); empty when the range is not allocated. */
  function Span(memory: Bytes, offset: nat, size: nat): Bytes {
    if offset + size <= |memory| then memory[offset..offset + size] else []
  }

  /** Memory with data copied to offset; unchanged when the range is not allocated. */
  function Written(memory: Bytes, data: Bytes, offset: nat): (r: Bytes)
    ensures |r| == |memory|
  {
    if offset + |data| <= |memory| then memory[..offset] + data + memory[offset + |data|..] else memory
  }

  /** size bytes of a source from offset on, with zeros behind its end. */
  function Padded(source: Bytes, offset: nat, size: nat): (r: Bytes)
    ensures |r| == size
  {
    seq(size, i requires 0 <= i < size => if offset + i < |source| then source[offset + i] else 0)
  }

  lemma WrittenAt(memory: Bytes, data: Bytes, offset: nat)
    requires offset + |data| <= |memory|
    ensures forall i :: 0 <= i < |memory| ==>
      (Written(memory, data, offset)[i] == if offset <= i < offset + |data| then data[i - offset] else memory[i])
  {}

  /** Growth, byte by byte. */
  lemma GrownAt(memory: Bytes, offset: nat, size: nat)
    requires |memory| % 32 == 0
    ensures var r := Grown(memory, offset, size);
      && |memory| <= |r| == 32 * WordsAfter(|memory| / 32, offset, size)
      && (size != 0 ==> offset + size <= |r|)
      && forall i :: 0 <= i < |r| ==> r[i] == if i < |memory| then memory[i] else 0
  {
    GrownFits(memory, offset, size);
    var r := Grown(memory, offset, size);
    hide Grown, WordsAfter;
    assert forall i :: 0 <= i < |memory| ==> r[i] == r[..|memory|][i];
  }

  lemma SpanAt(memory: Bytes, offset: nat, size: nat)
    requires offset + size <= |memory|
    ensures |Span(memory, offset, size)| == size
    ensures forall i :: 0 <= i < size ==> Span(memory, offset, size)[i] == memory[offset + i]
  {}

  lemma ZerosAt(n: nat)
    ensures |Zeros(n)| == n && forall i :: 0 <= i < n ==> Zeros(n)[i] == 0
  {}

  /** Copying a buffer and zeros behind it, byte by byte. */
  lemma PaddedAt(memory: Bytes, buffer: Bytes, offset: nat, size: nat, toCopy: nat)
    requires offset + size <= |memory| && toCopy == Min(|buffer|, size)
    ensures var r := Written(Written(memory, buffer[..toCopy], offset), Zeros(size - toCopy), offset + toCopy);
      && |r| == |memory|
      && forall i :: 0 <= i < |r| ==>
        (r[i] == if offset <= i < offset + size then (if i - offset < |buffer| then buffer[i - offset] else 0)
         else memory[i])
  {
    hide Written, Zeros;
    var data := buffer[..toCopy];
    WrittenAt(memory, data, offset);
    var copied := Written(memory, data, offset);
    ZerosAt(size - toCopy);
    WrittenAt(copied, Zeros(size - toCopy), offset + toCopy);
    assert forall i :: 0 <= i < toCopy ==> data[i] == buffer[i];
  }

  lemma WrittenNothing(memory: Bytes, o1: nat, o2: nat)
    ensures Written(memory, [], o1) == Written(memory, [], o2) == memory
  {}

  /** Growing for two accesses does not depend on their order. */
  lemma GrownCommutes(memory: Bytes, o1: nat, s1: nat, o2: nat, s2: nat)
    requires |memory| % 32 == 0
    ensures Grown(Grown(memory, o1, s1), o2, s2) == Grown(Grown(memory, o2, s2), o1, s1)
  {
    var a, b := Grown(Grown(memory, o1, s1), o2, s2), Grown(Grown(memory, o2, s2), o1, s1);
    GrownFits(memory, o1, s1);
    GrownFits(Grown(memory, o1, s1), o2, s2);
    GrownFits(memory, o2, s2);
    GrownFits(Grown(memory, o2, s2), o1, s1);
    assert |a| == |b|;
    assert a == b;
  }

  /** The Memory class of evmzero; its size is always a multiple of 32. */
  class Memory {
    var data: Bytes

    ghost predicate Valid() reads this { |data| % 32 == 0 }

    constructor ()
      ensures Valid() && data == []
    {
      data := [];
    }

    /** The caller has been charged for the range, which therefore does not overflow uint64. */
    method Grow(offset: nat, size: nat)
      requires Valid() && (size != 0 ==> offset + size + 31 <= MAX_U64)
      modifies this
      ensures Valid() && data == Grown(old(data), offset, size)
    {
      if size != 0 {
        var newSize := offset + size;
        if newSize > |data| {
          data := data + Zeros((newSize + 31) / 32 * 32 - |data|);
        }
      }
      GrownFits(old(data), offset, size);
    }

    /** Copies the buffer and pads the written range with zeros. */
    method ReadFromWithSize(buffer: Bytes, offset: nat, size: nat)
      requires Valid() && (size != 0 ==> offset + size + 31 <= MAX_U64)
      modifies this
      ensures Valid()
      ensures |data| == 32 * WordsAfter(old(|data|) / 32, offset, size)
      ensures forall i :: 0 <= i < |data| ==>
        (data[i] == if offset <= i < offset + size then (if i - offset < |buffer| then buffer[i - offset] else 0)
                    else if i < old(|data|) then old(data)[i] else 0)
    {
      hide Grown, Written, WordsAfter;
      Grow(offset, size);
      GrownAt(old(data), offset, size);
      ghost var grown := data;
      if size != 0 {
        var toCopy := Min(|buffer|, size);
        PaddedAt(grown, buffer, offset, size, toCopy);
        data := Written(data, buffer[..toCopy], offset);
        data := Written(data, Zeros(size - toCopy), offset + toCopy);
      }
    }

    /** Overlapping ranges are copied as if through a buffer. */
    method MemCopy(dest: nat, src: nat, size: nat)
      requires Valid() && (size != 0 ==> dest + size + 31 <= MAX_U64 && src + size + 31 <= MAX_U64)
      modifies this
      ensures Valid()
      ensures |data| == 32 * WordsAfter(WordsAfter(old(|data|) / 32, src, size), dest, size)
      ensures forall i :: 0 <= i < |data| ==>
        (data[i] == if dest <= i < dest + size then Grown(old(data), src, size)[src + (i - dest)]
                    else Grown(Grown(old(data), src, size), dest, size)[i])
    {
      hide Grown, Written, Span, WordsAfter;
      Grow(src, size);
      ghost var before := data;
      Grow(dest, size);
      GrownAt(old(data), src, size);
      GrownAt(before, dest, size);
      ghost var grown := data;
      if size != 0 {
        SpanAt(grown, src, size);
        WrittenAt(grown, Span(grown, src, size), dest);
        data := Written(data, Span(data, src, size), dest);
      }
    }
  }
}
