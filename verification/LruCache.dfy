/** cpp/common/lru_cache.h: an intrusive doubly linked list threaded through a fixed array of entries. */
module LruCache {
  import opened Evm

  // ---------------------------------------------------------- recency lists

  /** What the cache stands for: its contents, most recently used first. */
  type Recency<K, V> = seq<(K, V)>

  function MoveToFront<T>(s: seq<T>, p: nat): (r: seq<T>)
    requires p < |s|
    ensures |r| == |s|
  {
    [s[p]] + s[..p] + s[p + 1..]
  }

  /** The position of a key, or the length of the list if it is absent. */
  function Position<K(==), V>(l: Recency<K, V>, key: K): (p: nat)
    ensures p <= |l|
    ensures p < |l| ==> l[p].0 == key
    ensures forall i :: 0 <= i < p ==> l[i].0 != key
  {
    if l == [] then 0 else if l[0].0 == key then 0 else 1 + Position(l[1..], key)
  }

  /** A lookup moves the entry it finds to the front. */
  function Touched<K(==), V>(l: Recency<K, V>, key: K): Recency<K, V> {
    var p := Position(l, key);
    if p < |l| then MoveToFront(l, p) else l
  }

  function Lookup<K(==), V>(l: Recency<K, V>, key: K): Option<V> {
    var p := Position(l, key);
    if p < |l| then Some(l[p].1) else None
  }

  /** An insertion overwrites in place, or pushes to the front and evicts the last entry of a full list. */
  function Inserted<K(==), V>(l: Recency<K, V>, key: K, value: V, capacity: nat): Recency<K, V>
    requires |l| <= capacity && capacity >= 1
  {
    var p := Position(l, key);
    if p < |l| then l[p := (key, value)]
    else [(key, value)] + if |l| == capacity then l[..capacity - 1] else l
  }

  ghost predicate DistinctKeys<K, V>(l: Recency<K, V>) {
    forall i, j :: 0 <= i < j < |l| ==> l[i].0 != l[j].0
  }

  lemma PositionUnique<K, V>(l: Recency<K, V>, key: K, p: nat)
    requires DistinctKeys(l) && p < |l| && l[p].0 == key
    ensures Position(l, key) == p
  {}

  // --------------------------------------------------------------- the cache

  const NULL: int := -1

  /** An entry; pred and succ are indices into the array of entries, or NULL. */
  datatype Node<K, V> = Node(key: K, value: V, pred: int, succ: int)

  ghost predicate Injective(s: seq<int>) { forall i, j :: 0 <= i < j < |s| ==> s[i] != s[j] }

  /** All entries form one doubly linked list from head to tail. What the tail's succ is, is left open. */
  ghost predicate WellLinked<K, V>(nodes: seq<Node<K, V>>, order: seq<int>, head: int, tail: int) {
    && 2 <= |nodes| == |order| && Injective(order)
    && (forall i :: 0 <= i < |order| ==> 0 <= order[i] < |nodes|)
    && head == order[0] && tail == order[|order| - 1]
    && (forall i :: 0 < i < |order| ==> nodes[order[i]].pred == order[i - 1])
    && (forall i :: 0 <= i < |order| - 1 ==> nodes[order[i]].succ == order[i + 1])
  }

  /** The indexed entries are exactly a prefix of the list. */
  ghost predicate WellIndexed<K, V>(nodes: seq<Node<K, V>>, order: seq<int>, index: map<K, int>)
    requires forall i :: 0 <= i < |order| ==> 0 <= order[i] < |nodes|
  {
    && |index| <= |order|
    && (forall i :: 0 <= i < |index| ==> nodes[order[i]].key in index && index[nodes[order[i]].key] == order[i])
    && (forall k :: k in index ==>
        0 <= index[k] < |nodes| && InPrefix(order, |index|, index[k]) && nodes[index[k]].key == k)
  }

  ghost predicate InPrefix(order: seq<int>, n: nat, entry: int) {
    exists i :: 0 <= i < n && i < |order| && order[i] == entry
  }

  ghost function Contents<K, V>(nodes: seq<Node<K, V>>, order: seq<int>): Recency<K, V>
    requires forall i :: 0 <= i < |order| ==> 0 <= order[i] < |nodes|
  {
    seq(|order|, i requires 0 <= i < |order| => (nodes[order[i]].key, nodes[order[i]].value))
  }

  lemma MoveToFrontAt<T>(s: seq<T>, p: nat)
    requires p < |s|
    ensures MoveToFront(s, p)[0] == s[p]
    ensures forall j :: 1 <= j <= p ==> MoveToFront(s, p)[j] == s[j - 1]
    ensures forall j :: p < j < |s| ==> MoveToFront(s, p)[j] == s[j]
  {}

  ghost predicate SameData<K, V>(a: seq<Node<K, V>>, b: seq<Node<K, V>>) {
    |a| == |b| && forall i :: 0 <= i < |a| ==> a[i].key == b[i].key && a[i].value == b[i].value
  }

  /** The nodes after taking an entry out of its place between pred and succ and putting it before the head. */
  function Relinked<K, V>(nodes: seq<Node<K, V>>, entry: int, pred: int, succ: int, head: int): seq<Node<K, V>>
    requires 0 <= entry < |nodes| && 0 <= pred < |nodes| && 0 <= head < |nodes| && NULL <= succ < |nodes|
  {
    var n1 := nodes[pred := nodes[pred].(succ := succ)];
    var n2 := if succ != NULL then n1[succ := n1[succ].(pred := pred)] else n1;
    var n3 := n2[entry := n2[entry].(pred := NULL, succ := head)];
    n3[head := n3[head].(pred := entry)]
  }

  /** The links of the relinked nodes, by their old positions. */
  lemma RelinkedLinks<K, V>(nodes: seq<Node<K, V>>, order: seq<int>, head: int, tail: int, p: nat, succ: int)
    requires WellLinked(nodes, order, head, tail) && 0 < p < |order|
    requires succ == if p + 1 < |order| then order[p + 1] else NULL
    ensures var r := Relinked(nodes, order[p], order[p - 1], succ, head);
      && SameData(nodes, r)
      && (forall i :: 0 <= i < |order| ==> i != p && i != 0 && i != p + 1 ==> r[order[i]].pred == order[i - 1])
      && (forall i :: 0 <= i < |order| - 1 ==> i != p && i != p - 1 ==> r[order[i]].succ == order[i + 1])
      && r[order[p]].pred == NULL && r[order[p]].succ == head
      && r[order[0]].pred == order[p] && r[order[p - 1]].succ == succ
      && (p + 1 < |order| ==> r[order[p + 1]].pred == order[p - 1] && r[tail].succ == nodes[tail].succ)
  {
    var r := Relinked(nodes, order[p], order[p - 1], succ, head);
    forall i | 0 <= i < |order|
      ensures i != p && i != 0 && i != p + 1 ==> r[order[i]].pred == order[i - 1]
      ensures i < |order| - 1 && i != p && i != p - 1 ==> r[order[i]].succ == order[i + 1]
    {
      assert i != p ==> order[i] != order[p];
      assert i != p - 1 ==> order[i] != order[p - 1];
      assert i != 0 ==> order[i] != order[0];
      assert i != p + 1 && p + 1 < |order| ==> order[i] != order[p + 1];
    }
  }

  /** Relinking an entry is moving it to the front of the list. */
  lemma RelinkedIsWellLinked<K, V>(nodes: seq<Node<K, V>>, order: seq<int>, head: int, tail: int, p: nat, succ: int)
    requires WellLinked(nodes, order, head, tail) && 0 < p < |order|
    requires succ == if p + 1 < |order| then order[p + 1] else NULL
    ensures var r := Relinked(nodes, order[p], order[p - 1], succ, head);
      var newTail := if p + 1 < |order| then tail else order[p - 1];
      && WellLinked(r, MoveToFront(order, p), order[p], newTail) && SameData(nodes, r)
      && r[newTail].succ == if p + 1 < |order| then nodes[tail].succ else NULL
  {
    hide Relinked, MoveToFront, SameData;
    RelinkedLinks(nodes, order, head, tail, p, succ);
    MoveToFrontAt(order, p);
    var r := Relinked(nodes, order[p], order[p - 1], succ, head);
    var moved := MoveToFront(order, p);
    MoveIsPermutation(order, moved, p);
    forall j | 0 < j < |order| ensures r[moved[j]].pred == moved[j - 1] {
      if j > 1 { assert moved[j - 1] == order[if j - 1 <= p then j - 2 else j - 1]; }
    }
    forall j | 0 <= j < |order| - 1 ensures r[moved[j]].succ == moved[j + 1] {
      assert moved[j + 1] == order[if j + 1 <= p then j else j + 1];
    }
  }

  lemma MoveIsPermutation(order: seq<int>, moved: seq<int>, p: nat)
    requires IsMove(order, moved, p) && Injective(order)
    ensures Injective(moved)
    ensures forall j :: 0 <= j < |moved| ==> moved[j] == order[if j == 0 then p else if j <= p then j - 1 else j]
  {}

  /** The indexed prefix holds pairwise distinct keys, and the index finds their positions. */
  lemma IndexedPositions<K, V>(nodes: seq<Node<K, V>>, order: seq<int>, index: map<K, int>)
    requires Injective(order) && (forall i :: 0 <= i < |order| ==> 0 <= order[i] < |nodes|)
    requires WellIndexed(nodes, order, index)
    ensures DistinctKeys(Contents(nodes, order[..|index|]))
    ensures forall k :: k in index <==> Position(Contents(nodes, order[..|index|]), k) < |index|
  {
    var l := Contents(nodes, order[..|index|]);
    assert DistinctKeys(l) by {
      forall i, j | 0 <= i < j < |l| ensures l[i].0 != l[j].0 {
        assert order[i] != order[j];
      }
    }
    forall k ensures k in index <==> Position(l, k) < |l| {
      if k in index {
        var p :| 0 <= p < |index| && p < |order| && order[p] == index[k];
        assert l[p].0 == k;
      }
    }
  }

  /** moved is order with its entry p put in front. */
  ghost predicate IsMove(order: seq<int>, moved: seq<int>, p: nat) {
    && |moved| == |order| && p < |order| && moved[0] == order[p]
    && (forall j :: 1 <= j <= p ==> moved[j] == order[j - 1])
    && (forall j :: p < j < |order| ==> moved[j] == order[j])
  }

  ghost predicate InRange<K, V>(nodes: seq<Node<K, V>>, order: seq<int>) {
    forall i :: 0 <= i < |order| ==> 0 <= order[i] < |nodes|
  }

  /** The two halves of WellIndexed. */
  ghost predicate PrefixIndexed<K, V>(nodes: seq<Node<K, V>>, order: seq<int>, index: map<K, int>)
    requires InRange(nodes, order) && |index| <= |order|
  {
    forall i :: 0 <= i < |index| ==> nodes[order[i]].key in index && index[nodes[order[i]].key] == order[i]
  }

  ghost predicate IndexInPrefix<K, V>(nodes: seq<Node<K, V>>, order: seq<int>, index: map<K, int>) {
    forall k :: k in index ==>
      0 <= index[k] < |nodes| && InPrefix(order, |index|, index[k]) && nodes[index[k]].key == k
  }

  lemma WellIndexedHalves<K, V>(nodes: seq<Node<K, V>>, order: seq<int>, index: map<K, int>)
    requires InRange(nodes, order)
    ensures WellIndexed(nodes, order, index) <==>
      |index| <= |order| && PrefixIndexed(nodes, order, index) && IndexInPrefix(nodes, order, index)
  {
    hide InPrefix;
  }

  lemma MovedAt(order: seq<int>, moved: seq<int>, p: nat, i: nat)
    requires IsMove(order, moved, p) && i < |order|
    ensures moved[i] == order[if i == 0 then p else if i <= p then i - 1 else i]
    ensures order[i] == moved[if i == p then 0 else if i < p then i + 1 else i]
  {}

  /** A list move within the indexed prefix keeps the index. */
  lemma IndexedMove<K, V>(nodes: seq<Node<K, V>>, after: seq<Node<K, V>>, order: seq<int>, moved: seq<int>,
                          index: map<K, int>, p: nat)
    requires InRange(nodes, order) && WellIndexed(nodes, order, index) && p < |index| && SameData(nodes, after)
    requires IsMove(order, moved, p)
    ensures InRange(after, moved) && WellIndexed(after, moved, index)
  {
    WellIndexedHalves(nodes, order, index);
    assert |index| <= |order| == |moved|;
    hide WellIndexed, IsMove;
    forall i | 0 <= i < |moved| ensures 0 <= moved[i] < |after| { MovedAt(order, moved, p, i); }
    assert PrefixIndexed(after, moved, index) by {
      hide IndexInPrefix;
      forall i | 0 <= i < |index|
        ensures after[moved[i]].key in index && index[after[moved[i]].key] == moved[i]
      {
        MovedAt(order, moved, p, i);
      }
    }
    assert IndexInPrefix(after, moved, index) by {
      hide PrefixIndexed;
      forall k | k in index ensures InPrefix(moved, |index|, index[k]) {
        PrefixMoves(order, moved, p, |index|, index[k]);
      }
    }
    WellIndexedHalves(after, moved, index);
  }

  lemma PrefixMoves(order: seq<int>, moved: seq<int>, p: nat, n: nat, entry: int)
    requires IsMove(order, moved, p) && p < n && InPrefix(order, n, entry)
    ensures InPrefix(moved, n, entry)
  {
    var i :| 0 <= i < n && i < |order| && order[i] == entry;
    MovedAt(order, moved, p, i);
  }

  lemma ContentsMove<K, V>(nodes: seq<Node<K, V>>, after: seq<Node<K, V>>, order: seq<int>, moved: seq<int>, n: nat,
                           p: nat)
    requires p < n <= |order| && InRange(nodes, order) && InRange(after, moved) && SameData(nodes, after)
    requires IsMove(order, moved, p)
    ensures Contents(after, moved[..n]) == MoveToFront(Contents(nodes, order[..n]), p)
  {
    var l := Contents(nodes, order[..n]);
    MoveToFrontAt(l, p);
    hide MoveToFront;
    assert Contents(after, moved[..n]) == MoveToFront(l, p);
  }

  lemma IndexFits<K, V>(nodes: seq<Node<K, V>>, order: seq<int>, index: map<K, int>)
    requires InRange(nodes, order) && WellIndexed(nodes, order, index)
    ensures |index| <= |order|
  {}

  /** What remains indexed when the last entry of the list is recycled. */
  ghost function Kept<K, V>(nodes: seq<Node<K, V>>, order: seq<int>, index: map<K, int>): map<K, int>
    requires 2 <= |order| && InRange(nodes, order)
  {
    if |index| == |order| then index - {nodes[order[|order| - 1]].key} else index
  }

  lemma KeptPrefix<K, V>(nodes: seq<Node<K, V>>, order: seq<int>, index: map<K, int>)
    requires 2 <= |order| && Injective(order) && InRange(nodes, order) && WellIndexed(nodes, order, index)
    ensures var kept := Kept(nodes, order, index);
      && |kept| == Min(|index|, |order| - 1)
      && (forall k :: k in kept ==> k in index && kept[k] == index[k] && InPrefix(order, |kept|, kept[k]))
      && (forall i :: 0 <= i < |kept| ==> nodes[order[i]].key in kept)
  {
    var n, kept := |order|, Kept(nodes, order, index);
    WellIndexedHalves(nodes, order, index);
    hide WellIndexed;
    if |index| == n {
      var last := nodes[order[n - 1]].key;
      assert last in index && index[last] == order[n - 1];
      assert kept.Keys == index.Keys - {last};
    }
    assert |kept| == Min(|index|, n - 1);
    forall k | k in kept ensures InPrefix(order, |kept|, kept[k]) {
      hide PrefixIndexed;
      var i :| 0 <= i < |index| && i < |order| && order[i] == index[k];
      if |index| == n { assert i != n - 1; }
    }
    forall i | 0 <= i < |kept| ensures nodes[order[i]].key in kept {
      hide IndexInPrefix;
      if |index| == n { assert order[i] != order[n - 1]; }
    }
  }

  /** after differs from nodes in the data of one entry only. */
  ghost predicate DataSet<K, V>(nodes: seq<Node<K, V>>, after: seq<Node<K, V>>, entry: int, key: K, value: V) {
    && |after| == |nodes| && 0 <= entry < |nodes| && after[entry].key == key && after[entry].value == value
    && forall i :: 0 <= i < |nodes| && i != entry ==> after[i].key == nodes[i].key && after[i].value == nodes[i].value
  }

  /** Recycling the last entry for a new key indexes the entry at the head. */
  lemma IndexedInsert<K, V>(nodes: seq<Node<K, V>>, after: seq<Node<K, V>>, order: seq<int>, moved: seq<int>,
                            index: map<K, int>, key: K, value: V)
    requires 2 <= |order| && Injective(order) && InRange(nodes, order) && WellIndexed(nodes, order, index)
    requires key !in index
    requires IsMove(order, moved, |order| - 1) && DataSet(nodes, after, moved[0], key, value)
    ensures InRange(after, moved) && WellIndexed(after, moved, Kept(nodes, order, index)[key := moved[0]])
    ensures |Kept(nodes, order, index)[key := moved[0]]| == Min(|index|, |order| - 1) + 1
  {
    MovedLast(order, moved);
    KeptPrefix(nodes, order, index);
    WellIndexedHalves(nodes, order, index);
    var kept := Kept(nodes, order, index);
    hide Kept, IsMove, Injective, WellIndexed;
    var index' := kept[key := moved[0]];
    assert |index'| == |kept| + 1;
    assert InRange(after, moved);
    assert PrefixIndexed(after, moved, index') by {
      hide IndexInPrefix, InPrefix, Min;
      forall i | 0 <= i < |index'|
        ensures after[moved[i]].key in index' && index'[after[moved[i]].key] == moved[i]
      {
        if i > 0 { assert moved[i] == order[i - 1] && nodes[order[i - 1]].key in kept; }
      }
    }
    assert IndexInPrefix(after, moved, index') by {
      hide PrefixIndexed, Min;
      forall k | k in index'
        ensures 0 <= index'[k] < |after| && InPrefix(moved, |index'|, index'[k]) && after[index'[k]].key == k
      {
        if k == key {
          assert moved[0] == index'[k];
        } else {
          var i :| 0 <= i < |kept| && i < |order| && order[i] == kept[k];
          assert moved[i + 1] == order[i];
        }
      }
    }
    WellIndexedHalves(after, moved, index');
  }

  lemma MovedLast(order: seq<int>, moved: seq<int>)
    requires 2 <= |order| && Injective(order) && IsMove(order, moved, |order| - 1)
    ensures |moved| == |order| && moved[0] == order[|order| - 1]
    ensures forall i :: 0 < i < |moved| ==> moved[i] == order[i - 1]
    ensures forall i :: 0 < i < |moved| ==> moved[i] != moved[0]
  {}

  lemma ContentsInsert<K, V>(nodes: seq<Node<K, V>>, after: seq<Node<K, V>>, order: seq<int>, moved: seq<int>, n: nat,
                             key: K, value: V)
    requires 2 <= |order| && Injective(order) && n <= |order| && InRange(nodes, order) && InRange(after, moved)
    requires IsMove(order, moved, |order| - 1) && DataSet(nodes, after, moved[0], key, value)
    requires Position(Contents(nodes, order[..n]), key) == n
    ensures Contents(after, moved[..Min(n, |order| - 1) + 1])
      == Inserted(Contents(nodes, order[..n]), key, value, |order|)
  {
    var m := Min(n, |order| - 1);
    forall i | 0 < i <= m ensures moved[i] == order[i - 1] != moved[0] {}
    assert Contents(after, moved[..m + 1]) == [(key, value)] + Contents(nodes, order[..n])[..m];
  }

  /**
   * The invariant of the cache. The succ link of the tail starts out as the address one past the
   * last entry; as soon as an entry is in use it is null.
   */
  ghost predicate WellFormed<K, V>(nodes: seq<Node<K, V>>, order: seq<int>, head: int, tail: int, index: map<K, int>) {
    && WellLinked(nodes, order, head, tail) && WellIndexed(nodes, order, index)
    && (|index| > 0 ==> nodes[tail].succ == NULL)
  }

  ghost function List<K, V>(nodes: seq<Node<K, V>>, order: seq<int>, index: map<K, int>): Recency<K, V>
    requires InRange(nodes, order) && |index| <= |order|
  {
    Contents(nodes, order[..|index|])
  }

  lemma WellFormedInRange<K, V>(nodes: seq<Node<K, V>>, order: seq<int>, head: int, tail: int, index: map<K, int>)
    requires WellFormed(nodes, order, head, tail, index)
    ensures InRange(nodes, order) && |index| <= |order| == |nodes| && 0 <= tail < |nodes| && 0 <= head < |nodes|
      && 2 <= |nodes|
    ensures forall k :: k in index <==> Position(List(nodes, order, index), k) < |List(nodes, order, index)|
    ensures forall k :: k in index ==>
      0 <= index[k] < |nodes| && index[k] == order[Position(List(nodes, order, index), k)]
    ensures DistinctKeys(List(nodes, order, index)) && |List(nodes, order, index)| == |index|
  {
    IndexedPositions(nodes, order, index);
  }

  /** An indexed entry is where the list says, and once there is one the tail ends the list. */
  lemma BeforeTouch<K, V>(nodes: seq<Node<K, V>>, order: seq<int>, head: int, tail: int, index: map<K, int>, key: K)
    requires WellFormed(nodes, order, head, tail, index) && key in index
    ensures InRange(nodes, order) && |index| <= |order| && 0 <= tail < |nodes| && 0 <= index[key] < |nodes|
    ensures WellLinked(nodes, order, head, tail) && nodes[tail].succ == NULL
    ensures var p := Position(List(nodes, order, index), key);
      && p < |order| && index[key] == order[p]
      && Lookup(List(nodes, order, index), key) == Some(nodes[index[key]].value)
  {
    WellFormedInRange(nodes, order, head, tail, index);
  }

  lemma MissChangesNothing<K, V>(nodes: seq<Node<K, V>>, order: seq<int>, head: int, tail: int, index: map<K, int>,
                                 key: K)
    requires WellFormed(nodes, order, head, tail, index) && key !in index
    ensures InRange(nodes, order) && |index| <= |order|
    ensures Touched(List(nodes, order, index), key) == List(nodes, order, index)
      && Lookup(List(nodes, order, index), key) == None
  {
    WellFormedInRange(nodes, order, head, tail, index);
  }

  lemma AfterTouch<K, V>(nodes: seq<Node<K, V>>, order: seq<int>, head: int, tail: int, index: map<K, int>, key: K,
                         after: seq<Node<K, V>>, head': int, tail': int)
    requires WellFormed(nodes, order, head, tail, index) && key in index
    requires InRange(nodes, order) && |index| <= |order| && Position(List(nodes, order, index), key) < |order|
    requires WellLinked(after, MoveToFront(order, Position(List(nodes, order, index), key)), head', tail')
    requires SameData(nodes, after) && after[tail'].succ == nodes[tail].succ
    ensures var moved := MoveToFront(order, Position(List(nodes, order, index), key));
      && WellFormed(after, moved, head', tail', index) && InRange(after, moved)
      && List(after, moved, index) == Touched(List(nodes, order, index), key)
  {
    hide WellLinked, WellIndexed, Contents, MoveToFront, Position, SameData;
    WellFormedInRange(nodes, order, head, tail, index);
    var p := Position(List(nodes, order, index), key);
    MoveToFrontAt(order, p);
    IndexedMove(nodes, after, order, MoveToFront(order, p), index, p);
    ContentsMove(nodes, after, order, MoveToFront(order, p), |index|, p);
  }

  lemma AfterAssign<K, V>(nodes: seq<Node<K, V>>, order: seq<int>, head: int, tail: int, index: map<K, int>, key: K,
                          value: V)
    requires WellFormed(nodes, order, head, tail, index) && key in index && 0 <= index[key] < |nodes|
    requires InRange(nodes, order) && |index| <= |order|
    ensures var after := nodes[index[key] := nodes[index[key]].(value := value)];
      && WellFormed(after, order, head, tail, index) && InRange(after, order)
      && List(after, order, index) == Inserted(List(nodes, order, index), key, value, |order|)
  {
    hide WellLinked, WellIndexed, Position;
    WellFormedInRange(nodes, order, head, tail, index);
    var after := nodes[index[key] := nodes[index[key]].(value := value)];
    SameLinks(nodes, after, order, head, tail, index);
    var l := List(nodes, order, index);
    var p := Position(l, key);
    forall i | 0 <= i < |index| ensures List(after, order, index)[i] == l[p := (key, value)][i] {
      if i != p { OrderInjective(nodes, order, head, tail, i, p); }
    }
    assert List(after, order, index) == l[p := (key, value)];
  }

  lemma OrderInjective<K, V>(nodes: seq<Node<K, V>>, order: seq<int>, head: int, tail: int, i: nat, j: nat)
    requires WellLinked(nodes, order, head, tail) && i < |order| && j < |order| && i != j
    ensures order[i] != order[j]
  {}

  /** Links and keys determine whether the list and the index are in order; values do not matter. */
  lemma SameLinks<K, V>(nodes: seq<Node<K, V>>, after: seq<Node<K, V>>, order: seq<int>, head: int, tail: int,
                        index: map<K, int>)
    requires WellLinked(nodes, order, head, tail) && WellIndexed(nodes, order, index) && |after| == |nodes|
    requires forall i :: 0 <= i < |nodes| ==> after[i] == nodes[i].(value := after[i].value)
    ensures WellLinked(after, order, head, tail) && InRange(after, order) && WellIndexed(after, order, index)
  {}

  lemma SetHeadData<K, V>(nodes: seq<Node<K, V>>, order: seq<int>, head: int, tail: int, key: K, value: V)
    requires WellLinked(nodes, order, head, tail)
    ensures 0 <= head < |nodes| && 0 <= tail < |nodes|
    ensures var after := nodes[head := nodes[head].(key := key, value := value)];
      WellLinked(after, order, head, tail) && after[tail].succ == nodes[tail].succ
        && DataSet(nodes, after, head, key, value)
  {}

  lemma AfterInsert<K, V>(nodes: seq<Node<K, V>>, order: seq<int>, head: int, tail: int, index: map<K, int>, key: K,
                          value: V, after: seq<Node<K, V>>, head': int, tail': int, index': map<K, int>)
    requires WellFormed(nodes, order, head, tail, index) && key !in index && InRange(nodes, order) && 2 <= |order|
    requires WellLinked(after, MoveToFront(order, |order| - 1), head', tail') && after[tail'].succ == NULL
    requires DataSet(nodes, after, head', key, value) && index' == Kept(nodes, order, index)[key := head']
    ensures var moved := MoveToFront(order, |order| - 1);
      && WellFormed(after, moved, head', tail', index') && InRange(after, moved)
      && List(after, moved, index') == Inserted(List(nodes, order, index), key, value, |order|)
  {
    hide WellIndexed, Contents, DataSet, Kept, Position, MoveToFront;
    WellFormedInRange(nodes, order, head, tail, index);
    var moved := MoveToFront(order, |order| - 1);
    MoveToFrontAt(order, |order| - 1);
    IndexedInsert(nodes, after, order, moved, index, key, value);
    ContentsInsert(nodes, after, order, moved, |index|, key, value);
  }

  class LruCache<K(==), V> {
    const capacity: nat
    const zeroKey: K
    const zeroValue: V
    const entries: array<Node<K, V>>
    var index: map<K, int>
    var head: int
    var tail: int
    /** The entries in list order. */
    ghost var order: seq<int>

    ghost predicate Valid()
      reads this, entries
    {
      entries.Length == capacity && WellFormed(entries[..], order, head, tail, index)
    }

    ghost function View(): Recency<K, V>
      requires Valid()
      reads this, entries
    {
      List(entries[..], order, index)
    }

    constructor (capacity: nat, zeroKey: K, zeroValue: V)
      requires capacity >= 2
      ensures Valid() && View() == [] && this.capacity == capacity && fresh(entries)
    {
      this.capacity, this.zeroKey, this.zeroValue := capacity, zeroKey, zeroValue;
      entries := new Node<K, V>[capacity](_ => Node(zeroKey, zeroValue, NULL, NULL));
      index, head, tail, order := map[], 0, 0, [];
      new;
      Clear();
    }

    /** All entries unused; the succ link of the last one points one past the end of the array. */
    method Clear()
      requires capacity >= 2 && entries.Length == capacity
      modifies this, entries
      ensures Valid() && View() == []
    {
      for i := 0 to entries.Length
        invariant forall j :: 0 <= j < i ==>
          entries[j] == Node(zeroKey, zeroValue, if j > 0 then j - 1 else NULL, j + 1)
      {
        entries[i] := Node(zeroKey, zeroValue, if i > 0 then i - 1 else NULL,
                           if i < entries.Length then i + 1 else NULL);
      }
      head := 0;
      tail := capacity - 1;
      index := map[];
      order := seq(capacity, i => i);
    }

    /** Moves the entry at position p of the list to the front. */
    method Touch(entry: int, ghost p: nat)
      requires entries.Length == capacity && WellLinked(entries[..], order, head, tail)
      requires p < capacity && entry == order[p]
      requires p == capacity - 1 ==> entries[tail].succ == NULL
      modifies `head, `tail, `order, entries
      ensures order == MoveToFront(old(order), p) && WellLinked(entries[..], order, head, tail)
      ensures SameData(old(entries[..]), entries[..])
      ensures entries[tail].succ == old(entries[tail].succ)
    {
      ghost var nodes := entries[..];
      if entry == head {
        assert p == 0 && MoveToFront(order, 0) == order;
        return;
      }
      var pred, succ := entries[entry].pred, entries[entry].succ;
      assert pred == nodes[order[p]].pred == order[p - 1];
      assert succ == nodes[order[p]].succ == if p + 1 < capacity then order[p + 1] else NULL;
      RelinkedIsWellLinked(nodes, order, head, tail, p, succ);
      entries[pred] := entries[pred].(succ := succ);
      if succ != NULL {
        entries[succ] := entries[succ].(pred := pred);
      } else {
        tail := pred;
      }
      entries[entry] := entries[entry].(pred := NULL, succ := head);
      entries[head] := entries[head].(pred := entry);
      assert entries[..] == Relinked(nodes, entry, pred, succ, head);
      head := entry;
      order := MoveToFront(order, p);
    }

    /** Recycles the tail of the list as its head; a full cache forgets the key stored there. */
    method GetNewHead() returns (result: int)
      requires Valid()
      modifies `head, `tail, `order, `index, entries
      ensures WellLinked(entries[..], order, head, tail) && order == MoveToFront(old(order), capacity - 1)
      ensures SameData(old(entries[..]), entries[..])
      ensures entries[tail].succ == NULL && result == head
      ensures index == Kept(old(entries[..]), old(order), old(index))
    {
      hide WellIndexed, MoveToFront, SameData;
      ghost var nodes := entries[..];
      IndexFits(nodes, order, index);
      var newTail := entries[tail].pred;
      assert newTail == nodes[order[capacity - 1]].pred == order[capacity - 2];
      RelinkedIsWellLinked(nodes, order, head, tail, capacity - 1, NULL);
      entries[newTail] := entries[newTail].(succ := NULL);
      if |index| >= entries.Length {
        index := index - {entries[tail].key};
      }
      result := tail;
      tail := newTail;
      entries[result] := entries[result].(pred := NULL, succ := head);
      entries[head] := entries[head].(pred := result);
      assert entries[..] == Relinked(nodes, result, newTail, NULL, head);
      head := result;
      order := MoveToFront(order, capacity - 1);
    }

    /** A hit moves the entry to the front; a miss changes nothing. */
    method Get(key: K) returns (r: Option<V>)
      requires Valid()
      modifies this, entries
      ensures Valid() && View() == Touched(old(View()), key) && r == Lookup(old(View()), key)
    {
      ghost var nodes := entries[..];
      hide WellFormed, WellLinked, InRange, List, MoveToFront, Position, Touched, Lookup;
      if key in index {
        var entry := index[key];
        BeforeTouch(nodes, order, head, tail, index, key);
        Touch(entry, Position(View(), key));
        AfterTouch(nodes, old(order), old(head), old(tail), index, key, entries[..], head, tail);
        return Some(entries[entry].value);
      }
      MissChangesNothing(nodes, order, head, tail, index, key);
      return None;
    }

    /** Overwriting keeps the position; a new key goes to the front and may evict the last one. */
    method InsertOrAssign(key: K, value: V) returns (r: V)
      requires Valid()
      modifies this, entries
      ensures Valid() && View() == Inserted(old(View()), key, value, capacity) && r == value
    {
      hide List, WellFormed, WellLinked, MoveToFront, Kept;
      ghost var nodes := entries[..];
      WellFormedInRange(nodes, order, head, tail, index);
      if key in index {
        var entry := index[key];
        AfterAssign(nodes, order, head, tail, index, key, value);
        entries[entry] := entries[entry].(value := value);
        assert entries[..] == nodes[entry := nodes[entry].(value := value)];
        return entries[entry].value;
      }
      var entry := GetNewHead();
      SetHeadData(entries[..], order, head, tail, key, value);
      ghost var relinked := entries[..];
      entries[entry] := entries[entry].(key := key, value := value);
      assert entries[..] == relinked[head := relinked[head].(key := key, value := value)];
      index := index[key := entry];
      AfterInsert(nodes, old(order), old(head), old(tail), old(index), key, value, entries[..], head, tail, index);
      return entries[entry].value;
    }

    /** Two critical sections; makeValue is only called on a miss. */
    method GetOrInsert(key: K, makeValue: () -> V) returns (r: V)
      requires Valid()
      modifies this, entries
      ensures Valid()
      ensures match Lookup(old(View()), key)
        case Some(v) => r == v && View() == Touched(old(View()), key)
        case None => r == makeValue() && View() == Inserted(old(View()), key, makeValue(), capacity)
    {
      var entry := Get(key);
      if entry.Some? {
        r := entry.value;
      } else {
        r := InsertOrAssign(key, makeValue());
      }
    }
  }

  // --------------------------------------------------------- recency over runs

  datatype Op<K, V> = GetOp(key: K) | PutOp(key: K, value: V)

  function Apply<K(==), V>(l: Recency<K, V>, op: Op<K, V>, capacity: nat): Recency<K, V>
    requires |l| <= capacity && capacity >= 1
  {
    match op
    case GetOp(k) => Touched(l, k)
    case PutOp(k, v) => Inserted(l, k, v, capacity)
  }

  function Run<K(==), V>(l: Recency<K, V>, ops: seq<Op<K, V>>, capacity: nat): (r: Recency<K, V>)
    requires |l| <= capacity && capacity >= 1
    ensures |r| <= capacity
    decreases |ops|
  {
    if ops == [] then l else Run(Apply(l, ops[0], capacity), ops[1..], capacity)
  }

  /** Every operation keeps the keys distinct. */
  lemma ApplyKeepsDistinct<K, V>(l: Recency<K, V>, op: Op<K, V>, capacity: nat)
    requires DistinctKeys(l) && |l| <= capacity && capacity >= 1
    ensures DistinctKeys(Apply(l, op, capacity))
  {
    var p := Position(l, op.key);
    if op.GetOp? && p < |l| { MoveToFrontAt(l, p); }
  }

  function OpKeys<K, V>(ops: seq<Op<K, V>>): set<K> { set i | 0 <= i < |ops| :: ops[i].key }

  /** Key k is cached, and everything more recent than it is in s. */
  ghost predicate Recent<K, V>(l: Recency<K, V>, k: K, s: set<K>) {
    Position(l, k) < |l| && forall i :: 0 <= i < Position(l, k) ==> l[i].0 in s
  }

  lemma {:induction false} PrefixBound<K, V>(l: Recency<K, V>, s: set<K>, p: nat)
    requires DistinctKeys(l) && p <= |l| && forall i :: 0 <= i < p ==> l[i].0 in s
    ensures p <= |s|
    decreases p
  {
    if p > 0 { PrefixBound(l, s - {l[p - 1].0}, p - 1); }
  }

  lemma ApplyKeepsRecent<K, V>(l: Recency<K, V>, op: Op<K, V>, capacity: nat, k: K, s: set<K>)
    requires DistinctKeys(l) && |l| <= capacity && capacity >= 1 && Recent(l, k, s)
    requires op.key != k ==> op.key in s
    requires |s| < capacity && k !in s
    ensures Recent(Apply(l, op, capacity), k, s)
  {
    var p, r := Position(l, op.key), Apply(l, op, capacity);
    ApplyKeepsDistinct(l, op, capacity);
    var q := Position(l, k);
    if p < |l| {
      if op.GetOp? {
        MoveToFrontAt(l, p);
        PositionUnique(r, k, if p == q then 0 else if q < p then q + 1 else q);
      } else {
        PositionUnique(r, k, q);
      }
    } else if op.PutOp? {
      if |l| == capacity && q == capacity - 1 {
        var s' := s - {op.key};
        PrefixBound(l, s', q);
        assert false;
      }
      PositionUnique(r, k, q + 1);
    }
  }

  /**
   * Least recently used: a key that has just been used stays cached for as long as fewer than
   * capacity other keys are used, however many operations that takes.
   */
  lemma {:induction false} RecentlyUsedStaysCached<K, V>(l: Recency<K, V>, ops: seq<Op<K, V>>, capacity: nat, k: K,
                                                         s: set<K>)
    requires DistinctKeys(l) && |l| <= capacity && capacity >= 1 && Recent(l, k, s)
    requires OpKeys(ops) - {k} <= s && k !in s && |s| < capacity
    ensures Recent(Run(l, ops, capacity), k, s) && DistinctKeys(Run(l, ops, capacity))
    decreases |ops|
  {
    if ops != [] {
      assert ops[0].key in OpKeys(ops);
      assert OpKeys(ops[1..]) <= OpKeys(ops);
      ApplyKeepsDistinct(l, ops[0], capacity);
      ApplyKeepsRecent(l, ops[0], capacity, k, s);
      RecentlyUsedStaysCached(Apply(l, ops[0], capacity), ops[1..], capacity, k, s);
    }
  }

  /** A use puts the key in front: found by a lookup or newly inserted. */
  lemma UsedIsMostRecent<K, V>(l: Recency<K, V>, op: Op<K, V>, capacity: nat)
    requires DistinctKeys(l) && |l| <= capacity && capacity >= 1
    requires op.GetOp? <==> Position(l, op.key) < |l|
    ensures Recent(Apply(l, op, capacity), op.key, {})
  {}
}
