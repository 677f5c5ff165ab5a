/** The cache list of `pkg/fileservice/lru.go`, with values that are pinned while their reference count
    (`pkg/fileservice/rc.go`) is positive. */
module LruSpec {

  datatype Item<K, V> = Item(key: K, value: V, size: int)

  function Sum<K, V>(items: seq<Item<K, V>>): int {
    if items == [] then 0 else items[0].size + Sum(items[1..])
  }

  /** The pinned items, in order. */
  function Pinned<K, V>(items: seq<Item<K, V>>, pinned: V -> bool): seq<Item<K, V>> {
    if items == [] then []
    else if pinned(items[0].value) then [items[0]] + Pinned(items[1..], pinned)
    else Pinned(items[1..], pinned)
  }

  /** All of the first i items, and of the others the pinned ones. */
  function Keep<K, V>(items: seq<Item<K, V>>, pinned: V -> bool, i: nat): seq<Item<K, V>>
    requires i <= |items|
  {
    items[..i] + Pinned(items[i..], pinned)
  }

  /** The largest number of items that can be kept within the capacity, not above i. */
  function Level<K, V>(items: seq<Item<K, V>>, pinned: V -> bool, capacity: int, i: nat): nat
    requires i <= |items|
    ensures Level(items, pinned, capacity, i) <= i
  {
    if i == 0 || Sum(Keep(items, pinned, i)) <= capacity then i else Level(items, pinned, capacity, i - 1)
  }

  /** What eviction leaves of a list, most recently used first. */
  function Evict<K, V>(items: seq<Item<K, V>>, pinned: V -> bool, capacity: int): seq<Item<K, V>> {
    Keep(items, pinned, Level(items, pinned, capacity, |items|))
  }

  function Without<K(==), V>(items: seq<Item<K, V>>, key: K): seq<Item<K, V>> {
    if items == [] then []
    else if items[0].key == key then Without(items[1..], key)
    else [items[0]] + Without(items[1..], key)
  }

  ghost predicate Distinct<K, V>(items: seq<Item<K, V>>) {
    forall i, j :: 0 <= i < j < |items| ==> items[i].key != items[j].key
  }

  lemma {:induction false} SumOne<K, V>(x: Item<K, V>)
    ensures Sum([x]) == x.size
  {
    assert [x][1..] == [];
  }

  lemma {:induction false} SumAppend<K, V>(a: seq<Item<K, V>>, b: seq<Item<K, V>>)
    ensures Sum(a + b) == Sum(a) + Sum(b)
  {
    if a == [] {
      assert a + b == b;
    } else {
      SumAppend(a[1..], b);
      assert (a + b)[1..] == a[1..] + b;
    }
  }

  lemma {:induction false} PinnedAppend<K, V>(a: seq<Item<K, V>>, b: seq<Item<K, V>>, pinned: V -> bool)
    ensures Pinned(a + b, pinned) == Pinned(a, pinned) + Pinned(b, pinned)
  {
    if a == [] {
      assert a + b == b;
    } else {
      PinnedAppend(a[1..], b, pinned);
      assert (a + b)[1..] == a[1..] + b;
    }
  }

  ghost predicate AllPinned<K, V>(items: seq<Item<K, V>>, pinned: V -> bool) {
    forall k :: 0 <= k < |items| ==> pinned(items[k].value)
  }

  lemma {:induction false} PinnedStays<K, V>(items: seq<Item<K, V>>, pinned: V -> bool)
    requires AllPinned(items, pinned)
    ensures Pinned(items, pinned) == items
  {
    if items != [] {
      assert AllPinned(items[1..], pinned);
      PinnedStays(items[1..], pinned);
      assert [items[0]] + items[1..] == items;
    }
  }

  lemma {:induction false} PinnedIn<K, V>(items: seq<Item<K, V>>, pinned: V -> bool)
    ensures AllPinned(Pinned(items, pinned), pinned)
    ensures forall x :: x in Pinned(items, pinned) <==> x in items && pinned(x.value)
  {
    if items != [] {
      PinnedIn(items[1..], pinned);
      assert items == [items[0]] + items[1..];
    }
  }

  lemma {:induction false} WithoutAt<K, V>(items: seq<Item<K, V>>, p: nat)
    requires Distinct(items) && p < |items|
    ensures Without(items, items[p].key) == items[..p] + items[p + 1..]
  {
    var key := items[p].key;
    if p == 0 {
      WithoutNone(items[1..], key);
    } else {
      WithoutAt(items[1..], p - 1);
      assert items[1..][..p - 1] == items[1..p] && items[1..][p..] == items[p + 1..];
      assert [items[0]] + items[1..p] == items[..p];
    }
  }

  lemma {:induction false} WithoutNone<K, V>(items: seq<Item<K, V>>, key: K)
    requires forall k :: 0 <= k < |items| ==> items[k].key != key
    ensures Without(items, key) == items
  {
    if items != [] {
      WithoutNone(items[1..], key);
      assert [items[0]] + items[1..] == items;
    }
  }

  // ---- What eviction means ----

  lemma {:induction false} LevelLargest<K, V>(items: seq<Item<K, V>>, pinned: V -> bool, capacity: int, i: nat, j: nat)
    requires i <= |items| && Level(items, pinned, capacity, i) < j <= i
    ensures Sum(Keep(items, pinned, j)) > capacity
    decreases i
  {
    if j < i {
      LevelLargest(items, pinned, capacity, i - 1, j);
    }
  }

  lemma {:induction false} LevelFits<K, V>(items: seq<Item<K, V>>, pinned: V -> bool, capacity: int, i: nat)
    requires i <= |items|
    ensures var j := Level(items, pinned, capacity, i); j == 0 || Sum(Keep(items, pinned, j)) <= capacity
    decreases i
  {
    if i > 0 && Sum(Keep(items, pinned, i)) > capacity {
      LevelFits(items, pinned, capacity, i - 1);
    }
  }

  /** The level is the only number with the two properties above. */
  lemma {:induction false} LevelIs<K, V>(items: seq<Item<K, V>>, pinned: V -> bool, capacity: int, i: nat, j: nat)
    requires j <= i <= |items|
    requires j == 0 || Sum(Keep(items, pinned, j)) <= capacity
    requires forall k :: j < k <= i ==> Sum(Keep(items, pinned, k)) > capacity
    ensures Level(items, pinned, capacity, i) == j
    decreases i
  {
    if j < i {
      LevelIs(items, pinned, capacity, i - 1, j);
    }
  }

  /** Pinned items survive, in order, and what is left fits or is all pinned. */
  lemma {:induction false} EvictKeepsPinned<K, V>(items: seq<Item<K, V>>, pinned: V -> bool, capacity: int)
    ensures var kept := Evict(items, pinned, capacity);
      && Pinned(kept, pinned) == Pinned(items, pinned)
      && (Sum(kept) <= capacity || AllPinned(kept, pinned))
      && (Sum(items) <= capacity ==> kept == items)
  {
    var j := Level(items, pinned, capacity, |items|);
    var front, back := items[..j], items[j..];
    assert items == front + back;
    PinnedAppend(front, back, pinned);
    PinnedAppend(front, Pinned(back, pinned), pinned);
    PinnedIn(back, pinned);
    PinnedStays(Pinned(back, pinned), pinned);
    LevelFits(items, pinned, capacity, |items|);
    assert Keep(items, pinned, |items|) == items;
  }

  /** An item goes only after every unpinned item that was used less recently. */
  lemma {:induction false} OldestGoFirst<K, V>(items: seq<Item<K, V>>, pinned: V -> bool, capacity: int, a: nat, b: nat)
    requires Distinct(items) && a < b < |items| && !pinned(items[b].value)
    ensures items[b] in Evict(items, pinned, capacity) ==> items[a] in Evict(items, pinned, capacity)
  {
    var j := Level(items, pinned, capacity, |items|);
    PinnedIn(items[j..], pinned);
    if a < j {
      assert items[..j][a] == items[a];
    } else {
      forall k | 0 <= k < j
        ensures items[..j][k] != items[b]
      {
        assert items[k].key != items[b].key;
      }
    }
  }

  /** Nothing is evicted beyond need: whatever a less strict eviction would leave is over the capacity. */
  lemma {:induction false} NoneBeyondNeed<K, V>(items: seq<Item<K, V>>, pinned: V -> bool, capacity: int, j: nat)
    requires j <= |items| && |Keep(items, pinned, j)| > |Evict(items, pinned, capacity)|
    ensures Sum(Keep(items, pinned, j)) > capacity
  {
    var i := Level(items, pinned, capacity, |items|);
    if j <= i {
      KeepMore(items, pinned, j, i);
    }
    LevelLargest(items, pinned, capacity, |items|, j);
  }

  lemma {:induction false} KeepMore<K, V>(items: seq<Item<K, V>>, pinned: V -> bool, j: nat, i: nat)
    requires j <= i <= |items|
    ensures |Keep(items, pinned, j)| <= |Keep(items, pinned, i)|
  {
    assert items[j..] == items[j..i] + items[i..];
    PinnedAppend(items[j..i], items[i..], pinned);
    PinnedShorter(items[j..i], pinned);
  }

  lemma {:induction false} PinnedShorter<K, V>(items: seq<Item<K, V>>, pinned: V -> bool)
    ensures |Pinned(items, pinned)| <= |items|
  {
    if items != [] {
      PinnedShorter(items[1..], pinned);
    }
  }

  /** Passing over pinned items at the end of what is kept changes nothing. */
  lemma {:induction false} KeepPast<K, V>(items: seq<Item<K, V>>, pinned: V -> bool, i: nat, p: nat)
    requires p <= i <= |items| && AllPinned(items[p..i], pinned)
    ensures Keep(items, pinned, p) == Keep(items, pinned, i)
  {
    assert items[p..] == items[p..i] + items[i..];
    PinnedAppend(items[p..i], items[i..], pinned);
    PinnedStays(items[p..i], pinned);
    assert items[..i] == items[..p] + items[p..i];
  }

  /** No eviction of items[..k], for k above j, fits. */
  ghost predicate Tight<K, V>(items: seq<Item<K, V>>, pinned: V -> bool, capacity: int, j: nat) {
    forall k :: j < k <= |items| ==> Sum(Keep(items, pinned, k)) > capacity
  }

  lemma {:induction false} TightPast<K, V>(items: seq<Item<K, V>>, pinned: V -> bool, capacity: int, i: nat, p: nat)
    requires p <= i <= |items| && AllPinned(items[p..i], pinned)
    requires Tight(items, pinned, capacity, i) && Sum(Keep(items, pinned, i)) > capacity
    ensures Keep(items, pinned, p) == Keep(items, pinned, i)
    ensures forall k :: p <= k <= |items| ==> Sum(Keep(items, pinned, k)) > capacity
  {
    KeepPast(items, pinned, i, p);
    forall k | p <= k <= i
      ensures Sum(Keep(items, pinned, k)) > capacity
    {
      assert forall q :: 0 <= q < i - k ==> items[k..i][q] == items[p..i][q + (k - p)];
      KeepPast(items, pinned, i, k);
    }
  }

  lemma {:induction false} BehindPinned<K, V>(items: seq<Item<K, V>>, pinned: V -> bool, i: nat)
    requires i <= |items|
    ensures forall q :: i <= q < |Keep(items, pinned, i)| ==> pinned(Keep(items, pinned, i)[q].value)
  {
    PinnedIn(items[i..], pinned);
    var back := Pinned(items[i..], pinned);
    assert forall q :: i <= q < |Keep(items, pinned, i)| ==> Keep(items, pinned, i)[q] == back[q - i];
  }

  /** Evicting the last unpinned item of what is kept leaves what the next lower level keeps. */
  lemma {:induction false} EvictOne<K, V>(items: seq<Item<K, V>>, pinned: V -> bool, capacity: int, i: nat, p: nat)
    requires i <= |items| && Tight(items, pinned, capacity, i) && Sum(Keep(items, pinned, i)) > capacity
    requires 0 < p <= |Keep(items, pinned, i)| && AllPinned(Keep(items, pinned, i)[p..], pinned)
    requires !pinned(Keep(items, pinned, i)[p - 1].value)
    ensures p <= i && Tight(items, pinned, capacity, p - 1)
    ensures Keep(items, pinned, i)[..p - 1] + Keep(items, pinned, i)[p..] == Keep(items, pinned, p - 1)
  {
    var c := Keep(items, pinned, i);
    BehindPinned(items, pinned, i);
    assert forall q :: 0 <= q < i - p ==> items[p..i][q] == c[p..][q];
    TightPast(items, pinned, capacity, i, p);
    assert items[p - 1..][1..] == items[p..] && items[p - 1] == c[p - 1];
  }

  /** When all that is kept is pinned, eviction can go no further. */
  lemma {:induction false} EvictNoMore<K, V>(items: seq<Item<K, V>>, pinned: V -> bool, capacity: int, i: nat)
    requires i <= |items| && Tight(items, pinned, capacity, i) && Sum(Keep(items, pinned, i)) > capacity
    requires AllPinned(Keep(items, pinned, i), pinned)
    ensures Evict(items, pinned, capacity) == Keep(items, pinned, i)
  {
    var c := Keep(items, pinned, i);
    assert forall q :: 0 <= q < i ==> items[0..i][q] == c[q];
    TightPast(items, pinned, capacity, i, 0);
    LevelIs(items, pinned, capacity, |items|, 0);
  }

  lemma {:induction false} EvictDone<K, V>(items: seq<Item<K, V>>, pinned: V -> bool, capacity: int, i: nat)
    requires i <= |items| && Tight(items, pinned, capacity, i) && Sum(Keep(items, pinned, i)) <= capacity
    ensures Evict(items, pinned, capacity) == Keep(items, pinned, i)
  {
    LevelIs(items, pinned, capacity, |items|, i);
  }

  lemma {:induction false} SumWithout<K, V>(items: seq<Item<K, V>>, p: nat)
    requires p < |items|
    ensures Sum(items) == items[p].size + Sum(items[..p] + items[p + 1..])
  {
    assert items == items[..p] + items[p..] && items[p..][1..] == items[p + 1..];
    SumAppend(items[..p], items[p..]);
    SumAppend(items[..p], items[p + 1..]);
  }
}

module Lru {
  import opened LruSpec

  datatype Found<V> = Hit(value: V, size: int) | Miss

  /** The linked list is the sequence of its items; the map leads from a key to its item. */
  class LRU<K(==), V> {
    const capacity: int
    var size: int
    var evicts: seq<Item<K, V>>
    var kv: map<K, Item<K, V>>

    /** List and map hold the same items under distinct keys, and the size is the sum of theirs. */
    ghost predicate Valid()
      reads this
    {
      Linked(evicts, kv) && size == Sum(evicts)
    }

    constructor (capacity: int)
      ensures Valid() && evicts == [] && this.capacity == capacity
    {
      this.capacity, size, evicts, kv := capacity, 0, [], map[];
    }

    method Set(key: K, value: V, size: int, pinned: V -> bool)
      requires Valid()
      modifies this
      ensures Valid()
      ensures evicts == Evict([Item(key, value, size)] + Without(old(evicts), key), pinned, capacity)
    {
      var item := Item(key, value, size);
      if key in kv {
        this.size := this.size - kv[key].size + size;
        MoveToFront(key, item);
      } else {
        LinkedMeans(evicts, kv);
        WithoutNone(evicts, key);
        LinkNew(evicts, kv, item);
        evicts := [item] + evicts;
        kv := kv[key := item];
        this.size := this.size + size;
      }
      EvictSome(pinned);
    }

    /** Moves the item of a key to the front of the list, as `item`. */
    method MoveToFront(key: K, item: Item<K, V>)
      requires Linked(evicts, kv) && key in kv && item.key == key
      modifies this`evicts, this`kv
      ensures Linked(evicts, kv) && evicts == [item] + Without(old(evicts), key)
      ensures Sum(evicts) == Sum(old(evicts)) - old(kv)[key].size + item.size
    {
      var p := Position(key);
      Relink(evicts, kv, p, item);
      evicts, kv := [item] + (evicts[..p] + evicts[p + 1..]), kv[key := item];
    }

    method Position(key: K) returns (p: nat)
      requires Linked(evicts, kv) && key in kv
      ensures p < |evicts| && evicts[p].key == key && evicts[p] == kv[key]
    {
      ghost var q := PlaceOf(evicts, key);
      p :| p < |evicts| && evicts[p].key == key;
      MapAt(evicts, p);
    }

    /** Removes the unpinned item nearest to the back until the size fits or all are pinned. */
    method EvictSome(pinned: V -> bool)
      requires Valid()
      modifies this
      ensures Valid() && evicts == Evict(old(evicts), pinned, capacity)
    {
      ghost var items, i: nat := evicts, |evicts|;
      assert Keep(items, pinned, i) == items;
      var done := false;
      while !done
        invariant Valid()
        invariant done ==> evicts == Evict(items, pinned, capacity)
        invariant !done ==> i <= |items| && evicts == Keep(items, pinned, i) && Tight(items, pinned, capacity, i)
        decreases !done, i
      {
        done, i := EvictRound(pinned, items, i);
      }
    }

    method EvictRound(pinned: V -> bool, ghost items: seq<Item<K, V>>, ghost i: nat)
      returns (done: bool, ghost i': nat)
      requires Valid() && i <= |items| && evicts == Keep(items, pinned, i) && Tight(items, pinned, capacity, i)
      modifies this
      ensures Valid()
      ensures done ==> evicts == Evict(items, pinned, capacity)
      ensures !done ==> i' < i && evicts == Keep(items, pinned, i') && Tight(items, pinned, capacity, i')
    {
      i' := 0;
      if size <= capacity {
        EvictDone(items, pinned, capacity, i);
        return true, i';
      }
      LinkedEmpty(evicts, kv);
      if |kv| == 0 {
        EvictNoMore(items, pinned, capacity, i);
        return true, i';
      }
      var p := LastUnpinned(pinned);
      if p == 0 {
        EvictNoMore(items, pinned, capacity, i);
        return true, i';
      }
      EvictOne(items, pinned, capacity, i, p);
      Remove(p - 1);
      return false, p - 1;
    }

    /** One above the place of the last unpinned item; 0 when there is none. */
    method LastUnpinned(pinned: V -> bool) returns (p: nat)
      ensures p <= |evicts| && AllPinned(evicts[p..], pinned)
      ensures p > 0 ==> !pinned(evicts[p - 1].value)
    {
      p := |evicts|;
      while p > 0 && pinned(evicts[p - 1].value)
        invariant p <= |evicts| && AllPinned(evicts[p..], pinned)
      {
        p := p - 1;
      }
    }

    method Remove(p: nat)
      requires Valid() && p < |evicts|
      modifies this
      ensures Valid() && evicts == old(evicts)[..p] + old(evicts)[p + 1..]
    {
      SumWithout(evicts, p);
      Unlink(evicts, kv, p);
      size := size - evicts[p].size;
      kv := kv - {evicts[p].key};
      evicts := evicts[..p] + evicts[p + 1..];
    }

    method Get(key: K) returns (r: Found<V>)
      requires Valid()
      modifies this`evicts, this`kv
      ensures Valid() && r == Lookup(old(evicts), key)
      ensures evicts == Touch(old(evicts), key)
    {
      LookupLinked(evicts, kv, key);
      if key in kv {
        ghost var p := PlaceOf(evicts, key);
        var item := kv[key];
        MoveToFront(key, item);
        return Hit(item.value, item.size);
      }
      return Miss;
    }

    method Flush()
      requires Valid()
      modifies this
      ensures Valid() && evicts == []
    {
      size, evicts, kv := 0, [], map[];
    }

    /** Any history of calls leaves the list that the history determines. */
    method PerformAll(ops: seq<Op<K, V>>)
      requires Valid() && evicts == []
      modifies this
      ensures Valid() && evicts == Run(capacity, ops)
    {
      for i := 0 to |ops|
        invariant Valid() && evicts == Run(capacity, ops[..i])
      {
        assert ops[..i + 1][..i] == ops[..i];
        match ops[i] {
          case OpSet(key, value, size, pinned) => Set(key, value, size, pinned);
          case OpGet(key) => var _ := Get(key);
          case OpFlush => Flush();
        }
      }
      assert ops[..|ops|] == ops;
    }
  }

  // ---- Histories ----

  /** A call; which values are pinned is fixed while one Set runs, and may differ between calls. */
  datatype Op<K, !V> = OpSet(key: K, value: V, size: int, pinned: V -> bool) | OpGet(key: K) | OpFlush

  ghost function Step<K, V>(capacity: int, items: seq<Item<K, V>>, op: Op<K, V>): seq<Item<K, V>> {
    match op
    case OpSet(key, value, size, pinned) => Evict([Item(key, value, size)] + Without(items, key), pinned, capacity)
    case OpGet(key) => Touch(items, key)
    case OpFlush => []
  }

  ghost function Run<K, V>(capacity: int, ops: seq<Op<K, V>>): seq<Item<K, V>> {
    if ops == [] then [] else Step(capacity, Run(capacity, ops[..|ops| - 1]), ops[|ops| - 1])
  }

  ghost predicate Names<K, V>(op: Op<K, V>, key: K) {
    !op.OpFlush? && op.key == key
  }

  /** When a key was last named: the number of calls up to then, or 0. */
  ghost function LastUse<K, V>(ops: seq<Op<K, V>>, key: K): (t: nat)
    ensures t <= |ops|
  {
    if ops == [] then 0
    else if Names(ops[|ops| - 1], key) then |ops|
    else LastUse(ops[..|ops| - 1], key)
  }

  /** What was last set under a key since the last flush. */
  ghost function LastSet<K, V>(ops: seq<Op<K, V>>, key: K): Found<V> {
    if ops == [] || ops[|ops| - 1].OpFlush? then Miss
    else if ops[|ops| - 1].OpSet? && ops[|ops| - 1].key == key then Hit(ops[|ops| - 1].value, ops[|ops| - 1].size)
    else LastSet(ops[..|ops| - 1], key)
  }

  /** Later items were used less recently, and every item holds what was last set under its key. */
  ghost predicate Faithful<K, V>(items: seq<Item<K, V>>, ops: seq<Op<K, V>>) {
    items != [] ==>
      && LastSet(ops, items[0].key) == Hit(items[0].value, items[0].size)
      && (forall x :: x in items[1..] ==> LastUse(ops, x.key) < LastUse(ops, items[0].key))
      && Faithful(items[1..], ops)
  }

  /** After every history the list is in order of last use, and look-ups find what was last set. */
  lemma {:induction false} RunFaithful<K, V>(capacity: int, ops: seq<Op<K, V>>)
    ensures Faithful(Run(capacity, ops), ops)
  {
    if ops != [] {
      var before, op := ops[..|ops| - 1], ops[|ops| - 1];
      var items := Run(capacity, before);
      RunFaithful(capacity, before);
      assert ops == before + [op];
      match op
      case OpSet(key, value, size, pinned) =>
        FaithfulFront(items, before, op, value, size);
        ThinEvict([Item(key, value, size)] + Without(items, key), pinned, capacity);
        ThinFaithful(Run(capacity, ops), [Item(key, value, size)] + Without(items, key), ops);
      case OpGet(key) =>
        LookupFaithful(items, before, key);
        if Lookup(items, key) == Miss {
          FaithfulOn(items, before, op);
        } else {
          var Hit(value, size) := Lookup(items, key);
          FaithfulFront(items, before, op, value, size);
        }
      case OpFlush =>
    }
  }

  lemma {:induction false} FaithfulFront<K, V>(items: seq<Item<K, V>>, ops: seq<Op<K, V>>, op: Op<K, V>, value: V,
                                               size: int)
    requires Faithful(items, ops) && !op.OpFlush?
    requires LastSet(ops + [op], op.key) == Hit(value, size)
    ensures Faithful([Item(op.key, value, size)] + Without(items, op.key), ops + [op])
  {
    var rest := Without(items, op.key);
    ThinWithout(items, op.key);
    ThinFaithful(rest, items, ops);
    WithoutMisses(items, op.key);
    FaithfulOn(rest, ops, op);
    assert (ops + [op])[..|ops|] == ops;
    assert ([Item(op.key, value, size)] + rest)[1..] == rest;
  }

  /** A call that names no key of the list leaves the list faithful. */
  lemma {:induction false} FaithfulOn<K, V>(items: seq<Item<K, V>>, ops: seq<Op<K, V>>, op: Op<K, V>)
    requires Faithful(items, ops) && !op.OpFlush?
    requires forall x :: x in items ==> x.key != op.key
    ensures Faithful(items, ops + [op])
    decreases |items|
  {
    assert (ops + [op])[..|ops|] == ops;
    if items != [] {
      assert items[0] in items;
      FaithfulOn(items[1..], ops, op);
    }
  }

  lemma {:induction false} LookupFaithful<K, V>(items: seq<Item<K, V>>, ops: seq<Op<K, V>>, key: K)
    requires Faithful(items, ops)
    ensures Lookup(items, key) == Miss ==> forall x :: x in items ==> x.key != key
    ensures Lookup(items, key) != Miss ==> LastSet(ops, key) == Lookup(items, key)
    decreases |items|
  {
    if items != [] {
      LookupFaithful(items[1..], ops, key);
    }
  }

  lemma {:induction false} WithoutMisses<K, V>(items: seq<Item<K, V>>, key: K)
    ensures forall x :: x in Without(items, key) ==> x.key != key
  {
    if items != [] {
      WithoutMisses(items[1..], key);
    }
  }

  /** One list is a part of another, in the same order. */
  ghost predicate Thin<K, V>(a: seq<Item<K, V>>, b: seq<Item<K, V>>)
    decreases |b|
  {
    a != [] ==> b != [] && ((a[0] == b[0] && Thin(a[1..], b[1..])) || Thin(a, b[1..]))
  }

  lemma {:induction false} ThinIn<K, V>(a: seq<Item<K, V>>, b: seq<Item<K, V>>)
    requires Thin(a, b)
    ensures forall x :: x in a ==> x in b
    decreases |b|
  {
    if a != [] {
      if a[0] == b[0] && Thin(a[1..], b[1..]) {
        ThinIn(a[1..], b[1..]);
        assert a == [a[0]] + a[1..] && b == [b[0]] + b[1..];
      } else {
        ThinIn(a, b[1..]);
      }
    }
  }

  lemma {:induction false} ThinFaithful<K, V>(a: seq<Item<K, V>>, b: seq<Item<K, V>>, ops: seq<Op<K, V>>)
    requires Thin(a, b) && Faithful(b, ops)
    ensures Faithful(a, ops)
    decreases |b|
  {
    if a != [] {
      if a[0] == b[0] && Thin(a[1..], b[1..]) {
        ThinFaithful(a[1..], b[1..], ops);
        ThinIn(a[1..], b[1..]);
      } else {
        ThinFaithful(a, b[1..], ops);
      }
    }
  }

  lemma {:induction false} ThinWithout<K, V>(items: seq<Item<K, V>>, key: K)
    ensures Thin(Without(items, key), items)
  {
    if items != [] {
      ThinWithout(items[1..], key);
      assert ([items[0]] + Without(items[1..], key))[1..] == Without(items[1..], key);
    }
  }

  lemma {:induction false} ThinPinned<K, V>(items: seq<Item<K, V>>, pinned: V -> bool)
    ensures Thin(Pinned(items, pinned), items)
  {
    if items != [] {
      ThinPinned(items[1..], pinned);
      assert ([items[0]] + Pinned(items[1..], pinned))[1..] == Pinned(items[1..], pinned);
    }
  }

  lemma {:induction false} ThinBehind<K, V>(front: seq<Item<K, V>>, a: seq<Item<K, V>>, b: seq<Item<K, V>>)
    requires Thin(a, b)
    ensures Thin(front + a, front + b)
    decreases |front|
  {
    if front == [] {
      assert front + a == a && front + b == b;
    } else {
      ThinBehind(front[1..], a, b);
      assert (front + a)[1..] == front[1..] + a && (front + b)[1..] == front[1..] + b;
    }
  }

  lemma {:induction false} ThinEvict<K, V>(items: seq<Item<K, V>>, pinned: V -> bool, capacity: int)
    ensures Thin(Evict(items, pinned, capacity), items)
  {
    var j := Level(items, pinned, capacity, |items|);
    ThinPinned(items[j..], pinned);
    ThinBehind(items[..j], Pinned(items[j..], pinned), items[j..]);
    assert items[..j] + items[j..] == items;
  }

  ghost function AsMap<K, V>(items: seq<Item<K, V>>): map<K, Item<K, V>> {
    if items == [] then map[] else AsMap(items[1..])[items[0].key := items[0]]
  }

  /** The list and the map hold the same items, under distinct keys. */
  ghost predicate Linked<K, V>(evicts: seq<Item<K, V>>, kv: map<K, Item<K, V>>) {
    Distinct(evicts) && kv == AsMap(evicts)
  }

  lemma {:induction false} MapAt<K, V>(items: seq<Item<K, V>>, p: nat)
    requires Distinct(items) && p < |items|
    ensures items[p].key in AsMap(items) && AsMap(items)[items[p].key] == items[p]
  {
    if p > 0 {
      MapAt(items[1..], p - 1);
    }
  }

  lemma {:induction false} PlaceOf<K, V>(items: seq<Item<K, V>>, key: K) returns (p: nat)
    requires key in AsMap(items)
    ensures p < |items| && items[p].key == key && items[p] == AsMap(items)[key]
  {
    if items[0].key == key {
      p := 0;
    } else {
      p := PlaceOf(items[1..], key);
      p := p + 1;
    }
  }

  /** The map leads from every key of the list, and from no other, to its item. */
  lemma {:induction false} LinkedMeans<K, V>(evicts: seq<Item<K, V>>, kv: map<K, Item<K, V>>)
    requires Linked(evicts, kv)
    ensures forall p :: 0 <= p < |evicts| ==> evicts[p].key in kv && kv[evicts[p].key] == evicts[p]
    ensures forall k :: k in kv ==> kv[k] in evicts && kv[k].key == k
  {
    forall p | 0 <= p < |evicts|
      ensures evicts[p].key in kv && kv[evicts[p].key] == evicts[p]
    {
      MapAt(evicts, p);
    }
    forall k | k in kv
      ensures kv[k] in evicts && kv[k].key == k
    {
      var p := PlaceOf(evicts, k);
    }
  }

  lemma {:induction false} LinkedEmpty<K, V>(evicts: seq<Item<K, V>>, kv: map<K, Item<K, V>>)
    requires Linked(evicts, kv)
    ensures evicts != [] ==> |kv| > 0
  {}

  lemma {:induction false} LinkNew<K, V>(evicts: seq<Item<K, V>>, kv: map<K, Item<K, V>>, item: Item<K, V>)
    requires Linked(evicts, kv) && item.key !in kv
    ensures Linked([item] + evicts, kv[item.key := item])
  {
    forall p | 0 <= p < |evicts|
      ensures evicts[p].key != item.key
    {
      MapAt(evicts, p);
    }
    assert ([item] + evicts)[1..] == evicts;
  }

  lemma {:induction false} Unlink<K, V>(evicts: seq<Item<K, V>>, kv: map<K, Item<K, V>>, p: nat)
    requires Linked(evicts, kv) && p < |evicts|
    ensures Linked(evicts[..p] + evicts[p + 1..], kv - {evicts[p].key})
    decreases |evicts|
  {
    var key, rest := evicts[p].key, evicts[1..];
    if p == 0 {
      if key in AsMap(rest) {
        var q := PlaceOf(rest, key);
      }
      assert AsMap(evicts) - {key} == AsMap(rest);
      assert evicts[..p] + evicts[p + 1..] == rest;
    } else {
      Unlink(rest, AsMap(rest), p - 1);
      var es := evicts[..p] + evicts[p + 1..];
      assert es[1..] == rest[..p - 1] + rest[p..];
      assert AsMap(evicts) - {key} == (AsMap(rest) - {key})[evicts[0].key := evicts[0]];
    }
  }

  lemma {:induction false} Relink<K, V>(evicts: seq<Item<K, V>>, kv: map<K, Item<K, V>>, p: nat, item: Item<K, V>)
    requires Linked(evicts, kv) && p < |evicts| && evicts[p].key == item.key
    ensures var rest := evicts[..p] + evicts[p + 1..];
      && Linked([item] + rest, kv[item.key := item])
      && rest == Without(evicts, item.key)
      && Sum([item] + rest) == Sum(evicts) - evicts[p].size + item.size
  {
    var rest := evicts[..p] + evicts[p + 1..];
    WithoutAt(evicts, p);
    SumWithout(evicts, p);
    Unlink(evicts, kv, p);
    LinkNew(rest, kv - {item.key}, item);
    assert kv[item.key := item] == (kv - {item.key})[item.key := item];
    assert ([item] + rest)[1..] == rest;
  }

  /** What a look-up finds, and the list after it. */
  function Lookup<K(==), V>(items: seq<Item<K, V>>, key: K): Found<V> {
    if items == [] then Miss
    else if items[0].key == key then Hit(items[0].value, items[0].size)
    else Lookup(items[1..], key)
  }

  function Touch<K(==), V>(items: seq<Item<K, V>>, key: K): seq<Item<K, V>> {
    match Lookup(items, key)
    case Miss => items
    case Hit(value, size) => [Item(key, value, size)] + Without(items, key)
  }

  lemma {:induction false} LookupLinked<K, V>(evicts: seq<Item<K, V>>, kv: map<K, Item<K, V>>, key: K)
    requires Linked(evicts, kv)
    ensures Lookup(evicts, key) == if key in kv then Hit(kv[key].value, kv[key].size) else Miss
  {
    if key in kv {
      var p := PlaceOf(evicts, key);
      LookupAt(evicts, p);
    } else {
      LinkedMeans(evicts, kv);
      LookupNone(evicts, key);
    }
  }

  lemma {:induction false} LookupAt<K, V>(items: seq<Item<K, V>>, p: nat)
    requires Distinct(items) && p < |items|
    ensures Lookup(items, items[p].key) == Hit(items[p].value, items[p].size)
  {
    if p > 0 {
      LookupAt(items[1..], p - 1);
    }
  }

  lemma {:induction false} LookupNone<K, V>(items: seq<Item<K, V>>, key: K)
    requires forall k :: 0 <= k < |items| ==> items[k].key != key
    ensures Lookup(items, key) == Miss
  {
    if items != [] {
      LookupNone(items[1..], key);
    }
  }
}
