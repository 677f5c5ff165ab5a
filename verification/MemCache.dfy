/** The object cache of `pkg/fileservice/mem_cache.go`, over files that do not change. */
module MemCache {
  import opened Wrappers
  import opened Bytes
  import opened FileEntries
  import opened LruSpec
  import opened Lru

  type Files = map<string, seq<byte>>

  function FileAt(files: Files, path: string): Option<seq<byte>> {
    if path in files then Some(files[path]) else None
  }

  /** The object under a key is the one built from the bytes that the key denotes. */
  ghost predicate Genuine<O>(files: Files, make: Maker<O>, key: Key, obj: O, size: int) {
    && key.path in files
    && InRange(files[key.path], key.offset, key.size)
    && make(key, Cut(files[key.path], key.offset, key.size)) == Made(obj, size)
  }

  ghost predicate AllGenuine<O>(files: Files, make: Maker<O>, items: seq<Item<Key, O>>) {
    forall x :: x in items ==> Genuine(files, make, x.key, x.value, x.size)
  }

  // ---- A read through the cache, as a function ----

  /** A read function of a file service. */
  type Upstream<!O> = (string, seq<IOEntry<O>>) -> Outcome<O>

  ghost function ServiceRead<O>(service: Service, files: Files, make: Maker<O>): Upstream<O> {
    (path: string, es: seq<IOEntry<O>>) => ReadAll(service, FileAt(files, path), path, make, es)
  }

  /** An entry after a look-up in a list. */
  function Marked<O>(items: seq<Item<Key, O>>, path: string, e: IOEntry<O>): IOEntry<O> {
    if !e.wants then e
    else
      match Lookup(items, KeyOf(path, e))
      case Miss => e
      case Hit(obj, size) => e.(obj := Some(obj), objectSize := size, ignore := true)
  }

  ghost function MarkAll<O>(items: seq<Item<Key, O>>, path: string, es: seq<IOEntry<O>>): seq<IOEntry<O>> {
    seq(|es|, i requires 0 <= i < |es| => Marked(items, path, es[i]))
  }

  /** How many entries are found, and the list after looking up all of them. */
  ghost function HitCount<O>(items: seq<Item<Key, O>>, path: string, es: seq<IOEntry<O>>): nat {
    if es == [] then 0
    else
      var e := es[|es| - 1];
      HitCount(items, path, es[..|es| - 1]) + (if e.wants && Lookup(items, KeyOf(path, e)).Hit? then 1 else 0)
  }

  ghost function Touched<O>(items: seq<Item<Key, O>>, path: string, es: seq<IOEntry<O>>): seq<Item<Key, O>> {
    if es == [] then items
    else
      var e, before := es[|es| - 1], Touched(items, path, es[..|es| - 1]);
      if e.wants then Touch(before, KeyOf(path, e)) else before
  }

  /** The list after the new objects among the entries have been set. */
  ghost function Kept<O>(items: seq<Item<Key, O>>, capacity: int, pinned: O -> bool, path: string, es: seq<IOEntry<O>>)
    : seq<Item<Key, O>>
  {
    if es == [] then items
    else
      var e, before := es[|es| - 1], Kept(items, capacity, pinned, path, es[..|es| - 1]);
      if e.ignore || e.obj.None? then before
      else Evict([Item(KeyOf(path, e), e.obj.value, e.objectSize)] + Without(before, KeyOf(path, e)), pinned, capacity)
  }

  lemma {:induction false} LookupWithout<O>(items: seq<Item<Key, O>>, k: Key, key: Key)
    requires k != key
    ensures Lookup(Without(items, k), key) == Lookup(items, key)
  {
    if items != [] {
      LookupWithout(items[1..], k, key);
      assert ([items[0]] + Without(items[1..], k))[1..] == Without(items[1..], k);
    }
  }

  /** Looking up does not change what later look-ups find. */
  lemma {:induction false} LookupTouched<O>(items: seq<Item<Key, O>>, path: string, es: seq<IOEntry<O>>, key: Key)
    ensures Lookup(Touched(items, path, es), key) == Lookup(items, key)
    decreases |es|
  {
    if es != [] {
      var e, before := es[|es| - 1], Touched(items, path, es[..|es| - 1]);
      LookupTouched(items, path, es[..|es| - 1], key);
      var k := KeyOf(path, e);
      if e.wants && k != key {
        LookupWithout(before, k, key);
        assert forall x :: ([x] + Without(before, k))[1..] == Without(before, k);
      }
    }
  }

  ghost predicate NoneWants<O>(es: seq<IOEntry<O>>) {
    forall i :: 0 <= i < |es| ==> !es[i].wants
  }

  function Bare<O>(e: IOEntry<O>): IOEntry<O> {
    e.(ignore := false)
  }

  ghost function AllBare<O>(es: seq<IOEntry<O>>): seq<IOEntry<O>> {
    seq(|es|, i requires 0 <= i < |es| => Bare(es[i]))
  }

  /** What a read answers, and the list it leaves. */
  datatype Step<O> = Step(ok: bool, entries: seq<IOEntry<O>>, items: seq<Item<Key, O>>)

  /** After a failed read the entries stay as the service left them, some of them still to be ignored;
      a read that succeeds and wants objects puts the new ones in the list. */
  ghost function ReadStep<O>(upstream: Upstream<O>, capacity: int, pinned: O -> bool, path: string,
                             items: seq<Item<Key, O>>, es: seq<IOEntry<O>>): Step<O> {
    var r, touched := upstream(path, MarkAll(items, path, es)), Touched(items, path, es);
    if !r.ok || NoneWants(es) then Step(r.ok, r.entries, touched)
    else Step(true, AllBare(r.entries), Kept(touched, capacity, pinned, path, r.entries))
  }

  // ---- The cache ----

  class Vector<O> {
    const path: string
    var entries: seq<IOEntry<O>>

    constructor (path: string, entries: seq<IOEntry<O>>)
      ensures this.path == path && this.entries == entries
    {
      this.path, this.entries := path, entries;
    }
  }

  class Cache<O(!new)> {
    const lru: LRU<Key, O>
    var numRead: nat
    var numHit: nat

    constructor (capacity: int)
      ensures fresh(lru) && lru.Valid() && lru.evicts == [] && lru.capacity == capacity
    {
      lru := new LRU(capacity);
      numRead, numHit := 0, 0;
    }

    method Flush()
      requires lru.Valid()
      modifies lru
      ensures lru.Valid() && lru.evicts == []
    {
      lru.Flush();
    }

    method Read(v: Vector<O>, upstream: Upstream<O>, pinned: O -> bool) returns (ok: bool)
      requires lru.Valid()
      modifies this, lru, v`entries
      ensures lru.Valid()
      ensures Step(ok, v.entries, lru.evicts) ==
        ReadStep(upstream, lru.capacity, pinned, v.path, old(lru.evicts), old(v.entries))
      ensures numRead == old(numRead) + |old(v.entries)|
      ensures numHit == old(numHit) + HitCount(old(lru.evicts), v.path, old(v.entries))
    {
      var noObject := LookUpAll(v);
      var r := upstream(v.path, v.entries);
      v.entries := r.entries;
      ok := r.ok;
      if ok && !noObject {
        Store(v, pinned);
      }
    }

    /** Any history of calls on one cache. */
    method PerformAll(vectors: seq<Vector<O>>, ops: seq<Op>, upstream: Upstream<O>, pinned: nat -> (O -> bool))
      returns (oks: seq<bool>)
      requires lru.Valid() && InBounds(ops, |vectors|)
      requires forall i, j :: 0 <= i < j < |vectors| ==> vectors[i] != vectors[j]
      modifies this, lru, vectors
      ensures lru.Valid()
      ensures Now(lru.evicts, Requests(vectors), oks) ==
        RunCalls(upstream, lru.capacity, pinned, old(lru.evicts), old(Requests(vectors)), ops)
    {
      oks := [];
      ghost var items, requests := lru.evicts, Requests(vectors);
      for k := 0 to |ops|
        invariant lru.Valid()
        invariant Now(lru.evicts, Requests(vectors), oks) ==
          RunCalls(upstream, lru.capacity, pinned, items, requests, ops[..k])
      {
        assert ops[..k + 1][..k] == ops[..k];
        var ok := Perform(vectors, ops[k], upstream, pinned(k), oks);
        oks := oks + [ok];
      }
      assert ops[..|ops|] == ops;
    }

    method Perform(vectors: seq<Vector<O>>, op: Op, upstream: Upstream<O>, pinned: O -> bool, ghost oks: seq<bool>)
      returns (ok: bool)
      requires lru.Valid() && (op.DoRead? ==> op.v < |vectors|)
      requires forall i, j :: 0 <= i < j < |vectors| ==> vectors[i] != vectors[j]
      modifies this, lru, vectors
      ensures lru.Valid()
      ensures Now(lru.evicts, Requests(vectors), oks + [ok]) ==
        Next(upstream, lru.capacity, pinned, Now(old(lru.evicts), old(Requests(vectors)), oks), op)
    {
      match op {
        case DoFlush =>
          Flush();
          ok := true;
        case DoRead(v) =>
          ghost var before, q := Requests(vectors), Request(vectors[v].path, vectors[v].entries);
          ok := Read(vectors[v], upstream, pinned);
          assert Requests(vectors) == before[v := q.(entries := vectors[v].entries)];
      }
    }

    /** The look-ups of a read, counted. */
    method LookUpAll(v: Vector<O>) returns (noObject: bool)
      requires lru.Valid()
      modifies this, lru, v`entries
      ensures lru.Valid() && v.entries == MarkAll(old(lru.evicts), v.path, old(v.entries))
      ensures (noObject <==> NoneWants(old(v.entries)))
      ensures lru.evicts == Touched(old(lru.evicts), v.path, old(v.entries))
      ensures numRead == old(numRead) + |old(v.entries)|
      ensures numHit == old(numHit) + HitCount(old(lru.evicts), v.path, old(v.entries))
    {
      var hits;
      noObject, hits := LookUp(v);
      numRead, numHit := numRead + |v.entries|, numHit + hits;
    }

    method LookUpOne(path: string, entry: IOEntry<O>) returns (marked: IOEntry<O>, hit: bool)
      requires lru.Valid()
      modifies lru
      ensures lru.Valid() && marked == Marked(old(lru.evicts), path, entry)
      ensures hit <==> entry.wants && Lookup(old(lru.evicts), KeyOf(path, entry)).Hit?
      ensures lru.evicts == if entry.wants then Touch(old(lru.evicts), KeyOf(path, entry)) else old(lru.evicts)
    {
      marked, hit := entry, false;
      if entry.wants {
        var found := lru.Get(KeyOf(path, entry));
        if found.Hit? {
          marked := entry.(obj := Some(found.value), objectSize := found.size, ignore := true);
          hit := true;
        }
      }
    }

    method LookUp(v: Vector<O>) returns (noObject: bool, hits: nat)
      requires lru.Valid()
      modifies lru, v`entries
      ensures lru.Valid() && v.entries == MarkAll(old(lru.evicts), v.path, old(v.entries))
      ensures noObject <==> NoneWants(old(v.entries))
      ensures hits == HitCount(old(lru.evicts), v.path, old(v.entries))
      ensures lru.evicts == Touched(old(lru.evicts), v.path, old(v.entries))
    {
      ghost var es, items0 := v.entries, lru.evicts;
      noObject, hits := true, 0;
      for i := 0 to |v.entries|
        invariant lru.Valid() && LookedUpTo(items0, v.path, es, i, v.entries, noObject, hits, lru.evicts)
      {
        var entries, entry := v.entries, v.entries[i];
        OneMoreEntry(items0, v.path, es, i, entries, noObject, hits, lru.evicts);
        var marked, hit := LookUpOne(v.path, entry);
        noObject := noObject && !entry.wants;
        v.entries := entries[i := marked];
        hits := if hit then hits + 1 else hits;
      }
      LookedUpEnd(items0, v.path, es, v.entries, noObject, hits, lru.evicts);
    }

    method Store(v: Vector<O>, pinned: O -> bool)
      requires lru.Valid()
      modifies lru, v`entries
      ensures lru.Valid() && v.entries == AllBare(old(v.entries))
      ensures lru.evicts == Kept(old(lru.evicts), lru.capacity, pinned, v.path, old(v.entries))
    {
      ghost var out := v.entries;
      for i := 0 to |v.entries|
        invariant lru.Valid() && |v.entries| == |out|
        invariant forall j :: 0 <= j < |out| ==> v.entries[j] == if j < i then Bare(out[j]) else out[j]
        invariant lru.evicts == Kept(old(lru.evicts), lru.capacity, pinned, v.path, out[..i])
      {
        var entries, entry := v.entries, v.entries[i];
        assert out[..i + 1][..i] == out[..i];
        if !entry.ignore && entry.obj.Some? {
          lru.Set(KeyOf(v.path, entry), entry.obj.value, entry.objectSize, pinned);
        }
        v.entries := entries[i := entry.(ignore := false)];
      }
      assert out[..|out|] == out;
    }
  }

  /** The look-up loop before its i-th round. */
  ghost predicate LookedUpTo<O>(items: seq<Item<Key, O>>, path: string, es: seq<IOEntry<O>>, i: nat,
                                entries: seq<IOEntry<O>>, noObject: bool, hits: nat, now: seq<Item<Key, O>>)
    requires i <= |es|
  {
    && |entries| == |es| && (noObject <==> NoneWants(es[..i]))
    && (forall j :: 0 <= j < |es| ==> entries[j] == if j < i then Marked(items, path, es[j]) else es[j])
    && hits == HitCount(items, path, es[..i]) && now == Touched(items, path, es[..i])
  }

  lemma {:induction false} OneMoreEntry<O>(items: seq<Item<Key, O>>, path: string, es: seq<IOEntry<O>>, i: nat,
                                           entries: seq<IOEntry<O>>, noObject: bool, hits: nat, now: seq<Item<Key, O>>)
    requires i < |es| && LookedUpTo(items, path, es, i, entries, noObject, hits, now)
    ensures |entries| == |es| && entries[i] == es[i] && Marked(now, path, es[i]) == Marked(items, path, es[i])
    ensures var e, found := es[i], Lookup(now, KeyOf(path, es[i])).Hit?;
      LookedUpTo(items, path, es, i + 1, entries[i := Marked(items, path, e)], noObject && !e.wants,
                 if e.wants && found then hits + 1 else hits, if e.wants then Touch(now, KeyOf(path, e)) else now)
  {
    assert es[..i + 1][..i] == es[..i];
    LookupTouched(items, path, es[..i], KeyOf(path, es[i]));
    assert NoneWants(es[..i + 1]) ==> !es[..i + 1][i].wants;
    assert NoneWants(es[..i + 1]) ==> forall j :: 0 <= j < i ==> !es[..i + 1][j].wants && es[..i][j] == es[..i + 1][j];
  }

  lemma {:induction false} LookedUpEnd<O>(items: seq<Item<Key, O>>, path: string, es: seq<IOEntry<O>>,
                                          entries: seq<IOEntry<O>>, noObject: bool, hits: nat, now: seq<Item<Key, O>>)
    requires LookedUpTo(items, path, es, |es|, entries, noObject, hits, now)
    ensures entries == MarkAll(items, path, es) && (noObject <==> NoneWants(es))
    ensures hits == HitCount(items, path, es) && now == Touched(items, path, es)
  {
    assert es[..|es|] == es;
  }

  // ---- What a read without the cache does to an entry ----

  /** The entry gets a new object whenever it can be read. */
  ghost predicate Overwritten<O>(files: Files, path: string, e: IOEntry<O>) {
    e.wants && (e.size > 0 || (path in files && e.offset < |files[path]|))
  }

  ghost predicate Carries<O>(files: Files, make: Maker<O>, path: string, e: IOEntry<O>) {
    e.obj.Some? && Genuine(files, make, KeyOf(path, e), e.obj.value, e.objectSize)
  }

  /** The entry carries no object, one that reading replaces, or the very one that its bytes give. */
  ghost predicate Honest<O>(files: Files, make: Maker<O>, path: string, e: IOEntry<O>) {
    e.obj == None || Overwritten(files, path, e) || Carries(files, make, path, e)
  }

  /** A buffer no longer than the size, where an object is built from a range. */
  ghost predicate ShortBuffer<O>(e: IOEntry<O>) {
    e.wants && e.size > 0 ==> |e.data| <= e.size
  }

  /** An entry that a caller may hand in; to be ignored only after a read that failed. */
  ghost predicate Ready<O>(files: Files, make: Maker<O>, path: string, e: IOEntry<O>) {
    ShortBuffer(e) && if e.ignore then e.wants && Carries(files, make, path, e) else Honest(files, make, path, e)
  }

  ghost predicate AllReady<O>(files: Files, make: Maker<O>, path: string, es: seq<IOEntry<O>>) {
    forall i :: 0 <= i < |es| ==> Ready(files, make, path, es[i])
  }

  lemma {:induction false} FetchWanted<O>(service: Service, f: seq<byte>, e: IOEntry<O>)
    requires e.wants && ShortBuffer(e) && ValidRange(f, e) && !service.Memory?
    ensures Fetch(service, f, e) == Some(Slice(f, e))
  {
    if e.size > 0 {
      FetchSlice(service, f, e);
    }
  }

  /** A read leaves an honest entry with no object, or with the one that its bytes give; and always with
      that one where there can be one and it is wanted. */
  lemma {:induction false} PlainRead<O>(service: Service, files: Files, path: string, make: Maker<O>, e: IOEntry<O>)
    requires Ready(files, make, path, e) && !e.ignore && !service.Memory?
    ensures var r := ReadOne(service, FileAt(files, path), path, make, e);
      && (r.Some? ==> SameRequest(e, r.value) && ShortBuffer(r.value) && !r.value.ignore)
      && (r.Some? && r.value.obj.Some? ==> Carries(files, make, path, r.value))
      && (forall obj, size :: e.wants && Genuine(files, make, KeyOf(path, e), obj, size) ==>
            r.Some? && r.value.obj == Some(obj) && r.value.objectSize == size)
  {
    if path in files && e.wants && ValidRange(files[path], e) {
      FetchWanted(service, files[path], e);
    }
  }

  ghost predicate SameRequest<O>(a: IOEntry<O>, b: IOEntry<O>) {
    b.offset == a.offset && b.size == a.size && b.wants == a.wants
  }

  /** Honesty is exactly what keeps foreign objects out of the cache: what a read that succeeds leaves is
      genuine if and only if the entry was honest. */
  lemma {:induction false} HonestIff<O>(service: Service, files: Files, path: string, make: Maker<O>, e: IOEntry<O>,
                                        r: IOEntry<O>)
    requires ShortBuffer(e) && !e.ignore && !service.Memory?
    requires ReadOne(service, FileAt(files, path), path, make, e) == Some(r)
    ensures r.obj == None || Carries(files, make, path, r) <==> Honest(files, make, path, e)
  {
    if Honest(files, make, path, e) {
      PlainRead(service, files, path, make, e);
    }
  }

  /** The buffer tells whether a wanted object is the one that the key's bytes give, for every way of
      building objects: longer buffers make a local read fail, and add their tail to the bytes from S3. */
  lemma {:induction false} BufferIff<O(!new)>(service: Service, files: Files, path: string, e: IOEntry<O>, x: O)
    requires e.wants && !e.ignore && !service.Memory? && path in files && ValidRange(files[path], e)
    ensures (forall make: Maker<O> :: BuildsGenuine(service, files, path, make, e)) <==> ShortBuffer(e)
  {
    if ShortBuffer(e) {
      forall make: Maker<O>
        ensures BuildsGenuine(service, files, path, make, e)
      {
        FetchWanted(service, files[path], e);
      }
    } else {
      var exact: Maker<O> := (k: Key, bytes: seq<byte>) => if |bytes| == e.size then Made(x, 1) else NotMade;
      assert Genuine(files, exact, KeyOf(path, e), x, 1);
      assert !BuildsGenuine(service, files, path, exact, e);
    }
  }

  ghost predicate BuildsGenuine<O(!new)>(service: Service, files: Files, path: string, make: Maker<O>, e: IOEntry<O>) {
    forall obj, size :: Genuine(files, make, KeyOf(path, e), obj, size) ==>
      var r := ReadOne(service, FileAt(files, path), path, make, e);
      r.Some? && r.value.obj == Some(obj) && r.value.objectSize == size
  }

  // ---- A read through the cache answers as the service does ----

  /** The same object; the same entry altogether where no object is wanted. */
  ghost predicate SameObject<O>(a: IOEntry<O>, b: IOEntry<O>) {
    a.obj == b.obj && a.objectSize == b.objectSize && (!b.wants ==> a == b)
  }

  /** Every entry ends with the object that a read without a cache leaves, and is not ignored. */
  ghost predicate Transparent<O>(service: Service, files: Files, path: string, make: Maker<O>,
                                 es: seq<IOEntry<O>>, es': seq<IOEntry<O>>) {
    |es'| == |es| && forall i :: 0 <= i < |es| ==>
      var r := ReadOne(service, FileAt(files, path), path, make, Bare(es[i]));
      r.Some? && !es'[i].ignore && SameObject(es'[i], r.value)
  }

  /** An entry after the look-up can be read when the entry itself can, and then has the same object. */
  lemma {:induction false} LookedUpRead<O>(service: Service, files: Files, path: string, make: Maker<O>,
                                           items: seq<Item<Key, O>>, e: IOEntry<O>)
    requires Ready(files, make, path, e) && !service.Memory? && AllGenuine(files, make, items)
    ensures var f, m := FileAt(files, path), Marked(items, path, e);
      var r, alone := ReadOne(service, f, path, make, m), ReadOne(service, f, path, make, Bare(e));
      && Ready(files, make, path, m) && SameRequest(e, m) && (m.ignore ==> e.wants)
      && (r.Some? <==> alone.Some?)
      && (r.Some? ==> SameObject(Bare(r.value), alone.value) && SameRequest(e, r.value))
      && (r.Some? ==> Ready(files, make, path, r.value) && Ready(files, make, path, Bare(r.value)))
      && (r.Some? && r.value.obj.Some? ==> Carries(files, make, path, r.value))
      && (r.Some? && !e.wants ==> !r.value.ignore)
  {
    LookupIn(items, KeyOf(path, e));
    PlainRead(service, files, path, make, Bare(e));
  }

  ghost predicate Settled<O>(files: Files, make: Maker<O>, path: string, e: IOEntry<O>) {
    e.obj.Some? ==> Carries(files, make, path, e)
  }

  /** Genuine objects stay the only ones. */
  lemma {:induction false} KeptGenuine<O>(files: Files, make: Maker<O>, items: seq<Item<Key, O>>, capacity: int,
                                          pinned: O -> bool, path: string, es: seq<IOEntry<O>>)
    requires AllGenuine(files, make, items) && forall i :: 0 <= i < |es| ==> Settled(files, make, path, es[i])
    ensures AllGenuine(files, make, Kept(items, capacity, pinned, path, es))
    decreases |es|
  {
    if es != [] {
      var n := |es| - 1;
      var e, before := es[n], Kept(items, capacity, pinned, path, es[..n]);
      KeptGenuine(files, make, items, capacity, pinned, path, es[..n]);
      if !e.ignore && e.obj.Some? {
        assert Settled(files, make, path, e);
        StoredIn(before, KeyOf(path, e), e.obj.value, e.objectSize, pinned, capacity);
      }
    }
  }

  lemma {:induction false} TouchedGenuine<O>(files: Files, make: Maker<O>, items: seq<Item<Key, O>>, path: string,
                                             es: seq<IOEntry<O>>)
    requires AllGenuine(files, make, items)
    ensures AllGenuine(files, make, Touched(items, path, es))
    decreases |es|
  {
    if es != [] {
      var before := Touched(items, path, es[..|es| - 1]);
      TouchedGenuine(files, make, items, path, es[..|es| - 1]);
      TouchIn(before, KeyOf(path, es[|es| - 1]));
    }
  }

  lemma {:induction false} MarkedReads<O>(service: Service, files: Files, path: string, make: Maker<O>,
                                          items: seq<Item<Key, O>>, es: seq<IOEntry<O>>)
    requires AllReady(files, make, path, es) && !service.Memory? && AllGenuine(files, make, items)
    ensures var f := FileAt(files, path);
      ReadsOk(service, f, path, make, MarkAll(items, path, es)) <==> ReadsOk(service, f, path, make, AllBare(es))
  {
    var f, mid, bare := FileAt(files, path), MarkAll(items, path, es), AllBare(es);
    forall i | 0 <= i < |es|
      ensures ReadOne(service, f, path, make, mid[i]).Some? <==> ReadOne(service, f, path, make, bare[i]).Some?
    {
      LookedUpRead(service, files, path, make, items, es[i]);
    }
  }

  /** What a read leaves of an entry, whether it succeeds or fails. */
  lemma {:induction false} LeftReady<O>(service: Service, files: Files, path: string, make: Maker<O>,
                                        items: seq<Item<Key, O>>, es: seq<IOEntry<O>>, i: nat)
    requires AllReady(files, make, path, es) && !service.Memory? && AllGenuine(files, make, items) && i < |es|
    ensures var f := FileAt(files, path);
      var r := ReadAll(service, f, path, make, MarkAll(items, path, es));
      && Ready(files, make, path, r.entries[i]) && SameRequest(es[i], r.entries[i])
      && (r.ok ==> Settled(files, make, path, r.entries[i]) && Ready(files, make, path, Bare(r.entries[i])))
      && (r.ok ==> ReadOne(service, f, path, make, Bare(es[i])).Some?)
      && (r.ok ==> SameObject(Bare(r.entries[i]), ReadOne(service, f, path, make, Bare(es[i])).value))
      && (r.ok && !es[i].wants ==> !r.entries[i].ignore)
  {
    ReadAllLaw(service, FileAt(files, path), path, make, MarkAll(items, path, es));
    LookedUpRead(service, files, path, make, items, es[i]);
  }

  /** A read through the cache succeeds exactly when the service alone would, and then leaves the same
      objects. Whether it succeeds or fails, the cache holds only genuine objects, and the entries can be
      handed in again. */
  lemma {:induction false} ReadTransparent<O>(service: Service, files: Files, make: Maker<O>, capacity: int,
                                              pinned: O -> bool, path: string, items: seq<Item<Key, O>>,
                                              es: seq<IOEntry<O>>)
    requires AllReady(files, make, path, es) && !service.Memory? && AllGenuine(files, make, items)
    ensures var s := ReadStep(ServiceRead(service, files, make), capacity, pinned, path, items, es);
      && AllGenuine(files, make, s.items) && AllReady(files, make, path, s.entries)
      && |s.entries| == |es| && (forall i :: 0 <= i < |es| ==> SameRequest(es[i], s.entries[i]))
      && (s.ok <==> ReadsOk(service, FileAt(files, path), path, make, AllBare(es)))
      && (s.ok ==> Transparent(service, files, path, make, es, s.entries))
  {
    var f, mid := FileAt(files, path), MarkAll(items, path, es);
    var r := ReadAll(service, f, path, make, mid);
    ReadAllLaw(service, f, path, make, mid);
    MarkedReads(service, files, path, make, items, es);
    TouchedGenuine(files, make, items, path, es);
    var s := ReadStep(ServiceRead(service, files, make), capacity, pinned, path, items, es);
    forall i | 0 <= i < |es|
      ensures Ready(files, make, path, s.entries[i]) && SameRequest(es[i], s.entries[i])
      ensures r.ok ==> Settled(files, make, path, r.entries[i])
      ensures r.ok ==> !s.entries[i].ignore && s.entries[i] == Bare(r.entries[i])
      ensures r.ok ==> ReadOne(service, f, path, make, Bare(es[i])).Some?
      ensures r.ok ==> SameObject(Bare(r.entries[i]), ReadOne(service, f, path, make, Bare(es[i])).value)
    {
      LeftReady(service, files, path, make, items, es, i);
    }
    if r.ok {
      KeptGenuine(files, make, Touched(items, path, es), capacity, pinned, path, r.entries);
    }
  }

  lemma {:induction false} TouchIn<O>(items: seq<Item<Key, O>>, key: Key)
    ensures forall x :: x in Touch(items, key) ==> x in items
  {
    ThinWithout(items, key);
    ThinIn(Without(items, key), items);
    LookupIn(items, key);
  }

  lemma {:induction false} LookupIn<O>(items: seq<Item<Key, O>>, key: Key)
    ensures Lookup(items, key).Hit? ==> Item(key, Lookup(items, key).value, Lookup(items, key).size) in items
  {
    if items != [] && items[0].key != key {
      LookupIn(items[1..], key);
    }
  }

  lemma {:induction false} StoredIn<O>(items: seq<Item<Key, O>>, key: Key, obj: O, size: int, pinned: O -> bool,
                                       capacity: int)
    ensures forall x :: x in Evict([Item(key, obj, size)] + Without(items, key), pinned, capacity) ==>
      x in items || x == Item(key, obj, size)
  {
    var all := [Item(key, obj, size)] + Without(items, key);
    ThinWithout(items, key);
    ThinIn(Without(items, key), items);
    ThinEvict(all, pinned, capacity);
    ThinIn(Evict(all, pinned, capacity), all);
  }


  // ---- Whole histories ----

  datatype Request<O> = Request(path: string, entries: seq<IOEntry<O>>)

  ghost function Requests<O>(vectors: seq<Vector<O>>): seq<Request<O>>
    reads vectors
  {
    seq(|vectors|, i requires 0 <= i < |vectors| reads vectors => Request(vectors[i].path, vectors[i].entries))
  }

  /** A read of the v-th request, for the first time or again, or a flush. */
  datatype Op = DoRead(v: nat) | DoFlush

  /** The list, the requests and the answers so far. */
  datatype Now<O> = Now(items: seq<Item<Key, O>>, requests: seq<Request<O>>, oks: seq<bool>)

  ghost predicate InBounds(ops: seq<Op>, n: nat) {
    forall k :: 0 <= k < |ops| && ops[k].DoRead? ==> ops[k].v < n
  }

  ghost function Next<O>(upstream: Upstream<O>, capacity: int, pinned: O -> bool, now: Now<O>, op: Op): Now<O>
    requires op.DoRead? ==> op.v < |now.requests|
  {
    match op
    case DoFlush => Now([], now.requests, now.oks + [true])
    case DoRead(v) =>
      var q := now.requests[v];
      var s := ReadStep(upstream, capacity, pinned, q.path, now.items, q.entries);
      Now(s.items, now.requests[v := q.(entries := s.entries)], now.oks + [s.ok])
  }

  /** `pinned(k)` tells what is pinned during the k-th call. */
  ghost function RunCalls<O>(upstream: Upstream<O>, capacity: int, pinned: nat -> (O -> bool), items: seq<Item<Key, O>>,
                        requests: seq<Request<O>>, ops: seq<Op>): (now: Now<O>)
    requires InBounds(ops, |requests|)
    ensures |now.requests| == |requests| && |now.oks| == |ops|
  {
    if ops == [] then Now(items, requests, [])
    else
      var n := |ops| - 1;
      Next(upstream, capacity, pinned(n), RunCalls(upstream, capacity, pinned, items, requests, ops[..n]), ops[n])
  }

  ghost predicate Fit<O>(files: Files, make: Maker<O>, now: Now<O>) {
    && AllGenuine(files, make, now.items)
    && forall v :: 0 <= v < |now.requests| ==> AllReady(files, make, now.requests[v].path, now.requests[v].entries)
  }

  /** The call answered as the service alone would have answered it. */
  ghost predicate AnswersAlone<O>(service: Service, files: Files, make: Maker<O>, q: Request<O>, ok: bool,
                                  q': Request<O>) {
    && q'.path == q.path
    && (ok <==> ReadsOk(service, FileAt(files, q.path), q.path, make, AllBare(q.entries)))
    && (ok ==> Transparent(service, files, q.path, make, q.entries, q'.entries))
  }

  lemma {:induction false} NextFit<O>(service: Service, files: Files, make: Maker<O>, capacity: int, pinned: O -> bool,
                                      now: Now<O>, op: Op)
    requires Fit(files, make, now) && !service.Memory? && (op.DoRead? ==> op.v < |now.requests|)
    ensures var next := Next(ServiceRead(service, files, make), capacity, pinned, now, op);
      && Fit(files, make, next)
      && (op.DoRead? ==>
            AnswersAlone(service, files, make, now.requests[op.v], next.oks[|now.oks|], next.requests[op.v]))
  {
    if op.DoRead? {
      var q := now.requests[op.v];
      ReadTransparent(service, files, make, capacity, pinned, q.path, now.items, q.entries);
    }
  }

  lemma {:induction false} RunFit<O>(service: Service, files: Files, make: Maker<O>, capacity: int,
                                     pinned: nat -> (O -> bool), items: seq<Item<Key, O>>,
                                     requests: seq<Request<O>>, ops: seq<Op>)
    requires InBounds(ops, |requests|) && Fit(files, make, Now(items, requests, [])) && !service.Memory?
    ensures Fit(files, make, RunCalls(ServiceRead(service, files, make), capacity, pinned, items, requests, ops))
    decreases |ops|
  {
    if ops != [] {
      var n := |ops| - 1;
      RunFit(service, files, make, capacity, pinned, items, requests, ops[..n]);
      NextFit(service, files, make, capacity, pinned(n),
              RunCalls(ServiceRead(service, files, make), capacity, pinned, items, requests, ops[..n]), ops[n]);
    }
  }

  /** Over any history of reads, repeated reads and flushes, of reads that fail and are tried again, and
      whatever is evicted in between, every read answers as the service alone would. */
  lemma {:induction false} RunTransparent<O>(service: Service, files: Files, make: Maker<O>, capacity: int,
                                             pinned: nat -> (O -> bool), items: seq<Item<Key, O>>,
                                             requests: seq<Request<O>>, ops: seq<Op>, k: nat)
    requires InBounds(ops, |requests|) && Fit(files, make, Now(items, requests, [])) && !service.Memory?
    requires k < |ops| && ops[k].DoRead?
    ensures var upstream, v := ServiceRead(service, files, make), ops[k].v;
      AnswersAlone(service, files, make, RunCalls(upstream, capacity, pinned, items, requests, ops[..k]).requests[v],
                   RunCalls(upstream, capacity, pinned, items, requests, ops).oks[k],
                   RunCalls(upstream, capacity, pinned, items, requests, ops[..k + 1]).requests[v])
  {
    RunFit(service, files, make, capacity, pinned, items, requests, ops[..k]);
    assert ops[..k + 1][..k] == ops[..k];
    NextFit(service, files, make, capacity, pinned(k),
            RunCalls(ServiceRead(service, files, make), capacity, pinned, items, requests, ops[..k]), ops[k]);
    AnswersStay(ServiceRead(service, files, make), capacity, pinned, items, requests, ops, k + 1);
  }

  lemma {:induction false} AnswersStay<O>(upstream: Upstream<O>, capacity: int, pinned: nat -> (O -> bool),
                                          items: seq<Item<Key, O>>, requests: seq<Request<O>>, ops: seq<Op>, n: nat)
    requires InBounds(ops, |requests|) && n <= |ops|
    ensures RunCalls(upstream, capacity, pinned, items, requests, ops[..n]).oks
      == RunCalls(upstream, capacity, pinned, items, requests, ops).oks[..n]
    decreases |ops|
  {
    if n == |ops| {
      assert ops[..n] == ops;
    } else {
      var m := |ops| - 1;
      AnswersStay(upstream, capacity, pinned, items, requests, ops[..m], n);
      assert ops[..m][..n] == ops[..n];
    }
  }

  lemma {:induction false} ReadAgain<O>(service: Service, files: Files, make: Maker<O>, path: string,
                                        e: IOEntry<O>, e': IOEntry<O>)
    requires Ready(files, make, path, e) && ShortBuffer(e') && SameRequest(e, e') && !service.Memory?
    requires ReadOne(service, FileAt(files, path), path, make, Bare(e)).Some?
    requires SameObject(e', ReadOne(service, FileAt(files, path), path, make, Bare(e)).value)
    ensures var r := ReadOne(service, FileAt(files, path), path, make, Bare(e'));
      r.Some? && SameResult(e', r.value)
  {
    if e.wants && ValidRange(files[path], e) {
      FetchWanted(service, files[path], Bare(e));
      FetchWanted(service, files[path], Bare(e'));
    }
  }

  /** A request that was read is read again, later and with any other list, with the same objects. */
  lemma {:induction false} AgainSame<O>(service: Service, files: Files, make: Maker<O>, capacity: int,
                                        pinned: O -> bool, path: string, items: seq<Item<Key, O>>,
                                        es: seq<IOEntry<O>>, items': seq<Item<Key, O>>)
    requires AllReady(files, make, path, es) && !service.Memory?
    requires AllGenuine(files, make, items) && AllGenuine(files, make, items')
    requires ReadStep(ServiceRead(service, files, make), capacity, pinned, path, items, es).ok
    ensures var upstream := ServiceRead(service, files, make);
      var first := ReadStep(upstream, capacity, pinned, path, items, es);
      var second := ReadStep(upstream, capacity, pinned, path, items', first.entries);
      && second.ok && |second.entries| == |first.entries|
      && forall i :: 0 <= i < |first.entries| ==> SameResult(first.entries[i], second.entries[i])
  {
    var first := ReadStep(ServiceRead(service, files, make), capacity, pinned, path, items, es);
    ReadTransparent(service, files, make, capacity, pinned, path, items, es);
    ReadTransparent(service, files, make, capacity, pinned, path, items', first.entries);
    forall i | 0 <= i < |es|
      ensures var r := ReadOne(service, FileAt(files, path), path, make, Bare(first.entries[i]));
        r.Some? && SameResult(first.entries[i], r.value)
    {
      assert Ready(files, make, path, first.entries[i]);
      ReadAgain(service, files, make, path, es[i], first.entries[i]);
    }
  }

  ghost predicate SameResult<O>(a: IOEntry<O>, b: IOEntry<O>) {
    a.obj == b.obj && a.objectSize == b.objectSize
  }

  // ---- What the cache is good for ----

  ghost function Finding<O>(items: seq<Item<Key, O>>, path: string, es: seq<IOEntry<O>>): set<int> {
    set i | 0 <= i < |es| && es[i].wants && Lookup(items, KeyOf(path, es[i])).Hit?
  }

  /** The hits of a read are the entries that want an object and find one. */
  lemma {:induction false} HitsCounted<O>(items: seq<Item<Key, O>>, path: string, es: seq<IOEntry<O>>)
    ensures HitCount(items, path, es) == |Finding(items, path, es)|
    decreases |es|
  {
    if es != [] {
      var n := |es| - 1;
      HitsCounted(items, path, es[..n]);
      var before, all := Finding(items, path, es[..n]), Finding(items, path, es);
      if es[n].wants && Lookup(items, KeyOf(path, es[n])).Hit? {
        assert all == before + {n};
      } else {
        assert all == before;
      }
    }
  }

  /** An object that fits is cached by the read that builds it: the next look-up of its key finds it, and
      the entry is not read again. */
  lemma {:induction false} SecondReadHits<O>(service: Service, files: Files, make: Maker<O>, capacity: int,
                                             pinned: O -> bool, path: string, w: IOEntry<O>, r: IOEntry<O>)
    requires !service.Memory? && !w.ignore && w.wants
    requires ReadOne(service, FileAt(files, path), path, make, w) == Some(r) && r.obj.Some? && r.objectSize <= capacity
    ensures var first := ReadStep(ServiceRead(service, files, make), capacity, pinned, path, [], [w]);
      && HitCount([], path, [w]) == 0 && first.ok && |first.entries| == 1 && first.entries[0].obj == r.obj
      && HitCount(first.items, path, first.entries) == 1
      && MarkAll(first.items, path, first.entries) == [first.entries[0].(ignore := true)]
  {
    var f, es := FileAt(files, path), [w];
    var item := Item(KeyOf(path, w), r.obj.value, r.objectSize);
    assert MarkAll([], path, es) == es && es[0].wants && es[..0] == [];
    ReadAllLaw(service, f, path, make, es);
    var out := ReadAll(service, f, path, make, es).entries;
    assert out == [r] && [r][..0] == [];
    TouchedNothing<O>(path, es);
    assert [item] + Without([], item.key) == [item] && [item][1..] == [];
    EvictNothing([item], pinned, capacity);
    assert Kept([], capacity, pinned, path, [r]) == [item];
    assert AllBare([r]) == [r];
    assert Lookup([item], item.key) == Hit(item.value, item.size);
    assert MarkAll([item], path, [r]) == [r.(ignore := true)];
  }

  // ---- What a foreign object does ----

  lemma {:induction false} EvictNothing<K, V>(items: seq<Item<K, V>>, pinned: V -> bool, capacity: int)
    requires Sum(items) <= capacity
    ensures Evict(items, pinned, capacity) == items
  {
    assert items[..|items|] == items && Keep(items, pinned, |items|) == items;
  }

  /** An entry that wants no object but carries one, read next to one that wants one: its object is cached,
      and is what later reads of that range get. */
  lemma {:induction false} CarriedServed<O>(service: Service, files: Files, make: Maker<O>, capacity: int,
                                            pinned: O -> bool, path: string, e: IOEntry<O>, w: IOEntry<O>,
                                            r: IOEntry<O>, later: IOEntry<O>)
    requires !service.Memory? && path in files
    requires !e.ignore && !e.wants && e.obj.Some? && ReadOne(service, FileAt(files, path), path, make, e).Some?
    requires !w.ignore && w.wants && ReadOne(service, FileAt(files, path), path, make, w) == Some(r) && r.obj.Some?
    requires KeyOf(path, w) != KeyOf(path, e) && e.objectSize <= capacity && e.objectSize + r.objectSize <= capacity
    requires later.wants && KeyOf(path, later) == KeyOf(path, e)
    ensures var upstream := ServiceRead(service, files, make);
      var first := ReadStep(upstream, capacity, pinned, path, [], [e, w]);
      var second := ReadStep(upstream, capacity, pinned, path, first.items, [later]);
      first.ok && second.ok && |second.entries| == 1 && second.entries[0].obj == e.obj
  {
    var f, es := FileAt(files, path), [e, w];
    var upstream := ServiceRead(service, files, make);
    assert MarkAll([], path, es) == es;
    ReadAllLaw(service, f, path, make, es);
    var out := ReadAll(service, f, path, make, es).entries;
    assert es[0] == e && es[1] == w;
    assert out == [out[0], out[1]];
    CarriedKept(capacity, pinned, path, out);
    assert !NoneWants(es);
    TouchedNothing<O>(path, es);
    var items := ReadStep(upstream, capacity, pinned, path, [], es).items;
    var again := Marked(items, path, later);
    assert MarkAll(items, path, [later]) == [again];
    ReadAllLaw(service, f, path, make, [again]);
    assert [later][0].wants;
  }

  lemma {:induction false} TouchedNothing<O>(path: string, es: seq<IOEntry<O>>)
    ensures Touched<O>([], path, es) == []
    decreases |es|
  {
    if es != [] {
      TouchedNothing(path, es[..|es| - 1]);
    }
  }

  lemma {:induction false} CarriedKept<O>(capacity: int, pinned: O -> bool, path: string, out: seq<IOEntry<O>>)
    requires |out| == 2 && !out[0].ignore && !out[1].ignore && out[0].obj.Some? && out[1].obj.Some?
    requires KeyOf(path, out[0]) != KeyOf(path, out[1])
    requires out[0].objectSize <= capacity && out[0].objectSize + out[1].objectSize <= capacity
    ensures Lookup(Kept([], capacity, pinned, path, out), KeyOf(path, out[0]))
      == Hit(out[0].obj.value, out[0].objectSize)
  {
    var a := Item(KeyOf(path, out[0]), out[0].obj.value, out[0].objectSize);
    var b := Item(KeyOf(path, out[1]), out[1].obj.value, out[1].objectSize);
    assert out[..1] == [out[0]] && out[..1][..0] == [];
    assert Kept([], capacity, pinned, path, out[..0]) == [];
    assert [a] + Without([], a.key) == [a] && [a][1..] == [];
    EvictNothing([a], pinned, capacity);
    assert Kept([], capacity, pinned, path, out[..1]) == [a];
    assert Without([a], b.key) == [a] && [b] + [a] == [b, a] && [b, a][1..] == [a];
    EvictNothing([b, a], pinned, capacity);
  }

  /** The first byte, as the object. */
  function FirstByte(key: Key, bytes: seq<byte>): Made<int> {
    if bytes == [] then NotMade else Made(bytes[0] as int, 1)
  }

  /** A file of the bytes 7 and 8: the object of the first byte is 7, but after that 9 is served. */
  lemma {:induction false} ForeignObject(service: Service, pinned: int -> bool)
    requires !service.Memory?
    ensures var files, upstream := map["f" := [7, 8]], ServiceRead(service, map["f" := [7, 8]], FirstByte);
      var carrying, wanting := IOEntry(0, 1, [], false, Some(9), 1, false), IOEntry(1, 1, [], true, None, 0, false);
      var later := IOEntry(0, 1, [], true, None, 0, false);
      var first := ReadStep(upstream, 2, pinned, "f", [], [carrying, wanting]);
      var second := ReadStep(upstream, 2, pinned, "f", first.items, [later]);
      && second.ok && |second.entries| == 1 && second.entries[0].obj == Some(9)
      && ReadOne(service, FileAt(files, "f"), "f", FirstByte, later).Some?
      && ReadOne(service, FileAt(files, "f"), "f", FirstByte, later).value.obj == Some(7)
  {
    var f: seq<byte>, files := [7, 8], map["f" := [7, 8]];
    var carrying := IOEntry(0, 1, [], false, Some(9), 1, false);
    var wanting := IOEntry(1, 1, [], true, None, 0, false);
    var later := IOEntry(0, 1, [], true, None, 0, false);
    assert f[0..1] == [7] && f[1..2] == [8];
    FetchSlice(service, f, carrying);
    FetchSlice(service, f, wanting);
    FetchSlice(service, f, later);
    var r := ReadOne(service, Some(f), "f", FirstByte, wanting).value;
    CarriedServed(service, files, FirstByte, 2, pinned, "f", carrying, wanting, r, later);
  }
}
