/** The Read methods of `pkg/fileservice/local_fs.go` and `s3_fs.go`: the object cache over the read paths. */
module CachedReads {
  import opened Wrappers
  import opened Bytes
  import opened FileEntries
  import opened ChecksumLayout
  import opened LruSpec
  import opened MemCache
  import ChecksumFile
  import FileReads

  /** What a cached read promises of entries that may be handed in: nothing but genuine objects in the
      cache, entries that may be handed in again, and, if it succeeds, what the content of the file gives. */
  ghost predicate Faithful<O>(service: Service, files: Files, make: Maker<O>, path: string, ok: bool,
                              es: seq<IOEntry<O>>, es': seq<IOEntry<O>>, items': seq<Item<Key, O>>) {
    && AllGenuine(files, make, items') && AllReady(files, make, path, es')
    && (ok ==> ReadsOk(service, FileAt(files, path), path, make, AllBare(es)))
    && (ok ==> Transparent(service, files, path, make, es, es'))
  }

  /** Every entry is as it was after the look-up, or as it is when read alone. */
  ghost predicate LeftBy<O>(service: Service, files: Files, make: Maker<O>, path: string,
                            mid: seq<IOEntry<O>>, out: seq<IOEntry<O>>) {
    |out| == |mid| && forall i :: 0 <= i < |mid| ==>
      out[i] == mid[i] || ReadOne(service, FileAt(files, path), path, make, mid[i]) == Some(out[i])
  }

  lemma {:induction false} FailureFaithful<O>(service: Service, files: Files, make: Maker<O>, path: string,
                                              items: seq<Item<Key, O>>, es: seq<IOEntry<O>>, out: seq<IOEntry<O>>)
    requires AllReady(files, make, path, es) && AllGenuine(files, make, items) && !service.Memory?
    requires LeftBy(service, files, make, path, MarkAll(items, path, es), out)
    ensures Faithful(service, files, make, path, false, es, out, MemCache.Touched(items, path, es))
  {
    TouchedGenuine(files, make, items, path, es);
    forall i | 0 <= i < |es|
      ensures Ready(files, make, path, out[i])
    {
      LookedUpRead(service, files, path, make, items, es[i]);
    }
  }

  /** The bytes of a local file are those of its blocks, good or damaged. */
  ghost predicate Stored(files: Files, path: string, raw: ChecksumFile.RawFile?, v: View, size: nat, crc: Crc)
    reads if raw == null then {} else {raw}
  {
    && FileAt(files, path) == (if raw == null then None else Some(v.content))
    && (raw != null ==> size > 0 && v.size == size && v.crc == crc && Laid(size, raw.bytes, v.sums, v.content))
  }

  /** A successful read is the read of the undamaged content. */
  lemma {:induction false} ReadsToAll<O>(service: Service, f: Option<seq<byte>>, path: string, make: Maker<O>,
                                         es: seq<IOEntry<O>>, es': seq<IOEntry<O>>)
    requires ReadsOk(service, f, path, make, es) && ReadsTo(service, f, path, make, es, es')
    ensures ReadAll(service, f, path, make, es) == Outcome(true, es')
  {
    ReadAllLaw(service, f, path, make, es);
    var r := ReadAll(service, f, path, make, es);
    assert forall i :: 0 <= i < |es| ==> r.entries[i] == es'[i];
  }

  /** The service's own read, without a cache. */
  method LocalRead<O>(v: Vector<O>, raw: ChecksumFile.RawFile?, ghost view: View, size: nat, crc: Crc,
                      lengths: nat -> nat, make: Maker<O>, ghost files: Files)
    returns (ok: bool)
    requires Stored(files, v.path, raw, view, size, crc) && forall k :: lengths(k) > 0
    modifies v`entries
    ensures LeftBy(Local, files, make, v.path, old(v.entries), v.entries)
    ensures ok || raw == null || view.Intact() ==>
      Outcome(ok, v.entries) == ServiceRead(Local, files, make)(v.path, old(v.entries))
  {
    var es;
    ok, es := FileReads.LocalRead(raw, view, size, crc, lengths, v.path, make, v.entries);
    if ok {
      ReadsToAll(Local, FileAt(files, v.path), v.path, make, v.entries, es);
    }
    v.entries := es;
  }

  /** Reads a local file through the cache. Of a file whose blocks are undamaged the
      answer is that of the cache over the service; and damaged or not, whatever is delivered, now or by
      later reads of the cache, is what the content gives. */
  method CachedLocalRead<O(!new)>(cache: Cache<O>, v: Vector<O>, raw: ChecksumFile.RawFile?, ghost view: View,
                           size: nat,
                                  crc: Crc, lengths: nat -> nat, make: Maker<O>, pinned: O -> bool, ghost files: Files)
    returns (ok: bool)
    requires cache.lru.Valid() && Stored(files, v.path, raw, view, size, crc) && forall k :: lengths(k) > 0
    modifies cache, cache.lru, v`entries
    ensures cache.lru.Valid()
    ensures old(v.entries) == [] ==> !ok && v.entries == [] && cache.lru.evicts == old(cache.lru.evicts)
    ensures old(v.entries) != [] && (ok || raw == null || view.Intact()) ==>
      Step(ok, v.entries, cache.lru.evicts) ==
      ReadStep(ServiceRead(Local, files, make), cache.lru.capacity, pinned, v.path,
               old(cache.lru.evicts), old(v.entries))
    ensures AllGenuine(files, make, old(cache.lru.evicts)) && AllReady(files, make, v.path, old(v.entries)) ==>
      && Faithful(Local, files, make, v.path, ok, old(v.entries), v.entries, cache.lru.evicts)
      && (old(v.entries) != [] && (raw == null || view.Intact()) ==>
            (ok <==> ReadsOk(Local, FileAt(files, v.path), v.path, make, AllBare(old(v.entries)))))
  {
    if |v.entries| == 0 {
      return false;
    }
    ghost var es, items := v.entries, cache.lru.evicts;
    var noObject := cache.LookUpAll(v);
    ok := LocalRead(v, raw, view, size, crc, lengths, make, files);
    if ok && !noObject {
      cache.Store(v, pinned);
    }
    if AllGenuine(files, make, items) && AllReady(files, make, v.path, es) {
      if ok || raw == null || view.Intact() {
        ReadTransparent(Local, files, make, cache.lru.capacity, pinned, v.path, items, es);
      } else {
        FailureFaithful(Local, files, make, v.path, items, es, v.entries);
      }
    }
  }

  /** Reads an object of the store through the cache. */
  method CachedS3Read<O(!new)>(cache: Cache<O>, v: Vector<O>, f: Option<seq<byte>>, make: Maker<O>, pinned: O -> bool,
                               ghost files: Files)
    returns (ok: bool)
    requires cache.lru.Valid() && FileAt(files, v.path) == f
    modifies cache, cache.lru, v`entries
    ensures cache.lru.Valid()
    ensures old(v.entries) == [] ==> !ok && v.entries == [] && cache.lru.evicts == old(cache.lru.evicts)
    ensures old(v.entries) != [] ==>
      Step(ok, v.entries, cache.lru.evicts) ==
      ReadStep(ServiceRead(S3, files, make), cache.lru.capacity, pinned, v.path, old(cache.lru.evicts), old(v.entries))
    ensures AllGenuine(files, make, old(cache.lru.evicts)) && AllReady(files, make, v.path, old(v.entries)) ==>
      && Faithful(S3, files, make, v.path, ok, old(v.entries), v.entries, cache.lru.evicts)
      && (old(v.entries) != [] ==>
            (ok <==> ReadsOk(S3, FileAt(files, v.path), v.path, make, AllBare(old(v.entries)))))
  {
    if |v.entries| == 0 {
      return false;
    }
    ghost var es, items := v.entries, cache.lru.evicts;
    var noObject := cache.LookUpAll(v);
    var read;
    ok, read := FileReads.S3Read(f, v.path, make, v.entries);
    v.entries := read;
    if ok && !noObject {
      cache.Store(v, pinned);
    }
    if AllGenuine(files, make, items) && AllReady(files, make, v.path, es) {
      ReadTransparent(S3, files, make, cache.lru.capacity, pinned, v.path, items, es);
    }
  }
}
