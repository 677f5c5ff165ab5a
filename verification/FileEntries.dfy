/** Read requests of `pkg/fileservice/file_service.go`, and what each file service makes of one entry of a
    request. */
module FileEntries {
  import opened Wrappers
  import opened Bytes

  /** What identifies a cached object. */
  datatype Key = Key(path: string, offset: nat, size: int)

  /** Outcome of building an object from the bytes read; what is built depends on the key and the bytes. */
  datatype Made<O> = Made(obj: O, size: int) | NotMade

  type Maker<!O> = (Key, seq<byte>) -> Made<O>

  /** One entry of a request; `wants` says that an object is to be built from the bytes. */
  datatype IOEntry<O> = IOEntry(
    offset: nat, size: int, data: seq<byte>, wants: bool, obj: Option<O>, objectSize: int, ignore: bool)

  /** The service; a memory service keeps spare bytes behind the end of the file's slice. */
  datatype Service = Local | S3 | Memory(spare: seq<byte>)

  function KeyOf<O>(path: string, e: IOEntry<O>): Key {
    Key(path, e.offset, e.size)
  }

  /** Bytes copied over the front of a buffer, or, if the buffer is too short, in place of it. */
  function Placed(buffer: seq<byte>, bytes: seq<byte>): seq<byte> {
    if |buffer| < |bytes| then bytes else bytes + buffer[|bytes|..]
  }

  /** The content of the Data field after an entry has been read from a file, if that succeeds. */
  function Fetch<O>(service: Service, f: seq<byte>, e: IOEntry<O>): Option<seq<byte>> {
    if e.size == 0 then None
    else
      match service
      case Local =>
        if e.size < 0 then Some(f[Min(e.offset, |f|)..])
        else if |e.data| > e.size || e.offset + e.size > |f| then None
        else Some(f[e.offset..e.offset + e.size])
      case S3 =>
        if e.offset >= |f| || e.offset + e.size > |f| then None
        else if e.size < 0 then Some(f[e.offset..])
        else Some(Placed(e.data, f[e.offset..e.offset + e.size]))
      case Memory(spare) =>
        var size := if e.size < 0 then |f| - e.offset else e.size;
        if size < 0 || size > |f| || e.offset + size > |f + spare| then None
        else Some(Placed(e.data, (f + spare)[e.offset..e.offset + size]))
  }

  /** A memory service replaces a negative size by the number of bytes to the end. */
  function SizeAfter<O>(service: Service, f: seq<byte>, e: IOEntry<O>): int {
    if service.Memory? && e.size < 0 then |f| - e.offset else e.size
  }

  /** Builds the object, if one is wanted and there are bytes. */
  function SetObject<O>(key: Key, make: Maker<O>, e: IOEntry<O>): Option<IOEntry<O>> {
    if !e.wants || e.data == [] then Some(e)
    else
      match make(key, e.data)
      case NotMade => None
      case Made(obj, size) => Some(e.(obj := Some(obj), objectSize := size))
  }

  function ReadOne<O>(service: Service, f: Option<seq<byte>>, path: string, make: Maker<O>, e: IOEntry<O>)
    : Option<IOEntry<O>>
  {
    if e.ignore then (if service.Local? && e.size == 0 then None else Some(e))
    else if f.None? then None
    else
      match Fetch(service, f.value, e)
      case None => None
      case Some(data) =>
        SetObject(KeyOf(path, e), make, e.(data := data, size := SizeAfter(service, f.value, e)))
  }

  /** A file must exist, except that S3 is not asked when every entry is ignored. */
  predicate CanOpen(service: Service, f: Option<seq<byte>>) {
    f.Some? || service.S3?
  }

  ghost predicate ReadsOk<O>(service: Service, f: Option<seq<byte>>, path: string, make: Maker<O>,
                             es: seq<IOEntry<O>>) {
    CanOpen(service, f) && forall i :: 0 <= i < |es| ==> ReadOne(service, f, path, make, es[i]).Some?
  }

  ghost predicate ReadsTo<O>(service: Service, f: Option<seq<byte>>, path: string, make: Maker<O>,
                             es: seq<IOEntry<O>>, es': seq<IOEntry<O>>) {
    |es'| == |es| && forall i :: 0 <= i < |es| ==> ReadOne(service, f, path, make, es[i]) == Some(es'[i])
  }

  // ---- Whole requests ----

  /** Whether a request succeeded, and its entries afterwards. */
  datatype Outcome<O> = Outcome(ok: bool, entries: seq<IOEntry<O>>)

  /** After the first n entries, read one after the other up to the first that cannot be read. */
  function ReadFirst<O>(service: Service, f: Option<seq<byte>>, path: string, make: Maker<O>,
                        es: seq<IOEntry<O>>, n: nat): (r: Outcome<O>)
    requires n <= |es|
    ensures |r.entries| == |es|
  {
    if n == 0 then Outcome(true, es)
    else
      var before := ReadFirst(service, f, path, make, es, n - 1);
      if !before.ok then before
      else
        match ReadOne(service, f, path, make, es[n - 1])
        case None => before.(ok := false)
        case Some(e) => before.(entries := before.entries[n - 1 := e])
  }

  /** A read of all entries of a request. */
  function ReadAll<O>(service: Service, f: Option<seq<byte>>, path: string, make: Maker<O>,
                      es: seq<IOEntry<O>>): (r: Outcome<O>)
    ensures |r.entries| == |es|
  {
    if CanOpen(service, f) then ReadFirst(service, f, path, make, es, |es|) else Outcome(false, es)
  }

  /** Every entry that was reached is as it is when read alone, the others are as they were. */
  lemma {:induction false} ReadFirstLaw<O>(service: Service, f: Option<seq<byte>>, path: string, make: Maker<O>,
                                           es: seq<IOEntry<O>>, n: nat, i: nat)
    requires n <= |es| && i < |es|
    ensures var r := ReadFirst(service, f, path, make, es, n);
      && (r.ok && i < n ==> ReadOne(service, f, path, make, es[i]) == Some(r.entries[i]))
      && (r.entries[i] == es[i] || ReadOne(service, f, path, make, es[i]) == Some(r.entries[i]))
      && (i >= n ==> r.entries[i] == es[i])
  {
    if n > 0 {
      ReadFirstLaw(service, f, path, make, es, n - 1, i);
    }
  }

  lemma {:induction false} ReadFirstFails<O>(service: Service, f: Option<seq<byte>>, path: string, make: Maker<O>,
                                             es: seq<IOEntry<O>>, n: nat)
    requires n <= |es|
    ensures !ReadFirst(service, f, path, make, es, n).ok ==>
      exists i :: 0 <= i < n && ReadOne(service, f, path, make, es[i]) == None
  {
    if n > 0 {
      ReadFirstFails(service, f, path, make, es, n - 1);
    }
  }

  lemma {:induction false} ReadFirstStops<O>(service: Service, f: Option<seq<byte>>, path: string, make: Maker<O>,
                                             es: seq<IOEntry<O>>, n: nat, m: nat)
    requires n <= m <= |es| && !ReadFirst(service, f, path, make, es, n).ok
    ensures ReadFirst(service, f, path, make, es, m) == ReadFirst(service, f, path, make, es, n)
  {
    if n < m {
      ReadFirstStops(service, f, path, make, es, n, m - 1);
    }
  }

  /** A request succeeds exactly when every entry can be read alone; then every entry is as if read alone,
      and otherwise each is so or as it was. */
  lemma {:induction false} ReadAllLaw<O>(service: Service, f: Option<seq<byte>>, path: string, make: Maker<O>,
                                         es: seq<IOEntry<O>>)
    ensures var r := ReadAll(service, f, path, make, es);
      && (r.ok <==> ReadsOk(service, f, path, make, es))
      && (r.ok ==> ReadsTo(service, f, path, make, es, r.entries))
      && (forall i :: 0 <= i < |es| ==>
            r.entries[i] == es[i] || ReadOne(service, f, path, make, es[i]) == Some(r.entries[i]))
  {
    ReadFirstFails(service, f, path, make, es, |es|);
    forall i | 0 <= i < |es|
      ensures var r := ReadFirst(service, f, path, make, es, |es|);
        && (r.ok ==> ReadOne(service, f, path, make, es[i]) == Some(r.entries[i]))
        && (r.entries[i] == es[i] || ReadOne(service, f, path, make, es[i]) == Some(r.entries[i]))
    {
      ReadFirstLaw(service, f, path, make, es, |es|, i);
    }
  }

  // ---- Where the services agree ----

  /** A range inside the file; a negative size stands for all bytes to the end. */
  ghost predicate InRange(f: seq<byte>, offset: nat, size: int) {
    size != 0 && offset < |f| && offset + size <= |f|
  }

  ghost function Cut(f: seq<byte>, offset: nat, size: int): seq<byte>
    requires InRange(f, offset, size)
  {
    if size < 0 then f[offset..] else f[offset..offset + size]
  }

  ghost predicate ValidRange<O>(f: seq<byte>, e: IOEntry<O>) {
    InRange(f, e.offset, e.size)
  }

  ghost function Slice<O>(f: seq<byte>, e: IOEntry<O>): seq<byte>
    requires ValidRange(f, e)
  {
    Cut(f, e.offset, e.size)
  }

  /** On valid ranges, with a buffer no longer than the range, every service returns the bytes of the
      range. */
  lemma {:induction false} FetchSlice<O>(service: Service, f: seq<byte>, e: IOEntry<O>)
    requires ValidRange(f, e) && |e.data| <= |Slice(f, e)|
    ensures Fetch(service, f, e) == Some(Slice(f, e))
  {
    match service
    case Local =>
    case S3 =>
      assert Slice(f, e) + e.data[|e.data|..] == Slice(f, e);
    case Memory(spare) =>
      var size := if e.size < 0 then |f| - e.offset else e.size;
      assert (f + spare)[e.offset..e.offset + size] == Slice(f, e);
      assert Slice(f, e) + e.data[|e.data|..] == Slice(f, e);
  }

  /** Other ranges: nothing is read for size 0; a positive size fails where the range leaves the file, in
      memory where it leaves the capacity or is longer than the file; reading to the end from behind the end
      gives nothing locally and fails in the stores. */
  lemma {:induction false} OutsideFetch<O>(service: Service, f: seq<byte>, e: IOEntry<O>)
    requires !ValidRange(f, e)
    ensures e.size == 0 || service.S3? ==> Fetch(service, f, e) == None
    ensures service.Local? && e.size > 0 ==> Fetch(service, f, e) == None
    ensures service.Local? && e.size < 0 ==> Fetch(service, f, e) == Some([])
    ensures service.Memory? && e.size > 0 && (e.size > |f| || e.offset + e.size > |f| + |service.spare|) ==>
      Fetch(service, f, e) == None
    ensures service.Memory? && e.size < 0 && e.offset > |f| ==> Fetch(service, f, e) == None
  {
    assert f[|f|..] == [];
  }

  /** Buffers longer than the range: a local read fails, the others keep what is behind the range. */
  lemma {:induction false} LongFetch<O>(service: Service, f: seq<byte>, e: IOEntry<O>)
    requires ValidRange(f, e) && e.size > 0 && |e.data| > e.size
    ensures service.Local? ==> Fetch(service, f, e) == None
    ensures !service.Local? ==> Fetch(service, f, e) == Some(Slice(f, e) + e.data[e.size..])
  {
    if service.Memory? {
      assert (f + service.spare)[e.offset..e.offset + e.size] == Slice(f, e);
    }
  }

  /** Whether the entry can be read at all then depends on building the object alone, and the bytes and
      the object do not depend on the service. */
  ghost predicate ReadsSlice<O>(f: seq<byte>, path: string, make: Maker<O>, e: IOEntry<O>, r: Option<IOEntry<O>>) {
    ValidRange(f, e) &&
    match make(KeyOf(path, e), Slice(f, e))
    case NotMade => if e.wants then r == None else r.Some? && r.value.data == Slice(f, e)
    case Made(obj, size) =>
      && r.Some? && r.value.data == Slice(f, e)
      && (e.wants ==> r.value.obj == Some(obj) && r.value.objectSize == size)
  }

  lemma {:induction false} ReadOneSlice<O>(service: Service, f: seq<byte>, path: string, make: Maker<O>, e: IOEntry<O>)
    requires ValidRange(f, e) && |e.data| <= |Slice(f, e)| && !e.ignore
    ensures ReadsSlice(f, path, make, e, ReadOne(service, Some(f), path, make, e))
  {
    FetchSlice(service, f, e);
  }
}
