/** The read paths of `pkg/fileservice/local_fs.go`, `s3_fs.go` and `memory_fs.go`, for entries whose bytes
    go to the Data field. */
module FileReads {
  import opened Wrappers
  import opened Bytes
  import opened FileEntries
  import opened ChecksumLayout
  import ChecksumFile

  // ---- Files of checksummed blocks ----

  /** A file whose blocks are all undamaged, at a position inside it. */
  ghost predicate Sound(file: ChecksumFile.File)
    reads file, file.underlying
  {
    file.Valid() && file.view.Intact() && file.InRange()
  }

  /** How many bytes there are to read to notice the end. */
  ghost function ToEnd(v: View, at: nat): nat
    requires at <= |v.content|
  {
    |v.content| - at + 1
  }

  /** No block that the entry touches is damaged. */
  ghost predicate Undamaged<O>(v: View, e: IOEntry<O>) {
    var at := Min(e.offset, |v.content|);
    if e.size < 0 then v.TouchedGood(at, ToEnd(v, at)) else v.TouchedGood(at, e.size)
  }

  lemma {:induction false} TouchedJoin(v: View, at: nat, n: nat, len: nat)
    requires v.size > 0 && v.TouchedGood(at, n) && v.TouchedGood(at + n, len) && len > 0
    ensures v.TouchedGood(at, n + len)
  {
    forall k: nat | k < |v.sums| && Touched(v.size, at, n + len, k)
      ensures v.GoodBlock(k)
    {
      assert Touched(v.size, at, n, k) || Touched(v.size, at + n, len, k);
    }
  }

  lemma {:induction false} TouchedPart(v: View, at: nat, n: nat, len: nat)
    requires v.Covered() && at + n <= |v.content| && v.TouchedGood(at, ToEnd(v, at))
    ensures v.TouchedGood(at + n, len)
  {
    forall k: nat | k < |v.sums| && Touched(v.size, at + n, len, k)
      ensures v.GoodBlock(k)
    {
      Inside(v.size, |v.sums|, |v.content|, k);
      assert Touched(v.size, at, ToEnd(v, at), k);
    }
  }

  lemma {:induction false} TouchedAll(v: View, at: nat, len: nat)
    requires v.Covered() && at <= |v.content| <= at + len && len > 0 && v.TouchedGood(at, len)
    ensures v.TouchedGood(at, ToEnd(v, at))
  {
    forall k: nat | k < |v.sums| && Touched(v.size, at, ToEnd(v, at), k)
      ensures v.GoodBlock(k)
    {
      Inside(v.size, |v.sums|, |v.content|, k);
      assert Touched(v.size, at, len, k);
    }
  }

  /** Reads to the end of the file, with buffers of any positive lengths, unless a block is damaged. */
  method ReadRest(file: ChecksumFile.File, lengths: nat -> nat) returns (r: Option<seq<byte>>)
    requires file.Valid() && file.InRange() && forall k :: lengths(k) > 0
    modifies file`contentOffset
    ensures file.Valid() && file.InRange()
    ensures var at: nat := old(file.contentOffset);
      r == if file.view.TouchedGood(at, ToEnd(file.view, at)) then Some(file.view.content[at..]) else None
  {
    var out: seq<byte> := [];
    var eof, calls := false, 0;
    ghost var v, start: nat := file.view, file.contentOffset;
    while !eof
      invariant file.Valid() && file.InRange() && file.view == v
      invariant file.contentOffset == start + |out| && out == v.content[start..file.contentOffset]
      invariant v.TouchedGood(start, |out|)
      invariant eof ==> file.contentOffset == |v.content| && v.TouchedGood(start, ToEnd(v, start))
      decreases !eof, |v.content| - file.contentOffset
    {
      var len := lengths(calls);
      ghost var at: nat := |out|;
      var more, err := file.Read(len);
      if err == ChecksumFile.ChecksumNotMatch {
        if v.TouchedGood(start, ToEnd(v, start)) {
          TouchedPart(v, start, at, len);
        }
        return None;
      }
      TouchedJoin(v, start, at, len);
      out, eof, calls := out + more, err == ChecksumFile.EOF, calls + 1;
      if start + at + len >= |v.content| {
        TouchedAll(v, start, at + len);
      }
      if start + |out| < |v.content| {
        assert at + len == |out|;
      } else {
        TouchedPart(v, start, 0, |out|);
      }
    }
    assert out == v.content[start..];
    r := Some(out);
  }

  /** Reads until `want` bytes are there, through a reader limited to `limit` bytes; fewer are an error. */
  method ReadFull(file: ChecksumFile.File, limit: nat, want: nat) returns (r: Option<seq<byte>>)
    requires file.Valid() && file.InRange() && 0 < limit <= want
    modifies file`contentOffset
    ensures file.Valid() && file.InRange()
    ensures var rest := file.view.content[old(file.contentOffset)..];
      r == if limit == want && want <= |rest| && file.view.TouchedGood(old(file.contentOffset), want)
           then Some(rest[..want]) else None
  {
    var out: seq<byte> := [];
    var eof := false;
    ghost var v, start: nat := file.view, file.contentOffset;
    while |out| < want && !eof
      invariant file.Valid() && file.InRange() && file.view == v
      invariant file.contentOffset == start + |out| && out == v.content[start..file.contentOffset]
      invariant |out| <= limit
      invariant (out != [] ==> |out| == Min(limit, |v.content| - start) && v.TouchedGood(start, limit))
      invariant eof ==> |out| == limit || file.contentOffset == |v.content|
      decreases !eof, want - |out|
    {
      if |out| == limit {
        eof := true;
      } else {
        var more, err := file.Read(Min(want, limit) - |out|);
        if err == ChecksumFile.ChecksumNotMatch {
          return None;
        }
        out, eof := out + more, err == ChecksumFile.EOF;
      }
    }
    assert |out| == want ==> out == v.content[start..][..want];
    r := if |out| < want then None else Some(out);
  }

  method LocalFetch<O>(raw: ChecksumFile.RawFile, ghost v: View, size: nat, crc: Crc, lengths: nat -> nat,
                       e: IOEntry<O>)
    returns (r: Option<seq<byte>>)
    requires size > 0 && v.size == size && v.crc == crc && Laid(size, raw.bytes, v.sums, v.content)
    requires e.size != 0 && forall k :: lengths(k) > 0
    ensures r == if Undamaged(v, e) then Fetch(Local, v.content, e) else None
  {
    var file := new ChecksumFile.File.Open(raw, size, crc, v.sums, v.content);
    if e.offset > 0 {
      var pos := file.Seek(e.offset, ChecksumFile.SeekStart);
    }
    assert file.contentOffset == Min(e.offset, |v.content|);
    assert e.size > 0 && e.offset + e.size <= |v.content| ==>
      v.content[e.offset..][..e.size] == v.content[e.offset..e.offset + e.size];
    if e.size < 0 {
      r := ReadRest(file, lengths);
    } else {
      r := ReadFull(file, e.size, if |e.data| < e.size then e.size else |e.data|);
    }
  }

  /** Reads every entry in turn; `raw` is null when there is no such file. A damaged block that some entry
      touches makes the read fail, and whatever an entry gets are bytes of the content. */
  method LocalRead<O>(raw: ChecksumFile.RawFile?, ghost v: View, size: nat, crc: Crc, lengths: nat -> nat,
                      path: string, make: Maker<O>, es: seq<IOEntry<O>>)
    returns (ok: bool, es': seq<IOEntry<O>>)
    requires raw != null ==> size > 0 && v.size == size && v.crc == crc && Laid(size, raw.bytes, v.sums, v.content)
    requires forall k :: lengths(k) > 0
    ensures var f := if raw == null then None else Some(v.content);
      && (ok <==>
            ReadsOk(Local, f, path, make, es) && forall i :: 0 <= i < |es| && !es[i].ignore ==> Undamaged(v, es[i]))
      && (ok ==> ReadsTo(Local, f, path, make, es, es'))
      && |es'| == |es|
      && (forall i :: 0 <= i < |es| ==> es'[i] == es[i] || ReadOne(Local, f, path, make, es[i]) == Some(es'[i]))
      && (raw == null || v.Intact() ==> Outcome(ok, es') == ReadAll(Local, f, path, make, es))
  {
    es' := es;
    if raw == null {
      return false, es';
    }
    ghost var f := Some(v.content);
    for i := 0 to |es|
      invariant |es'| == |es|
      invariant forall j :: 0 <= j < i ==> ReadOne(Local, f, path, make, es[j]) == Some(es'[j])
      invariant forall j :: 0 <= j < i && !es[j].ignore ==> Undamaged(v, es[j])
      invariant forall j :: i <= j < |es| ==> es'[j] == es[j]
      invariant v.Intact() ==> Outcome(true, es') == ReadFirst(Local, f, path, make, es, i)
    {
      var entry := LocalEntry(raw, v, size, crc, lengths, path, make, es[i]);
      if entry.None? {
        if v.Intact() {
          ReadFirstStops(Local, f, path, make, es, i + 1, |es|);
        }
        return false, es';
      }
      es' := es'[i := entry.value];
    }
    ok := true;
  }

  /** One entry. */
  method LocalEntry<O>(raw: ChecksumFile.RawFile, ghost v: View, size: nat, crc: Crc, lengths: nat -> nat,
                       path: string, make: Maker<O>, e: IOEntry<O>)
    returns (r: Option<IOEntry<O>>)
    requires size > 0 && v.size == size && v.crc == crc && Laid(size, raw.bytes, v.sums, v.content)
    requires forall k :: lengths(k) > 0
    ensures r == if e.ignore || Undamaged(v, e) then ReadOne(Local, Some(v.content), path, make, e) else None
    ensures v.Intact() ==> r == ReadOne(Local, Some(v.content), path, make, e)
  {
    if v.Intact() {
      ChecksumFile.IntactGood(v);
    }
    if e.size == 0 {
      return None;
    }
    if e.ignore {
      return Some(e);
    }
    var data := LocalFetch(raw, v, size, crc, lengths, e);
    if data.None? {
      return None;
    }
    r := SetObject(KeyOf(path, e), make, e.(data := data.value));
  }

  // ---- One object range ----

  /** What a GET with a byte range answers: both ends of a range are inclusive, a range that starts
      behind the end cannot be satisfied, and one that ends there is cut (section 14.1.2 of RFC 9110). */
  function Ranged(f: seq<byte>, first: nat, last: Option<nat>): Option<seq<byte>> {
    if first >= |f| then None
    else if last.None? then Some(f[first..])
    else if last.value < first then None
    else Some(f[first..Min(last.value + 1, |f|)])
  }

  /** The range that spans all entries that are not ignored. */
  method Span<O>(es: seq<IOEntry<O>>) returns (min: nat, max: nat, toEnd: bool)
    ensures forall i :: 0 <= i < |es| && !es[i].ignore ==> Spanned(es[i], min, max, toEnd)
  {
    min, max, toEnd := 0x7fff_ffff_ffff_ffff, 0, false;
    for i := 0 to |es|
      invariant forall j :: 0 <= j < i && !es[j].ignore ==> Spanned(es[j], min, max, toEnd)
    {
      if !es[i].ignore {
        min := Min(min, es[i].offset);
        toEnd := toEnd || es[i].size < 0;
        var size := if es[i].size < 0 then 0 else es[i].size;
        max := if es[i].offset + size > max then es[i].offset + size else max;
      }
    }
  }

  ghost predicate Spanned<O>(e: IOEntry<O>, min: nat, max: nat, toEnd: bool) {
    min <= e.offset && (e.size < 0 ==> toEnd) && e.offset <= max && e.offset + e.size <= max
  }

  /** The bytes of the range, of which the last is left out when the range is bounded. */
  function Content(f: Option<seq<byte>>, min: nat, max: nat, toEnd: bool): Option<seq<byte>>
    requires min <= max || toEnd
  {
    if f.None? then None
    else if toEnd then Ranged(f.value, min, None)
    else
      match Ranged(f.value, min, Some(max))
      case None => None
      case Some(body) => Some(body[..Min(max - min, |body|)])
  }

  /** An entry's bytes out of the bytes of the range. */
  function Carve<O>(content: Option<seq<byte>>, min: nat, e: IOEntry<O>): Option<seq<byte>>
    requires min <= e.offset
  {
    var start := e.offset - min;
    if e.size == 0 || content.None? || start >= |content.value| then None
    else if e.size < 0 then Some(content.value[start..])
    else if start + e.size > |content.value| then None
    else Some(Placed(e.data, content.value[start..start + e.size]))
  }

  lemma {:induction false} SliceSlice(f: seq<byte>, a: nat, b: nat, x: nat, y: nat)
    requires a <= b <= |f| && x <= y <= b - a
    ensures f[a..b][x..y] == f[a + x..a + y]
  {
    var l, r := f[a..b][x..y], f[a + x..a + y];
    assert forall k :: 0 <= k < y - x ==> l[k] == r[k];
  }

  lemma {:induction false} ContentIs(f: seq<byte>, min: nat, max: nat, toEnd: bool)
    requires min <= max && min < |f|
    ensures Content(Some(f), min, max, toEnd) == Some(f[min..if toEnd then |f| else Min(max, |f|)])
  {
    if toEnd {
      assert f[min..] == f[min..|f|];
    } else {
      var hi := Min(max + 1, |f|);
      SliceSlice(f, min, hi, 0, Min(max - min, hi - min));
    }
  }

  /** Carving an entry out of the range that spans all entries is reading it from the file. */
  lemma {:induction false} CarveFetches<O>(f: seq<byte>, min: nat, max: nat, toEnd: bool, e: IOEntry<O>)
    requires Spanned(e, min, max, toEnd)
    ensures Carve(Content(Some(f), min, max, toEnd), min, e) == Fetch(S3, f, e)
  {
    if min < |f| {
      ContentIs(f, min, max, toEnd);
      var hi := if toEnd then |f| else Min(max, |f|);
      if e.size < 0 && e.offset < |f| {
        SliceSlice(f, min, hi, e.offset - min, hi - min);
      } else if e.size > 0 && e.offset + e.size <= hi {
        SliceSlice(f, min, hi, e.offset - min, e.offset - min + e.size);
      }
    }
  }

  method S3Read<O>(f: Option<seq<byte>>, path: string, make: Maker<O>, es: seq<IOEntry<O>>)
    returns (ok: bool, es': seq<IOEntry<O>>)
    ensures Outcome(ok, es') == ReadAll(S3, f, path, make, es)
  {
    var min, max, toEnd := Span(es);
    es' := es;
    for i := 0 to |es|
      invariant Outcome(true, es') == ReadFirst(S3, f, path, make, es, i)
      invariant forall j :: i <= j < |es| ==> es'[j] == es[j]
    {
      if !es[i].ignore {
        if f.Some? {
          CarveFetches(f.value, min, max, toEnd, es[i]);
        }
        var data := Carve(Content(f, min, max, toEnd), min, es[i]);
        var entry := if data.None? then None else SetObject(KeyOf(path, es[i]), make, es[i].(data := data.value));
        if entry.None? {
          ReadFirstStops(S3, f, path, make, es, i + 1, |es|);
          return false, es';
        }
        es' := es'[i := entry.value];
      }
    }
    ok := true;
  }

  // ---- A file in memory ----

  method MemoryRead<O>(f: Option<seq<byte>>, spare: seq<byte>, path: string, make: Maker<O>, es: seq<IOEntry<O>>)
    returns (ok: bool, es': seq<IOEntry<O>>)
    ensures Outcome(ok, es') == ReadAll(Memory(spare), f, path, make, es)
  {
    es' := es;
    if f.None? {
      return false, es';
    }
    for i := 0 to |es|
      invariant Outcome(true, es') == ReadFirst(Memory(spare), f, path, make, es, i)
      invariant forall j :: i <= j < |es| ==> es'[j] == es[j]
    {
      if !es[i].ignore {
        var entry := MemoryEntry(f.value, spare, path, make, es[i]);
        if entry.None? {
          ReadFirstStops(Memory(spare), f, path, make, es, i + 1, |es|);
          return false, es';
        }
        es' := es'[i := entry.value];
      }
    }
    ok := true;
  }

  /** One entry. */
  method MemoryEntry<O>(file: seq<byte>, spare: seq<byte>, path: string, make: Maker<O>, e: IOEntry<O>)
    returns (r: Option<IOEntry<O>>)
    requires !e.ignore
    ensures r == ReadOne(Memory(spare), Some(file), path, make, e)
  {
    var entry := e;
    if entry.size == 0 {
      return None;
    }
    if entry.size < 0 {
      entry := entry.(size := |file| - entry.offset);
    }
    if entry.size > |file| {
      return None;
    }
    // the slice expression fails when it goes beyond the capacity
    if entry.size < 0 || entry.offset + entry.size > |file + spare| {
      return None;
    }
    var data := (file + spare)[entry.offset..entry.offset + entry.size];
    r := SetObject(KeyOf(path, e), make, entry.(data := Placed(entry.data, data)));
  }
}
