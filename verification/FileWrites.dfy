/** The write paths of `pkg/fileservice/local_fs.go`, `s3_fs.go` and `memory_fs.go`, for entries that hold their
    bytes in the Data field, and what is read back afterwards. */
module FileWrites {
  import opened Wrappers
  import opened Bytes
  import opened EntryReader
  import opened ChecksumLayout
  import ChecksumFile
  import FileEntries
  import FileReads

  // ---- Sorting ----

  ghost predicate Sorted(es: seq<Entry>) {
    forall i, j :: 0 <= i < j < |es| ==> es[i].offset <= es[j].offset
  }

  method SortByOffset(es: seq<Entry>) returns (s: seq<Entry>)
    ensures multiset(s) == multiset(es) && Sorted(s)
  {
    s := [];
    for i := 0 to |es|
      invariant multiset(s) == multiset(es[..i]) && Sorted(s)
    {
      assert es[..i + 1] == es[..i] + [es[i]];
      s := Insert(s, es[i]);
    }
    assert es[..|es|] == es;
  }

  method Insert(s: seq<Entry>, e: Entry) returns (r: seq<Entry>)
    requires Sorted(s)
    ensures multiset(r) == multiset(s) + multiset{e} && Sorted(r)
  {
    var k: nat := |s|;
    while k > 0 && s[k - 1].offset > e.offset
      invariant k <= |s| && forall j :: k <= j < |s| ==> s[j].offset > e.offset
    {
      k := k - 1;
    }
    InsertBag(s, k, e);
    InsertSorted(s, k, e);
    r := s[..k] + [e] + s[k..];
  }

  lemma {:induction false} InsertBag(s: seq<Entry>, k: nat, e: Entry)
    requires k <= |s|
    ensures multiset(s[..k] + [e] + s[k..]) == multiset(s) + multiset{e}
  {
    assert s == s[..k] + s[k..];
  }

  lemma {:induction false} InsertSorted(s: seq<Entry>, k: nat, e: Entry)
    requires k <= |s| && Sorted(s)
    requires k > 0 ==> s[k - 1].offset <= e.offset
    requires forall j :: k <= j < |s| ==> s[j].offset > e.offset
    ensures Sorted(s[..k] + [e] + s[k..])
  {}

  lemma {:induction false} CutBag(t: seq<Entry>, j: nat)
    requires j < |t|
    ensures multiset(t[..j] + t[j + 1..]) == multiset(t) - multiset{t[j]}
  {
    assert t == t[..j] + [t[j]] + t[j + 1..];
  }

  lemma {:induction false} TailBag(t: seq<Entry>)
    requires t != []
    ensures multiset(t[1..]) == multiset(t) - multiset{t[0]}
  {
    assert t == [t[0]] + t[1..];
  }

  // ---- Requests without gaps ----

  /** Nonempty entries with data of their sizes, each starting where the one before ends. */
  ghost predicate Tiles(s: seq<Entry>, from: int) {
    s != [] ==>
      && s[0].offset == from && |s[0].data| == s[0].size && s[0].size > 0
      && Tiles(s[1..], from + s[0].size)
  }

  /** In some order the entries tile a file. */
  ghost predicate GapFree(es: seq<Entry>) {
    exists s :: multiset(s) == multiset(es) && Tiles(s, 0)
  }

  ghost function Total(es: seq<Entry>): int {
    if es == [] then 0 else es[0].size + Total(es[1..])
  }

  /** The file holds every entry at its offset, and nothing else. */
  ghost predicate Written(es: seq<Entry>, file: seq<byte>) {
    (forall e :: e in es ==> Stands(file, e)) && |file| == Total(es)
  }

  lemma {:induction false} TilesAfter(s: seq<Entry>, from: int, i: nat)
    requires Tiles(s, from) && i < |s|
    ensures s[i].offset >= from && (i > 0 ==> s[i].offset > from)
    decreases |s|
  {
    if i > 0 {
      TilesAfter(s[1..], from + s[0].size, i - 1);
    }
  }

  /** Sorting a request without gaps puts it in the order in which it tiles the file. */
  lemma {:induction false} SortedTiles(s: seq<Entry>, t: seq<Entry>, from: int)
    requires Tiles(s, from) && Sorted(t) && multiset(s) == multiset(t)
    ensures s == t
    decreases |s|
  {
    assert |s| == |t| by {
      assert |multiset(s)| == |multiset(t)|;
    }
    if s != [] {
      FirstSame(s, t, from);
      TailBag(s);
      TailBag(t);
      SortedTiles(s[1..], t[1..], from + s[0].size);
    }
  }

  lemma {:induction false} FirstSame(s: seq<Entry>, t: seq<Entry>, from: int)
    requires s != [] && t != [] && Tiles(s, from) && Sorted(t) && multiset(s) == multiset(t)
    ensures s[0] == t[0]
  {
    assert s[0] in multiset(t) && t[0] in multiset(s);
    var i :| 0 <= i < |s| && s[i] == t[0];
    var j :| 0 <= j < |t| && t[j] == s[0];
    TilesAfter(s, from, i);
  }

  lemma {:induction false} TilesSpread(s: seq<Entry>, from: int)
    requires Tiles(s, from)
    ensures Spread(s, from) && Ending(s) == EOF
    ensures |Image(s, from)| == Total(s) && forall k :: 0 <= k < |Image(s, from)| ==> Image(s, from)[k].Byte?
    ensures s != [] ==> s[|s| - 1].offset + s[|s| - 1].size == from + Total(s)
    decreases |s|
  {
    if s != [] {
      TilesSpread(s[1..], from + s[0].size);
      assert |s| > 1 ==> s[|s| - 1] == s[1..][|s[1..]| - 1];
    }
  }

  lemma {:induction false} TotalSame(s: seq<Entry>, t: seq<Entry>)
    requires multiset(s) == multiset(t)
    ensures Total(s) == Total(t)
    decreases |s|
  {
    if s == [] {
      assert |multiset(t)| == 0;
    } else {
      assert s[0] in multiset(t);
      var j :| 0 <= j < |t| && t[j] == s[0];
      var rest := t[..j] + t[j + 1..];
      TailBag(s);
      CutBag(t, j);
      TotalSame(s[1..], rest);
      TotalAt(t, j);
    }
  }

  lemma {:induction false} TotalAt(t: seq<Entry>, j: nat)
    requires j < |t|
    ensures Total(t) == t[j].size + Total(t[..j] + t[j + 1..])
    decreases j
  {
    var rest := t[..j] + t[j + 1..];
    if j == 0 {
      assert rest == t[1..];
    } else {
      TotalAt(t[1..], j - 1);
      assert rest[1..] == t[1..][..j - 1] + t[1..][j..];
    }
  }

  /** What the reader shows of a request without gaps is the file that holds its entries. */
  lemma {:induction false} ShownIsWritten(es: seq<Entry>, t: seq<Entry>, file: seq<byte>)
    requires GapFree(es) && multiset(t) == multiset(es) && Sorted(t) && Shows(file, Image(t, 0))
    ensures Tiles(t, 0) && Written(es, file)
  {
    var s: seq<Entry> :| multiset(s) == multiset(es) && Tiles(s, 0);
    SortedTiles(s, t, 0);
    TilesSpread(t, 0);
    TotalSame(t, es);
    forall e | e in es
      ensures Stands(file, e)
    {
      assert e in multiset(t);
      var i :| 0 <= i < |t| && t[i] == e;
      StandsShown(file, t, i);
    }
  }

  /** At most one file holds the entries of a request without gaps. */
  lemma {:induction false} WrittenOnce(es: seq<Entry>, f: seq<byte>, g: seq<byte>)
    requires GapFree(es) && Written(es, f) && Written(es, g)
    ensures f == g
  {
    var s: seq<Entry> :| multiset(s) == multiset(es) && Tiles(s, 0);
    TilesSpread(s, 0);
    TotalSame(s, es);
    forall at | 0 <= at < |f|
      ensures f[at] == g[at]
    {
      var i := ShownIsEntry(s, 0, at);
      assert s[i] in multiset(es);
      SameInside(f, g, s[i], at);
    }
  }

  lemma {:induction false} SameInside(f: seq<byte>, g: seq<byte>, e: Entry, at: nat)
    requires Stands(f, e) && Stands(g, e) && e.offset <= at < e.offset + e.size
    ensures f[at] == g[at]
  {}

  // ---- Writing ----

  const COPY_BUFFER := 32 * 1024

  /** What a stream becomes when it is copied through one buffer, which starts with zeros, is filled
      completely before every write but the last, and keeps its bytes where the stream has a hole. */
  ghost function CopiedByte(image: seq<Maybe>, p: nat): byte
    requires p < |image|
  {
    if image[p].Byte? then image[p].value
    else if p < COPY_BUFFER then 0
    else CopiedByte(image, p - COPY_BUFFER)
  }

  ghost function Copied(image: seq<Maybe>): (out: seq<byte>)
    ensures Shows(out, image)
  {
    seq(|image|, p requires 0 <= p < |image| => CopiedByte(image, p))
  }

  /** The buffer when n bytes have gone through it. */
  ghost predicate Buffered(buf: seq<byte>, image: seq<Maybe>, n: nat)
    requires n <= |image|
  {
    && (n == 0 ==> buf == seq(COPY_BUFFER, _ => 0))
    && (n > 0 ==> n >= COPY_BUFFER && buf == Copied(image)[n - COPY_BUFFER..n])
  }

  /** Copies the stream of a reader to the end of an empty file, through one buffer that is used again
      and again. */
  method CopyAll(file: ChecksumFile.File, r: Reader) returns (n: nat, err: Err)
    requires FileReads.Sound(file) && file.view.content == [] && file.contentOffset == 0
    modifies file.underlying, file`view, file`contentOffset, r
    ensures FileReads.Sound(file) && n == |file.view.content|
    ensures file.view.content == Copied(old(r.Stream()))
    ensures err == if old(Ending(r.entries)) == EOF then NoError else old(Ending(r.entries))
  {
    ghost var image, ending := r.Stream(), Ending(r.entries);
    var buf := new byte[COPY_BUFFER](_ => 0);
    n, err := 0, NoError;
    while err == NoError
      invariant FileReads.Sound(file) && n == |file.view.content| == file.contentOffset <= |image|
      invariant file.view.content == Copied(image)[..n]
      invariant buf.Length == COPY_BUFFER && (n < |image| ==> Buffered(buf[..], image, n))
      invariant r.Stream() == image[n..] && Ending(r.entries) == ending
      invariant err != NoError ==> n == |image| && err == ending
      decreases err == NoError, |image| - n
    {
      var nr;
      nr, err := CopySome(file, r, buf, image, n);
      n := n + nr;
    }
    assert Copied(image)[..|image|] == Copied(image);
    if err == EOF {
      err := NoError;
    }
  }

  /** One round: the buffer is filled as far as the stream goes, and written. */
  method CopySome(file: ChecksumFile.File, r: Reader, buf: array<byte>, ghost image: seq<Maybe>, ghost n: nat)
    returns (nr: nat, err: Err)
    requires FileReads.Sound(file) && n == |file.view.content| == file.contentOffset <= |image|
    requires file.view.content == Copied(image)[..n] && r.Stream() == image[n..]
    requires buf.Length == COPY_BUFFER && (n < |image| ==> Buffered(buf[..], image, n))
    modifies file.underlying, file`view, file`contentOffset, r, buf
    ensures FileReads.Sound(file) && n + nr == |file.view.content| == file.contentOffset <= |image|
    ensures file.view.content == Copied(image)[..n + nr] && r.Stream() == image[n + nr..]
    ensures n + nr < |image| ==> Buffered(buf[..], image, n + nr)
    ensures Ending(r.entries) == old(Ending(r.entries))
    ensures err != NoError ==> n + nr == |image| && err == Ending(r.entries)
    ensures err == NoError ==> nr > 0
  {
    ghost var before := buf[..];
    nr, err := r.Read(buf, 0, buf.Length);
    CopiedOn(before, image, n, nr);
    if nr > 0 {
      WriteNext(file, buf[..nr]);
    }
  }

  lemma {:induction false} CopiedOn(before: seq<byte>, image: seq<Maybe>, n: nat, nr: nat)
    requires n <= |image| && |before| == COPY_BUFFER && nr == Min(COPY_BUFFER, |image| - n)
    requires n < |image| ==> Buffered(before, image, n)
    ensures image[n..][nr..] == image[n + nr..]
    ensures var after := Overlaid(before, 0, image[n..][..nr]);
      && Copied(image)[..n] + after[..nr] == Copied(image)[..n + nr]
      && (n + nr < |image| ==> Buffered(after, image, n + nr))
  {
    var after := Overlaid(before, 0, image[n..][..nr]);
    assert |after| == COPY_BUFFER;
    forall k | 0 <= k < nr
      ensures after[k] == Copied(image)[n + k]
    {
      CopiedAt(before, image, n, nr, k);
    }
    assert after[..nr] == Copied(image)[n..n + nr];
    assert nr == COPY_BUFFER ==> after[..nr] == after;
  }

  lemma {:induction false} CopiedAt(before: seq<byte>, image: seq<Maybe>, n: nat, nr: nat, k: nat)
    requires n + nr <= |image| && k < nr <= |before| == COPY_BUFFER && Buffered(before, image, n)
    ensures Overlaid(before, 0, image[n..][..nr])[k] == Copied(image)[n + k]
  {
    assert image[n..][..nr][k] == image[n + k];
    assert n > 0 ==> before[k] == Copied(image)[n - COPY_BUFFER + k];
  }

  /** No entry has a byte other than zero that lies one buffer in front of a hole. */
  ghost predicate NoEcho(image: seq<Maybe>) {
    forall p :: 0 <= p && p + COPY_BUFFER < |image| && image[p].Byte? && image[p].value != 0 ==>
      image[p + COPY_BUFFER].Byte?
  }

  /** Exactly then a copy has zeros in all holes. */
  lemma {:induction false} CopiedZeroIff(image: seq<Maybe>)
    ensures Copied(image) == ZeroFilled(image) <==> NoEcho(image)
  {
    if NoEcho(image) {
      forall p | 0 <= p < |image|
        ensures Copied(image)[p] == ZeroFilled(image)[p]
      {
        if image[p] == Hole {
          NoEchoZero(image, p);
        }
      }
    } else {
      var p :| 0 <= p && p + COPY_BUFFER < |image| && image[p].Byte? && image[p].value != 0
        && image[p + COPY_BUFFER] == Hole;
      assert Copied(image)[p + COPY_BUFFER] == image[p].value;
      assert ZeroFilled(image)[p + COPY_BUFFER] == 0;
    }
  }

  lemma {:induction false} NoEchoZero(image: seq<Maybe>, p: nat)
    requires NoEcho(image) && p < |image| && image[p] == Hole
    ensures CopiedByte(image, p) == 0
  {
    if p >= COPY_BUFFER {
      var q := p - COPY_BUFFER;
      assert image[q + COPY_BUFFER] == Hole;
      if image[q] == Hole {
        NoEchoZero(image, q);
      }
    }
  }

  /** The condition on the entries themselves: whatever lies one buffer behind a byte other than zero,
      and inside the file, belongs to an entry. */
  ghost predicate EchoesCovered(t: seq<Entry>) {
    forall i, q :: 0 <= i < |t| && 0 <= q < |t[i].data| && t[i].data[q] != 0 ==>
      t[i].offset + q + COPY_BUFFER < EndOf(t) ==> InSome(t, t[i].offset + q + COPY_BUFFER)
  }

  ghost predicate InSome(t: seq<Entry>, at: int) {
    exists j :: 0 <= j < |t| && t[j].offset <= at < t[j].offset + t[j].size
  }

  lemma {:induction false} ByteInEntry(t: seq<Entry>, i: nat, q: nat)
    requires Spread(t, 0) && i < |t| && q < |t[i].data|
    ensures 0 <= t[i].offset + q < |Image(t, 0)| && Image(t, 0)[t[i].offset + q] == Byte(t[i].data[q])
  {
    EntryShown(t, 0, i);
    assert Image(t, 0)[t[i].offset..][q] == Solid(t[i].data)[q];
  }

  lemma {:induction false} ByteIffInSome(t: seq<Entry>, at: nat)
    requires Spread(t, 0) && at < |Image(t, 0)|
    ensures Image(t, 0)[at].Byte? <==> InSome(t, at)
  {
    if Image(t, 0)[at].Byte? {
      var i := ShownIsEntry(t, 0, at);
    }
    if InSome(t, at) {
      var j :| 0 <= j < |t| && t[j].offset <= at < t[j].offset + t[j].size;
      EntryShown(t, 0, j);
      ByteInEntry(t, j, at - t[j].offset);
    }
  }

  lemma {:induction false} EchoesOne(t: seq<Entry>, i: nat, q: nat)
    requires Spread(t, 0) && i < |t| && q < |t[i].data| && t[i].data[q] != 0
    requires NoEcho(Image(t, 0)) && t[i].offset + q + COPY_BUFFER < EndOf(t)
    ensures InSome(t, t[i].offset + q + COPY_BUFFER)
  {
    ByteInEntry(t, i, q);
    SpreadLength(t, 0);
    ByteIffInSome(t, t[i].offset + q + COPY_BUFFER);
  }

  lemma {:induction false} NoEchoOne(t: seq<Entry>, p: nat)
    requires Spread(t, 0) && EchoesCovered(t) && p + COPY_BUFFER < |Image(t, 0)|
    requires Image(t, 0)[p].Byte? && Image(t, 0)[p].value != 0
    ensures Image(t, 0)[p + COPY_BUFFER].Byte?
  {
    var i := ShownIsEntry(t, 0, p);
    EntryShown(t, 0, i);
    ByteInEntry(t, i, p - t[i].offset);
    assert t[i].data[p - t[i].offset] != 0;
    SpreadLength(t, 0);
    ByteIffInSome(t, p + COPY_BUFFER);
  }

  /** Sorted entries that do not overlap: a local file has zeros in its gaps, as the stores always have,
      if and only if the bytes one buffer behind those that are not zero belong to entries too. */
  lemma {:induction false} GapsZeroIff(t: seq<Entry>)
    requires Spread(t, 0)
    ensures Copied(Image(t, 0)) == ZeroFilled(Image(t, 0)) <==> EchoesCovered(t)
  {
    CopiedZeroIff(Image(t, 0));
    if NoEcho(Image(t, 0)) {
      forall i, q | 0 <= i < |t| && 0 <= q < |t[i].data| && t[i].data[q] != 0
        && t[i].offset + q + COPY_BUFFER < EndOf(t)
        ensures InSome(t, t[i].offset + q + COPY_BUFFER)
      {
        EchoesOne(t, i, q);
      }
    }
    if EchoesCovered(t) {
      forall p | 0 <= p && p + COPY_BUFFER < |Image(t, 0)| && Image(t, 0)[p].Byte? && Image(t, 0)[p].value != 0
        ensures Image(t, 0)[p + COPY_BUFFER].Byte?
      {
        NoEchoOne(t, p);
      }
    }
  }

  /** One byte at the start, a gap, and one byte behind it: the gap repeats the first byte. */
  lemma {:induction false} GapRepeats(a: byte, b: byte)
    requires a != 0
    ensures var t := [Entry(0, 1, [a]), Entry(COPY_BUFFER + 1, 1, [b])];
      && Sorted(t) && Spread(t, 0) && Writable(t)
      && |Copied(Image(t, 0))| == COPY_BUFFER + 2
      && Copied(Image(t, 0))[COPY_BUFFER] == a && ZeroFilled(Image(t, 0))[COPY_BUFFER] == 0
  {
    var t := [Entry(0, 1, [a]), Entry(COPY_BUFFER + 1, 1, [b])];
    assert t[1..] == [t[1]] && t[1..][1..] == [];
    assert Spread(t[1..][1..], COPY_BUFFER + 2) && Spread(t[1..], 1);
    SpreadLength(t, 0);
    var image := Image(t, 0);
    ByteInEntry(t, 0, 0);
    ByteIffInSome(t, COPY_BUFFER);
    assert image[COPY_BUFFER] == Hole;
  }

  /** A write at the end of an undamaged file. */
  method WriteNext(file: ChecksumFile.File, buf: seq<byte>)
    requires FileReads.Sound(file) && file.contentOffset == |file.view.content|
    modifies file.underlying, file`view, file`contentOffset
    ensures FileReads.Sound(file) && file.contentOffset == |file.view.content|
    ensures file.view.content == old(file.view.content) + buf
  {
    ChecksumFile.IntactGood(file.view);
    var n, err := file.Write(buf);
    ChecksumFile.GoodIntact(file.view);
  }

  ghost function EndOf(t: seq<Entry>): int {
    if t == [] then 0 else t[|t| - 1].offset + t[|t| - 1].size
  }

  /** A request is written if the stream of its sorted entries ends well, where the last entry ends. */
  ghost predicate Writable(t: seq<Entry>) {
    Ending(t) == EOF && |Image(t, 0)| == EndOf(t)
  }

  /** Sorted entries that do not overlap are written; entries with data of another size are not. */
  lemma {:induction false} WhatIsWritable(t: seq<Entry>)
    ensures Spread(t, 0) ==> Writable(t)
    ensures Writable(t) ==> forall i :: 0 <= i < |t| ==> |t[i].data| == t[i].size
  {
    EndingIff(t);
    if Spread(t, 0) {
      SpreadLength(t, 0);
    }
  }

  method SizeOf(t: seq<Entry>) returns (size: int)
    ensures size == EndOf(t)
  {
    size := 0;
    if |t| > 0 {
      var last := t[|t| - 1];
      size := last.offset + last.size;
    }
  }

  method LocalWrite(es: seq<Entry>, size: nat, crc: Crc)
    returns (raw: ChecksumFile.RawFile, err: Err, ghost view: View, ghost t: seq<Entry>)
    requires size > 0
    ensures fresh(raw) && multiset(t) == multiset(es) && Sorted(t)
    ensures err == NoError <==> Writable(t)
    ensures err == NoError ==> view.size == size && view.crc == crc && view.Intact()
    ensures err == NoError ==> Laid(size, raw.bytes, view.sums, view.content)
    ensures err == NoError ==> view.content == Copied(Image(t, 0))
    ensures GapFree(es) ==> err == NoError && Written(es, view.content)
  {
    var sorted := SortByOffset(es);
    t := sorted;
    var total := SizeOf(sorted);
    raw := new ChecksumFile.RawFile();
    var file := new ChecksumFile.File(raw, size, crc);
    var r := new Reader(sorted);
    var n;
    n, err := CopyAll(file, r);
    view := file.view;
    if err == NoError && n != total {
      err := SizeNotMatch;
    }
    GapFreeWritable(es, t, view.content);
  }

  lemma {:induction false} GapFreeWritable(es: seq<Entry>, t: seq<Entry>, file: seq<byte>)
    requires multiset(t) == multiset(es) && Sorted(t) && Shows(file, Image(t, 0))
    ensures GapFree(es) ==> Writable(t) && Written(es, file)
  {
    if GapFree(es) {
      ShownIsWritten(es, t, file);
      TilesSpread(t, 0);
    }
  }

  /** The object is stored when its length is the announced one. */
  method S3Write(es: seq<Entry>, lengths: nat -> nat) returns (file: seq<byte>, err: Err, ghost t: seq<Entry>)
    requires forall k :: lengths(k) > 0
    ensures multiset(t) == multiset(es) && Sorted(t)
    ensures err == NoError <==> Writable(t)
    ensures file == ZeroFilled(Image(t, 0))
    ensures GapFree(es) ==> err == NoError && Written(es, file)
  {
    var sorted := SortByOffset(es);
    t := sorted;
    var total := SizeOf(sorted);
    var r := new Reader(sorted);
    file, err := ReadToEnd(r, lengths);
    GapFreeWritable(es, t, file);
    if err == EOF {
      err := if |file| == total then NoError else SizeNotMatch;
    }
  }

  method MemoryWrite(es: seq<Entry>, lengths: nat -> nat) returns (file: seq<byte>, err: Err, ghost t: seq<Entry>)
    requires forall k :: lengths(k) > 0
    ensures es != [] ==> multiset(t) == multiset(es) && Sorted(t)
    ensures es == [] ==> t == [Entry(0, 0, [])] && err == NoError && file == []
    ensures err == if Ending(t) == EOF then NoError else Ending(t)
    ensures file == ZeroFilled(Image(t, 0))
    ensures GapFree(es) ==> err == NoError && Written(es, file)
  {
    var sorted;
    if es == [] {
      sorted := [Entry(0, 0, [])];
      assert sorted[1..] == [] && Solid([]) == [];
      assert Image(sorted, 0) == [];
    } else {
      sorted := SortByOffset(es);
    }
    t := sorted;
    var r := new Reader(sorted);
    file, err := ReadToEnd(r, lengths);
    if es != [] {
      GapFreeWritable(es, t, file);
    }
    if err == EOF {
      err := NoError;
    }
  }

  // ---- Writing and reading back ----

  /** A range inside the file, with a buffer no longer than the range. */
  ghost predicate Readable<O>(f: seq<byte>, e: FileEntries.IOEntry<O>) {
    FileEntries.ValidRange(f, e) && |e.data| <= |FileEntries.Slice(f, e)| && !e.ignore
  }

  ghost predicate AllReadable<O>(f: seq<byte>, reqs: seq<FileEntries.IOEntry<O>>) {
    forall i :: 0 <= i < |reqs| ==> Readable(f, reqs[i])
  }

  /** Every object that is wanted can be built. */
  ghost predicate AllMade<O>(f: seq<byte>, path: string, make: FileEntries.Maker<O>, reqs: seq<FileEntries.IOEntry<O>>)
    requires AllReadable(f, reqs)
  {
    forall i :: 0 <= i < |reqs| && reqs[i].wants ==>
      make(FileEntries.KeyOf(path, reqs[i]), FileEntries.Slice(f, reqs[i])).Made?
  }

  /** Every entry got the bytes of its range, and the object built from them. */
  ghost predicate Delivered<O>(f: seq<byte>, path: string, make: FileEntries.Maker<O>,
                               reqs: seq<FileEntries.IOEntry<O>>, got: seq<FileEntries.IOEntry<O>>) {
    |got| == |reqs| && forall i :: 0 <= i < |reqs| ==>
      FileEntries.ReadsSlice(f, path, make, reqs[i], Some(got[i]))
  }

  lemma {:induction false} AllSlices<O>(service: FileEntries.Service, f: seq<byte>, path: string,
                                        make: FileEntries.Maker<O>,
                     reqs: seq<FileEntries.IOEntry<O>>, ok: bool, got: seq<FileEntries.IOEntry<O>>)
    requires AllReadable(f, reqs)
    requires FileEntries.Outcome(ok, got) == FileEntries.ReadAll(service, Some(f), path, make, reqs)
    ensures ok <==> AllMade(f, path, make, reqs)
    ensures ok ==> Delivered(f, path, make, reqs, got)
  {
    FileEntries.ReadAllLaw(service, Some(f), path, make, reqs);
    forall i | 0 <= i < |reqs|
      ensures FileEntries.ReadsSlice(f, path, make, reqs[i],
        FileEntries.ReadOne(service, Some(f), path, make, reqs[i]))
    {
      FileEntries.ReadOneSlice(service, f, path, make, reqs[i]);
    }
  }

  /** A request without gaps, written through the blocks with checksums and read back through them. */
  method LocalRoundTrip<O>(es: seq<Entry>, ghost file: seq<byte>, size: nat, crc: Crc, lengths: nat -> nat,
                           path: string, make: FileEntries.Maker<O>, reqs: seq<FileEntries.IOEntry<O>>)
    returns (ok: bool, got: seq<FileEntries.IOEntry<O>>)
    requires size > 0 && forall k :: lengths(k) > 0
    requires GapFree(es) && Written(es, file) && AllReadable(file, reqs)
    ensures ok <==> AllMade(file, path, make, reqs)
    ensures ok ==> Delivered(file, path, make, reqs, got)
  {
    var raw, err, view, t := LocalWrite(es, size, crc);
    WrittenOnce(es, file, view.content);
    ok, got := FileReads.LocalRead(raw, view, size, crc, lengths, path, make, reqs);
    AllSlices(FileEntries.Local, file, path, make, reqs, ok, got);
  }

  /** The same request stored as one object and read back with one range. */
  method S3RoundTrip<O>(es: seq<Entry>, ghost file: seq<byte>, lengths: nat -> nat,
                        path: string, make: FileEntries.Maker<O>, reqs: seq<FileEntries.IOEntry<O>>)
    returns (ok: bool, got: seq<FileEntries.IOEntry<O>>)
    requires forall k :: lengths(k) > 0
    requires GapFree(es) && Written(es, file) && AllReadable(file, reqs)
    ensures ok <==> AllMade(file, path, make, reqs)
    ensures ok ==> Delivered(file, path, make, reqs, got)
  {
    var body, err, t := S3Write(es, lengths);
    WrittenOnce(es, file, body);
    ok, got := FileReads.S3Read(Some(body), path, make, reqs);
    AllSlices(FileEntries.S3, file, path, make, reqs, ok, got);
  }

  /** The same request kept in memory. */
  method MemoryRoundTrip<O>(es: seq<Entry>, ghost file: seq<byte>, lengths: nat -> nat, spare: seq<byte>,
                            path: string, make: FileEntries.Maker<O>, reqs: seq<FileEntries.IOEntry<O>>)
    returns (ok: bool, got: seq<FileEntries.IOEntry<O>>)
    requires forall k :: lengths(k) > 0
    requires GapFree(es) && Written(es, file) && AllReadable(file, reqs)
    ensures ok <==> AllMade(file, path, make, reqs)
    ensures ok ==> Delivered(file, path, make, reqs, got)
  {
    var data, err, t := MemoryWrite(es, lengths);
    WrittenOnce(es, file, data);
    ok, got := FileReads.MemoryRead(Some(data), spare, path, make, reqs);
    AllSlices(FileEntries.Memory(spare), file, path, make, reqs, ok, got);
  }
}
