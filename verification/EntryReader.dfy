/** The reader over scattered entries of `pkg/fileservice/io_entry.go`. */
module EntryReader {
  import opened Bytes

  datatype Entry = Entry(offset: int, size: int, data: seq<byte>)

  datatype Maybe = Hole | Byte(value: byte)

  /** The stream runs out, or stops at an entry whose data are not of its size. */
  datatype Err = NoError | EOF | SizeNotMatch

  function Holes(n: nat): seq<Maybe> {
    seq(n, _ => Hole)
  }

  function Solid(data: seq<byte>): seq<Maybe> {
    seq(|data|, k requires 0 <= k < |data| => Byte(data[k]))
  }

  /** The stream the entries make when the reader stands at an offset: their data, with holes where an
      entry starts beyond the end of those before it. */
  function Image(es: seq<Entry>, offset: int): seq<Maybe>
    decreases |es|, es != [] && offset < es[0].offset
  {
    if es == [] then []
    else if offset < es[0].offset then Holes(es[0].offset - offset) + Image(es, es[0].offset)
    else if |es[0].data| != es[0].size then []
    else Solid(es[0].data) + Image(es[1..], offset + es[0].size)
  }

  /** How the stream ends. */
  function Ending(es: seq<Entry>): (err: Err)
    ensures err != NoError
    decreases |es|
  {
    if es == [] then EOF
    else if |es[0].data| != es[0].size then SizeNotMatch
    else Ending(es[1..])
  }

  /** It ends well if and only if every entry has as many bytes as its size says. */
  lemma {:induction false} EndingIff(es: seq<Entry>)
    ensures Ending(es) == EOF <==> forall i :: 0 <= i < |es| ==> |es[i].data| == es[i].size
    ensures Ending(es) == EOF || Ending(es) == SizeNotMatch
    decreases |es|
  {
    if es != [] {
      EndingIff(es[1..]);
      assert forall i :: 1 <= i < |es| ==> es[i] == es[1..][i - 1];
    }
  }

  /** The entries when nb bytes of the first have been read. */
  function Consume(es: seq<Entry>, nb: nat): seq<Entry>
    requires es != [] && nb <= |es[0].data| == es[0].size
  {
    if nb == es[0].size then es[1..]
    else [Entry(es[0].offset + nb, es[0].size - nb, es[0].data[nb..])] + es[1..]
  }

  lemma {:induction false} DropFront(a: seq<Maybe>, b: seq<Maybe>, n: nat)
    requires n <= |a|
    ensures (a + b)[n..] == a[n..] + b && (a + b)[..n] == a[..n]
  {}

  lemma {:induction false} ConsumeImage(es: seq<Entry>, offset: int, nb: nat)
    requires es != [] && nb <= |es[0].data| == es[0].size && es[0].offset <= offset
    ensures nb <= |Image(es, offset)| && Image(es, offset)[..nb] == Solid(es[0].data[..nb])
    ensures Image(Consume(es, nb), offset + nb) == Image(es, offset)[nb..]
    ensures Ending(Consume(es, nb)) == Ending(es)
  {
    var data, more := es[0].data, Image(es[1..], offset + es[0].size);
    DropFront(Solid(data), more, nb);
    assert Solid(data)[..nb] == Solid(data[..nb]) && Solid(data)[nb..] == Solid(data[nb..]);
    if nb == |data| {
      assert Solid(data[nb..]) == [];
    } else {
      assert Consume(es, nb)[1..] == es[1..];
    }
  }

  lemma {:induction false} SkipGap(es: seq<Entry>, offset: int, skip: nat)
    requires es != [] && offset + skip <= es[0].offset
    ensures skip <= |Image(es, offset)| && Image(es, offset)[..skip] == Holes(skip)
    ensures Image(es, offset + skip) == Image(es, offset)[skip..]
  {}

  class Reader {
    var entries: seq<Entry>
    var offset: int

    constructor (entries: seq<Entry>)
      ensures this.entries == entries && offset == 0
    {
      this.entries, offset := entries, 0;
    }

    function Stream(): seq<Maybe>
      reads this
    {
      Image(entries, offset)
    }

    /** Reads into buf[from..to]: the bytes of the stream, leaving the buffer as it is at holes. */
    method Read(buf: array<byte>, from: nat, to: nat) returns (n: nat, err: Err)
      requires from <= to <= buf.Length
      modifies this, buf
      ensures n == Min(to - from, |old(Stream())|)
      ensures Stream() == old(Stream())[n..] && Ending(entries) == old(Ending(entries))
      ensures buf[..] == Overlaid(old(buf[..]), from, old(Stream())[..n])
      ensures n < to - from ==> err == Ending(entries)
      ensures err != NoError ==> Stream() == [] && err == Ending(entries)
    {
      ghost var before, image, ending := buf[..], Stream(), Ending(entries);
      n, err := 0, NoError;
      OverlayNone(before, from, 0);
      var done := false;
      while !done
        invariant n <= |image| && from + n <= to
        invariant Stream() == image[n..] && Ending(entries) == ending
        invariant buf[..] == Overlaid(before, from, image[..n])
        invariant done && from + n < to ==> err == ending
        invariant done && err != NoError ==> Stream() == [] && err == ending
        decreases !done, to - from - n + |entries|
      {
        var nb;
        done, nb, err := Round(buf, from + n, to);
        OverlayOn(before, from, image, n, nb);
        n := n + nb;
      }
    }

    /** One turn of the loop. */
    method Round(buf: array<byte>, from: nat, to: nat) returns (done: bool, n: nat, err: Err)
      requires from <= to <= buf.Length
      modifies this, buf
      ensures n <= |old(Stream())| && from + n <= to
      ensures Stream() == old(Stream())[n..] && Ending(entries) == old(Ending(entries))
      ensures buf[..] == Overlaid(old(buf[..]), from, old(Stream())[..n])
      ensures !done ==> |entries| - n < |old(entries)|
      ensures done && from + n < to ==> err == Ending(entries)
      ensures done && err != NoError ==> Stream() == [] && err == Ending(entries)
    {
      ghost var before, image := buf[..], Stream();
      n, err := 0, NoError;
      if entries == [] {
        OverlayNone(before, from, 0);
        err := EOF;
        return true, n, err;
      }
      n := Skip(to - from);
      OverlayNone(before, from, n);
      assert buf[..] == Overlaid(before, from, image[..n]);
      if from + n == to {
        return true, n, err;
      }
      if |entries[0].data| != entries[0].size {
        err := SizeNotMatch;
        return true, n, err;
      }
      var nb := Copy(buf, from + n, to);
      OverlayOn(before, from, image, n, nb);
      n := n + nb;
      done := false;
    }

    /** Skips the gap in front of the first entry, as far as there is room. */
    method Skip(room: nat) returns (n: nat)
      requires entries != []
      modifies this`offset
      ensures n <= room && n <= |old(Stream())| && old(Stream())[..n] == Holes(n) && Stream() == old(Stream())[n..]
      ensures n < room ==> entries[0].offset <= offset
    {
      if offset < entries[0].offset {
        n := Min(entries[0].offset - offset, room);
        SkipGap(entries, offset, n);
        offset := offset + n;
      } else {
        n := 0;
      }
    }

    /** Copies as much of the first entry as there is room for. */
    method Copy(buf: array<byte>, from: nat, to: nat) returns (n: nat)
      requires from < to <= buf.Length && entries != [] && entries[0].offset <= offset
      requires |entries[0].data| == entries[0].size
      modifies this, buf
      ensures n <= |old(Stream())| && from + n <= to
      ensures Stream() == old(Stream())[n..] && Ending(entries) == old(Ending(entries))
      ensures buf[..] == Overlaid(old(buf[..]), from, old(Stream())[..n])
      ensures |entries| - n < |old(entries)|
    {
      var data := entries[0].data;
      n := Min(|data|, to - from);
      ConsumeImage(entries, offset, n);
      forall k | 0 <= k < n {
        buf[from + k] := data[k];
      }
      entries := Consume(entries, n);
      offset := offset + n;
    }
  }

  lemma {:induction false} OverlayNone(buf: seq<byte>, from: nat, n: nat)
    requires from + n <= |buf|
    ensures Overlaid(buf, from, Holes(n)) == buf
    ensures Holes(0) == []
  {}

  lemma {:induction false} OverlayOn(buf: seq<byte>, from: nat, image: seq<Maybe>, n: nat, nb: nat)
    requires n + nb <= |image| && from + n + nb <= |buf|
    ensures Overlaid(Overlaid(buf, from, image[..n]), from + n, image[n..][..nb]) ==
      Overlaid(buf, from, image[..n + nb])
    ensures image[n..][nb..] == image[n + nb..]
  {}

  /** A buffer with a piece of the stream laid over it. */
  ghost function Overlaid(buf: seq<byte>, from: nat, piece: seq<Maybe>): seq<byte>
    requires from + |piece| <= |buf|
  {
    seq(|buf|, k requires 0 <= k < |buf| =>
      if from <= k < from + |piece| && piece[k - from].Byte? then piece[k - from].value else buf[k])
  }

  // ---- Reading to the end ----

  /** Bytes that agree with the stream wherever it has one. */
  ghost predicate Shows(out: seq<byte>, image: seq<Maybe>) {
    |out| == |image| && forall k :: 0 <= k < |out| ==> ShowsByte(out[k], image[k])
  }

  ghost predicate ShowsByte(b: byte, m: Maybe) {
    m.Byte? ==> b == m.value
  }

  /** The stream with zeros for holes. */
  ghost function ZeroFilled(image: seq<Maybe>): (out: seq<byte>)
    ensures Shows(out, image)
  {
    seq(|image|, k requires 0 <= k < |image| => if image[k].Byte? then image[k].value else 0)
  }

  /** Reads until an error, each time into memory that was not used before, of the k-th length at the
      k-th call: the holes of the stream come out as zeros. */
  method ReadToEnd(r: Reader, lengths: nat -> nat) returns (out: seq<byte>, err: Err)
    requires forall k :: lengths(k) > 0
    modifies r
    ensures out == ZeroFilled(old(r.Stream())) && err == old(Ending(r.entries))
  {
    ghost var image := r.Stream();
    out, err := [], NoError;
    var calls := 0;
    while err == NoError
      invariant |out| <= |image| && out == ZeroFilled(image[..|out|])
      invariant r.Stream() == image[|out|..] && Ending(r.entries) == old(Ending(r.entries))
      invariant err != NoError ==> |out| == |image| && err == Ending(r.entries)
      decreases err == NoError, |image| - |out|
    {
      var len := lengths(calls);
      var buf := new byte[len](_ => 0);
      ghost var before := buf[..];
      var n;
      n, err := r.Read(buf, 0, len);
      ZeroFilledOn(out, image, before, n);
      out := out + buf[..n];
      calls := calls + 1;
    }
    assert image[..|image|] == image;
  }

  lemma {:induction false} ZeroFilledOn(out: seq<byte>, image: seq<Maybe>, before: seq<byte>, n: nat)
    requires |out| + n <= |image| && n <= |before| && out == ZeroFilled(image[..|out|])
    requires forall k :: 0 <= k < |before| ==> before[k] == 0
    ensures out + Overlaid(before, 0, image[|out|..][..n])[..n] == ZeroFilled(image[..|out| + n])
    ensures image[|out|..][n..] == image[|out| + n..]
  {}

  // ---- What sorted entries make ----

  /** Sorted by offset without overlap, from a place on, with data of the stated sizes. */
  ghost predicate Spread(es: seq<Entry>, from: int) {
    es != [] ==>
      && from <= es[0].offset && |es[0].data| == es[0].size
      && Spread(es[1..], es[0].offset + es[0].size)
  }

  /** The stream ends where the last entry ends. */
  lemma {:induction false} SpreadLength(es: seq<Entry>, from: int)
    requires Spread(es, from)
    ensures Ending(es) == EOF
    ensures from + |Image(es, from)| == if es == [] then from else es[|es| - 1].offset + es[|es| - 1].size
    decreases |es|
  {
    if es != [] {
      SpreadFirst(es, from);
      SpreadLength(es[1..], es[0].offset + es[0].size);
    }
  }

  lemma {:induction false} SpreadFirst(es: seq<Entry>, from: int)
    requires es != [] && Spread(es, from)
    ensures Image(es, from) ==
      Holes(es[0].offset - from) + (Solid(es[0].data) + Image(es[1..], es[0].offset + es[0].size))
  {}

  ghost predicate Holds(image: seq<Maybe>, at: int, piece: seq<Maybe>) {
    0 <= at <= |image| && piece <= image[at..]
  }

  lemma {:induction false} HoldsBehind(front: seq<Maybe>, rest: seq<Maybe>, at: nat, piece: seq<Maybe>)
    requires Holds(rest, at, piece)
    ensures Holds(front + rest, |front| + at, piece)
  {}

  /** Every entry stands in the stream at its offset. */
  lemma {:induction false} EntryShown(es: seq<Entry>, from: int, i: nat)
    requires Spread(es, from) && i < |es|
    ensures from <= es[i].offset && |es[i].data| == es[i].size
    ensures Holds(Image(es, from), es[i].offset - from, Solid(es[i].data))
    decreases |es|
  {
    SpreadFirst(es, from);
    var end := es[0].offset + es[0].size;
    var holes, data, rest := Holes(es[0].offset - from), Solid(es[0].data), Image(es[1..], end);
    if i == 0 {
      assert (data + rest)[0..] == data + rest;
      HoldsBehind(holes, data + rest, 0, data);
    } else {
      EntryShown(es[1..], end, i - 1);
      var at := es[i].offset - end;
      HoldsBehind(data, rest, at, Solid(es[i].data));
      HoldsBehind(holes, data + rest, |data| + at, Solid(es[i].data));
    }
  }

  /** A place in the stream that is no hole lies inside an entry. */
  lemma {:induction false} ShownIsEntry(es: seq<Entry>, from: int, at: nat) returns (i: nat)
    requires Spread(es, from) && at < |Image(es, from)| && Image(es, from)[at].Byte?
    ensures i < |es| && es[i].offset <= from + at < es[i].offset + es[i].size
    decreases |es|
  {
    SpreadFirst(es, from);
    var end := es[0].offset + es[0].size;
    var rest, front := Image(es[1..], end), Holes(es[0].offset - from) + Solid(es[0].data);
    assert Image(es, from) == front + rest;
    if from + at < end {
      i := 0;
    } else {
      assert rest[from + at - end] == Image(es, from)[at];
      i := ShownIsEntry(es[1..], end, from + at - end);
      i := i + 1;
    }
  }

  /** Sorted entries that do not overlap are written out, through new buffers of any lengths, as a file that
      ends where the last entry ends, holds every entry at its offset, and is zero elsewhere. */
  method ReadSpread(es: seq<Entry>, lengths: nat -> nat) returns (file: seq<byte>, err: Err)
    requires Spread(es, 0) && forall k :: lengths(k) > 0
    ensures err == EOF
    ensures |file| == if es == [] then 0 else es[|es| - 1].offset + es[|es| - 1].size
    ensures forall i :: 0 <= i < |es| ==> Stands(file, es[i])
    ensures forall at :: 0 <= at < |file| && file[at] != 0 ==>
      exists i :: 0 <= i < |es| && es[i].offset <= at < es[i].offset + es[i].size
  {
    var r := new Reader(es);
    file, err := ReadToEnd(r, lengths);
    SpreadLength(es, 0);
    forall i | 0 <= i < |es|
      ensures Stands(file, es[i])
    {
      StandsShown(file, es, i);
    }
    forall at | 0 <= at < |file| && file[at] != 0
      ensures exists i :: 0 <= i < |es| && es[i].offset <= at < es[i].offset + es[i].size
    {
      assert Image(es, 0)[at].Byte?;
      var i := ShownIsEntry(es, 0, at);
    }
  }

  /** The file holds the entry at its offset. */
  ghost predicate Stands(file: seq<byte>, e: Entry) {
    0 <= e.offset && 0 <= e.size && e.offset + e.size <= |file| && file[e.offset..e.offset + e.size] == e.data
  }

  lemma {:induction false} StandsShown(file: seq<byte>, es: seq<Entry>, i: nat)
    requires Spread(es, 0) && Shows(file, Image(es, 0)) && i < |es|
    ensures Stands(file, es[i])
  {
    EntryShown(es, 0, i);
    var e, image := es[i], Image(es, 0);
    forall k | 0 <= k < e.size
      ensures file[e.offset..e.offset + e.size][k] == e.data[k]
    {
      assert image[e.offset..][k] == Solid(e.data)[k];
      assert ShowsByte(file[e.offset + k], image[e.offset + k]);
    }
  }
}
