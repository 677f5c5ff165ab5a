/** What the buffered row writer sends, as a function of the appends that make up a row, and how it
    compares with cutting the whole row at once. */
module RowFraming {
  import opened Wrappers
  import opened Arithmetic
  import opened Bytes
  import opened Packets

  /** Packets finished so far, the data of the packet being filled, and the next sequence id. */
  datatype Out = Out(done: seq<Packet>, open: Option<seq<byte>>, id: byte)

  function OpenData(o: Out): seq<byte> {
    if o.open.Some? then o.open.value else []
  }

  /** Ends the open packet, if any; a full one is followed by an empty packet when asked for. */
  function Close(m: nat, o: Out, zero: bool): Out {
    match o.open
    case None => o
    case Some(d) =>
      if zero && |d| == m then
        Out(o.done + [Packet(o.id, d), Packet(NextId(o.id), [])], None, NextId(NextId(o.id)))
      else
        Out(o.done + [Packet(o.id, d)], None, NextId(o.id))
  }

  /** One append: fills the open packet, or new ones, and closes each one that is full; the empty
      packet follows when the append ends there. */
  function Fill(m: nat, o: Out, elems: seq<byte>): Out
    requires m > 0 && |OpenData(o)| < m
    decreases |elems|
  {
    if elems == [] then o
    else
      var d := OpenData(o);
      var n := Min(m - |d|, |elems|);
      var o' := o.(open := Some(d + elems[..n]));
      if |d| + n < m then o' else Fill(m, Close(m, o', n == |elems|), elems[n..])
  }

  /** How much of `elems` the open packet, or a new one, takes, and the state after that. */
  function Room(m: nat, o: Out, elems: seq<byte>): int {
    Min(m - |OpenData(o)|, |elems|)
  }

  function FillStep(m: nat, o: Out, elems: seq<byte>): Out
    requires m > 0 && |OpenData(o)| < m
  {
    var n := Room(m, o, elems);
    var o' := o.(open := Some(OpenData(o) + elems[..n]));
    if |OpenData(o)| + n < m then o' else Close(m, o', n == |elems|)
  }

  /** One round of filling, from position i of an append on. */
  lemma {:induction false} FillOn(m: nat, o: Out, elems: seq<byte>, i: nat)
    requires m > 0 && |OpenData(o)| < m && i < |elems|
    ensures var n := Room(m, o, elems[i..]);
      && 0 < n <= |elems| - i
      && |OpenData(FillStep(m, o, elems[i..]))| < m
      && Fill(m, FillStep(m, o, elems[i..]), elems[i + n..]) == Fill(m, o, elems[i..])
  {}

  lemma {:induction false} FillKeeps(m: nat, o: Out, elems: seq<byte>)
    requires m > 0 && |OpenData(o)| < m
    ensures |OpenData(Fill(m, o, elems))| < m
    decreases |elems|
  {
    if elems != [] {
      var d := OpenData(o);
      var n := Min(m - |d|, |elems|);
      if |d| + n == m {
        FillKeeps(m, Close(m, o.(open := Some(d + elems[..n])), n == |elems|), elems[n..]);
      }
    }
  }

  function FillAll(m: nat, o: Out, appends: seq<seq<byte>>): Out
    requires m > 0 && |OpenData(o)| < m
    decreases |appends|
  {
    if appends == [] then o
    else
      FillKeeps(m, o, appends[0]);
      FillAll(m, Fill(m, o, appends[0]), appends[1..])
  }

  /** A whole row: opened, appended to, and closed. */
  function SendRow(m: nat, o: Out, appends: seq<seq<byte>>): Out
    requires m > 0
  {
    Close(m, FillAll(m, o.(open := Some([])), appends), true)
  }

  /** p is a multiple of m. */
  predicate Multiple(m: nat, p: nat)
    requires m > 0
  {
    p == 0 || (p >= m && Multiple(m, p - m))
  }

  lemma {:induction false} MultipleIsMod(m: nat, p: nat)
    requires m > 0
    ensures Multiple(m, p) <==> p % m == 0
    decreases p
  {
    if p < m {
      ModSmall(p, m);
    } else {
      ModStep(p, m);
      MultipleIsMod(m, p - m);
    }
  }

  // ---- What one segment looks like ----

  /** The state after the bytes x were laid into packets behind `done`, the first one numbered id. */
  function Lay(m: nat, done: seq<Packet>, x: seq<byte>, id: byte): Out
    requires m > 0
    decreases |x|
  {
    if |x| < m then Out(done, Some(x), id)
    else if |x| == m then Out(done + [Packet(id, x), Packet(NextId(id), [])], None, NextId(NextId(id)))
    else Lay(m, done + [Packet(id, x[..m])], x[m..], NextId(id))
  }

  /** An append of something continues the packet that is open. */
  lemma {:induction false} FillIsLay(m: nat, o: Out, elems: seq<byte>)
    requires m > 0 && |OpenData(o)| < m && elems != []
    ensures Fill(m, o, elems) == Lay(m, o.done, OpenData(o) + elems, o.id)
    decreases |elems|
  {
    var d := OpenData(o);
    var x := d + elems;
    var n := Min(m - |d|, |elems|);
    if |x| > m {
      assert x[..m] == d + elems[..n] && x[m..] == elems[n..];
      var o' := Close(m, o.(open := Some(d + elems[..n])), false);
      FillIsLay(m, o', elems[n..]);
      assert [] + elems[n..] == elems[n..];
    } else {
      assert elems[..n] == elems && elems[n..] == [];
    }
  }

  /** Laying x and then more is laying both, as long as x does not end at a packet's end. */
  lemma {:induction false} LayOn(m: nat, done: seq<Packet>, x: seq<byte>, id: byte, more: seq<byte>)
    requires m > 0 && Lay(m, done, x, id).open.Some?
    ensures var o := Lay(m, done, x, id);
      |OpenData(o)| < m && Lay(m, o.done, OpenData(o) + more, o.id) == Lay(m, done, x + more, id)
    decreases |x|
  {
    if |x| > m {
      LayOn(m, done + [Packet(id, x[..m])], x[m..], NextId(id), more);
      assert (x + more)[..m] == x[..m] && (x + more)[m..] == x[m..] + more;
    }
  }

  /** Packets end exactly where a multiple of m does. */
  lemma {:induction false} LayEnds(m: nat, done: seq<Packet>, x: seq<byte>, id: byte)
    requires m > 0 && x != []
    ensures Lay(m, done, x, id).open.None? <==> Multiple(m, |x|)
    decreases |x|
  {
    if |x| > m {
      LayEnds(m, done + [Packet(id, x[..m])], x[m..], NextId(id));
    }
  }

  /** Closed, the packets of x are those that x is cut into. */
  lemma {:induction false} CloseLay(m: nat, done: seq<Packet>, x: seq<byte>, id: byte)
    requires m > 0 && x != []
    ensures var o := Close(m, Lay(m, done, x, id), true);
      o.done == done + Split(m, x, id) && o.open == None
    decreases |x|
  {
    if |x| > m {
      var p, ps := Packet(id, x[..m]), Split(m, x[m..], NextId(id));
      CloseLay(m, done + [p], x[m..], NextId(id));
      AssocPackets(done, [p], ps);
    }
  }

  lemma {:induction false} AssocPackets(a: seq<Packet>, b: seq<Packet>, c: seq<Packet>)
    ensures a + (b + c) == (a + b) + c
  {}

  lemma {:induction false} CloseLayId(m: nat, done: seq<Packet>, x: seq<byte>, id: byte)
    requires m > 0 && x != []
    ensures Close(m, Lay(m, done, x, id), true).id == IdAfter(id, |Split(m, x, id)|)
    decreases |x|
  {
    if |x| > m {
      var ps := Split(m, x[m..], NextId(id));
      CloseLayId(m, done + [Packet(id, x[..m])], x[m..], NextId(id));
      assert Split(m, x, id) == [Packet(id, x[..m])] + ps;
      IdShift(id, |ps|);
    } else if |x| == m {
      IdShift(id, 1);
    }
  }

  lemma {:induction false} IdShift(id: byte, n: nat)
    ensures IdAfter(NextId(id), n) == IdAfter(id, n + 1)
    ensures IdAfter(id, 0) == id && IdAfter(id, 1) == NextId(id)
  {}

  // ---- Segments ----

  /** The payloads a row falls into: a segment ends with every nonempty append that ends at a
      multiple of m since the segment began. `seg` is the segment under way. */
  function Segments(m: nat, appends: seq<seq<byte>>, seg: seq<byte>): seq<seq<byte>>
    requires m > 0
    decreases |appends|
  {
    if appends == [] then
      if seg == [] then [] else [seg]
    else
      var s := seg + appends[0];
      if appends[0] != [] && Multiple(m, |s|) then [s] + Segments(m, appends[1..], [])
      else Segments(m, appends[1..], s)
  }

  function SplitAll(m: nat, segs: seq<seq<byte>>, id: byte): seq<Packet>
    requires m > 0
    decreases |segs|
  {
    if segs == [] then []
    else
      var ps := Split(m, segs[0], id);
      ps + SplitAll(m, segs[1..], IdAfter(id, |ps|))
  }

  /** The state in which a segment is under way. */
  ghost predicate UnderWay(m: nat, o: Out, base: seq<Packet>, seg: seq<byte>, id: byte)
    requires m > 0
  {
    if seg == [] then o.done == base && o.id == id && OpenData(o) == []
    else !Multiple(m, |seg|) && o == Lay(m, base, seg, id)
  }

  /** From any point of a row on, closing it in the end sends one payload per segment. */
  lemma {:induction false} FillSegments(m: nat, o: Out, base: seq<Packet>, seg: seq<byte>, id: byte,
                                        appends: seq<seq<byte>>)
    requires m > 0 && |OpenData(o)| < m && UnderWay(m, o, base, seg, id)
    requires seg + Concat(appends) != [] || o.open == None
    ensures Close(m, FillAll(m, o, appends), true).done == base + SplitAll(m, Segments(m, appends, seg), id)
    decreases |appends|
  {
    if appends == [] {
      if seg != [] {
        CloseLay(m, base, seg, id);
        assert [seg][1..] == [];
      }
    } else {
      var a, rest := appends[0], appends[1..];
      var s := seg + a;
      FillKeeps(m, o, a);
      assert seg + (a + Concat(rest)) == s + Concat(rest);
      if a == [] {
        assert s == seg;
        FillSegments(m, o, base, seg, id, rest);
      } else {
        AppendOne(m, o, base, seg, id, a);
        var o' := Fill(m, o, a);
        if Multiple(m, |s|) {
          var ps := Split(m, s, id);
          FillSegments(m, o', base + ps, [], IdAfter(id, |ps|), rest);
          assert ([s] + Segments(m, rest, []))[1..] == Segments(m, rest, []);
          AssocPackets(base, ps, SplitAll(m, Segments(m, rest, []), IdAfter(id, |ps|)));
        } else {
          FillSegments(m, o', base, s, id, rest);
        }
      }
    }
  }

  /** One nonempty append to a segment under way ends it or keeps it under way. */
  lemma {:induction false} AppendOne(m: nat, o: Out, base: seq<Packet>, seg: seq<byte>, id: byte, a: seq<byte>)
    requires m > 0 && |OpenData(o)| < m && UnderWay(m, o, base, seg, id) && a != []
    ensures var s := seg + a;
      if Multiple(m, |s|) then Fill(m, o, a) == Out(base + Split(m, s, id), None, IdAfter(id, |Split(m, s, id)|))
      else UnderWay(m, Fill(m, o, a), base, s, id)
  {
    var s := seg + a;
    FillIsLay(m, o, a);
    if seg == [] {
      assert OpenData(o) + a == s;
    } else {
      LayEnds(m, base, seg, id);
      LayOn(m, base, seg, id, a);
    }
    assert Fill(m, o, a) == Lay(m, base, s, id);
    LayEnds(m, base, s, id);
    CloseLay(m, base, s, id);
    CloseLayId(m, base, s, id);
  }

  /** What the client joins from a row's packets are its segments. */
  lemma {:induction false} JoinSplitAll(m: nat, segs: seq<seq<byte>>, id: byte)
    requires m > 0 && forall k :: 0 <= k < |segs| ==> segs[k] != []
    ensures JoinAll(m, SplitAll(m, segs, id)) == (segs, [])
    decreases |segs|
  {
    if segs != [] {
      var ps := Split(m, segs[0], id);
      SplitJoin(m, segs[0], id, SplitAll(m, segs[1..], IdAfter(id, |ps|)));
      JoinSplitAll(m, segs[1..], IdAfter(id, |ps|));
      assert [segs[0]] + segs[1..] == segs;
    }
  }

  lemma {:induction false} SegmentsNonempty(m: nat, appends: seq<seq<byte>>, seg: seq<byte>)
    requires m > 0
    ensures forall k :: 0 <= k < |Segments(m, appends, seg)| ==> Segments(m, appends, seg)[k] != []
    decreases |appends|
  {
    if appends != [] {
      SegmentsNonempty(m, appends[1..], []);
      SegmentsNonempty(m, appends[1..], seg + appends[0]);
    }
  }

  // ---- Numbering ----

  /** The packets are numbered from `first` on, modulo 256, and so is the next one. */
  ghost predicate Numbered(o: Out, first: byte) {
    && o.id == (first + |o.done|) % 256
    && forall k :: 0 <= k < |o.done| ==> o.done[k].id == (first + k) % 256
  }

  lemma {:induction false} CloseNumbered(m: nat, o: Out, zero: bool, first: byte)
    requires Numbered(o, first)
    ensures Numbered(Close(m, o, zero), first)
  {
    if o.open.Some? {
      var one := Out(o.done + [Packet(o.id, o.open.value)], None, NextId(o.id));
      OneNumbered(o, o.open.value, first);
      if zero && |o.open.value| == m {
        OneNumbered(one, [], first);
        assert one.done + [Packet(NextId(o.id), [])] ==
          o.done + [Packet(o.id, o.open.value), Packet(NextId(o.id), [])];
      }
    }
  }

  lemma {:induction false} OneNumbered(o: Out, data: seq<byte>, first: byte)
    requires Numbered(o, first)
    ensures Numbered(Out(o.done + [Packet(o.id, data)], None, NextId(o.id)), first)
  {}

  lemma {:induction false} FillNumbered(m: nat, o: Out, elems: seq<byte>, first: byte)
    requires m > 0 && |OpenData(o)| < m && Numbered(o, first)
    ensures Numbered(Fill(m, o, elems), first)
    decreases |elems|
  {
    if elems != [] {
      var d := OpenData(o);
      var n := Min(m - |d|, |elems|);
      var o' := o.(open := Some(d + elems[..n]));
      if |d| + n == m {
        CloseNumbered(m, o', n == |elems|, first);
        FillNumbered(m, Close(m, o', n == |elems|), elems[n..], first);
      }
    }
  }

  lemma {:induction false} FillAllNumbered(m: nat, o: Out, appends: seq<seq<byte>>, first: byte)
    requires m > 0 && |OpenData(o)| < m && Numbered(o, first)
    ensures Numbered(FillAll(m, o, appends), first)
    decreases |appends|
  {
    if appends != [] {
      FillKeeps(m, o, appends[0]);
      FillNumbered(m, o, appends[0], first);
      FillAllNumbered(m, Fill(m, o, appends[0]), appends[1..], first);
    }
  }

  /** Whatever rows are sent one after the other, their packets are numbered consecutively modulo 256. */
  lemma {:induction false} RowNumbered(m: nat, o: Out, appends: seq<seq<byte>>, first: byte)
    requires m > 0 && Numbered(o, first)
    ensures Numbered(SendRow(m, o, appends), first)
  {
    var open := o.(open := Some([]));
    FillAllNumbered(m, open, appends, first);
    CloseNumbered(m, FillAll(m, open, appends), true, first);
  }

  // ---- When the buffered writer agrees with cutting the whole row ----

  /** No append but the last one that matters ends at a multiple of m: no prefix made of whole
      appends, other than nothing and everything, has such a length. */
  ghost predicate NoInnerMultiple(m: nat, appends: seq<seq<byte>>, seg: seq<byte>)
    requires m > 0
  {
    forall k :: 0 <= k <= |appends| ==> PrefixOk(m, appends, seg, k)
  }

  ghost predicate PrefixOk(m: nat, appends: seq<seq<byte>>, seg: seq<byte>, k: nat)
    requires m > 0 && k <= |appends|
  {
    InnerOk(m, |seg| + |Concat(appends[..k])|, |seg| + |Concat(appends)|)
  }

  ghost predicate InnerOk(m: nat, p: nat, total: nat)
    requires m > 0
  {
    0 < p < total ==> p % m != 0
  }

  lemma {:induction false} ConcatPrefix(ss: seq<seq<byte>>, k: nat)
    requires k <= |ss|
    ensures |Concat(ss[..k])| <= |Concat(ss)|
    ensures k > 0 ==> |Concat(ss[..k])| == |ss[0]| + |Concat(ss[1..][..k - 1])|
    decreases |ss|
  {
    if k > 0 {
      assert ss[..k][1..] == ss[1..][..k - 1];
      ConcatPrefix(ss[1..], k - 1);
    }
  }

  /** The prefixes of the appends behind `seg` are those of the other appends behind the first one. */
  lemma {:induction false} PrefixStep(m: nat, appends: seq<seq<byte>>, seg: seq<byte>, k: nat)
    requires m > 0 && 0 < k <= |appends|
    ensures PrefixOk(m, appends, seg, k) <==> PrefixOk(m, appends[1..], seg + appends[0], k - 1)
  {
    ConcatPrefix(appends, k);
  }

  lemma {:induction false} NoInnerStep(m: nat, appends: seq<seq<byte>>, seg: seq<byte>)
    requires m > 0 && appends != []
    requires InnerOk(m, |seg|, |seg| + |Concat(appends)|)
    ensures NoInnerMultiple(m, appends, seg) <==> NoInnerMultiple(m, appends[1..], seg + appends[0])
  {
    var rest, s := appends[1..], seg + appends[0];
    forall k | 0 < k <= |appends|
      ensures PrefixOk(m, appends, seg, k) <==> PrefixOk(m, rest, s, k - 1)
    {
      PrefixStep(m, appends, seg, k);
    }
    assert appends[..0] == [];
    assert PrefixOk(m, appends, seg, 0);
    if NoInnerMultiple(m, appends, seg) {
      forall k | 0 <= k <= |rest|
        ensures PrefixOk(m, rest, s, k)
      {
        assert PrefixOk(m, appends, seg, k + 1);
      }
    }
  }

  /** The row is a single segment exactly when there is no such prefix. */
  lemma {:induction false} OneSegment(m: nat, appends: seq<seq<byte>>, seg: seq<byte>)
    requires m > 0 && seg + Concat(appends) != []
    requires seg == [] || !Multiple(m, |seg|)
    ensures Segments(m, appends, seg) == [seg + Concat(appends)] <==> NoInnerMultiple(m, appends, seg)
    decreases |appends|
  {
    MultipleIsMod(m, |seg|);
    if appends == [] {
      assert seg + [] == seg;
      assert appends[..0] == [];
    } else {
      var a, rest := appends[0], appends[1..];
      var s := seg + a;
      assert seg + (a + Concat(rest)) == s + Concat(rest);
      NoInnerStep(m, appends, seg);
      if a != [] && Multiple(m, |s|) {
        OnlyNothing(m, rest);
        AfterMultiple(m, rest, s);
        if Concat(rest) == [] {
          assert s + [] == s;
        }
      } else {
        OneSegment(m, rest, s);
      }
    }
  }

  /** Appends of nothing make no segment, and nothing else does. */
  lemma {:induction false} OnlyNothing(m: nat, appends: seq<seq<byte>>)
    requires m > 0
    ensures Segments(m, appends, []) == [] <==> Concat(appends) == []
    decreases |appends|
  {
    if appends != [] {
      assert [] + appends[0] == appends[0];
      if appends[0] == [] {
        OnlyNothing(m, appends[1..]);
      } else if !Multiple(m, |appends[0]|) {
        SomeSegment(m, appends[1..], appends[0]);
      }
    }
  }

  lemma {:induction false} SomeSegment(m: nat, appends: seq<seq<byte>>, seg: seq<byte>)
    requires m > 0 && seg != []
    ensures Segments(m, appends, seg) != []
    decreases |appends|
  {
    if appends != [] {
      SomeSegment(m, appends[1..], seg + appends[0]);
    }
  }

  /** Behind a multiple of m only appends of nothing are harmless. */
  lemma {:induction false} AfterMultiple(m: nat, appends: seq<seq<byte>>, s: seq<byte>)
    requires m > 0 && s != [] && Multiple(m, |s|)
    ensures NoInnerMultiple(m, appends, s) <==> Concat(appends) == []
  {
    MultipleIsMod(m, |s|);
    assert appends[..0] == [];
    if NoInnerMultiple(m, appends, s) {
      assert PrefixOk(m, appends, s, 0);
    }
    if Concat(appends) == [] {
      forall k | 0 <= k <= |appends|
        ensures PrefixOk(m, appends, s, k)
      {
        ConcatPrefix(appends, k);
      }
    }
  }

  /** The packets of a nonempty row are those of its segments. */
  lemma {:induction false} RowPackets(m: nat, o: Out, appends: seq<seq<byte>>)
    requires m > 0 && Concat(appends) != []
    ensures SendRow(m, o, appends).done == o.done + SplitAll(m, Segments(m, appends, []), o.id)
  {
    FillSegments(m, o.(open := Some([])), o.done, [], o.id, appends);
  }

  /** A row without a byte is sent as one empty packet. */
  lemma {:induction false} EmptyRow(m: nat, o: Out, appends: seq<seq<byte>>)
    requires m > 0 && Concat(appends) == [] && o.open == Some([])
    ensures FillAll(m, o, appends) == o
    decreases |appends|
  {
    if appends != [] {
      assert appends[0] == [];
      EmptyRow(m, o, appends[1..]);
    }
  }

  /** The client joins the packets of a nonempty row into its segments, with nothing left over. */
  lemma {:induction false} ClientGetsSegments(m: nat, appends: seq<seq<byte>>, id: byte)
    requires m > 0 && Concat(appends) != []
    ensures JoinAll(m, SendRow(m, Out([], None, id), appends).done) == (Segments(m, appends, []), [])
  {
    RowPackets(m, Out([], None, id), appends);
    SegmentsNonempty(m, appends, []);
    JoinSplitAll(m, Segments(m, appends, []), id);
    var ps := SplitAll(m, Segments(m, appends, []), id);
    assert [] + ps == ps;
  }

  /** The buffered writer sends what cutting the whole row would send if and only if the row has a
      byte and no prefix of whole appends inside it has a multiple of m as its length. */
  lemma {:induction false} BufferedAgreesIff(m: nat, o: Out, appends: seq<seq<byte>>)
    requires m > 0
    ensures SendRow(m, o, appends).done == o.done + Split(m, Concat(appends), o.id)
       <==> Concat(appends) != [] && NoInnerMultiple(m, appends, [])
  {
    var row, segs := Concat(appends), Segments(m, appends, []);
    if row == [] {
      EmptyRow(m, o.(open := Some([])), appends);
      assert SendRow(m, o, appends).done == o.done + [Packet(o.id, [])];
    } else {
      RowPackets(m, o, appends);
      assert [] + row == row;
      OneSegment(m, appends, []);
      SplitAllOne(m, row, o.id);
      if o.done + SplitAll(m, segs, o.id) == o.done + Split(m, row, o.id) {
        SameTail(o.done, SplitAll(m, segs, o.id), Split(m, row, o.id));
        SegmentsNonempty(m, appends, []);
        JoinSplitAll(m, segs, o.id);
        JoinSplitAll(m, [row], o.id);
      }
    }
  }

  lemma {:induction false} SplitAllOne(m: nat, s: seq<byte>, id: byte)
    requires m > 0
    ensures SplitAll(m, [s], id) == Split(m, s, id)
  {}

  /** The packets a row adds. */
  ghost function RowSent(m: nat, appends: seq<seq<byte>>, id: byte): seq<Packet>
    requires m > 0
  {
    if Concat(appends) == [] then [Packet(id, [])] else SplitAll(m, Segments(m, appends, []), id)
  }

  lemma {:induction false} RowAdds(m: nat, o: Out, appends: seq<seq<byte>>)
    requires m > 0
    ensures SendRow(m, o, appends).done == o.done + RowSent(m, appends, o.id)
  {
    if Concat(appends) == [] {
      EmptyRow(m, o.(open := Some([])), appends);
    } else {
      RowPackets(m, o, appends);
    }
  }

  lemma {:induction false} SplitAllFits(m: nat, segs: seq<seq<byte>>, id: byte)
    requires 0 < m <= MAX_PAYLOAD
    ensures forall p :: p in SplitAll(m, segs, id) ==> Fits(p)
    decreases |segs|
  {
    if segs != [] {
      SplitFits(m, segs[0], id);
      SplitAllFits(m, segs[1..], IdAfter(id, |Split(m, segs[0], id)|));
    }
  }

  /** The same on the level of bytes: the row's bytes are those that the simple writer sends for it
      under the same condition, and under no other. */
  lemma {:induction false} WireAgreesIff(m: nat, o: Out, appends: seq<seq<byte>>)
    requires 0 < m <= MAX_PAYLOAD
    ensures EncodeAll(SendRow(m, o, appends).done) == EncodeAll(o.done) + EncodeAll(Split(m, Concat(appends), o.id))
       <==> Concat(appends) != [] && NoInnerMultiple(m, appends, [])
  {
    var sent, cut := RowSent(m, appends, o.id), Split(m, Concat(appends), o.id);
    RowAdds(m, o, appends);
    BufferedAgreesIff(m, o, appends);
    EncodeAppend(o.done, sent);
    if EncodeAll(o.done) + EncodeAll(sent) == EncodeAll(o.done) + EncodeAll(cut) {
      SameTail(EncodeAll(o.done), EncodeAll(sent), EncodeAll(cut));
      SplitAllFits(m, Segments(m, appends, []), o.id);
      SplitFits(m, Concat(appends), o.id);
      EncodeInjective(sent, cut);
    } else {
      assert sent != cut;
      if o.done + sent == o.done + cut {
        SameTail(o.done, sent, cut);
      }
    }
  }
}
