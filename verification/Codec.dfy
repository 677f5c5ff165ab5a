/** The incremental packet decoder of `pkg/frontend/codec.go`, and what it makes of a byte stream. */
module Codec {
  import opened Bytes
  import opened Packets
  import opened RowFraming

  /** A packet as the decoder hands it on; the sequence id is a signed byte. */
  datatype Received = Received(length: nat, sequenceId: int, payload: seq<byte>)

  datatype Decoded = NeedMore | BadLength | Got(packet: Received)

  function ToInt8(b: byte): int {
    if b < 128 then b else b - 256
  }

  function AsReceived(p: Packet): Received {
    Received(|p.payload|, ToInt8(p.id), p.payload)
  }

  /** What the front of the unread bytes amounts to. */
  function Front(s: seq<byte>): Decoded {
    if |s| < HEADER then NeedMore
    else
      var length := FromLe(s[..3]);
      if length == 0 then BadLength
      else if |s| < length + HEADER then NeedMore
      else Got(Received(length, ToInt8(s[3]), s[HEADER..HEADER + length]))
  }

  /** What the decoder sees, byte by byte: the length in three bytes, the sequence id as a signed byte, and
      the payload behind them. */
  ghost predicate Shows(s: seq<byte>, d: Decoded) {
    if |s| < 4 then d == NeedMore
    else
      var length := Three(s[0], s[1], s[2]);
      match d
      case BadLength => length == 0
      case NeedMore => 0 < length && |s| < 4 + length
      case Got(p) =>
        && 0 < length == p.length && 4 + length <= |s| && p.payload == s[4..4 + length]
        && -128 <= p.sequenceId < 128 && p.sequenceId % 256 == s[3]
  }

  lemma {:induction false} FrontShows(s: seq<byte>)
    ensures Shows(s, Front(s))
  {
    if |s| >= 4 {
      var h := s[..3];
      assert h[1..][1..][1..] == [] && h[1..][1..][0] == s[2] && h[1..][0] == s[1] && h[0] == s[0];
      assert FromLe(h[1..][1..]) == s[2];
      assert FromLe(h[1..]) == s[1] + 256 * FromLe(h[1..][1..]);
      assert FromLe(h) == Three(s[0], s[1], s[2]);
    }
  }

  /** At most one outcome is right for given bytes. */
  lemma {:induction false} ShowsOne(s: seq<byte>, d: Decoded, d': Decoded)
    requires Shows(s, d) && Shows(s, d')
    ensures d == d'
  {}

  class ByteBuf {
    var bytes: seq<byte>
    var readIndex: nat

    predicate Valid()
      reads this
    {
      readIndex <= |bytes|
    }

    function Unread(): seq<byte>
      reads this
      requires Valid()
    {
      bytes[readIndex..]
    }

    constructor ()
      ensures Valid() && Unread() == []
    {
      bytes, readIndex := [], 0;
    }

    method Append(chunk: seq<byte>)
      requires Valid()
      modifies this
      ensures Valid() && Unread() == old(Unread()) + chunk
    {
      bytes := bytes + chunk;
    }

    /** One step of the decoder: the read index moves only when a whole packet is there. */
    method Decode() returns (d: Decoded)
      requires Valid()
      modifies this`readIndex
      ensures Valid() && d == Front(old(Unread())) && Shows(old(Unread()), d)
      ensures Unread() == if d.Got? then old(Unread())[HEADER + d.packet.length..] else old(Unread())
    {
      FrontShows(Unread());
      var readable := |bytes| - readIndex;
      if readable < HEADER {
        return NeedMore;
      }
      var header := bytes[readIndex..readIndex + HEADER];
      assert header[..3] == Unread()[..3];
      var length := FromLe(header[..3]);
      if length == 0 {
        return BadLength;
      }
      if readable < length + HEADER {
        return NeedMore;
      }
      readIndex := readIndex + HEADER;
      var payload := bytes[readIndex..readIndex + length];
      readIndex := readIndex + length;
      return Got(Received(length, ToInt8(header[3]), payload));
    }
  }

  /** All packets of a byte stream, the bytes left over, and whether a bad length stopped it. */
  datatype Stream = Stream(packets: seq<Received>, rest: seq<byte>, bad: bool)

  function DecodeAll(s: seq<byte>): Stream
    decreases |s|
  {
    match Front(s)
    case NeedMore => Stream([], s, false)
    case BadLength => Stream([], s, true)
    case Got(p) =>
      var more := DecodeAll(s[HEADER + p.length..]);
      Stream([p] + more.packets, more.rest, more.bad)
  }

  ghost function Prefixed(packets: seq<Received>, s: Stream): Stream {
    s.(packets := packets + s.packets)
  }

  lemma {:induction false} PrefixedTwice(a: seq<Received>, b: seq<Received>, s: Stream)
    ensures Prefixed(a + b, s) == Prefixed(a, Prefixed(b, s))
  {}

  /** More bytes behind a whole packet or a bad length do not change what the decoder sees. */
  lemma {:induction false} FrontOn(a: seq<byte>, b: seq<byte>)
    requires !Front(a).NeedMore?
    ensures Front(a + b) == Front(a)
    ensures Front(a).Got? ==>
      var n := HEADER + Front(a).packet.length;
      n <= |a| && (a + b)[n..] == a[n..] + b
  {
    assert (a + b)[..3] == a[..3];
    if Front(a).Got? {
      var n := HEADER + Front(a).packet.length;
      assert (a + b)[HEADER..n] == a[HEADER..n];
    }
  }

  lemma {:induction false} DecodeGot(s: seq<byte>)
    requires Front(s).Got?
    ensures var p := Front(s).packet;
      DecodeAll(s) == Prefixed([p], DecodeAll(s[HEADER + p.length..]))
  {}

  /** What decoding has found, continued with more bytes behind those left over. */
  ghost function Continue(d: Stream, b: seq<byte>): Stream {
    if d.bad then d.(rest := d.rest + b) else Prefixed(d.packets, DecodeAll(d.rest + b))
  }

  /** Decoding a stream in two pieces: what the first piece leaves over goes in front of the second. */
  lemma {:induction false} DecodeOn(a: seq<byte>, b: seq<byte>)
    ensures DecodeAll(a + b) == Continue(DecodeAll(a), b)
    decreases |a|
  {
    match Front(a) {
      case NeedMore =>
        DecodeNone(a, b);
      case BadLength =>
        FrontOn(a, b);
      case Got(p) =>
        FrontOn(a, b);
        DecodeOn(a[HEADER + p.length..], b);
        DecodeOneOn(a, b, p);
    }
  }

  lemma {:induction false} DecodeNone(a: seq<byte>, b: seq<byte>)
    requires Front(a).NeedMore?
    ensures DecodeAll(a + b) == Continue(DecodeAll(a), b)
  {
    assert [] + DecodeAll(a + b).packets == DecodeAll(a + b).packets;
  }

  lemma {:induction false} DecodeOneOn(a: seq<byte>, b: seq<byte>, p: Received)
    requires Front(a) == Got(p) && Front(a + b) == Got(p) && HEADER + p.length <= |a|
    requires (a + b)[HEADER + p.length..] == a[HEADER + p.length..] + b
    requires DecodeAll(a[HEADER + p.length..] + b) == Continue(DecodeAll(a[HEADER + p.length..]), b)
    ensures DecodeAll(a + b) == Continue(DecodeAll(a), b)
  {
    DecodeGot(a);
    DecodeGot(a + b);
    ContinuePrefixed([p], DecodeAll(a[HEADER + p.length..]), b);
  }

  lemma {:induction false} ContinuePrefixed(ps: seq<Received>, d: Stream, b: seq<byte>)
    ensures Continue(Prefixed(ps, d), b) == Prefixed(ps, Continue(d, b))
  {}

  /** However a byte stream is cut into chunks, feeding them to the decoder yields the packets of the
      stream, up to a bad length. */
  method FeedChunks(chunks: seq<seq<byte>>) returns (packets: seq<Received>, bad: bool)
    ensures packets == DecodeAll(Concat(chunks)).packets && bad == DecodeAll(Concat(chunks)).bad
  {
    var buf := new ByteBuf();
    packets, bad := [], false;
    ghost var whole := DecodeAll(Concat(chunks));
    assert [] + Concat(chunks) == Concat(chunks) && chunks[0..] == chunks;
    for k := 0 to |chunks|
      invariant buf.Valid() && fresh(buf) && !bad
      invariant DecodeAll(buf.Unread()) == Stream([], buf.Unread(), false)
      invariant whole == Prefixed(packets, DecodeAll(buf.Unread() + Concat(chunks[k..])))
    {
      ghost var before, left := buf.Unread(), Concat(chunks[k + 1..]);
      buf.Append(chunks[k]);
      assert chunks[k..][1..] == chunks[k + 1..];
      Assoc(before, chunks[k], left);
      var more, stopped := Drain(buf);
      DecodeOn(before + chunks[k], left);
      PrefixedTwice(packets, more, DecodeAll(buf.Unread() + left));
      packets := packets + more;
      if stopped {
        return packets, true;
      }
    }
    assert buf.Unread() + [] == buf.Unread();
  }

  /** Decodes until the buffer holds no whole packet, or a bad length. */
  method Drain(buf: ByteBuf) returns (packets: seq<Received>, bad: bool)
    requires buf.Valid()
    modifies buf
    ensures buf.Valid() && Stream(packets, buf.Unread(), bad) == DecodeAll(old(buf.Unread()))
    ensures !bad ==> DecodeAll(buf.Unread()) == Stream([], buf.Unread(), false)
  {
    packets := [];
    ghost var all := DecodeAll(buf.Unread());
    while true
      invariant buf.Valid() && all == Prefixed(packets, DecodeAll(buf.Unread()))
      decreases |buf.Unread()|
    {
      ghost var s := buf.Unread();
      var d := buf.Decode();
      match d {
        case NeedMore => return packets, false;
        case BadLength => return packets, true;
        case Got(p) =>
          DecodeGot(s);
          PrefixedTwice(packets, [p], DecodeAll(buf.Unread()));
          packets := packets + [p];
      }
    }
  }

  // ---- The decoder against the framers ----

  function AllReceived(ps: seq<Packet>): seq<Received> {
    if ps == [] then [] else [AsReceived(ps[0])] + AllReceived(ps[1..])
  }

  /** Each packet received has the payload of the packet sent, and its id modulo 256. */
  lemma {:induction false} ReceivedAt(ps: seq<Packet>, k: nat)
    requires k < |ps|
    ensures |AllReceived(ps)| == |ps|
    ensures var r := AllReceived(ps)[k];
      && r.payload == ps[k].payload && r.length == |ps[k].payload|
      && -128 <= r.sequenceId < 128 && r.sequenceId % 256 == ps[k].id
    decreases |ps|
  {
    if |ps| > 1 {
      ReceivedAt(ps[1..], if k == 0 then 0 else k - 1);
    }
  }

  /** Packets with nonempty payloads are decoded one by one. */
  lemma {:induction false} DecodeEncoded(ps: seq<Packet>, tail: seq<byte>)
    requires forall k :: 0 <= k < |ps| ==> Fits(ps[k]) && ps[k].payload != []
    ensures DecodeAll(EncodeAll(ps) + tail) == Prefixed(AllReceived(ps), DecodeAll(tail))
    decreases |ps|
  {
    if ps == [] {
      assert [] + tail == tail;
      assert [] + DecodeAll(tail).packets == DecodeAll(tail).packets;
    } else {
      var rest := EncodeAll(ps[1..]) + tail;
      var s := Encode(ps[0]) + rest;
      Assoc(Encode(ps[0]), EncodeAll(ps[1..]), tail);
      FrontEncoded(ps[0], rest);
      DecodeEncoded(ps[1..], tail);
      PrefixedTwice([AsReceived(ps[0])], AllReceived(ps[1..]), DecodeAll(tail));
    }
  }

  lemma {:induction false} FrontEncoded(p: Packet, rest: seq<byte>)
    requires Fits(p)
    ensures Front(Encode(p) + rest) == if p.payload == [] then BadLength else Got(AsReceived(p))
    ensures (Encode(p) + rest)[HEADER + |p.payload|..] == rest
  {
    ParseEncode(p, rest);
    var s := Encode(p) + rest;
    assert Pow256(3) == 256 * (256 * (256 * 1));
    LeRoundTrip(|p.payload|, 3);
    assert s[..3] == Le(|p.payload|, 3);
  }

  /** The last packet of a payload is empty exactly when the length is a multiple of m. */
  lemma {:induction false} SplitEnds(m: nat, payload: seq<byte>, id: byte)
    requires 0 < m <= MAX_PAYLOAD && payload != []
    ensures var ps := Split(m, payload, id);
      && ps != []
      && (ps[|ps| - 1].payload == [] <==> Multiple(m, |payload|))
      && forall k :: 0 <= k < |ps| ==> Fits(ps[k]) && (k < |ps| - 1 ==> ps[k].payload != [])
    decreases |payload|
  {
    if |payload| > m {
      var rest := Split(m, payload[m..], NextId(id));
      SplitEnds(m, payload[m..], NextId(id));
      var ps := Split(m, payload, id);
      assert ps[|ps| - 1] == rest[|rest| - 1];
      forall k | 0 <= k < |ps|
        ensures Fits(ps[k]) && (k < |ps| - 1 ==> ps[k].payload != [])
      {
        if k > 0 {
          assert ps[k] == rest[k - 1];
        }
      }
    }
  }

  /** What the simple framer sends, the decoder reads back in full if and only if the length of the
      payload is no multiple of m; otherwise it stops at the empty packet that ends the payload. */
  lemma {:induction false} DecoderReadsBack(m: nat, payload: seq<byte>, id: byte)
    requires 0 < m <= MAX_PAYLOAD && payload != []
    ensures var ps := Split(m, payload, id);
      if |payload| % m == 0 then
        DecodeAll(EncodeAll(ps)) == Stream(AllReceived(ps[..|ps| - 1]), Encode(ps[|ps| - 1]), true)
      else
        DecodeAll(EncodeAll(ps)) == Stream(AllReceived(ps), [], false)
  {
    var ps := Split(m, payload, id);
    SplitEnds(m, payload, id);
    MultipleIsMod(m, |payload|);
    if Multiple(m, |payload|) {
      var front, z := ps[..|ps| - 1], ps[|ps| - 1];
      assert ps == front + [z];
      EncodeAppend(front, [z]);
      EncodeOne(z);
      DecodeEncoded(front, Encode(z));
      FrontEncoded(z, []);
      assert Encode(z) + [] == Encode(z);
      assert AllReceived(front) + [] == AllReceived(front);
    } else {
      DecodeEncoded(ps, []);
      assert EncodeAll(ps) + [] == EncodeAll(ps);
      assert AllReceived(ps) + [] == AllReceived(ps);
    }
  }
}
