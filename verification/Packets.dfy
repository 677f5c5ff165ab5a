/** MySQL packets: a payload is cut into packets of at most M bytes, and the packet that ends it is
    shorter than M ("Sending More Than 16Mb" in the MySQL protocol documentation). */
module Packets {
  import opened Wrappers
  import opened Bytes

  const HEADER := 4

  /** The largest payload the three length bytes can express. */
  const MAX_PAYLOAD := 0xFF_FFFF

  datatype Packet = Packet(id: byte, payload: seq<byte>)

  function NextId(id: byte): byte {
    (id + 1) % 256
  }

  function IdAfter(id: byte, k: nat): byte {
    (id + k) % 256
  }

  ghost predicate Fits(p: Packet) {
    |p.payload| <= MAX_PAYLOAD
  }

  function Header(len: nat, id: byte): (h: seq<byte>)
    ensures |h| == HEADER
  {
    Le(len, 3) + [id]
  }

  function Encode(p: Packet): seq<byte> {
    Header(|p.payload|, p.id) + p.payload
  }

  /** The length in the first three bytes, least significant first, the id in the fourth, and the payload
      behind them. */
  lemma {:induction false} EncodeBytes(p: Packet)
    requires Fits(p)
    ensures |Encode(p)| == 4 + |p.payload| && Encode(p)[3] == p.id && Encode(p)[4..] == p.payload
    ensures Three(Encode(p)[0], Encode(p)[1], Encode(p)[2]) == |p.payload|
  {
    var n := |p.payload|;
    assert Le(n, 3) == [n % 256] + Le(n / 256, 2);
    assert Le(n / 256, 2) == [n / 256 % 256] + Le(n / 256 / 256, 1);
    assert Le(n / 256 / 256, 1) == [n / 256 / 256 % 256] + Le(n / 256 / 256 / 256, 0);
  }

  function EncodeAll(ps: seq<Packet>): (s: seq<byte>)
    ensures ps != [] ==> |s| >= HEADER
  {
    if ps == [] then [] else Encode(ps[0]) + EncodeAll(ps[1..])
  }

  lemma {:induction false} EncodeAppend(ps: seq<Packet>, qs: seq<Packet>)
    ensures EncodeAll(ps + qs) == EncodeAll(ps) + EncodeAll(qs)
  {
    if ps == [] {
      assert ps + qs == qs;
    } else {
      EncodeAppend(ps[1..], qs);
      assert (ps + qs)[1..] == ps[1..] + qs;
      Assoc(Encode(ps[0]), EncodeAll(ps[1..]), EncodeAll(qs));
    }
  }

  lemma {:induction false} EncodeOne(p: Packet)
    ensures EncodeAll([p]) == Encode(p)
  {}

  // ---- Cutting a payload and joining it again ----

  /** The packets of a nonempty payload, numbered from `id` on; an empty payload has none. */
  function Split(m: nat, payload: seq<byte>, id: byte): seq<Packet>
    requires m > 0
    decreases |payload|
  {
    if payload == [] then []
    else if |payload| < m then [Packet(id, payload)]
    else if |payload| == m then [Packet(id, payload), Packet(NextId(id), [])]
    else [Packet(id, payload[..m])] + Split(m, payload[m..], NextId(id))
  }

  /** Joins packets up to and including the first one shorter than m. */
  function Join(m: nat, ps: seq<Packet>): Option<(seq<byte>, seq<Packet>)>
    decreases |ps|
  {
    if ps == [] then None
    else if |ps[0].payload| < m then Some((ps[0].payload, ps[1..]))
    else
      match Join(m, ps[1..])
      case None => None
      case Some((rest, more)) => Some((ps[0].payload + rest, more))
  }

  /** All but the last packet are full, the last one is shorter than m, and the ids are consecutive
      modulo 256. */
  ghost predicate WellCut(m: nat, ps: seq<Packet>, id: byte) {
    && ps != []
    && (forall k :: 0 <= k < |ps| ==> ps[k].id == (id + k) % 256)
    && (forall k :: 0 <= k < |ps| ==> (|ps[k].payload| == m <==> k < |ps| - 1) && |ps[k].payload| <= m)
  }

  lemma {:induction false} WellCutCons(m: nat, p: Packet, ps: seq<Packet>, id: byte)
    requires WellCut(m, ps, NextId(id)) && p.id == id && |p.payload| == m
    ensures WellCut(m, [p] + ps, id)
  {
    var all := [p] + ps;
    forall k | 0 <= k < |all|
      ensures all[k].id == (id + k) % 256
    {
      if k > 0 {
        assert all[k] == ps[k - 1];
      }
    }
  }

  lemma {:induction false} SplitShape(m: nat, payload: seq<byte>, id: byte)
    requires m > 0 && payload != []
    ensures WellCut(m, Split(m, payload, id), id)
    decreases |payload|
  {
    if |payload| == m {
      WellCutCons(m, Packet(id, payload), [Packet(NextId(id), [])], id);
      assert Split(m, payload, id) == [Packet(id, payload)] + [Packet(NextId(id), [])];
    } else if |payload| > m {
      SplitShape(m, payload[m..], NextId(id));
      WellCutCons(m, Packet(id, payload[..m]), Split(m, payload[m..], NextId(id)), id);
    }
  }

  lemma {:induction false} JoinShort(m: nat, p: Packet, ps: seq<Packet>)
    requires |p.payload| < m
    ensures Join(m, [p] + ps) == Some((p.payload, ps))
  {}

  lemma {:induction false} JoinFull(m: nat, p: Packet, ps: seq<Packet>, rest: seq<byte>, more: seq<Packet>)
    requires |p.payload| >= m && Join(m, ps) == Some((rest, more))
    ensures Join(m, [p] + ps) == Some((p.payload + rest, more))
  {}

  /** Joining what a payload was cut into gives the payload back and leaves what follows it. */
  lemma {:induction false} SplitJoin(m: nat, payload: seq<byte>, id: byte, more: seq<Packet>)
    requires m > 0 && payload != []
    ensures Join(m, Split(m, payload, id) + more) == Some((payload, more))
    decreases |payload|
  {
    if |payload| < m {
      JoinShort(m, Packet(id, payload), more);
    } else if |payload| == m {
      var z := Packet(NextId(id), []);
      JoinShort(m, z, more);
      JoinStep(m, Packet(id, payload), [z], [], more);
      assert payload + [] == payload;
      assert Split(m, payload, id) == [Packet(id, payload)] + [z];
    } else {
      SplitJoin(m, payload[m..], NextId(id), more);
      JoinStep(m, Packet(id, payload[..m]), Split(m, payload[m..], NextId(id)), payload[m..], more);
      assert payload[..m] + payload[m..] == payload;
    }
  }

  lemma {:induction false} JoinStep(m: nat, p: Packet, ps: seq<Packet>, rest: seq<byte>, more: seq<Packet>)
    requires |p.payload| >= m && Join(m, ps + more) == Some((rest, more))
    ensures Join(m, ([p] + ps) + more) == Some((p.payload + rest, more))
  {
    JoinFull(m, p, ps + more, rest, more);
    assert ([p] + ps) + more == [p] + (ps + more);
  }

  /** All payloads of a packet stream. */
  function JoinAll(m: nat, ps: seq<Packet>): (seq<seq<byte>>, seq<Packet>)
    decreases |ps|
  {
    match Join(m, ps)
    case None => ([], ps)
    case Some((payload, more)) =>
      JoinShrinks(m, ps);
      var (rest, left) := JoinAll(m, more);
      ([payload] + rest, left)
  }

  lemma {:induction false} JoinShrinks(m: nat, ps: seq<Packet>)
    ensures Join(m, ps).Some? ==> |Join(m, ps).value.1| < |ps|
    decreases |ps|
  {
    if ps != [] {
      JoinShrinks(m, ps[1..]);
    }
  }

  // ---- Reading packets off a byte stream ----

  /** The packet at the front of a byte stream and what follows it. */
  function Parse(s: seq<byte>): Option<(Packet, seq<byte>)> {
    if |s| < HEADER then None
    else
      var len := FromLe(s[..3]);
      if |s| < HEADER + len then None
      else Some((Packet(s[3], s[HEADER..HEADER + len]), s[HEADER + len..]))
  }

  lemma {:induction false} ParseEncode(p: Packet, rest: seq<byte>)
    requires Fits(p)
    ensures Parse(Encode(p) + rest) == Some((p, rest))
  {
    var s, len := Encode(p) + rest, |p.payload|;
    assert Pow256(3) == 256 * (256 * (256 * 1));
    LeRoundTrip(len, 3);
    assert s[..3] == Le(len, 3);
    assert s[3] == p.id;
    assert s[HEADER..HEADER + len] == p.payload;
    assert s[HEADER + len..] == rest;
  }

  /** Different packet streams have different bytes. */
  lemma {:induction false} EncodeInjective(ps: seq<Packet>, qs: seq<Packet>)
    requires (forall p :: p in ps ==> Fits(p)) && (forall q :: q in qs ==> Fits(q))
    requires EncodeAll(ps) == EncodeAll(qs)
    ensures ps == qs
    decreases |ps|
  {
    if ps != [] && qs != [] {
      ParseEncode(ps[0], EncodeAll(ps[1..]));
      ParseEncode(qs[0], EncodeAll(qs[1..]));
      EncodeInjective(ps[1..], qs[1..]);
      assert ps == [ps[0]] + ps[1..] && qs == [qs[0]] + qs[1..];
    }
  }

  lemma {:induction false} SplitFits(m: nat, payload: seq<byte>, id: byte)
    requires 0 < m <= MAX_PAYLOAD
    ensures forall p :: p in Split(m, payload, id) ==> Fits(p)
    decreases |payload|
  {
    if |payload| > m {
      SplitFits(m, payload[m..], NextId(id));
    }
  }
}
