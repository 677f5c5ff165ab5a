/** The two ways `pkg/frontend/mysql_protocol.go` puts packets on the wire: `writePackets`, and the
    row writer that composes packets in place in the out buffer. */
module Protocol {
  import opened Wrappers
  import opened Bytes
  import opened Packets
  import opened RowFraming

  class Connection {
    const maxPayload: nat
    const flushAt: int
    var wire: seq<byte>
    var outbuf: seq<byte>
    var beginWriteIndex: int
    var bytesInOutBuffer: int
    var sequenceId: byte
    ghost var out: Out

    predicate InPacket()
      reads this
    {
      beginWriteIndex >= 0
    }

    /** Wire and out buffer together hold the finished packets, and behind them, when a packet is
        open, room for its header and its data so far. */
    ghost predicate Valid()
      reads this
    {
      && 0 < maxPayload <= MAX_PAYLOAD
      && out.id == sequenceId
      && |OpenData(out)| <= maxPayload
      && if InPacket() then
           && beginWriteIndex + HEADER <= |outbuf|
           && out.open == Some(outbuf[beginWriteIndex + HEADER..])
           && wire + outbuf[..beginWriteIndex] == EncodeAll(out.done)
         else
           && out.open == None
           && wire + outbuf == EncodeAll(out.done)
    }

    constructor (maxPayload: nat, flushAt: int)
      requires 0 < maxPayload <= MAX_PAYLOAD
      ensures Valid() && out == Out([], None, 0)
      ensures this.maxPayload == maxPayload && this.flushAt == flushAt
    {
      this.maxPayload, this.flushAt := maxPayload, flushAt;
      wire, outbuf, beginWriteIndex, bytesInOutBuffer, sequenceId := [], [], -1, 0, 0;
      out := Out([], None, 0);
    }

    /** Sends what the out buffer holds and then `packet`. */
    method WriteThrough(ghost p: Packet, packet: seq<byte>)
      requires Valid() && !InPacket() && packet == Encode(p) && p.id == sequenceId
      modifies this
      ensures Valid() && !InPacket() && outbuf == []
      ensures out == Out(old(out).done + [p], None, NextId(old(sequenceId)))
    {
      EncodeAppend(out.done, [p]);
      EncodeOne(p);
      Assoc(wire, outbuf, packet);
      wire, outbuf := wire + outbuf + packet, [];
      assert wire + [] == wire;
      sequenceId := NextId(sequenceId);
      out := Out(out.done + [p], None, sequenceId);
    }

    /** The simple framer: cuts the payload and sends each packet at once. */
    method WritePackets(payload: seq<byte>)
      requires Valid() && !InPacket()
      modifies this
      ensures Valid() && !InPacket()
      ensures out.done == old(out).done + Split(maxPayload, payload, old(sequenceId))
    {
      var i := 0;
      assert payload[0..] == payload;
      while i < |payload|
        invariant 0 <= i <= |payload| && Valid() && !InPacket()
        invariant out.done + Split(maxPayload, payload[i..], sequenceId)
               == old(out).done + Split(maxPayload, payload, old(sequenceId))
      {
        var curLen := Min(maxPayload, |payload| - i);
        ghost var done, id := out.done, sequenceId;
        WritePart(payload[i..i + curLen], i + curLen == |payload|);
        CutOff(maxPayload, done, payload, i, id, curLen);
        i := i + curLen;
      }
      assert Split(maxPayload, payload[i..], sequenceId) == [];
    }

    /** One packet, and behind a full last one an empty packet. */
    method WritePart(part: seq<byte>, last: bool)
      requires Valid() && !InPacket()
      modifies this
      ensures Valid() && !InPacket()
      ensures out.done == old(out).done + Parts(maxPayload, part, last, old(sequenceId))
      ensures sequenceId == IdAfter(old(sequenceId), |Parts(maxPayload, part, last, old(sequenceId))|)
    {
      WriteThrough(Packet(sequenceId, part), Header(|part|, sequenceId) + part);
      if last && |part| == maxPayload {
        WriteThrough(Packet(sequenceId, []), Header(0, sequenceId));
      }
    }

    /** Reserves room for the header of a new packet. */
    method OpenPacket()
      requires Valid() && !InPacket()
      modifies this
      ensures Valid() && InPacket() && out == old(out).(open := Some([]))
    {
      beginWriteIndex := |outbuf|;
      outbuf := outbuf + [0, 0, 0, 0];
      bytesInOutBuffer := bytesInOutBuffer + HEADER;
      out := out.(open := Some([]));
      assert outbuf[..beginWriteIndex] == old(outbuf) && outbuf[beginWriteIndex + HEADER..] == [];
    }

    /** Appends to the data of the open packet, which has room for it. */
    method PutData(data: seq<byte>)
      requires Valid() && InPacket() && |OpenData(out)| + |data| <= maxPayload
      modifies this
      ensures Valid() && InPacket() && out == old(out).(open := Some(OpenData(old(out)) + data))
    {
      ghost var begin, before := beginWriteIndex, outbuf;
      outbuf := outbuf + data;
      bytesInOutBuffer := bytesInOutBuffer + |data|;
      out := out.(open := Some(OpenData(out) + data));
      assert outbuf[..begin] == before[..begin];
      assert outbuf[begin + HEADER..] == before[begin + HEADER..] + data;
    }

    /** Writes the header of the open packet in place, and behind a full packet an empty one when
        asked for. */
    method ClosePacket(appendZeroPacket: bool)
      requires Valid()
      modifies this
      ensures Valid() && !InPacket() && out == Close(maxPayload, old(out), appendZeroPacket)
    {
      if !InPacket() {
        return;
      }
      var len := |outbuf| - beginWriteIndex - HEADER;
      Seal(len);
      if appendZeroPacket && len == maxPayload {
        AppendEmptyPacket();
        TwoMore(old(out).done, Packet(old(sequenceId), OpenData(old(out))), Packet(NextId(old(sequenceId)), []));
      }
    }

    method Seal(len: nat)
      requires Valid() && InPacket() && len == |OpenData(out)|
      modifies this
      ensures Valid() && !InPacket()
      ensures out == Out(old(out).done + [Packet(old(sequenceId), OpenData(old(out)))], None, NextId(old(sequenceId)))
    {
      var begin := beginWriteIndex;
      ghost var p, done := Packet(sequenceId, outbuf[begin + HEADER..]), out.done;
      ShowHeader(wire, outbuf, begin, p, done);
      outbuf := outbuf[..begin] + Header(len, sequenceId) + outbuf[begin + HEADER..];
      beginWriteIndex := -1;
      sequenceId := NextId(sequenceId);
      out := Out(done + [p], None, sequenceId);
    }

    method AppendEmptyPacket()
      requires Valid() && !InPacket()
      modifies this
      ensures Valid() && !InPacket()
      ensures out == Out(old(out).done + [Packet(old(sequenceId), [])], None, NextId(old(sequenceId)))
    {
      ghost var z := Packet(sequenceId, []);
      ShowAppended(wire, outbuf, z, out.done);
      outbuf := outbuf + Header(0, sequenceId);
      bytesInOutBuffer := bytesInOutBuffer + HEADER;
      sequenceId := NextId(sequenceId);
      out := Out(out.done + [z], None, sequenceId);
    }

    /** Hands the out buffer to the network once it is large enough; never while a packet is open. */
    method FlushOutBuffer()
      requires Valid() && !InPacket()
      modifies this
      ensures Valid() && !InPacket() && out == old(out)
    {
      if bytesInOutBuffer >= flushAt {
        wire, outbuf, bytesInOutBuffer := wire + outbuf, [], 0;
        assert wire + [] == wire;
      }
    }

    /** One append to the row. */
    method FillPacket(elems: seq<byte>)
      requires Valid() && |OpenData(out)| < maxPayload
      modifies this
      ensures Valid() && |OpenData(out)| < maxPayload
      ensures out == Fill(maxPayload, old(out), elems)
    {
      var i := 0;
      assert elems[0..] == elems;
      while i < |elems|
        invariant 0 <= i <= |elems| && Valid() && |OpenData(out)| < maxPayload
        invariant Fill(maxPayload, out, elems[i..]) == Fill(maxPayload, old(out), elems)
        decreases |elems| - i
      {
        FillOn(maxPayload, out, elems, i);
        var curLen := FillOne(elems, i);
        i := i + curLen;
      }
      assert elems[i..] == [];
    }

    /** One round of the loop: as much as the open packet, or a new one, has room for. */
    method FillOne(elems: seq<byte>, i: nat) returns (curLen: nat)
      requires Valid() && |OpenData(out)| < maxPayload && i < |elems|
      modifies this
      ensures Valid() && curLen == Room(maxPayload, old(out), elems[i..])
      ensures out == FillStep(maxPayload, old(out), elems[i..])
    {
      if !InPacket() {
        OpenPacket();
      }
      var hasDataLen := |outbuf| - beginWriteIndex - HEADER;
      curLen := Min(maxPayload - hasDataLen, |elems| - i);
      assert elems[i..][..curLen] == elems[i..i + curLen];
      PutData(elems[i..i + curLen]);
      if |outbuf| - beginWriteIndex - HEADER == maxPayload {
        ClosePacket(i + curLen == |elems|);
        FlushOutBuffer();
      }
    }

    method OpenRow()
      requires Valid() && !InPacket()
      modifies this
      ensures Valid() && InPacket() && out == old(out).(open := Some([]))
    {
      OpenPacket();
    }

    method CloseRow()
      requires Valid()
      modifies this
      ensures Valid() && !InPacket() && out == Close(maxPayload, old(out), true)
    {
      ClosePacket(true);
      FlushOutBuffer();
    }

    /** A row made of the given appends; what it sends is a function of them, whatever is flushed on
        the way. */
    method SendRow(appends: seq<seq<byte>>)
      requires Valid() && !InPacket()
      modifies this
      ensures Valid() && !InPacket()
      ensures out == RowFraming.SendRow(maxPayload, old(out), appends)
      ensures wire + outbuf == EncodeAll(RowFraming.SendRow(maxPayload, old(out), appends).done)
    {
      OpenRow();
      ghost var o := out;
      assert appends[0..] == appends;
      for k := 0 to |appends|
        invariant Valid() && |OpenData(out)| < maxPayload
        invariant FillAll(maxPayload, out, appends[k..]) == FillAll(maxPayload, o, appends)
      {
        assert appends[k..][1..] == appends[k + 1..];
        FillPacket(appends[k]);
      }
      CloseRow();
    }
  }

  lemma {:induction false} TwoMore(done: seq<Packet>, p: Packet, z: Packet)
    ensures (done + [p]) + [z] == done + [p, z]
  {}

  /** Writing the header into its place completes the packet on the wire. */
  lemma {:induction false} ShowHeader(wire: seq<byte>, outbuf: seq<byte>, begin: nat, p: Packet, done: seq<Packet>)
    requires begin + HEADER <= |outbuf| && p.payload == outbuf[begin + HEADER..]
    requires wire + outbuf[..begin] == EncodeAll(done)
    ensures wire + (outbuf[..begin] + Header(|p.payload|, p.id) + p.payload) == EncodeAll(done + [p])
  {
    EncodeAppend(done, [p]);
    EncodeOne(p);
    var a, h := outbuf[..begin], Header(|p.payload|, p.id);
    assert wire + (a + h + p.payload) == (wire + a) + (h + p.payload);
  }

  lemma {:induction false} ShowAppended(wire: seq<byte>, outbuf: seq<byte>, z: Packet, done: seq<Packet>)
    requires wire + outbuf == EncodeAll(done) && z.payload == []
    ensures wire + (outbuf + Header(0, z.id)) == EncodeAll(done + [z])
  {
    EncodeAppend(done, [z]);
    EncodeOne(z);
    Assoc(wire, outbuf, Header(0, z.id));
  }

  ghost function Parts(m: nat, part: seq<byte>, last: bool, id: byte): seq<Packet> {
    if last && |part| == m then [Packet(id, part), Packet(NextId(id), [])] else [Packet(id, part)]
  }

  /** Taking the first packet, or the last two, off what is left of a payload. */
  lemma {:induction false} CutOff(m: nat, done: seq<Packet>, payload: seq<byte>, i: nat, id: byte, n: nat)
    requires m > 0 && i < |payload| && n == Min(m, |payload| - i)
    ensures var ps := Parts(m, payload[i..i + n], i + n == |payload|, id);
      done + Split(m, payload[i..], id) == (done + ps) + Split(m, payload[i + n..], IdAfter(id, |ps|))
  {
    var left := payload[i..];
    assert left[..n] == payload[i..i + n] && left[n..] == payload[i + n..];
    if n == |left| {
      assert left[..n] == left && left[n..] == [];
    }
    var ps := Parts(m, left[..n], n == |left|, id);
    assert Split(m, left, id) == ps + Split(m, left[n..], IdAfter(id, |ps|));
  }
}
