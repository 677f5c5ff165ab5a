/** Length-encoded values and text rows of `pkg/frontend/mysql_protocol.go`
    (Protocol::LengthEncodedInteger in the MySQL protocol documentation). */
module LenEnc {
  import opened Bytes

  const TWO63 := 0x8000_0000_0000_0000
  const TWO64 := 0x1_0000_0000_0000_0000

  type uint64 = x: int | 0 <= x < TWO64

  /** The encoding of an integer: 1, 3, 4 or 9 bytes. */
  function Encode(value: uint64): seq<byte> {
    if value < 251 then [value]
    else if value < 0x1_0000 then [0xfc] + Le(value, 2)
    else if value < 0x100_0000 then [0xfd] + Le(value, 3)
    else [0xfe] + Le(value, 8)
  }

  /** One byte for values up to 250; above, a first byte that tells the class, and the value in 2, 3 or 8
      bytes, least significant first. */
  lemma {:induction false} EncodeShape(value: uint64)
    ensures value <= 250 ==> Encode(value) == [value]
    ensures 251 <= value <= 0xffff ==> |Encode(value)| == 3 && Encode(value)[0] == 0xfc
    ensures 0x1_0000 <= value <= 0xff_ffff ==> |Encode(value)| == 4 && Encode(value)[0] == 0xfd
    ensures 0x100_0000 <= value ==> |Encode(value)| == 9 && Encode(value)[0] == 0xfe
    ensures 251 <= value ==> FromLe(Encode(value)[1..]) == value
  {
    Powers();
    if value >= 251 {
      var k := |Encode(value)| - 1;
      assert Encode(value)[1..] == Le(value, k);
      LeRoundTrip(value, k);
    }
  }

  lemma {:induction false} LeBytes(v: nat)
    ensures Le(v, 2) == [v % 256, v / 256 % 256]
    ensures Le(v, 3) == [v % 256, v / 256 % 256, v / 256 / 256 % 256]
  {
    LeUnfold(v, 1);
    LeUnfold(v, 2);
    LeUnfold(v / 256, 1);
    LeUnfold(v / 256, 0);
    LeUnfold(v / 256 / 256, 0);
  }

  lemma {:induction false} LeUnfold(v: nat, k: nat)
    ensures Le(v, k + 1) == [v % 256] + Le(v / 256, k)
  {}

  /** Writes the encoding into a buffer. */
  method WriteInt(data: array<byte>, pos: nat, value: uint64) returns (end: nat)
    requires pos + |Encode(value)| <= data.Length
    modifies data
    ensures end == pos + |Encode(value)| && data[pos..end] == Encode(value)
    ensures data[..pos] == old(data[..pos]) && data[end..] == old(data[end..])
  {
    LeBytes(value);
    var v1 := value / 256;
    var v2 := v1 / 256;
    if value < 251 {
      data[pos] := value;
      end := pos + 1;
    } else if value < 0x1_0000 {
      data[pos], data[pos + 1], data[pos + 2] := 0xfc, value % 256, v1 % 256;
      end := pos + 3;
    } else if value < 0x100_0000 {
      data[pos], data[pos + 1], data[pos + 2], data[pos + 3] := 0xfd, value % 256, v1 % 256, v2 % 256;
      end := pos + 4;
    } else {
      WriteInt9(data, pos, value);
      end := pos + 9;
    }
  }

  method WriteInt9(data: array<byte>, pos: nat, value: nat)
    requires pos + 9 <= data.Length
    modifies data
    ensures data[pos..pos + 9] == [0xfe] + Le(value, 8)
    ensures data[..pos] == old(data[..pos]) && data[pos + 9..] == old(data[pos + 9..])
  {
    var v1 := value / 256;
    var v2 := v1 / 256;
    var v3 := v2 / 256;
    var v4 := v3 / 256;
    var v5 := v4 / 256;
    var v6 := v5 / 256;
    var v7 := v6 / 256;
    data[pos] := 0xfe;
    data[pos + 1], data[pos + 2], data[pos + 3], data[pos + 4] := value % 256, v1 % 256, v2 % 256, v3 % 256;
    data[pos + 5], data[pos + 6], data[pos + 7], data[pos + 8] := v4 % 256, v5 % 256, v6 % 256, v7 % 256;
    LeUnfold(v7, 0);
    LeUnfold(v6, 1);
    LeUnfold(v5, 2);
    LeUnfold(v4, 3);
    LeUnfold(v3, 4);
    LeUnfold(v2, 5);
    LeUnfold(v1, 6);
    LeUnfold(value, 7);
    assert Le(v4, 4) == [v4 % 256, v5 % 256, v6 % 256, v7 % 256];
    assert Le(value, 8) == [value % 256, v1 % 256, v2 % 256, v3 % 256] + Le(v4, 4);
  }

  datatype IntRead = IntOk(value: nat, pos: nat) | IntFail

  /** Reads an integer at a position; the byte 0xfb alone reads as zero. */
  function ReadInt(data: seq<byte>, pos: nat): IntRead {
    if pos >= |data| then IntFail
    else if data[pos] == 0xfb then IntOk(0, pos + 1)
    else if data[pos] == 0xfc then
      if pos + 2 >= |data| then IntFail else IntOk(FromLe(data[pos + 1..pos + 3]), pos + 3)
    else if data[pos] == 0xfd then
      if pos + 3 >= |data| then IntFail else IntOk(FromLe(data[pos + 1..pos + 4]), pos + 4)
    else if data[pos] == 0xfe then
      if pos + 8 >= |data| then IntFail else IntOk(FromLe(data[pos + 1..pos + 9]), pos + 9)
    else IntOk(data[pos], pos + 1)
  }

  lemma {:induction false} Powers()
    ensures Pow256(2) == 0x1_0000 && Pow256(3) == 0x100_0000 && Pow256(8) == TWO64
  {
    assert Pow256(0) == 1 && Pow256(1) == 256 && Pow256(2) == 0x1_0000;
    assert Pow256(3) == 0x100_0000 && Pow256(4) == 0x1_0000_0000 && Pow256(5) == 0x100_0000_0000;
    assert Pow256(6) == 0x1_0000_0000_0000 && Pow256(7) == 0x100_0000_0000_0000;
  }

  /** Every 64-bit integer is read back, and reading ends where its encoding ends. */
  lemma {:induction false} IntRoundTrip(pre: seq<byte>, value: uint64, post: seq<byte>)
    ensures ReadInt(pre + Encode(value) + post, |pre|) == IntOk(value, |pre| + |Encode(value)|)
  {
    var data, e := pre + Encode(value) + post, Encode(value);
    assert data[|pre|] == e[0];
    Powers();
    if value >= 251 {
      var k := |e| - 1;
      LeRoundTrip(value, k);
      assert data[|pre| + 1..|pre| + 1 + k] == e[1..];
      assert e[1..] == Le(value, k);
    }
  }

  /** An encoding never starts with the byte that stands for NULL. */
  lemma {:induction false} NeverNull(value: uint64)
    ensures Encode(value)[0] != 0xfb
  {}

  datatype StringRead = StringOk(s: seq<byte>, pos: nat) | StringFail | StringPanic

  /** Reads a length and that many bytes. The length is converted to a signed 64-bit int, so lengths
      of 2^63 and more, and ends that overflow, make the slice expression panic; at exactly 2^63 the sum
      wraps around, and the subtraction of 1 wraps it back. */
  function ReadString(data: seq<byte>, pos: nat): StringRead {
    match ReadInt(data, pos)
    case IntFail => StringFail
    case IntOk(len, at) =>
      if at + len > TWO63 then StringPanic
      else if at + len - 1 >= |data| then StringFail
      else StringOk(data[at..at + len], at + len)
  }

  /** A string is read if its length can be read and its bytes are all there; reading fails if they are not,
      and panics exactly if the place of its end, as a number, is beyond 2^63. */
  lemma {:induction false} ReadStringIff(data: seq<byte>, pos: nat)
    requires |data| < TWO63
    ensures var n, r := ReadInt(data, pos), ReadString(data, pos);
      && (r.StringOk? <==> n.IntOk? && n.pos + n.value <= |data|)
      && (r.StringOk? ==> r.pos == n.pos + n.value && n.pos <= r.pos && r.s == data[n.pos..r.pos])
      && (r.StringPanic? <==> n.IntOk? && n.pos + n.value > TWO63)
  {}

  lemma {:induction false} StringRoundTrip(pre: seq<byte>, s: seq<byte>, post: seq<byte>)
    requires |pre| + 9 + |s| < TWO63
    ensures ReadString(pre + Encode(|s|) + s + post, |pre|) == StringOk(s, |pre| + |Encode(|s|)| + |s|)
  {
    var e := Encode(|s|);
    assert pre + e + s + post == pre + e + (s + post);
    IntRoundTrip(pre, |s|, s + post);
    var data, at := pre + e + (s + post), |pre| + |e|;
    assert data[at..at + |s|] == s;
  }
}

/** Rows of NULLs and byte strings. */
module TextRow {
  import opened Wrappers
  import opened Arithmetic
  import opened Bytes
  import opened LenEnc
  import P = Packets
  import opened RowFraming

  datatype Column = Null | Value(bytes: seq<byte>)

  type Row = seq<Column>

  /** The appends a column makes: one for NULL, and one for the length and one for the bytes. */
  function ColumnAppends(c: Column): seq<seq<byte>>
    requires c.Value? ==> |c.bytes| < TWO64
  {
    match c
    case Null => [[0xfb]]
    case Value(b) => [Encode(|b|), b]
  }

  /** The row is short enough for lengths and positions to be machine integers. */
  ghost predicate Sane(row: Row)
    decreases |row|
  {
    row != [] ==> (row[0].Value? ==> |row[0].bytes| < TWO64) && Sane(row[1..])
  }

  function Appends(row: Row): seq<seq<byte>>
    requires Sane(row)
  {
    if row == [] then [] else ColumnAppends(row[0]) + Appends(row[1..])
  }

  function ColumnBytes(c: Column): seq<byte>
    requires c.Value? ==> |c.bytes| < TWO64
  {
    match c
    case Null => [0xfb]
    case Value(b) => Encode(|b|) + b
  }

  function RowBytes(row: Row): seq<byte>
    requires Sane(row)
  {
    if row == [] then [] else ColumnBytes(row[0]) + RowBytes(row[1..])
  }

  lemma {:induction false} SaneParts(a: Row, b: Row)
    ensures Sane(a + b) <==> Sane(a) && Sane(b)
    decreases |a|
  {
    if a == [] {
      assert a + b == b;
    } else {
      SaneParts(a[1..], b);
      assert (a + b)[1..] == a[1..] + b;
    }
  }

  /** The bytes of a row are those of its columns in order: the NULL byte, or the length and the bytes. */
  lemma {:induction false} RowBytesAre(a: Row, b: Row)
    requires Sane(a + b)
    ensures Sane(a) && Sane(b) && RowBytes(a + b) == RowBytes(a) + RowBytes(b)
    ensures a == [Null] ==> RowBytes(a) == [251]
    ensures |a| == 1 && a[0].Value? ==> |a[0].bytes| < TWO64 && RowBytes(a) == Encode(|a[0].bytes|) + a[0].bytes
    decreases |a|
  {
    SaneParts(a, b);
    if a == [] {
      assert a + b == b;
    } else {
      assert (a + b)[1..] == a[1..] + b;
      RowBytesAre(a[1..], b);
      Assoc(ColumnBytes(a[0]), RowBytes(a[1..]), RowBytes(b));
      assert |a| == 1 ==> a[1..] == [] && ColumnBytes(a[0]) + [] == ColumnBytes(a[0]);
    }
  }

  lemma {:induction false} AppendsMakeRow(row: Row)
    requires Sane(row)
    ensures Concat(Appends(row)) == RowBytes(row)
  {
    if row != [] {
      AppendsMakeRow(row[1..]);
      ConcatAppend(ColumnAppends(row[0]), Appends(row[1..]));
      match row[0]
      case Null =>
        var one: seq<seq<byte>> := [[0xfb]];
        assert one[1..] == [];
      case Value(b) =>
        var two: seq<seq<byte>> := [Encode(|b|), b];
        assert two[1..] == [b] && two[1..][1..] == [];
        assert b + [] == b;
    }
  }

  datatype RowRead = RowOk(row: Row, pos: nat) | RowFail

  /** A client's reading of n columns from a position on. */
  function DecodeColumns(data: seq<byte>, pos: nat, n: nat): RowRead
    decreases n
  {
    if n == 0 then RowOk([], pos)
    else if pos < |data| && data[pos] == 0xfb then
      match DecodeColumns(data, pos + 1, n - 1)
      case RowFail => RowFail
      case RowOk(row, end) => RowOk([Null] + row, end)
    else
      match ReadString(data, pos)
      case StringFail => RowFail
      case StringPanic => RowFail
      case StringOk(s, next) =>
        match DecodeColumns(data, next, n - 1)
        case RowFail => RowFail
        case RowOk(row, end) => RowOk([Value(s)] + row, end)
  }

  lemma {:induction false} DecodeNull(data: seq<byte>, pos: nat, row: Row, end: nat)
    requires pos < |data| && data[pos] == 0xfb
    requires DecodeColumns(data, pos + 1, |row|) == RowOk(row, end)
    ensures DecodeColumns(data, pos, |row| + 1) == RowOk([Null] + row, end)
  {}

  lemma {:induction false} DecodeValue(data: seq<byte>, pos: nat, s: seq<byte>, next: nat, row: Row, end: nat)
    requires pos < |data| && data[pos] != 0xfb && ReadString(data, pos) == StringOk(s, next)
    requires DecodeColumns(data, next, |row|) == RowOk(row, end)
    ensures DecodeColumns(data, pos, |row| + 1) == RowOk([Value(s)] + row, end)
  {}

  /** `s` stands in the data at a position. */
  ghost predicate Holds(data: seq<byte>, pos: nat, s: seq<byte>) {
    pos <= |data| && s <= data[pos..]
  }

  lemma {:induction false} HoldsBoth(data: seq<byte>, pos: nat, a: seq<byte>, b: seq<byte>)
    requires Holds(data, pos, a + b)
    ensures Holds(data, pos, a) && Holds(data, pos + |a|, b)
  {
    forall j | 0 <= j < |b|
      ensures b[j] == data[pos + |a|..][j]
    {
      assert (a + b)[|a| + j] == data[pos..][|a| + j];
    }
  }

  /** Any row, anywhere in the data, decodes to itself. */
  lemma {:induction false} RowRoundTrip(data: seq<byte>, pos: nat, row: Row)
    requires Sane(row) && Holds(data, pos, RowBytes(row)) && |data| + 9 < TWO63
    ensures DecodeColumns(data, pos, |row|) == RowOk(row, pos + |RowBytes(row)|)
    decreases |row|
  {
    if row != [] {
      var next := pos + |ColumnBytes(row[0])|;
      HoldsRow(data, pos, row);
      RowRoundTrip(data, next, row[1..]);
      ColumnStep(data, pos, row, next, next + |RowBytes(row[1..])|);
    }
  }

  lemma {:induction false} HoldsRow(data: seq<byte>, pos: nat, row: Row)
    requires Sane(row) && row != [] && Holds(data, pos, RowBytes(row))
    ensures |RowBytes(row)| == |ColumnBytes(row[0])| + |RowBytes(row[1..])|
    ensures Holds(data, pos, ColumnBytes(row[0]))
    ensures Holds(data, pos + |ColumnBytes(row[0])|, RowBytes(row[1..]))
  {
    HoldsBoth(data, pos, ColumnBytes(row[0]), RowBytes(row[1..]));
  }

  lemma {:induction false} ColumnStep(data: seq<byte>, pos: nat, row: Row, next: nat, end: nat)
    requires row != [] && Sane(row) && |data| + 9 < TWO63
    requires Holds(data, pos, ColumnBytes(row[0])) && next == pos + |ColumnBytes(row[0])|
    requires DecodeColumns(data, next, |row[1..]|) == RowOk(row[1..], end)
    ensures DecodeColumns(data, pos, |row|) == RowOk(row, end)
  {
    var c := row[0];
    ColumnFront(data, pos, c);
    assert [c] + row[1..] == row;
    if c.Null? {
      DecodeNull(data, pos, row[1..], end);
    } else {
      DecodeValue(data, pos, c.bytes, next, row[1..], end);
    }
  }

  /** A column at a position is recognised for what it is, and ends where it should. */
  lemma {:induction false} ColumnFront(data: seq<byte>, pos: nat, c: Column)
    requires c.Value? ==> |c.bytes| < TWO64
    requires Holds(data, pos, ColumnBytes(c)) && |data| + 9 < TWO63
    ensures pos < |data|
    ensures data[pos] == 0xfb <==> c == Null
    ensures c.Value? ==> ReadString(data, pos) == StringOk(c.bytes, pos + |ColumnBytes(c)|)
  {
    var cb := ColumnBytes(c);
    var pre, post := data[..pos], data[pos + |cb|..];
    assert data == pre + cb + post;
    assert data[pos] == data[pos..][0] == cb[0];
    if c.Value? {
      NeverNull(|c.bytes|);
      Assoc(pre, Encode(|c.bytes|), c.bytes);
      StringRoundTrip(pre, c.bytes, post);
    }
  }

  /** Rows with the same number of columns and the same bytes are equal. */
  lemma {:induction false} RowsDistinct(r: Row, s: Row)
    requires Sane(r) && Sane(s) && |r| == |s|
    requires |RowBytes(r)| + 9 < TWO63 && RowBytes(r) == RowBytes(s)
    ensures r == s
  {
    RowRoundTrip(RowBytes(r), 0, r);
    RowRoundTrip(RowBytes(s), 0, s);
  }

  /** A row sent through the buffered writer reaches the client as one payload, which decodes to the
      row, if and only if no prefix of whole appends inside it has a multiple of m as its length. */
  lemma {:induction false} RowDelivered(m: nat, row: Row, id: byte)
    requires m > 0 && Sane(row) && row != [] && |RowBytes(row)| + 9 < TWO63
    ensures var got := P.JoinAll(m, SendRow(m, Out([], None, id), Appends(row)).done);
      && got.1 == []
      && (got.0 == [RowBytes(row)] <==> NoInnerMultiple(m, Appends(row), []))
      && DecodeColumns(RowBytes(row), 0, |row|) == RowOk(row, |RowBytes(row)|)
  {
    AppendsMakeRow(row);
    assert RowBytes(row) != [];
    ClientGetsSegments(m, Appends(row), id);
    OneSegment(m, Appends(row), []);
    assert [] + RowBytes(row) == RowBytes(row);
    RowRoundTrip(RowBytes(row), 0, row);
  }

  /** A column that fills its packets, with a NULL behind it: the row is not delivered as one payload. */
  lemma {:induction false} FullColumnCutsRow(m: nat, b: seq<byte>, id: byte)
    requires m > 0 && |b| < TWO64 && |ColumnBytes(Value(b))| == m && m + 10 < TWO63
    ensures var row := [Value(b), Null];
      Sane(row) && P.JoinAll(m, SendRow(m, Out([], None, id), Appends(row)).done).0 != [RowBytes(row)]
  {
    var row: Row := [Value(b), Null];
    assert row[1..] == [Null] && row[1..][1..] == [];
    assert Sane(row[1..]) && RowBytes(row[1..]) == [0xfb] + [];
    assert Appends(row[1..][1..]) == [] && Appends(row[1..]) == [[0xfb]];
    assert Appends(row) == [Encode(|b|), b] + [[0xfb]];
    assert Appends(row)[..2] == [Encode(|b|), b];
    assert Concat([Encode(|b|), b][1..]) == b + Concat([]) == b;
    AppendsMakeRow(row);
    MultipleIsMod(m, m);
    assert Multiple(m, 0) && Multiple(m, m);
    assert !PrefixOk(m, Appends(row), [], 2);
    RowDelivered(m, row, id);
  }

  /** At the packet size of the protocol it is a string four bytes shorter than a packet. */
  lemma {:induction false} RowNotDelivered(b: seq<byte>, id: byte)
    requires |b| == P.MAX_PAYLOAD - 4
    ensures var row := [Value(b), Null];
      && Sane(row)
      && P.JoinAll(P.MAX_PAYLOAD, SendRow(P.MAX_PAYLOAD, Out([], None, id), Appends(row)).done).0 != [RowBytes(row)]
  {
    FullColumnCutsRow(P.MAX_PAYLOAD, b, id);
  }

  /** In particular every row shorter than m is delivered. */
  lemma {:induction false} ShortRowDelivered(m: nat, row: Row, id: byte)
    requires m > 0 && Sane(row) && row != [] && |RowBytes(row)| < m && |RowBytes(row)| + 9 < TWO63
    ensures P.JoinAll(m, SendRow(m, Out([], None, id), Appends(row)).done) == ([RowBytes(row)], [])
  {
    AppendsMakeRow(row);
    forall k | 0 <= k <= |Appends(row)|
      ensures PrefixOk(m, Appends(row), [], k)
    {
      if |Concat(Appends(row)[..k])| < m {
        ModSmall(|Concat(Appends(row)[..k])|, m);
      }
    }
    RowDelivered(m, row, id);
  }
}
