/** Splitting exported rows over files, from `pkg/frontend/export.go`, with the header off. */
module CsvExport {
  import opened Bytes

  const QUOTE: byte := 34

  /** A column of a row: its text, whether it is enclosed, and the separator or line end behind it. */
  datatype Field = Field(text: seq<byte>, enclosed: bool, symbol: seq<byte>)

  function FieldText(f: Field, enclosedBy: byte): seq<byte> {
    if f.enclosed then [enclosedBy] + f.text + [enclosedBy] + f.symbol else f.text + f.symbol
  }

  function RowText(row: seq<Field>, enclosedBy: byte): seq<byte> {
    if row == [] then [] else RowText(row[..|row| - 1], enclosedBy) + FieldText(row[|row| - 1], enclosedBy)
  }

  function RowTexts(rows: seq<seq<Field>>, enclosedBy: byte): seq<seq<byte>> {
    seq(|rows|, i requires 0 <= i < |rows| => RowText(rows[i], enclosedBy))
  }

  /** All rows of all groups, in order. */
  ghost function Flat(groups: seq<seq<seq<byte>>>): seq<seq<byte>> {
    if groups == [] then [] else Flat(groups[..|groups| - 1]) + groups[|groups| - 1]
  }

  /** Each file is made of the whole rows of its group. */
  ghost predicate Whole(files: seq<seq<byte>>, groups: seq<seq<seq<byte>>>) {
    if files == [] then groups == []
    else
      && groups != [] && files[|files| - 1] == Concat(groups[|groups| - 1])
      && Whole(files[..|files| - 1], groups[..|groups| - 1])
  }

  /** Each file is made of whole rows, and all files together of all rows in order. */
  ghost predicate Holds(files: seq<seq<byte>>, rows: seq<seq<byte>>) {
    exists groups :: Whole(files, groups) && Flat(groups) == rows
  }

  /** Behind its finished rows the current file holds the unfinished line. */
  ghost predicate Laid(closed: seq<seq<byte>>, groups: seq<seq<seq<byte>>>, current: seq<byte>, here: seq<seq<byte>>,
                       line: seq<byte>) {
    Whole(closed, groups) && current == Concat(here) + line
  }

  ghost function AllRows(groups: seq<seq<seq<byte>>>, here: seq<seq<byte>>): seq<seq<byte>> {
    Flat(groups) + here
  }

  /** The line moved to a new file. */
  lemma {:induction false} Switched(closed: seq<seq<byte>>, groups: seq<seq<seq<byte>>>, current: seq<byte>,
                                    here: seq<seq<byte>>, line: seq<byte>)
    requires Laid(closed, groups, current, here, line)
    ensures Laid(closed + [Concat(here)], groups + [here], line, [], line)
    ensures AllRows(groups + [here], []) == AllRows(groups, here)
  {}

  class Exporter {
    const maxFileSize: nat
    const enclosedBy: byte
    /** Whether the n-th file can be created. */
    const canOpen: nat -> bool
    var closed: seq<seq<byte>>
    /** What the current file holds, and what still waits in the writer's buffer. */
    var file: seq<byte>
    var buffered: seq<byte>
    var curFileSize: nat
    var lineSize: nat
    var rows: nat
    var fileCnt: nat
    var outputStr: seq<byte>
    /** The rows of the closed files, those finished in the current file, and the unfinished line. */
    ghost var groups: seq<seq<seq<byte>>>
    ghost var here: seq<seq<byte>>
    ghost var line: seq<byte>

    function Current(): seq<byte>
      reads this
    {
      file + buffered
    }

    /** All finished rows. */
    ghost function Finished(): seq<seq<byte>>
      reads this
    {
      AllRows(groups, here)
    }

    ghost predicate Valid()
      reads this
    {
      Laid(closed, groups, Current(), here, line) && curFileSize == |Current()| && (rows == 0 ==> here == [])
    }

    /** So many bytes of one row can be exported. */
    ghost predicate Fits(n: nat)
      reads this
    {
      maxFileSize == 0 || (n <= maxFileSize && forall k :: canOpen(k))
    }

    /** Inside a row. */
    ghost predicate Writing()
      reads this
    {
      Valid() && lineSize == |line|
    }

    constructor (maxFileSize: nat, enclosedBy: byte, canOpen: nat -> bool)
      ensures Valid() && line == [] && Finished() == [] && closed == [] && fileCnt == 0 && rows == 0
      ensures this.maxFileSize == maxFileSize && this.enclosedBy == enclosedBy && this.canOpen == canOpen
    {
      this.maxFileSize, this.enclosedBy, this.canOpen := maxFileSize, enclosedBy, canOpen;
      closed, file, buffered, outputStr := [], [], [], [];
      curFileSize, lineSize, rows, fileCnt := 0, 0, 0, 0;
      groups, here, line := [], [], [];
    }

    /** The buffered writer takes the bytes and passes some of what it holds on to the file. */
    method WriteData(output: seq<byte>)
      modifies this`file, this`buffered, this`lineSize, this`curFileSize
      ensures Current() == old(Current()) + output
      ensures lineSize == old(lineSize) + |output| && curFileSize == old(curFileSize) + |output|
    {
      buffered := buffered + output;
      var n :| 0 <= n <= |buffered|;
      file, buffered := file + buffered[..n], buffered[n..];
      lineSize, curFileSize := lineSize + |output|, curFileSize + |output|;
    }

    predicate Over(output: seq<byte>)
      reads this
    {
      maxFileSize != 0 && curFileSize + |output| > maxFileSize
    }

    /** Writes a piece of the line, in a new file together with the rest of the line when the current
        one would grow beyond the limit. */
    method Put(output: seq<byte>) returns (ok: bool)
      requires Writing()
      modifies this
      ensures ok <==>
        (maxFileSize != 0 && old(curFileSize) + |output| > maxFileSize ==> old(rows) > 0 && canOpen(old(fileCnt) + 1))
      ensures Fits(|old(line)| + |output|) ==> ok
      ensures ok ==> Writing() && line == old(line) + output && Finished() == old(Finished())
      ensures ok ==> fileCnt - |closed| == old(fileCnt - |closed|)
      ensures ok && !(maxFileSize != 0 && old(curFileSize) + |output| > maxFileSize) ==>
        unchanged(`closed) && unchanged(`rows)
      ensures ok && maxFileSize != 0 && old(curFileSize) + |output| > maxFileSize ==>
        && closed == old(closed) + [old(Concat(here))] && Current() == line
        && rows == if old(lineSize) != 0 then 0 else old(rows)
    {
      if Over(output) {
        if rows == 0 {
          return false;
        }
        ok := SwitchFile();
        if !ok {
          return;
        }
      }
      WriteData(output);
      line := line + output;
      ok := true;
    }

    method FormatField(f: Field) returns (ok: bool)
      requires Writing()
      modifies this
      ensures ok ==> Writing() && line == old(line) + FieldText(f, enclosedBy) && Finished() == old(Finished())
      ensures Fits(|old(line)| + |FieldText(f, enclosedBy)|) ==> ok
      ensures ok ==> fileCnt - |closed| == old(fileCnt - |closed|)
    {
      ghost var l := line;
      if f.enclosed {
        ok := Put([enclosedBy]);
        if !ok { return; }
      }
      ok := Put(f.text);
      if !ok { return; }
      if f.enclosed {
        ok := Put([enclosedBy]);
        if !ok { return; }
      }
      ok := Put(f.symbol);
      FieldParts(l, f, enclosedBy);
    }

    /** Exports one row. */
    method ExportRow(row: seq<Field>) returns (ok: bool)
      requires Valid() && line == []
      modifies this
      ensures ok ==> Valid() && line == [] && Finished() == old(Finished()) + [RowText(row, enclosedBy)]
      ensures Fits(|RowText(row, enclosedBy)|) ==> ok
      ensures ok ==> fileCnt - |closed| == old(fileCnt - |closed|)
    {
      lineSize := 0;
      for i := 0 to |row|
        invariant Writing() && line == RowText(row[..i], enclosedBy) && Finished() == old(Finished())
        invariant fileCnt - |closed| == old(fileCnt - |closed|)
      {
        assert row[..i + 1][..i] == row[..i];
        RowPrefix(row, i + 1, enclosedBy);
        ok := FormatField(row[i]);
        if !ok { return; }
      }
      assert row[..|row|] == row;
      rows := rows + 1;
      RowFinished(closed, groups, Current(), here, line);
      here, line := here + [line], [];
      ok := true;
    }

    /** After any number of rows, the files in order hold all rows in order, and every row lies in one
        file. */
    method ExportAll(table: seq<seq<Field>>) returns (ok: bool)
      requires Valid() && line == [] && Finished() == []
      modifies this
      ensures ok ==> Holds(closed + [Current()], RowTexts(table, enclosedBy))
      ensures ok ==> Concat(closed + [Current()]) == Concat(RowTexts(table, enclosedBy))
      ensures (forall i :: 0 <= i < |table| ==> Fits(|RowText(table[i], enclosedBy)|)) ==> ok
      ensures ok ==> fileCnt - |closed| == old(fileCnt - |closed|)
    {
      for i := 0 to |table|
        invariant Valid() && line == [] && Finished() == RowTexts(table[..i], enclosedBy)
        invariant fileCnt - |closed| == old(fileCnt - |closed|)
      {
        ok := ExportRow(table[i]);
        if !ok { return; }
        RowTextsSnoc(table, i, enclosedBy);
      }
      assert table[..|table|] == table;
      LaidHolds(closed, groups, Current(), here);
      ok := true;
    }

    /** Closes the current file without the unfinished line, and starts a new one with that line. */
    method SwitchFile() returns (ok: bool)
      requires Writing()
      modifies this
      ensures ok <==> canOpen(old(fileCnt) + 1)
      ensures ok ==> Writing() && line == old(line) && Current() == line && Finished() == old(Finished())
      ensures ok ==> closed == old(closed) + [old(Concat(here))] && fileCnt == old(fileCnt) + 1
      ensures ok ==> rows == if old(lineSize) != 0 then 0 else old(rows)
    {
      fileCnt := fileCnt + 1;
      CloseFile();
      Switched(old(closed), groups, old(Current()), here, line);
      groups, here := groups + [here], [];
      ok := OpenNew(line);
    }

    /** Takes the unfinished line off the current file, and closes it. */
    method CloseFile()
      requires Writing()
      modifies this`file, this`buffered, this`outputStr, this`closed
      ensures closed == old(closed) + [Concat(here)]
      ensures lineSize != 0 ==> outputStr == line
    {
      ghost var done := Concat(here);
      CutLine(Current(), done, line);
      file, buffered := file + buffered, [];
      if lineSize != 0 {
        outputStr := file[curFileSize - lineSize..];
        file := file[..curFileSize - lineSize];
      } else {
        assert done + line == done;
      }
      closed := closed + [file];
    }

    /** Opens the next file and writes the unfinished line into it. */
    method OpenNew(ghost line: seq<byte>) returns (ok: bool)
      requires lineSize == |line| && (lineSize != 0 ==> outputStr == line)
      modifies this`file, this`buffered, this`curFileSize, this`lineSize, this`rows
      ensures ok <==> canOpen(fileCnt)
      ensures ok ==> Current() == line && curFileSize == lineSize == |line|
      ensures ok ==> rows == if old(lineSize) != 0 then 0 else old(rows)
    {
      var pending := lineSize;
      curFileSize := 0;
      if !canOpen(fileCnt) {
        return false;
      }
      file, buffered := [], [];
      if pending != 0 {
        lineSize, rows := 0, 0;
        WriteData(outputStr);
      }
      ok := true;
    }
  }

  lemma {:induction false} CutLine(current: seq<byte>, done: seq<byte>, line: seq<byte>)
    requires current == done + line
    ensures current[..|current| - |line|] == done && current[|current| - |line|..] == line
  {}

  lemma {:induction false} FlatSnoc(groups: seq<seq<seq<byte>>>, g: seq<seq<byte>>)
    ensures Flat(groups + [g]) == Flat(groups) + g
  {}

  lemma {:induction false} WholeSnoc(files: seq<seq<byte>>, groups: seq<seq<seq<byte>>>, g: seq<seq<byte>>)
    requires Whole(files, groups)
    ensures Whole(files + [Concat(g)], groups + [g])
  {}

  lemma {:induction false} FieldParts(l: seq<byte>, f: Field, enclosedBy: byte)
    ensures f.enclosed ==> l + [enclosedBy] + f.text + [enclosedBy] + f.symbol == l + FieldText(f, enclosedBy)
    ensures !f.enclosed ==> l + f.text + f.symbol == l + FieldText(f, enclosedBy)
  {}

  lemma {:induction false} RowTextsSnoc(table: seq<seq<Field>>, i: nat, enclosedBy: byte)
    requires i < |table|
    ensures RowTexts(table[..i + 1], enclosedBy) == RowTexts(table[..i], enclosedBy) + [RowText(table[i], enclosedBy)]
  {}

  lemma {:induction false} RowFinished(closed: seq<seq<byte>>, groups: seq<seq<seq<byte>>>, current: seq<byte>,
                                       here: seq<seq<byte>>, line: seq<byte>)
    requires Laid(closed, groups, current, here, line)
    ensures Laid(closed, groups, current, here + [line], [])
    ensures AllRows(groups, here + [line]) == AllRows(groups, here) + [line]
  {
    ConcatAppend(here, [line]);
    assert Concat([line]) == line + [] == line;
    assert Concat(here + [line]) + [] == Concat(here + [line]);
  }

  lemma {:induction false} LaidHolds(closed: seq<seq<byte>>, groups: seq<seq<seq<byte>>>, current: seq<byte>,
                                     here: seq<seq<byte>>)
    requires Laid(closed, groups, current, here, [])
    ensures Holds(closed + [current], AllRows(groups, here))
    ensures Concat(closed + [current]) == Concat(AllRows(groups, here))
  {
    assert current == Concat(here) by {
      assert Concat(here) + [] == Concat(here);
    }
    WholeSnoc(closed, groups, here);
    FlatSnoc(groups, here);
    assert Whole(closed + [current], groups + [here]) && Flat(groups + [here]) == AllRows(groups, here);
    WholeConcat(closed + [current], groups + [here]);
  }

  /** Files of whole rows hold, one after the other, all rows. */
  lemma {:induction false} WholeConcat(files: seq<seq<byte>>, groups: seq<seq<seq<byte>>>)
    requires Whole(files, groups)
    ensures Concat(files) == Concat(Flat(groups))
    decreases |files|
  {
    if files != [] {
      var n, m := |files| - 1, |groups| - 1;
      WholeConcat(files[..n], groups[..m]);
      assert files == files[..n] + [files[n]] && groups == groups[..m] + [groups[m]];
      ConcatAppend(files[..n], [files[n]]);
      assert Concat([files[n]]) == files[n] + [] == files[n];
      ConcatAppend(Flat(groups[..m]), groups[m]);
    }
  }

  lemma {:induction false} RowPrefix(row: seq<Field>, i: nat, enclosedBy: byte)
    requires i <= |row|
    ensures |RowText(row[..i], enclosedBy)| <= |RowText(row, enclosedBy)|
    decreases |row|
  {
    if i == |row| {
      assert row[..i] == row;
    } else {
      RowPrefix(row[..|row| - 1], i, enclosedBy);
      assert row[..|row| - 1][..i] == row[..i];
    }
  }

  // ---- Quotes inside strings ----

  function EscapedByte(b: byte): seq<byte> {
    if b == QUOTE then [QUOTE, QUOTE] else [b]
  }

  /** Every quote is doubled. */
  function Escaped(s: seq<byte>): seq<byte> {
    if s == [] then [] else EscapedByte(s[0]) + Escaped(s[1..])
  }

  datatype Quoted = Quoted(text: seq<byte>, rest: seq<byte>) | Unclosed

  /** What a reader makes of the bytes behind the opening byte e: two of them stand for one, and one
      alone closes the text. */
  function ReadQuoted(t: seq<byte>, e: byte): Quoted {
    if t == [] then Unclosed
    else if t[0] != e then Longer(t[0], ReadQuoted(t[1..], e))
    else if |t| > 1 && t[1] == e then Longer(e, ReadQuoted(t[2..], e))
    else Quoted([], t[1..])
  }

  function Longer(b: byte, q: Quoted): Quoted {
    if q.Unclosed? then q else q.(text := [b] + q.text)
  }

  /** An escaped string in quotes is read back, up to its closing quote. */
  lemma {:induction false} QuotedReadsBack(s: seq<byte>, rest: seq<byte>)
    requires rest == [] || rest[0] != QUOTE
    ensures ReadQuoted(Escaped(s) + [QUOTE] + rest, QUOTE) == Quoted(s, rest)
    decreases |s|
  {
    if s == [] {
      assert (Escaped(s) + [QUOTE] + rest)[1..] == rest;
    } else {
      QuotedReadsBack(s[1..], rest);
      var tail := Escaped(s[1..]) + [QUOTE] + rest;
      ReadByte(s[0], tail);
      assert Escaped(s) + [QUOTE] + rest == EscapedByte(s[0]) + tail;
      assert [s[0]] + s[1..] == s;
    }
  }

  lemma {:induction false} ReadByte(b: byte, tail: seq<byte>)
    ensures ReadQuoted(EscapedByte(b) + tail, QUOTE) == Longer(b, ReadQuoted(tail, QUOTE))
  {}

  ghost function Count(s: seq<byte>, e: byte): nat {
    if s == [] then 0 else (if s[0] == e then 1 else 0) + Count(s[1..], e)
  }

  lemma {:induction false} CountAppend(a: seq<byte>, b: seq<byte>, e: byte)
    ensures Count(a + b, e) == Count(a, e) + Count(b, e)
  {
    if a == [] {
      assert a + b == b;
    } else {
      CountAppend(a[1..], b, e);
      assert (a + b)[1..] == a[1..] + b;
    }
  }

  lemma {:induction false} CountNone(s: seq<byte>, e: byte)
    ensures Count(s, e) == 0 <==> e !in s
  {
    if s != [] {
      CountNone(s[1..], e);
    }
  }

  /** Reading halves the closing bytes, but for the last. */
  lemma {:induction false} ReadCounts(t: seq<byte>, e: byte)
    ensures var q := ReadQuoted(t, e);
      q.Quoted? ==> Count(t, e) == 2 * Count(q.text, e) + 1 + Count(q.rest, e)
    decreases |t|
  {
    if t != [] {
      var skip := if t[0] == e && |t| > 1 && t[1] == e then 2 else 1;
      ReadCounts(t[skip..], e);
      assert |t| > 1 ==> t[1..][1..] == t[2..];
    }
  }

  lemma {:induction false} CountEscaped(s: seq<byte>, e: byte)
    ensures e != QUOTE ==> Count(Escaped(s), e) == Count(s, e)
    ensures |Escaped(s)| == |s| + Count(s, QUOTE)
  {
    if s != [] {
      CountEscaped(s[1..], e);
      CountAppend(EscapedByte(s[0]), Escaped(s[1..]), e);
      assert s[0] != QUOTE ==> [s[0]][1..] == [];
      assert [QUOTE, QUOTE][1..] == [QUOTE] && [QUOTE][1..] == [];
    }
  }

  lemma {:induction false} ReadPlain(t: seq<byte>, e: byte, rest: seq<byte>)
    requires e !in t && (rest == [] || rest[0] != e)
    ensures ReadQuoted(t + [e] + rest, e) == Quoted(t, rest)
  {
    if t == [] {
      assert (t + [e] + rest)[1..] == rest;
    } else {
      ReadPlain(t[1..], e, rest);
      assert (t + [e] + rest)[1..] == t[1..] + [e] + rest;
      assert [t[0]] + t[1..] == t;
    }
  }

  /** A string field as it is exported, read behind its opening byte, gives the string and the symbol
      that follows if and only if fields are enclosed in quotes, or the string has neither the enclosing
      byte nor a quote: only quotes are escaped, whatever encloses the field. */
  lemma {:induction false} FieldReadsBackIff(s: seq<byte>, symbol: seq<byte>, e: byte)
    requires symbol == [] || symbol[0] != e
    ensures ReadQuoted(FieldText(Field(Escaped(s), true, symbol), e)[1..], e) == Quoted(s, symbol)
      <==> e == QUOTE || (e !in s && QUOTE !in s)
  {
    var t := Escaped(s) + [e] + symbol;
    assert FieldText(Field(Escaped(s), true, symbol), e)[1..] == t;
    if e == QUOTE {
      QuotedReadsBack(s, symbol);
    } else {
      CountEscaped(s, e);
      CountNone(s, e);
      CountNone(s, QUOTE);
      CountNone(Escaped(s), e);
      if e !in s {
        ReadPlain(Escaped(s), e, symbol);
        if QUOTE !in s {
          EscapedPlain(s);
        }
      } else {
        ReadCounts(t, e);
        CountAppend(Escaped(s) + [e], symbol, e);
        CountAppend(Escaped(s), [e], e);
        assert [e][1..] == [];
      }
    }
  }

  /** pos lists the places of all quotes among the first n bytes. */
  ghost predicate Places(s: seq<byte>, n: nat, pos: seq<nat>)
    requires n <= |s|
    decreases |pos|
  {
    if pos == [] then QUOTE !in s[..n]
    else
      var last := pos[|pos| - 1];
      last < n && s[last] == QUOTE && QUOTE !in s[last + 1..n] && Places(s, last, pos[..|pos| - 1])
  }

  lemma {:induction false} PlaceAt(s: seq<byte>, n: nat, pos: seq<nat>, i: nat)
    requires n <= |s| && Places(s, n, pos) && i < |pos|
    ensures pos[i] < n && s[pos[i]] == QUOTE && Places(s, pos[i], pos[..i])
    ensures i > 0 ==> pos[i - 1] < pos[i]
    decreases |pos|
  {
    var m := |pos| - 1;
    if i < m {
      PlaceAt(s, pos[m], pos[..m], i);
      assert pos[..m][..i] == pos[..i];
    }
  }

  /** Adds a quote in front of every quote. */
  method AddEscape(s: seq<byte>) returns (r: seq<byte>)
    ensures r == Escaped(s)
  {
    var pos := FindQuotes(s);
    assert s[..|s|] == s;
    if |pos| == 0 {
      EscapedPlain(s);
      return s;
    }
    r := [];
    var cur := 0;
    for i := 0 to |pos|
      invariant cur == (if i == 0 then 0 else pos[i - 1]) && cur <= |s|
      invariant r == if i == 0 then [] else Escaped(s[..cur]) + [QUOTE]
    {
      PlaceAt(s, |s|, pos, i);
      EscapedGap(s, pos[..i], pos[i]);
      r := r + s[cur..pos[i]] + [QUOTE];
      cur := pos[i];
    }
    EscapedGap(s, pos, |s|);
    r := r + s[cur..];
  }

  method FindQuotes(s: seq<byte>) returns (pos: seq<nat>)
    ensures Places(s, |s|, pos)
  {
    pos := [];
    for i := 0 to |s|
      invariant Places(s, i, pos)
    {
      if s[i] == QUOTE {
        assert (pos + [i])[..|pos|] == pos;
        pos := pos + [i];
      } else {
        OneMore(s, i, pos);
      }
    }
  }

  lemma {:induction false} OneMore(s: seq<byte>, i: nat, pos: seq<nat>)
    requires i < |s| && Places(s, i, pos) && s[i] != QUOTE
    ensures Places(s, i + 1, pos)
  {}

  /** The escaped text up to the next quote, from the escaped text up to the quote before. */
  lemma {:induction false} EscapedGap(s: seq<byte>, pos: seq<nat>, n: nat)
    requires n <= |s| && Places(s, n, pos)
    ensures pos == [] ==> Escaped(s[..n]) == s[0..n]
    ensures pos != [] ==>
      var last := pos[|pos| - 1];
      last <= n && Escaped(s[..n]) == Escaped(s[..last]) + [QUOTE] + s[last..n]
  {
    if pos == [] {
      EscapedPlain(s[..n]);
    } else {
      var last := pos[|pos| - 1];
      EscapedNext(s[..last], s[last + 1..n]);
      assert s[last..n] == [QUOTE] + s[last + 1..n];
      assert s[..n] == s[..last] + s[last..n];
    }
  }

  lemma {:induction false} EscapedNext(front: seq<byte>, gap: seq<byte>)
    requires QUOTE !in gap
    ensures Escaped(front + ([QUOTE] + gap)) == Escaped(front) + [QUOTE] + ([QUOTE] + gap)
  {
    EscapedAppend(front, [QUOTE] + gap);
    EscapedPlain(gap);
    assert ([QUOTE] + gap)[1..] == gap;
    assert Escaped([QUOTE] + gap) == [QUOTE] + ([QUOTE] + gap);
    Assoc(Escaped(front), [QUOTE], [QUOTE] + gap);
  }

  lemma {:induction false} EscapedPlain(s: seq<byte>)
    requires QUOTE !in s
    ensures Escaped(s) == s
  {
    if s != [] {
      EscapedPlain(s[1..]);
      assert [s[0]] + s[1..] == s;
    }
  }

  lemma {:induction false} EscapedAppend(a: seq<byte>, b: seq<byte>)
    ensures Escaped(a + b) == Escaped(a) + Escaped(b)
  {
    if a == [] {
      assert a + b == b;
    } else {
      EscapedAppend(a[1..], b);
      assert (a + b)[1..] == a[1..] + b;
      Assoc(EscapedByte(a[0]), Escaped(a[1..]), Escaped(b));
    }
  }
}
