/** What a reader makes of exported rows. */
module CsvReading {
  import opened Wrappers
  import opened Bytes
  import opened CsvExport

  // ---- Rows and files ----

  /** The text of a row is that of its fields in order. */
  lemma {:induction false} RowTextAppend(a: seq<Field>, b: seq<Field>, e: byte)
    ensures RowText(a + b, e) == RowText(a, e) + RowText(b, e)
    decreases |b|
  {
    if b == [] {
      assert a + b == a;
    } else {
      var n := |b| - 1;
      RowTextAppend(a, b[..n], e);
      assert (a + b)[..|a + b| - 1] == a + b[..n] && (a + b)[|a + b| - 1] == b[n];
      Assoc(RowText(a, e), RowText(b[..n], e), FieldText(b[n], e));
    }
  }

  /** The text of one field: the text, enclosed if it is to be, and what separates it from the next. */
  lemma {:induction false} RowTextOne(f: Field, e: byte)
    ensures f.enclosed ==> RowText([f], e) == [e] + f.text + [e] + f.symbol
    ensures !f.enclosed ==> RowText([f], e) == f.text + f.symbol
  {
    assert [f][..0] == [];
    assert [] + FieldText(f, e) == FieldText(f, e);
  }

  /** Between which rows the files are cut: each file holds the rows from one cut to the next. */
  ghost predicate CutAt(files: seq<seq<byte>>, rows: seq<seq<byte>>, cuts: seq<nat>) {
    && |cuts| == |files| + 1 && cuts[0] == 0 && cuts[|files|] == |rows|
    && (forall i :: 0 <= i <= |files| ==> cuts[i] <= |rows|)
    && forall i :: 0 <= i < |files| ==> cuts[i] <= cuts[i + 1] && files[i] == Concat(rows[cuts[i]..cuts[i + 1]])
  }

  lemma {:induction false} WholeCuts(files: seq<seq<byte>>, groups: seq<seq<seq<byte>>>) returns (cuts: seq<nat>)
    requires Whole(files, groups)
    ensures CutAt(files, Flat(groups), cuts)
    decreases |files|
  {
    if files == [] {
      cuts := [0];
    } else {
      var n, g := |files| - 1, groups[|groups| - 1];
      var fs, rows := files[..n], Flat(groups[..|groups| - 1]);
      var before := WholeCuts(fs, groups[..|groups| - 1]);
      cuts := before + [|rows| + |g|];
      forall i | 0 <= i < |files|
        ensures cuts[i] <= cuts[i + 1] && files[i] == Concat((rows + g)[cuts[i]..cuts[i + 1]])
      {
        if i < n {
          assert (rows + g)[cuts[i]..cuts[i + 1]] == rows[before[i]..before[i + 1]] && files[i] == fs[i];
        } else {
          assert (rows + g)[|rows|..|rows| + |g|] == g;
        }
      }
    }
  }

  /** Files that hold rows are cut between rows. */
  lemma {:induction false} HoldsCuts(files: seq<seq<byte>>, rows: seq<seq<byte>>) returns (cuts: seq<nat>)
    requires Holds(files, rows)
    ensures CutAt(files, rows, cuts)
  {
    var groups :| Whole(files, groups) && Flat(groups) == rows;
    cuts := WholeCuts(files, groups);
  }

  // ---- Reading back ----

  datatype RowRead = RowRead(columns: seq<seq<byte>>, rest: seq<byte>) | BadRow

  /** Reads one enclosed field for each symbol, which must follow it. */
  function ReadRow(t: seq<byte>, e: byte, symbols: seq<seq<byte>>): RowRead
    decreases |symbols|
  {
    if symbols == [] then RowRead([], t)
    else if t == [] || t[0] != e then BadRow
    else
      match ReadQuoted(t[1..], e)
      case Unclosed => BadRow
      case Quoted(text, rest) =>
        if !(symbols[0] <= rest) then BadRow
        else
          match ReadRow(rest[|symbols[0]|..], e, symbols[1..])
          case BadRow => BadRow
          case RowRead(columns, rest) => RowRead([text] + columns, rest)
  }

  /** Reads rows to the end. */
  function ReadTable(t: seq<byte>, e: byte, symbols: seq<seq<byte>>): Option<seq<seq<seq<byte>>>>
    decreases |t|
  {
    if t == [] then Some([])
    else
      match ReadRow(t, e, symbols)
      case BadRow => None
      case RowRead(columns, rest) =>
        if |rest| >= |t| then None
        else
          match ReadTable(rest, e, symbols)
          case None => None
          case Some(rows) => Some([columns] + rows)
  }

  /** A row of strings, escaped and enclosed. */
  function StringRow(columns: seq<seq<byte>>, symbols: seq<seq<byte>>): seq<Field>
    requires |columns| == |symbols|
  {
    if columns == [] then []
    else [Field(Escaped(columns[0]), true, symbols[0])] + StringRow(columns[1..], symbols[1..])
  }

  /** The string can be told apart from what encloses it. */
  predicate Clean(e: byte, s: seq<byte>) {
    e == QUOTE || (e !in s && QUOTE !in s)
  }

  /** The symbols do not look like the enclosing byte. */
  predicate Separate(e: byte, symbols: seq<seq<byte>>) {
    forall i :: 0 <= i < |symbols| ==> symbols[i] != [] && symbols[i][0] != e
  }

  ghost predicate AllClean(e: byte, columns: seq<seq<byte>>) {
    forall i :: 0 <= i < |columns| ==> Clean(e, columns[i])
  }

  lemma {:induction false} FirstField(f: Field, row: seq<Field>, e: byte, rest: seq<byte>)
    requires f.enclosed
    ensures RowText([f] + row, e) + rest == [e] + (f.text + [e] + (f.symbol + (RowText(row, e) + rest)))
  {
    RowTextAppend([f], row, e);
    RowTextOne(f, e);
    Assoc([e] + f.text + [e] + f.symbol, RowText(row, e), rest);
    Regroup([e], f.text, f.symbol, RowText(row, e) + rest);
  }

  lemma {:induction false} Regroup(a: seq<byte>, b: seq<byte>, c: seq<byte>, d: seq<byte>)
    ensures (a + b + a + c) + d == a + (b + a + (c + d))
  {
    Assoc(a + b + a, c, d);
    Assoc(a + b, a, c + d);
    Assoc(a, b, a + (c + d));
    Assoc(b, a, c + d);
  }

  /** An exported row of strings reads back to all its columns in order, up to what follows it. */
  lemma {:induction false} RowReadsBack(columns: seq<seq<byte>>, symbols: seq<seq<byte>>, e: byte, rest: seq<byte>)
    requires |columns| == |symbols| && AllClean(e, columns) && Separate(e, symbols)
    ensures ReadRow(RowText(StringRow(columns, symbols), e) + rest, e, symbols) == RowRead(columns, rest)
    decreases |columns|
  {
    if columns == [] {
      assert [] + rest == rest;
    } else {
      var f := Field(Escaped(columns[0]), true, symbols[0]);
      var more := RowText(StringRow(columns[1..], symbols[1..]), e) + rest;
      FirstField(f, StringRow(columns[1..], symbols[1..]), e, rest);
      FieldRead(columns[0], symbols[0] + more, e);
      RowReadsBack(columns[1..], symbols[1..], e, rest);
      RowStep([e] + (f.text + [e] + (symbols[0] + more)), e, symbols, columns[0], more, columns[1..], rest);
      assert [columns[0]] + columns[1..] == columns;
    }
  }

  lemma {:induction false} RowStep(t: seq<byte>, e: byte, symbols: seq<seq<byte>>, text: seq<byte>, more: seq<byte>,
                                   columns: seq<seq<byte>>, rest: seq<byte>)
    requires symbols != [] && t != [] && t[0] == e && ReadQuoted(t[1..], e) == Quoted(text, symbols[0] + more)
    requires ReadRow(more, e, symbols[1..]) == RowRead(columns, rest)
    ensures ReadRow(t, e, symbols) == RowRead([text] + columns, rest)
  {
    assert (symbols[0] + more)[|symbols[0]|..] == more && symbols[0] <= symbols[0] + more;
  }

  lemma {:induction false} FieldRead(s: seq<byte>, rest: seq<byte>, e: byte)
    requires Clean(e, s) && (rest == [] || rest[0] != e)
    ensures var t := [e] + (Escaped(s) + [e] + rest);
      t[0] == e && ReadQuoted(t[1..], e) == Quoted(s, rest)
  {
    FieldReadsBackIff(s, rest, e);
    assert FieldText(Field(Escaped(s), true, rest), e)[1..] == Escaped(s) + [e] + rest;
    assert ([e] + (Escaped(s) + [e] + rest))[1..] == Escaped(s) + [e] + rest;
  }

  /** The rows of a table of strings. */
  function StringRows(table: seq<seq<seq<byte>>>, symbols: seq<seq<byte>>): (rows: seq<seq<Field>>)
    requires forall i :: 0 <= i < |table| ==> |table[i]| == |symbols|
    ensures |rows| == |table|
  {
    if table == [] then [] else [StringRow(table[0], symbols)] + StringRows(table[1..], symbols)
  }

  /** Whatever files an export is spread over, together they read back to the table, row by row and column
      by column. */
  lemma {:induction false} ExportReadsBack(table: seq<seq<seq<byte>>>, symbols: seq<seq<byte>>, e: byte,
                                           files: seq<seq<byte>>)
    requires symbols != [] && Separate(e, symbols)
    requires forall i :: 0 <= i < |table| ==> |table[i]| == |symbols| && AllClean(e, table[i])
    requires Concat(files) == Concat(RowTexts(StringRows(table, symbols), e))
    ensures ReadTable(Concat(files), e, symbols) == Some(table)
    decreases |table|
  {
    if table != [] {
      var rest := RowTexts(StringRows(table[1..], symbols), e);
      FirstRow(table, symbols, e);
      RowReadsBack(table[0], symbols, e, Concat(rest));
      RowNotEmpty(table[0], symbols, e);
      ExportReadsBack(table[1..], symbols, e, rest);
      TableStep(Concat(files), e, symbols, table[0], Concat(rest), table[1..]);
      assert [table[0]] + table[1..] == table;
    }
  }

  lemma {:induction false} FirstRow(table: seq<seq<seq<byte>>>, symbols: seq<seq<byte>>, e: byte)
    requires table != [] && forall i :: 0 <= i < |table| ==> |table[i]| == |symbols|
    ensures Concat(RowTexts(StringRows(table, symbols), e)) ==
      RowText(StringRow(table[0], symbols), e) + Concat(RowTexts(StringRows(table[1..], symbols), e))
  {
    var texts, rest := RowTexts(StringRows(table, symbols), e), RowTexts(StringRows(table[1..], symbols), e);
    assert texts[0] == RowText(StringRow(table[0], symbols), e);
    assert texts[1..] == rest;
  }

  lemma {:induction false} TableStep(t: seq<byte>, e: byte, symbols: seq<seq<byte>>, columns: seq<seq<byte>>,
                                     rest: seq<byte>, rows: seq<seq<seq<byte>>>)
    requires t != [] && ReadRow(t, e, symbols) == RowRead(columns, rest) && |rest| < |t|
    requires ReadTable(rest, e, symbols) == Some(rows)
    ensures ReadTable(t, e, symbols) == Some([columns] + rows)
  {}

  lemma {:induction false} RowNotEmpty(columns: seq<seq<byte>>, symbols: seq<seq<byte>>, e: byte)
    requires |columns| == |symbols| && symbols != []
    ensures RowText(StringRow(columns, symbols), e) != []
  {
    var f := Field(Escaped(columns[0]), true, symbols[0]);
    var row := RowText(StringRow(columns, symbols), e);
    FirstField(f, StringRow(columns[1..], symbols[1..]), e, []);
    assert row + [] == row;
  }
}
