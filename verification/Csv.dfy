/** csv_write_field (pg_output.c), and a reader (RFC 4180 section 2, '\n' ending a record) that undoes it. */
module Csv {
  import opened Base

  const COMMA: byte := 44
  const QUOTE: byte := 34
  const NEWLINE: byte := 10

  predicate Special(c: byte) {
    c == COMMA || c == QUOTE || c == NEWLINE
  }

  predicate NeedsQuote(s: seq<byte>): (r: bool)
    ensures r <==> 44 in s || 34 in s || 10 in s
  {
    exists i :: 0 <= i < |s| && Special(s[i])
  }

  function Doubled(s: seq<byte>): seq<byte> {
    if s == [] then [] else (if s[0] == QUOTE then [QUOTE, QUOTE] else [s[0]]) + Doubled(s[1..])
  }

  function FieldText(s: seq<byte>): seq<byte> {
    if NeedsQuote(s) then [QUOTE] + Doubled(s) + [QUOTE] else s
  }

  /** The text of a field: NULL is empty, a C string ends at its first zero byte. */
  function Shown(field: Option<seq<byte>>): (r: seq<byte>)
    ensures field.None? ==> r == []
    ensures field.Some? ==> r <= field.value && 0 !in r && (r == field.value || field.value[|r|] == 0)
  {
    match field
    case Some(s) => UntilZero(s)
    case None => []
  }

  function RowText(row: seq<Option<seq<byte>>>): seq<byte> {
    if row == [] then []
    else FieldText(Shown(row[0])) + [if |row| == 1 then NEWLINE else COMMA] + RowText(row[1..])
  }

  function TableText(rows: seq<seq<Option<seq<byte>>>>): seq<byte> {
    if rows == [] then [] else RowText(rows[0]) + TableText(rows[1..])
  }

  // ---------------------------------------------------------------- writing

  /** A FILE opened for writing. */
  class Stream {
    var text: seq<byte>

    constructor ()
      ensures text == []
    {
      text := [];
    }

    method Putc(c: byte)
      modifies this
      ensures text == old(text) + [c]
    {
      text := text + [c];
    }
  }

  method CsvWriteField(fp: Stream, field: Option<seq<byte>>, isLast: bool)
    modifies fp
    ensures fp.text == old(fp.text) + FieldText(Shown(field)) + [if isLast then NEWLINE else COMMA]
  {
    var s := if field.Some? then UntilZero(field.value) else [];
    var needQuote := false;
    for p := 0 to |s|
      invariant !needQuote && forall i :: 0 <= i < p ==> !Special(s[i])
    {
      if Special(s[p]) {
        needQuote := true;
        break;
      }
    }
    assert needQuote == NeedsQuote(s);
    if needQuote {
      fp.Putc(QUOTE);
      PutDoubled(fp, s);
      fp.Putc(QUOTE);
      Regroup(old(fp.text), [QUOTE], Doubled(s), [QUOTE]);
    } else {
      fp.text := fp.text + s;
    }
    fp.Putc(if isLast then NEWLINE else COMMA);
  }

  method PutDoubled(fp: Stream, s: seq<byte>)
    modifies fp
    ensures fp.text == old(fp.text) + Doubled(s)
  {
    for p := 0 to |s|
      invariant fp.text == old(fp.text) + Doubled(s[..p])
    {
      DoubledMore(s[..p], s[p]);
      assert s[..p + 1] == s[..p] + [s[p]];
      if s[p] == QUOTE {
        fp.Putc(QUOTE);
      }
      fp.Putc(s[p]);
    }
    assert s[..|s|] == s;
  }

  lemma {:induction false} DoubledMore(s: seq<byte>, c: byte)
    ensures Doubled(s + [c]) == Doubled(s) + if c == QUOTE then [QUOTE, QUOTE] else [c]
  {
    if s == [] {
      assert s + [c] == [c] && [c][1..] == [];
    } else {
      assert (s + [c])[1..] == s[1..] + [c];
      DoubledMore(s[1..], c);
    }
  }

  lemma Regroup(a: seq<byte>, b: seq<byte>, c: seq<byte>, d: seq<byte>)
    ensures a + b + c + d == a + (b + c + d)
  {
  }

  /** The loops over the columns: one field each, the last one ends the line. */
  method WriteFields(fp: Stream, row: seq<Option<seq<byte>>>)
    modifies fp
    ensures fp.text == old(fp.text) + RowText(row)
  {
    for i := 0 to |row|
      invariant fp.text + RowText(row[i..]) == old(fp.text) + RowText(row)
    {
      ghost var before, end := fp.text, if i == |row| - 1 then NEWLINE else COMMA;
      RowTextFrom(row, i);
      Regroup(before, FieldText(Shown(row[i])), [end], RowText(row[i + 1..]));
      CsvWriteField(fp, row[i], i == |row| - 1);
    }
    assert row[|row|..] == [];
  }

  lemma RowTextFrom(row: seq<Option<seq<byte>>>, i: nat)
    requires i < |row|
    ensures RowText(row[i..])
         == FieldText(Shown(row[i])) + [if i == |row| - 1 then NEWLINE else COMMA] + RowText(row[i + 1..])
  {
    assert row[i..][1..] == row[i + 1..];
  }

  /** csv_end_row */
  method CsvEndRow(fp: Stream)
    modifies fp
    ensures fp.text == old(fp.text) + [NEWLINE]
  {
    fp.Putc(NEWLINE);
  }

  /** The header, written in front of the first row. */
  method WriteHeader(fp: Stream, names: seq<Option<seq<byte>>>)
    modifies fp
    ensures fp.text == old(fp.text) + (RowText(names) + [NEWLINE])
  {
    WriteFields(fp, names);
    CsvEndRow(fp);
  }

  /** A file with its header: the last name has ended the line when csv_end_row ends it once more. */
  function FileText(names: seq<Option<seq<byte>>>, rows: seq<seq<Option<seq<byte>>>>): seq<byte> {
    RowText(names) + [NEWLINE] + TableText(rows)
  }

  // ---------------------------------------------------------------- reading

  datatype Read<T> = Bad | Got(value: T, last: bool, rest: seq<byte>)

  /** The comma or newline behind a field. */
  function FieldEnd(field: seq<byte>, s: seq<byte>): Read<seq<byte>> {
    if s == [] || (s[0] != 44 && s[0] != 10) then Bad else Got(field, s[0] == 10, s[1..])
  }

  function ReadPlain(s: seq<byte>): (r: Read<seq<byte>>)
    ensures r.Got? ==> |r.rest| < |s|
    decreases |s|
  {
    if s == [] || s[0] == 34 then Bad
    else if s[0] == 44 || s[0] == 10 then FieldEnd([], s)
    else match ReadPlain(s[1..])
      case Bad => Bad
      case Got(f, last, rest) => Got([s[0]] + f, last, rest)
  }

  /** Behind the opening quote. */
  function ReadQuoted(s: seq<byte>): (r: Read<seq<byte>>)
    ensures r.Got? ==> |r.rest| < |s|
    decreases |s|
  {
    if s == [] then Bad
    else if s[0] == 34 && (|s| == 1 || s[1] != 34) then FieldEnd([], s[1..])
    else match ReadQuoted(if s[0] == 34 then s[2..] else s[1..])
      case Bad => Bad
      case Got(f, last, rest) => Got([s[0]] + f, last, rest)
  }

  function ReadField(s: seq<byte>): (r: Read<seq<byte>>)
    ensures r.Got? ==> |r.rest| < |s|
  {
    if s != [] && s[0] == 34 then ReadQuoted(s[1..]) else ReadPlain(s)
  }

  function ReadRow(s: seq<byte>): (r: Read<seq<seq<byte>>>)
    ensures r.Got? ==> |r.rest| < |s|
    decreases |s|
  {
    match ReadField(s)
    case Bad => Bad
    case Got(f, true, rest) => Got([f], true, rest)
    case Got(f, false, rest) =>
      match ReadRow(rest)
      case Bad => Bad
      case Got(fs, last, rest') => Got([f] + fs, last, rest')
  }

  function ReadTable(s: seq<byte>): Option<seq<seq<seq<byte>>>>
    decreases |s|
  {
    if s == [] then Some([])
    else match ReadRow(s)
      case Bad => None
      case Got(row, _, rest) =>
        match ReadTable(rest)
        case None => None
        case Some(rows) => Some([row] + rows)
  }

  // ---------------------------------------------------------------- reading undoes writing

  lemma {:induction false} PlainReads(s: seq<byte>, end: byte, t: seq<byte>)
    requires !NeedsQuote(s) && (end == COMMA || end == NEWLINE)
    ensures ReadPlain(s + [end] + t) == Got(s, end == NEWLINE, t)
    decreases |s|
  {
    var text := s + [end] + t;
    if s == [] {
      assert text[1..] == t;
    } else {
      assert !Special(s[0]);
      assert text[1..] == s[1..] + [end] + t;
      assert forall i :: 0 <= i < |s[1..]| ==> s[1..][i] == s[i + 1];
      PlainReads(s[1..], end, t);
      assert [s[0]] + s[1..] == s;
    }
  }

  lemma {:induction false} QuotedReads(s: seq<byte>, end: byte, t: seq<byte>)
    requires end == COMMA || end == NEWLINE
    ensures ReadQuoted(Doubled(s) + [QUOTE] + [end] + t) == Got(s, end == NEWLINE, t)
    decreases |s|
  {
    hide ReadQuoted;
    if s == [] {
      QuoteEnds(end, t);
      assert Doubled(s) + [QUOTE] + [end] + t == [QUOTE, end] + t;
    } else {
      var rest := Doubled(s[1..]) + [QUOTE] + [end] + t;
      QuotedReads(s[1..], end, t);
      QuotedStep(s[0], rest);
      assert [s[0]] + s[1..] == s;
      if s[0] == QUOTE {
        assert Doubled(s) + [QUOTE] + [end] + t == [QUOTE, QUOTE] + rest;
      } else {
        assert Doubled(s) + [QUOTE] + [end] + t == [s[0]] + rest;
      }
    }
  }

  lemma QuoteEnds(end: byte, t: seq<byte>)
    requires end == COMMA || end == NEWLINE
    ensures ReadQuoted([QUOTE, end] + t) == Got([], end == NEWLINE, t)
  {
    var text := [QUOTE, end] + t;
    assert text[1..] == [end] + t;
    assert text[1..][1..] == t;
  }

  lemma QuotedStep(c: byte, rest: seq<byte>)
    requires ReadQuoted(rest).Got?
    ensures var r := ReadQuoted(rest);
      ReadQuoted((if c == QUOTE then [QUOTE, QUOTE] else [c]) + rest) == Got([c] + r.value, r.last, r.rest)
  {
    if c == QUOTE {
      assert ([QUOTE, QUOTE] + rest)[2..] == rest;
    } else {
      assert ([c] + rest)[1..] == rest;
    }
  }

  lemma FieldReads(s: seq<byte>, end: byte, t: seq<byte>)
    requires end == COMMA || end == NEWLINE
    ensures ReadField(FieldText(s) + [end] + t) == Got(s, end == NEWLINE, t)
  {
    hide ReadQuoted, ReadPlain, Doubled;
    var text := FieldText(s) + [end] + t;
    if NeedsQuote(s) {
      QuotedReads(s, end, t);
      assert text[1..] == Doubled(s) + [QUOTE] + [end] + t;
    } else {
      PlainReads(s, end, t);
      if s != [] { assert !Special(s[0]); }
    }
  }

  function Shows(row: seq<Option<seq<byte>>>): (r: seq<seq<byte>>)
    ensures |r| == |row|
  {
    seq(|row|, i requires 0 <= i < |row| => Shown(row[i]))
  }

  lemma {:induction false} RowReads(row: seq<Option<seq<byte>>>, t: seq<byte>)
    requires row != []
    ensures ReadRow(RowText(row) + t) == Got(Shows(row), true, t)
    decreases |row|
  {
    hide ReadField, FieldText, Shown;
    var f, end := Shown(row[0]), if |row| == 1 then NEWLINE else COMMA;
    var rest := RowText(row[1..]) + t;
    assert RowText(row) + t == FieldText(f) + [end] + rest;
    FieldReads(f, end, rest);
    if |row| == 1 {
      assert rest == t;
      assert Shows(row) == [f];
    } else {
      RowReads(row[1..], t);
      assert Shows(row) == [f] + Shows(row[1..]);
    }
  }

  function ShowsAll(rows: seq<seq<Option<seq<byte>>>>): seq<seq<seq<byte>>> {
    if rows == [] then [] else [Shows(rows[0])] + ShowsAll(rows[1..])
  }

  /** Every table of non-empty rows is read back, NULL as the empty text. */
  lemma {:induction false} TableReads(rows: seq<seq<Option<seq<byte>>>>)
    requires forall r :: r in rows ==> r != []
    ensures ReadTable(TableText(rows)) == Some(ShowsAll(rows))
    decreases |rows|
  {
    if rows == [] {
    } else {
      hide ReadRow, RowText, Shows;
      assert rows[0] in rows;
      RowReads(rows[0], TableText(rows[1..]));
      assert forall r :: r in rows[1..] ==> r in rows;
      TableReads(rows[1..]);
    }
  }

  lemma TableStep(text: seq<byte>, row: seq<seq<byte>>, rest: seq<byte>, rows: seq<seq<seq<byte>>>)
    requires text != [] && ReadRow(text) == Got(row, true, rest) && ReadTable(rest) == Some(rows)
    ensures ReadTable(text) == Some([row] + rows)
  {
  }

  lemma EmptyLineReads(t: seq<byte>)
    ensures ReadRow([NEWLINE] + t) == Got([[]], true, t)
  {
    assert ([NEWLINE] + t)[1..] == t;
  }

  /** With a header, a record of one empty field stands between the names and the rows. */
  lemma FileReads(names: seq<Option<seq<byte>>>, rows: seq<seq<Option<seq<byte>>>>)
    requires names != [] && forall r :: r in rows ==> r != []
    ensures ReadTable(FileText(names, rows)) == Some([Shows(names), [[]]] + ShowsAll(rows))
  {
    hide ReadTable, ReadRow, RowText, Shows;
    var body := TableText(rows);
    TableReads(rows);
    EmptyLineReads(body);
    TableStep([NEWLINE] + body, [[]], body, ShowsAll(rows));
    RowReads(names, [NEWLINE] + body);
    var text := RowText(names) + ([NEWLINE] + body);
    assert text == FileText(names, rows);
    TableStep(text, Shows(names), [NEWLINE] + body, [[[]]] + ShowsAll(rows));
    assert [Shows(names)] + ([[[]]] + ShowsAll(rows)) == [Shows(names), [[]]] + ShowsAll(rows);
  }
}
