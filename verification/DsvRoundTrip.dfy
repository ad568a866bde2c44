// Reading back what was printed: parseRows(formatRows(rows)) is rows exactly for
// the tables the format can express.
module DsvRoundTrip {
  import opened Dsv

  // The two delimiters in use are ',' and tab. Characters with a meaning of their own
  // inside the brackets of a regular expression are none.
  predicate IsDelimiter(d: char) { d !in {'"', '\n', '\r', ']', '\\', '-'} }

  // A CR is only kept inside quotes, and the printer does not quote for it.
  predicate KeepsReturns(f: string, d: char) { '\r' in f ==> NeedsQuotes(f, d) }

  predicate RowKept(row: seq<string>, d: char) {
    row != [] && forall j | 0 <= j < |row| :: KeepsReturns(row[j], d)
  }

  // No row is empty, every field keeps its CRs, and the very last field is not empty.
  predicate Expressible(rows: seq<seq<string>>, d: char) {
    && (forall i | 0 <= i < |rows| :: RowKept(rows[i], d))
    && (rows != [] && rows[|rows| - 1] != [] ==> LastField(rows) != "")
  }

  function LastField(rows: seq<seq<string>>): string
    requires rows != [] && rows[|rows| - 1] != []
  {
    var row := rows[|rows| - 1];
    row[|row| - 1]
  }

  // ---- quoting ----

  lemma {:induction false} UndoubleDoubled(f: string)
    ensures UndoubleQuotes(DoubleQuotes(f)) == f
  {
    if f == "" {
    } else {
      UndoubleDoubled(f[1..]);
      var rest := DoubleQuotes(f[1..]);
      if f[0] == '"' {
        assert ("\"\"" + rest)[2..] == rest;
      } else {
        assert ([f[0]] + rest)[1..] == rest;
      }
    }
  }

  // Doubled quotes never close the field; the quote after them does.
  lemma {:induction false} ClosesAfterDoubled(f: string, tail: string)
    requires tail == "" || tail[0] != '"'
    ensures ClosingQuote(DoubleQuotes(f) + "\"" + tail) == |DoubleQuotes(f)|
  {
    var text := DoubleQuotes(f) + "\"" + tail;
    if f == "" {
      assert text == "\"" + tail;
    } else {
      ClosesAfterDoubled(f[1..], tail);
      var rest := DoubleQuotes(f[1..]) + "\"" + tail;
      if f[0] == '"' {
        assert text == "\"\"" + rest;
        assert text[2..] == rest;
      } else {
        assert text == [f[0]] + rest;
        assert text[1..] == rest;
      }
    }
  }

  // ---- one field ----

  predicate FieldTail(tail: string, d: char) { tail == "" || tail[0] == d || tail[0] == '\n' || tail[0] == '\r' }

  // What follows the separator in front of a text: LF, CR and CR LF end a line.
  function AfterTail(tail: string): string {
    if tail == "" then ""
    else if |tail| > 1 && tail[0] == '\r' && tail[1] == '\n' then tail[2..] else tail[1..]
  }

  predicate EndsLine(tail: string) { tail != "" && (tail[0] == '\n' || tail[0] == '\r') }

  lemma {:induction false} PlainLengthIs(f: string, tail: string, d: char)
    requires FieldTail(tail, d) && d !in f && '\n' !in f && '\r' !in f
    ensures PlainLength(f + tail, d) == |f|
  {
    if f == "" {
      assert f + tail == tail;
    } else {
      assert (f + tail)[1..] == f[1..] + tail;
      PlainLengthIs(f[1..], tail, d);
    }
  }

  lemma FieldReadBack(f: string, tail: string, d: char)
    requires IsDelimiter(d) && FieldTail(tail, d) && KeepsReturns(f, d) && FormatValue(f, d) + tail != ""
    ensures Next(FormatValue(f, d) + tail, false, d) == Scan(Field(f), AfterTail(tail), EndsLine(tail))
  {
    if NeedsQuotes(f, d) { QuotedReadBack(f, tail, d); } else { PlainReadBack(f, tail, d); }
  }

  lemma QuotedReadBack(f: string, tail: string, d: char)
    requires IsDelimiter(d) && FieldTail(tail, d) && NeedsQuotes(f, d)
    ensures Next(FormatValue(f, d) + tail, false, d) == Scan(Field(f), AfterTail(tail), EndsLine(tail))
  {
    var text, body := FormatValue(f, d) + tail, DoubleQuotes(f);
    assert text[1..] == body + "\"" + tail;
    ClosesAfterDoubled(f, tail);
    assert text[1..1 + |body|] == body;
    UndoubleDoubled(f);
    assert text[2 + |body|..] == tail;
    SeparatorPassed(tail);
    assert Next(text, false, d) == Scan(Field(UndoubleQuotes(body)), AfterSeparator(tail).0, AfterSeparator(tail).1);
  }

  lemma SeparatorPassed(tail: string)
    ensures AfterSeparator(tail) == (AfterTail(tail), EndsLine(tail))
  {
  }

  lemma PlainReadBack(f: string, tail: string, d: char)
    requires IsDelimiter(d) && FieldTail(tail, d) && !NeedsQuotes(f, d) && KeepsReturns(f, d) && f + tail != ""
    ensures Next(f + tail, false, d) == Scan(Field(f), AfterTail(tail), EndsLine(tail))
  {
    var text := f + tail;
    PlainLengthIs(f, tail, d);
    assert text[..|f|] == f && text[|f|..] == tail;
    assert text[0] != '"' by {
      if f != "" { assert text[0] == f[0]; } else { assert text == tail; }
    }
  }

  // A field with a bare CR is read back cut short.
  lemma BareReturnCuts(f: string, tail: string, d: char)
    requires IsDelimiter(d) && FieldTail(tail, d) && !KeepsReturns(f, d)
    ensures Next(FormatValue(f, d) + tail, false, d).token.Field?
    ensures Next(FormatValue(f, d) + tail, false, d).token.value != f
  {
    var text := f + tail;
    var i :| 0 <= i < |f| && f[i] == '\r';
    assert text[i] == '\r' && text[0] == f[0];
    assert PlainLength(text, d) <= i;
  }

  // ---- rows ----

  // The text of the fields still to come in a row, and the rows after it.
  function Remaining(fields: seq<string>, rows: seq<seq<string>>, d: char): string {
    FormatRow(fields, d) + if rows == [] then "" else "\n" + FormatRows(rows, d)
  }

  lemma FormatRowStep(row: seq<string>, d: char)
    requires row != []
    ensures FormatRow(row, d) == FormatValue(row[0], d) + if |row| == 1 then "" else [d] + FormatRow(row[1..], d)
  {
    var parts := seq(|row|, i requires 0 <= i < |row| => FormatValue(row[i], d));
    var rest := row[1..];
    assert parts[1..] == seq(|rest|, i requires 0 <= i < |rest| => FormatValue(rest[i], d));
    assert |row| == 1 ==> FormatValue(row[0], d) + "" == FormatValue(row[0], d);
    assert |row| > 1 ==> parts[0] + [d] + Join(parts[1..], d) == parts[0] + ([d] + Join(parts[1..], d));
  }

  lemma FormatRowsStep(rows: seq<seq<string>>, d: char)
    requires rows != []
    ensures FormatRows(rows, d) == Remaining(rows[0], rows[1..], d)
  {
    var parts := seq(|rows|, i requires 0 <= i < |rows| => FormatRow(rows[i], d));
    var rest := rows[1..];
    assert parts[1..] == seq(|rest|, i requires 0 <= i < |rest| => FormatRow(rest[i], d));
    assert |rows| == 1 ==> FormatRow(rows[0], d) + "" == FormatRow(rows[0], d);
    assert |rows| > 1 ==> parts[0] + ['\n'] + Join(parts[1..], '\n') == parts[0] + ("\n" + Join(parts[1..], '\n'));
  }

  // Expressible, field by field.
  predicate FieldsExpressible(fields: seq<string>, rows: seq<seq<string>>, d: char)
    decreases |rows|, |fields|
  {
    && fields != [] && KeepsReturns(fields[0], d)
    && if |fields| > 1 then FieldsExpressible(fields[1..], rows, d)
       else if rows == [] then fields[0] != ""
       else FieldsExpressible(rows[0], rows[1..], d)
  }

  lemma {:induction false} ExpressibleByField(fields: seq<string>, rows: seq<seq<string>>, d: char)
    ensures FieldsExpressible(fields, rows, d) <==> Expressible([fields] + rows, d)
    decreases |rows|, |fields|
  {
    var all := [fields] + rows;
    assert all[0] == fields && all[1..] == rows;
    if fields == [] {
    } else if |fields| > 1 {
      ExpressibleByField(fields[1..], rows, d);
      DropField(fields, rows, d);
    } else if rows == [] {
      assert all == [fields];
    } else {
      ExpressibleByField(rows[0], rows[1..], d);
      assert [rows[0]] + rows[1..] == rows;
      DropRow(fields, rows, d);
    }
  }

  lemma DropField(fields: seq<string>, rows: seq<seq<string>>, d: char)
    requires |fields| > 1
    ensures Expressible([fields] + rows, d) <==> KeepsReturns(fields[0], d) && Expressible([fields[1..]] + rows, d)
  {
    var a, b := [fields] + rows, [fields[1..]] + rows;
    assert forall i | 0 < i < |a| :: a[i] == b[i];
    assert RowKept(fields, d) <==> KeepsReturns(fields[0], d) && RowKept(fields[1..], d) by {
      assert forall j | 0 < j < |fields| :: fields[j] == fields[1..][j - 1];
    }
    KeptRows(fields, rows, d);
    KeptRows(fields[1..], rows, d);
  }

  lemma KeptRows(fields: seq<string>, rows: seq<seq<string>>, d: char)
    ensures (forall i | 0 <= i < |[fields] + rows| :: RowKept(([fields] + rows)[i], d))
       <==> RowKept(fields, d) && forall i | 0 <= i < |rows| :: RowKept(rows[i], d)
  {
    var a := [fields] + rows;
    assert a[0] == fields && forall i | 0 <= i < |rows| :: a[i + 1] == rows[i];
    if RowKept(fields, d) && forall i | 0 <= i < |rows| :: RowKept(rows[i], d) {
      forall i | 0 <= i < |a| ensures RowKept(a[i], d) {
        if i > 0 { assert a[i] == rows[i - 1]; }
      }
    }
  }

  lemma DropRow(fields: seq<string>, rows: seq<seq<string>>, d: char)
    requires |fields| == 1 && rows != []
    ensures Expressible([fields] + rows, d) <==> KeepsReturns(fields[0], d) && Expressible(rows, d)
  {
    KeptRows(fields, rows, d);
  }

  predicate ReadsBack(fields: seq<string>, rows: seq<seq<string>>, d: char) {
    var r := ReadFields(Remaining(fields, rows, d), false, d);
    r.0 == fields && ReadRows(r.1, d) == rows
  }

  // Reading follows printing field by field, and goes astray at the first field
  // the format cannot express.
  lemma {:induction false} FieldsReadBack(fields: seq<string>, rows: seq<seq<string>>, d: char)
    requires IsDelimiter(d) && fields != []
    ensures ReadsBack(fields, rows, d) <==> FieldsExpressible(fields, rows, d)
    decreases |rows|, |fields|
  {
    FormatRowStep(fields, d);
    var f := fields[0];
    var text := Remaining(fields, rows, d);
    if |fields| > 1 {
      var tail := [d] + Remaining(fields[1..], rows, d);
      assert text == FormatValue(f, d) + tail;
      if KeepsReturns(f, d) {
        FieldReadBack(f, tail, d);
        assert tail[1..] == Remaining(fields[1..], rows, d);
        FieldsReadBack(fields[1..], rows, d);
        assert fields == [f] + fields[1..];
      } else {
        BareReturnCuts(f, tail, d);
      }
    } else if rows == [] {
      assert text == FormatValue(f, d) + "";
      LastFieldReadBack(f, d);
      assert fields == [f];
    } else {
      var tail := "\n" + FormatRows(rows, d);
      assert text == FormatValue(f, d) + tail;
      if KeepsReturns(f, d) {
        FieldReadBack(f, tail, d);
        assert tail[1..] == FormatRows(rows, d);
        LineReadBack(f, rows, d);
        assert fields == [f];
      } else {
        BareReturnCuts(f, tail, d);
      }
    }
  }

  lemma LastFieldReadBack(f: string, d: char)
    requires IsDelimiter(d)
    ensures ReadsBack([f], [], d) <==> KeepsReturns(f, d) && f != ""
  {
    FormatRowStep([f], d);
    var text := Remaining([f], [], d);
    assert text == FormatValue(f, d) + "";
    if !KeepsReturns(f, d) {
      BareReturnCuts(f, "", d);
    } else if f != "" {
      FieldReadBack(f, "", d);
      assert ReadFields("", false, d) == ([], "");
      assert [f] + [] == [f];
    }
  }

  // After the last field of a line the next rows are read, unless nothing is left.
  lemma LineReadBack(f: string, rows: seq<seq<string>>, d: char)
    requires IsDelimiter(d) && rows != [] && KeepsReturns(f, d)
    ensures ReadsBack([f], rows, d) <==> FieldsExpressible(rows[0], rows[1..], d)
    decreases |rows|, 0, 1
  {
    FormatRowStep([f], d);
    var rest := FormatRows(rows, d);
    var tail := "\n" + rest;
    assert Remaining([f], rows, d) == FormatValue(f, d) + tail;
    FieldReadBack(f, tail, d);
    assert tail[1..] == rest;
    assert ReadFields(rest, true, d) == ([], rest);
    assert [f] + [] == [f];
    RowsReadBack(rows, d);
  }

  lemma RowsReadBack(rows: seq<seq<string>>, d: char)
    requires IsDelimiter(d) && rows != []
    ensures ReadRows(FormatRows(rows, d), d) == rows <==> FieldsExpressible(rows[0], rows[1..], d)
    decreases |rows|, 0, 0
  {
    FormatRowsStep(rows, d);
    var text := FormatRows(rows, d);
    if rows[0] == [] {
      assert [] in rows;
    } else {
      FieldsReadBack(rows[0], rows[1..], d);
      assert [rows[0]] + rows[1..] == rows;
      if text == "" {
        assert ReadFields(text, false, d) == ([], "");
      } else {
        var r := ReadFields(text, false, d);
        assert ReadRows(text, d) == [r.0] + ReadRows(r.1, d);
        assert ([r.0] + ReadRows(r.1, d))[1..] == ReadRows(r.1, d);
      }
    }
  }

  // A printed row is read back from any text it begins, whichever way its line ends:
  // with LF, with CR LF, or with CR and no LF after it.
  lemma LineEnds(row: seq<string>, end: string, text: string, d: char)
    requires IsDelimiter(d) && RowKept(row, d)
    requires end == "\n" || end == "\r\n" || (end == "\r" && (text == "" || text[0] != '\n'))
    ensures ReadRows(FormatRow(row, d) + end + text, d) == [row] + ReadRows(text, d)
  {
    var all, tail := FormatRow(row, d) + end + text, end + text;
    assert AfterTail(tail) == text;
    assert all == FormatRow(row, d) + tail;
    FieldsBeforeEnd(row, tail, d);
    assert ReadRows(all, d) == [row] + ReadRows(text, d) by { assert |all| > 0; }
  }

  lemma {:induction false} FieldsBeforeEnd(row: seq<string>, tail: string, d: char)
    requires IsDelimiter(d) && RowKept(row, d) && EndsLine(tail)
    ensures ReadFields(FormatRow(row, d) + tail, false, d) == (row, AfterTail(tail))
    decreases |row|
  {
    var f, rest := row[0], row[1..];
    if |row| == 1 {
      assert FormatRow(row, d) == FormatValue(f, d) by { FormatRowStep(row, d); }
      LastFieldBeforeEnd(f, tail, d);
      assert row == [f];
    } else {
      FieldsBeforeEnd(rest, tail, d);
      FieldBeforeRest(f, FormatRow(rest, d) + tail, rest, AfterTail(tail), d);
      assert FormatRow(row, d) + tail == FormatValue(f, d) + ([d] + (FormatRow(rest, d) + tail)) by {
        FormatRowStep(row, d);
        Associate(FormatValue(f, d), [d], FormatRow(rest, d), tail);
      }
      assert row == [f] + rest;
    }
  }

  lemma Associate(a: string, b: string, c: string, tail: string)
    ensures a + (b + c) + tail == a + (b + (c + tail))
  {
  }

  lemma LastFieldBeforeEnd(f: string, tail: string, d: char)
    requires IsDelimiter(d) && KeepsReturns(f, d) && EndsLine(tail)
    ensures ReadFields(FormatValue(f, d) + tail, false, d) == ([f], AfterTail(tail))
  {
    FieldReadBack(f, tail, d);
    assert ReadFields(AfterTail(tail), true, d) == ([], AfterTail(tail));
    assert [f] + [] == [f];
  }

  lemma FieldBeforeRest(f: string, more: string, fields: seq<string>, text: string, d: char)
    requires IsDelimiter(d) && KeepsReturns(f, d) && ReadFields(more, false, d) == (fields, text)
    ensures ReadFields(FormatValue(f, d) + ([d] + more), false, d) == ([f] + fields, text)
  {
    var tail := [d] + more;
    FieldReadBack(f, tail, d);
    assert AfterTail(tail) == more;
  }

  // How a field is printed: as it is when it has no quote, delimiter or LF, else between
  // quotes and with each of its own doubled.
  lemma FieldPrinted(f: string, d: char)
    ensures (forall i | 0 <= i < |f| :: f[i] != '"' && f[i] != d && f[i] != '\n') ==> FormatValue(f, d) == f
    ensures (exists i :: 0 <= i < |f| && (f[i] == '"' || f[i] == d || f[i] == '\n')) ==>
              FormatValue(f, d) == "\"" + DoubleQuotes(f) + "\""
  {
  }

  lemma {:induction false} QuotesDoubled(f: string, g: string)
    ensures (forall i | 0 <= i < |f| :: f[i] != '"') ==> DoubleQuotes(f + g) == f + DoubleQuotes(g)
    ensures DoubleQuotes("\"" + g) == "\"\"" + DoubleQuotes(g)
  {
    assert ("\"" + g)[1..] == g;
    if f == "" {
      assert f + g == g;
    } else {
      QuotesDoubled(f[1..], g);
      assert (f + g)[1..] == f[1..] + g;
    }
  }

  // The fields of a row are printed with the delimiter between them, the rows with an LF.
  lemma RowsPrinted(row: seq<string>, rows: seq<seq<string>>, d: char)
    requires row != []
    ensures FormatRow(row, d) == FormatValue(row[0], d) + if |row| == 1 then "" else [d] + FormatRow(row[1..], d)
    ensures FormatRows([row] + rows, d) == FormatRow(row, d) + if rows == [] then "" else "\n" + FormatRows(rows, d)
    ensures FormatRow([], d) == FormatRows([], d) == ""
  {
    FormatRowStep(row, d);
    FormatRowsStep([row] + rows, d);
    assert ([row] + rows)[1..] == rows;
  }

  // parseRows(formatRows(rows)) == rows, for these tables and no others.
  lemma RoundTrip(rows: seq<seq<string>>, d: char)
    requires IsDelimiter(d)
    ensures ReadRows(FormatRows(rows, d), d) == rows <==> Expressible(rows, d)
  {
    if rows == [] {
      assert FormatRows(rows, d) == "";
    } else {
      RowsReadBack(rows, d);
      ExpressibleByField(rows[0], rows[1..], d);
      assert [rows[0]] + rows[1..] == rows;
    }
  }

  // The same of the parser itself.
  method ParseFormatted(rows: seq<seq<string>>, d: char) returns (parsed: seq<seq<string>>)
    requires IsDelimiter(d)
    ensures parsed == rows <==> Expressible(rows, d)
  {
    var parser := new Parser(FormatRows(rows, d), d);
    parsed := parser.ParseRows();
    RoundTrip(rows, d);
  }
}
