// Delimiter-separated values: the printer, the parser that undoes it, and exactly
// which tables survive the trip.
module Dsv {
  import opened Basics

  // ---- printing ----

  predicate NeedsQuotes(f: string, d: char) {
    '"' in f || d in f || '\n' in f
  }

  function DoubleQuotes(f: string): (r: string) {
    if f == "" then ""
    else if f[0] == '"' then "\"\"" + DoubleQuotes(f[1..])
    else [f[0]] + DoubleQuotes(f[1..])
  }

  function FormatValue(f: string, d: char): string {
    if NeedsQuotes(f, d) then "\"" + DoubleQuotes(f) + "\"" else f
  }

  function Join(parts: seq<string>, separator: char): string {
    if parts == [] then ""
    else if |parts| == 1 then parts[0]
    else parts[0] + [separator] + Join(parts[1..], separator)
  }

  function FormatRow(row: seq<string>, d: char): string {
    Join(seq(|row|, i requires 0 <= i < |row| => FormatValue(row[i], d)), d)
  }

  function FormatRows(rows: seq<seq<string>>, d: char): string {
    Join(seq(|rows|, i requires 0 <= i < |rows| => FormatRow(rows[i], d)), '\n')
  }

  // ---- what the tokens of a text are ----

  datatype Token = Field(value: string) | EndOfLine | EndOfFile

  // How many characters come before the quote that closes the field; all of them if
  // nothing closes it. A doubled quote does not close.
  function ClosingQuote(rest: string): (n: nat)
    ensures n <= |rest|
  {
    if rest == "" then 0
    else if rest[0] != '"' then 1 + ClosingQuote(rest[1..])
    else if |rest| > 1 && rest[1] == '"' then 2 + ClosingQuote(rest[2..])
    else 0
  }

  function UndoubleQuotes(f: string): string {
    if f == "" then ""
    else if |f| > 1 && f[0] == '"' && f[1] == '"' then "\"" + UndoubleQuotes(f[2..])
    else [f[0]] + UndoubleQuotes(f[1..])
  }

  // How many characters come before the end of an unquoted field.
  function PlainLength(rest: string, d: char): (n: nat)
    ensures n <= |rest|
    ensures forall i | 0 <= i < n :: rest[i] != '\n' && rest[i] != '\r' && rest[i] != d
    ensures n < |rest| ==> rest[n] == '\n' || rest[n] == '\r' || rest[n] == d
  {
    if rest == "" || rest[0] == '\n' || rest[0] == '\r' || rest[0] == d then 0 else 1 + PlainLength(rest[1..], d)
  }

  // What a separator at the front of the text does: a line end swallows the LF of
  // CR LF; anything else is one character.
  function AfterSeparator(rest: string): (r: (string, bool))
    ensures |r.0| <= |rest| && (rest != "" ==> |r.0| < |rest|)
  {
    if rest == "" then ("", false)
    else if rest[0] == '\r' then (if |rest| > 1 && rest[1] == '\n' then rest[2..] else rest[1..], true)
    else (rest[1..], rest[0] == '\n')
  }

  datatype Scan = Scan(token: Token, rest: string, eol: bool)

  // One call of token(): what it returns and what is left to read.
  function Next(rest: string, eol: bool, d: char): (s: Scan)
    ensures s.token.Field? ==> |s.rest| < |rest|
    ensures s.token.EndOfLine? <==> rest != "" && eol
    ensures s.token.EndOfFile? <==> rest == ""
    ensures !s.token.Field? ==> s.rest == rest
  {
    if rest == "" then Scan(EndOfFile, rest, eol)
    else if eol then Scan(EndOfLine, rest, false)
    else if rest[0] == '"' then
      var n := ClosingQuote(rest[1..]);
      var after := if 2 + n <= |rest| then rest[2 + n..] else "";
      Scan(Field(UndoubleQuotes(rest[1..1 + n])), AfterSeparator(after).0, AfterSeparator(after).1)
    else
      var n := PlainLength(rest, d);
      Scan(Field(rest[..n]), AfterSeparator(rest[n..]).0, AfterSeparator(rest[n..]).1)
  }

  // The fields up to the end of the line, and the text after it.
  function ReadFields(rest: string, eol: bool, d: char): (r: (seq<string>, string))
    ensures |r.1| <= |rest| && (rest != "" && !eol ==> |r.1| < |rest| && r.0 != [])
    decreases 2 * |rest| + if eol then 1 else 0
  {
    var s := Next(rest, eol, d);
    if s.token.Field? then
      var (fields, after) := ReadFields(s.rest, s.eol, d);
      ([s.token.value] + fields, after)
    else ([], rest)
  }

  function ReadRows(rest: string, d: char): (rows: seq<seq<string>>)
    ensures forall row | row in rows :: row != []
    decreases |rest|
  {
    if rest == "" then []
    else
      var (row, after) := ReadFields(rest, false, d);
      [row] + ReadRows(after, d)
  }

  // ---- the parser ----

  class Parser {
    const text: string
    const delimiter: char
    var position: nat
    var eol: bool

    constructor (text: string, delimiter: char)
      ensures this.text == text && this.delimiter == delimiter && position == 0 && !eol
    {
      this.text, this.delimiter, position, eol := text, delimiter, 0, false;
    }

    function Rest(): string
      reads this
    {
      if position <= |text| then text[position..] else ""
    }

    predicate At(i: nat, c: char) {
      i < |text| && text[i] == c
    }

    // An end past the text is pulled back to it.
    function Substring(start: nat, end: nat): string
      requires start <= |text| && start <= end
    {
      if end <= |text| then text[start..end] else text[start..]
    }

    method Token() returns (t: Token)
      modifies this
      ensures Scan(t, Rest(), eol) == Next(old(Rest()), old(eol), delimiter)
    {
      if position >= |text| { return EndOfFile; }
      if eol { eol := false; return EndOfLine; }
      var j := position;
      if At(j, '"') {
        t := QuotedField(j);
      } else {
        t := PlainField(j);
      }
    }

    // The loop that looks for the closing quote. Where none closes the field the
    // index runs past the text.
    method FindClosingQuote(j: nat) returns (i: nat)
      requires j < |text|
      ensures j < i && (if i <= |text| then i else |text|) == j + 1 + ClosingQuote(text[j + 1..])
      ensures i > |text| <==> j + 1 + ClosingQuote(text[j + 1..]) == |text|
    {
      i := j;
      ghost var close := j + 1 + ClosingQuote(text[j + 1..]);
      while true
        invariant j <= i <= |text|
        invariant i < |text| ==> close == i + 1 + ClosingQuote(text[i + 1..])
        invariant i == |text| ==> close == |text|
        decreases |text| - i
      {
        var more := i < |text|;
        i := i + 1;
        if !more { break; }
        assert i < |text| ==> text[i..][1..] == text[i + 1..];
        if At(i, '"') {
          if !At(i + 1, '"') { break; }
          assert text[i..][2..] == text[i + 2..];
          i := i + 1;
        }
      }
    }

    method QuotedField(j: nat) returns (t: Token)
      requires position == j < |text| && text[j] == '"' && !eol
      modifies this
      ensures Scan(t, Rest(), eol) == Next(text[j..], false, delimiter)
    {
      var i := FindClosingQuote(j);
      position := i + 2;
      if At(i + 1, '\r') {
        eol := true;
        if At(i + 2, '\n') { position := position + 1; }
      } else if At(i + 1, '\n') {
        eol := true;
      }
      t := Field(UndoubleQuotes(Substring(j + 1, i)));
      QuotedNext(j, i);
      AfterSeparatorAt(i + 1);
    }

    lemma QuotedNext(j: nat, i: nat)
      requires j < |text| && text[j] == '"' && j < i
      requires (if i <= |text| then i else |text|) == j + 1 + ClosingQuote(text[j + 1..])
      requires i > |text| <==> j + 1 + ClosingQuote(text[j + 1..]) == |text|
      ensures var after := if i + 1 <= |text| then text[i + 1..] else "";
              Next(text[j..], false, delimiter)
                == Scan(Field(UndoubleQuotes(Substring(j + 1, i))), AfterSeparator(after).0, AfterSeparator(after).1)
    {
      var rest := text[j..];
      assert rest[1..] == text[j + 1..];
      var n := ClosingQuote(rest[1..]);
      assert rest[1..1 + n] == Substring(j + 1, i);
      assert 2 + n <= |rest| ==> rest[2 + n..] == text[i + 1..];
    }

    // What the parser does after a closing quote is what AfterSeparator says.
    lemma AfterSeparatorAt(k: nat)
      ensures var after := if k <= |text| then text[k..] else "";
              var next := if At(k, '\r') && At(k + 1, '\n') then k + 2 else k + 1;
              AfterSeparator(after) == (if next <= |text| then text[next..] else "", At(k, '\r') || At(k, '\n'))
    {
    }

    method PlainField(j: nat) returns (t: Token)
      requires position == j < |text| && text[j] != '"' && !eol
      modifies this
      ensures Scan(t, Rest(), eol) == Next(text[j..], false, delimiter)
    {
      ghost var end;
      t, end := ScanPlain(j);
      PlainNext(j, end);
    }

    // The loop that looks for the end of an unquoted field.
    method ScanPlain(j: nat) returns (t: Token, ghost end: nat)
      requires position == j < |text| && !eol
      modifies this
      ensures end == PlainEnd(j) && j <= end <= |text| && t == Field(text[j..end])
      ensures Rest() == AfterSeparator(text[end..]).0 && eol == AfterSeparator(text[end..]).1
    {
      while position < |text|
        invariant j <= position <= |text| && !eol
        invariant PlainEnd(j) == PlainEnd(position)
      {
        var c := text[position];
        end := position;
        PlainEndStep(end);
        position := position + 1;
        if c != '\n' && c != '\r' && c != delimiter {
          continue;
        }
        var k := PassSeparator(c);
        return Field(text[j..position - k]), end;
      }
      end := |text|;
      assert text[j..] == text[j..|text|];
      return Field(text[j..]), end;
    }

    // A separator of k characters has been passed, and whether it ended the line.
    method PassSeparator(c: char) returns (k: nat)
      requires 0 < position <= |text| && c == text[position - 1] && !eol
      requires c == '\n' || c == '\r' || c == delimiter
      modifies this
      ensures position <= |text| && position - k == old(position) - 1
      ensures Rest() == AfterSeparator(text[position - k..]).0 && eol == AfterSeparator(text[position - k..]).1
    {
      ghost var end := position - 1;
      k := 1;
      if c == '\n' {
        eol := true;
      } else if c == '\r' {
        eol := true;
        if At(position, '\n') { position, k := position + 1, k + 1; }
      }
      AfterSeparatorAt(end);
    }

    // Where an unquoted field that is open at i ends.
    ghost function PlainEnd(i: nat): nat
      requires i <= |text|
    {
      i + PlainLength(text[i..], delimiter)
    }

    lemma PlainEndStep(i: nat)
      requires i < |text|
      ensures PlainEnd(i) == if text[i] == '\n' || text[i] == '\r' || text[i] == delimiter then i else PlainEnd(i + 1)
    {
      assert text[i..][1..] == text[i + 1..];
    }

    lemma PlainNext(j: nat, end: nat)
      requires j < |text| && text[j] != '"' && end == PlainEnd(j)
      ensures Next(text[j..], false, delimiter)
           == Scan(Field(text[j..end]), AfterSeparator(text[end..]).0, AfterSeparator(text[end..]).1)
    {
      var n := PlainLength(text[j..], delimiter);
      assert text[j..][..n] == text[j..end] && text[j..][n..] == text[end..];
    }

    // The inner loop of parseRows: the fields of one line.
    method Line(first: Token, ghost here: string) returns (a: seq<string>, ghost after: string)
      requires Scan(first, Rest(), eol) == Next(here, false, delimiter)
      modifies this
      ensures (a, after) == ReadFields(here, false, delimiter)
      ensures Rest() == after && (after != "" ==> !eol)
    {
      a := [];
      var t := first;
      after := here;
      ghost var end := false;
      assert [] + ReadFields(here, false, delimiter).0 == ReadFields(here, false, delimiter).0;
      while t != EndOfLine && t != EndOfFile
        invariant Scan(t, Rest(), eol) == Next(after, end, delimiter)
        invariant ReadFields(here, false, delimiter)
               == (a + ReadFields(after, end, delimiter).0, ReadFields(after, end, delimiter).1)
        decreases 2 * |after| + if end then 1 else 0
      {
        AppendFirst(a, t.value, ReadFields(Rest(), eol, delimiter).0);
        a := a + [t.value];
        after, end := Rest(), eol;
        t := Token();
      }
      assert a + [] == a;
    }

    // parseRows with a row callback.
    method ParseRowsWith<T>(f: (seq<string>, nat) -> Option<T>) returns (kept: seq<T>)
      requires position == 0 && !eol
      modifies this
      ensures kept == Kept(ReadRows(text, delimiter), f, 0)
    {
      kept := [];
      assert Rest() == text;
      var t := Token();
      var n := 0;
      ghost var here := text;
      while t != EndOfFile
        invariant t == Next(here, false, delimiter).token
        invariant t != EndOfFile ==> Scan(t, Rest(), eol) == Next(here, false, delimiter)
        invariant Kept(ReadRows(text, delimiter), f, 0) == kept + Kept(ReadRows(here, delimiter), f, n)
        decreases |here|
      {
        var a;
        ghost var after;
        a, after := Line(t, here);
        KeptStep(a, ReadRows(after, delimiter), f, n);
        var r := f(a, n);
        n := n + 1;
        if r.Some? {
          AppendFirst(kept, r.value, Kept(ReadRows(after, delimiter), f, n));
          kept := kept + [r.value];
        }
        here := after;
        t := Token();
      }
    }

    // parseRows without one.
    method ParseRows() returns (rows: seq<seq<string>>)
      requires position == 0 && !eol
      modifies this
      ensures rows == ReadRows(text, delimiter)
    {
      rows := [];
      assert Rest() == text;
      var t := Token();
      ghost var here := text;
      while t != EndOfFile
        invariant t == Next(here, false, delimiter).token
        invariant t != EndOfFile ==> Scan(t, Rest(), eol) == Next(here, false, delimiter)
        invariant ReadRows(text, delimiter) == rows + ReadRows(here, delimiter)
        decreases |here|
      {
        var a;
        ghost var after;
        a, after := Line(t, here);
        AppendFirst(rows, a, ReadRows(after, delimiter));
        rows := rows + [a];
        here := after;
        t := Token();
      }
    }
  }

  // What a callback makes of the rows: it is given each with its number and maps or drops it.
  function Kept<T>(rows: seq<seq<string>>, f: (seq<string>, nat) -> Option<T>, n: nat): seq<T> {
    if rows == [] then []
    else
      var r := f(rows[0], n);
      (if r.Some? then [r.value] else []) + Kept(rows[1..], f, n + 1)
  }

  lemma KeptStep<T>(row: seq<string>, rest: seq<seq<string>>, f: (seq<string>, nat) -> Option<T>, n: nat)
    ensures Kept([row] + rest, f, n)
         == (var r := f(row, n); if r.Some? then [r.value] + Kept(rest, f, n + 1) else Kept(rest, f, n + 1))
  {
    assert ([row] + rest)[1..] == rest;
  }

  lemma AppendFirst<T>(a: seq<T>, x: T, rest: seq<T>)
    ensures a + ([x] + rest) == (a + [x]) + rest
  {
  }
}
