/**
  The CSV reader of the exact-data-match ingestion: quoted fields with doubled
  quotes, commas and line ends inside quotes, CRLF, LF or CR after a row.
 */
module Csv {
  import opened CodeUnits
  import opened Wrappers

  type Row = seq<Text>

  datatype CsvError = UnexpectedQuote(offset: nat) | UnterminatedQuote

  // ------------------------------------------------------------------
  // Reading
  // ------------------------------------------------------------------

  /** What the reader has gathered: finished rows, the open row and the open field. */
  datatype Scan = Scan(rows: seq<Row>, row: Row, field: Text, inQuotes: bool)

  function PushField(st: Scan): Scan {
    st.(row := st.row + [st.field], field := [])
  }

  function PushRow(st: Scan): Scan {
    var t := PushField(st);
    t.(rows := t.rows + [t.row], row := [])
  }

  /** Reads the rest of the text, which starts at the given offset. */
  function ReadFrom(rest: Text, at: nat, st: Scan): Result<seq<Row>, CsvError>
    decreases |rest|
  {
    if rest == [] then
      if st.inQuotes then Err(UnterminatedQuote)
      else if st.field != [] || st.row != [] then Ok(PushRow(st).rows)
      else Ok(st.rows)
    else
      var c := rest[0];
      var pair := |rest| > 1;
      if st.inQuotes then
        if c == QUOTE then
          if pair && rest[1] == QUOTE then ReadFrom(rest[2..], at + 2, st.(field := st.field + [QUOTE]))
          else ReadFrom(rest[1..], at + 1, st.(inQuotes := false))
        else ReadFrom(rest[1..], at + 1, st.(field := st.field + [c]))
      else if c == QUOTE then
        if st.field != [] then Err(UnexpectedQuote(at)) else ReadFrom(rest[1..], at + 1, st.(inQuotes := true))
      else if c == COMMA then ReadFrom(rest[1..], at + 1, PushField(st))
      else if c == CARRIAGE_RETURN && pair && rest[1] == LINE_FEED then ReadFrom(rest[2..], at + 2, PushRow(st))
      else if c == LINE_FEED || c == CARRIAGE_RETURN then ReadFrom(rest[1..], at + 1, PushRow(st))
      else ReadFrom(rest[1..], at + 1, st.(field := st.field + [c]))
  }

  const START := Scan([], [], [], false)

  function Read(text: Text): Result<seq<Row>, CsvError> {
    ReadFrom(text, 0, START)
  }

  method ParseCsv(s: Text) returns (r: Result<seq<Row>, CsvError>)
    ensures r == Read(s)
  {
    var rows: seq<Row> := [];
    var row: Row := [];
    var field: Text := [];
    var inQuotes := false;
    var i := 0;
    assert s[0..] == s;
    while i < |s|
      invariant 0 <= i <= |s|
      invariant ReadFrom(s[i..], i, Scan(rows, row, field, inQuotes)) == Read(s)
    {
      var c := s[i];
      var next := if i + 1 < |s| then Some(s[i + 1]) else None;
      assert s[i..][0] == c && s[i..][1..] == s[i + 1..];
      assert next.Some? ==> s[i..][1] == next.value && s[i..][2..] == s[i + 2..];
      if inQuotes {
        if c == QUOTE {
          if next == Some(QUOTE) {
            field := field + [QUOTE];
            i := i + 2;
            continue;
          }
          inQuotes := false;
          i := i + 1;
          continue;
        }
        field := field + [c];
        i := i + 1;
        continue;
      }
      if c == QUOTE {
        if field != [] {
          return Err(UnexpectedQuote(i));
        }
        inQuotes := true;
        i := i + 1;
        continue;
      }
      if c == COMMA {
        row, field := row + [field], [];
        i := i + 1;
        continue;
      }
      if c == CARRIAGE_RETURN && next == Some(LINE_FEED) {
        rows, row, field := rows + [row + [field]], [], [];
        i := i + 2;
        continue;
      }
      if c == LINE_FEED || c == CARRIAGE_RETURN {
        rows, row, field := rows + [row + [field]], [], [];
        i := i + 1;
        continue;
      }
      field := field + [c];
      i := i + 1;
    }
    assert s[i..] == [];
    if inQuotes {
      return Err(UnterminatedQuote);
    }
    if field != [] || |row| > 0 {
      rows := rows + [row + [field]];
    }
    return Ok(rows);
  }

  // ------------------------------------------------------------------
  // Writing
  // ------------------------------------------------------------------

  /** A field with the writer's choice to quote it. */
  datatype Field = Field(value: Text, quoted: bool)

  datatype Ending = CRLF | LF | CR

  datatype Line = Line(fields: seq<Field>, ending: Ending)

  predicate Special(c: CodeUnit) {
    c == QUOTE || c == COMMA || c == CARRIAGE_RETURN || c == LINE_FEED
  }

  predicate LegalField(f: Field) {
    f.quoted || forall i :: 0 <= i < |f.value| ==> !Special(f.value[i])
  }

  /** At least one field, and every field with a special character is quoted. */
  predicate LegalFields(fields: seq<Field>) {
    fields != [] && forall i :: 0 <= i < |fields| ==> LegalField(fields[i])
  }

  predicate LegalLine(l: Line) {
    LegalFields(l.fields)
  }

  /** A line that prints as nothing but a line feed. */
  predicate BareLineFeed(l: Line) {
    l.fields == [Field([], false)] && l.ending.LF?
  }

  /** A carriage return alone ends a row unless a line feed happens to follow it. */
  predicate LegalTable(t: seq<Line>) {
    && (forall i :: 0 <= i < |t| ==> LegalLine(t[i]))
    && (forall i :: 0 < i < |t| && t[i - 1].ending.CR? ==> !BareLineFeed(t[i]))
  }

  function Doubled(s: Text): Text {
    if s == [] then []
    else (if s[0] == QUOTE then [QUOTE, QUOTE] else [s[0]]) + Doubled(s[1..])
  }

  function PrintField(f: Field): Text {
    if f.quoted then [QUOTE] + Doubled(f.value) + [QUOTE] else f.value
  }

  function PrintFields(fields: seq<Field>): Text {
    if fields == [] then []
    else if |fields| == 1 then PrintField(fields[0])
    else PrintField(fields[0]) + [COMMA] + PrintFields(fields[1..])
  }

  function PrintEnding(e: Ending): Text {
    match e
    case CRLF => [CARRIAGE_RETURN, LINE_FEED]
    case LF => [LINE_FEED]
    case CR => [CARRIAGE_RETURN]
  }

  /** Every row with its line end. */
  function Print(t: seq<Line>): Text {
    if t == [] then [] else PrintFields(t[0].fields) + PrintEnding(t[0].ending) + Print(t[1..])
  }

  /** The last row without its line end. */
  function PrintOpen(t: seq<Line>): Text
    requires t != []
  {
    Print(t[..|t| - 1]) + PrintFields(t[|t| - 1].fields)
  }

  function FieldValues(fields: seq<Field>): (r: Row)
    ensures |r| == |fields|
  {
    seq(|fields|, i requires 0 <= i < |fields| => fields[i].value)
  }

  function Values(t: seq<Line>): (r: seq<Row>)
    ensures |r| == |t|
  {
    seq(|t|, i requires 0 <= i < |t| => FieldValues(t[i].fields))
  }

  // ------------------------------------------------------------------
  // Round trip
  // ------------------------------------------------------------------

  lemma {:induction false} ReadBare(f: Text, rest: Text, at: nat, st: Scan)
    requires (forall i :: 0 <= i < |f| ==> !Special(f[i])) && !st.inQuotes
    ensures ReadFrom(f + rest, at, st) == ReadFrom(rest, at + |f|, st.(field := st.field + f))
    decreases |f|
  {
    if f == [] {
      assert f + rest == rest && st.field + f == st.field;
    } else {
      assert (f + rest)[0] == f[0] && (f + rest)[1..] == f[1..] + rest;
      ReadBare(f[1..], rest, at + 1, st.(field := st.field + [f[0]]));
      assert st.field + [f[0]] + f[1..] == st.field + f;
    }
  }

  lemma {:induction false} ReadQuoted(f: Text, rest: Text, at: nat, st: Scan)
    requires st.inQuotes && (rest == [] || rest[0] != QUOTE)
    ensures ReadFrom(Doubled(f) + [QUOTE] + rest, at, st)
            == ReadFrom(rest, at + |Doubled(f)| + 1, st.(field := st.field + f, inQuotes := false))
    decreases |f|
  {
    var t := Doubled(f) + [QUOTE] + rest;
    if f == [] {
      assert t[0] == QUOTE && t[1..] == rest && st.field + f == st.field;
    } else {
      var n := if f[0] == QUOTE then 2 else 1;
      assert t[0] == f[0] && t[n..] == Doubled(f[1..]) + [QUOTE] + rest;
      assert n == 2 ==> t[1] == QUOTE;
      ReadQuoted(f[1..], rest, at + n, st.(field := st.field + [f[0]]));
      assert st.field + [f[0]] + f[1..] == st.field + f;
    }
  }

  lemma ReadField(f: Field, rest: Text, at: nat, st: Scan)
    requires LegalField(f) && !st.inQuotes && st.field == [] && (rest == [] || rest[0] != QUOTE)
    ensures ReadFrom(PrintField(f) + rest, at, st) == ReadFrom(rest, at + |PrintField(f)|, st.(field := f.value))
  {
    assert [] + f.value == f.value;
    if f.quoted {
      var t := PrintField(f) + rest;
      assert t[0] == QUOTE && t[1..] == Doubled(f.value) + [QUOTE] + rest;
      ReadQuoted(f.value, rest, at + 1, st.(inQuotes := true));
    } else {
      ReadBare(f.value, rest, at, st);
    }
  }

  function Front<T>(s: seq<T>): seq<T>
    requires s != []
  {
    s[..|s| - 1]
  }

  function Last<T>(s: seq<T>): T
    requires s != []
  {
    s[|s| - 1]
  }

  lemma ReadComma(rest: Text, at: nat, st: Scan)
    requires !st.inQuotes
    ensures ReadFrom([COMMA] + rest, at, st) == ReadFrom(rest, at + 1, PushField(st))
  {
    assert ([COMMA] + rest)[1..] == rest;
  }

  lemma ReadEnding(e: Ending, rest: Text, at: nat, st: Scan)
    requires !st.inQuotes && (e.CR? ==> rest == [] || rest[0] != LINE_FEED)
    ensures ReadFrom(PrintEnding(e) + rest, at, st) == ReadFrom(rest, at + |PrintEnding(e)|, PushRow(st))
  {
    var t := PrintEnding(e) + rest;
    assert t[|PrintEnding(e)|..] == rest;
    if e.CRLF? {
      assert t[0] == CARRIAGE_RETURN && t[1] == LINE_FEED && |t| > 1;
    } else {
      assert t[0] == if e.LF? then LINE_FEED else CARRIAGE_RETURN;
      assert rest != [] ==> t[1] == rest[0];
    }
  }

  lemma FieldsSplit(fields: seq<Field>)
    requires LegalFields(fields)
    ensures fields != [] && LegalField(fields[0])
    ensures |fields| == 1 ==> FieldValues(fields) == [fields[0].value]
    ensures |fields| > 1 ==>
              && LegalFields(fields[1..])
              && Front(FieldValues(fields)) == [fields[0].value] + Front(FieldValues(fields[1..]))
              && Last(FieldValues(fields)) == Last(FieldValues(fields[1..]))
  {
  }

  /** Reading the fields of a row leaves the last one open. */
  lemma {:induction false} ReadFields(fields: seq<Field>, rest: Text, at: nat, rows: seq<Row>, row: Row)
    requires LegalFields(fields)
    requires rest == [] || rest[0] != QUOTE
    ensures ReadFrom(PrintFields(fields) + rest, at, Scan(rows, row, [], false))
            == ReadFrom(rest, at + |PrintFields(fields)|,
                        Scan(rows, row + Front(FieldValues(fields)), Last(FieldValues(fields)), false))
    decreases |fields|
  {
    hide ReadFrom, PrintField, LegalFields, FieldValues;
    FieldsSplit(fields);
    var st := Scan(rows, row, [], false);
    if |fields| == 1 {
      ReadField(fields[0], rest, at, st);
      assert row + Front(FieldValues(fields)) == row;
    } else {
      var f, more := fields[0], fields[1..];
      var tail := PrintFields(more) + rest;
      assert PrintFields(fields) + rest == PrintField(f) + ([COMMA] + tail);
      ReadField(f, [COMMA] + tail, at, st);
      var n := at + |PrintField(f)|;
      ReadComma(tail, n, st.(field := f.value));
      ReadFields(more, rest, n + 1, rows, row + [f.value]);
      assert row + [f.value] + Front(FieldValues(more)) == row + Front(FieldValues(fields));
    }
  }

  /** A row with its line end is one more finished row. */
  lemma ReadLine(l: Line, rest: Text, at: nat, rows: seq<Row>)
    requires LegalLine(l) && (l.ending.CR? ==> rest == [] || rest[0] != LINE_FEED)
    ensures ReadFrom(PrintFields(l.fields) + PrintEnding(l.ending) + rest, at, Scan(rows, [], [], false))
            == ReadFrom(rest, at + |PrintFields(l.fields) + PrintEnding(l.ending)|,
                        Scan(rows + [FieldValues(l.fields)], [], [], false))
  {
    hide ReadFrom, PrintFields;
    var tail := PrintEnding(l.ending) + rest;
    assert PrintFields(l.fields) + PrintEnding(l.ending) + rest == PrintFields(l.fields) + tail;
    var values := FieldValues(l.fields);
    ReadFields(l.fields, tail, at, rows, []);
    ReadEnding(l.ending, rest, at + |PrintFields(l.fields)|, Scan(rows, [] + Front(values), Last(values), false));
    assert [] + Front(values) + [Last(values)] == values;
  }

  /** A row that starts with a line feed is nothing else. */
  lemma FirstOfLine(l: Line, rest: Text)
    requires LegalLine(l)
    ensures var t := PrintFields(l.fields) + PrintEnding(l.ending) + rest;
            t != [] && (t[0] == LINE_FEED <==> BareLineFeed(l))
  {
    var f := l.fields[0];
    assert LegalField(f);
    assert PrintField(f) == [] <==> f == Field([], false);
    assert |l.fields| == 1 ==> l.fields == [f];
  }

  lemma FirstOfTable(t: seq<Line>, rest: Text)
    requires LegalTable(t) && t != []
    ensures Print(t) + rest != [] && ((Print(t) + rest)[0] == LINE_FEED <==> BareLineFeed(t[0]))
  {
    hide PrintFields, LegalLine;
    FirstOfLine(t[0], Print(t[1..]) + rest);
    assert Print(t) + rest == PrintFields(t[0].fields) + PrintEnding(t[0].ending) + (Print(t[1..]) + rest);
  }

  lemma {:induction false} ReadLines(t: seq<Line>, rest: Text, at: nat, rows: seq<Row>)
    requires LegalTable(t) && (rest == [] || rest[0] != LINE_FEED)
    ensures ReadFrom(Print(t) + rest, at, Scan(rows, [], [], false))
            == ReadFrom(rest, at + |Print(t)|, Scan(rows + Values(t), [], [], false))
    decreases |t|
  {
    if t == [] {
      assert Print(t) + rest == rest && rows + Values(t) == rows;
    } else {
      var head := PrintFields(t[0].fields) + PrintEnding(t[0].ending);
      assert Print(t) + rest == head + (Print(t[1..]) + rest);
      assert LegalLine(t[0]);
      assert LegalTable(t[1..]);
      if t[1..] == [] {
        assert Print(t[1..]) + rest == rest;
      } else {
        FirstOfTable(t[1..], rest);
        assert t[1..][0] == t[1];
      }
      ReadLine(t[0], Print(t[1..]) + rest, at, rows);
      ReadLines(t[1..], rest, at + |head|, rows + [FieldValues(t[0].fields)]);
      assert Values(t) == [FieldValues(t[0].fields)] + Values(t[1..]);
      assert rows + [FieldValues(t[0].fields)] + Values(t[1..]) == rows + Values(t);
    }
  }

  /** Reading undoes writing, whichever fields are quoted and whichever line ends are used. */
  lemma ReadUndoesPrint(t: seq<Line>)
    requires LegalTable(t)
    ensures Read(Print(t)) == Ok(Values(t))
  {
    ReadLines(t, [], 0, []);
    assert Print(t) + [] == Print(t) && [] + Values(t) == Values(t);
  }

  /** At the end of the text an open row is finished, unless it is one empty field. */
  lemma ReadEnd(at: nat, rows: seq<Row>, row: Row, field: Text)
    ensures ReadFrom([], at, Scan(rows, row, field, false))
            == Ok(if row + [field] == [[]] then rows else rows + [row + [field]])
  {
    assert row + [field] == [[]] <==> row == [] && field == [] by {
      assert |row + [field]| == |row| + 1 && (row + [field])[|row|] == field;
    }
  }

  lemma ReadOpenLine(fields: seq<Field>, at: nat, rows: seq<Row>)
    requires LegalFields(fields)
    ensures ReadFrom(PrintFields(fields), at, Scan(rows, [], [], false))
            == Ok(if FieldValues(fields) == [[]] then rows else rows + [FieldValues(fields)])
  {
    hide ReadFrom, PrintFields, FieldValues;
    var values := FieldValues(fields);
    ReadFields(fields, [], at, rows, []);
    assert PrintFields(fields) + [] == PrintFields(fields);
    assert [] + Front(values) == Front(values) && Front(values) + [Last(values)] == values;
    ReadEnd(at + |PrintFields(fields)|, rows, Front(values), Last(values));
  }

  /** Without the last line end, reading undoes writing unless the last row is one empty field. */
  lemma ReadUndoesPrintOpen(t: seq<Line>)
    requires t != [] && LegalTable(t)
    ensures Read(PrintOpen(t)) == Ok(Values(t)) <==> Last(Values(t)) != [[]]
    ensures Last(Values(t)) == [[]] ==> Read(PrintOpen(t)) == Ok(Front(Values(t)))
  {
    hide ReadFrom, PrintFields, FieldValues, Print, Values, LegalTable;
    var front, last := t[..|t| - 1], t[|t| - 1];
    LegalParts(t);
    FirstOfFields(last.fields);
    ReadLines(front, PrintFields(last.fields), 0, []);
    assert [] + Values(front) == Values(front);
    ReadOpenLine(last.fields, |Print(front)|, Values(front));
    ValuesSplit(t);
  }

  lemma FirstOfFields(fields: seq<Field>)
    requires LegalFields(fields)
    ensures PrintFields(fields) != [] ==> PrintFields(fields)[0] != LINE_FEED
  {
    assert LegalField(fields[0]);
  }

  lemma LegalParts(t: seq<Line>)
    requires t != [] && LegalTable(t)
    ensures LegalTable(t[..|t| - 1]) && LegalFields(t[|t| - 1].fields)
  {
    assert LegalLine(t[|t| - 1]);
  }

  lemma ValuesSplit(t: seq<Line>)
    requires t != []
    ensures Front(Values(t)) == Values(t[..|t| - 1]) && Last(Values(t)) == FieldValues(t[|t| - 1].fields)
    ensures Values(t) == Front(Values(t)) + [Last(Values(t))]
  {
  }

  // ------------------------------------------------------------------
  // What is refused
  // ------------------------------------------------------------------

  /** The beginning of a row: some fields, each with its comma. */
  function OpenRow(fields: seq<Field>): Text {
    if fields == [] then [] else PrintFields(fields) + [COMMA]
  }

  lemma ReadOpenRow(t: seq<Line>, fields: seq<Field>, rest: Text)
    requires LegalTable(t) && (fields == [] || LegalFields(fields))
    requires fields == [] ==> rest == [] || rest[0] != LINE_FEED
    ensures Read(Print(t) + OpenRow(fields) + rest)
            == ReadFrom(rest, |Print(t) + OpenRow(fields)|, Scan(Values(t), FieldValues(fields), [], false))
  {
    hide ReadFrom, PrintFields, FieldValues, Print, Values, LegalTable, LegalFields;
    var row := OpenRow(fields);
    assert Print(t) + row + rest == Print(t) + (row + rest);
    assert [] + Values(t) == Values(t);
    if fields == [] {
      assert row + rest == rest && Print(t) + row == Print(t);
      ReadLines(t, rest, 0, []);
      assert FieldValues(fields) == [];
    } else {
      FirstOfFields(fields);
      ReadLines(t, row + rest, 0, []);
      assert row + rest == PrintFields(fields) + ([COMMA] + rest);
      ReadFields(fields, [COMMA] + rest, |Print(t)|, Values(t), []);
      var values := FieldValues(fields);
      ReadComma(rest, |Print(t)| + |PrintFields(fields)|, Scan(Values(t), [] + Front(values), Last(values), false));
      assert [] + Front(values) + [Last(values)] == values;
    }
  }

  lemma {:induction false} ReadUnclosed(f: Text, at: nat, st: Scan)
    requires st.inQuotes
    ensures ReadFrom(Doubled(f), at, st) == Err(UnterminatedQuote)
    decreases |f|
  {
    if f != [] {
      var t, n := Doubled(f), if f[0] == QUOTE then 2 else 1;
      assert t[0] == f[0] && t[n..] == Doubled(f[1..]);
      assert n == 2 ==> t[1] == QUOTE;
      ReadUnclosed(f[1..], at + n, st.(field := st.field + [f[0]]));
    }
  }

  /** A quoted field that is never closed refuses the text, wherever it starts. */
  lemma UnclosedQuoteIsRefused(t: seq<Line>, fields: seq<Field>, f: Text)
    requires LegalTable(t) && (fields == [] || LegalFields(fields))
    ensures Read(Print(t) + OpenRow(fields) + (Units("\"") + Doubled(f))) == Err(UnterminatedQuote)
  {
    hide Print, OpenRow, FieldValues, Values, LegalTable, LegalFields;
    var rest := Units("\"") + Doubled(f);
    ReadOpenRow(t, fields, rest);
    assert rest[0] == QUOTE && rest[1..] == Doubled(f);
    var at := |Print(t) + OpenRow(fields)|;
    ReadUnclosed(f, at + 1, Scan(Values(t), FieldValues(fields), [], true));
  }

  /** A quote inside a field that did not start with one refuses the text, with its offset. */
  lemma StrayQuoteIsRefused(t: seq<Line>, fields: seq<Field>, f: Text, rest: Text)
    requires LegalTable(t) && (fields == [] || LegalFields(fields))
    requires f != [] && forall i :: 0 <= i < |f| ==> !Special(f[i])
    ensures var before := Print(t) + OpenRow(fields) + f;
            Read(before + Units("\"") + rest) == Err(UnexpectedQuote(|before|))
  {
    hide Print, OpenRow, FieldValues, Values, LegalTable, LegalFields;
    var end := Units("\"") + rest;
    var st := Scan(Values(t), FieldValues(fields), [], false);
    var at := |Print(t) + OpenRow(fields)|;
    assert Print(t) + OpenRow(fields) + f + Units("\"") + rest == Print(t) + OpenRow(fields) + (f + end);
    ReadOpenRow(t, fields, f + end);
    ReadBare(f, end, at, st);
    assert [] + f == f && end[0] == QUOTE;
  }
}
