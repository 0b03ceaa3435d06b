/**
  Ingestion of a structured dataset: a CSV export and a schema become one hashed
  entry per cell that normalizes to something. Normalization, case folding and
  the salted digest are parameters.
 */
module EdmIngest {
  import opened CodeUnits
  import opened Wrappers
  import Csv

  datatype FieldType = TextField | IdField | NumberField | DateField | OtherField(name: Text)

  datatype Column = Column(name: Text, kind: FieldType)

  datatype Entry = Entry(rowId: nat, fieldId: nat, hash: int)

  datatype Ingested = Ingested(entries: seq<Entry>, rowCount: nat)

  datatype IngestError =
    | BadSchema | ParseFailed(error: Csv.CsvError) | CsvEmpty | HeaderMismatch
    | RaggedRow(row: nat) | UnknownType(name: Text) | EmptySalt | FieldIdTooBig(field: nat)

  /** blank: trims to nothing; fold: trimmed and lower-cased. */
  datatype Rules = Rules(
    blank: Text -> bool,
    fold: Text -> Text,
    normalize: (Text, FieldType) -> Option<Text>,
    digest: (seq<int>, nat, Text) -> int)

  const MAX_FIELD_ID := 0xffff

  /** One ingestion: the rules, the schema and the salt of the source. */
  datatype Source = Source(rules: Rules, schema: seq<Column>, salt: seq<int>) {

    predicate BlankRow(row: Csv.Row) {
      forall i :: 0 <= i < |row| ==> rules.blank(row[i])
    }

    /** Without the blank rows at the end. */
    function Trimmed(rows: seq<Csv.Row>): (r: seq<Csv.Row>)
      ensures r <= rows && (r != [] ==> !BlankRow(r[|r| - 1]))
    {
      if rows == [] || !BlankRow(rows[|rows| - 1]) then rows else Trimmed(rows[..|rows| - 1])
    }

    predicate HeaderMatches(header: Csv.Row) {
      |header| == |schema|
      && forall i :: 0 <= i < |header| ==> rules.fold(header[i]) == rules.fold(schema[i].name)
    }

    /** What makes the ingestion of a cell fail. */
    function CellFault(cell: Text, f: nat): Option<IngestError>
      requires f < |schema|
    {
      if schema[f].kind.OtherField? then Some(UnknownType(schema[f].kind.name))
      else if rules.normalize(cell, schema[f].kind).None? then None
      else if salt == [] then Some(EmptySalt)
      else if f > MAX_FIELD_ID then Some(FieldIdTooBig(f))
      else None
    }

    function CellsFault(cells: Csv.Row, f: nat): Option<IngestError>
      requires |cells| == |schema| && f <= |schema|
      decreases |schema| - f
    {
      if f == |schema| then None
      else if CellFault(cells[f], f).Some? then CellFault(cells[f], f)
      else CellsFault(cells, f + 1)
    }

    function RowFault(cells: Csv.Row, r: nat): Option<IngestError> {
      if |cells| != |schema| then Some(RaggedRow(r)) else CellsFault(cells, 0)
    }

    /** The first fault in the data rows from r on. */
    function FirstFault(rows: seq<Csv.Row>, r: nat): Option<IngestError>
      requires r <= |rows|
      decreases |rows| - r
    {
      if r == |rows| then None
      else if RowFault(rows[r], r).Some? then RowFault(rows[r], r)
      else FirstFault(rows, r + 1)
    }

    /** e is the entry of a data cell that normalizes to something. */
    predicate CellEntry(rows: seq<Csv.Row>, e: Entry) {
      && 1 <= e.rowId < |rows|
      && e.fieldId < |schema| && e.fieldId < |rows[e.rowId]|
      && rules.normalize(rows[e.rowId][e.fieldId], schema[e.fieldId].kind).Some?
      && e.hash == rules.digest(salt, e.fieldId,
                                rules.normalize(rows[e.rowId][e.fieldId], schema[e.fieldId].kind).value)
    }

    /** Exactly one entry per cell that normalizes to something, row by row. */
    ghost predicate IsIngested(rows: seq<Csv.Row>, d: Ingested) {
      && d.rowCount == |rows| - 1
      && RowMajor(d.entries)
      && forall e :: e in d.entries <==> CellEntry(rows, e)
    }

    ghost predicate Outcome(csvText: Text, r: Result<Ingested, IngestError>) {
      if schema == [] then r == Err(BadSchema)
      else
        match Csv.Read(csvText)
        case Err(e) => r == Err(ParseFailed(e))
        case Ok(parsed) =>
          var rows := Trimmed(parsed);
          if rows == [] then r == Err(CsvEmpty)
          else if !HeaderMatches(rows[0]) then r == Err(HeaderMismatch)
          else if FirstFault(rows, 1).Some? then r == Err(FirstFault(rows, 1).value)
          else r.Ok? && IsIngested(rows, r.value)
    }
  }

  predicate Before(r: nat, f: nat, s: nat, g: nat) {
    r < s || (r == s && f < g)
  }

  ghost predicate RowMajor(entries: seq<Entry>) {
    forall i, j :: 0 <= i < j < |entries| ==>
      Before(entries[i].rowId, entries[i].fieldId, entries[j].rowId, entries[j].fieldId)
  }

  method DropBlankRows(src: Source, parsed: seq<Csv.Row>) returns (rows: seq<Csv.Row>)
    ensures rows == src.Trimmed(parsed)
  {
    rows := parsed;
    while |rows| > 0 && src.BlankRow(rows[|rows| - 1])
      invariant src.Trimmed(rows) == src.Trimmed(parsed)
    {
      rows := rows[..|rows| - 1];
    }
  }

  method HashField(src: Source, f: nat, value: Text) returns (r: Result<int, IngestError>)
    ensures r == if src.salt == [] then Err(EmptySalt)
                 else if f > MAX_FIELD_ID then Err(FieldIdTooBig(f))
                 else Ok(src.rules.digest(src.salt, f, value))
  {
    if |src.salt| == 0 {
      return Err(EmptySalt);
    }
    if f > MAX_FIELD_ID {
      return Err(FieldIdTooBig(f));
    }
    return Ok(src.rules.digest(src.salt, f, value));
  }

  /** entries are exactly those of the cells before cell f of row r, in order. */
  ghost predicate Gathered(src: Source, rows: seq<Csv.Row>, entries: seq<Entry>, r: nat, f: nat) {
    && RowMajor(entries)
    && forall e :: e in entries <==> src.CellEntry(rows, e) && Before(e.rowId, e.fieldId, r, f)
  }

  lemma GatherOne(src: Source, rows: seq<Csv.Row>, entries: seq<Entry>, r: nat, f: nat)
    requires Gathered(src, rows, entries, r, f) && 1 <= r < |rows| && f < |src.schema| == |rows[r]|
    ensures var v := src.rules.normalize(rows[r][f], src.schema[f].kind);
            Gathered(src, rows, if v.None? then entries
                                else entries + [Entry(r, f, src.rules.digest(src.salt, f, v.value))], r, f + 1)
  {
    var v := src.rules.normalize(rows[r][f], src.schema[f].kind);
    if v.Some? {
      var e := Entry(r, f, src.rules.digest(src.salt, f, v.value));
      var more := entries + [e];
      assert forall x :: x in more <==> x in entries || x == e;
      forall i, j | 0 <= i < j < |more|
        ensures Before(more[i].rowId, more[i].fieldId, more[j].rowId, more[j].fieldId)
      {
        assert more[i] in entries;
      }
    }
  }

  lemma GatherNextRow(src: Source, rows: seq<Csv.Row>, entries: seq<Entry>, r: nat)
    requires Gathered(src, rows, entries, r, |src.schema|)
    ensures Gathered(src, rows, entries, r + 1, 0)
  {
  }

  lemma GatheredAll(src: Source, rows: seq<Csv.Row>, entries: seq<Entry>)
    requires |rows| > 0 && Gathered(src, rows, entries, |rows|, 0)
    ensures src.IsIngested(rows, Ingested(entries, |rows| - 1))
  {
  }

  method IngestCsv(csvText: Text, src: Source) returns (r: Result<Ingested, IngestError>)
    ensures src.Outcome(csvText, r)
  {
    var schema := src.schema;
    if |schema| == 0 {
      return Err(BadSchema);
    }
    var parsed := Csv.ParseCsv(csvText);
    if parsed.Err? {
      return Err(ParseFailed(parsed.error));
    }
    var rows := DropBlankRows(src, parsed.value);
    if |rows| == 0 {
      return Err(CsvEmpty);
    }
    if !src.HeaderMatches(rows[0]) {
      return Err(HeaderMismatch);
    }
    r := IngestRows(src, rows);
  }

  lemma CellsFaultStep(src: Source, cells: Csv.Row, f: nat)
    requires |cells| == |src.schema| && f <= |cells|
    ensures src.CellsFault(cells, f) ==
            if f == |cells| then None
            else if src.CellFault(cells[f], f).Some? then src.CellFault(cells[f], f)
            else src.CellsFault(cells, f + 1)
  {
  }

  /** The entries of row r, added to those of the rows before it. */
  method IngestCells(src: Source, rows: seq<Csv.Row>, r: nat, earlier: seq<Entry>)
    returns (result: Result<seq<Entry>, IngestError>)
    requires 1 <= r < |rows| && Gathered(src, rows, earlier, r, 0)
    ensures match src.RowFault(rows[r], r)
            case Some(e) => result == Err(e)
            case None => result.Ok? && Gathered(src, rows, result.value, r + 1, 0)
  {
    hide Gathered, Source.CellsFault;
    var cells := rows[r];
    if |cells| != |src.schema| {
      return Err(RaggedRow(r));
    }
    var entries := earlier;
    var f := 0;
    while f < |src.schema|
      invariant 0 <= f <= |src.schema|
      invariant src.CellsFault(cells, f) == src.CellsFault(cells, 0)
      invariant Gathered(src, rows, entries, r, f)
    {
      CellsFaultStep(src, cells, f);
      if src.schema[f].kind.OtherField? {
        return Err(UnknownType(src.schema[f].kind.name));
      }
      GatherOne(src, rows, entries, r, f);
      var value := src.rules.normalize(cells[f], src.schema[f].kind);
      if value.Some? {
        var hash := HashField(src, f, value.value);
        if hash.Err? {
          return Err(hash.error);
        }
        entries := entries + [Entry(r, f, hash.value)];
      }
      f := f + 1;
    }
    CellsFaultStep(src, cells, f);
    GatherNextRow(src, rows, entries, r);
    return Ok(entries);
  }

  method IngestRows(src: Source, rows: seq<Csv.Row>) returns (result: Result<Ingested, IngestError>)
    requires |rows| > 0
    ensures match src.FirstFault(rows, 1)
            case Some(e) => result == Err(e)
            case None => result.Ok? && src.IsIngested(rows, result.value)
  {
    var entries: seq<Entry> := [];
    assert Gathered(src, rows, entries, 1, 0);
    hide Gathered, Source.IsIngested, Source.RowFault;
    var r := 1;
    while r < |rows|
      invariant 1 <= r <= |rows|
      invariant src.FirstFault(rows, r) == src.FirstFault(rows, 1)
      invariant Gathered(src, rows, entries, r, 0)
    {
      var more := IngestCells(src, rows, r, entries);
      if more.Err? {
        return Err(more.error);
      }
      entries := more.value;
      r := r + 1;
    }
    GatheredAll(src, rows, entries);
    return Ok(Ingested(entries, |rows| - 1));
  }

  // ------------------------------------------------------------------
  // What the outcome determines
  // ------------------------------------------------------------------

  /** The outcome of an ingestion is unique. */
  lemma OutcomeUnique(src: Source, csvText: Text, p: Result<Ingested, IngestError>, q: Result<Ingested, IngestError>)
    requires src.Outcome(csvText, p) && src.Outcome(csvText, q)
    ensures p == q
  {
    if p.Ok? {
      SameEntries(p.value.entries, q.value.entries);
    }
  }

  lemma {:induction false} SameEntries(a: seq<Entry>, b: seq<Entry>)
    requires RowMajor(a) && RowMajor(b) && forall e :: e in a <==> e in b
    ensures a == b
  {
    assert a != [] ==> a[0] in b;
    assert b != [] ==> b[0] in a;
    if a != [] && b != [] {
      var i :| 0 <= i < |b| && b[i] == a[0];
      var j :| 0 <= j < |a| && a[j] == b[0];
      assert a[0] == b[0];
      forall e
        ensures e in a[1..] <==> e in b[1..]
      {
        assert e in a <==> e == a[0] || e in a[1..];
        assert e in b <==> e == b[0] || e in b[1..];
      }
      SameEntries(a[1..], b[1..]);
      assert a == [a[0]] + a[1..] && b == [b[0]] + b[1..];
    }
  }

  lemma {:induction false} NoFault(src: Source, rows: seq<Csv.Row>, r: nat)
    requires r <= |rows| && forall i :: r <= i < |rows| ==> src.RowFault(rows[i], i).None?
    ensures src.FirstFault(rows, r).None?
    decreases |rows| - r
  {
    if r < |rows| {
      NoFault(src, rows, r + 1);
    }
  }

  lemma {:induction false} NoCellFault(src: Source, cells: Csv.Row, f: nat)
    requires |cells| == |src.schema| && f <= |cells|
    requires forall i :: f <= i < |cells| ==> src.CellFault(cells[i], i).None?
    ensures src.CellsFault(cells, f).None?
    decreases |cells| - f
  {
    if f < |cells| {
      NoCellFault(src, cells, f + 1);
    }
  }

  ghost predicate UsableSchema(src: Source) {
    0 < |src.schema| <= MAX_FIELD_ID + 1 && src.salt != []
    && forall f :: 0 <= f < |src.schema| ==> !src.schema[f].kind.OtherField?
  }

  /** Ingesting a printed table whose header fits, whose rows are as wide as the schema
      and whose last row is not blank yields exactly the table's cells. */
  lemma PrintedTableIsIngested(src: Source, t: seq<Csv.Line>, r: Result<Ingested, IngestError>)
    requires UsableSchema(src) && t != [] && Csv.LegalTable(t)
    requires src.HeaderMatches(Csv.Values(t)[0]) && !src.BlankRow(Csv.Values(t)[|t| - 1])
    requires forall i :: 0 <= i < |t| ==> |Csv.Values(t)[i]| == |src.schema|
    requires src.Outcome(Csv.Print(t), r)
    ensures r.Ok? && r.value.rowCount == |t| - 1 && src.IsIngested(Csv.Values(t), r.value)
  {
    hide Csv.Values, Csv.Print;
    var rows := Csv.Values(t);
    Csv.ReadUndoesPrint(t);
    assert src.Trimmed(rows) == rows;
    forall i | 0 <= i < |rows|
      ensures src.RowFault(rows[i], i).None?
    {
      NoCellFault(src, rows[i], 0);
    }
    NoFault(src, rows, 1);
  }

  predicate IsFilled(src: Source, row: Csv.Row, i: nat)
    requires i < |row|
  {
    !src.rules.blank(row[i])
  }

  /** The header's name of column i is not the schema's, up to white space around it and case. */
  predicate NameDiffers(src: Source, header: Csv.Row, i: nat)
    requires i < |header| && i < |src.schema|
  {
    src.rules.fold(header[i]) != src.rules.fold(src.schema[i].name)
  }

  /** A printed table whose last row is not blank is refused for its header exactly when some name, or
      the number of names, differs. */
  lemma HeaderDecides(src: Source, t: seq<Csv.Line>, filled: nat, r: Result<Ingested, IngestError>)
    requires src.schema != [] && t != [] && Csv.LegalTable(t) && src.Outcome(Csv.Print(t), r)
    requires filled < |t[|t| - 1].fields| && !src.rules.blank(t[|t| - 1].fields[filled].value)
    ensures var header := Csv.FieldValues(t[0].fields);
            r == Err(HeaderMismatch)
            <==> |header| != |src.schema|
                 || exists i :: 0 <= i < |header| && NameDiffers(src, header, i)
  {
    hide Csv.Print, Source.IsIngested;
    var rows := Csv.Values(t);
    Csv.ReadUndoesPrint(t);
    assert rows[0] == Csv.FieldValues(t[0].fields);
    assert rows[|t| - 1][filled] == t[|t| - 1].fields[filled].value;
    assert src.Trimmed(rows) == rows;
    RowFaultIsNotHeader(src, rows, 1);
    HeaderMatchesIs(src, rows[0]);
  }

  lemma HeaderMatchesIs(src: Source, header: Csv.Row)
    ensures src.HeaderMatches(header)
            <==> |header| == |src.schema| && forall i :: 0 <= i < |header| ==> !NameDiffers(src, header, i)
  {
    if |header| == |src.schema| && !src.HeaderMatches(header) {
      var i :| 0 <= i < |header| && src.rules.fold(header[i]) != src.rules.fold(src.schema[i].name);
      assert NameDiffers(src, header, i);
    }
  }

  lemma {:induction false} RowFaultIsNotHeader(src: Source, rows: seq<Csv.Row>, r: nat)
    requires r <= |rows|
    ensures src.FirstFault(rows, r) != Some(HeaderMismatch)
    decreases |rows| - r
  {
    if r < |rows| {
      RowFaultIsNotHeader(src, rows, r + 1);
      if |rows[r]| == |src.schema| {
        CellFaultIsNotHeader(src, rows[r], 0);
      }
    }
  }

  lemma {:induction false} CellFaultIsNotHeader(src: Source, cells: Csv.Row, f: nat)
    requires |cells| == |src.schema| && f <= |cells|
    ensures src.CellsFault(cells, f) != Some(HeaderMismatch)
    decreases |cells| - f
  {
    if f < |cells| {
      CellFaultIsNotHeader(src, cells, f + 1);
    }
  }

  /** A row at the end counts exactly when one of its cells is not blank. */
  lemma BlankRowsAtTheEnd(src: Source, rows: seq<Csv.Row>, row: Csv.Row)
    ensures src.Trimmed(rows + [row])
            == if exists i :: 0 <= i < |row| && IsFilled(src, row, i) then rows + [row] else src.Trimmed(rows)
  {
    assert (rows + [row])[..|rows|] == rows;
    if !src.BlankRow(row) {
      var i :| 0 <= i < |row| && !src.rules.blank(row[i]);
      assert IsFilled(src, row, i);
    }
  }
}
