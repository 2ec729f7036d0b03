/** The record dialog of `RecordViewer.jsx`: its title built from the
    required fields of the last search, and for each record shown a header
    with the data source and the record's id, and one line per column whose
    value is truthy. */
module RecordView {
  import opened Wrappers
  import opened Dict
  import Text
  import Js
  import Session
  import Results

  // ---------------------------------------------------------------------
  // Title

  /** `query[f.name]` on an absent query throws. */
  datatype ViewError = MissingQuery | MissingRecord

  /** `query[f.name]`, `undefined` for a missing key. */
  function Lookup(m: Entries<Option<string>>, k: string): Option<string> {
    Get(m, k).GetOr(None)
  }

  /** `f.label || f.name`: unlike the summary chips, the name is shown as is. */
  function TitleLabel(f: Session.ConfigField): (r: string)
    ensures Js.Filled(f.labelText) ==> r == f.labelText.value
    ensures !Js.Filled(f.labelText) ==> r == f.name
  {
    if Js.Filled(f.labelText) then f.labelText.value else f.name
  }

  /** `label : value`. */
  function TitlePart(f: Session.ConfigField, v: string): string {
    TitleLabel(f) + " : " + v
  }

  /** One part per required field with a truthy value, in required order. */
  function TitleParts(required: seq<Session.ConfigField>, m: Entries<Option<string>>): (r: seq<string>)
    ensures |r| <= |required|
    ensures forall p :: p in r ==>
      exists i :: 0 <= i < |required| && Js.Filled(Lookup(m, required[i].name)) &&
        p == TitlePart(required[i], Lookup(m, required[i].name).value)
    ensures forall i :: 0 <= i < |required| && Js.Filled(Lookup(m, required[i].name)) ==>
      TitlePart(required[i], Lookup(m, required[i].name).value) in r
  {
    if |required| == 0 then []
    else
      var rest := TitleParts(required[1..], m);
      assert forall i :: 1 <= i < |required| ==> required[i] == required[1..][i - 1];
      var v := Lookup(m, required[0].name);
      if Js.Filled(v) then [TitlePart(required[0], v.value)] + rest else rest
  }

  /** The parts follow the required order: they distribute over
      concatenation, and one field gives its part iff its value is truthy. */
  lemma {:induction false} TitlePartsOrder(a: seq<Session.ConfigField>, b: seq<Session.ConfigField>, f: Session.ConfigField,
                                           m: Entries<Option<string>>)
    ensures TitleParts(a + b, m) == TitleParts(a, m) + TitleParts(b, m)
    ensures TitleParts([f], m) ==
      if Js.Filled(Lookup(m, f.name)) then [TitlePart(f, Lookup(m, f.name).value)] else []
    decreases |a|
  {
    if |a| == 0 {
      assert a + b == b;
    } else {
      assert (a + b)[0] == a[0];
      assert (a + b)[1..] == a[1..] + b;
      TitlePartsOrder(a[1..], b, f, m);
    }
    assert [f][1..] == [];
  }

  /** The dialog title: the parts joined by `, `. Reading the query throws
      when it is absent and there is a required field to read. */
  function Title(required: seq<Session.ConfigField>, query: Option<Entries<Option<string>>>): (r: Result<string, ViewError>)
    ensures r.Err? <==> query.None? && |required| > 0
    ensures query.None? && |required| == 0 ==> r == Ok("")
  {
    if query.None? then (if |required| == 0 then Ok("") else Err(MissingQuery))
    else Ok(Text.Join(TitleParts(required, query.value), ", "))
  }

  /** The title is empty exactly when no required field has a truthy value. */
  lemma TitleEmpty(required: seq<Session.ConfigField>, m: Entries<Option<string>>)
    ensures Title(required, Some(m)) == Ok("") <==>
      forall i :: 0 <= i < |required| ==> !Js.Filled(Lookup(m, required[i].name))
  {
    var parts := TitleParts(required, m);
    if |parts| > 0 {
      assert parts[0] in parts;
      var i :| 0 <= i < |required| && Js.Filled(Lookup(m, required[i].name))
        && parts[0] == TitlePart(required[i], Lookup(m, required[i].name).value);
      assert |Text.Join(parts, ", ")| >= |parts[0]| >= 3;
    }
  }

  /** When no label or value contains a comma, the title splits back into
      its parts. */
  lemma TitleRoundTrip(required: seq<Session.ConfigField>, m: Entries<Option<string>>)
    requires forall i :: 0 <= i < |required| ==> ',' !in TitleLabel(required[i])
    requires forall i :: 0 <= i < |required| && Lookup(m, required[i].name).Some? ==>
      ',' !in Lookup(m, required[i].name).value
    requires exists i :: 0 <= i < |required| && Js.Filled(Lookup(m, required[i].name))
    ensures Title(required, Some(m)).Ok?
    ensures Text.Split(Title(required, Some(m)).value, ", ") == TitleParts(required, m)
  {
    var parts := TitleParts(required, m);
    var i :| 0 <= i < |required| && Js.Filled(Lookup(m, required[i].name));
    assert TitlePart(required[i], Lookup(m, required[i].name).value) in parts;
    TitlePartsNoComma(required, m);
    Text.LeadCharSeparable(parts, ", ");
    Text.SplitJoin(parts, ", ");
  }

  lemma TitlePartsNoComma(required: seq<Session.ConfigField>, m: Entries<Option<string>>)
    requires forall i :: 0 <= i < |required| ==> ',' !in TitleLabel(required[i])
    requires forall i :: 0 <= i < |required| && Lookup(m, required[i].name).Some? ==>
      ',' !in Lookup(m, required[i].name).value
    ensures forall k :: 0 <= k < |TitleParts(required, m)| ==> ',' !in TitleParts(required, m)[k]
  {
    var parts := TitleParts(required, m);
    forall k | 0 <= k < |parts| ensures ',' !in parts[k] {
      assert parts[k] in parts;
      var i :| 0 <= i < |required| && Js.Filled(Lookup(m, required[i].name))
        && parts[k] == TitlePart(required[i], Lookup(m, required[i].name).value);
      PartNoComma(required[i], Lookup(m, required[i].name).value);
    }
  }

  lemma PartNoComma(f: Session.ConfigField, v: string)
    requires ',' !in TitleLabel(f) && ',' !in v
    ensures ',' !in TitlePart(f, v)
  {
    assert TitlePart(f, v) == TitleLabel(f) + " : " + v;
  }

  // ---------------------------------------------------------------------
  // Record lines

  /** The columns never listed as lines. */
  predicate Hidden(field: string) {
    field == "id" || field == "actions" || field == "createdAt"
  }

  predicate DistinctFields(cs: seq<Results.Column>) {
    forall i, j :: 0 <= i < j < |cs| ==> cs[i].field != cs[j].field
  }

  /** The columns listed for a record: not hidden, with a truthy value in the
      record, in column order. */
  function DisplayedColumns(defs: seq<Results.Column>, record: Js.Value): (r: seq<Results.Column>)
    ensures |r| <= |defs|
    ensures forall c :: c in r <==> c in defs && !Hidden(c.field) && Js.Truthy(Js.Property(record, c.field))
  {
    if |defs| == 0 then []
    else
      var rest := DisplayedColumns(defs[1..], record);
      assert forall c :: c in defs <==> c == defs[0] || c in defs[1..];
      var c := defs[0];
      if !Hidden(c.field) && Js.Truthy(Js.Property(record, c.field)) then [c] + rest else rest
  }

  /** The listed columns follow the definition order: listing distributes
      over concatenation and keeps a single column iff it is shown. */
  lemma {:induction false} DisplayedColumnsOrder(a: seq<Results.Column>, b: seq<Results.Column>, c: Results.Column, record: Js.Value)
    ensures DisplayedColumns(a + b, record) == DisplayedColumns(a, record) + DisplayedColumns(b, record)
    ensures DisplayedColumns([c], record) ==
      if !Hidden(c.field) && Js.Truthy(Js.Property(record, c.field)) then [c] else []
    decreases |a|
  {
    if |a| == 0 {
      assert a + b == b;
    } else {
      assert (a + b)[0] == a[0];
      assert (a + b)[1..] == a[1..] + b;
      DisplayedColumnsOrder(a[1..], b, c, record);
    }
    assert [c][1..] == [];
  }

  /** Listing keeps the columns' fields distinct. */
  lemma {:induction false} DisplayedColumnsDistinct(defs: seq<Results.Column>, record: Js.Value)
    requires DistinctFields(defs)
    ensures DistinctFields(DisplayedColumns(defs, record))
  {
    if |defs| > 0 {
      var tail := defs[1..];
      assert DistinctFields(tail) by {
        forall i, j | 0 <= i < j < |tail| ensures tail[i].field != tail[j].field {
          assert tail[i] == defs[i + 1] && tail[j] == defs[j + 1];
        }
      }
      DisplayedColumnsDistinct(tail, record);
      var rest := DisplayedColumns(tail, record);
      forall k | 0 <= k < |rest| ensures rest[k].field != defs[0].field {
        assert rest[k] in tail;
        var j :| 0 <= j < |tail| && tail[j] == rest[k];
        assert defs[j + 1] == rest[k];
      }
    }
  }

  /** A listed line: `headerName:` in bold, the value's text, and whether it
      is the clicked cell's column. */
  datatype Line = Line(heading: string, text: string, highlighted: bool)

  function Lines(cs: seq<Results.Column>, record: Js.Value, highlighted: Option<string>): (r: seq<Line>)
    ensures |r| == |cs|
    ensures forall i :: 0 <= i < |cs| ==>
      r[i] == Line(cs[i].headerName + ":", Js.Template(Js.Property(record, cs[i].field)), highlighted == Some(cs[i].field))
  {
    if |cs| == 0 then []
    else
      [Line(cs[0].headerName + ":", Js.Template(Js.Property(record, cs[0].field)), highlighted == Some(cs[0].field))]
      + Lines(cs[1..], record, highlighted)
  }

  // ---------------------------------------------------------------------
  // Record header

  /** `${dataSource || ''}`. */
  function SourceText(dataSource: Option<string>): string {
    if Js.Filled(dataSource) then dataSource.value else ""
  }

  /** `${dataSource || ''} ${recordData.id || ''}`: a falsy id, `0`
      included, shows nothing. Reading `.id` of a missing record throws. */
  function HeaderAsWritten(dataSource: Option<string>, record: Js.Value): (r: Result<string, ViewError>)
    ensures r.Err? <==> record.Undefined? || record.Null?
    ensures r.Ok? && Js.Truthy(Js.Property(record, "id")) ==>
      r.value == SourceText(dataSource) + " " + Js.Template(Js.Property(record, "id"))
    ensures r.Ok? && !Js.Truthy(Js.Property(record, "id")) ==> r.value == SourceText(dataSource) + " "
  {
    if record.Undefined? || record.Null? then Err(MissingRecord)
    else
      var id := Js.Property(record, "id");
      Ok(SourceText(dataSource) + " " + (if Js.Truthy(id) then Js.Template(id) else ""))
  }

  /** The header with the id shown whenever the record has one. */
  function Header(dataSource: Option<string>, record: Js.Value): (r: Result<string, ViewError>)
    ensures r.Err? <==> record.Undefined? || record.Null?
    ensures r.Ok? ==> |r.value| > |SourceText(dataSource)| && r.value[..|SourceText(dataSource)| + 1] == SourceText(dataSource) + " "
  {
    if record.Undefined? || record.Null? then Err(MissingRecord)
    else
      var id := Js.Property(record, "id");
      Ok(SourceText(dataSource) + " " + (if id.Undefined? || id.Null? then "" else Js.Template(id)))
  }

  /** The header tells the record's number: two records with numeric ids
      and the same header have the same id. */
  lemma HeaderShowsId(dataSource: Option<string>, a: Js.Value, b: Js.Value)
    requires Js.Property(a, "id").Num? && Js.Property(b, "id").Num?
    requires Header(dataSource, a) == Header(dataSource, b)
    ensures Js.Property(a, "id") == Js.Property(b, "id")
  {
    var n := |SourceText(dataSource)| + 1;
    var ha := Header(dataSource, a).value;
    var ta := Text.IntToString(Js.Property(a, "id").n);
    var tb := Text.IntToString(Js.Property(b, "id").n);
    assert ha[n..] == ta;
    assert ha[n..] == tb;
    Text.IntToStringInjective(Js.Property(a, "id").n, Js.Property(b, "id").n);
  }

  /** For a truthy id the two headers agree. */
  lemma HeadersAgreeOnTruthyIds(dataSource: Option<string>, record: Js.Value)
    requires Js.Truthy(Js.Property(record, "id"))
    ensures HeaderAsWritten(dataSource, record) == Header(dataSource, record)
  {
  }

  /** The first row of the results has id 0, and its header shows no
      number: the same header as a record without an id. */
  lemma HeaderAsWrittenDropsZero()
    ensures HeaderAsWritten(Some("Runs"), Js.Obj([("id", Js.Num(0))])) == Ok("Runs ")
    ensures HeaderAsWritten(Some("Runs"), Js.Obj([])) == Ok("Runs ")
    ensures Header(Some("Runs"), Js.Obj([("id", Js.Num(0))])) == Ok("Runs 0")
  {
    assert Text.IntToString(0) == "0";
    assert Js.Property(Js.Obj([("id", Js.Num(0))]), "id") == Js.Num(0);
    assert Js.Property(Js.Obj([]), "id") == Js.Undefined;
    assert SourceText(Some("Runs")) == "Runs";
    assert "Runs" + " " + "" == "Runs ";
    assert "Runs" + " " + "0" == "Runs 0";
  }

  // ---------------------------------------------------------------------
  // Dialog content

  /** What is drawn for one record. */
  datatype RecordPanel = RecordPanel(header: string, created: string, lines: seq<Line>)

  function RenderRecord(dataSource: Option<string>, defs: seq<Results.Column>, highlighted: Option<string>,
                        record: Js.Value): (r: Result<RecordPanel, ViewError>)
    ensures r.Err? <==> record.Undefined? || record.Null?
    ensures r.Ok? ==> r.value.header == Header(dataSource, record).value
    ensures r.Ok? ==> r.value.created == "Created at: " + Js.Template(Js.Property(record, "createdAt"))
    ensures r.Ok? ==> |r.value.lines| == |DisplayedColumns(defs, record)|
  {
    if record.Undefined? || record.Null? then Err(MissingRecord)
    else
      Ok(RecordPanel(Header(dataSource, record).value,
                     "Created at: " + Js.Template(Js.Property(record, "createdAt")),
                     Lines(DisplayedColumns(defs, record), record, highlighted)))
  }

  /** With unique column fields, at most one line of a record is highlighted. */
  lemma HighlightUnique(dataSource: Option<string>, defs: seq<Results.Column>, highlighted: Option<string>,
                        record: Js.Value, i: nat, j: nat)
    requires DistinctFields(defs)
    requires RenderRecord(dataSource, defs, highlighted, record).Ok?
    requires var ls := RenderRecord(dataSource, defs, highlighted, record).value.lines;
      i < |ls| && j < |ls| && ls[i].highlighted && ls[j].highlighted
    ensures i == j
  {
    DisplayedColumnsDistinct(defs, record);
  }

  /** The records shown: an array's elements, or the one record. */
  function Records(data: Js.Value): (r: seq<Js.Value>)
    ensures data.Arr? ==> r == data.items
    ensures !data.Arr? ==> r == [data]
  {
    if data.Arr? then data.items else [data]
  }

  function RenderAll(dataSource: Option<string>, defs: seq<Results.Column>, highlighted: Option<string>,
                     records: seq<Js.Value>): (r: Result<seq<RecordPanel>, ViewError>)
    ensures r.Ok? <==> forall i :: 0 <= i < |records| ==> !(records[i].Undefined? || records[i].Null?)
    ensures r.Ok? ==> |r.value| == |records|
    ensures r.Ok? ==> forall i :: 0 <= i < |records| ==>
      r.value[i] == RenderRecord(dataSource, defs, highlighted, records[i]).value
  {
    if |records| == 0 then Ok([])
    else
      var first := RenderRecord(dataSource, defs, highlighted, records[0]);
      var rest := RenderAll(dataSource, defs, highlighted, records[1..]);
      assert forall i :: 1 <= i < |records| ==> records[i] == records[1..][i - 1];
      if first.Err? then Err(first.error)
      else if rest.Err? then Err(rest.error)
      else Ok([first.value] + rest.value)
  }

  /** `content`: one panel per record; it throws if any record is missing. */
  function Content(dataSource: Option<string>, defs: seq<Results.Column>, highlighted: Option<string>,
                   data: Js.Value): (r: Result<seq<RecordPanel>, ViewError>)
    ensures r.Ok? ==> |r.value| == |Records(data)|
    ensures r.Ok? <==> forall i :: 0 <= i < |Records(data)| ==> !(Records(data)[i].Undefined? || Records(data)[i].Null?)
  {
    RenderAll(dataSource, defs, highlighted, Records(data))
  }

  /** A row of the results opens as exactly one panel whose header carries
      the row's id and lists the row's truthy visible columns. */
  lemma RowOpensOnePanel(dataSource: Option<string>, defs: seq<Results.Column>, highlighted: Option<string>,
                         row: Results.Row, c: Results.Column)
    requires c in defs && !Hidden(c.field) && Js.Truthy(Js.Property(Js.Obj(row), c.field))
    ensures Content(dataSource, defs, highlighted, Js.Obj(row)).Ok?
    ensures |Content(dataSource, defs, highlighted, Js.Obj(row)).value| == 1
    ensures c in DisplayedColumns(defs, Js.Obj(row))
  {
  }

  /** Clicking a row outside the array gives no record, and the dialog
      cannot be drawn. */
  lemma MissingRowFails(dataSource: Option<string>, defs: seq<Results.Column>, highlighted: Option<string>)
    ensures Content(dataSource, defs, highlighted, Js.Undefined) == Err(MissingRecord)
  {
  }
}
