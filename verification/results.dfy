/** The results view of `Results.jsx`: the grid columns derived from the
    operation's return type, the rows built from a response, the header
    above the grid, the export file name, and which record a click opens. */
module Results {
  import opened Wrappers
  import opened Dict
  import opened GraphQL
  import Js
  import Text
  import Utils
  import Session

  // ---------------------------------------------------------------------
  // Columns

  datatype ColType = Number | StringCol | BooleanCol | DateCol | DateTimeCol | SingleSelect

  /** `GRAPHQL_TO_DATAGRID_TYPE`. */
  const TypeMap: Entries<ColType> := [
    ("Int", Number), ("Int64", Number), ("Float", Number), ("Float64", Number),
    ("String", StringCol), ("Boolean", BooleanCol), ("Date", DateCol), ("Time", DateTimeCol)]

  /** The scalar type names the table knows. */
  predicate Known(name: string) {
    name in {"Int", "Int64", "Float", "Float64", "String", "Boolean", "Date", "Time"}
  }

  /** `GRAPHQL_TO_DATAGRID_TYPE[t.name] || (t.enumValues && 'singleSelect')`. */
  function ColumnType(t: TypeDef): (r: Option<ColType>)
    ensures r == Some(Number) <==> t.name in {"Int", "Int64", "Float", "Float64"}
    ensures r == Some(StringCol) <==> t.name == "String"
    ensures r == Some(BooleanCol) <==> t.name == "Boolean"
    ensures r == Some(DateCol) <==> t.name == "Date"
    ensures r == Some(DateTimeCol) <==> t.name == "Time"
    ensures r == Some(SingleSelect) <==> !Known(t.name) && t.enumValues.Some?
    ensures r.None? <==> !Known(t.name) && t.enumValues.None?
  {
    match Get(TypeMap, t.name)
    case Some(c) => Some(c)
    case None => if t.enumValues.Some? then Some(SingleSelect) else None
  }

  /** A grid column. `dateGetter` says whether values are turned into dates
      before display. */
  datatype Column = Column(field: string, headerName: string, colType: Option<ColType>,
                           valueOptions: Option<seq<string>>, width: int, dateGetter: bool)

  /** The column of one return-type field. */
  function MakeColumn(f: Field): (c: Column)
    ensures c.field == f.name && c.headerName == Utils.CamelCaseToWords(f.name)
    ensures c.colType == ColumnType(f.typ) && c.valueOptions == f.typ.enumValues
  {
    Column(f.name, Utils.CamelCaseToWords(f.name), ColumnType(f.typ), f.typ.enumValues,
           if f.typ.name in {"String", "Time"} then 180 else 100,
           f.typ.name in {"Date", "Time"})
  }

  /** Wide columns are exactly the string and date-time ones, and values are
      turned into dates exactly in the date and date-time columns. */
  lemma ColumnWidthAndGetter(f: Field)
    ensures MakeColumn(f).width == 180 <==> MakeColumn(f).colType in {Some(StringCol), Some(DateTimeCol)}
    ensures MakeColumn(f).width != 180 ==> MakeColumn(f).width == 100
    ensures MakeColumn(f).dateGetter <==> MakeColumn(f).colType in {Some(DateCol), Some(DateTimeCol)}
  {
  }

  function MakeColumns(fs: seq<Field>): (cs: seq<Column>)
    ensures |cs| == |fs|
    ensures forall i :: 0 <= i < |fs| ==> cs[i] == MakeColumn(fs[i])
  {
    if |fs| == 0 then [] else [MakeColumn(fs[0])] + MakeColumns(fs[1..])
  }

  /** `queryDefinition?.type?.fields?.map(...)`: no columns, and so no view
      at all, when the return type has no fields. */
  function Columns(qd: Option<Operation>): (r: Option<seq<Column>>)
    ensures r.None? <==> qd.None? || qd.value.typ.fields.Absent?
    ensures r.Some? ==> |r.value| == |qd.value.typ.fields.items|
    ensures r.Some? ==> forall i :: 0 <= i < |r.value| ==>
      r.value[i].field == qd.value.typ.fields.items[i].name &&
      r.value[i].headerName == Utils.CamelCaseToWords(qd.value.typ.fields.items[i].name)
  {
    if qd.None? then None
    else match qd.value.typ.fields
      case Absent => None
      case Present(fs) => Some(MakeColumns(fs))
  }

  // ---------------------------------------------------------------------
  // Rows

  type Row = Entries<Js.Value>

  datatype ResultsError = NotAList

  /** `{id: i, ...line}`: the position, overridden by the record's own `id`. */
  function MakeRow(i: nat, line: Js.Value): (r: Row)
    ensures DistinctKeys(r)
  {
    PutAll([("id", Js.Num(i))], Js.SpreadEntries(line))
  }

  /** `list.map((line, i) => ({id: i, ...line}))`. */
  function MakeRows(items: seq<Js.Value>): (rows: seq<Row>)
    ensures |rows| == |items|
    ensures forall i :: 0 <= i < |items| ==> rows[i] == MakeRow(i, items[i])
  {
    seq(|items|, i requires 0 <= i < |items| => MakeRow(i, items[i]))
  }

  /** `processResults(json)`: the list under `data[opName]`; no list gives
      no rows, and anything else that cannot be mapped throws. */
  function ProcessResults(json: Js.Value, opName: string): (r: Result<seq<Row>, ResultsError>)
    ensures var data := Js.Property(Js.Property(json, "data"), opName);
      && (r.Err? <==> !(data.Undefined? || data.Null? || data.Arr?))
      && ((data.Undefined? || data.Null?) ==> r == Ok([]))
      && (data.Arr? ==> r.Ok? && |r.value| == |data.items|)
  {
    match Js.Property(Js.Property(json, "data"), opName)
    case Undefined => Ok([])
    case Null => Ok([])
    case Arr(items) => Ok(MakeRows(items))
    case _ => Err(NotAList)
  }

  /** A row carries every entry of its record, and its `id` is the record's
      own when it has one, else the position. */
  lemma RowContents(json: Js.Value, opName: string, i: nat, k: string)
    requires ProcessResults(json, opName).Ok? && i < |ProcessResults(json, opName).value|
    requires var data := Js.Property(Js.Property(json, "data"), opName);
      DistinctKeys(Js.SpreadEntries(data.items[i]))
    ensures var data := Js.Property(Js.Property(json, "data"), opName);
      var line := Js.SpreadEntries(data.items[i]);
      Get(ProcessResults(json, opName).value[i], k) ==
        if HasKey(line, k) then Get(line, k)
        else if k == "id" then Some(Js.Num(i)) else None
  {
  }

  // ---------------------------------------------------------------------
  // Header and body

  /** The header above the grid. */
  function HeaderText(rows: Option<seq<Row>>): (t: string)
    ensures rows.None? ==> t == "Fetching results"
    ensures rows.Some? && |rows.value| == 0 ==> t == "No results"
    ensures rows.Some? && |rows.value| == 1 ==> t == "1 result"
    ensures rows.Some? && |rows.value| > 1 ==> t == Text.IntToString(|rows.value|) + " results"
  {
    var count := if rows.None? then "Fetching" else if |rows.value| == 0 then "No" else Text.IntToString(|rows.value|);
    count + " result" + (if rows.Some? && |rows.value| == 1 then "" else "s")
  }

  /** The header tells the three states apart, and the number of rows. */
  lemma HeaderTextInjective(a: Option<seq<Row>>, b: Option<seq<Row>>)
    requires HeaderText(a) == HeaderText(b)
    ensures a.None? <==> b.None?
    ensures a.Some? ==> |a.value| == |b.value|
  {
    var t := HeaderText(a);
    if a.Some? && b.Some? && |a.value| > 1 && |b.value| > 1 {
      var sa := Text.NatToString(|a.value|);
      var sb := Text.NatToString(|b.value|);
      assert t == sa + " results" && t == sb + " results";
      assert sa == t[..|t| - 8] && sb == t[..|t| - 8];
      Text.NatToStringInjective(|a.value|, |b.value|);
    } else {
      assert t[0] == HeaderText(b)[0];
      assert t[1] == HeaderText(b)[1];
    }
  }

  /** The header's colour. */
  datatype Tone = Plain | Warning | Pending

  function HeaderTone(rows: Option<seq<Row>>): (r: Tone)
    ensures r == Pending <==> rows.None?
    ensures r == Warning <==> rows.Some? && |rows.value| == 0
    ensures r == Plain <==> rows.Some? && |rows.value| > 0
  {
    if rows.None? then Pending else if |rows.value| == 0 then Warning else Plain
  }

  /** The colour follows the text: pending while fetching, a warning on no
      results. */
  lemma HeaderToneMatchesText(rows: Option<seq<Row>>)
    ensures HeaderTone(rows) == Pending <==> HeaderText(rows) == "Fetching results"
    ensures HeaderTone(rows) == Warning <==> HeaderText(rows) == "No results"
  {
    if HeaderText(rows) == HeaderText(None) {
      HeaderTextInjective(rows, None);
    }
    if HeaderText(rows) == HeaderText(Some([])) {
      HeaderTextInjective(rows, Some([]));
    }
  }

  datatype Body = Grid(rows: seq<Row>) | Progress | Blank

  /** The grid when there are rows, the progress bar while fetching. */
  function ResultsBody(rows: Option<seq<Row>>): (r: Body)
    ensures r.Grid? <==> rows.Some? && |rows.value| > 0
    ensures r.Grid? ==> r.rows == rows.value
    ensures r.Progress? <==> rows.None?
  {
    if rows.None? then Progress else if |rows.value| == 0 then Blank else Grid(rows.value)
  }

  /** The state of the view: the rows (`None` while fetching) and the
      record a click selected. */
  datatype View = View(rows: Option<seq<Row>>, selected: Option<Js.Value>)

  /** A new query empties the rows until the response arrives. */
  function NewQuery(v: View): (r: View)
    ensures HeaderText(r.rows) == "Fetching results" && ResultsBody(r.rows) == Progress
    ensures r.selected == v.selected
  {
    v.(rows := None)
  }

  /** The response arrives. */
  function Received(v: View, json: Js.Value, opName: string): (r: Result<View, ResultsError>)
    ensures r.Ok? <==> ProcessResults(json, opName).Ok?
    ensures r.Ok? ==> r.value.rows == Some(ProcessResults(json, opName).value) && r.value.selected == v.selected
  {
    match ProcessResults(json, opName)
    case Err(e) => Err(e)
    case Ok(rows) => Ok(v.(rows := Some(rows)))
  }

  // ---------------------------------------------------------------------
  // Export file name

  datatype ExportError = MissingQueryArgument

  /** The truthy values of the required fields in `m`, in required order. */
  function ExportValues(required: seq<Session.ConfigField>, m: Entries<Option<string>>): (vs: seq<string>)
    ensures forall v :: v in vs ==> v != ""
    ensures forall v :: v in vs ==> exists i :: 0 <= i < |required| && Get(m, required[i].name) == Some(Some(v))
    ensures forall i :: 0 <= i < |required| && Js.Filled(Get(m, required[i].name).GetOr(None)) ==>
      Get(m, required[i].name).value.value in vs
  {
    if |required| == 0 then []
    else
      var rest := ExportValues(required[1..], m);
      assert forall i :: 1 <= i < |required| ==> required[i] == required[1..][i - 1];
      var v := Get(m, required[0].name).GetOr(None);
      if Js.Filled(v) then [v.value] + rest else rest
  }

  /** The values follow the required order: they distribute over
      concatenation, and one field gives its value iff that is truthy. */
  lemma {:induction false} ExportValuesOrder(a: seq<Session.ConfigField>, b: seq<Session.ConfigField>, f: Session.ConfigField,
                                             m: Entries<Option<string>>)
    ensures ExportValues(a + b, m) == ExportValues(a, m) + ExportValues(b, m)
    ensures ExportValues([f], m) ==
      if Js.Filled(Get(m, f.name).GetOr(None)) then [Get(m, f.name).value.value] else []
    decreases |a|
  {
    if |a| == 0 {
      assert a + b == b;
    } else {
      assert (a + b)[0] == a[0];
      assert (a + b)[1..] == a[1..] + b;
      ExportValuesOrder(a[1..], b, f, m);
    }
    assert [f][1..] == [];
  }

  /** `prefix + required.map(f => query?.[arg][f.name]).filter(v => v).join("_")`.
      Without a query nothing is read; a query without the query argument
      throws as soon as there is a required field to read. */
  function ExportFileName(prefix: string, required: seq<Session.ConfigField>, query: Option<Session.Query>): (r: Result<string, ExportError>)
    ensures r.Err? <==> query.Some? && !HasKey(query.value, Session.QueryArg) && |required| > 0
    ensures r.Ok? ==> |r.value| >= |prefix| && r.value[..|prefix|] == prefix
    ensures query.None? ==> r == Ok(prefix)
  {
    if query.None? then Ok(prefix)
    else match Get(query.value, Session.QueryArg)
      case None => if |required| == 0 then Ok(prefix) else Err(MissingQueryArgument)
      case Some(m) => Ok(prefix + Text.Join(ExportValues(required, m), "_"))
  }

  /** The values can be read back from the file name when none contains `_`. */
  lemma ExportFileNameRoundTrip(prefix: string, required: seq<Session.ConfigField>, q: Session.Query)
    requires HasKey(q, Session.QueryArg)
    requires var vs := ExportValues(required, Get(q, Session.QueryArg).value);
      |vs| > 0 && forall k :: 0 <= k < |vs| ==> '_' !in vs[k]
    ensures var r := ExportFileName(prefix, required, Some(q));
      r.Ok? && Text.Split(r.value[|prefix|..], "_") == ExportValues(required, Get(q, Session.QueryArg).value)
  {
    var vs := ExportValues(required, Get(q, Session.QueryArg).value);
    var r := ExportFileName(prefix, required, Some(q)).value;
    assert r[|prefix|..] == Text.Join(vs, "_");
    Text.SingleCharSeparable(vs, '_');
    Text.SplitJoin(vs, "_");
  }

  // ---------------------------------------------------------------------
  // Opening a record

  /** The array index a property key denotes, if any: the canonical decimal
      form of a position inside the array. */
  function ArrayIndex(key: string, len: nat): (r: Option<nat>)
    ensures r.Some? ==> r.value < len && Text.NatToString(r.value) == key
    ensures forall n :: 0 <= n < len && Text.NatToString(n) == key ==> r == Some(n)
  {
    if |key| > 0 && (forall k :: 0 <= k < |key| ==> Text.IsDigit(key[k])) && (|key| == 1 || key[0] != '0') then
      var n := Text.ParseDigits(key);
      CanonicalDigits(key);
      forall m | 0 <= m < len && Text.NatToString(m) == key ensures m == n {
        Text.ParseNatToString(m);
      }
      if n < len then Some(n) else None
    else
      None
  }

  lemma {:induction false} CanonicalDigits(s: string)
    requires |s| > 0 && forall k :: 0 <= k < |s| ==> Text.IsDigit(s[k])
    requires |s| == 1 || s[0] != '0'
    ensures Text.NatToString(Text.ParseDigits(s)) == s
    decreases |s|
  {
    var init := s[..|s| - 1];
    var d := s[|s| - 1] as int - '0' as int;
    if |s| > 1 {
      assert forall k :: 0 <= k < |init| ==> init[k] == s[k];
      CanonicalDigits(init);
      var p := Text.ParseDigits(init);
      assert p > 0;
      var n := p * 10 + d;
      assert n / 10 == p && n % 10 == d;
      assert Text.DigitChar(d) == s[|s| - 1];
      assert s == init + [s[|s| - 1]];
    } else {
      assert Text.DigitChar(d) == s[0];
    }
  }

  /** `rows?.[id]`, as the source opens a clicked row: the row id is used
      as a position in the array. */
  function RecordAt(rows: seq<Row>, id: Js.Value): (r: Option<Row>)
    ensures r.Some? ==> r.value in rows
    ensures id.Num? && 0 <= id.n < |rows| ==> r == Some(rows[id.n])
  {
    match id
    case Num(n) => if 0 <= n < |rows| then Some(rows[n]) else None
    case Str(s) =>
      var i := ArrayIndex(s, |rows|);
      if i.Some? then Some(rows[i.value]) else None
    case _ => None
  }

  /** The row whose `id` is the clicked id. */
  function RecordById(rows: seq<Row>, id: Js.Value): (r: Option<Row>)
    ensures r.Some? ==> r.value in rows && Get(r.value, "id") == Some(id)
    ensures r.None? ==> forall i :: 0 <= i < |rows| ==> Get(rows[i], "id") != Some(id)
  {
    if |rows| == 0 then None
    else if Get(rows[0], "id") == Some(id) then Some(rows[0])
    else
      var r := RecordById(rows[1..], id);
      assert forall i :: 1 <= i < |rows| ==> rows[i] == rows[1..][i - 1];
      r
  }

  /** When no record has an `id` of its own, rows are ids by position and
      the two lookups agree. */
  lemma RecordLookupsAgree(items: seq<Js.Value>, i: nat)
    requires forall j :: 0 <= j < |items| ==> !HasKey(Js.SpreadEntries(items[j]), "id")
    requires forall j :: 0 <= j < |items| ==> DistinctKeys(Js.SpreadEntries(items[j]))
    requires i < |items|
    ensures RecordAt(MakeRows(items), Js.Num(i)) == RecordById(MakeRows(items), Js.Num(i))
  {
    var rows := MakeRows(items);
    forall j | 0 <= j < |rows| ensures Get(rows[j], "id") == Some(Js.Num(j)) {
      MakeRowOwnId(j, items[j]);
    }
    RecordByIdFirst(rows, i);
  }

  lemma MakeRowOwnId(j: nat, line: Js.Value)
    requires !HasKey(Js.SpreadEntries(line), "id") && DistinctKeys(Js.SpreadEntries(line))
    ensures Get(MakeRow(j, line), "id") == Some(Js.Num(j))
  {
  }

  lemma RecordByIdFirst(rows: seq<Row>, i: nat)
    requires i < |rows|
    requires forall j :: 0 <= j < |rows| ==> Get(rows[j], "id") == Some(Js.Num(j))
    ensures RecordById(rows, Js.Num(i)) == Some(rows[i])
  {
    var r := RecordById(rows, Js.Num(i));
    assert r.Some?;
    var k :| 0 <= k < |rows| && rows[k] == r.value;
  }

  /** Two records carrying their own ids 1 and 0: clicking the first row
      (id 1) opens the second record in the source. */
  lemma RecordAtWrongRecord()
    ensures var rows := MakeRows([Js.Obj([("id", Js.Num(1))]), Js.Obj([("id", Js.Num(0))])]);
      && Get(rows[0], "id") == Some(Js.Num(1))
      && RecordAt(rows, Js.Num(1)) == Some(rows[1])
      && rows[1] != rows[0]
      && RecordById(rows, Js.Num(1)) == Some(rows[0])
  {
    var items := [Js.Obj([("id", Js.Num(1))]), Js.Obj([("id", Js.Num(0))])];
    var rows := MakeRows(items);
    assert rows[0] == MakeRow(0, items[0]);
    assert rows[1] == MakeRow(1, items[1]);
    assert Get(rows[0], "id") == Some(Js.Num(1));
    assert Get(rows[1], "id") == Some(Js.Num(0));
  }
}
