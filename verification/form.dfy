/** The display rules of the query form (`QueryForm.jsx`): how an input
    finds its default field, what it shows and whether it is locked, which
    required group counts as satisfied by the URL values, where the focus
    goes, and which fieldsets are drawn. */
module Form {
  import opened Wrappers
  import opened Dict
  import opened GraphQL
  import opened Session
  import Js
  import Utils

  // ---------------------------------------------------------------------
  // Default fields

  /** The position of the first default field called `name`. */
  function FindDefault(defaults: seq<ConfigField>, name: string): (r: Option<nat>)
    ensures r.None? <==> !Named(defaults, name)
    ensures r.Some? ==> r.value < |defaults| && defaults[r.value].name == name
    ensures r.Some? ==> forall j :: 0 <= j < r.value ==> defaults[j].name != name
  {
    if |defaults| == 0 then None
    else if defaults[0].name == name then Some(0)
    else
      NamedShift(defaults, name);
      var r := FindDefault(defaults[1..], name);
      assert forall j :: 1 <= j < |defaults| ==> defaults[j] == defaults[1..][j - 1];
      if r.None? then None else Some(r.value + 1)
  }

  /** `[...flat(required), ...optional].find(df => df.name === name)`. */
  function MatchingDefault(defaults: seq<ConfigField>, name: string): (r: Option<ConfigField>)
    ensures r.None? <==> !Named(defaults, name)
    ensures r.Some? ==> r.value in defaults && r.value.name == name
  {
    var i := FindDefault(defaults, name);
    if i.None? then None else Some(defaults[i.value])
  }

  /** The value of the matching default field, when it is truthy. */
  function DefaultValue(defaults: seq<ConfigField>, name: string): Option<string> {
    var m := MatchingDefault(defaults, name);
    if m.Some? && Js.Filled(m.value.value) then m.value.value else None
  }

  // ---------------------------------------------------------------------
  // Inputs

  /** What an input receives. */
  datatype Input = Input(autoFocus: bool, labelText: string, value: string, disabled: bool)

  /** `displayQueryField(f, arg, includeDefaultFields)` for a field called
      `name`, with its own label and autofocus flag; `None` when the field
      is skipped. Which input component is used is the query registry's
      choice. */
  function DisplayField(defaults: seq<ConfigField>, q: Query, name: string, labelText: Option<string>,
                        autoFocus: bool, arg: string, includeDefaults: bool): (r: Option<Input>)
    ensures r.None? <==> !includeDefaults && Named(defaults, name)
    ensures r.Some? ==> (r.value.disabled <==> DefaultValue(defaults, name).Some?)
    ensures r.Some? && r.value.disabled ==> r.value.value == DefaultValue(defaults, name).value
    ensures r.Some? && !r.value.disabled && Js.Filled(ValueOf(q, arg, name)) ==>
      r.value.value == ValueOf(q, arg, name).value
    ensures r.Some? && !r.value.disabled && !Js.Filled(ValueOf(q, arg, name)) ==> r.value.value == ""
    ensures r.Some? ==> r.value.labelText == (if Js.Filled(labelText) then labelText.value else Utils.CamelCaseToWords(name))
    ensures r.Some? ==> r.value.autoFocus == autoFocus
  {
    if !includeDefaults && MatchingDefault(defaults, name).Some? then None
    else
      var d := DefaultValue(defaults, name);
      var typed := ValueOf(q, arg, name);
      var value := if d.Some? then d.value else if Js.Filled(typed) then typed.value else "";
      var l := if Js.Filled(labelText) then labelText.value else Utils.CamelCaseToWords(name);
      Some(Input(autoFocus, l, value, d.Some?))
  }

  /** A default field as the form draws it. */
  function DisplayDefault(s: State, f: ConfigField): Option<Input> {
    DisplayField(AllFields(s), s.query, f.name, f.labelText, f.autoFocus, QueryArg, true)
  }

  // ---------------------------------------------------------------------
  // Loaded fields

  /** A field loaded from the URL: its value is the URL value of its name. */
  predicate Loaded(params: Entries<string>, f: ConfigField) {
    f.value == Seed(params, f.name)
  }

  lemma LoadFieldsLoaded(rule: FocusRule, fs: seq<ConfigField>, params: Entries<string>, st: Loader)
    ensures var r := LoadFields(rule, fs, params, st).0;
      forall i :: 0 <= i < |r| ==> Loaded(params, r[i]) && r[i].name == fs[i].name
  {
  }

  lemma ToGroupsFields(gs: seq<Group>, fs: seq<ConfigField>)
    requires |fs| == |Flatten(gs)|
    ensures forall i, f :: 0 <= i < |gs| && f in ToGroups(gs, fs)[i].fields ==> f in fs
  {
    var r := ToGroups(gs, fs);
    FlattenToGroups(gs, fs);
    forall i, f | 0 <= i < |gs| && f in r[i].fields
      ensures f in fs
    {
      FlattenMembers(r, f);
    }
  }

  /** After loading, every default field carries the URL value of its name,
      and its name is one of the configured ones. */
  lemma InitLoaded(rule: FocusRule, initial: Query, required: seq<Group>, optional: seq<ConfigField>, params: Entries<string>)
    ensures var s := Init(rule, initial, required, optional, params);
      forall f :: f in AllFields(s) ==> Loaded(params, f) && Named(Flatten(required) + optional, f.name)
    ensures var s := Init(rule, initial, required, optional, params);
      forall i, f :: 0 <= i < |s.required| && f in s.required[i].fields ==> f in AllFields(s)
  {
    var st0 := Loader(initial, [], None);
    var all := Flatten(required) + optional;
    var s := Init(rule, initial, required, optional, params);
    var lf := LoadFields(rule, Flatten(required), params, st0);
    FlattenToGroups(required, lf.0);
    LoadFieldsAppend(rule, Flatten(required), optional, params, st0);
    var r := LoadFields(rule, all, params, st0).0;
    assert AllFields(s) == r;
    LoadFieldsLoaded(rule, all, params, st0);
    forall f | f in AllFields(s)
      ensures Loaded(params, f) && Named(all, f.name)
    {
      var i :| 0 <= i < |r| && r[i] == f;
      assert all[i].name == f.name;
    }
    ToGroupsFields(required, lf.0);
    forall i, f | 0 <= i < |s.required| && f in s.required[i].fields
      ensures f in AllFields(s)
    {
      assert f in lf.0;
      assert lf.0 == r[..|lf.0|];
    }
  }

  /** On a freshly loaded form, a field with a URL value is locked and shows
      that value, which is also what the search will send. */
  lemma SeededFieldLocked(rule: FocusRule, initial: Query, required: seq<Group>, optional: seq<ConfigField>,
                          params: Entries<string>, f: ConfigField)
    requires f in AllFields(Init(rule, initial, required, optional, params))
    requires Seed(params, f.name).Some?
    ensures var s := Init(rule, initial, required, optional, params);
      && DisplayDefault(s, f).Some?
      && DisplayDefault(s, f).value.disabled
      && DisplayDefault(s, f).value.value == Seed(params, f.name).value
      && ValueOf(s.query, QueryArg, f.name) == Seed(params, f.name)
  {
    var s := Init(rule, initial, required, optional, params);
    InitLoaded(rule, initial, required, optional, params);
    InitValues(rule, initial, required, optional, params);
    var m := MatchingDefault(AllFields(s), f.name);
    assert Named(AllFields(s), f.name) by {
      var i :| 0 <= i < |AllFields(s)| && AllFields(s)[i] == f;
    }
    assert Loaded(params, m.value);
  }

  /** A field without a URL value is editable, and shows what was typed into
      the query. */
  lemma EditedFieldShown(s: State, f: ConfigField, v: string)
    requires DefaultValue(AllFields(s), f.name).None?
    requires v != ""
    ensures var s' := SetValue(s, QueryArg, f.name, Some(v));
      DisplayDefault(s', f) == Some(Input(f.autoFocus, DisplayDefault(s, f).value.labelText, v, false))
  {
  }

  // ---------------------------------------------------------------------
  // The satisfied required group

  /** The fields with a truthy URL value, in order. */
  function Valued(fs: seq<ConfigField>): (r: seq<ConfigField>)
    ensures forall f :: f in r <==> f in fs && Js.Filled(f.value)
    ensures |r| <= |fs|
  {
    if |fs| == 0 then []
    else
      var rest := Valued(fs[1..]);
      assert fs == [fs[0]] + fs[1..];
      if Js.Filled(fs[0].value) then [fs[0]] + rest else rest
  }

  /** The valued fields keep their order: the selection distributes over
      concatenation and keeps a single field iff it is valued. */
  lemma {:induction false} ValuedOrder(a: seq<ConfigField>, b: seq<ConfigField>, f: ConfigField)
    ensures Valued(a + b) == Valued(a) + Valued(b)
    ensures Valued([f]) == if Js.Filled(f.value) then [f] else []
    decreases |a|
  {
    if |a| == 0 {
      assert a + b == b;
    } else {
      assert (a + b)[0] == a[0];
      assert (a + b)[1..] == a[1..] + b;
      ValuedOrder(a[1..], b, f);
    }
    assert [f][1..] == [];
  }

  /** A group has at least `min` fields with truthy URL values. */
  function Satisfied(g: Group): (r: bool)
    ensures g.min.None? ==> !r
    ensures g.min.Some? && g.min.value <= 0 ==> r
    ensures g.min.Some? && g.min.value > |g.fields| ==> !r
    ensures r && g.min.value > 0 ==> exists i :: 0 <= i < |g.fields| && Js.Filled(g.fields[i].value)
  {
    var vs := Valued(g.fields);
    assert |vs| > 0 ==> vs[0] in g.fields && Js.Filled(vs[0].value);
    g.min.Some? && |vs| >= g.min.value
  }

  /** The position of the first satisfied group. */
  function FirstSatisfied(gs: seq<Group>): (r: Option<nat>)
    ensures r.None? <==> forall i :: 0 <= i < |gs| ==> !Satisfied(gs[i])
    ensures r.Some? ==> r.value < |gs| && Satisfied(gs[r.value])
    ensures r.Some? ==> forall j :: 0 <= j < r.value ==> !Satisfied(gs[j])
  {
    if |gs| == 0 then None
    else if Satisfied(gs[0]) then Some(0)
    else
      var r := FirstSatisfied(gs[1..]);
      assert forall j :: 1 <= j < |gs| ==> gs[j] == gs[1..][j - 1];
      if r.None? then None else Some(r.value + 1)
  }

  /** `getSatisfiedRequiredGroup()`: the valued fields of the first
      satisfied group. */
  function SatisfiedGroup(gs: seq<Group>): (r: Option<seq<ConfigField>>)
    ensures r.None? <==> forall i :: 0 <= i < |gs| ==> !Satisfied(gs[i])
    ensures r.Some? ==> r.value == Valued(gs[FirstSatisfied(gs).value].fields)
  {
    var i := FirstSatisfied(gs);
    if i.None? then None else Some(Valued(gs[i.value].fields))
  }

  /** The number of valued fields never exceeds the number of fields whose
      query value is truthy, when every valued field's value is in the query. */
  lemma {:induction false} ValuedCountBound(fs: seq<ConfigField>, q: Query)
    requires forall i :: 0 <= i < |fs| && Js.Filled(fs[i].value) ==> ValueOf(q, QueryArg, fs[i].name) == fs[i].value
    ensures |Valued(fs)| <= FilledCount(fs, q)
    decreases |fs|
  {
    if |fs| > 0 {
      assert forall i :: 1 <= i < |fs| ==> fs[i] == fs[1..][i - 1];
      ValuedCountBound(fs[1..], q);
    }
  }

  /** A group satisfied by the URL values lets the search launch as soon as a
      data source is chosen. */
  lemma SatisfiedLetsSearch(rule: FocusRule, initial: Query, required: seq<Group>, optional: seq<ConfigField>,
                            params: Entries<string>, op: Operation)
    requires SatisfiedGroup(Init(rule, initial, required, optional, params).required).Some?
    ensures CanLaunchSearch(SetDataSource(Init(rule, initial, required, optional, params), Some(op)))
  {
    var s := Init(rule, initial, required, optional, params);
    var all := Flatten(required) + optional;
    var k := FirstSatisfied(s.required).value;
    var g := s.required[k];
    InitLoaded(rule, initial, required, optional, params);
    InitValues(rule, initial, required, optional, params);
    forall i | 0 <= i < |g.fields| && Js.Filled(g.fields[i].value)
      ensures ValueOf(s.query, QueryArg, g.fields[i].name) == g.fields[i].value
    {
      assert g.fields[i] in g.fields;
    }
    ValuedCountBound(g.fields, s.query);
    assert GroupMet(g, s.query);
  }

  // ---------------------------------------------------------------------
  // Focus and labels

  /** Some required field has the autofocus. */
  predicate RequiredFocus(gs: seq<Group>) {
    exists i :: 0 <= i < |Flatten(gs)| && Flatten(gs)[i].autoFocus
  }

  /** `dataSourceHasAutoFocus()`. */
  function DataSourceHasAutoFocus(gs: seq<Group>): (r: bool)
    ensures r <==> (exists i :: 0 <= i < |gs| && Satisfied(gs[i])) || NoRequiredFocus(gs)
    ensures |gs| == 0 ==> r
  {
    SatisfiedGroup(gs).Some? || !RequiredFocus(gs)
  }

  /** No required field, in any group, has the autofocus. */
  predicate NoRequiredFocus(gs: seq<Group>) {
    forall i :: 0 <= i < |Flatten(gs)| ==> !Flatten(gs)[i].autoFocus
  }

  lemma FirstUnseededExists(params: Entries<string>, fs: seq<ConfigField>)
    requires !AllSeeded(params, fs)
    ensures exists i :: 0 <= i < |fs| && FirstUnseeded(params, fs, i)
  {
    var i :| 0 <= i < |fs| && Unseeded(params, fs[i]);
    while i > 0 && exists j :: 0 <= j < i && Unseeded(params, fs[j])
      invariant 0 <= i < |fs| && Unseeded(params, fs[i])
      decreases i
    {
      var j :| 0 <= j < i && Unseeded(params, fs[j]);
      i := j;
    }
    assert FirstUnseeded(params, fs, i);
  }

  /** With the intended focus rule, or the rule as written when no
      configured name is empty, and a configuration that focuses nothing
      itself, the data source takes the focus exactly when a group is
      satisfied or every required field has a URL value. */
  lemma DataSourceFocus(rule: FocusRule, initial: Query, required: seq<Group>, optional: seq<ConfigField>, params: Entries<string>)
    requires rule == Intended || NamesFilled(Flatten(required) + optional)
    requires forall i :: 0 <= i < |Flatten(required)| ==> !Flatten(required)[i].autoFocus
    requires forall i :: 0 <= i < |optional| ==> !optional[i].autoFocus
    ensures var s := Init(rule, initial, required, optional, params);
      DataSourceHasAutoFocus(s.required) <==>
        SatisfiedGroup(s.required).Some? || AllSeeded(params, Flatten(required))
  {
    var s := Init(rule, initial, required, optional, params);
    var base := Flatten(required);
    var all := base + optional;
    var n := |base|;
    InitFocus(rule, initial, required, optional, params);
    var st0 := Loader(initial, [], None);
    FlattenToGroups(required, LoadFields(rule, base, params, st0).0);
    assert Flatten(s.required) == AllFields(s)[..n];
    forall i | 0 <= i < n
      ensures Flatten(s.required)[i].autoFocus == FirstUnseeded(params, base, i)
    {
      assert forall j :: 0 <= j <= i ==> all[j] == base[j];
    }
    RequiredFocusIff(s.required, params, base);
  }

  /** Focus placed by the intended rule is on some required field exactly
      when one of them lacks a URL value. */
  lemma RequiredFocusIff(gs: seq<Group>, params: Entries<string>, base: seq<ConfigField>)
    requires |Flatten(gs)| == |base|
    requires forall i :: 0 <= i < |base| ==> Flatten(gs)[i].autoFocus == FirstUnseeded(params, base, i)
    ensures RequiredFocus(gs) <==> !AllSeeded(params, base)
  {
    if !AllSeeded(params, base) {
      FirstUnseededExists(params, base);
    }
  }

  /** `withLabels`: the section labels are shown while no group is satisfied. */
  function WithLabels(gs: seq<Group>): (r: bool)
    ensures r <==> forall i :: 0 <= i < |gs| ==> !Satisfied(gs[i])
  {
    SatisfiedGroup(gs).None?
  }

  /** The required section: the satisfied group's valued fields alone, with
      no label and no minimum, or else every group. */
  function RequiredSection(gs: seq<Group>): (r: seq<Group>)
    ensures SatisfiedGroup(gs).Some? ==> r == [Group(None, None, SatisfiedGroup(gs).value)]
    ensures SatisfiedGroup(gs).None? ==> r == gs
  {
    match SatisfiedGroup(gs)
    case Some(fs) => [Group(None, None, fs)]
    case None => gs
  }

  /** The optional section's fieldset. */
  function OptionalFieldset(gs: seq<Group>, optional: seq<ConfigField>): (r: Group)
    ensures r.fields == optional && r.min.None?
    ensures r.labelText == Some(if WithLabels(gs) then "Refine your search" else "")
  {
    Group(Some(if WithLabels(gs) then "Refine your search" else ""), None, optional)
  }

  /** The heading above the data source selector. */
  function DataSourceLabel(gs: seq<Group>): (r: string)
    ensures r == "" <==> SatisfiedGroup(gs).Some?
  {
    if WithLabels(gs) then "Select a database:" else ""
  }

  /** The entry added to the required list when the data source is required. */
  const DataSourceEntry: ConfigField := ConfigField("dataSource", None, None, false)

  lemma FlattenMembers(gs: seq<Group>, f: ConfigField)
    ensures f in Flatten(gs) <==> exists i :: 0 <= i < |gs| && f in gs[i].fields
  {
    if |gs| > 0 {
      FlattenMembers(gs[1..], f);
      if exists i :: 0 <= i < |gs[1..]| && f in gs[1..][i].fields {
        var i :| 0 <= i < |gs[1..]| && f in gs[1..][i].fields;
        assert f in gs[i + 1].fields;
      }
      if exists i :: 0 <= i < |gs| && f in gs[i].fields {
        var i :| 0 <= i < |gs| && f in gs[i].fields;
        if i > 0 { assert gs[1..][i - 1] == gs[i]; }
      }
    }
  }

  /** The required list handed to the summary: every group's fields in
      order, then the data source entry when it is required. */
  function RequiredList(gs: seq<Group>, requireDataSource: bool): (r: seq<ConfigField>)
    ensures forall f :: f in r <==> (exists i :: 0 <= i < |gs| && f in gs[i].fields) || (requireDataSource && f == DataSourceEntry)
    ensures |r| == |Flatten(gs)| + (if requireDataSource then 1 else 0)
    ensures r[..|Flatten(gs)|] == Flatten(gs)
    ensures requireDataSource ==> r[|r| - 1] == DataSourceEntry
  {
    forall f ensures f in Flatten(gs) <==> exists i :: 0 <= i < |gs| && f in gs[i].fields {
      FlattenMembers(gs, f);
    }
    Flatten(gs) + (if requireDataSource then [DataSourceEntry] else [])
  }

  // ---------------------------------------------------------------------
  // Argument fieldsets

  /** A fieldset of a data source argument: the argument and its fields. */
  datatype ArgFieldset = ArgFieldset(arg: string, fields: seq<Field>)

  function Repeat<T>(x: T, n: nat): (r: seq<T>)
    ensures |r| == n && forall i :: 0 <= i < n ==> r[i] == x
  {
    if n == 0 then [] else [x] + Repeat(x, n - 1)
  }

  /** The argument fieldsets as the source draws them: for an argument with
      input fields, the whole fieldset once per input field. */
  function ArgFieldsetsAsWritten(args: seq<Arg>): (r: seq<ArgFieldset>)
    ensures forall i :: 0 <= i < |r| ==> exists j :: 0 <= j < |args| && args[j].inputFields == Some(r[i].fields) && args[j].name == r[i].arg
  {
    if |args| == 0 then []
    else
      var rest := ArgFieldsetsAsWritten(args[1..]);
      assert forall j :: 1 <= j < |args| ==> args[j] == args[1..][j - 1];
      var a := args[0];
      var here := if a.inputFields.Some? then Repeat(ArgFieldset(a.name, a.inputFields.value), |a.inputFields.value|) else [];
      assert forall i :: |here| <= i < |here| + |rest| ==> (here + rest)[i] == rest[i - |here|];
      here + rest
  }

  /** With two input fields, both fields of the argument are drawn twice. */
  lemma ArgFieldsetsRepeated(name: string, typeName: string, f: Field, g: Field)
    ensures ArgFieldsetsAsWritten([Arg(name, typeName, Some([f, g]))]) ==
      [ArgFieldset(name, [f, g]), ArgFieldset(name, [f, g])]
  {
    var a := [Arg(name, typeName, Some([f, g]))];
    assert a[1..] == [];
  }

  /** One fieldset per argument with input fields, in argument order. */
  function ArgFieldsets(args: seq<Arg>): (r: seq<ArgFieldset>)
    ensures |r| <= |args|
    ensures forall i :: 0 <= i < |r| ==> exists j :: 0 <= j < |args| && args[j].inputFields == Some(r[i].fields) && args[j].name == r[i].arg
    ensures forall j :: 0 <= j < |args| && args[j].inputFields.Some? ==>
      ArgFieldset(args[j].name, args[j].inputFields.value) in r
  {
    if |args| == 0 then []
    else
      var rest := ArgFieldsets(args[1..]);
      assert forall j :: 1 <= j < |args| ==> args[j] == args[1..][j - 1];
      var a := args[0];
      var here := if a.inputFields.Some? then [ArgFieldset(a.name, a.inputFields.value)] else [];
      assert forall i :: |here| <= i < |here| + |rest| ==> (here + rest)[i] == rest[i - |here|];
      here + rest
  }

  predicate DistinctArgNames(args: seq<Arg>) {
    forall i, k :: 0 <= i < k < |args| ==> args[i].name != args[k].name
  }

  predicate DistinctFieldsets(r: seq<ArgFieldset>) {
    forall i, k :: 0 <= i < k < |r| ==> r[i].arg != r[k].arg
  }

  lemma DistinctArgNamesTail(args: seq<Arg>)
    requires |args| > 0 && DistinctArgNames(args)
    ensures DistinctArgNames(args[1..])
    ensures forall j :: 0 <= j < |args[1..]| ==> args[1..][j].name != args[0].name
  {
    assert forall j :: 0 <= j < |args[1..]| ==> args[1..][j] == args[j + 1];
  }

  lemma DistinctFieldsetsCons(x: ArgFieldset, rest: seq<ArgFieldset>)
    requires DistinctFieldsets(rest)
    requires forall k :: 0 <= k < |rest| ==> rest[k].arg != x.arg
    ensures DistinctFieldsets([x] + rest)
  {
    var r := [x] + rest;
    forall i, k | 0 <= i < k < |r| ensures r[i].arg != r[k].arg {
      assert r[k] == rest[k - 1];
      if i > 0 { assert r[i] == rest[i - 1]; }
    }
  }

  /** When argument names are distinct, no argument's fieldset is drawn
      twice; with the membership above, each is drawn exactly once. */
  lemma {:induction false} ArgFieldsetsOnce(args: seq<Arg>)
    requires DistinctArgNames(args)
    ensures DistinctFieldsets(ArgFieldsets(args))
    decreases |args|
  {
    if |args| > 0 {
      var rest := ArgFieldsets(args[1..]);
      DistinctArgNamesTail(args);
      ArgFieldsetsOnce(args[1..]);
      if args[0].inputFields.Some? {
        forall k | 0 <= k < |rest| ensures rest[k].arg != args[0].name {
          var j :| 0 <= j < |args[1..]| && args[1..][j].inputFields == Some(rest[k].fields) && args[1..][j].name == rest[k].arg;
        }
        DistinctFieldsetsCons(ArgFieldset(args[0].name, args[0].inputFields.value), rest);
      }
    }
  }
}
