/** The query session of `Query.jsx`: the default fields seeded from the
    URL, the query object being edited, the chosen data source, and whether
    the displayed results still match the query. React state updates are
    modelled as functions from one state to the next; the URL parameters
    are an input. */
module Session {
  import opened Wrappers
  import opened Dict
  import opened GraphQL
  import Js
  import Utils

  /** A default query field from the configuration. `value` is the value
      seeded from the URL (`null` when there is none) and `autoFocus`
      whether the input takes the focus. */
  datatype ConfigField = ConfigField(name: string, labelText: Option<string>, value: Option<string>, autoFocus: bool)

  /** A group of required fields, of which at least `min` must be filled. */
  datatype Group = Group(labelText: Option<string>, min: Option<int>, fields: seq<ConfigField>)

  /** The query object: argument name to the argument's field values. */
  type Query = Entries<Entries<Option<string>>>

  const QueryArg: string := Utils.QueryArgument

  datatype State = State(
    required: seq<Group>,
    optional: seq<ConfigField>,
    dataSource: Option<Operation>,
    query: Query,
    queryFromURL: Entries<Option<string>>,
    searchLaunched: bool,
    lastSearch: Option<Entries<Option<string>>>)

  /** `query?.[arg]?.[field]`. */
  function ValueOf(q: Query, arg: string, field: string): Option<string> {
    match Get(q, arg)
    case None => None
    case Some(fields) => Get(fields, field).GetOr(None)
  }

  // ---------------------------------------------------------------------
  // Editing

  /** `{...q, [arg]: {...q[arg], [field]: v}}`. */
  function Assign(q: Query, arg: string, field: string, v: Option<string>): (r: Query)
    ensures ValueOf(r, arg, field) == v
    ensures forall a, f :: (a, f) != (arg, field) ==> ValueOf(r, a, f) == ValueOf(q, a, f)
    ensures HasKey(r, arg)
  {
    Put(q, arg, Put(Get(q, arg).GetOr([]), field, v))
  }

  /** `onQueryInputValueChange(v, field, arg)`: the field's value in the
      argument's object is set, and the results no longer match. */
  function SetValue(s: State, arg: string, field: string, v: Option<string>): (r: State)
    ensures ValueOf(r.query, arg, field) == v
    ensures forall a, f :: (a, f) != (arg, field) ==> ValueOf(r.query, a, f) == ValueOf(s.query, a, f)
    ensures !r.searchLaunched
    ensures r == s.(query := r.query, searchLaunched := false)
  {
    s.(query := Assign(s.query, arg, field, v), searchLaunched := false)
  }

  /** `dataSource?.name`. */
  function SourceName(ds: Option<Operation>): Option<string> {
    if ds.None? then None else Some(ds.value.name)
  }

  /** Choosing a data source; the reset effect runs when the source's name
      changes. */
  function SetDataSource(s: State, ds: Option<Operation>): (r: State)
    ensures r.dataSource == ds
    ensures SourceName(ds) != SourceName(s.dataSource) ==> !r.searchLaunched
    ensures SourceName(ds) == SourceName(s.dataSource) ==> r.searchLaunched == s.searchLaunched
    ensures r.query == s.query && r.queryFromURL == s.queryFromURL && r.lastSearch == s.lastSearch
  {
    s.(dataSource := ds,
       searchLaunched := if SourceName(ds) != SourceName(s.dataSource) then false else s.searchLaunched)
  }

  /** The effect run when the results are hidden. */
  function HideResults(s: State): (r: State)
    ensures r.lastSearch.None? && !r.searchLaunched
    ensures r.query == s.query && r.dataSource == s.dataSource
  {
    s.(lastSearch := None, searchLaunched := false)
  }

  // ---------------------------------------------------------------------
  // Searching

  /** The number of fields of a group with a truthy value in `query[arg]`. */
  function FilledCount(fs: seq<ConfigField>, q: Query): (n: nat)
    ensures n <= |fs|
    ensures n > 0 <==> SomeFilled(fs, q)
  {
    if |fs| == 0 then 0
    else
      var rest := FilledCount(fs[1..], q);
      assert SomeFilled(fs, q) <==> Js.Filled(ValueOf(q, QueryArg, fs[0].name)) || SomeFilled(fs[1..], q) by {
        if SomeFilled(fs[1..], q) {
          var i :| 0 <= i < |fs[1..]| && Js.Filled(ValueOf(q, QueryArg, fs[1..][i].name));
          assert fs[i + 1] == fs[1..][i];
        }
        if SomeFilled(fs, q) && !Js.Filled(ValueOf(q, QueryArg, fs[0].name)) {
          var i :| 0 <= i < |fs| && Js.Filled(ValueOf(q, QueryArg, fs[i].name));
          assert fs[1..][i - 1] == fs[i];
        }
      }
      (if Js.Filled(ValueOf(q, QueryArg, fs[0].name)) then 1 else 0) + rest
  }

  /** Some field has a truthy value in `query[arg]`. */
  predicate SomeFilled(fs: seq<ConfigField>, q: Query) {
    exists i :: 0 <= i < |fs| && Js.Filled(ValueOf(q, QueryArg, fs[i].name))
  }

  /** A group whose minimum is reached; an absent minimum never is
      (`n >= undefined` is false). */
  function GroupMet(g: Group, q: Query): (r: bool)
    ensures g.min.None? ==> !r
    ensures g.min.Some? && g.min.value <= 0 ==> r
    ensures g.min.Some? && g.min.value > |g.fields| ==> !r
    ensures r && g.min.value > 0 ==> SomeFilled(g.fields, q)
  {
    g.min.Some? && FilledCount(g.fields, q) >= g.min.value
  }

  /** `requiredFields.some(...)`: the groups are tried in order and the
      first one met stops the scan. */
  function AnyGroupMet(gs: seq<Group>, q: Query): bool {
    if |gs| == 0 then false
    else if GroupMet(gs[0], q) then true
    else AnyGroupMet(gs[1..], q)
  }

  /** The scan of `some` finds a met group exactly when one exists. */
  lemma {:induction false} AnyGroupMetIff(gs: seq<Group>, q: Query)
    ensures AnyGroupMet(gs, q) <==> exists i :: 0 <= i < |gs| && GroupMet(gs[i], q)
    decreases |gs|
  {
    if |gs| > 0 {
      AnyGroupMetIff(gs[1..], q);
      assert forall i :: 1 <= i < |gs| ==> gs[i] == gs[1..][i - 1];
      if exists i :: 0 <= i < |gs| && GroupMet(gs[i], q) {
        var i :| 0 <= i < |gs| && GroupMet(gs[i], q);
        if i > 0 {
          assert GroupMet(gs[1..][i - 1], q);
        }
      }
    }
  }

  /** `canLaunchSearch()`: a data source is chosen and some group has
      reached its minimum. */
  function CanLaunchSearch(s: State): (r: bool)
    ensures r <==> s.dataSource.Some? && AnyGroupMet(s.required, s.query)
    ensures r ==> |s.required| > 0
  {
    AnyGroupMetIff(s.required, s.query);
    s.dataSource.Some? && exists i :: 0 <= i < |s.required| && GroupMet(s.required[i], s.query)
  }

  /** The search button's `disabled`: `!canLaunchSearch() || searchLaunched`. */
  function SubmitDisabled(s: State): (r: bool)
    ensures s.searchLaunched ==> r
    ensures s.dataSource.None? ==> r
    ensures !r <==> !s.searchLaunched && s.dataSource.Some? && AnyGroupMet(s.required, s.query)
  {
    !CanLaunchSearch(s) || s.searchLaunched
  }

  /** `handleSearch()`: the search is marked launched, the values of the
      query argument plus the data source label are kept as the last
      search, and the data source and query are handed to the results. */
  function HandleSearch(s: State): (r: (State, (Option<Operation>, Query)))
    ensures r.0.searchLaunched
    ensures r.1 == (s.dataSource, s.query)
    ensures r.0.lastSearch.Some?
    ensures Get(r.0.lastSearch.value, "dataSource") ==
      Some(if s.dataSource.None? then None else s.dataSource.value.labelText)
    ensures forall k :: k != "dataSource" ==>
      Get(r.0.lastSearch.value, k) == Get(Get(s.query, QueryArg).GetOr([]), k)
    ensures r.0 == s.(searchLaunched := true, lastSearch := r.0.lastSearch)
  {
    var sourceLabel := if s.dataSource.None? then None else s.dataSource.value.labelText;
    var last := Put(Get(s.query, QueryArg).GetOr([]), "dataSource", sourceLabel);
    (s.(searchLaunched := true, lastSearch := Some(last)), (s.dataSource, s.query))
  }

  /** Once a search is launched the button stays disabled until something changes. */
  lemma SubmitDisabledAfterSearch(s: State)
    ensures SubmitDisabled(HandleSearch(s).0)
  {
  }

  /** Editing a value re-enables the search exactly when enough is filled in. */
  lemma SetValueReenables(s: State, field: string, v: Option<string>)
    ensures !SubmitDisabled(SetValue(s, QueryArg, field, v)) <==> CanLaunchSearch(SetValue(s, QueryArg, field, v))
  {
  }

  // ---------------------------------------------------------------------
  // Clearing

  /** `deepEqual(query, {[arg]: queryFromURL})`: the query has only the query
      argument, whose object has the same entries as `fromURL`. */
  function QueryIsURLQuery(q: Query, fromURL: Entries<Option<string>>): (r: bool)
    ensures q == [] ==> !r
    ensures r ==> Keys(q) == [QueryArg] && Get(q, QueryArg).Some? && |Get(q, QueryArg).value| == |fromURL|
    ensures q == [(QueryArg, fromURL)] && DistinctKeys(fromURL) ==> r
  {
    |q| == 1 && q[0].0 == QueryArg && DeepEqual(q[0].1, fromURL)
  }

  /** `isFormClear()`: no data source, and the query is the URL query. */
  function IsFormClear(s: State): (r: bool)
    ensures r ==> s.dataSource.None?
    ensures s.query == [] ==> !r
    ensures s.dataSource.None? && s.query == [(QueryArg, s.queryFromURL)] && DistinctKeys(s.queryFromURL) ==> r
  {
    s.dataSource.None? && QueryIsURLQuery(s.query, s.queryFromURL)
  }

  /** `clearForm()`: the query goes back to the URL values and the data
      source is unset. */
  function ClearForm(s: State): (r: State)
    ensures r.query == [(QueryArg, s.queryFromURL)]
    ensures r.dataSource.None?
    ensures r.queryFromURL == s.queryFromURL
    ensures s.dataSource.Some? ==> !r.searchLaunched
  {
    SetDataSource(s.(query := [(QueryArg, s.queryFromURL)]), None)
  }

  /** Right after clearing, the form is clear and no search can be launched. */
  lemma ClearFormIsClear(s: State)
    requires DistinctKeys(s.queryFromURL)
    ensures IsFormClear(ClearForm(s))
    ensures SubmitDisabled(ClearForm(s))
  {
    DeepEqualReflexive(s.queryFromURL);
  }

  // ---------------------------------------------------------------------
  // Loading the default fields

  /** `urlSearchParams.get(name) || null`: the first value given for the
      name, unless it is empty. */
  function Seed(params: Entries<string>, name: string): (v: Option<string>)
    ensures v.Some? ==> v.value != "" && Get(params, name) == Some(v.value)
    ensures v.None? ==> Get(params, name).None? || Get(params, name) == Some("")
  {
    match Get(params, name)
    case None => None
    case Some(x) => if x == "" then None else Some(x)
  }

  /** How the loader decides that some field already took the focus. The
      source stores the name of that field and tests it for truthiness
      (`AsWritten`), so a field with an empty name does not count; the
      intended rule only asks whether a field was marked (`Intended`). */
  datatype FocusRule = AsWritten | Intended

  predicate FocusTaken(rule: FocusRule, marker: Option<string>) {
    match rule
    case AsWritten => Js.Filled(marker)
    case Intended => marker.Some?
  }

  /** What loading threads from field to field: the query and the URL
      values written so far, and the autofocus marker. */
  datatype Loader = Loader(query: Query, fromURL: Entries<Option<string>>, marker: Option<string>)

  /** One iteration of `loadFieldsConfig`. */
  function LoadField(rule: FocusRule, f: ConfigField, params: Entries<string>, st: Loader): (r: (ConfigField, Loader))
    ensures r.0 == f.(value := Seed(params, f.name), autoFocus := r.0.autoFocus)
    ensures r.0.autoFocus == (f.autoFocus || (Seed(params, f.name).None? && !FocusTaken(rule, st.marker)))
    ensures Seed(params, f.name).Some? ==> r.1.marker == st.marker
    ensures Seed(params, f.name).None? && FocusTaken(rule, st.marker) ==> r.1.marker == st.marker
    ensures Seed(params, f.name).None? && !FocusTaken(rule, st.marker) ==> r.1.marker == Some(f.name)
  {
    var v := Seed(params, f.name);
    if v.Some? then
      (f.(value := v), Loader(Assign(st.query, QueryArg, f.name, v), Put(st.fromURL, f.name, v), st.marker))
    else if !FocusTaken(rule, st.marker) then
      (f.(value := v, autoFocus := true), st.(marker := Some(f.name)))
    else
      (f.(value := v), st)
  }

  /** `loadFieldsConfig(fields, params, autoFocus)`. */
  function LoadFields(rule: FocusRule, fs: seq<ConfigField>, params: Entries<string>, st: Loader): (r: (seq<ConfigField>, Loader))
    ensures |r.0| == |fs|
    ensures forall i :: 0 <= i < |fs| ==>
      r.0[i] == fs[i].(value := Seed(params, fs[i].name), autoFocus := r.0[i].autoFocus)
  {
    if |fs| == 0 then ([], st)
    else
      var p := LoadField(rule, fs[0], params, st);
      var q := LoadFields(rule, fs[1..], params, p.1);
      assert forall i :: 1 <= i < |fs| ==> fs[i] == fs[1..][i - 1];
      ([p.0] + q.0, q.1)
  }

  /** Every group's fields, in order. */
  function Flatten(gs: seq<Group>): (fs: seq<ConfigField>)
    ensures forall f :: f in fs <==> InSomeGroup(gs, f)
    ensures |gs| > 0 ==> |fs| >= |gs[0].fields|
  {
    if |gs| == 0 then []
    else
      var rest := Flatten(gs[1..]);
      assert forall f :: InSomeGroup(gs, f) <==> f in gs[0].fields || InSomeGroup(gs[1..], f) by {
        forall f
          ensures InSomeGroup(gs, f) <==> f in gs[0].fields || InSomeGroup(gs[1..], f)
        {
          if InSomeGroup(gs[1..], f) {
            var i :| 0 <= i < |gs[1..]| && f in gs[1..][i].fields;
            assert gs[i + 1] == gs[1..][i];
          }
          if InSomeGroup(gs, f) && f !in gs[0].fields {
            var i :| 0 <= i < |gs| && f in gs[i].fields;
            assert gs[1..][i - 1] == gs[i];
          }
        }
      }
      gs[0].fields + rest
  }

  /** `f` is a field of one of the groups. */
  predicate InSomeGroup(gs: seq<Group>, f: ConfigField) {
    exists i :: 0 <= i < |gs| && f in gs[i].fields
  }

  /** Flattening keeps the groups' order and each group's field order: it
      distributes over concatenation, and one group flattens to its fields. */
  lemma {:induction false} FlattenOrder(a: seq<Group>, b: seq<Group>, g: Group)
    ensures Flatten(a + b) == Flatten(a) + Flatten(b)
    ensures Flatten([g]) == g.fields
    decreases |a|
  {
    if |a| == 0 {
      assert a + b == b;
    } else {
      assert (a + b)[0] == a[0];
      assert (a + b)[1..] == a[1..] + b;
      FlattenOrder(a[1..], b, g);
    }
    assert [g][1..] == [];
  }

  /** The required groups, each loaded in turn with the shared marker. */
  function LoadGroups(rule: FocusRule, gs: seq<Group>, params: Entries<string>, st: Loader): (r: (seq<Group>, Loader))
    ensures |r.0| == |gs|
    ensures forall i :: 0 <= i < |gs| ==> r.0[i].labelText == gs[i].labelText && r.0[i].min == gs[i].min
    ensures r == (ToGroups(gs, LoadFields(rule, Flatten(gs), params, st).0), LoadFields(rule, Flatten(gs), params, st).1)
  {
    if |gs| == 0 then ([], st)
    else
      var p := LoadFields(rule, gs[0].fields, params, st);
      var q := LoadGroups(rule, gs[1..], params, p.1);
      LoadFieldsAppend(rule, gs[0].fields, Flatten(gs[1..]), params, st);
      ToGroupsCons(gs, LoadFields(rule, Flatten(gs), params, st).0);
      ([gs[0].(fields := p.0)] + q.0, q.1)
  }

  /** Cuts a flat list of loaded fields back into groups shaped like `gs`. */
  function ToGroups(gs: seq<Group>, fs: seq<ConfigField>): (r: seq<Group>)
    requires |fs| == |Flatten(gs)|
    ensures |r| == |gs|
    ensures forall i :: 0 <= i < |gs| ==> r[i].labelText == gs[i].labelText && r[i].min == gs[i].min
  {
    if |gs| == 0 then []
    else [gs[0].(fields := fs[..|gs[0].fields|])] + ToGroups(gs[1..], fs[|gs[0].fields|..])
  }

  lemma ToGroupsCons(gs: seq<Group>, fs: seq<ConfigField>)
    requires |gs| > 0 && |fs| == |Flatten(gs)|
    ensures ToGroups(gs, fs) == [gs[0].(fields := fs[..|gs[0].fields|])] + ToGroups(gs[1..], fs[|gs[0].fields|..])
  {
  }

  /** Loading two lists in a row is loading their concatenation. */
  lemma {:induction false} LoadFieldsAppend(rule: FocusRule, a: seq<ConfigField>, b: seq<ConfigField>, params: Entries<string>, st: Loader)
    ensures LoadFields(rule, a + b, params, st) ==
      (LoadFields(rule, a, params, st).0 + LoadFields(rule, b, params, LoadFields(rule, a, params, st).1).0,
       LoadFields(rule, b, params, LoadFields(rule, a, params, st).1).1)
    decreases |a|
  {
    if |a| > 0 {
      assert (a + b)[0] == a[0];
      assert (a + b)[1..] == a[1..] + b;
      var p := LoadField(rule, a[0], params, st);
      LoadFieldsAppend(rule, a[1..], b, params, p.1);
      var x := LoadFields(rule, a[1..], params, p.1);
      var y := LoadFields(rule, b, params, x.1);
      assert [p.0] + (x.0 + y.0) == ([p.0] + x.0) + y.0;
    } else {
      assert a + b == b;
      var y := LoadFields(rule, b, params, st);
      assert [] + y.0 == y.0;
    }
  }

  lemma {:induction false} FlattenToGroups(gs: seq<Group>, fs: seq<ConfigField>)
    requires |fs| == |Flatten(gs)|
    ensures Flatten(ToGroups(gs, fs)) == fs
    decreases |gs|
  {
    if |gs| > 0 {
      var n := |gs[0].fields|;
      FlattenToGroups(gs[1..], fs[n..]);
      assert ToGroups(gs, fs)[1..] == ToGroups(gs[1..], fs[n..]);
      assert fs[..n] + fs[n..] == fs;
    }
  }

  // ---------------------------------------------------------------------
  // Autofocus

  predicate Unseeded(params: Entries<string>, f: ConfigField) {
    Seed(params, f.name).None?
  }

  /** The first field without a URL value, scanning in order. */
  predicate FirstUnseeded(params: Entries<string>, fs: seq<ConfigField>, i: nat)
    requires i < |fs|
  {
    Unseeded(params, fs[i]) && forall j :: 0 <= j < i ==> !Unseeded(params, fs[j])
  }

  lemma FirstUnseededShift(params: Entries<string>, fs: seq<ConfigField>, i: nat)
    requires 1 <= i < |fs|
    ensures FirstUnseeded(params, fs, i) <==> !Unseeded(params, fs[0]) && FirstUnseeded(params, fs[1..], i - 1)
  {
    assert forall j :: 0 <= j < i - 1 ==> fs[1..][j] == fs[j + 1];
  }

  /** No field lacks a URL value. */
  predicate AllSeeded(params: Entries<string>, fs: seq<ConfigField>) {
    forall i :: 0 <= i < |fs| ==> !Unseeded(params, fs[i])
  }

  /** No field has a URL value. */
  predicate AllUnseeded(params: Entries<string>, fs: seq<ConfigField>) {
    forall i :: 0 <= i < |fs| ==> Unseeded(params, fs[i])
  }

  lemma AllSeededShift(params: Entries<string>, fs: seq<ConfigField>)
    requires |fs| > 0
    ensures AllSeeded(params, fs) <==> !Unseeded(params, fs[0]) && AllSeeded(params, fs[1..])
  {
    assert forall j :: 0 <= j < |fs| - 1 ==> fs[1..][j] == fs[j + 1];
  }

  /** Every field has a non-empty name. */
  predicate NamesFilled(fs: seq<ConfigField>) {
    forall i :: 0 <= i < |fs| ==> fs[i].name != ""
  }

  /** The marker is unset or holds a non-empty name, so both rules agree on
      whether the focus was taken. */
  predicate MarkerFilled(marker: Option<string>) {
    marker.None? || marker.value != ""
  }

  /** The rule as written and the intended rule load the same form when no
      configured field has an empty name. */
  lemma {:induction false} LoadFieldsRulesAgree(fs: seq<ConfigField>, params: Entries<string>, st: Loader)
    requires NamesFilled(fs) && MarkerFilled(st.marker)
    ensures LoadFields(AsWritten, fs, params, st) == LoadFields(Intended, fs, params, st)
    ensures MarkerFilled(LoadFields(Intended, fs, params, st).1.marker)
    decreases |fs|
  {
    if |fs| > 0 {
      assert fs[0].name != "";
      assert LoadField(AsWritten, fs[0], params, st) == LoadField(Intended, fs[0], params, st);
      var p := LoadField(Intended, fs[0], params, st);
      assert forall i :: 0 <= i < |fs[1..]| ==> fs[1..][i] == fs[i + 1];
      LoadFieldsRulesAgree(fs[1..], params, p.1);
    }
  }

  /** Loading focuses exactly the first field without a URL value, unless
      an earlier list already took the focus. This holds for the intended
      rule, and for the rule as written when no name is empty. */
  lemma {:induction false} LoadFieldsFocus(rule: FocusRule, fs: seq<ConfigField>, params: Entries<string>, st: Loader)
    requires rule == Intended || (NamesFilled(fs) && MarkerFilled(st.marker))
    ensures var r := LoadFields(rule, fs, params, st);
      forall i :: 0 <= i < |fs| ==>
        r.0[i].autoFocus == (fs[i].autoFocus || (st.marker.None? && FirstUnseeded(params, fs, i)))
    ensures LoadFields(rule, fs, params, st).1.marker.None? <==> st.marker.None? && AllSeeded(params, fs)
    decreases |fs|
  {
    if |fs| > 0 {
      var p := LoadField(rule, fs[0], params, st);
      assert FocusTaken(rule, st.marker) <==> st.marker.Some?;
      assert forall i :: 0 <= i < |fs[1..]| ==> fs[1..][i] == fs[i + 1];
      LoadFieldsFocus(rule, fs[1..], params, p.1);
      AllSeededShift(params, fs);
      var q := LoadFields(rule, fs[1..], params, p.1);
      var r := LoadFields(rule, fs, params, st);
      assert r.0 == [p.0] + q.0;
      assert p.1.marker.None? <==> st.marker.None? && !Unseeded(params, fs[0]);
      forall i | 1 <= i < |fs|
        ensures r.0[i].autoFocus == (fs[i].autoFocus || (st.marker.None? && FirstUnseeded(params, fs, i)))
      {
        assert r.0[i] == q.0[i - 1];
        assert fs[i] == fs[1..][i - 1];
        FirstUnseededShift(params, fs, i);
      }
    }
  }

  /** Loading the required groups and then the optional fields of the configuration. */
  function Init(rule: FocusRule, initial: Query, required: seq<Group>, optional: seq<ConfigField>, params: Entries<string>): (s: State)
    ensures |s.required| == |required| && |s.optional| == |optional|
    ensures s.dataSource.None? && !s.searchLaunched && s.lastSearch.None?
  {
    var g := LoadGroups(rule, required, params, Loader(initial, [], None));
    var o := LoadFields(rule, optional, params, g.1);
    State(g.0, o.0, None, o.1.query, o.1.fromURL, false, None)
  }

  /** The fields of a state in display order: the required groups, then the optional fields. */
  function AllFields(s: State): seq<ConfigField> {
    Flatten(s.required) + s.optional
  }

  /** Every default field is seeded from the URL, and the focus goes to the
      first field, over all required groups and then the optional fields,
      that has no URL value; no other field is focused unless the
      configuration says so. This holds for the intended rule, and for the
      rule as written when no configured name is empty. */
  lemma InitFocus(rule: FocusRule, initial: Query, required: seq<Group>, optional: seq<ConfigField>, params: Entries<string>)
    requires rule == Intended || NamesFilled(Flatten(required) + optional)
    ensures var s := Init(rule, initial, required, optional, params);
      var all := Flatten(required) + optional;
      && |AllFields(s)| == |all|
      && forall i :: 0 <= i < |all| ==>
           && AllFields(s)[i].value == Seed(params, all[i].name)
           && AllFields(s)[i].autoFocus == (all[i].autoFocus || FirstUnseeded(params, all, i))
  {
    var st0 := Loader(initial, [], None);
    var s := Init(rule, initial, required, optional, params);
    var lf := LoadFields(rule, Flatten(required), params, st0);
    FlattenToGroups(required, lf.0);
    LoadFieldsAppend(rule, Flatten(required), optional, params, st0);
    LoadFieldsFocus(rule, Flatten(required) + optional, params, st0);
  }

  /** At most one field is newly focused, under the intended rule or, when
      no configured name is empty, under the rule as written. */
  lemma InitFocusUnique(rule: FocusRule, initial: Query, required: seq<Group>, optional: seq<ConfigField>, params: Entries<string>,
                        i: nat, j: nat)
    requires rule == Intended || NamesFilled(Flatten(required) + optional)
    requires var all := Flatten(required) + optional;
      i < |all| && j < |all| && !all[i].autoFocus && !all[j].autoFocus
    requires var s := Init(rule, initial, required, optional, params);
      i < |AllFields(s)| && j < |AllFields(s)| && AllFields(s)[i].autoFocus && AllFields(s)[j].autoFocus
    ensures i == j
  {
    InitFocus(rule, initial, required, optional, params);
  }

  /** The source's rule focuses two fields when the first unseeded one has
      an empty name. */
  lemma AutoFocusTwice()
    ensures var r := LoadFields(AsWritten,
        [ConfigField("", None, None, false), ConfigField("b", None, None, false)], [], Loader([], [], None));
      r.0[0].autoFocus && r.0[1].autoFocus
  {
    var fs := [ConfigField("", None, None, false), ConfigField("b", None, None, false)];
    var p := LoadField(AsWritten, fs[0], [], Loader([], [], None));
    assert p.1.marker == Some("");
    assert fs[1..] == [fs[1]];
  }

  // ---------------------------------------------------------------------
  // Values loaded from the URL

  /** Some field of `fs` is called `k`. */
  predicate Named(fs: seq<ConfigField>, k: string) {
    exists i :: 0 <= i < |fs| && fs[i].name == k
  }

  lemma NamedShift(fs: seq<ConfigField>, k: string)
    requires |fs| > 0
    ensures Named(fs, k) <==> fs[0].name == k || Named(fs[1..], k)
  {
    if Named(fs, k) && fs[0].name != k {
      var i :| 0 <= i < |fs| && fs[i].name == k;
      assert fs[1..][i - 1].name == k;
    }
    if Named(fs[1..], k) {
      var i :| 0 <= i < |fs[1..]| && fs[1..][i].name == k;
      assert fs[i + 1].name == k;
    }
  }

  /** Loading writes the URL value of every named field into `query[arg]`
      and into the URL query, and nothing else; the URL query keeps distinct
      keys, and a query that starts as exactly the URL query stays so. */
  lemma {:induction false} LoadFieldsValues(rule: FocusRule, fs: seq<ConfigField>, params: Entries<string>, st: Loader)
    ensures var r := LoadFields(rule, fs, params, st).1;
      forall a, k :: ValueOf(r.query, a, k) ==
        if a == QueryArg && Named(fs, k) && Seed(params, k).Some? then Seed(params, k) else ValueOf(st.query, a, k)
    ensures var r := LoadFields(rule, fs, params, st).1;
      forall k :: Get(r.fromURL, k) ==
        if Named(fs, k) && Seed(params, k).Some? then Some(Seed(params, k)) else Get(st.fromURL, k)
    ensures DistinctKeys(st.fromURL) ==> DistinctKeys(LoadFields(rule, fs, params, st).1.fromURL)
    ensures st.query == [(QueryArg, st.fromURL)] ==>
      LoadFields(rule, fs, params, st).1.query == [(QueryArg, LoadFields(rule, fs, params, st).1.fromURL)]
    decreases |fs|
  {
    if |fs| > 0 {
      var p := LoadField(rule, fs[0], params, st);
      LoadFieldsValues(rule, fs[1..], params, p.1);
      forall k { NamedShift(fs, k); }
      if Seed(params, fs[0].name).Some? && DistinctKeys(st.fromURL) {
        PutDistinct(st.fromURL, fs[0].name, Seed(params, fs[0].name));
      }
    }
  }

  /** Without any URL value, loading leaves the query as it was. */
  lemma {:induction false} LoadFieldsUnseeded(rule: FocusRule, fs: seq<ConfigField>, params: Entries<string>, st: Loader)
    requires AllUnseeded(params, fs)
    ensures LoadFields(rule, fs, params, st).1.query == st.query
    decreases |fs|
  {
    if |fs| > 0 {
      assert forall i :: 0 <= i < |fs[1..]| ==> fs[1..][i] == fs[i + 1];
      LoadFieldsUnseeded(rule, fs[1..], params, LoadField(rule, fs[0], params, st).1);
    }
  }

  /** After loading, `query[arg]` and the URL query hold exactly the
      non-empty URL values of the configured fields. */
  lemma InitValues(rule: FocusRule, initial: Query, required: seq<Group>, optional: seq<ConfigField>, params: Entries<string>)
    ensures var s := Init(rule, initial, required, optional, params);
      var all := Flatten(required) + optional;
      forall a, k :: ValueOf(s.query, a, k) ==
        if a == QueryArg && Named(all, k) && Seed(params, k).Some? then Seed(params, k) else ValueOf(initial, a, k)
    ensures var s := Init(rule, initial, required, optional, params);
      var all := Flatten(required) + optional;
      forall k :: Get(s.queryFromURL, k) ==
        if Named(all, k) && Seed(params, k).Some? then Some(Seed(params, k)) else None
  {
    var st0 := Loader(initial, [], None);
    LoadFieldsAppend(rule, Flatten(required), optional, params, st0);
    LoadFieldsValues(rule, Flatten(required) + optional, params, st0);
  }

  /** The query a fresh form starts from: `{[arg]: {}}`. The source starts
      from `{}` instead. */
  const FreshQuery: Query := [(QueryArg, [])]

  /** Started from `{[arg]: {}}`, a freshly loaded form is clear, so its
      reset button is disabled, and its search button is disabled too. */
  lemma FreshFormClear(rule: FocusRule, required: seq<Group>, optional: seq<ConfigField>, params: Entries<string>)
    ensures IsFormClear(Init(rule, FreshQuery, required, optional, params))
    ensures SubmitDisabled(Init(rule, FreshQuery, required, optional, params))
  {
    var st0 := Loader(FreshQuery, [], None);
    var all := Flatten(required) + optional;
    LoadFieldsAppend(rule, Flatten(required), optional, params, st0);
    LoadFieldsValues(rule, all, params, st0);
    DeepEqualReflexive(LoadFields(rule, all, params, st0).1.fromURL);
  }

  /** Started from `{}` as in the source, a form without URL values is not
      clear: `{}` is not deep-equal to `{[arg]: {}}`, so reset is enabled
      on a form that has nothing to reset. */
  lemma FreshFormNotClear(rule: FocusRule, required: seq<Group>, optional: seq<ConfigField>, params: Entries<string>)
    requires AllUnseeded(params, Flatten(required) + optional)
    ensures !IsFormClear(Init(rule, [], required, optional, params))
  {
    var st0 := Loader([], [], None);
    var g := LoadGroups(rule, required, params, st0);
    LoadFieldsAppend(rule, Flatten(required), optional, params, st0);
    var lf := LoadFields(rule, Flatten(required) + optional, params, st0);
    assert LoadFields(rule, optional, params, g.1).1 == lf.1;
    LoadFieldsUnseeded(rule, Flatten(required) + optional, params, st0);
  }
}
