/** The form layout helpers of `QueryFormLayout.jsx`: the heading of a
    fieldset, whether a fieldset is drawn at all, and the summary of the
    last search shown under the form. */
module Layout {
  import opened Wrappers
  import opened Dict
  import Text
  import Js
  import Utils
  import opened Session

  // ---------------------------------------------------------------------
  // Fieldsets

  /** `fieldset.label ?? (...)`: an explicit label, even an empty one, wins;
      otherwise the label is derived from the group's minimum, and a falsy
      minimum (absent or 0) gives none. */
  function FieldsetLabel(g: Group): (r: string)
    ensures g.labelText.Some? ==> r == g.labelText.value
    ensures g.labelText.None? && (g.min.None? || g.min == Some(0)) ==> r == ""
    ensures g.labelText.None? && g.min == Some(1) ==> r == "One of"
    ensures g.labelText.None? && g.min.Some? && g.min.value != 0 && g.min.value != 1 ==>
      r == "Minimum " + Text.IntToString(g.min.value) + " of"
  {
    match g.labelText
    case Some(l) => l
    case None =>
      if g.min.None? || g.min.value == 0 then ""
      else if g.min.value == 1 then "One of"
      else "Minimum " + Text.IntToString(g.min.value) + " of"
  }

  /** A label is empty exactly when it was given empty or there is no
      minimum to derive one from. */
  lemma FieldsetLabelEmpty(g: Group)
    ensures FieldsetLabel(g) == "" <==>
      g.labelText == Some("") || (g.labelText.None? && (g.min.None? || g.min == Some(0)))
  {
  }

  /** The derived label tells the minimum: two groups without an explicit
      label and with truthy minimums get the same label only if their
      minimums agree. */
  lemma FieldsetLabelDeterminesMin(m: int, n: int)
    requires m != 0 && n != 0
    requires FieldsetLabel(Group(None, Some(m), [])) == FieldsetLabel(Group(None, Some(n), []))
    ensures m == n
  {
    var a := FieldsetLabel(Group(None, Some(m), []));
    if m != 1 && n != 1 {
      var sm := Text.IntToString(m);
      var sn := Text.IntToString(n);
      assert a == "Minimum " + sm + " of";
      assert a == "Minimum " + sn + " of";
      assert |sm| == |sn|;
      assert sm == a[8..8 + |sm|];
      assert sn == a[8..8 + |sn|];
      Text.IntToStringInjective(m, n);
    }
  }

  /** What a fieldset draws: the heading `label:` when the label is
      non-empty, then its fields. */
  datatype FieldsetView = FieldsetView(heading: Option<string>, fields: seq<ConfigField>)

  /** `QueryFieldset`: nothing at all for a group without fields. */
  function RenderFieldset(g: Group): (r: Option<FieldsetView>)
    ensures r.None? <==> |g.fields| == 0
    ensures r.Some? ==> r.value.fields == g.fields
    ensures r.Some? ==> (r.value.heading.None? <==> FieldsetLabel(g) == "")
    ensures r.Some? && r.value.heading.Some? ==> r.value.heading.value == FieldsetLabel(g) + ":"
  {
    if |g.fields| == 0 then None
    else
      var l := FieldsetLabel(g);
      Some(FieldsetView(if l == "" then None else Some(l + ":"), g.fields))
  }

  // ---------------------------------------------------------------------
  // Summary of the last search

  /** A chip of the summary: the key it shows, its label and value, and
      whether it is drawn in the primary colour (a required field). */
  datatype Chip = Chip(key: string, labelText: string, value: string, primary: bool)

  /** The text on a chip: `label : value`. */
  function ChipText(c: Chip): (r: string)
    ensures |r| == |c.labelText| + 3 + |c.value|
    ensures r[..|c.labelText|] == c.labelText && r[|c.labelText|..|c.labelText| + 3] == " : "
    ensures r[|c.labelText| + 3..] == c.value
  {
    c.labelText + " : " + c.value
  }

  /** `query?.[k]`, with `undefined` for a missing key. */
  function Lookup(q: Entries<Option<string>>, k: string): Option<string> {
    Get(q, k).GetOr(None)
  }

  /** `f.label || camelCaseToWords(f.name)`. */
  function FieldLabel(f: ConfigField): string {
    if Js.Filled(f.labelText) then f.labelText.value else Utils.CamelCaseToWords(f.name)
  }

  /** The required fields are named in the list. */
  predicate IsRequired(required: seq<ConfigField>, k: string) {
    exists i :: 0 <= i < |required| && required[i].name == k
  }

  /** `c` is the primary chip of the `i`-th required field, whose value is truthy. */
  predicate ChipAt(required: seq<ConfigField>, q: Entries<Option<string>>, i: nat, c: Chip)
    requires i < |required|
  {
    Js.Filled(Lookup(q, required[i].name)) &&
    c == Chip(required[i].name, FieldLabel(required[i]), Lookup(q, required[i].name).value, true)
  }

  /** `c` is the primary chip of some required field. */
  predicate ChipOfField(required: seq<ConfigField>, q: Entries<Option<string>>, c: Chip) {
    exists i :: 0 <= i < |required| && ChipAt(required, q, i, c)
  }

  /** The primary chips: one per required field with a truthy value, in
      required order. */
  function RequiredChips(required: seq<ConfigField>, q: Entries<Option<string>>): (r: seq<Chip>)
    ensures forall c :: c in r ==> c.primary && c.value != "" && IsRequired(required, c.key)
    ensures forall i :: 0 <= i < |required| && Js.Filled(Lookup(q, required[i].name)) ==>
      Chip(required[i].name, FieldLabel(required[i]), Lookup(q, required[i].name).value, true) in r
    ensures forall c :: c in r ==> Lookup(q, c.key) == Some(c.value)
    ensures forall c :: c in r ==> ChipOfField(required, q, c)
    ensures |r| <= |required|
  {
    if |required| == 0 then []
    else
      var f := required[0];
      var rest := RequiredChips(required[1..], q);
      assert forall k :: IsRequired(required[1..], k) ==> IsRequired(required, k) by {
        forall k | IsRequired(required[1..], k) ensures IsRequired(required, k) {
          var i :| 0 <= i < |required[1..]| && required[1..][i].name == k;
          assert required[i + 1].name == k;
        }
      }
      assert forall i :: 1 <= i < |required| ==> required[i] == required[1..][i - 1];
      assert IsRequired(required, f.name) by { assert required[0].name == f.name; }
      var v := Lookup(q, f.name);
      assert forall c :: c in rest ==> ChipOfField(required, q, c) by {
        forall c | c in rest
          ensures ChipOfField(required, q, c)
        {
          var i :| 0 <= i < |required[1..]| && ChipAt(required[1..], q, i, c);
          assert required[i + 1] == required[1..][i];
          assert ChipAt(required, q, i + 1, c);
        }
      }
      assert Js.Filled(v) ==> ChipAt(required, q, 0, Chip(f.name, FieldLabel(f), v.value, true));
      if Js.Filled(v) then [Chip(f.name, FieldLabel(f), v.value, true)] + rest else rest
  }

  /** The primary chips follow the required order: they distribute over
      concatenation, and one field gives its chip iff its value is truthy. */
  lemma {:induction false} RequiredChipsOrder(a: seq<ConfigField>, b: seq<ConfigField>, f: ConfigField, q: Entries<Option<string>>)
    ensures RequiredChips(a + b, q) == RequiredChips(a, q) + RequiredChips(b, q)
    ensures RequiredChips([f], q) ==
      if Js.Filled(Lookup(q, f.name)) then [Chip(f.name, FieldLabel(f), Lookup(q, f.name).value, true)] else []
    decreases |a|
  {
    if |a| == 0 {
      assert a + b == b;
    } else {
      assert (a + b)[0] == a[0];
      assert (a + b)[1..] == a[1..] + b;
      RequiredChipsOrder(a[1..], b, f, q);
    }
    assert [f][1..] == [];
  }

  /** The other chips: every remaining entry with a truthy value whose key is
      not a required field, in entry order. */
  function OtherChips(required: seq<ConfigField>, q: Entries<Option<string>>): (r: seq<Chip>)
    ensures forall c :: c in r ==> !c.primary && c.value != "" && !IsRequired(required, c.key)
    ensures forall c :: c in r ==> (c.key, Some(c.value)) in q && c.labelText == Utils.CamelCaseToWords(c.key)
    ensures forall i :: 0 <= i < |q| && Js.Filled(q[i].1) && !IsRequired(required, q[i].0) ==>
      Chip(q[i].0, Utils.CamelCaseToWords(q[i].0), q[i].1.value, false) in r
    ensures |r| <= |q|
  {
    if |q| == 0 then []
    else
      var (k, v) := q[0];
      var rest := OtherChips(required, q[1..]);
      assert forall i :: 1 <= i < |q| ==> q[i] == q[1..][i - 1];
      assert forall e :: e in q[1..] ==> e in q;
      if Js.Filled(v) && !IsRequired(required, k) then
        [Chip(k, Utils.CamelCaseToWords(k), v.value, false)] + rest
      else rest
  }

  /** The other chips follow the entry order: they distribute over
      concatenation, and one entry gives its chip iff its value is truthy
      and its key is not required. */
  lemma {:induction false} OtherChipsOrder(required: seq<ConfigField>, a: Entries<Option<string>>, b: Entries<Option<string>>,
                                           k: string, v: Option<string>)
    ensures OtherChips(required, a + b) == OtherChips(required, a) + OtherChips(required, b)
    ensures OtherChips(required, [(k, v)]) ==
      if Js.Filled(v) && !IsRequired(required, k) then [Chip(k, Utils.CamelCaseToWords(k), v.value, false)] else []
    decreases |a|
  {
    if |a| == 0 {
      assert a + b == b;
    } else {
      assert (a + b)[0] == a[0];
      assert (a + b)[1..] == a[1..] + b;
      OtherChipsOrder(required, a[1..], b, k, v);
    }
    assert [(k, v)][1..] == [];
  }

  /** `QuerySummary`: the required chips, then the others. */
  function QuerySummary(required: seq<ConfigField>, q: Entries<Option<string>>): (r: seq<Chip>)
    ensures forall i, j :: 0 <= i < j < |r| && !r[i].primary ==> !r[j].primary
    ensures forall i, j :: 0 <= i < |r| && 0 <= j < |r| && r[i].primary && !r[j].primary ==> r[i].key != r[j].key
    ensures forall i :: 0 <= i < |r| ==> r[i].value != ""
    ensures forall i :: 0 <= i < |r| ==> (r[i].primary <==> IsRequired(required, r[i].key))
    ensures forall i :: 0 <= i < |r| && r[i].primary ==> ShowsRequiredText(required, q, r[i])
    ensures forall i :: 0 <= i < |r| && !r[i].primary ==>
      ChipText(r[i]) == Utils.CamelCaseToWords(r[i].key) + " : " + r[i].value
  {
    var a := RequiredChips(required, q);
    var b := OtherChips(required, q);
    ConcatChips(required, a, b);
    var r := a + b;
    forall i | 0 <= i < |r|
      ensures r[i].primary ==> ShowsRequiredText(required, q, r[i])
      ensures !r[i].primary ==> ChipText(r[i]) == Utils.CamelCaseToWords(r[i].key) + " : " + r[i].value
    {
      if i < |a| {
        assert r[i] == a[i] && a[i] in a;
        var j :| 0 <= j < |required| && ChipAt(required, q, j, a[i]);
        assert required[j].name == r[i].key;
      } else {
        assert r[i] == b[i - |a|] && b[i - |a|] in b;
      }
    }
    r
  }

  /** The text on the chip of a required field: its label, then the value. */
  predicate ShowsRequiredText(required: seq<ConfigField>, q: Entries<Option<string>>, c: Chip) {
    Js.Filled(Lookup(q, c.key)) &&
    exists i :: 0 <= i < |required| && required[i].name == c.key &&
      ChipText(c) == FieldLabel(required[i]) + " : " + Lookup(q, c.key).value
  }

  /** Primary chips followed by the others keep the summary's order and
      never show a required key among the others. */
  lemma ConcatChips(required: seq<ConfigField>, a: seq<Chip>, b: seq<Chip>)
    requires forall c :: c in a ==> c.primary && c.value != "" && IsRequired(required, c.key)
    requires forall c :: c in b ==> !c.primary && c.value != "" && !IsRequired(required, c.key)
    ensures var r := a + b;
      && (forall i, j :: 0 <= i < j < |r| && !r[i].primary ==> !r[j].primary)
      && (forall i, j :: 0 <= i < |r| && 0 <= j < |r| && r[i].primary && !r[j].primary ==> r[i].key != r[j].key)
      && (forall i :: 0 <= i < |r| ==> r[i].value != "")
      && (forall i :: 0 <= i < |r| ==> (r[i].primary <==> IsRequired(required, r[i].key)))
  {
    var r := a + b;
    forall i | 0 <= i < |r|
      ensures r[i].value != "" && (r[i].primary <==> IsRequired(required, r[i].key))
      ensures r[i].primary <==> i < |a|
    {
      if i < |a| {
        assert r[i] == a[i] && a[i] in a;
      } else {
        assert r[i] == b[i - |a|] && b[i - |a|] in b;
      }
    }
  }

  /** Every chip shows a key whose value is truthy. */
  lemma SummaryShowsTruthy(required: seq<ConfigField>, q: Entries<Option<string>>, i: nat)
    requires DistinctKeys(q)
    requires i < |QuerySummary(required, q)|
    ensures Js.Filled(Lookup(q, QuerySummary(required, q)[i].key))
  {
    var a := RequiredChips(required, q);
    var b := OtherChips(required, q);
    var c := (a + b)[i];
    if i < |a| {
      assert a[i] in a;
    } else {
      assert b[i - |a|] in b;
      var j :| 0 <= j < |q| && q[j] == (c.key, Some(c.value));
      GetAt(q, j);
    }
  }

  /** Every key with a truthy value gets a chip. */
  lemma SummaryShowsAll(required: seq<ConfigField>, q: Entries<Option<string>>, k: string)
    requires Js.Filled(Lookup(q, k))
    ensures exists i :: 0 <= i < |QuerySummary(required, q)| && QuerySummary(required, q)[i].key == k
  {
    var c := SummaryChipFor(required, q, k);
    var r := QuerySummary(required, q);
    var m :| 0 <= m < |r| && r[m] == c;
  }

  /** The chip a key with a truthy value gets. */
  lemma SummaryChipFor(required: seq<ConfigField>, q: Entries<Option<string>>, k: string) returns (c: Chip)
    requires Js.Filled(Lookup(q, k))
    ensures c.key == k && c in QuerySummary(required, q)
  {
    var a := RequiredChips(required, q);
    var b := OtherChips(required, q);
    assert QuerySummary(required, q) == a + b;
    if IsRequired(required, k) {
      var i :| 0 <= i < |required| && required[i].name == k;
      c := Chip(k, FieldLabel(required[i]), Lookup(q, k).value, true);
      assert c in a;
    } else {
      var j :| 0 <= j < |q| && q[j] == (k, Get(q, k).value);
      c := Chip(k, Utils.CamelCaseToWords(k), Lookup(q, k).value, false);
      assert c in b;
    }
  }
}
