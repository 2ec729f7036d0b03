/** The range inputs of `DateTimeRangeInput.jsx` and its two instances,
    `DateRangeInput.jsx` and `TimeRangeInput.jsx`. A range is kept as two
    optional picker values and sent to the form as one text, the two ends
    joined by `...`. Picker values are left abstract (`D`): the model only
    needs the text a value formats to, whether the picker's value is valid,
    and how a text is read back, all passed in as functions. */
module Range {
  import opened Wrappers
  import Text

  const Separator: string := "..."

  /** The two instances: the date range keeps 10 characters of the formatted
      value (`YYYY-MM-DD`), the time range 16 (`YYYY-MM-DDTHH:mm`). */
  datatype Kind = DateRange | TimeRange

  function Width(k: Kind): nat {
    match k
    case DateRange => 10
    case TimeRange => 16
  }

  /** How a missing end is written. `AsWritten` follows the source, where the
      time range's `toString` returns `undefined` and the template literal
      turns it into the text `undefined`; `Intended` writes nothing, as the
      date range does. */
  datatype EndRule = AsWritten | Intended

  function MissingEnd(k: Kind, rule: EndRule): string {
    if k == TimeRange && rule == AsWritten then "undefined" else ""
  }

  /** `s.substring(0, n)`. */
  function Prefix(s: string, n: nat): (r: string)
    ensures |r| <= n && |r| <= |s| && r == s[..|r|]
    ensures |s| >= n ==> |r| == n
    ensures |s| < n ==> r == s
  {
    if |s| <= n then s else s[..n]
  }

  /** `toString(date)`: a prefix of the formatted value, or the text of a
      missing end. */
  function Render<D>(k: Kind, rule: EndRule, format: D -> string, d: Option<D>): string {
    if d.Some? then Prefix(format(d.value), Width(k)) else MissingEnd(k, rule)
  }

  datatype Bounds<D> = Bounds(start: Option<D>, end: Option<D>)

  /** `value?.split("...")` and its first two pieces, an empty or missing
      piece giving no bound. */
  function Pieces(value: Option<string>): (r: (Option<string>, Option<string>))
    ensures value.None? ==> r == (None, None)
    ensures r.0.Some? ==> r.0.value != ""
    ensures r.1.Some? ==> r.1.value != ""
    ensures value.Some? && Text.Find(value.value, Separator).None? ==>
      r == (Reread(value.value), None)
    ensures value.Some? && Text.Find(value.value, Separator).Some? ==>
      var k := Text.Find(value.value, Separator).value;
      r == (Reread(value.value[..k]), Reread(Text.Split(value.value[k + |Separator|..], Separator)[0]))
  {
    if value.None? then (None, None)
    else
      var ps := Text.Split(value.value, Separator);
      var first := if ps[0] != "" then Some(ps[0]) else None;
      var second := if |ps| > 1 && ps[1] != "" then Some(ps[1]) else None;
      if Text.Find(value.value, Separator).None? then
        assert ps == [value.value];
        (first, second)
      else (first, second)
  }

  /** The effect on a new `value`: each non-empty piece is read back with
      `parse` (`dayjs(text)`). */
  function Load<D>(parse: string -> D, value: Option<string>): (r: Bounds<D>)
    ensures r.start.Some? <==> Pieces(value).0.Some?
    ensures r.end.Some? <==> Pieces(value).1.Some?
    ensures r.start.Some? ==> r.start.value == parse(Pieces(value).0.value)
    ensures r.end.Some? ==> r.end.value == parse(Pieces(value).1.value)
  {
    var p := Pieces(value);
    Bounds(if p.0.Some? then Some(parse(p.0.value)) else None,
           if p.1.Some? then Some(parse(p.1.value)) else None)
  }

  /** Which picker changed. */
  datatype Side = Start | End

  /** `handleChange`: an invalid pick clears that end; the other end is kept.
      The form receives the two ends joined by the separator while either is
      set, and `undefined` once both are cleared. */
  function HandleChange<D>(k: Kind, rule: EndRule, format: D -> string, valid: D -> bool,
                           b: Bounds<D>, side: Side, picked: Option<D>): (r: (Bounds<D>, Option<string>))
    ensures var picked' := if picked.Some? && valid(picked.value) then picked else None;
      r.0 == (if side == Start then b.(start := picked') else b.(end := picked'))
    ensures r.1.None? <==> r.0.start.None? && r.0.end.None?
    ensures r.1.Some? ==>
      r.1.value == Render(k, rule, format, r.0.start) + Separator + Render(k, rule, format, r.0.end)
  {
    var v := if picked.Some? && valid(picked.value) then picked else None;
    var nb := if side == Start then b.(start := v) else b.(end := v);
    if nb.start.Some? || nb.end.Some? then
      (nb, Some(Render(k, rule, format, nb.start) + Separator + Render(k, rule, format, nb.end)))
    else (nb, None)
  }

  /** The bound text an end reads back as: its rendering, when non-empty. */
  function Reread(t: string): Option<string> {
    if t == "" then None else Some(t)
  }

  /** Two texts without a dot, joined by the separator, split back into
      themselves. */
  lemma JoinedPieces(a: string, b: string)
    requires '.' !in a && '.' !in b
    ensures Pieces(Some(a + Separator + b)) == (Reread(a), Reread(b))
  {
    Text.LeadCharSeparable([a, b], Separator);
    Text.SplitJoin([a, b], Separator);
    assert Text.Join([a, b], Separator) == a + Separator + b by {
      assert Text.Join([b], Separator) == b;
    }
  }

  /** With the intended rule, what the range sends comes back as the same
      bounds when the form hands it back: a set end as its rendering, a
      missing end as no bound, provided the renderings hold no dot. */
  lemma RoundTrip<D>(k: Kind, format: D -> string, valid: D -> bool,
                     b: Bounds<D>, side: Side, picked: Option<D>)
    requires var r := HandleChange(k, Intended, format, valid, b, side, picked).0;
      (r.start.Some? ==> '.' !in format(r.start.value) && Prefix(format(r.start.value), Width(k)) != "") &&
      (r.end.Some? ==> '.' !in format(r.end.value) && Prefix(format(r.end.value), Width(k)) != "")
    ensures var (r, sent) := HandleChange(k, Intended, format, valid, b, side, picked);
      sent.Some? ==>
        && (Pieces(sent).0.Some? <==> r.start.Some?)
        && (Pieces(sent).1.Some? <==> r.end.Some?)
        && (r.start.Some? ==> Pieces(sent).0.value == Prefix(format(r.start.value), Width(k)))
        && (r.end.Some? ==> Pieces(sent).1.value == Prefix(format(r.end.value), Width(k)))
  {
    var p := HandleChange(k, Intended, format, valid, b, side, picked);
    var r := p.0;
    if p.1.Some? {
      var ta := Render(k, Intended, format, r.start);
      var tb := Render(k, Intended, format, r.end);
      PrefixNoDot(r.start, format, Width(k));
      PrefixNoDot(r.end, format, Width(k));
      JoinedPieces(ta, tb);
    }
  }

  lemma PrefixNoDot<D>(d: Option<D>, format: D -> string, n: nat)
    requires d.Some? ==> '.' !in format(d.value)
    ensures d.Some? ==> '.' !in Prefix(format(d.value), n)
  {
    if d.Some? {
      var s := format(d.value);
      var r := Prefix(s, n);
      forall i | 0 <= i < |r| ensures r[i] != '.' {
        assert r[i] == s[i];
      }
    }
  }

  /** The condition on dots cannot be weakened to "no `...` in either end":
      a start ending in a dot moves that dot into the end piece. */
  lemma DotBeforeSeparator()
    ensures Pieces(Some("x." + Separator + "b")) == (Some("x"), Some(".b"))
  {
    var s := "x." + Separator + "b";
    assert s == "x....b";
    assert s[0..3][0] == 'x' && s[1..4] == Separator;
    Text.FindFirst(s, Separator, 1);
    assert s[..1] == "x" && s[4..] == ".b";
    assert Text.Split(".b", Separator) == [".b"];
    assert Text.Split(s, Separator) == ["x"] + Text.Split(".b", Separator);
  }

  /** As written, clearing the end of a time range while its start is set
      sends `start...undefined`, which reads back with an end bound of
      `undefined`: the cleared end comes back set. */
  lemma TimeRangeClearedEndReturns<D>(format: D -> string, valid: D -> bool, b: Bounds<D>, picked: Option<D>)
    requires b.start.Some? && '.' !in format(b.start.value)
    requires picked.None? || !valid(picked.value)
    ensures var (r, sent) := HandleChange(TimeRange, AsWritten, format, valid, b, End, picked);
      r.end.None? && sent.Some? && Pieces(sent).1 == Some("undefined")
  {
    var s := b.start;
    PrefixNoDot(s, format, 16);
    JoinedPieces(Render(TimeRange, AsWritten, format, s), "undefined");
  }

  /** The date range has no such problem: a cleared end reads back as none. */
  lemma DateRangeClearedEndStaysCleared<D>(format: D -> string, valid: D -> bool, b: Bounds<D>, picked: Option<D>)
    requires b.start.Some? && '.' !in format(b.start.value)
    requires picked.None? || !valid(picked.value)
    ensures var (r, sent) := HandleChange(DateRange, AsWritten, format, valid, b, End, picked);
      r.end.None? && sent.Some? && Pieces(sent).1.None?
  {
    var s := b.start;
    PrefixNoDot(s, format, 10);
    JoinedPieces(Render(DateRange, AsWritten, format, s), "");
  }
}
