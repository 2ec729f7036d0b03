/** The resolvers the application registers whose source is part of this
    model: the time, date-range and time-range inputs in the query registry
    and the JSON displayer in the resource registry, all at confidence 50. */
module Widgets {
  import opened Wrappers
  import opened GraphQL
  import Registry
  import Js

  /** Query field inputs. `Other` stands for the text, date and enum inputs,
      whose resolvers are not part of this model. */
  datatype QueryInput = TimeInput | DateRangeInput | TimeRangeInput | Other(name: string)

  datatype ResourceDisplayer = JsonDisplayer | OtherDisplayer(name: string)

  const Confidence: int := 50

  /** `TimeInput.jsx`: a field whose type is named `Time`. */
  function TimeResolver(f: Field): (r: Option<(QueryInput, int)>)
    ensures r.Some? <==> f.typ.name == "Time"
    ensures r.Some? ==> r.value == (TimeInput, Confidence)
  {
    if f.typ.name == "Time" then Some((TimeInput, Confidence)) else None
  }

  /** `DateRangeInput.jsx`: a field whose type is named `DateRange`. */
  function DateRangeResolver(f: Field): (r: Option<(QueryInput, int)>)
    ensures r.Some? <==> f.typ.name == "DateRange"
    ensures r.Some? ==> r.value == (DateRangeInput, Confidence)
  {
    if f.typ.name == "DateRange" then Some((DateRangeInput, Confidence)) else None
  }

  /** `TimeRangeInput.jsx`: a field whose type is named `TimeRange` and has
      exactly two fields. */
  function TimeRangeResolver(f: Field): (r: Option<(QueryInput, int)>)
    ensures r.Some? <==> f.typ.name == "TimeRange" && f.typ.fields.Present? && |f.typ.fields.items| == 2
    ensures r.Some? ==> r.value == (TimeRangeInput, Confidence)
  {
    if f.typ.name == "TimeRange" && f.typ.fields.Present? && |f.typ.fields.items| == 2
    then Some((TimeRangeInput, Confidence))
    else None
  }

  /** `JsonDisplayer.jsx`: any resource whose `typeof` is `"object"`, which
      includes arrays and `null`. */
  function JsonResolver(v: Js.Value): (r: Option<(ResourceDisplayer, int)>)
    ensures r.Some? <==> v.Null? || v.Arr? || v.Obj?
    ensures r.Some? ==> r.value == (JsonDisplayer, Confidence)
  {
    if Js.TypeOf(v) == "object" then Some((JsonDisplayer, Confidence)) else None
  }

  /** The three query resolvers never compete: a field matches at most one. */
  lemma QueryResolversExclusive(f: Field)
    ensures !(TimeResolver(f).Some? && DateRangeResolver(f).Some?)
    ensures !(TimeResolver(f).Some? && TimeRangeResolver(f).Some?)
    ensures !(DateRangeResolver(f).Some? && TimeRangeResolver(f).Some?)
  {
  }

  /** Whatever else is registered, a field that one of these resolvers
      accepts gets an input at least as confident as 50. */
  lemma KnownResolverBound(reg: seq<Registry.Resolver<Field, QueryInput>>, f: Field, k: nat)
    requires k < |reg|
    requires reg[k] == TimeResolver || reg[k] == DateRangeResolver || reg[k] == TimeRangeResolver
    requires reg[k](f).Some?
    ensures Registry.Choose(reg, f).Ok?
    ensures Registry.Choose(reg, f).value.1 >= Confidence
  {
  }

  /** With only the resolvers modelled here registered, in the order the
      application imports them, a `TimeRange` field with two subfields gets
      the time-range input and one with any other number of subfields gets
      nothing. */
  lemma TimeRangeSelection(start: Field, end: Field)
    ensures Registry.GetComponent([TimeResolver, DateRangeResolver, TimeRangeResolver],
      Field("when", TypeDef("TimeRange", Present([start, end]), None))) == Ok(TimeRangeInput)
    ensures Registry.GetComponent([TimeResolver, DateRangeResolver, TimeRangeResolver],
      Field("when", TypeDef("TimeRange", Present([start]), None))).Err?
  {
    var reg: seq<Registry.Resolver<Field, QueryInput>> := [TimeResolver, DateRangeResolver, TimeRangeResolver];
    Registry.SingleOffer(reg, Field("when", TypeDef("TimeRange", Present([start, end]), None)), 2);
  }

  /** Whatever else is registered before or after it, a `TimeRange` field
      with two subfields gets the time-range input, provided no resolver
      registered before it offers 50 or more and none after it offers more
      than 50. The time and date-range resolvers never offer anything for
      such a field. */
  lemma TimeRangeWins(before: seq<Registry.Resolver<Field, QueryInput>>, after: seq<Registry.Resolver<Field, QueryInput>>, f: Field)
    requires TimeRangeResolver(f).Some?
    requires forall j :: 0 <= j < |before| && before[j](f).Some? ==> before[j](f).value.1 < Confidence
    requires forall j :: 0 <= j < |after| && after[j](f).Some? ==> after[j](f).value.1 <= Confidence
    ensures Registry.GetComponent(before + [TimeRangeResolver] + after, f) == Ok(TimeRangeInput)
  {
    var reg := before + [TimeRangeResolver] + after;
    var k := |before|;
    assert reg[k] == TimeRangeResolver;
    assert forall j :: 0 <= j < k ==> reg[j] == before[j];
    assert forall j :: k < j < |reg| ==> reg[j] == after[j - k - 1];
    Registry.Winner(reg, f, k);
  }

  /** `null` is shown by the JSON displayer, while a string matches no
      displayer modelled here. */
  lemma JsonDisplayerSelection()
    ensures Registry.GetComponent([JsonResolver], Js.Null) == Ok(JsonDisplayer)
    ensures Registry.GetComponent([JsonResolver], Js.Str("x")).Err?
  {
    Registry.SingleOffer([JsonResolver], Js.Null, 0);
  }
}
