# archive-viewer: a Dafny model of the search pipeline

archive-viewer is a React front end for searching a GraphQL archive. The
application works in four steps:

1. It reads the server's schema and keeps the operations that can serve as
   data sources.
2. It builds a search form from a configuration of required groups and
   optional fields. The form is seeded from the page URL.
3. It serialises the form into a GraphQL query.
4. It shows the answer as a grid of rows, with a dialog for a single record.

Two registries decide which input component draws a query field and which
displayer draws a resource. A date or time range travels through the form as
one text, `start...end`.

This project models the pure logic of that pipeline as immutable datatypes
and total functions:

- JavaScript's `undefined`/`null` is `None`.
- A thrown exception is an `Err` result.
- An ordered JavaScript object is a list of entries (module `Dict`). Writing
  an existing key keeps its place, as object spread does.
- React state updates are functions from one state to the next.
- The URL parameters, the picker library's formatting, validity and parsing,
  and the server's responses are inputs.

The modules, one file each:

- `Wrappers`, `Dict`, `Js`, `Text`, `GraphQL` (wrappers.dfy, dict.dfy, js.dfy, text.dfy, graphql.dfy): `Option`/`Result`, ordered objects and spread, JS values with truthiness, `typeof` and template-literal text, `join`/`indexOf`/`split`, and introspection types.
- `Json` (json.dfy): `JSON.stringify` on strings and string-valued objects, with a decoder it round-trips through.
- `Utils` (utils.dfy): `camelCaseToWords`, `getQueryAsString`, `getFieldsAsString`, `serializeGraphQLQuery`.
- `Schema` (schema.dfy): `processSchema` and `expandType`.
- `Registry`, `Widgets` (registry.dfy, widgets.dfy): the two best-match registries and the four resolvers at confidence 50.
- `Session` (session.dfy): the state of `Query.jsx`: loading from the URL, editing, searching, clearing, autofocus.
- `Form`, `Layout` (form.dfy, layout.dfy): the display rules of `QueryForm.jsx` and `QueryFormLayout.jsx`.
- `Results`, `RecordView` (results.dfy, records.dfy): columns, rows, header, export name and record lookup of `Results.jsx`, and the dialog of `RecordViewer.jsx`.
- `Range` (range.dfy): `DateTimeRangeInput.jsx` with its date and time instances.

Several places in the code behave differently from a plain reading of
them. The model follows the code:

- The projection of leaf fields is `{ id  name  }`, with two spaces after
  each leaf. The reason is that a leaf renders as `name ` and the list is
  then joined with a space.
- The operation filter rejects a non-null list type such as `[Person!]!`.
- Row ids come from the position, overridden by the record's own `id`.
- The text of a range splits back into its two ends only when neither
  rendered end contains a dot. Ruling out the separator `...` itself is not
  enough: `Range.DotBeforeSeparator` exhibits `x.` + `...` + `b`, which
  splits into `x` and `.b`.

## Model

| member | source | states |
|---|---|---|
| `Utils.CamelCaseToWords` | src/components/utils/utils.jsx:22-24 | The label is empty iff the name is. Otherwise it starts with the name's first character upper-cased and has no upper-case letter after that. Its length is the name's length plus one for every upper-case letter after position 0 (the inserted spaces). |
| `Utils.SpaceAndLower` | src/components/utils/utils.jsx:23 | The replace-then-lower-case step inserts exactly one character per upper-case letter and leaves no upper-case letter behind. |
| `Utils.SpaceAndLowerAppend` | src/components/utils/utils.jsx:23 | The rewriting works character by character, so it distributes over concatenation. |
| `Utils.CamelCaseUpperLetter` | src/components/utils/utils.jsx:22-24 | An upper-case letter after the first position becomes a space followed by its lower-case form. The text on either side is rewritten independently. |
| `Utils.CamelCaseIdempotent` | src/components/utils/utils.jsx:22-24 | Formatting a label a second time leaves it unchanged. |
| `Utils.CamelCaseExample` | src/components/utils/utils.jsx:22-24 | `dataSource` becomes `Data source`, and `""` stays `""`. |
| `Utils.ArgumentsAsStrings` | src/components/utils/utils.jsx:32 | Each argument becomes its own `name:` followed by its JSON text. There is one text per argument, in insertion order. |
| `Utils.QueryAsString` | src/components/utils/utils.jsx:31-33 | The argument text opens with `(` and ends with `) `, trailing space included. |
| `Utils.QueryAsStringSingle` | src/components/utils/utils.jsx:31-33 | With a single argument the text is exactly `(` + name + `:` + JSON + `) `. Decoding the JSON that follows `(name:` gives back the argument's defined entries, with `) ` left over. |
| `Utils.FieldsAsString` | src/components/utils/utils.jsx:38-42 | The projection is empty iff the type has no field list. Otherwise it opens with `{ ` and closes with ` }`. |
| `Utils.FieldStrings` | src/components/utils/utils.jsx:40 | There is one rendered field per field, in order, each being its name, a space and its own projection. |
| `Utils.FieldsAsStringBalanced` | src/components/utils/utils.jsx:38-42 | When no field name in the tree contains a brace, the projection has as many `{` as `}`. |
| `Utils.FieldAsStringBalanced` | src/components/utils/utils.jsx:40 | A single rendered field is brace-balanced under the same condition. |
| `Utils.SerializeGraphQLQuery` | src/components/utils/utils.jsx:45-51 | The query text starts with `{ ` + operation name + `(` and ends with ` }`. |
| `Utils.StringifyExample` | src/components/utils/utils.jsx:32 | `{name: "Ann"}` is written as `{"name":"Ann"}`. |
| `Utils.ProjectionExample` | src/components/utils/utils.jsx:38-42 | Two leaf fields `id` and `name` give `{ id  name  }`, with the doubled spaces. |
| `Utils.SerializeExample` | src/components/utils/utils.jsx:45-51 | Operation `people`, query `{query: {name: "Ann"}}` and leaves `id` and `name` give `{ people(query:{"name":"Ann"}) { id  name  } }`. |
| `Json.EscapeChar` | src/components/utils/utils.jsx:32 | A character is written either as itself (one character) or as an escape starting with a backslash. |
| `Json.Escape` | src/components/utils/utils.jsx:32 | Escaping never shortens a string, and it lengthens any string that contains a quote. |
| `Json.EscapePlain` | src/components/utils/utils.jsx:32 | Text without quotes, backslashes or control characters is written unchanged. |
| `Json.Quote` | src/components/utils/utils.jsx:32 | A string's JSON text is enclosed in double quotes. |
| `Json.Defined` | src/components/utils/utils.jsx:32 | The entries written are exactly those whose value is not `undefined`. |
| `Json.StringifyObject` | src/components/utils/utils.jsx:32 | An object's JSON text is enclosed in braces. |
| `Json.ReadQuote` | src/components/utils/utils.jsx:32 | Decoding a string's JSON text gives back the string and leaves what follows it. |
| `Json.ReadBodyEscape` | src/components/utils/utils.jsx:32 | The escaped body of a string, followed by the closing quote, decodes to the string. |
| `Json.ReadMembersRoundTrip` | src/components/utils/utils.jsx:32 | A non-empty member list followed by `}` decodes to the same entries in the same order. |
| `Json.ReadObjectMembers` | src/components/utils/utils.jsx:32 | A braced member list, including the empty one, decodes to its entries. |
| `Json.StringifyObjectRoundTrip` | src/components/utils/utils.jsx:32 | An object's JSON text decodes to exactly its defined entries, in order, and leaves what follows. |
| `Schema.Retained` | src/components/ArchiveViewer.jsx:52-56 | An operation is kept iff it has at least one argument and its return type name is `[`, one or more non-line-terminator characters, then `]`. |
| `Schema.RetainedAppend` | src/components/ArchiveViewer.jsx:52-56 | The filter distributes over concatenation, so the kept operations stay in their original order. |
| `Schema.FilterExamples` | src/components/ArchiveViewer.jsx:56 | `[Person]` and `[Person!]` are kept. `[Person!]!`, `[]` and `PersonCursor` are rejected. |
| `Schema.Lookup` | src/components/ArchiveViewer.jsx:79 | `find` returns the first type with the name, and nothing iff no type has it. |
| `Schema.Strip` | src/components/ArchiveViewer.jsx:77 | The lookup name contains no `[`, `]` or `!`, and it is no longer than the decorated name. |
| `Schema.StripPlain` | src/components/ArchiveViewer.jsx:77 | A name without markers is left as it is. |
| `Schema.StripIdempotent` | src/components/ArchiveViewer.jsx:77 | Stripping twice is the same as stripping once. |
| `Schema.StripExample` | src/components/ArchiveViewer.jsx:76-77 | `[Person!]!` is looked up as `Person`. |
| `Schema.ExpandType` | src/components/ArchiveViewer.jsx:75-88 | A missing type is an error. When the found type has a field list, it replaces `fields` with every field's type expanded. Otherwise `fields` is untouched. `enumValues` always becomes the found type's. The name is kept. |
| `Schema.ExpandFields` | src/components/ArchiveViewer.jsx:82-84 | Every field keeps its name and gets its type expanded one level deeper. With depth left, the list fails iff some field fails. With no depth left, a non-empty list is `TooDeep`. |
| `Schema.ExpandIdempotent` | src/components/ArchiveViewer.jsx:75-88 | Expanding an expanded type again gives the same type. |
| `Schema.ExpandTerminates` | src/components/ArchiveViewer.jsx:75-88 | On an acyclic type graph (a rank that decreases along fields), expansion succeeds whenever the depth bound reaches the type's rank. |
| `Schema.ExpandFieldsTerminates` | src/components/ArchiveViewer.jsx:83 | On an acyclic graph, the fields of a type expand successfully when the bound is at least the type's rank. |
| `Schema.SelfReferenceDiverges` | src/components/ArchiveViewer.jsx:75-88 | A type with a field of its own type never expands, whatever the bound: the recursion has no end. |
| `Schema.ResolveArgs` | src/components/ArchiveViewer.jsx:65-67 | Resolution succeeds iff every argument type exists. Each argument then gets the `inputFields` of the first type with exactly its type's name. A failure names a missing argument type. |
| `Schema.ProcessOperation` | src/components/ArchiveViewer.jsx:61-70 | A processed operation keeps its name and gets the label `camelCaseToWords(name)`, the resolved arguments and the expanded return type. It fails iff resolution or expansion fails. |
| `Schema.ProcessOperations` | src/components/ArchiveViewer.jsx:61-70 | Operations are processed one by one, in order. The whole succeeds iff each one does. |
| `Schema.ProcessSchema` | src/components/ArchiveViewer.jsx:43-73 | An absent schema leaves the catalogue unchanged. Otherwise the catalogue is the kept operations, in order, each labelled and processed. |
| `Schema.ProcessedSearchable` | src/components/ArchiveViewer.jsx:52-70 | Every operation of a processed catalogue still passes the filter and carries a label. |
| `Registry.Register` | src/components/query/QueryComponentManager.jsx:31-33 | Registration appends, and earlier resolvers keep their positions. |
| `Registry.Offers` | src/components/query/QueryComponentManager.jsx:40-42 | The offers are exactly the non-falsy answers of the registered resolvers. |
| `Registry.Champion` | src/components/query/QueryComponentManager.jsx:43 | The fold ends on an offer at least as confident as every other, and strictly more confident than every earlier one. Ties therefore go to the earliest. |
| `Registry.ChampionUnique` | src/components/query/QueryComponentManager.jsx:43 | Only one position is both maximal and ahead of every equal offer, so the fold's answer is determined by that description. |
| `Registry.Choose` | src/components/query/QueryComponentManager.jsx:39-44 | No offer at all is an error, as `reduce` without an initial value throws. Otherwise the answer is some resolver's offer, and no offer is more confident. |
| `Registry.GetComponent` | src/components/query/QueryComponentManager.jsx:39-44 | The renderer of the winning offer. It fails iff no resolver answers. |
| `Registry.OffersRegister` | src/components/query/QueryComponentManager.jsx:31-42 | A resolver registered last adds its offer, if it makes one, at the end of the offers. |
| `Registry.ChooseRegister` | src/components/query/QueryComponentManager.jsx:31-44 | A newly registered resolver wins iff it offers something when nothing matched before, or when its offer is strictly more confident than the previous winner. |
| `Registry.SingleOffer` | src/components/query/QueryComponentManager.jsx:43 | With exactly one offer, that offer's renderer is returned, whatever its confidence. |
| `Registry.Winner` | src/components/query/QueryComponentManager.jsx:43 | An offer wins when every earlier offer is strictly less confident and no later one is more confident. |
| `Registry.RegisterQueryComponent` | src/components/query/QueryComponentManager.jsx:20-33 | Registering a query input appends to the query list and leaves the resource list alone. |
| `Registry.RegisterResourceComponent` | src/components/pages/ResourceComponentManager.jsx:20-33 | Registering a displayer appends to the resource list and leaves the query list alone. |
| `Registry.RegistriesIndependent` | src/components/pages/ResourceComponentManager.jsx:20-44 | Registering in one registry never changes what the other returns. |
| `Widgets.TimeResolver` | src/components/query/components/TimeInput.jsx:53-57 | It answers, with the time input at 50, iff the field's type is named `Time`. |
| `Widgets.DateRangeResolver` | src/components/query/components/DateRangeInput.jsx:45-49 | It answers, with the date-range input at 50, iff the field's type is named `DateRange`. |
| `Widgets.TimeRangeResolver` | src/components/query/components/TimeRangeInput.jsx:45-51 | It answers, with the time-range input at 50, iff the field's type is named `TimeRange` and has exactly two fields. |
| `Widgets.JsonResolver` | src/components/pages/components/JsonDisplayer.jsx:62-66 | It answers, with the JSON displayer at 50, iff `typeof` is `"object"`, that is, for `null`, arrays and objects. |
| `Widgets.QueryResolversExclusive` | src/components/query/QueryComponents.jsx:22-36 | No field is accepted by two of the time, date-range and time-range resolvers. |
| `Widgets.KnownResolverBound` | src/components/query/QueryComponentManager.jsx:39-44 | Whatever else is registered, a field one of these resolvers accepts gets an answer with confidence at least 50. |
| `Widgets.TimeRangeSelection` | src/components/query/components/TimeRangeInput.jsx:45-51 | With only the three modelled query resolvers registered, a `TimeRange` field with two subfields gets the time-range input, and one with a single subfield gets nothing. |
| `Widgets.TimeRangeWins` | src/components/query/QueryComponents.jsx:22-36 | Whatever resolvers are registered before and after the time-range resolver, a `TimeRange` field with two subfields gets the time-range input. The condition is that none registered before offers 50 or more, and none registered after offers more than 50. |
| `Widgets.JsonDisplayerSelection` | src/components/pages/components/JsonDisplayer.jsx:62-66 | `null` is shown by the JSON displayer, and a string matches no displayer modelled here. |
| `Dict.Put` | src/components/query/Query.jsx:89-95 | After `{...m, [k]: v}`, `k` holds `v` and every other key holds what it held before. |
| `Dict.PutKeys` | src/components/query/Query.jsx:89-95 | Writing an existing key keeps the key order, and a new key goes last. |
| `Dict.PutAll` | src/components/views/Results.jsx:126 | After `{...m, ...n}`, each key holds `n`'s value if `n` has it and `m`'s otherwise. Distinct keys stay distinct. |
| `Dict.DeepEqualReflexive` | src/components/query/Query.jsx:122 | An object is deep-equal to itself. |
| `Dict.DeepEqual` | src/components/query/Query.jsx:122 | Objects of different sizes are never deep-equal. An object with distinct keys is deep-equal to itself. When two objects are deep-equal, every key of the first reads the same in the second. |
| `Js.TypeOf` | src/components/pages/components/JsonDisplayer.jsx:63 | `typeof` is `"object"` exactly for `null`, arrays and objects. |
| `Js.Template` | src/components/views/RecordViewer.jsx:69 | A template literal inserts a string as it is, a number as its decimal text, and `undefined` as the text `undefined`. |
| `Js.TemplateExamples` | src/components/views/RecordViewer.jsx:69 | `[1, null, "a"]` is inserted as `1,,a`, and `-12` as `-12`. |
| `Js.Property` | src/components/views/RecordViewer.jsx:63 | `v?.[k]` is `undefined` on a non-object. On an object it is `undefined` or the value of an own key. |
| `Text.Split` | src/components/query/components/DateTimeRangeInput.jsx:42 | `split` gives at least one piece, the pieces joined by the separator give back the text, and no piece contains the separator. A text without the separator is one piece. Otherwise the first piece is the text before the leftmost occurrence, and the rest is the split of what follows it. |
| `Text.SplitJoin` | src/components/query/components/DateTimeRangeInput.jsx:42 | Splitting a join gives back the parts when they are separable. |
| `Text.LeadCharSeparable` | src/components/query/components/DateTimeRangeInput.jsx:42 | Parts that never contain the separator's first character are separable. |
| `Session.Assign` | src/components/query/Query.jsx:89-95 | `query[arg][field]` becomes the new value, and every other argument and field keeps its value. |
| `Session.SetValue` | src/components/query/Query.jsx:87-98 | A value change writes only `query[arg][field]`, clears `searchLaunched`, and changes nothing else in the state. |
| `Session.SetDataSource` | src/components/query/Query.jsx:101-103 | Choosing a source with a different name clears `searchLaunched`. The same name leaves it alone. The query is untouched. |
| `Session.HideResults` | src/components/query/Query.jsx:78-83 | Hiding the results forgets the last search and clears `searchLaunched`. |
| `Session.FilledCount` | src/components/query/Query.jsx:109 | The count of a group's fields with a truthy value is at most the group's size. It is positive iff some field of the group has a truthy value. |
| `Session.GroupMet` | src/components/query/Query.jsx:108-110 | A group without a minimum is never met, and one whose minimum exceeds its size never is. A minimum of 0 or less is always met. A met group with a positive minimum has a field with a truthy value. |
| `Session.AnyGroupMetIff` | src/components/query/Query.jsx:108-110 | The in-order scan of `some` finds a met group iff one exists. |
| `Session.CanLaunchSearch` | src/components/query/Query.jsx:106-111 | A search can launch iff a data source is chosen and the `some` scan finds a met group. That needs at least one group. |
| `Session.SubmitDisabled` | src/components/query/Query.jsx:161 | The button is disabled after a search is launched and while no data source is chosen. It is enabled iff neither holds and some group is met. |
| `Session.HandleSearch` | src/components/query/Query.jsx:114-119 | A search is marked launched and hands over the data source and query. The last search holds the query argument's fields plus `dataSource` set to the source's label. |
| `Session.SubmitDisabledAfterSearch` | src/components/query/Query.jsx:161 | Right after a search the search button is disabled. |
| `Session.SetValueReenables` | src/components/query/Query.jsx:161 | After a value change the button is enabled iff a search can launch. |
| `Session.ClearForm` | src/components/query/Query.jsx:124-127 | Clearing sets the query to `{query: queryFromURL}` and unsets the data source, and a set source's search is no longer launched. |
| `Session.ClearFormIsClear` | src/components/query/Query.jsx:121-127 | Right after clearing, the form is clear and no search can launch. |
| `Session.QueryIsURLQuery` | src/components/query/Query.jsx:122 | An empty query is never the URL query. A query that is the URL query has the query argument as its only key, holding as many entries as the URL query. `{[arg]: fromURL}` with distinct keys is the URL query. |
| `Session.IsFormClear` | src/components/query/Query.jsx:121-123 | A clear form has no data source. A form whose query is `{}` is never clear. A form with no data source and the query `{[arg]: fromURL}` is clear. |
| `Session.Seed` | src/components/query/Query.jsx:65 | A field's URL value is the parameter's first value when that is non-empty, and `null` otherwise. |
| `Session.LoadField` | src/components/query/Query.jsx:64-72 | One field takes its URL value. An unseeded field takes the focus iff no field took it before, and then it becomes the marker. |
| `Session.LoadFields` | src/components/query/Query.jsx:62-75 | The loaded list has one field per configured field, each with its URL value. |
| `Session.LoadFieldsAppend` | src/components/query/Query.jsx:50-59 | Loading two lists in a row with one shared marker is loading their concatenation. |
| `Session.LoadGroups` | src/components/query/Query.jsx:50-56 | The groups keep their labels and minimums, and their fields are loaded in order with the shared marker. |
| `Session.ToGroups` | src/components/query/Query.jsx:52-54 | Cutting the loaded fields back into groups keeps every group's label and minimum. |
| `Session.LoadFieldsRulesAgree` | src/components/query/Query.jsx:69-72 | When no configured field has an empty name, the rule as written and the intended rule load the same fields, values and marker. |
| `Session.LoadFieldsFocus` | src/components/query/Query.jsx:69-72 | The field focused is exactly the first without a URL value, unless an earlier list already took the focus. This holds under the intended rule, and under the rule as written when no name is empty. |
| `Session.Init` | src/components/query/Query.jsx:47-60 | A loaded form has as many groups and optional fields as the configuration, no data source, no launched search and no last search. |
| `Session.InitFocus` | src/components/query/Query.jsx:47-72 | Every field carries its URL value. The focus goes to the first field without one, over the required groups and then the optional fields. No other field is focused unless configured so. This holds under the intended rule, and under the rule as written when no configured name is empty. |
| `Session.InitFocusUnique` | src/components/query/Query.jsx:69-72 | At most one field is newly focused. This holds under the intended rule, and under the rule as written when no configured name is empty. |
| `Session.AutoFocusTwice` | src/components/query/Query.jsx:69-71 | As written, when the first unseeded field's name is empty, a second field is focused too. |
| `Session.LoadFieldsValues` | src/components/query/Query.jsx:65-68 | Loading writes the URL value of every configured field into both `query[arg]` and `queryFromURL`, and nothing else. |
| `Session.LoadFieldsUnseeded` | src/components/query/Query.jsx:65-68 | Without any URL value, loading leaves the query unchanged. |
| `Session.InitValues` | src/components/query/Query.jsx:47-68 | After loading, a configured field with a non-empty URL value holds it in `query[arg]`, and every other entry keeps its initial value. `queryFromURL` holds exactly the non-empty URL values of the configured fields. |
| `Session.FreshFormClear` | src/components/query/Query.jsx:121-123 | Starting from `{query: {}}`, a freshly loaded form is clear and its search is disabled. |
| `Session.FreshFormNotClear` | src/components/query/Query.jsx:121-123 | Starting from `{}` as written, a form without URL values is not clear, so reset is enabled on an untouched form. |
| `Form.FindDefault` | src/components/query/QueryForm.jsx:57-60 | Finds the position of the first default field with the name. There is none iff no default field has that name. |
| `Form.MatchingDefault` | src/components/query/QueryForm.jsx:57-60 | The matching default field is a default field with that name. There is none iff no default field has that name. |
| `Form.DisplayField` | src/components/query/QueryForm.jsx:56-84 | A field is skipped iff defaults are excluded and a default field shares its name. It is disabled iff that default has a truthy value. The value shown is the default's value, else the query's truthy value, else `''`. The label is `label` or the name in words. |
| `Form.LoadFieldsLoaded` | src/components/query/Query.jsx:62-75 | Every loaded field carries the URL value of its name and keeps its name. |
| `Form.InitLoaded` | src/components/query/Query.jsx:47-75 | Every field of a loaded form carries its URL value and is one of the configured ones. Group fields are among the form's fields. |
| `Form.SeededFieldLocked` | src/components/query/QueryForm.jsx:70-77 | On a loaded form, a field with a URL value is disabled and shows that value, which is also the value in the query. |
| `Form.EditedFieldShown` | src/components/query/QueryForm.jsx:77-80 | A field without a truthy default shows what was typed into it, and stays enabled. |
| `Form.Valued` | src/components/query/QueryForm.jsx:88-90 | The valued fields are exactly the fields with a truthy value. |
| `Form.ValuedOrder` | src/components/query/QueryForm.jsx:88-90 | The valued fields keep their order. The selection distributes over concatenation, and a single field is kept iff its value is truthy. |
| `Form.FirstSatisfied` | src/components/query/QueryForm.jsx:87-89 | This is the first group with at least `min` valued fields. There is none iff no group qualifies. |
| `Form.SatisfiedGroup` | src/components/query/QueryForm.jsx:86-91 | The satisfied group is the valued fields of the first qualifying group. There is none iff no group qualifies. |
| `Form.Satisfied` | src/components/query/QueryForm.jsx:88 | A group without a minimum is never satisfied, and one whose minimum exceeds its size never is. A minimum of 0 or less always is. A satisfied group with a positive minimum has a field with a truthy URL value. |
| `Form.ValuedCountBound` | src/components/query/QueryForm.jsx:88 | When every valued field's value is in the query, the valued fields are no more than the filled fields. |
| `Form.SatisfiedLetsSearch` | src/components/query/Query.jsx:106-111 | A group satisfied by URL values lets the search launch once a data source is chosen. |
| `Form.DataSourceFocus` | src/components/query/QueryForm.jsx:93-96 | With no field configured to autofocus, the data source takes the focus iff a group is satisfied or every required field has a URL value. This holds under the intended rule, and under the rule as written when no configured name is empty. |
| `Form.RequiredFocusIff` | src/components/query/QueryForm.jsx:95 | A required field holds the focus iff some required field lacks a URL value. |
| `Form.DataSourceHasAutoFocus` | src/components/query/QueryForm.jsx:93-96 | The data-source selector has the autofocus iff some group is satisfied or no required field has the autofocus. That is always the case without groups. |
| `Form.WithLabels` | src/components/query/QueryForm.jsx:100 | Section labels are shown iff no group is satisfied. |
| `Form.RequiredSection` | src/components/query/QueryForm.jsx:177-189 | The required section is the satisfied group's fields alone, without label or minimum, or else every group. |
| `Form.OptionalFieldset` | src/components/query/QueryForm.jsx:193-196 | The optional fieldset has all optional fields and is labelled `Refine your search` only while labels are shown. |
| `Form.DataSourceLabel` | src/components/query/QueryForm.jsx:191 | The data source heading is empty iff a group is satisfied. |
| `Form.FlattenMembers` | src/components/query/QueryForm.jsx:168 | A field is in the flattened list iff it is in one of the groups. |
| `Form.RequiredList` | src/components/query/QueryForm.jsx:167-170 | The list holds the flattened groups' fields, as a prefix, and then the `dataSource` entry iff that is required. A field is in it iff it is in some group, or it is that entry. |
| `Session.FlattenOrder` | src/components/query/QueryForm.jsx:168 | Flattening keeps the groups' order and each group's field order. It distributes over concatenation, and one group flattens to its own fields. |
| `Session.Flatten` | src/components/query/QueryForm.jsx:168 | A field is in the flattened list iff it belongs to one of the groups. The list is at least as long as the first group. |
| `Form.ArgFieldsetsAsWritten` | src/components/query/QueryForm.jsx:199-204 | Every fieldset drawn is an argument's name with its input fields. |
| `Form.ArgFieldsetsRepeated` | src/components/query/QueryForm.jsx:199-204 | As written, an argument with two input fields has its whole fieldset drawn twice. |
| `Form.ArgFieldsets` | src/components/query/QueryForm.jsx:199-204 | Corrected: there are no more fieldsets than arguments. Every argument with input fields has its fieldset, and every fieldset belongs to such an argument. |
| `Form.ArgFieldsetsOnce` | src/components/query/QueryForm.jsx:199-204 | With distinct argument names, no argument's fieldset is drawn twice. |
| `Layout.FieldsetLabel` | src/components/query/QueryFormLayout.jsx:53-57 | An explicit label, even `''`, wins. Otherwise a falsy minimum gives `''`, a minimum of 1 gives `One of`, and any other minimum n gives `Minimum n of`. |
| `Layout.FieldsetLabelEmpty` | src/components/query/QueryFormLayout.jsx:53-57 | A fieldset label is empty iff it was given empty, or it was not given and the minimum is falsy. |
| `Layout.FieldsetLabelDeterminesMin` | src/components/query/QueryFormLayout.jsx:54-56 | Two derived labels agree only when the minimums do, so `Minimum n of` tells `n`. |
| `Layout.RenderFieldset` | src/components/query/QueryFormLayout.jsx:59-64 | A fieldset without fields draws nothing. Otherwise it draws its fields, headed by `label:` iff the label is non-empty. |
| `Layout.RequiredChips` | src/components/query/QueryFormLayout.jsx:140-142 | Every required field with a truthy value has a primary chip, labelled with the field's label or its name in words and showing that value. Every chip in the list is such a chip of some required field. |
| `Layout.RequiredChipsOrder` | src/components/query/QueryFormLayout.jsx:140-142 | The primary chips follow the required order. They distribute over concatenation, and one field gives its chip iff its value is truthy. |
| `Layout.OtherChips` | src/components/query/QueryFormLayout.jsx:143-146 | There is one plain chip per entry with a truthy value whose key is not required, labelled with the key in words. |
| `Layout.OtherChipsOrder` | src/components/query/QueryFormLayout.jsx:143-146 | The plain chips follow the entry order. They distribute over concatenation, and one entry gives its chip iff its value is truthy and its key is not required. |
| `Layout.QuerySummary` | src/components/query/QueryFormLayout.jsx:136-147 | Primary chips come first. A chip is primary iff its key is required. No key is both primary and plain, and every chip has a non-empty value. A required chip reads `label : value` with the field's label. Any other chip reads `camelCaseToWords(key) : value`. |
| `Layout.ChipText` | src/components/query/QueryFormLayout.jsx:141-145 | A chip's text is its label, then ` : `, then its value, each at its position. |
| `Layout.ConcatChips` | src/components/query/QueryFormLayout.jsx:139-147 | Appending the plain chips to the primary ones keeps those ordering and separation properties. |
| `Layout.SummaryShowsTruthy` | src/components/query/QueryFormLayout.jsx:139-147 | Every chip shows a key whose value is truthy. |
| `Layout.SummaryShowsAll` | src/components/query/QueryFormLayout.jsx:139-147 | Every key with a truthy value gets a chip. |
| `Layout.SummaryChipFor` | src/components/query/QueryFormLayout.jsx:139-147 | Gives the chip that a key with a truthy value appears on. |
| `Results.ColumnType` | src/components/views/Results.jsx:74-83 | `Int`, `Int64`, `Float` and `Float64` map to number. `String`, `Boolean`, `Date` and `Time` map to string, boolean, date and dateTime. Any other type is single-select iff it has enum values, and has no type otherwise. |
| `Results.MakeColumn` | src/components/views/Results.jsx:98-108 | A column has the field's name, its name in words as the header, the mapped type, and the enum values as options. |
| `Results.ColumnWidthAndGetter` | src/components/views/Results.jsx:103-108 | Columns are 180 wide exactly for string and date-time types, and 100 otherwise. Values become dates exactly in date and date-time columns. |
| `Results.MakeColumns` | src/components/views/Results.jsx:98-109 | There is one column per field, in order. |
| `Results.Columns` | src/components/views/Results.jsx:96-110 | There are no columns iff there is no operation or its type has no fields. Otherwise there is one column per field, in order, with field and header set. |
| `Results.MakeRow` | src/components/views/Results.jsx:126 | A row has distinct keys. |
| `Results.MakeRows` | src/components/views/Results.jsx:126 | There is one row per record, the `i`-th built from position `i` and the `i`-th record. |
| `Results.ProcessResults` | src/components/views/Results.jsx:124-127 | A missing or `null` list gives no rows, and an array gives one row per record. Anything else makes `map` throw. |
| `Results.RowContents` | src/components/views/Results.jsx:126 | A row holds every entry of its record. Its `id` is the record's own when the record has one, else the position. |
| `Results.HeaderText` | src/components/views/Results.jsx:155 | The header reads `Fetching results`, `No results`, `1 result` or `n results`. |
| `Results.HeaderTone` | src/components/views/Results.jsx:154 | The colour is pending iff the rows are still fetched, a warning iff there are no rows, and plain iff there is at least one row. |
| `Results.HeaderTextInjective` | src/components/views/Results.jsx:155 | The header tells fetching from done, and tells the number of rows. |
| `Results.HeaderToneMatchesText` | src/components/views/Results.jsx:154-155 | The colour is pending iff the text is `Fetching results`, and a warning iff it is `No results`. |
| `Results.ResultsBody` | src/components/views/Results.jsx:159-190 | The grid is shown iff there are rows, and the progress bar iff the rows are still being fetched. |
| `Results.NewQuery` | src/components/views/Results.jsx:113-114 | A new query resets the rows, so the header reads `Fetching results` and the progress bar shows. |
| `Results.Received` | src/components/views/Results.jsx:117-126 | A response sets the rows to the processed list. It fails iff processing throws. |
| `Results.ExportValues` | src/components/views/Results.jsx:135 | These are the truthy values of the required fields: each one comes from a required field, and every such value is included. |
| `Results.ExportValuesOrder` | src/components/views/Results.jsx:135 | The values follow the required order. They distribute over concatenation, and one field gives its value iff that is truthy. |
| `Results.ExportFileName` | src/components/views/Results.jsx:133-135 | The name starts with the prefix, and is just the prefix without a query. It throws iff the query lacks the query argument while there are required fields. |
| `Results.ExportFileNameRoundTrip` | src/components/views/Results.jsx:133-135 | When no value contains `_`, splitting the name after the prefix on `_` gives back the values. |
| `Results.ArrayIndex` | src/components/views/Results.jsx:200 | A property key denotes an array position iff it is that position's canonical decimal text. |
| `Results.RecordAt` | src/components/views/Results.jsx:200 | As written, `rows?.[id]` uses the clicked id as a position in the array. |
| `Results.RecordById` | src/components/views/Results.jsx:170-177 | Corrected: it opens the row whose `id` is the clicked id, and finds none iff no row has it. |
| `Results.RecordLookupsAgree` | src/components/views/Results.jsx:126 | When no record has its own `id`, ids are positions and both lookups agree. |
| `Results.RecordAtWrongRecord` | src/components/views/Results.jsx:200 | With records whose own ids are 1 and 0, clicking the first row (id 1) opens the second record. |
| `RecordView.TitleLabel` | src/components/views/RecordViewer.jsx:49 | A title part is labelled with the field's label when truthy, else with its bare name. |
| `RecordView.TitleParts` | src/components/views/RecordViewer.jsx:48-49 | There is one `label : value` part per required field with a truthy query value, and no other part. |
| `RecordView.TitlePartsOrder` | src/components/views/RecordViewer.jsx:48-49 | The parts follow the required order. They distribute over concatenation, and one field gives its part iff its value is truthy. |
| `RecordView.Title` | src/components/views/RecordViewer.jsx:47-51 | The title throws iff there is no query and there is a required field to read. With no query and no required field it is empty. |
| `RecordView.TitleEmpty` | src/components/views/RecordViewer.jsx:47-51 | The title is empty iff no required field has a truthy value. |
| `RecordView.TitleRoundTrip` | src/components/views/RecordViewer.jsx:47-51 | When no label or value contains a comma, splitting the title on `, ` gives back its parts. |
| `RecordView.DisplayedColumns` | src/components/views/RecordViewer.jsx:62-63 | A column is listed iff it is not `id`, `actions` or `createdAt` and the record's value is truthy. |
| `RecordView.DisplayedColumnsOrder` | src/components/views/RecordViewer.jsx:62-63 | Listed columns follow the definition order. Listing distributes over concatenation, and a single column is kept iff it is shown. |
| `RecordView.DisplayedColumnsDistinct` | src/components/views/RecordViewer.jsx:62-65 | Listing keeps the columns' fields distinct. |
| `RecordView.Lines` | src/components/views/RecordViewer.jsx:64-74 | Each line is `headerName:`, the value's template text, and whether it is the clicked column. |
| `RecordView.HeaderAsWritten` | src/components/views/RecordViewer.jsx:57 | As written, a missing record throws. A truthy id is shown after the source, and a falsy one, 0 included, shows nothing. |
| `RecordView.Header` | src/components/views/RecordViewer.jsx:57 | Corrected: it throws iff the record is missing. Otherwise it starts with the source text and a space, whatever the id. |
| `RecordView.HeaderShowsId` | src/components/views/RecordViewer.jsx:57 | With the corrected header, two records with numeric ids and the same header have the same id. |
| `RecordView.HeadersAgreeOnTruthyIds` | src/components/views/RecordViewer.jsx:57 | For a truthy id the two headers agree. |
| `RecordView.HeaderAsWrittenDropsZero` | src/components/views/RecordViewer.jsx:57 | As written, id 0 and no id give the same header `Runs `. The corrected one gives `Runs 0`. |
| `RecordView.RenderRecord` | src/components/views/RecordViewer.jsx:53-77 | A panel has the header, `Created at:` with the creation time, and one line per listed column. A missing record throws. |
| `RecordView.HighlightUnique` | src/components/views/RecordViewer.jsx:65 | With distinct column fields, at most one line of a record is highlighted. |
| `RecordView.Records` | src/components/views/RecordViewer.jsx:80-84 | An array shows its elements, and anything else is one record. |
| `RecordView.RenderAll` | src/components/views/RecordViewer.jsx:80-82 | There is one panel per record, in order. It throws iff some record is missing. |
| `RecordView.Content` | src/components/views/RecordViewer.jsx:79-85 | There is one panel per shown record. It throws iff a shown record is `undefined` or `null`. |
| `RecordView.RowOpensOnePanel` | src/components/views/RecordViewer.jsx:53-85 | A row opens as one panel listing each of its truthy visible columns. |
| `RecordView.MissingRowFails` | src/components/views/RecordViewer.jsx:84 | A click that finds no row cannot be drawn. |
| `Range.Prefix` | src/components/query/components/DateRangeInput.jsx:33 | `substring(0, n)` is the first `n` characters, or the whole text when it is shorter. |
| `Range.Pieces` | src/components/query/components/DateTimeRangeInput.jsx:41-45 | No value gives no bounds. A text without the separator is only a start. Otherwise the start is the text before the leftmost `...`, and the end is the first piece of what follows. Each is a bound iff it is non-empty. |
| `Range.Load` | src/components/query/components/DateTimeRangeInput.jsx:41-45 | Each end is set iff its piece is non-empty, and it is parsed from that piece. |
| `Range.HandleChange` | src/components/query/components/DateTimeRangeInput.jsx:48-57 | An invalid pick clears its end, and the other end is kept. Nothing is sent iff both ends are clear. Otherwise the two renderings are sent joined by `...`. |
| `Range.JoinedPieces` | src/components/query/components/DateTimeRangeInput.jsx:42-53 | Two texts without a dot, joined by `...`, split back into themselves. Empty texts give no bound. |
| `Range.RoundTrip` | src/components/query/components/DateTimeRangeInput.jsx:41-57 | Under the intended rule, when renderings are non-empty and dot-free, what the range sends reads back as the same bounds. |
| `Range.DotBeforeSeparator` | src/components/query/components/DateTimeRangeInput.jsx:42 | A start ending in a dot moves that dot into the end piece. |
| `Range.TimeRangeClearedEndReturns` | src/components/query/components/TimeRangeInput.jsx:33 | As written, clearing a time range's end sends `start...undefined`, and the end reads back as `undefined`. |
| `Range.DateRangeClearedEndStaysCleared` | src/components/query/components/DateRangeInput.jsx:33 | A date range's cleared end reads back as no bound. |

## Left out

- Rendering, MUI layout, hooks mechanics, themes, printing, routing and the info pages are not modelled. They draw the state but do not change it.
- The `fetch` calls of `ArchiveViewer.jsx:37-41` and `Results.jsx:113-120` are left out. The parsed response is an input (`Results.Received`). Overlapping fetches and stale responses are concurrency, which is not modelled.
- `URLSearchParams` and `window.location` are an input list of parameters; `get` returns the first value.
- The picker library (dayjs) is not modelled. Formatting, validity and parsing are function parameters of `Range`, and the grid's `new Date` getter is only a flag.
- The introspection query text (`utils.jsx:55-74`) is a constant with no behaviour.
- The text, date and enum inputs are not part of this model. Which input component draws a field is left to the registry, and `Form.DisplayField` models only the props it receives.
- Prototype keys (`constructor`, `__proto__`) in the type table and in query lookups are not modelled. Every lookup sees own keys only.
- Integer-like keys are kept in insertion order, whereas JavaScript enumerates them first. Spreading a string or array record into a row is treated as spreading nothing.
- `expandType` writes the found type's field list into the descriptor and then mutates it while expanding. Shared descriptors therefore alias in the source. The model builds a fresh tree.
- `Schema.ExpandType`: a cyclic schema overflows the stack in the source. Here a depth bound `fuel` turns that into `TooDeep`. `Schema.ExpandTerminates` gives a bound that always suffices on an acyclic schema.
- The `requireDataSource` prop is never passed by `Query.jsx`. `Form.RequiredList` still models both values.
- The `id` prop that `Results.jsx` passes to the record dialog is unused there, and the dialog's `dataSource` is an input.
- `canLaunchSearch` reads `group.fields?.filter`. Groups here always have a field list, as in the configuration.
- Numbers in records and responses are integer-valued. Floating-point text is not modelled.
- `Utils.QueryAsString`: it states the frame and, for the single argument the application uses, the exact text and its decoding. It does not give a general inverse, because a JSON value may itself contain `, `.
- `Range.RoundTrip`: it needs dot-free, non-empty renderings. The picker formats satisfy this, but the model does not know them.
- `Results.ExportFileNameRoundTrip`: it needs values without `_`.
- `RecordView.TitleRoundTrip`: it needs labels and values without commas.
- `Session.InitFocus`: for the rule as written it is stated only for configurations without an empty field name. With one, a second field can be focused (`Session.AutoFocusTwice`).
- `Session.InitFocusUnique`: the same restriction applies to the rule as written, for the same reason.
- `Session.LoadFieldsFocus`: for the rule as written it needs non-empty names and a marker that is unset or non-empty.
- `Form.DataSourceFocus`: for the rule as written it is stated only for configurations without an empty field name.
- `Utils.CamelCaseToWords`: case mapping is ASCII only, while `toUpperCase` and `toLowerCase` map all of Unicode (`ß` upper-cases to `SS`). GraphQL names are restricted to `[_A-Za-z][_0-9A-Za-z]*`, and on those the two agree.

## Findings

| source | as written | input that shows it | evidently intended | confidence | as-written member | corrected member |
|---|---|---|---|---|---|---|
| src/components/query/components/TimeRangeInput.jsx:33 | A cleared end renders as `undefined`, and the template literal writes the text `undefined`. | Start set, end cleared: the form receives `2024-01-01T10:00...undefined`, and reloading reads the end back as `undefined`. | Write `''`, as the date range does, so a cleared end stays cleared. | not executed | `Range.TimeRangeClearedEndReturns` | `Range.RoundTrip` |
| src/components/query/Query.jsx:69-71 | The autofocus marker stores the field's name and is checked for truthiness. | Two unseeded fields, the first named `""`: both get the autofocus. | Record that some field took the focus, so only the first unseeded field gets it. | not executed | `Session.AutoFocusTwice` | `Session.InitFocus` |
| src/components/query/Query.jsx:38 | The query starts as `{}`, while `isFormClear` compares with `{query: queryFromURL}`. | No URL values: `deepEqual({}, {query: {}})` is false, so reset is enabled on an untouched form. | Start from `{query: {}}`, so a fresh form is clear. | not executed | `Session.FreshFormNotClear` | `Session.FreshFormClear` |
| src/components/query/QueryForm.jsx:199-204 | The map over an argument's input fields draws the argument's whole fieldset for every input field. | An argument with input fields `a` and `b`: both are drawn twice. | One fieldset per argument. | not executed | `Form.ArgFieldsetsRepeated` | `Form.ArgFieldsetsOnce` |
| src/components/views/Results.jsx:200 | The dialog opens `rows?.[crtRecordId]`, using the clicked row's id as an array position, although a record's own `id` overrides the position. | Records with own ids 1 and 0: clicking the first row (id 1) opens the second record. | Open the row whose `id` is the clicked id. | not executed | `Results.RecordAtWrongRecord` | `Results.RecordLookupsAgree` |
| src/components/views/RecordViewer.jsx:57 | The header falls back to `''` for any falsy id. | The first row, whose id is position 0: the header is `Runs `, the same as a record without an id. | Show the id unless it is missing. | not executed | `RecordView.HeaderAsWrittenDropsZero` | `RecordView.HeaderShowsId` |
