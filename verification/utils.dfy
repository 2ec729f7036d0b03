/** Label formatting and GraphQL query serialization
    (`camelCaseToWords`, `getQueryAsString`, `getFieldsAsString`,
    `serializeGraphQLQuery`, `GRAPHQL_QUERY_ARGUMENT`). */
module Utils {
  import opened Wrappers
  import opened Text
  import opened Dict
  import opened GraphQL
  import Json

  /** The name of the argument that carries the user's query (`GRAPHQL_QUERY_ARGUMENT.name`). */
  const QueryArgument: string := "query"

  // ---------------------------------------------------------------------
  // camelCaseToWords

  function CountUpper(s: string): (n: nat)
    ensures n <= |s|
  {
    if |s| == 0 then 0 else (if IsUpper(s[0]) then 1 else 0) + CountUpper(s[1..])
  }

  predicate NoUpper(s: string) {
    forall i :: 0 <= i < |s| ==> !IsUpper(s[i])
  }

  /** `t.replace(/([A-Z])/g, " $1").toLowerCase()`: a space before every
      upper-case letter, then everything lower-cased. */
  function SpaceAndLower(t: string): (r: string)
    ensures |r| == |t| + CountUpper(t)
    ensures NoUpper(r)
  {
    if |t| == 0 then ""
    else (if IsUpper(t[0]) then [' ', ToLower(t[0])] else [ToLower(t[0])]) + SpaceAndLower(t[1..])
  }

  /** `camelCaseToWords`: the first character upper-cased, every later
      upper-case letter turned into a space and its lower-case form, and
      the rest lower-cased. */
  function CamelCaseToWords(s: string): (r: string)
    ensures |s| == 0 <==> r == ""
    ensures |s| > 0 ==> |r| == |s| + CountUpper(s[1..])
    ensures |s| > 0 ==> r[0] == ToUpper(s[0]) && NoUpper(r[1..])
  {
    if |s| == 0 then "" else [ToUpper(s[0])] + SpaceAndLower(s[1..])
  }

  /** The rewriting works character by character: it distributes over concatenation. */
  lemma {:induction false} SpaceAndLowerAppend(a: string, b: string)
    ensures SpaceAndLower(a + b) == SpaceAndLower(a) + SpaceAndLower(b)
    decreases |a|
  {
    if |a| > 0 {
      assert (a + b)[1..] == a[1..] + b;
      SpaceAndLowerAppend(a[1..], b);
    } else {
      assert a + b == b;
    }
  }

  /** An upper-case letter after the first position becomes a space and its
      lower-case form; the text around it is rewritten independently. */
  lemma CamelCaseUpperLetter(a: string, c: char, b: string)
    requires |a| > 0 && IsUpper(c)
    ensures CamelCaseToWords(a + [c] + b) ==
      CamelCaseToWords(a) + [' ', ToLower(c)] + SpaceAndLower(b)
  {
    var s := a + [c] + b;
    assert s[0] == a[0];
    assert s[1..] == a[1..] + ([c] + b);
    SpaceAndLowerAppend(a[1..], [c] + b);
    assert ([c] + b)[1..] == b;
  }

  lemma {:induction false} SpaceAndLowerNoUpper(t: string)
    requires NoUpper(t)
    ensures SpaceAndLower(t) == t
    decreases |t|
  {
    if |t| > 0 {
      assert !IsUpper(t[0]);
      SpaceAndLowerNoUpper(t[1..]);
      assert [t[0]] + t[1..] == t;
    }
  }

  /** A label is already in label form: formatting it again changes nothing. */
  lemma CamelCaseIdempotent(s: string)
    ensures CamelCaseToWords(CamelCaseToWords(s)) == CamelCaseToWords(s)
  {
    if |s| > 0 {
      var r := CamelCaseToWords(s);
      SpaceAndLowerNoUpper(r[1..]);
      assert [r[0]] + r[1..] == r;
    }
  }

  lemma CamelCaseExample()
    ensures CamelCaseToWords("dataSource") == "Data source"
    ensures CamelCaseToWords("") == ""
  {
    assert "dataSource" == "data" + ['S'] + "ource";
    CamelCaseUpperLetter("data", 'S', "ource");
    SpaceAndLowerNoUpper("ource");
    SpaceAndLowerNoUpper("ata");
    assert ToUpper('d') == 'D';
    assert CamelCaseToWords("data") == "Data";
    assert ToLower('S') == 's';
    assert "Data" + [' ', 's'] + "ource" == "Data source";
  }

  // ---------------------------------------------------------------------
  // getQueryAsString

  /** One argument: `name:` followed by the JSON text of its object. */
  function ArgumentAsString(arg: (string, Entries<Option<string>>)): string {
    arg.0 + ":" + Json.StringifyObject(arg.1)
  }

  function ArgumentsAsStrings(q: Entries<Entries<Option<string>>>): (r: seq<string>)
    ensures |r| == |q|
    ensures forall i :: 0 <= i < |q| ==> r[i] == ArgumentAsString(q[i])
  {
    if |q| == 0 then [] else [ArgumentAsString(q[0])] + ArgumentsAsStrings(q[1..])
  }

  /** `getQueryAsString`: the arguments in insertion order, separated by
      `", "`, inside parentheses, with a trailing space. */
  function QueryAsString(q: Entries<Entries<Option<string>>>): (r: string)
    ensures |r| >= 3 && r[0] == '(' && r[|r| - 2..] == ") "
  {
    "(" + Join(ArgumentsAsStrings(q), ", ") + ") "
  }

  /** With the usual single argument, its JSON text can be read back right
      after `(name:`, and decodes to the argument's defined entries. */
  lemma QueryAsStringSingle(name: string, m: Entries<Option<string>>)
    ensures QueryAsString([(name, m)]) == "(" + name + ":" + Json.StringifyObject(m) + ") "
    ensures Json.ReadObject(QueryAsString([(name, m)])[|name| + 2..]) == Some((Json.Defined(m), ") "))
  {
    var j := Json.StringifyObject(m);
    SingleArgument(name, m);
    SliceAfterName(name, j);
    Json.StringifyObjectRoundTrip(m, ") ");
  }

  lemma SingleArgument(name: string, m: Entries<Option<string>>)
    ensures QueryAsString([(name, m)]) == "(" + name + ":" + Json.StringifyObject(m) + ") "
  {
    var a := ArgumentsAsStrings([(name, m)]);
    assert a == [ArgumentAsString((name, m))];
  }

  lemma SliceAfterName(name: string, j: string)
    ensures ("(" + name + ":" + j + ") ")[|name| + 2..] == j + ") "
  {
    var s := "(" + name + ":" + j + ") ";
    assert s == ("(" + name + ":") + (j + ") ");
  }

  // ---------------------------------------------------------------------
  // getFieldsAsString

  /** `getFieldsAsString`: nothing when the type has no field list;
      otherwise each field as its name, a space and its own projection,
      separated by spaces, inside `{ ` and ` }`. A leaf field therefore
      contributes `name ` followed by the separating space. */
  function FieldsAsString(t: TypeDef): (r: string)
    ensures r == "" <==> t.fields.Absent?
    ensures t.fields.Present? ==> |r| >= 4 && r[..2] == "{ " && r[|r| - 2..] == " }"
    decreases t, 1
  {
    match t.fields
    case Absent => ""
    case Present(fs) => "{ " + Join(FieldStrings(t), " ") + " }"
  }

  /** The rendered fields of `t`, one string per field, in order. */
  function FieldStrings(t: TypeDef): (r: seq<string>)
    requires t.fields.Present?
    ensures |r| == |t.fields.items|
    ensures forall i :: 0 <= i < |r| ==> r[i] == FieldAsString(t.fields.items[i])
    decreases t, 0
  {
    var fs := t.fields.items;
    seq(|fs|, i requires 0 <= i < |fs| => FieldAsString(fs[i]))
  }

  function FieldAsString(f: Field): string
    decreases f
  {
    f.name + " " + FieldsAsString(f.typ)
  }

  /** `serializeGraphQLQuery`. */
  function SerializeGraphQLQuery(q: Entries<Entries<Option<string>>>, op: Operation): (r: string)
    ensures |r| >= |op.name| + 7
    ensures r[..|op.name| + 3] == "{ " + op.name + "("
    ensures r[|r| - 2..] == " }"
  {
    var s := "{ " + op.name + QueryAsString(q) + FieldsAsString(op.typ) + " }";
    assert s[..|op.name| + 3] == ("{ " + op.name + QueryAsString(q))[..|op.name| + 3];
    s
  }

  // ---------------------------------------------------------------------
  // Brace balance of the projection

  function Count(s: string, c: char): (n: nat)
    ensures n <= |s|
  {
    if |s| == 0 then 0 else (if s[0] == c then 1 else 0) + Count(s[1..], c)
  }

  lemma {:induction false} CountAppend(a: string, b: string, c: char)
    ensures Count(a + b, c) == Count(a, c) + Count(b, c)
    decreases |a|
  {
    if |a| > 0 {
      assert (a + b)[1..] == a[1..] + b;
      CountAppend(a[1..], b, c);
    } else {
      assert a + b == b;
    }
  }

  predicate Balanced(s: string) {
    Count(s, '{') == Count(s, '}')
  }

  lemma {:induction false} JoinBalanced(parts: seq<string>, sep: string)
    requires Balanced(sep)
    requires forall i :: 0 <= i < |parts| ==> Balanced(parts[i])
    ensures Balanced(Join(parts, sep))
    decreases |parts|
  {
    if |parts| > 1 {
      JoinBalanced(parts[1..], sep);
      CountAppend(parts[0] + sep, Join(parts[1..], sep), '{');
      CountAppend(parts[0] + sep, Join(parts[1..], sep), '}');
      CountAppend(parts[0], sep, '{');
      CountAppend(parts[0], sep, '}');
    }
  }

  /** No field name anywhere in the tree contains a brace. */
  predicate BraceFreeType(t: TypeDef)
    decreases t
  {
    match t.fields
    case Absent => true
    case Present(fs) => forall i :: 0 <= i < |fs| ==> BraceFreeField(fs[i])
  }

  predicate BraceFreeField(f: Field)
    decreases f
  {
    '{' !in f.name && '}' !in f.name && BraceFreeType(f.typ)
  }

  lemma CountAbsent(s: string, c: char)
    requires c !in s
    ensures Count(s, c) == 0
  {
  }

  /** The projection opens exactly as many braces as it closes. */
  lemma {:induction false} FieldsAsStringBalanced(t: TypeDef)
    requires BraceFreeType(t)
    ensures Balanced(FieldsAsString(t))
    decreases t
  {
    match t.fields
    case Absent =>
    case Present(fs) =>
      var parts := FieldStrings(t);
      forall i | 0 <= i < |fs|
        ensures Balanced(parts[i])
      {
        FieldAsStringBalanced(fs[i]);
      }
      var body := Join(parts, " ");
      JoinBalanced(parts, " ");
      CountAppend("{ " + body, " }", '{');
      CountAppend("{ " + body, " }", '}');
      CountAppend("{ ", body, '{');
      CountAppend("{ ", body, '}');
  }

  lemma {:induction false} FieldAsStringBalanced(f: Field)
    requires BraceFreeField(f)
    ensures Balanced(FieldAsString(f))
    decreases f
  {
    FieldsAsStringBalanced(f.typ);
    CountAbsent(f.name, '{');
    CountAbsent(f.name, '}');
    CountAppend(f.name + " ", FieldsAsString(f.typ), '{');
    CountAppend(f.name + " ", FieldsAsString(f.typ), '}');
    CountAppend(f.name, " ", '{');
    CountAppend(f.name, " ", '}');
  }

  // ---------------------------------------------------------------------
  // The worked example

  lemma DefinedExample()
    ensures Json.Defined([("name", Some("Ann"))]) == [("name", "Ann")]
  {
    var m: Entries<Option<string>> := [("name", Some("Ann"))];
    assert m[1..] == [];
  }

  lemma MemberExample()
    ensures Json.Members([("name", "Ann")]) == "\"name\":\"Ann\""
  {
    Json.EscapePlain("name");
    Json.EscapePlain("Ann");
    assert Json.Quote("name") == "\"name\"";
    assert Json.Member(("name", "Ann")) == "\"name\":\"Ann\"";
  }

  lemma StringifyExample()
    ensures Json.StringifyObject([("name", Some("Ann"))]) == "{\"name\":\"Ann\"}"
  {
    DefinedExample();
    MemberExample();
  }

  lemma ProjectionExample()
    ensures FieldsAsString(TypeDef("[Person]", Present([Field("id", Ref("ID")), Field("name", Ref("String"))]), None))
      == "{ id  name  }"
  {
    var t := TypeDef("[Person]", Present([Field("id", Ref("ID")), Field("name", Ref("String"))]), None);
    assert FieldAsString(Field("id", Ref("ID"))) == "id ";
    assert FieldAsString(Field("name", Ref("String"))) == "name ";
    assert FieldStrings(t) == ["id ", "name "];
    assert Join(["id ", "name "], " ") == "id  name ";
  }

  /** Operation `people`, query `{query: {name: "Ann"}}`, leaf fields `id`
      and `name`. */
  lemma SerializeExample()
    ensures SerializeGraphQLQuery(
      [(QueryArgument, [("name", Some("Ann"))])],
      Operation("people", Some([]),
        TypeDef("[Person]", Present([Field("id", Ref("ID")), Field("name", Ref("String"))]), None),
        None))
      == "{ " + "people" + ("(" + QueryArgument + ":" + "{\"name\":\"Ann\"}" + ") ") + "{ id  name  }" + " }"
  {
    var m: Entries<Option<string>> := [("name", Some("Ann"))];
    var t := TypeDef("[Person]", Present([Field("id", Ref("ID")), Field("name", Ref("String"))]), None);
    var q := [(QueryArgument, m)];
    var op := Operation("people", Some([]), t, None);
    StringifyExample();
    SingleArgument(QueryArgument, m);
    ProjectionExample();
    assert SerializeGraphQLQuery(q, op) == "{ " + "people" + QueryAsString(q) + FieldsAsString(t) + " }";
  }

}
