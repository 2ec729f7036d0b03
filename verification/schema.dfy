/** Schema processing (`processSchema` and `expandType` in
    `ArchiveViewer.jsx`): the operations of the query type that can serve
    as data sources are kept, labelled, their arguments resolved to input
    fields, and their return types expanded recursively from the type list.

    The source mutates the introspection objects in place and has no cycle
    guard; a cyclic schema recurses until the stack overflows. Here the
    expansion is a pure function with a depth bound `fuel`, and running out
    of it is an error, like the overflow. */
module Schema {
  import opened Wrappers
  import opened GraphQL
  import Utils

  /** Why processing throws: a name with no type (a property read on
      `undefined`), or recursion deeper than the bound. */
  datatype SchemaError = MissingType(name: string) | TooDeep

  // ---------------------------------------------------------------------
  // The operation filter

  /** A character that a regular expression's `.` does not match. */
  predicate LineTerminator(c: char) {
    c == '\n' || c == '\r' || c as int == 0x2028 || c as int == 0x2029
  }

  /** `name.match(/^\[.+\]$/)`: a `[`, at least one character other than a
      line terminator, and a `]` that ends the name. */
  predicate ListTypeName(name: string) {
    && |name| >= 3
    && name[0] == '['
    && name[|name| - 1] == ']'
    && forall i :: 1 <= i < |name| - 1 ==> !LineTerminator(name[i])
  }

  /** An operation that takes arguments and returns the full list of results. */
  predicate Searchable(op: Operation) {
    op.args.Some? && |op.args.value| > 0 && ListTypeName(op.typ.name)
  }

  /** The two filters of `processSchema`, in order. */
  function Retained(ops: seq<Operation>): (r: seq<Operation>)
    ensures |r| <= |ops|
    ensures forall op :: op in r <==> op in ops && Searchable(op)
  {
    if |ops| == 0 then []
    else
      var rest := Retained(ops[1..]);
      assert forall op :: op in ops <==> op == ops[0] || op in ops[1..];
      if Searchable(ops[0]) then [ops[0]] + rest else rest
  }

  /** Filtering keeps the original order: it works element by element. */
  lemma {:induction false} RetainedAppend(a: seq<Operation>, b: seq<Operation>)
    ensures Retained(a + b) == Retained(a) + Retained(b)
    decreases |a|
  {
    if |a| > 0 {
      assert (a + b)[1..] == a[1..] + b;
      RetainedAppend(a[1..], b);
    } else {
      assert a + b == b;
    }
  }

  lemma FilterExamples()
    ensures ListTypeName("[Person]")
    ensures ListTypeName("[Person!]")
    ensures !ListTypeName("[Person!]!")
    ensures !ListTypeName("[]")
    ensures !ListTypeName("PersonCursor")
  {
  }

  // ---------------------------------------------------------------------
  // Type lookup

  /** `allTypes.find(t => t.name === name)`: the first type with that name. */
  function Lookup(types: seq<SchemaType>, name: string): (r: Option<SchemaType>)
    ensures r.None? <==> forall i :: 0 <= i < |types| ==> types[i].name != name
    ensures r.Some? ==> exists i :: (0 <= i < |types| && types[i] == r.value && r.value.name == name
      && forall j :: 0 <= j < i ==> types[j].name != name)
  {
    if |types| == 0 then None
    else if types[0].name == name then Some(types[0])
    else
      var r := Lookup(types[1..], name);
      assert r.Some? ==> exists i :: (0 <= i < |types| && types[i] == r.value && r.value.name == name
        && forall j :: 0 <= j < i ==> types[j].name != name) by {
        if r.Some? {
          var i :| 0 <= i < |types[1..]| && types[1..][i] == r.value && r.value.name == name
            && forall j :: 0 <= j < i ==> types[1..][j].name != name;
          assert types[i + 1] == r.value;
          assert forall j :: 0 <= j < i + 1 ==> types[j].name != name by {
            forall j | 0 <= j < i + 1
              ensures types[j].name != name
            {
              if j > 0 { assert types[j] == types[1..][j - 1]; }
            }
          }
        }
      }
      assert r.None? ==> forall i :: 0 <= i < |types| ==> types[i].name != name by {
        if r.None? {
          forall i | 0 <= i < |types|
            ensures types[i].name != name
          {
            if i > 0 { assert types[i] == types[1..][i - 1]; }
          }
        }
      }
      r
  }

  // ---------------------------------------------------------------------
  // Type names

  predicate Marker(c: char) {
    c == '[' || c == ']' || c == '!'
  }

  /** `name.replaceAll(/[[\]!]/g, '')`: the name without list and non-null markers. */
  function Strip(name: string): (r: string)
    ensures |r| <= |name|
    ensures forall i :: 0 <= i < |r| ==> !Marker(r[i]) && r[i] in name
  {
    if |name| == 0 then ""
    else
      var rest := Strip(name[1..]);
      assert forall c :: c in name[1..] ==> c in name;
      if Marker(name[0]) then rest else [name[0]] + rest
  }

  /** Stripping distributes over concatenation. */
  lemma {:induction false} StripAppend(a: string, b: string)
    ensures Strip(a + b) == Strip(a) + Strip(b)
    decreases |a|
  {
    if |a| > 0 {
      assert (a + b)[1..] == a[1..] + b;
      StripAppend(a[1..], b);
    } else {
      assert a + b == b;
    }
  }

  /** A name without markers is its own type name; in particular stripping
      twice is stripping once. */
  lemma {:induction false} StripPlain(name: string)
    requires forall i :: 0 <= i < |name| ==> !Marker(name[i])
    ensures Strip(name) == name
  {
    if |name| > 0 {
      StripPlain(name[1..]);
      assert [name[0]] + name[1..] == name;
    }
  }

  lemma StripIdempotent(name: string)
    ensures Strip(Strip(name)) == Strip(name)
  {
    StripPlain(Strip(name));
  }

  lemma StripExample()
    ensures Strip("[Person!]!") == "Person"
  {
    assert "[Person!]!" == "[" + "Person" + "!]!";
    StripAppend("[" + "Person", "!]!");
    StripAppend("[", "Person");
    StripPlain("Person");
    assert Strip("[") == "";
    assert Strip("!") == "";
    assert Strip("]!") == "";
    assert Strip("!]!") == "";
  }

  // ---------------------------------------------------------------------
  // Type expansion

  /** `expandType(typeDef, allTypes)` with at most `fuel` levels of nested
      expansion. The type is looked up by its stripped name. When the
      found type has a field list, each field's type is expanded and the
      list replaces `fields`; otherwise `fields` is left as it was. In both
      cases `enumValues` becomes the found type's. */
  function ExpandType(t: TypeDef, types: seq<SchemaType>, fuel: nat): (r: Result<TypeDef, SchemaError>)
    ensures Lookup(types, Strip(t.name)).None? ==> r == Err(MissingType(Strip(t.name)))
    ensures r.Ok? ==> r.value.name == t.name
    ensures r.Ok? ==> r.value.enumValues == Lookup(types, Strip(t.name)).value.enumValues
    ensures r.Ok? && Lookup(types, Strip(t.name)).value.fields.None? ==> r.value.fields == t.fields
    ensures Lookup(types, Strip(t.name)).Some? && Lookup(types, Strip(t.name)).value.fields.Some? ==>
      var fs := Lookup(types, Strip(t.name)).value.fields.value;
      && (r.Ok? <==> ExpandFields(fs, types, fuel).Ok?)
      && (r.Ok? ==> r.value.fields == Present(ExpandFields(fs, types, fuel).value))
    decreases fuel, 1
  {
    match Lookup(types, Strip(t.name))
    case None => Err(MissingType(Strip(t.name)))
    case Some(found) =>
      match found.fields
      case None => Ok(TypeDef(t.name, t.fields, found.enumValues))
      case Some(fs) =>
        var expanded :- ExpandFields(fs, types, fuel);
        Ok(TypeDef(t.name, Present(expanded), found.enumValues))
  }

  /** `fields.forEach(f => expandType(f.type, allTypes))`, one level deeper:
      each field keeps its name and gets its type expanded; the first
      failure is the result. */
  function ExpandFields(fs: seq<Field>, types: seq<SchemaType>, fuel: nat): (r: Result<seq<Field>, SchemaError>)
    ensures |fs| > 0 && fuel == 0 ==> r == Err(TooDeep)
    ensures fuel > 0 ==> (r.Ok? <==> forall i :: 0 <= i < |fs| ==> ExpandType(fs[i].typ, types, fuel - 1).Ok?)
    ensures r.Ok? ==> |r.value| == |fs| && forall i :: 0 <= i < |fs| ==>
      r.value[i].name == fs[i].name && fuel > 0 && ExpandType(fs[i].typ, types, fuel - 1) == Ok(r.value[i].typ)
    decreases fuel, 0, |fs|
  {
    if |fs| == 0 then Ok([])
    else if fuel == 0 then Err(TooDeep)
    else
      match ExpandType(fs[0].typ, types, fuel - 1)
      case Err(e) => Err(e)
      case Ok(t0) =>
        match ExpandFields(fs[1..], types, fuel)
        case Err(e) =>
          assert exists i :: 1 <= i < |fs| && ExpandType(fs[i].typ, types, fuel - 1).Err? by {
            var j :| 0 <= j < |fs[1..]| && ExpandType(fs[1..][j].typ, types, fuel - 1).Err?;
            assert fs[j + 1] == fs[1..][j];
          }
          Err(e)
        case Ok(rest) =>
          var r := [Field(fs[0].name, t0)] + rest;
          assert forall i :: 1 <= i < |fs| ==> fs[i] == fs[1..][i - 1] && r[i] == rest[i - 1];
          Ok(r)
  }

  /** Expanding an expanded type again gives the same type: the field list
      is rebuilt from the type list, and `enumValues` comes from the same
      type. */
  lemma ExpandIdempotent(t: TypeDef, types: seq<SchemaType>, fuel: nat)
    requires ExpandType(t, types, fuel).Ok?
    ensures ExpandType(ExpandType(t, types, fuel).value, types, fuel) == ExpandType(t, types, fuel)
  {
  }

  // ---------------------------------------------------------------------
  // Termination

  /** The type graph is acyclic: `rank` gives every named type a height
      greater than the heights of its fields' types, and every name it
      covers resolves. */
  predicate Ranked(types: seq<SchemaType>, rank: map<string, nat>) {
    forall n :: n in rank ==>
      && Lookup(types, n).Some?
      && (Lookup(types, n).value.fields.Some? ==>
            var fs := Lookup(types, n).value.fields.value;
            forall i :: 0 <= i < |fs| ==>
              Strip(fs[i].typ.name) in rank && rank[Strip(fs[i].typ.name)] < rank[n])
  }

  /** On an acyclic type graph, a depth bound of the type's height is
      enough: expansion always succeeds. */
  lemma {:induction false} ExpandTerminates(t: TypeDef, types: seq<SchemaType>, rank: map<string, nat>, fuel: nat)
    requires Ranked(types, rank)
    requires Strip(t.name) in rank && rank[Strip(t.name)] <= fuel
    ensures ExpandType(t, types, fuel).Ok?
    decreases fuel, 1
  {
    var n := Strip(t.name);
    var found := Lookup(types, n).value;
    if found.fields.Some? {
      ExpandFieldsTerminates(found.fields.value, types, rank, fuel, rank[n]);
    }
  }

  lemma {:induction false} ExpandFieldsTerminates(
    fs: seq<Field>, types: seq<SchemaType>, rank: map<string, nat>, fuel: nat, height: nat)
    requires Ranked(types, rank)
    requires height <= fuel
    requires forall i :: 0 <= i < |fs| ==> Strip(fs[i].typ.name) in rank && rank[Strip(fs[i].typ.name)] < height
    ensures ExpandFields(fs, types, fuel).Ok?
    decreases fuel, 0, |fs|
  {
    if |fs| > 0 {
      assert rank[Strip(fs[0].typ.name)] < height;
      ExpandTerminates(fs[0].typ, types, rank, fuel - 1);
      assert forall i :: 0 <= i < |fs[1..]| ==> fs[1..][i] == fs[i + 1];
      ExpandFieldsTerminates(fs[1..], types, rank, fuel, height);
    }
  }

  /** A type one of whose fields has the type itself (after stripping)
      never expands, whatever the bound: the source recurses forever. */
  lemma {:induction false} SelfReferenceDiverges(t: TypeDef, types: seq<SchemaType>, fuel: nat, k: nat)
    requires Lookup(types, Strip(t.name)).Some?
    requires Lookup(types, Strip(t.name)).value.fields.Some?
    requires k < |Lookup(types, Strip(t.name)).value.fields.value|
    requires Strip(Lookup(types, Strip(t.name)).value.fields.value[k].typ.name) == Strip(t.name)
    ensures ExpandType(t, types, fuel).Err?
    decreases fuel
  {
    var fs := Lookup(types, Strip(t.name)).value.fields.value;
    if fuel > 0 {
      SelfReferenceDiverges(fs[k].typ, types, fuel - 1, k);
    }
  }

  // ---------------------------------------------------------------------
  // Operations

  /** `arg.inputFields = allTypes.find(type => type.name === arg.type.name).inputFields`
      for each argument, in order; the argument type is looked up by its
      exact name. */
  function ResolveArgs(args: seq<Arg>, types: seq<SchemaType>): (r: Result<seq<Arg>, SchemaError>)
    ensures r.Ok? <==> forall i :: 0 <= i < |args| ==> Lookup(types, args[i].typeName).Some?
    ensures r.Ok? ==> |r.value| == |args| && forall i :: 0 <= i < |args| ==>
      r.value[i] == Arg(args[i].name, args[i].typeName, Lookup(types, args[i].typeName).value.inputFields)
    ensures r.Err? ==> exists i :: (0 <= i < |args| && r.error == MissingType(args[i].typeName)
      && Lookup(types, args[i].typeName).None?)
  {
    if |args| == 0 then Ok([])
    else
      match Lookup(types, args[0].typeName)
      case None => Err(MissingType(args[0].typeName))
      case Some(found) =>
        match ResolveArgs(args[1..], types)
        case Err(e) =>
          assert exists i :: (1 <= i < |args| && e == MissingType(args[i].typeName)
            && Lookup(types, args[i].typeName).None?) by {
            var j :| 0 <= j < |args[1..]| && e == MissingType(args[1..][j].typeName)
              && Lookup(types, args[1..][j].typeName).None?;
            assert args[j + 1] == args[1..][j];
          }
          Err(e)
        case Ok(rest) =>
          var r := [Arg(args[0].name, args[0].typeName, found.inputFields)] + rest;
          assert forall i :: 1 <= i < |args| ==>
            r[i] == Arg(args[i].name, args[i].typeName, Lookup(types, args[i].typeName).value.inputFields) by {
            forall i | 1 <= i < |args|
              ensures r[i] == Arg(args[i].name, args[i].typeName, Lookup(types, args[i].typeName).value.inputFields)
            {
              assert args[i] == args[1..][i - 1] && r[i] == rest[i - 1];
            }
          }
          Ok(r)
  }

  /** One retained operation: the label from its name, the arguments
      resolved, then the return type expanded. */
  function ProcessOperation(op: Operation, types: seq<SchemaType>, fuel: nat): (r: Result<Operation, SchemaError>)
    ensures r.Ok? <==>
      && ResolveArgs(op.args.GetOr([]), types).Ok?
      && ExpandType(op.typ, types, fuel).Ok?
    ensures r.Ok? ==>
      && r.value.name == op.name
      && r.value.labelText == Some(Utils.CamelCaseToWords(op.name))
      && r.value.args == Some(ResolveArgs(op.args.GetOr([]), types).value)
      && r.value.typ == ExpandType(op.typ, types, fuel).value
  {
    var args :- ResolveArgs(op.args.GetOr([]), types);
    var typ :- ExpandType(op.typ, types, fuel);
    Ok(Operation(op.name, Some(args), typ, Some(Utils.CamelCaseToWords(op.name))))
  }

  function ProcessOperations(ops: seq<Operation>, types: seq<SchemaType>, fuel: nat): (r: Result<seq<Operation>, SchemaError>)
    ensures r.Ok? <==> forall i :: 0 <= i < |ops| ==> ProcessOperation(ops[i], types, fuel).Ok?
    ensures r.Ok? ==> |r.value| == |ops| && forall i :: 0 <= i < |ops| ==>
      ProcessOperation(ops[i], types, fuel) == Ok(r.value[i])
  {
    if |ops| == 0 then Ok([])
    else
      var head := ProcessOperation(ops[0], types, fuel);
      var tail := ProcessOperations(ops[1..], types, fuel);
      ProcessOperationsCons(ops, types, fuel, tail);
      if head.Err? then Err(head.error)
      else if tail.Err? then Err(tail.error)
      else Ok([head.value] + tail.value)
  }

  lemma ProcessOperationsCons(ops: seq<Operation>, types: seq<SchemaType>, fuel: nat, tail: Result<seq<Operation>, SchemaError>)
    requires |ops| > 0
    requires tail.Ok? <==> forall i :: 0 <= i < |ops| - 1 ==> ProcessOperation(ops[1..][i], types, fuel).Ok?
    requires tail.Ok? ==> |tail.value| == |ops| - 1 && forall i :: 0 <= i < |ops| - 1 ==>
      ProcessOperation(ops[1..][i], types, fuel) == Ok(tail.value[i])
    ensures (forall i :: 0 <= i < |ops| ==> ProcessOperation(ops[i], types, fuel).Ok?) <==>
      ProcessOperation(ops[0], types, fuel).Ok? && tail.Ok?
    ensures ProcessOperation(ops[0], types, fuel).Ok? && tail.Ok? ==>
      var r := [ProcessOperation(ops[0], types, fuel).value] + tail.value;
      forall i :: 0 <= i < |ops| ==> ProcessOperation(ops[i], types, fuel) == Ok(r[i])
  {
    assert forall i :: 1 <= i < |ops| ==> ops[i] == ops[1..][i - 1];
  }

  /** `processSchema(schemaJson)` applied to the current catalogue of data
      sources: an absent schema leaves it as it is; otherwise the retained
      operations of the query type, processed in order, replace it. */
  function ProcessSchema(schema: Option<Schema>, catalogue: seq<Operation>, fuel: nat): (r: Result<seq<Operation>, SchemaError>)
    ensures schema.None? ==> r == Ok(catalogue)
    ensures schema.Some? && r.Ok? ==>
      var kept := Retained(schema.value.queryFields.GetOr([]));
      && |r.value| == |kept|
      && forall i :: 0 <= i < |kept| ==>
           && r.value[i].name == kept[i].name
           && r.value[i].labelText == Some(Utils.CamelCaseToWords(kept[i].name))
           && ProcessOperation(kept[i], schema.value.types, fuel) == Ok(r.value[i])
  {
    match schema
    case None => Ok(catalogue)
    case Some(s) => ProcessOperations(Retained(s.queryFields.GetOr([])), s.types, fuel)
  }

  /** Every operation in a processed catalogue still passes the filter (its
      arguments and its list return type survive processing) and carries a
      label. */
  lemma ProcessedSearchable(s: Schema, catalogue: seq<Operation>, fuel: nat)
    requires ProcessSchema(Some(s), catalogue, fuel).Ok?
    ensures forall op :: op in ProcessSchema(Some(s), catalogue, fuel).value ==>
      Searchable(op) && op.labelText.Some?
  {
    var r := ProcessSchema(Some(s), catalogue, fuel).value;
    var kept := Retained(s.queryFields.GetOr([]));
    forall op | op in r
      ensures Searchable(op) && op.labelText.Some?
    {
      var i :| 0 <= i < |r| && r[i] == op;
      assert ProcessOperation(kept[i], s.types, fuel) == Ok(op);
      assert kept[i] in kept;
    }
  }
}
