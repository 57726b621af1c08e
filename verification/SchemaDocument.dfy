/** The JSON document that the generator of configuration schemas emits (internal/docscheck/jsonschema.go),
    and what it accepts as JSON Schema draft-07 reads it: by its keywords, and with its references followed
    from the root of the document. */
module SchemaDocument {
  import opened TypeGraph
  import opened JsonSchema
  import opened Wrappers

  function TypeName(ty: JType): string {
    match ty
    case TObject => "object"
    case TArray => "array"
    case TString => "string"
    case TBoolean => "boolean"
    case TInteger => "integer"
    case TNumber => "number"
    case TNull => "null"
  }

  const KEYWORDS := {"$ref", "type", "properties", "additionalProperties", "items", "anyOf"}

  /** What one keyword of a schema object says, if it is there. */
  function Keyword(s: Schema, k: string): (d: Option<Doc>)
    decreases s, 0
  {
    if k == "$ref" then
      match s.ref case None => None case Some(ref) => Some(Text(ref))
    else if k == "type" then
      if s.types == [] then None
      else if |s.types| == 1 then Some(Text(TypeName(s.types[0])))
      else Some(Array(seq(|s.types|, i requires 0 <= i < |s.types| => Text(TypeName(s.types[i])))))
    else if k == "properties" then
      if s.properties == map[] && !s.additional.Forbidden? then None
      else Some(Object(map p | p in s.properties :: Rendered(s.properties[p])))
    else if k == "additionalProperties" then
      match s.additional
      case Unrestricted => None
      case Forbidden => Some(Boolean(false))
      case Each(e) => Some(Rendered(e))
    else if k == "items" then
      match s.items case None => None case Some(e) => Some(Rendered(e))
    else if k == "anyOf" then
      if s.anyOf == [] then None
      else Some(Array(seq(|s.anyOf|, i requires 0 <= i < |s.anyOf| => Rendered(s.anyOf[i]))))
    else None
  }

  /** A schema as a JSON object. */
  function Rendered(s: Schema): (d: Doc)
    ensures d.Object?
    decreases s, 1
  {
    Object(map k | k in KEYWORDS && Keyword(s, k).Some? :: Keyword(s, k).value)
  }

  /** The document: the root schema, what describes it, and the definitions, when there are any. */
  function Document(root: Schema, title: string, description: string, defs: Definitions): (d: Doc)
    ensures d.Object?
  {
    var described := Rendered(root).members
      ["$schema" := Text("http://json-schema.org/draft-07/schema#")]["title" := Text(title)]["description" := Text(description)];
    Object(if defs == map[] then described
           else described["definitions" := Object(map k | k in defs :: if defs[k].Some? then Rendered(defs[k].value) else Null)])
  }

  /** The value that the tokens of a JSON pointer lead to, member by member (section 4 of RFC 6901). */
  function Walk(node: Doc, tokens: seq<string>): (d: Option<Doc>)
    decreases |tokens|
  {
    if tokens == [] then Some(node)
    else if node.Object? && tokens[0] in node.members then Walk(node.members[tokens[0]], tokens[1..])
    else None
  }

  /** Where a reference leads in a document. */
  function Evaluate(document: Doc, ref: string): (d: Option<Doc>) {
    match Fragment(ref)
    case None => None
    case Some(tokens) => Walk(document, tokens)
  }

  /** A value is of the type so named (section 6.1.1 of the draft-07 validation vocabulary). */
  predicate IsA(d: Doc, name: string) {
    || (name == "null" && d.Null?)
    || (name == "boolean" && d.Boolean?)
    || (name == "object" && d.Object?)
    || (name == "array" && d.Array?)
    || (name == "number" && (d.Integer? || d.Fraction?))
    || (name == "integer" && d.Integer?)
    || (name == "string" && d.Text?)
  }

  predicate IsOneOf(d: Doc, types: Doc) {
    || (types.Text? && IsA(d, types.s))
    || (types.Array? && exists i :: 0 <= i < |types.items| && types.items[i].Text? && IsA(d, types.items[i].s))
  }

  /** A value is valid against a schema, an object of keywords or true or false. A reference makes its
      siblings ignored, and leads to a schema that is not itself a reference or an alternative. */
  ghost predicate Validates(document: Doc, s: Doc, d: Doc)
    decreases d, 1, s
  {
    if s.Boolean? then s.b
    else if !s.Object? then false
    else if "$ref" in s.members then
      s.members["$ref"].Text? &&
      var target := Evaluate(document, s.members["$ref"].s);
      && target.Some? && target.value.Object? && "$ref" !in target.value.members && "anyOf" !in target.value.members
      && ValidatesMembers(document, target.value.members, d)
    else
      && ("anyOf" in s.members ==>
            s.members["anyOf"].Array? &&
            exists i :: 0 <= i < |s.members["anyOf"].items| && Validates(document, s.members["anyOf"].items[i], d))
      && ValidatesMembers(document, s.members, d)
  }

  /** The keywords that look at the value itself. */
  ghost predicate ValidatesMembers(document: Doc, s: map<string, Doc>, d: Doc)
    decreases d, 0
  {
    && ("type" in s ==> IsOneOf(d, s["type"]))
    && (d.Object? ==>
          forall k :: k in d.members ==> ValidatesMember(document, s, k, d.members[k]))
    && (d.Array? && "items" in s ==>
          forall i :: 0 <= i < |d.items| ==> Validates(document, s["items"], d.items[i]))
  }

  /** One member of an object, by the property of its name or else by what is said of all others. */
  ghost predicate ValidatesMember(document: Doc, s: map<string, Doc>, k: string, x: Doc)
    decreases x, 2
  {
    if "properties" in s && s["properties"].Object? && k in s["properties"].members
    then Validates(document, s["properties"].members[k], x)
    else "additionalProperties" in s ==> Validates(document, s["additionalProperties"], x)
  }

  /** Among these members are just the keywords of s. */
  ghost predicate Shows(members: map<string, Doc>, s: Schema) {
    forall k :: k in KEYWORDS ==>
      if Keyword(s, k).Some? then k in members && members[k] == Keyword(s, k).value else k !in members
  }

  /** Every definition is filled, and every reference inside it leads to one. */
  ghost predicate DefinitionsResolve(defs: Definitions) {
    forall k :: k in defs ==> defs[k].Some? && RefsResolve(defs, defs[k].value)
  }

  /** The document holds its definitions where Resolve looks for them. */
  ghost predicate Defines(document: Doc, defs: Definitions) {
    forall ref {:trigger Resolve(ref)} ::
      var name := Resolve(ref);
      name.Some? && name.value in defs && defs[name.value].Some? ==>
        Evaluate(document, ref) == Some(Rendered(defs[name.value].value))
  }

  lemma {:induction false} RenderedShows(s: Schema)
    ensures Shows(Rendered(s).members, s)
  {
  }

  lemma {:induction false} DocumentShows(root: Schema, title: string, description: string, defs: Definitions)
    ensures Shows(Document(root, title, description, defs).members, root)
  {
    hide Keyword;
    RenderedShows(root);
  }

  /** The members of the document beside the keywords of its root. */
  ghost predicate Described(document: Doc, title: string, description: string, defs: Definitions) {
    && document.Object?
    && "$schema" in document.members && document.members["$schema"] == Text("http://json-schema.org/draft-07/schema#")
    && "title" in document.members && document.members["title"] == Text(title)
    && "description" in document.members && document.members["description"] == Text(description)
    && ("definitions" in document.members <==> defs != map[])
  }

  lemma {:induction false} DocumentDescribed(root: Schema, title: string, description: string, defs: Definitions)
    ensures Described(Document(root, title, description, defs), title, description, defs)
  {
    hide Keyword;
    assert "definitions" !in KEYWORDS;
  }

  /** Every reference to a filled definition leads to it, from the root of the document. */
  lemma {:induction false} DocumentDefines(root: Schema, title: string, description: string, defs: Definitions)
    ensures Defines(Document(root, title, description, defs), defs)
  {
    hide Rendered, Fragment;
    var document := Document(root, title, description, defs);
    forall ref | Resolve(ref).Some? && Resolve(ref).value in defs && defs[Resolve(ref).value].Some?
      ensures Evaluate(document, ref) == Some(Rendered(defs[Resolve(ref).value].value))
    {
      var name := Resolve(ref).value;
      var tokens := Fragment(ref).value;
      assert tokens == ["definitions", name] && tokens[1..] == [name] && tokens[1..][1..] == [];
      assert defs != map[];
      var held := document.members["definitions"];
      assert Walk(document, tokens) == Walk(held, [name]) == Walk(held.members[name], []);
    }
  }

  lemma {:induction false} TypesAgree(s: Schema, members: map<string, Doc>, d: Doc)
    requires Shows(members, s)
    ensures ("type" in members ==> IsOneOf(d, members["type"]))
       <==> (s.types != [] ==> exists i :: 0 <= i < |s.types| && HasType(d, s.types[i]))
  {
    hide Rendered;
    assert "type" in KEYWORDS;
    forall ty: JType ensures IsA(d, TypeName(ty)) <==> HasType(d, ty) {
    }
    if |s.types| > 1 {
      var items := members["type"].items;
      assert |items| == |s.types| && forall i :: 0 <= i < |items| ==> items[i] == Text(TypeName(s.types[i]));
      if i :| 0 <= i < |s.types| && HasType(d, s.types[i]) {
        assert items[i].Text? && IsA(d, items[i].s);
      }
    }
  }

  /** What the document accepts is what the schemas in it do. */
  lemma {:induction false} ShownAccepts(document: Doc, defs: Definitions, members: map<string, Doc>, s: Schema, d: Doc)
    requires Defines(document, defs) && DefinitionsResolve(defs) && RefsResolve(defs, s) && Shows(members, s)
    ensures Validates(document, Object(members), d) <==> Accepts(defs, s, d)
    decreases d, 1, s, 2
  {
    hide Defines, DefinitionsResolve, RefsResolve, KEYWORDS, MeetsKeywords, ValidatesMembers;
    if s.ref.Some? {
      ReferenceShown(members, s);
      ReferenceAccepts(document, defs, s, d);
    } else {
      AlternativesAgree(document, defs, members, s, d);
      KeywordsAgree(document, defs, members, s, d);
    }
  }

  lemma {:induction false} RenderedAccepts(document: Doc, defs: Definitions, s: Schema, d: Doc)
    requires Defines(document, defs) && DefinitionsResolve(defs) && RefsResolve(defs, s)
    ensures Validates(document, Rendered(s), d) <==> Accepts(defs, s, d)
    decreases d, 1, s, 3
  {
    hide *;
    RenderedShows(s);
    assert Rendered(s) == Object(Rendered(s).members);
    ShownAccepts(document, defs, Rendered(s).members, s, d);
  }

  lemma {:induction false} ReferenceShown(members: map<string, Doc>, s: Schema)
    requires Shows(members, s) && s.ref.Some?
    ensures "$ref" in members && members["$ref"] == Text(s.ref.value)
  {
    hide Rendered;
    assert "$ref" in KEYWORDS;
  }

  lemma {:induction false} ReferenceAccepts(document: Doc, defs: Definitions, s: Schema, d: Doc)
    requires Defines(document, defs) && DefinitionsResolve(defs) && RefsResolve(defs, s) && s.ref.Some?
    ensures
      var target := Evaluate(document, s.ref.value);
      Accepts(defs, s, d) <==>
        && target.Some? && target.value.Object? && "$ref" !in target.value.members && "anyOf" !in target.value.members
        && ValidatesMembers(document, target.value.members, d)
    decreases d, 1, s, 1
  {
    hide Rendered, Evaluate, Resolve, MeetsKeywords, ValidatesMembers;
    var body := defs[Resolve(s.ref.value).value].value;
    assert RefsResolve(defs, body);
    RenderedShows(body);
    KeywordsAgree(document, defs, Rendered(body).members, body, d);
    assert "$ref" in KEYWORDS && "anyOf" in KEYWORDS;
  }

  lemma {:induction false} AlternativesAgree(document: Doc, defs: Definitions, members: map<string, Doc>, s: Schema, d: Doc)
    requires Defines(document, defs) && DefinitionsResolve(defs) && RefsResolve(defs, s) && Shows(members, s) && s.ref.None?
    ensures "$ref" !in members
    ensures ("anyOf" in members ==>
               members["anyOf"].Array? &&
               exists i :: 0 <= i < |members["anyOf"].items| && Validates(document, members["anyOf"].items[i], d))
       <==> (s.anyOf != [] ==> exists i :: 0 <= i < |s.anyOf| && Accepts(defs, s.anyOf[i], d))
    decreases d, 1, s, 0
  {
    hide Defines, DefinitionsResolve, Rendered, Accepts, Validates;
    assert "$ref" in KEYWORDS && "anyOf" in KEYWORDS;
    if s.anyOf != [] {
      var items := members["anyOf"].items;
      forall i | 0 <= i < |s.anyOf|
        ensures items[i] == Rendered(s.anyOf[i]) && (Validates(document, items[i], d) <==> Accepts(defs, s.anyOf[i], d))
      {
        RenderedAccepts(document, defs, s.anyOf[i], d);
      }
    }
  }

  lemma {:induction false} KeywordsAgree(document: Doc, defs: Definitions, members: map<string, Doc>, s: Schema, d: Doc)
    requires Defines(document, defs) && DefinitionsResolve(defs) && RefsResolve(defs, s) && Shows(members, s)
    ensures ValidatesMembers(document, members, d) <==> MeetsKeywords(defs, s, d)
    decreases d, 0
  {
    hide Defines, DefinitionsResolve, Rendered, Accepts, Validates, IsOneOf, ValidatesMember;
    TypesAgree(s, members, d);
    assert "items" in KEYWORDS;
    if d.Object? {
      forall k | k in d.members
        ensures ValidatesMember(document, members, k, d.members[k]) <==> AcceptsMember(defs, s, k, d.members[k])
      {
        MemberAgrees(document, defs, members, s, k, d.members[k]);
      }
    } else if d.Array? && s.items.Some? {
      forall i | 0 <= i < |d.items|
        ensures Validates(document, Rendered(s.items.value), d.items[i]) <==> Accepts(defs, s.items.value, d.items[i])
      {
        RenderedAccepts(document, defs, s.items.value, d.items[i]);
      }
    }
  }

  ghost predicate AcceptsMember(defs: Definitions, s: Schema, k: string, x: Doc) {
    if k in s.properties then Accepts(defs, s.properties[k], x)
    else
      match s.additional
      case Unrestricted => true
      case Forbidden => false
      case Each(e) => Accepts(defs, e, x)
  }

  lemma {:induction false} NothingIsFalse(document: Doc, x: Doc)
    ensures !Validates(document, Boolean(false), x)
  {
  }

  lemma {:induction false} PartsResolve(defs: Definitions, s: Schema)
    requires RefsResolve(defs, s)
    ensures forall k :: k in s.properties ==> RefsResolve(defs, s.properties[k])
    ensures s.additional.Each? ==> RefsResolve(defs, s.additional.schema)
  {
  }

  lemma {:induction false} MembersShown(members: map<string, Doc>, s: Schema)
    requires Shows(members, s)
    ensures forall k :: k in s.properties ==>
              "properties" in members && members["properties"].Object? && k in members["properties"].members
              && members["properties"].members[k] == Rendered(s.properties[k])
    ensures "properties" in members ==> members["properties"].Object? && members["properties"].members.Keys == s.properties.Keys
    ensures "additionalProperties" in members <==> !s.additional.Unrestricted?
    ensures s.additional.Forbidden? ==> members["additionalProperties"] == Boolean(false)
    ensures s.additional.Each? ==> members["additionalProperties"] == Rendered(s.additional.schema)
  {
    hide Rendered;
    assert "properties" in KEYWORDS && "additionalProperties" in KEYWORDS;
  }

  lemma {:induction false} MemberShown(document: Doc, members: map<string, Doc>, s: Schema, k: string, x: Doc)
    requires Shows(members, s)
    ensures ValidatesMember(document, members, k, x) <==>
      if k in s.properties then Validates(document, Rendered(s.properties[k]), x)
      else
        match s.additional
        case Unrestricted => true
        case Forbidden => false
        case Each(e) => Validates(document, Rendered(e), x)
  {
    hide Rendered, Validates, Shows, Keyword;
    MembersShown(members, s);
    NothingIsFalse(document, x);
  }

  lemma {:induction false} MemberAgrees(document: Doc, defs: Definitions, members: map<string, Doc>, s: Schema, k: string, x: Doc)
    requires Defines(document, defs) && DefinitionsResolve(defs) && RefsResolve(defs, s) && Shows(members, s)
    ensures ValidatesMember(document, members, k, x) <==> AcceptsMember(defs, s, k, x)
    decreases x, 2
  {
    hide Defines, DefinitionsResolve, RefsResolve, Rendered, Accepts, Validates, ValidatesMember, Shows, Keyword;
    MemberShown(document, members, s, k, x);
    PartsResolve(defs, s);
    if k in s.properties {
      RenderedAccepts(document, defs, s.properties[k], x);
    } else if s.additional.Each? {
      RenderedAccepts(document, defs, s.additional.schema, x);
    }
  }

  /** The document, taken as a schema, accepts d. */
  ghost predicate Accepted(document: Doc, d: Doc) {
    Validates(document, document, d)
  }

  lemma {:induction false} DocumentAccepts(root: Schema, title: string, description: string, defs: Definitions, d: Doc)
    requires DefinitionsResolve(defs) && RefsResolve(defs, root)
    ensures Accepted(Document(root, title, description, defs), d) <==> Accepts(defs, root, d)
  {
    hide Document, Defines, Shows, DefinitionsResolve, RefsResolve, Validates, Accepts;
    var document := Document(root, title, description, defs);
    DocumentDefines(root, title, description, defs);
    DocumentShows(root, title, description, defs);
    assert document == Object(document.members);
    ShownAccepts(document, defs, document.members, root, d);
  }
}
