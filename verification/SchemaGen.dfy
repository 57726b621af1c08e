/** The configuration-schema generator (internal/docscheck/jsonschema.go): a compiler from a
    recursive type graph to a JSON Schema with "definitions" and "$ref". Its meaning is
    compared with a strict, type-directed decoder over abstract documents. */

/** The type graph and the strict decoder: what the binary accepts. */
module TypeGraph {
  type TypeId = nat

  /** One struct field. `tag` is the JSON name in the field's tag, up to its first comma; `comma` says
      that there is one. */
  datatype Field = Field(name: string, tag: string, comma: bool, exported: bool, anonymous: bool, ftype: TypeId)

  datatype Kind =
    | Pointer(elem: TypeId)
    | Struct(fields: seq<Field>)
    | Map(elem: TypeId)
    | List(elem: TypeId, fixed: bool) // slices, and arrays, which are fixed
    | Uint8
    | Str
    | Bool
    | Int // every integer kind but uint8
    | Float
    | Other // interface values and anything exotic

  /** A type. `height` witnesses that the graph is well founded: it bounds the chain of pointers,
      containers and embeddings that hangs below the type without passing through a named field. */
  datatype TypeDesc = TypeDesc(jsonUnmarshaler: bool, textUnmarshaler: bool, kind: Kind, height: nat)

  type Graph = map<TypeId, TypeDesc>

  /** References stay inside the graph, and no cycle consists of pointers and containers only. */
  ghost predicate ClosedAt(g: Graph, t: TypeId)
    requires t in g
  {
    match g[t].kind
    case Pointer(e) => e in g && g[e].height < g[t].height
    case Map(e) => e in g && g[e].height < g[t].height
    case List(e, _) => e in g && g[e].height < g[t].height
    case Struct(fs) => forall i :: 0 <= i < |fs| ==> fs[i].ftype in g
    case _ => true
  }

  ghost predicate Closed(g: Graph) {
    forall t {:trigger ClosedAt(g, t)} :: t in g ==> ClosedAt(g, t)
  }

  function Deref(g: Graph, t: TypeId): (u: TypeId)
    requires Closed(g) && t in g
    ensures u in g && !g[u].kind.Pointer? && g[u].height <= g[t].height
    ensures g[t].kind.Pointer? ==> g[u].height < g[t].height
    ensures !g[t].kind.Pointer? ==> u == t
    decreases g[t].height
  {
    assert ClosedAt(g, t);
    if g[t].kind.Pointer? then Deref(g, g[t].kind.elem) else t
  }

  /** The fields of an embedded struct are promoted, unless it is a pointer to an unexported one. */
  predicate Embedded(g: Graph, f: Field)
    requires Closed(g) && f.ftype in g
  {
    && f.anonymous && f.tag == ""
    && g[Deref(g, f.ftype)].kind.Struct?
    && (f.exported || !g[f.ftype].kind.Pointer?)
  }

  /** A struct rendered from its fields: no unmarshaler of its own takes over. */
  predicate PlainStruct(g: Graph, t: TypeId) {
    t in g && g[t].kind.Struct? && !g[t].jsonUnmarshaler && !g[t].textUnmarshaler
  }

  /** No struct reaches itself through embedding alone. */
  ghost predicate EmbeddingDescends(g: Graph, t: TypeId)
    requires Closed(g) && t in g
  {
    assert ClosedAt(g, t);
    g[t].kind.Struct? ==>
      forall i :: 0 <= i < |g[t].kind.fields| && Embedded(g, g[t].kind.fields[i])
                  ==> g[Deref(g, g[t].kind.fields[i].ftype)].height < g[t].height
  }

  ghost predicate WellFounded(g: Graph) {
    Closed(g) && forall t {:trigger EmbeddingDescends(g, t)} :: t in g ==> EmbeddingDescends(g, t)
  }

  /** A key an object may carry, and the type its value decodes into. */
  datatype Entry = Entry(key: string, ftype: TypeId)

  /** The entries field i of struct t contributes: none, its own, or the promoted ones. */
  function FieldEntries(g: Graph, t: TypeId, i: nat): (es: seq<Entry>)
    requires WellFounded(g) && t in g && g[t].kind.Struct? && i < |g[t].kind.fields|
    ensures forall k :: 0 <= k < |es| ==> es[k].ftype in g
    decreases g[t].height, 0
  {
    var f := g[t].kind.fields[i];
    assert ClosedAt(g, t) && EmbeddingDescends(g, t);
    if f.tag == "-" then []
    else if Embedded(g, f) then Entries(g, Deref(g, f.ftype))
    else if !f.exported then []
    else [Entry(if f.tag == "" then f.name else f.tag, f.ftype)]
  }

  function EntriesTo(g: Graph, t: TypeId, n: nat): (es: seq<Entry>)
    requires WellFounded(g) && t in g && g[t].kind.Struct? && n <= |g[t].kind.fields|
    ensures forall k :: 0 <= k < |es| ==> es[k].ftype in g
    decreases g[t].height, 1, n
  {
    if n == 0 then [] else EntriesTo(g, t, n - 1) + FieldEntries(g, t, n - 1)
  }

  function Entries(g: Graph, t: TypeId): (es: seq<Entry>)
    requires WellFounded(g) && t in g && g[t].kind.Struct?
    ensures forall i :: 0 <= i < |es| ==> es[i].ftype in g
    decreases g[t].height, 2
  {
    EntriesTo(g, t, |g[t].kind.fields|)
  }

  ghost predicate Distinct(es: seq<Entry>) {
    forall i, j :: 0 <= i < j < |es| ==> es[i].key != es[j].key
  }

  /** The graphs the generator is for: well founded, and no struct spells one JSON key twice. */
  ghost predicate WellFormed(g: Graph) {
    WellFounded(g) && forall t {:trigger Entries(g, t)} :: t in g && g[t].kind.Struct? ==> Distinct(Entries(g, t))
  }

  /** Type a mentions type b: as its element, or as the type of one of its fields. */
  ghost predicate Mentions(g: Graph, a: TypeId, b: TypeId) {
    a in g &&
    match g[a].kind
    case Pointer(e) => e == b
    case Map(e) => e == b
    case List(e, _) => e == b
    case Struct(fs) => exists i :: 0 <= i < |fs| && fs[i].ftype == b
    case _ => false
  }

  ghost predicate Path(g: Graph, p: seq<TypeId>) {
    forall i :: 0 <= i < |p| - 1 ==> Mentions(g, p[i], p[i + 1])
  }

  ghost predicate Reaches(g: Graph, a: TypeId, b: TypeId) {
    exists p {:trigger Path(g, p)} :: |p| > 1 && p[0] == a && p[|p| - 1] == b && Path(g, p)
  }

  /** A type that can hold values of its own. */
  ghost predicate Recursive(g: Graph, t: TypeId) {
    Reaches(g, t, t)
  }

  lemma {:induction false} ReachesOn(g: Graph, a: TypeId, b: TypeId, c: TypeId)
    requires (a == b || Reaches(g, a, b)) && Mentions(g, b, c)
    ensures Reaches(g, a, c)
  {
    var p := [a];
    if a != b {
      p :| |p| > 1 && p[0] == a && p[|p| - 1] == b && Path(g, p);
    }
    var q := p + [c];
    forall i | 0 <= i < |q| - 1 ensures Mentions(g, q[i], q[i + 1]) {
      assert i < |p| - 1 ==> Mentions(g, p[i], p[i + 1]);
    }
    assert Path(g, q);
  }

  lemma {:induction false} ReachesThroughPointers(g: Graph, a: TypeId, t: TypeId)
    requires Closed(g) && t in g && Reaches(g, a, t)
    ensures Reaches(g, a, Deref(g, t))
    decreases g[t].height
  {
    assert ClosedAt(g, t);
    if g[t].kind.Pointer? {
      ReachesOn(g, a, t, g[t].kind.elem);
      ReachesThroughPointers(g, a, g[t].kind.elem);
    }
  }

  /** A number that is no integer, however it is spelled; a whole one is an Integer. */
  type NotWhole = r: real | r.Floor as real != r witness 0.5

  datatype Doc =
    | Null
    | Boolean(b: bool)
    | Integer(n: int)
    | Fraction(r: NotWhole)
    | Text(s: string)
    | Array(items: seq<Doc>)
    | Object(members: map<string, Doc>)

  /** The strict decoder the generator is written to, at the root: it reads tags as the generator does
      (JsonDecoder reads them as encoding/json does), an unknown key is an error, a custom unmarshaler may
      take anything, a text unmarshaler takes a string. */
  ghost predicate Decodes(g: Graph, t: TypeId, d: Doc)
    requires WellFounded(g) && t in g
    decreases d, 0
  {
    var u := Deref(g, t);
    assert ClosedAt(g, u);
    if g[u].jsonUnmarshaler then true
    else if g[u].textUnmarshaler then d.Text?
    else
      match g[u].kind
      case Struct(_) =>
        d.Object? &&
        forall k :: k in d.members ==>
                      exists i :: 0 <= i < |Entries(g, u)| && Entries(g, u)[i].key == k
                                  && DecodesBelow(g, Entries(g, u)[i].ftype, d.members[k])
      case Map(e) => d.Object? && forall k :: k in d.members ==> DecodesBelow(g, e, d.members[k])
      case List(e, _) =>
        if g[e].kind.Uint8? then d.Text?
        else d.Array? && forall i :: 0 <= i < |d.items| ==> DecodesBelow(g, e, d.items[i])
      case Str => d.Text?
      case Bool => d.Boolean?
      case Int => d.Integer?
      case Uint8 => d.Integer?
      case Float => d.Integer? || d.Fraction?
      case Other => true
      case Pointer(_) => true // dereferenced above
  }

  /** Below the root a null is a no-op for every type. */
  ghost predicate DecodesBelow(g: Graph, t: TypeId, d: Doc)
    requires WellFounded(g) && t in g
    decreases d, 1
  {
    d.Null? || Decodes(g, t, d)
  }
}

/** The fragment of JSON Schema draft-07 the generator emits, and what a schema accepts. */
module JsonSchema {
  import opened TypeGraph
  import opened Wrappers

  datatype JType = TObject | TArray | TString | TBoolean | TInteger | TNumber | TNull

  datatype Additional = Unrestricted | Forbidden | Each(schema: Schema)

  /** One schema object, keyword by keyword; `types == []` means the keyword is absent. */
  datatype Schema = Schema(
    ref: Option<string>,
    types: seq<JType>,
    properties: map<string, Schema>,
    additional: Additional,
    items: Option<Schema>,
    anyOf: seq<Schema>)

  const ANYTHING := Schema(None, [], map[], Unrestricted, None, [])

  /** "definitions": a reserved name maps to None until its body is rendered. */
  type Definitions = map<string, Option<Schema>>

  function RefTo(name: string): Schema {
    ANYTHING.(ref := Some("#/definitions/" + EscapeToken(name)))
  }

  /** Replaces every occurrence of one character by a string, left to right. */
  function ReplaceAll(s: string, c: char, image: string): string {
    if s == [] then [] else (if s[0] == c then image else [s[0]]) + ReplaceAll(s[1..], c, image)
  }

  /** The two replacements that make a name a single JSON pointer token. */
  function EscapeToken(name: string): string {
    ReplaceAll(ReplaceAll(name, '~', "~0"), '/', "~1")
  }

  /** Decoding one token as section 4 of RFC 6901 has it: ~1 is a slash and ~0 a tilde; any
      other tilde, and a bare slash, make it malformed. */
  function UnescapeToken(s: string): (r: Option<string>) {
    if s == [] then Some([])
    else if s[0] == '/' then None
    else if s[0] != '~' then
      match UnescapeToken(s[1..]) case None => None case Some(r) => Some([s[0]] + r)
    else if |s| == 1 || (s[1] != '0' && s[1] != '1') then None
    else
      match UnescapeToken(s[2..])
      case None => None
      case Some(r) => Some([if s[1] == '0' then '~' else '/'] + r)
  }

  /** The characters of s in front of its first slash. */
  function TokenLength(s: string): (n: nat)
    ensures n <= |s|
  {
    if s == [] || s[0] == '/' then 0 else 1 + TokenLength(s[1..])
  }

  /** The tokens of a JSON pointer: each follows a slash, up to the next (section 3 of RFC 6901). */
  function Tokens(pointer: string): (r: Option<seq<string>>)
    decreases |pointer|
  {
    if pointer == [] then Some([])
    else if pointer[0] != '/' then None
    else
      var n := TokenLength(pointer[1..]);
      match (UnescapeToken(pointer[1..][..n]), Tokens(pointer[1..][n..]))
      case (Some(token), Some(rest)) => Some([token] + rest)
      case _ => None
  }

  /** The pointer in a reference within the document: the fragment after the number sign. */
  function Fragment(ref: string): (r: Option<seq<string>>) {
    if ref != [] && ref[0] == '#' then Tokens(ref[1..]) else None
  }

  /** The definition a reference leads to: the pointer is to a member of the document's "definitions". */
  function Resolve(ref: string): (name: Option<string>) {
    match Fragment(ref)
    case Some(tokens) => if |tokens| == 2 && tokens[0] == "definitions" then Some(tokens[1]) else None
    case None => None
  }

  predicate HasType(d: Doc, ty: JType) {
    match ty
    case TObject => d.Object?
    case TArray => d.Array?
    case TString => d.Text?
    case TBoolean => d.Boolean?
    case TInteger => d.Integer?
    case TNumber => d.Integer? || d.Fraction?
    case TNull => d.Null?
  }

  /** The keywords that look at the document itself. */
  ghost predicate MeetsKeywords(defs: Definitions, s: Schema, d: Doc)
    decreases d, 0
  {
    && (s.types != [] ==> exists i :: 0 <= i < |s.types| && HasType(d, s.types[i]))
    && (d.Object? ==>
          forall k :: k in d.members ==>
                        if k in s.properties then Accepts(defs, s.properties[k], d.members[k])
                        else match s.additional
                          case Unrestricted => true
                          case Forbidden => false
                          case Each(e) => Accepts(defs, e, d.members[k]))
    && (d.Array? && s.items.Some? ==>
          forall i :: 0 <= i < |d.items| ==> Accepts(defs, s.items.value, d.items[i]))
  }

  /** Validation. A "$ref" makes its siblings ignored and must lead to a filled definition whose
      body is not itself a reference or an alternative. */
  ghost predicate Accepts(defs: Definitions, s: Schema, d: Doc)
    decreases d, 1, s
  {
    if s.ref.Some? then
      var name := Resolve(s.ref.value);
      && name.Some? && name.value in defs && defs[name.value].Some?
      && var body := defs[name.value].value;
         body.ref.None? && body.anyOf == [] && MeetsKeywords(defs, body, d)
    else
      && (s.anyOf != [] ==> exists i :: 0 <= i < |s.anyOf| && Accepts(defs, s.anyOf[i], d))
      && MeetsKeywords(defs, s, d)
  }

  /** Every reference inside a schema leads to a filled definition. */
  ghost predicate RefsResolve(defs: Definitions, s: Schema)
    decreases s
  {
    && (s.ref.Some? ==>
          var name := Resolve(s.ref.value); name.Some? && name.value in defs && defs[name.value].Some?)
    && (forall k :: k in s.properties ==> RefsResolve(defs, s.properties[k]))
    && (s.additional.Each? ==> RefsResolve(defs, s.additional.schema))
    && (s.items.Some? ==> RefsResolve(defs, s.items.value))
    && (forall i :: 0 <= i < |s.anyOf| ==> RefsResolve(defs, s.anyOf[i]))
  }

  /** One character of a name, as a token spells it. */
  function EscapedChar(c: char): string {
    if c == '~' then "~0" else if c == '/' then "~1" else [c]
  }

  lemma {:induction false} ReplaceChar(d: char, c: char, image: string)
    ensures ReplaceAll([d], c, image) == if d == c then image else [d]
  {
    assert [d][1..] == [];
  }

  /** The two passes over one character; the second leaves what the first wrote alone. */
  lemma {:induction false} EscapePasses(c: char)
    ensures EscapeToken([c]) == EscapedChar(c)
  {
    hide ReplaceAll;
    ReplaceChar(c, '~', "~0");
    if c == '~' {
      assert "~0" == ['~'] + ['0'];
      ReplaceAllConcat(['~'], ['0'], '/', "~1");
      ReplaceChar('~', '/', "~1");
      ReplaceChar('0', '/', "~1");
    } else {
      ReplaceChar(c, '/', "~1");
    }
  }

  lemma {:induction false} EscapeCons(c: char, rest: string)
    ensures EscapeToken([c] + rest) == EscapedChar(c) + EscapeToken(rest)
  {
    hide ReplaceAll, EscapedChar;
    EscapePasses(c);
    ReplaceAllConcat([c], rest, '~', "~0");
    ReplaceAllConcat(ReplaceAll([c], '~', "~0"), ReplaceAll(rest, '~', "~0"), '/', "~1");
  }

  lemma {:induction false} UnescapeCons(c: char, rest: string)
    ensures UnescapeToken(EscapedChar(c) + rest) ==
      match UnescapeToken(rest) case None => None case Some(r) => Some([c] + r)
  {
    var s := EscapedChar(c) + rest;
    if |EscapedChar(c)| == 2 {
      assert s[2..] == rest;
    } else {
      assert s[1..] == rest;
    }
  }

  lemma {:induction false} NothingToUnescape()
    ensures UnescapeToken(EscapeToken([])) == Some([])
  {
  }

  lemma {:induction false} UnescapeEscape(name: string)
    ensures UnescapeToken(EscapeToken(name)) == Some(name)
  {
    hide UnescapeToken, EscapeToken, EscapedChar;
    if name == [] {
      NothingToUnescape();
    } else {
      UnescapeEscape(name[1..]);
      assert name == [name[0]] + name[1..];
      EscapeCons(name[0], name[1..]);
      UnescapeCons(name[0], EscapeToken(name[1..]));
    }
  }

  lemma {:induction false} ReplaceAllConcat(a: string, b: string, c: char, image: string)
    ensures ReplaceAll(a + b, c, image) == ReplaceAll(a, c, image) + ReplaceAll(b, c, image)
  {
    if a == [] {
      assert a + b == b;
    } else {
      ReplaceAllConcat(a[1..], b, c, image);
      assert (a + b)[0] == a[0] && (a + b)[1..] == a[1..] + b;
      var head := if a[0] == c then image else [a[0]];
      var x, y := ReplaceAll(a[1..], c, image), ReplaceAll(b, c, image);
      assert head + (x + y) == (head + x) + y;
    }
  }

  lemma {:induction false} EscapedIsOneToken(name: string)
    ensures TokenLength(EscapeToken(name)) == |EscapeToken(name)|
  {
    hide EscapeToken, EscapedChar;
    if name == [] {
      NothingToUnescape();
      NothingEscaped();
    } else {
      EscapedIsOneToken(name[1..]);
      assert name == [name[0]] + name[1..];
      EscapeCons(name[0], name[1..]);
      EscapedCharInToken(name[0], EscapeToken(name[1..]));
    }
  }

  lemma {:induction false} NothingEscaped()
    ensures EscapeToken([]) == []
  {
  }

  lemma {:induction false} EscapedCharInToken(c: char, rest: string)
    ensures TokenLength(EscapedChar(c) + rest) == |EscapedChar(c)| + TokenLength(rest)
  {
    var s := EscapedChar(c) + rest;
    if |EscapedChar(c)| == 2 {
      assert s[1..][1..] == rest;
    } else {
      assert s[1..] == rest;
    }
  }

  lemma {:induction false} PlainToken(s: string)
    requires forall i :: 0 <= i < |s| ==> s[i] != '~' && s[i] != '/'
    ensures UnescapeToken(s) == Some(s) && TokenLength(s) == |s|
  {
    if s != [] {
      PlainToken(s[1..]);
      assert s == [s[0]] + s[1..];
    }
  }

  /** A token ends where the next one starts. */
  lemma {:induction false} TokenEnds(token: string, rest: string)
    requires TokenLength(token) == |token| && (rest == [] || rest[0] == '/')
    ensures TokenLength(token + rest) == |token|
  {
    if token == [] {
      assert token + rest == rest;
    } else {
      TokenEnds(token[1..], rest);
      assert (token + rest)[1..] == token[1..] + rest;
    }
  }

  lemma {:induction false} OneToken(token: string, name: string, rest: string)
    requires TokenLength(token) == |token| && UnescapeToken(token) == Some(name) && (rest == [] || rest[0] == '/')
    ensures Tokens("/" + token + rest) == match Tokens(rest) case None => None case Some(r) => Some([name] + r)
  {
    hide TokenLength, UnescapeToken;
    TokenEnds(token, rest);
    var s := "/" + token + rest;
    assert s[1..] == token + rest && s[1..][..|token|] == token && s[1..][|token|..] == rest;
  }

  lemma {:induction false} TwoTokens(token: string, name: string)
    requires TokenLength(token) == |token| && UnescapeToken(token) == Some(name)
    ensures Tokens("/definitions/" + token) == Some(["definitions", name])
  {
    hide UnescapeToken, TokenLength, Tokens;
    PlainToken("definitions");
    NoTokens();
    OneToken(token, name, "");
    assert "/" + token + "" == "/" + token;
    assert [name] + [] == [name];
    OneToken("definitions", "definitions", "/" + token);
    assert "/definitions/" + token == "/" + "definitions" + ("/" + token);
    assert ["definitions"] + [name] == ["definitions", name];
  }

  lemma {:induction false} NoTokens()
    ensures Tokens("") == Some([])
  {
  }

  /** A reference to a name leads back to that name, whatever characters it holds. */
  lemma {:induction false} RefResolves(name: string)
    ensures RefTo(name).ref.Some? && Resolve(RefTo(name).ref.value) == Some(name)
  {
    hide UnescapeToken, TokenLength, EscapeToken, Tokens;
    UnescapeEscape(name);
    EscapedIsOneToken(name);
    TwoTokens(EscapeToken(name), name);
    assert RefTo(name).ref.value[1..] == "/definitions/" + EscapeToken(name);
  }
}

/** What it means for a schema to describe a type, and that it then accepts what decodes. */
module SchemaMeaning {
  import opened TypeGraph
  import opened JsonSchema
  import opened Wrappers

  /** The definition names given to recursive struct types so far. */
  type Names = map<TypeId, string>

  ghost predicate Typed(s: Schema, ty: JType, below: bool) {
    s.ref.None? && s.anyOf == [] && s.types == if below then [ty, TNull] else [ty]
  }

  /** `s` is the object schema of struct u: its entries, each described, and nothing else. */
  ghost predicate RendersStruct(g: Graph, names: Names, u: TypeId, s: Schema, below: bool)
    requires WellFormed(g) && PlainStruct(g, u)
    decreases s, 0
  {
    && Typed(s, TObject, below) && s.additional == Forbidden && s.items.None?
    && (forall k :: k in s.properties ==> exists i :: 0 <= i < |Entries(g, u)| && Entries(g, u)[i].key == k)
    && (forall i :: 0 <= i < |Entries(g, u)| ==>
          && Entries(g, u)[i].key in s.properties
          && Renders(g, names, Entries(g, u)[i].ftype, s.properties[Entries(g, u)[i].key], true))
  }

  /** `s` describes type t; `below` says that it also carries the null arm. A plain struct may be
      described by a reference to its definition. */
  ghost predicate Renders(g: Graph, names: Names, t: TypeId, s: Schema, below: bool)
    requires WellFormed(g) && t in g
    decreases s, 1
  {
    var u := Deref(g, t);
    assert ClosedAt(g, u);
    if g[u].jsonUnmarshaler then s == ANYTHING
    else if g[u].textUnmarshaler then Typed(s, TString, below) && s == ANYTHING.(types := s.types)
    else
      match g[u].kind
      case Struct(_) =>
        || (u in names && s == if below then NullableRef(names[u]) else RefTo(names[u]))
        || RendersStruct(g, names, u, s, below)
      case Map(e) =>
        && Typed(s, TObject, below) && s.additional.Each? && s.properties == map[] && s.items.None?
        && Renders(g, names, e, s.additional.schema, true)
      case List(e, _) =>
        if g[e].kind.Uint8? then Typed(s, TString, below) && s == ANYTHING.(types := s.types)
        else
          && Typed(s, TArray, below) && s.items.Some? && s.properties == map[] && s.additional.Unrestricted?
          && Renders(g, names, e, s.items.value, true)
      case Str => Typed(s, TString, below) && s == ANYTHING.(types := s.types)
      case Bool => Typed(s, TBoolean, below) && s == ANYTHING.(types := s.types)
      case Int => Typed(s, TInteger, below) && s == ANYTHING.(types := s.types)
      case Uint8 => Typed(s, TInteger, below) && s == ANYTHING.(types := s.types)
      case Float => Typed(s, TNumber, below) && s == ANYTHING.(types := s.types)
      case Other => s == ANYTHING
      case Pointer(_) => true // dereferenced above
  }

  function NullableRef(name: string): Schema {
    ANYTHING.(anyOf := [RefTo(name), ANYTHING.(types := [TNull])])
  }

  /** Body is the object schema of struct v, which bears the name k. */
  ghost predicate Bears(g: Graph, names: Names, k: string, body: Schema, v: TypeId)
    requires WellFormed(g)
  {
    v in names && names[v] == k && PlainStruct(g, v) && RendersStruct(g, names, v, body, false)
  }

  ghost predicate DecodeAlike(g: Graph, a: TypeId, b: TypeId)
    requires WellFounded(g) && a in g && b in g
  {
    forall d :: Decodes(g, a, d) <==> Decodes(g, b, d)
  }

  /** The definition u refers to is filled, with the object schema of a struct that bears the name. */
  ghost predicate DefinedFor(g: Graph, names: Names, defs: Definitions, u: TypeId)
    requires WellFormed(g) && u in names
  {
    && PlainStruct(g, u) && names[u] in defs && defs[names[u]].Some?
    && exists v :: Bears(g, names, names[u], defs[names[u]].value, v)
  }

  ghost predicate Defined(g: Graph, names: Names, defs: Definitions)
    requires WellFormed(g)
  {
    forall u {:trigger DefinedFor(g, names, defs, u)} :: u in names ==> DefinedFor(g, names, defs, u)
  }

  /** Structs that share a name decode alike; above all, when none share one. */
  ghost predicate SharedAlike(g: Graph, names: Names)
    requires WellFormed(g)
  {
    forall a, b {:trigger DecodeAlike(g, a, b)} ::
      a in g && b in g && a in names && b in names && names[a] == names[b] ==> DecodeAlike(g, a, b)
  }

  /** The reference handed out for u accepts just what u decodes. */
  ghost predicate ReferenceRight(g: Graph, names: Names, defs: Definitions, u: TypeId)
    requires WellFounded(g) && u in g && u in names
  {
    forall d :: Accepts(defs, RefTo(names[u]), d) <==> Decodes(g, u, d)
  }

  ghost predicate ReferencesRight(g: Graph, names: Names, defs: Definitions)
    requires WellFounded(g)
  {
    forall u {:trigger ReferenceRight(g, names, defs, u)} :: u in g && u in names ==> ReferenceRight(g, names, defs, u)
  }

  /** What the meaning of references rests on. */
  ghost predicate Complete(g: Graph, names: Names, defs: Definitions)
    requires WellFormed(g)
  {
    Defined(g, names, defs) && SharedAlike(g, names)
  }

  /** Meaning preservation: a schema that describes a type accepts exactly the documents the
      strict decoder takes, null included wherever the value lies below the root. */
  lemma {:induction false} AcceptsIffDecodes(g: Graph, names: Names, defs: Definitions, t: TypeId, s: Schema,
                                             below: bool, d: Doc)
    requires WellFormed(g) && t in g && Complete(g, names, defs)
    requires Renders(g, names, t, s, below)
    ensures Accepts(defs, s, d) <==> if below then DecodesBelow(g, t, d) else Decodes(g, t, d)
    decreases d, 3
  {
    hide Accepts, MeetsKeywords, Decodes, DecodesBelow, Renders, RendersStruct, Complete;
    var u := Deref(g, t);
    assert ClosedAt(g, u);
    Dereferenced(g, names, t, s, below, d);
    if Leaf(g, u) {
      LeafAccepts(g, names, defs, u, s, below, d);
    } else if g[u].kind.Struct? {
      PlainStructAccepts(g, names, defs, u, s, below, d);
    } else if g[u].kind.Map? {
      MapTypeAccepts(g, names, defs, u, s, below, d);
    } else {
      ListTypeAccepts(g, names, defs, u, s, below, d);
    }
  }

  /** Pointers change neither what decodes nor what is rendered. */
  lemma {:induction false} Dereferenced(g: Graph, names: Names, t: TypeId, s: Schema, below: bool, d: Doc)
    requires WellFormed(g) && t in g
    ensures Decodes(g, t, d) <==> Decodes(g, Deref(g, t), d)
    ensures DecodesBelow(g, t, d) <==> DecodesBelow(g, Deref(g, t), d)
    ensures Renders(g, names, t, s, below) <==> Renders(g, names, Deref(g, t), s, below)
  {
    assert Deref(g, Deref(g, t)) == Deref(g, t);
  }

  lemma {:induction false} MapTypeAccepts(g: Graph, names: Names, defs: Definitions, u: TypeId, s: Schema,
                                          below: bool, d: Doc)
    requires WellFormed(g) && u in g && Complete(g, names, defs) && Renders(g, names, u, s, below)
    requires !Leaf(g, u) && g[u].kind.Map?
    ensures Accepts(defs, s, d) <==> if below then DecodesBelow(g, u, d) else Decodes(g, u, d)
    decreases d, 2
  {
    hide Accepts, MeetsKeywords, RendersStruct, Complete;
    assert ClosedAt(g, u);
    MapAccepts(defs, s, below, d);
    MembersAgree(g, names, defs, g[u].kind.elem, s.additional.schema, d);
  }

  lemma {:induction false} ListTypeAccepts(g: Graph, names: Names, defs: Definitions, u: TypeId, s: Schema,
                                           below: bool, d: Doc)
    requires WellFormed(g) && u in g && Complete(g, names, defs) && Renders(g, names, u, s, below)
    requires !Leaf(g, u) && g[u].kind.List?
    ensures Accepts(defs, s, d) <==> if below then DecodesBelow(g, u, d) else Decodes(g, u, d)
    decreases d, 2
  {
    hide Accepts, MeetsKeywords, RendersStruct, Complete;
    assert ClosedAt(g, u);
    ListAccepts(defs, s, below, d);
    ItemsAgree(g, names, defs, g[u].kind.elem, s.items.value, d);
  }

  /** Taken as a no-op at the root too, as the JSON decoder takes it, a null is the one document the
      schema and the decoder can differ on; and for a struct's schema they do. */
  lemma {:induction false} RootNullIsTheOneGap(g: Graph, names: Names, defs: Definitions, t: TypeId, s: Schema, d: Doc)
    requires WellFormed(g) && t in g && Complete(g, names, defs)
    requires Renders(g, names, t, s, false)
    ensures (Accepts(defs, s, d) <==> DecodesBelow(g, t, d)) <==> (d.Null? ==> Accepts(defs, s, Null))
    ensures
      var u := Deref(g, t);
      Accepts(defs, s, Null) <==> g[u].jsonUnmarshaler || (!g[u].textUnmarshaler && g[u].kind.Other?)
  {
    hide Accepts, Renders, Complete;
    AcceptsIffDecodes(g, names, defs, t, s, false, d);
    AcceptsIffDecodes(g, names, defs, t, s, false, Null);
  }

  /** Types whose documents are judged without looking inside. */
  predicate Leaf(g: Graph, u: TypeId)
    requires Closed(g) && u in g
  {
    assert ClosedAt(g, u);
    || g[u].jsonUnmarshaler || g[u].textUnmarshaler
    || !(g[u].kind.Struct? || g[u].kind.Map? || g[u].kind.List?)
    || (g[u].kind.List? && g[g[u].kind.elem].kind.Uint8?)
  }

  lemma {:induction false} LeafAccepts(g: Graph, names: Names, defs: Definitions, u: TypeId, s: Schema, below: bool, d: Doc)
    requires WellFormed(g) && u in g && Leaf(g, u) && !g[u].kind.Pointer? && Renders(g, names, u, s, below)
    ensures Accepts(defs, s, d) <==> if below then DecodesBelow(g, u, d) else Decodes(g, u, d)
  {
    if s != ANYTHING {
      ScalarAccepts(defs, s, s.types[0], below, d);
    }
  }

  lemma {:induction false} MembersAgree(g: Graph, names: Names, defs: Definitions, e: TypeId, s: Schema, d: Doc)
    requires WellFormed(g) && e in g && Complete(g, names, defs) && Renders(g, names, e, s, true)
    ensures d.Object? ==> forall k :: k in d.members ==>
                            (Accepts(defs, s, d.members[k]) <==> DecodesBelow(g, e, d.members[k]))
    decreases d, 0
  {
    if d.Object? {
      forall k | k in d.members { AcceptsIffDecodes(g, names, defs, e, s, true, d.members[k]); }
    }
  }

  lemma {:induction false} ItemsAgree(g: Graph, names: Names, defs: Definitions, e: TypeId, s: Schema, d: Doc)
    requires WellFormed(g) && e in g && Complete(g, names, defs) && Renders(g, names, e, s, true)
    ensures d.Array? ==> forall i :: 0 <= i < |d.items| ==>
                           (Accepts(defs, s, d.items[i]) <==> DecodesBelow(g, e, d.items[i]))
    decreases d, 0
  {
    if d.Array? {
      forall i | 0 <= i < |d.items| { AcceptsIffDecodes(g, names, defs, e, s, true, d.items[i]); }
    }
  }

  lemma {:induction false} PlainStructAccepts(g: Graph, names: Names, defs: Definitions, u: TypeId, s: Schema,
                                              below: bool, d: Doc)
    requires WellFormed(g) && PlainStruct(g, u) && Complete(g, names, defs)
    requires Renders(g, names, u, s, below)
    ensures Accepts(defs, s, d) <==> if below then DecodesBelow(g, u, d) else Decodes(g, u, d)
    decreases d, 2
  {
    if u in names && s == (if below then NullableRef(names[u]) else RefTo(names[u])) {
      RefAccepts(g, names, defs, u, d);
      NullableRefAccepts(defs, names[u], d);
    } else {
      StructAccepts(g, names, defs, u, s, below, d);
    }
  }

  lemma {:induction false} ScalarAccepts(defs: Definitions, s: Schema, ty: JType, below: bool, d: Doc)
    requires Typed(s, ty, below) && s == ANYTHING.(types := s.types)
    ensures Accepts(defs, s, d) <==> HasType(d, ty) || (below && d.Null?)
  {
    assert s.types[0] == ty;
    assert below ==> s.types[1] == TNull;
  }

  lemma {:induction false} MapAccepts(defs: Definitions, s: Schema, below: bool, d: Doc)
    requires Typed(s, TObject, below) && s.additional.Each? && s.properties == map[] && s.items.None?
    ensures Accepts(defs, s, d)
       <==> (d.Object? && forall k :: k in d.members ==> Accepts(defs, s.additional.schema, d.members[k]))
            || (below && d.Null?)
  {
    assert HasType(d, s.types[0]) <==> d.Object?;
    assert below ==> s.types[1] == TNull;
  }

  lemma {:induction false} ListAccepts(defs: Definitions, s: Schema, below: bool, d: Doc)
    requires Typed(s, TArray, below) && s.items.Some? && s.properties == map[] && s.additional.Unrestricted?
    ensures Accepts(defs, s, d)
       <==> (d.Array? && forall i :: 0 <= i < |d.items| ==> Accepts(defs, s.items.value, d.items[i]))
            || (below && d.Null?)
  {
    assert HasType(d, s.types[0]) <==> d.Array?;
    assert below ==> s.types[1] == TNull;
  }

  lemma {:induction false} NoKeywords(defs: Definitions, s: Schema, d: Doc)
    requires s.types == [] && s.properties == map[] && s.additional.Unrestricted? && s.items.None?
    ensures MeetsKeywords(defs, s, d)
  {
  }

  /** An alternative between a definition and null: the wrapped reference decides everything else. */
  lemma {:induction false} NullableRefAccepts(defs: Definitions, name: string, d: Doc)
    ensures Accepts(defs, NullableRef(name), d) <==> d.Null? || Accepts(defs, RefTo(name), d)
  {
    hide RefTo, MeetsKeywords;
    var s := NullableRef(name);
    var nil := ANYTHING.(types := [TNull]);
    assert s.anyOf[0] == RefTo(name) && s.anyOf[1] == nil;
    ScalarAccepts(defs, nil, TNull, false, d);
    NoKeywords(defs, s, d);
  }

  lemma {:induction false} StructAccepts(g: Graph, names: Names, defs: Definitions, u: TypeId, s: Schema,
                                         below: bool, d: Doc)
    requires WellFormed(g) && PlainStruct(g, u) && Complete(g, names, defs)
    requires RendersStruct(g, names, u, s, below)
    ensures MeetsKeywords(defs, s, d) <==> if below then DecodesBelow(g, u, d) else Decodes(g, u, d)
    decreases d, 0
  {
    hide Accepts, Renders, Complete;
    assert HasType(d, s.types[0]) <==> d.Object?;
    assert below ==> s.types[1] == TNull;
    if d.Object? {
      var es := Entries(g, u);
      forall i | 0 <= i < |es| && es[i].key in d.members
        ensures Accepts(defs, s.properties[es[i].key], d.members[es[i].key])
           <==> DecodesBelow(g, es[i].ftype, d.members[es[i].key])
      {
        AcceptsIffDecodes(g, names, defs, es[i].ftype, s.properties[es[i].key], true, d.members[es[i].key]);
      }
      forall k | k in d.members
        ensures (k in s.properties && Accepts(defs, s.properties[k], d.members[k]))
           <==> exists i :: 0 <= i < |es| && es[i].key == k && DecodesBelow(g, es[i].ftype, d.members[k])
      {
      }
    }
  }

  lemma {:induction false} RefAccepts(g: Graph, names: Names, defs: Definitions, u: TypeId, d: Doc)
    requires WellFormed(g) && PlainStruct(g, u) && Complete(g, names, defs) && u in names
    ensures Accepts(defs, RefTo(names[u]), d) <==> Decodes(g, u, d)
    decreases d, 1
  {
    assert DefinedFor(g, names, defs, u);
    var v :| Bears(g, names, names[u], defs[names[u]].value, v);
    assert DecodeAlike(g, u, v);
    RefResolves(names[u]);
    StructAccepts(g, names, defs, v, defs[names[u]].value, false, d);
  }

  /** The exact condition: the references hand out what their structs decode if and only if structs that
      were given one name decode alike. */
  lemma {:induction false} ReferencesRightIffSharedAlike(g: Graph, names: Names, defs: Definitions)
    requires WellFormed(g) && Defined(g, names, defs)
    ensures ReferencesRight(g, names, defs) <==> SharedAlike(g, names)
  {
    hide Accepts, Decodes, RefTo, Bears;
    if SharedAlike(g, names) {
      forall u | u in g && u in names ensures ReferenceRight(g, names, defs, u) {
        ReferenceIsRight(g, names, defs, u);
      }
    }
    if ReferencesRight(g, names, defs) {
      forall a, b | a in g && b in g && a in names && b in names && names[a] == names[b] ensures DecodeAlike(g, a, b) {
        assert ReferenceRight(g, names, defs, a) && ReferenceRight(g, names, defs, b);
        RightReferencesAgree(g, names, defs, a, b);
      }
    }
  }

  lemma {:induction false} ReferenceIsRight(g: Graph, names: Names, defs: Definitions, u: TypeId)
    requires WellFormed(g) && Complete(g, names, defs) && u in g && u in names
    ensures ReferenceRight(g, names, defs, u)
  {
    assert DefinedFor(g, names, defs, u);
    hide Accepts, Decodes, RefTo, Complete, Bears;
    forall d ensures Accepts(defs, RefTo(names[u]), d) <==> Decodes(g, u, d) {
      RefAccepts(g, names, defs, u, d);
    }
  }

  lemma {:induction false} RightReferencesAgree(g: Graph, names: Names, defs: Definitions, a: TypeId, b: TypeId)
    requires WellFounded(g) && a in g && b in g && a in names && b in names && names[a] == names[b]
    requires ReferenceRight(g, names, defs, a) && ReferenceRight(g, names, defs, b)
    ensures DecodeAlike(g, a, b)
  {
    hide Accepts, Decodes, RefTo;
    forall d ensures Decodes(g, a, d) <==> Decodes(g, b, d) {
      assert Accepts(defs, RefTo(names[a]), d) <==> Decodes(g, a, d);
      assert Accepts(defs, RefTo(names[b]), d) <==> Decodes(g, b, d);
    }
  }

  lemma {:induction false} DescribedRefsResolve(g: Graph, names: Names, defs: Definitions, t: TypeId, s: Schema, below: bool)
    requires WellFormed(g) && t in g && Defined(g, names, defs) && Renders(g, names, t, s, below)
    ensures RefsResolve(defs, s)
    decreases s, 1
  {
    var u := Deref(g, t);
    assert ClosedAt(g, u);
    if Leaf(g, u) {
    } else if g[u].kind.Struct? {
      if u in names && s == (if below then NullableRef(names[u]) else RefTo(names[u])) {
        assert DefinedFor(g, names, defs, u);
        RefResolves(names[u]);
        assert RefsResolve(defs, RefTo(names[u]));
      } else {
        StructRefsResolve(g, names, defs, u, s, below);
      }
    } else if g[u].kind.Map? {
      DescribedRefsResolve(g, names, defs, g[u].kind.elem, s.additional.schema, true);
    } else {
      DescribedRefsResolve(g, names, defs, g[u].kind.elem, s.items.value, true);
    }
  }

  lemma {:induction false} StructRefsResolve(g: Graph, names: Names, defs: Definitions, u: TypeId, s: Schema, below: bool)
    requires WellFormed(g) && PlainStruct(g, u) && Defined(g, names, defs) && RendersStruct(g, names, u, s, below)
    ensures RefsResolve(defs, s)
    decreases s, 0
  {
    forall k | k in s.properties ensures RefsResolve(defs, s.properties[k]) {
      var i :| 0 <= i < |Entries(g, u)| && Entries(g, u)[i].key == k;
      DescribedRefsResolve(g, names, defs, Entries(g, u)[i].ftype, s.properties[k], true);
    }
  }

  /** Naming more types never invalidates a description. */
  lemma {:induction false} RendersMonotone(g: Graph, names: Names, more: Names, t: TypeId, s: Schema, below: bool)
    requires WellFormed(g) && t in g && Renders(g, names, t, s, below)
    requires forall u :: u in names ==> u in more && more[u] == names[u]
    ensures Renders(g, more, t, s, below)
    decreases s, 1
  {
    var u := Deref(g, t);
    assert ClosedAt(g, u);
    if PlainStruct(g, u) {
      if RendersStruct(g, names, u, s, below) {
        RendersStructMonotone(g, names, more, u, s, below);
      }
    } else if !g[u].jsonUnmarshaler && !g[u].textUnmarshaler && g[u].kind.Map? {
      RendersMonotone(g, names, more, g[u].kind.elem, s.additional.schema, true);
    } else if !g[u].jsonUnmarshaler && !g[u].textUnmarshaler && g[u].kind.List? && !g[g[u].kind.elem].kind.Uint8? {
      RendersMonotone(g, names, more, g[u].kind.elem, s.items.value, true);
    }
  }

  lemma {:induction false} RendersStructMonotone(g: Graph, names: Names, more: Names, u: TypeId, s: Schema, below: bool)
    requires WellFormed(g) && PlainStruct(g, u) && RendersStruct(g, names, u, s, below)
    requires forall u :: u in names ==> u in more && more[u] == names[u]
    ensures RendersStruct(g, more, u, s, below)
    decreases s, 0
  {
    forall i | 0 <= i < |Entries(g, u)|
      ensures Renders(g, more, Entries(g, u)[i].ftype, s.properties[Entries(g, u)[i].key], true)
    {
      RendersMonotone(g, names, more, Entries(g, u)[i].ftype, s.properties[Entries(g, u)[i].key], true);
    }
  }
}

/** The generator itself. */
module SchemaGen {
  import opened TypeGraph
  import opened JsonDecoder
  import opened JsonSchema
  import opened SchemaMeaning
  import opened SchemaDocument
  import opened SchemaParity
  import opened Wrappers

  /** How Go spells a type: `short` is "pkg.Type" (or "anonymous"), `long` the package path, a dot
      and the type name. */
  datatype Spelling = Spelling(short: string, long: string)

  /** No recursive struct's long spelling is another's short or long one: a condition on the types alone
      under which the generator names no two structs alike. Only recursive structs are ever named. */
  ghost predicate SpelledApart(g: Graph, spell: TypeId -> Spelling) {
    forall a, b {:trigger spell(a), spell(b)} ::
      PlainStruct(g, a) && Recursive(g, a) && PlainStruct(g, b) && Recursive(g, b) && a != b ==>
        spell(a).long != spell(b).short && spell(a).long != spell(b).long
  }

  /** The null arm: a second type on a typed schema, an alternative around a reference. */
  function Nullable(s: Schema): Schema {
    if s.ref.Some? then ANYTHING.(anyOf := [ANYTHING.(ref := s.ref), ANYTHING.(types := [TNull])])
    else if |s.types| == 1 then s.(types := [s.types[0], TNull])
    else s
  }

  lemma {:induction false} NullableRenders(g: Graph, names: Names, t: TypeId, s: Schema)
    requires WellFormed(g) && t in g && Renders(g, names, t, s, false)
    ensures Renders(g, names, t, Nullable(s), true)
  {
    var u := Deref(g, t);
    assert ClosedAt(g, u);
    if PlainStruct(g, u) && s.ref.None? {
      assert RendersStruct(g, names, u, s, false);
      assert RendersStruct(g, names, u, Nullable(s), true);
    }
  }

  /** From one state of the walk to a later one: names stay, no filled definition is emptied again, and
      every new one is filled. */
  ghost predicate Grows(names0: Names, defs0: Definitions, names1: Names, defs1: Definitions) {
    && (forall u :: u in names0 ==> u in names1 && names1[u] == names0[u])
    && (forall k :: k in defs0 ==> k in defs1 && (defs0[k].Some? ==> defs1[k].Some?))
    && (forall k :: k in defs1 && k !in defs0 ==> defs1[k].Some?)
  }

  /** A struct with a field of its own type. */
  ghost predicate SelfReferring(g: Graph, t: TypeId)
    requires WellFormed(g)
  {
    PlainStruct(g, t) && exists i :: 0 <= i < |Entries(g, t)| && Deref(g, Entries(g, t)[i].ftype) == t
  }

  /** Of the types of these entries, those on the path and those that refer to themselves are named. */
  ghost predicate Reentered(g: Graph, names: Names, seen: set<TypeId>, es: seq<Entry>)
    requires WellFormed(g)
    requires forall i :: 0 <= i < |es| ==> es[i].ftype in g
  {
    forall i :: 0 <= i < |es| ==>
      var v := Deref(g, es[i].ftype);
      v in seen || SelfReferring(g, v) ==> v in names
  }

  /** Every property described, for the first n entries of es. */
  ghost predicate Describes(g: Graph, names: Names, es: seq<Entry>, props: map<string, Schema>)
    requires WellFormed(g)
    requires forall i :: 0 <= i < |es| ==> es[i].ftype in g
  {
    forall i :: 0 <= i < |es| ==> es[i].key in props && Renders(g, names, es[i].ftype, props[es[i].key], true)
  }

  /** Collecting `es` into `before` gave `after`: the new entries described, the rest untouched. */
  ghost predicate Collected(g: Graph, names: Names, es: seq<Entry>, before: map<string, Schema>, after: map<string, Schema>)
    requires WellFormed(g)
    requires forall i :: 0 <= i < |es| ==> es[i].ftype in g
  {
    && Describes(g, names, es, after)
    && (forall k :: k in before ==> k in after)
    && (forall k :: k in after ==> (exists i :: 0 <= i < |es| && es[i].key == k) || (k in before && after[k] == before[k]))
  }

  lemma {:induction false} DescribesMonotone(g: Graph, names: Names, more: Names, es: seq<Entry>, props: map<string, Schema>)
    requires WellFormed(g) && (forall i :: 0 <= i < |es| ==> es[i].ftype in g) && Describes(g, names, es, props)
    requires forall u :: u in names ==> u in more && more[u] == names[u]
    ensures Describes(g, more, es, props)
  {
    forall i | 0 <= i < |es| { RendersMonotone(g, names, more, es[i].ftype, props[es[i].key], true); }
  }

  /** Two consecutive collections of distinct entries amount to one of both. */
  lemma {:induction false} CollectedConcat(g: Graph, names: Names, more: Names, es: seq<Entry>, fs: seq<Entry>,
                        p0: map<string, Schema>, p1: map<string, Schema>, p2: map<string, Schema>)
    requires WellFormed(g) && Distinct(es + fs)
    requires forall i :: 0 <= i < |es| ==> es[i].ftype in g
    requires forall i :: 0 <= i < |fs| ==> fs[i].ftype in g
    requires forall u :: u in names ==> u in more && more[u] == names[u]
    requires Collected(g, names, es, p0, p1) && Collected(g, more, fs, p1, p2)
    ensures Collected(g, more, es + fs, p0, p2)
  {
    DescribesMonotone(g, names, more, es, p1);
    var all := es + fs;
    forall i | 0 <= i < |all|
      ensures all[i].key in p2 && Renders(g, more, all[i].ftype, p2[all[i].key], true)
    {
      if i < |es| {
        assert all[i] == es[i] && es[i].key in p1;
        forall j | 0 <= j < |fs| ensures fs[j].key != es[i].key {
          assert all[|es| + j] == fs[j];
        }
        assert p2[es[i].key] == p1[es[i].key];
      } else {
        assert all[i] == fs[i - |es|];
      }
    }
    forall k | k in p2
      ensures (exists i :: 0 <= i < |all| && all[i].key == k) || (k in p0 && p2[k] == p0[k])
    {
      if i :| 0 <= i < |fs| && fs[i].key == k {
        assert all[|es| + i].key == k;
      } else if i :| 0 <= i < |es| && es[i].key == k {
        assert all[i].key == k;
      }
    }
  }

  lemma {:induction false} EntriesToPrefix(g: Graph, t: TypeId, n: nat)
    requires WellFounded(g) && t in g && g[t].kind.Struct? && n <= |g[t].kind.fields|
    ensures EntriesTo(g, t, n) <= Entries(g, t)
    decreases |g[t].kind.fields| - n
  {
    if n < |g[t].kind.fields| {
      EntriesToPrefix(g, t, n + 1);
      assert EntriesTo(g, t, n) <= EntriesTo(g, t, n + 1);
    }
  }

  /** A name has its struct, and the definition under it, once filled, describes one that bears it. */
  ghost predicate DefinitionOk(g: Graph, names: Names, k: string, body: Option<Schema>)
    requires WellFormed(g)
  {
    if body.Some? then exists v :: Bears(g, names, k, body.value, v)
    else exists v :: v in names && names[v] == k
  }

  ghost predicate NameOk(g: Graph, spell: TypeId -> Spelling, names: Names, u: TypeId)
    requires u in names
  {
    PlainStruct(g, u) && Recursive(g, u) && (names[u] == spell(u).short || names[u] == spell(u).long)
  }

  ghost predicate Injective(names: Names) {
    forall a, b :: a in names && b in names && names[a] == names[b] ==> a == b
  }

  /** The registry of recursive types: recursive structs only, one name each and each name under
      "definitions", every definition reserved or describing a struct of its name; and no name twice,
      when the structs are spelled apart. */
  ghost predicate Registry(g: Graph, spell: TypeId -> Spelling, names: Names, defs: Definitions) {
    && WellFormed(g)
    && (forall u {:trigger NameOk(g, spell, names, u)} :: u in names ==> NameOk(g, spell, names, u))
    && (forall u :: u in names ==> names[u] in defs)
    && (forall k {:trigger DefinitionOk(g, names, k, defs[k])} :: k in defs ==> DefinitionOk(g, names, k, defs[k]))
    && (SpelledApart(g, spell) ==> Injective(names))
  }

  /** The name chosen for a new type: the short spelling unless another type holds it. */
  function Choose(spell: TypeId -> Spelling, names: Names, t: TypeId): string {
    if exists other :: other in names && names[other] == spell(t).short && other != t
    then spell(t).long else spell(t).short
  }

  /** Exactly when the choice is free: the generator tries the short spelling and then the long one, and
      does not check the second. */
  lemma {:induction false} ChosenIsFreeIff(g: Graph, spell: TypeId -> Spelling, names: Names, defs: Definitions, t: TypeId)
    requires Registry(g, spell, names, defs) && t !in names
    ensures Choose(spell, names, t) == if spell(t).short in defs then spell(t).long else spell(t).short
    ensures Choose(spell, names, t) !in defs <==> !(spell(t).short in defs && spell(t).long in defs)
    ensures Injective(names) ==>
      (Injective(names[t := Choose(spell, names, t)]) <==> !(spell(t).short in defs && spell(t).long in defs))
  {
    hide RendersStruct, Recursive, SpelledApart;
    HeldIffDefined(g, spell, names, defs, spell(t).short);
    HeldIffDefined(g, spell, names, defs, spell(t).long);
    var chosen := Choose(spell, names, t);
    if u :| u in names && names[u] == chosen {
      assert names[t := chosen][u] == names[t := chosen][t];
    }
  }

  lemma {:induction false} HeldIffDefined(g: Graph, spell: TypeId -> Spelling, names: Names, defs: Definitions, k: string)
    requires Registry(g, spell, names, defs)
    ensures k in defs <==> exists u :: u in names && names[u] == k
  {
    hide RendersStruct, Recursive, SpelledApart;
    if k in defs {
      assert DefinitionOk(g, names, k, defs[k]);
    }
  }

  /** Spelled apart, a recursive struct finds a free name. */
  lemma {:induction false} ChosenIsFree(g: Graph, spell: TypeId -> Spelling, names: Names, t: TypeId)
    requires (forall u :: u in names ==> NameOk(g, spell, names, u)) && SpelledApart(g, spell)
    requires PlainStruct(g, t) && Recursive(g, t) && t !in names
    ensures forall u :: u in names ==> names[u] != Choose(spell, names, t)
  {
    hide Recursive;
    forall u | u in names ensures names[u] != Choose(spell, names, t) {
      assert NameOk(g, spell, names, u);
      assert spell(u).long != spell(t).short && spell(t).long != spell(u).short;
    }
  }

  /** A definition keeps describing a struct of its name while more structs are named. */
  lemma {:induction false} DefinitionStaysOk(g: Graph, names: Names, more: Names, k: string, body: Option<Schema>)
    requires WellFormed(g) && DefinitionOk(g, names, k, body)
    requires forall u :: u in names ==> u in more && more[u] == names[u]
    ensures DefinitionOk(g, more, k, body)
  {
    hide RendersStruct;
    if body.Some? {
      var v :| Bears(g, names, k, body.value, v);
      RendersStructMonotone(g, names, more, v, body.value, false);
      assert Bears(g, more, k, body.value, v);
    }
  }

  lemma {:induction false} ReserveKeepsRegistry(g: Graph, spell: TypeId -> Spelling, names: Names, defs: Definitions, t: TypeId, name: string)
    requires Registry(g, spell, names, defs) && PlainStruct(g, t) && Recursive(g, t) && t !in names
    requires name == Choose(spell, names, t)
    ensures Registry(g, spell, names[t := name], defs[name := None])
  {
    hide Recursive, RendersStruct, SpelledApart;
    var more, reserved := names[t := name], defs[name := None];
    forall u | u in more ensures NameOk(g, spell, more, u) {
      assert u != t ==> NameOk(g, spell, names, u);
    }
    forall k | k in reserved ensures DefinitionOk(g, more, k, reserved[k]) {
      if k == name {
        assert more[t] == k;
      } else {
        assert DefinitionOk(g, names, k, defs[k]);
        DefinitionStaysOk(g, names, more, k, defs[k]);
      }
    }
    if SpelledApart(g, spell) {
      ChosenIsFree(g, spell, names, t);
    }
  }

  lemma {:induction false} FillKeepsRegistry(g: Graph, spell: TypeId -> Spelling, names: Names, defs: Definitions, t: TypeId, body: Schema)
    requires Registry(g, spell, names, defs) && t in names && PlainStruct(g, t)
    requires RendersStruct(g, names, t, body, false)
    ensures Registry(g, spell, names, defs[names[t] := Some(body)])
  {
    hide Recursive, RendersStruct, SpelledApart;
    var filled := defs[names[t] := Some(body)];
    assert Bears(g, names, names[t], body, t);
    forall k | k in filled ensures DefinitionOk(g, names, k, filled[k]) {
      assert k != names[t] ==> DefinitionOk(g, names, k, defs[k]);
    }
  }

  lemma {:induction false} GrowsTransitive(n0: Names, d0: Definitions, n1: Names, d1: Definitions, n2: Names, d2: Definitions)
    requires Grows(n0, d0, n1, d1) && Grows(n1, d1, n2, d2)
    ensures Grows(n0, d0, n2, d2)
  {
  }

  /** Reserving, rendering the body and filling it in is growth, too. */
  lemma {:induction false} DefineGrows(n0: Names, d0: Definitions, t: TypeId, name: string, n1: Names, d1: Definitions, body: Schema)
    requires t !in n0 && Grows(n0[t := name], d0[name := None], n1, d1)
    ensures Grows(n0, d0, n1, d1[name := Some(body)]) && t in n1 && n1[t] == name
  {
    assert n0[t := name][t] == name;
  }

  /** Before the first field: nothing of the walk is new, and nothing is collected. */
  lemma {:induction false} NothingCollected(g: Graph, spell: TypeId -> Spelling, names: Names, defs: Definitions, seen: set<TypeId>,
                                            t: TypeId, props: map<string, Schema>)
    requires Registry(g, spell, names, defs) && t in g && g[t].kind.Struct?
    ensures WellFormed(g) && WellFounded(g)
    ensures Grows(names, defs, names, defs)
    ensures Collected(g, names, EntriesTo(g, t, 0), props, props) && Reentered(g, names, seen, EntriesTo(g, t, 0))
  {
    hide Renders, RendersStruct, NameOk, DefinitionOk, SpelledApart, Injective;
  }

  /** One more field is walked and its entries collected. */
  lemma {:induction false} OneMoreField(g: Graph, t: TypeId, n: nat, names0: Names, defs0: Definitions, names1: Names, defs1: Definitions,
                                        names2: Names, defs2: Definitions, seen: set<TypeId>,
                                        p0: map<string, Schema>, p1: map<string, Schema>, p2: map<string, Schema>)
    requires WellFormed(g) && t in g && g[t].kind.Struct? && n < |g[t].kind.fields|
    requires Grows(names0, defs0, names1, defs1) && Grows(names1, defs1, names2, defs2)
    requires Collected(g, names1, EntriesTo(g, t, n), p0, p1) && Collected(g, names2, FieldEntries(g, t, n), p1, p2)
    requires Reentered(g, names1, seen, EntriesTo(g, t, n)) && Reentered(g, names2, seen, FieldEntries(g, t, n))
    ensures Grows(names0, defs0, names2, defs2) && names0.Keys <= names2.Keys
    ensures Collected(g, names2, EntriesTo(g, t, n + 1), p0, p2) && Reentered(g, names2, seen, EntriesTo(g, t, n + 1))
  {
    hide Collected, Entries, FieldEntries, Renders, SelfReferring;
    GrowsTransitive(names0, defs0, names1, defs1, names2, defs2);
    EntriesToPrefix(g, t, n + 1);
    assert Distinct(Entries(g, t));
    CollectedConcat(g, names1, names2, EntriesTo(g, t, n), FieldEntries(g, t, n), p0, p1, p2);
  }

  lemma {:induction false} AllFields(g: Graph, t: TypeId)
    requires WellFounded(g) && t in g && g[t].kind.Struct?
    ensures EntriesTo(g, t, |g[t].kind.fields|) == Entries(g, t)
  {
  }

  /** Every type on the path leads to t. */
  ghost predicate AllLeadTo(g: Graph, seen: set<TypeId>, t: TypeId) {
    forall u :: u in seen ==> Reaches(g, u, t)
  }

  /** Every type on the path is t or leads to it. */
  ghost predicate AllUpTo(g: Graph, seen: set<TypeId>, t: TypeId) {
    forall u :: u in seen ==> u == t || Reaches(g, u, t)
  }

  lemma {:induction false} AllLeadOn(g: Graph, seen: set<TypeId>, t: TypeId, c: TypeId)
    requires AllUpTo(g, seen, t) && Mentions(g, t, c)
    ensures AllLeadTo(g, seen, c)
    ensures Closed(g) && c in g ==> AllUpTo(g, seen, Deref(g, c)) && AllLeadTo(g, seen, Deref(g, c))
  {
    hide Reaches, Mentions;
    forall u | u in seen ensures Reaches(g, u, c) && (Closed(g) && c in g ==> Reaches(g, u, Deref(g, c))) {
      ReachesOn(g, u, t, c);
      if Closed(g) && c in g {
        ReachesThroughPointers(g, u, c);
      }
    }
  }

  lemma {:induction false} AllLeadThrough(g: Graph, seen: set<TypeId>, t: TypeId)
    requires Closed(g) && t in g && AllLeadTo(g, seen, t)
    ensures AllUpTo(g, seen, Deref(g, t)) && AllUpTo(g, seen + {Deref(g, t)}, Deref(g, t))
    ensures Deref(g, t) in seen ==> Recursive(g, Deref(g, t))
  {
    hide Reaches;
    forall u | u in seen ensures Reaches(g, u, Deref(g, t)) {
      ReachesThroughPointers(g, u, t);
    }
  }

  /** Once rendered, t is named if it was on the path or refers to itself; and a struct rendered in full
      has its re-entered field types named. */
  ghost predicate NamedWhenReentered(g: Graph, names: Names, seen: set<TypeId>, t: TypeId)
    requires WellFormed(g) && t in g
  {
    && (t in seen || SelfReferring(g, t) ==> t in names)
    && (PlainStruct(g, t) && t !in seen ==> Reentered(g, names, seen + {t}, Entries(g, t)))
  }

  lemma {:induction false} NamedUnlessStruct(g: Graph, names: Names, seen: set<TypeId>, t: TypeId)
    requires WellFormed(g) && t in g && forall u :: u in seen ==> PlainStruct(g, u)
    ensures !PlainStruct(g, t) ==> forall more: Names {:trigger NamedWhenReentered(g, more, seen, t)} :: NamedWhenReentered(g, more, seen, t)
  {
  }

  lemma {:induction false} NamedAtOnce(g: Graph, names: Names, seen: set<TypeId>, t: TypeId)
    requires WellFormed(g) && t in g && t in seen && t in names
    ensures NamedWhenReentered(g, names, seen, t)
  {
  }

  lemma {:induction false} NamedAsStruct(g: Graph, names: Names, seen: set<TypeId>, t: TypeId)
    requires WellFormed(g) && PlainStruct(g, t) && t !in seen && Reentered(g, names, seen + {t}, Entries(g, t))
    ensures NamedWhenReentered(g, names, seen, t)
  {
  }

  class SchemaCtx {
    const g: Graph
    const spell: TypeId -> Spelling
    var seen: set<TypeId> // the ancestor path
    var names: Names // the recursive types met so far
    var defs: Definitions

    ghost predicate Valid()
      reads this
    {
      Registry(g, spell, names, defs) && (forall u :: u in seen ==> PlainStruct(g, u))
    }

    constructor (g: Graph, spell: TypeId -> Spelling)
      requires WellFormed(g)
      ensures Valid() && this.g == g && this.spell == spell
      ensures seen == {} && names == map[] && defs == map[]
    {
      this.g, this.spell := g, spell;
      seen, names, defs := {}, map[], map[];
    }

    method SchemaFor(t0: TypeId) returns (s: Schema)
      requires Valid() && t0 in g && AllLeadTo(g, seen, t0)
      modifies this
      ensures Valid() && seen == old(seen)
      ensures Grows(old(names), old(defs), names, defs)
      ensures Renders(g, names, t0, s, false)
      ensures NamedWhenReentered(g, names, seen, Deref(g, t0))
      decreases g.Keys - names.Keys, g.Keys - seen, 0, g[t0].height, 1
    {
      hide Recursive, Reaches, NamedWhenReentered, Reentered, AllLeadTo, AllUpTo;
      var t := Deref(g, t0);
      assert ClosedAt(g, t);
      AllLeadThrough(g, seen, t0);
      NamedUnlessStruct(g, names, seen, t);
      if t in seen {
        s := Define(t);
        NamedAtOnce(g, names, seen, t);
        return;
      }
      if g[t].jsonUnmarshaler {
        return ANYTHING;
      }
      if g[t].textUnmarshaler {
        return ANYTHING.(types := [TString]);
      }
      match g[t].kind
      case Struct(_) =>
        seen := seen + {t};
        s := StructSchema(t);
        seen := seen - {t};
        assert seen == old(seen);
        NamedAsStruct(g, names, seen, t);
      case Map(e) =>
        AllLeadOn(g, seen, t, e);
        var inner := SchemaFor(e);
        NullableRenders(g, names, e, inner);
        s := ANYTHING.(types := [TObject], additional := Each(Nullable(inner)));
      case List(e, _) =>
        if g[e].kind.Uint8? {
          return ANYTHING.(types := [TString]);
        }
        AllLeadOn(g, seen, t, e);
        var inner := SchemaFor(e);
        NullableRenders(g, names, e, inner);
        s := ANYTHING.(types := [TArray], items := Some(Nullable(inner)));
      case Str => s := ANYTHING.(types := [TString]);
      case Bool => s := ANYTHING.(types := [TBoolean]);
      case Int => s := ANYTHING.(types := [TInteger]);
      case Uint8 => s := ANYTHING.(types := [TInteger]);
      case Float => s := ANYTHING.(types := [TNumber]);
      case Other => s := ANYTHING;
    }

    /** The caller has put t on the ancestor path. */
    method StructSchema(t: TypeId) returns (s: Schema)
      requires Valid() && PlainStruct(g, t) && AllUpTo(g, seen, t)
      modifies this
      ensures Valid() && seen == old(seen)
      ensures Grows(old(names), old(defs), names, defs)
      ensures RendersStruct(g, names, t, s, false)
      ensures Reentered(g, names, seen, Entries(g, t))
      decreases g.Keys - names.Keys, g.Keys - seen, 1, g[t].height, 2
    {
      var props := CollectStructProps(t, map[]);
      s := ANYTHING.(types := [TObject], properties := props, additional := Forbidden);
    }

    /** Registers t under "definitions", once, and returns a reference to it. */
    method Define(t: TypeId) returns (s: Schema)
      requires Valid() && PlainStruct(g, t) && Recursive(g, t)
      modifies this
      ensures Valid() && seen == old(seen)
      ensures Grows(old(names), old(defs), names, defs)
      ensures t in names && s == RefTo(names[t])
      decreases g.Keys - names.Keys, g.Keys - seen, 0, g[t].height, 0
    {
      if t !in names {
        // Reserving comes first: rendering the body re-enters t.
        var name := Choose(spell, names, t);
        ReserveKeepsRegistry(g, spell, names, defs, t, name);
        names, defs := names[t := name], defs[name := None];
        assert t in g.Keys - old(names.Keys) && t !in g.Keys - names.Keys;
        var outer := seen;
        seen := {t};
        var body := StructSchema(t);
        FillKeepsRegistry(g, spell, names, defs, t, body);
        DefineGrows(old(names), old(defs), t, name, names, defs, body);
        defs := defs[name := Some(body)];
        seen := outer;
      }
      s := RefTo(names[t]);
    }

    /** Flattens the exported fields of t into props, promoted ones included. */
    method CollectStructProps(t: TypeId, props0: map<string, Schema>) returns (props: map<string, Schema>)
      requires Valid() && t in g && g[t].kind.Struct? && AllUpTo(g, seen, t)
      modifies this
      ensures Valid() && seen == old(seen)
      ensures Grows(old(names), old(defs), names, defs)
      ensures Collected(g, names, Entries(g, t), props0, props) && Reentered(g, names, seen, Entries(g, t))
      decreases g.Keys - names.Keys, g.Keys - seen, 1, g[t].height, 1
    {
      hide Registry, Grows, Collected, Entries, EntriesTo, FieldEntries, WellFormed, Reentered, AllUpTo;
      props := props0;
      NothingCollected(g, spell, names, defs, seen, t, props);
      for n := 0 to |g[t].kind.fields|
        invariant Valid() && seen == old(seen)
        invariant Grows(old(names), old(defs), names, defs) && old(names).Keys <= names.Keys
        invariant Collected(g, names, EntriesTo(g, t, n), props0, props) && Reentered(g, names, seen, EntriesTo(g, t, n))
      {
        ghost var names1, defs1, props1 := names, defs, props;
        props := CollectField(t, n, props);
        OneMoreField(g, t, n, old(names), old(defs), names1, defs1, names, defs, seen, props0, props1, props);
      }
      AllFields(g, t);
    }

    /** One turn of that loop. */
    method CollectField(t: TypeId, n: nat, props0: map<string, Schema>) returns (props: map<string, Schema>)
      requires Valid() && t in g && g[t].kind.Struct? && n < |g[t].kind.fields| && AllUpTo(g, seen, t)
      modifies this
      ensures Valid() && seen == old(seen)
      ensures Grows(old(names), old(defs), names, defs)
      ensures Collected(g, names, FieldEntries(g, t, n), props0, props) && Reentered(g, names, seen, FieldEntries(g, t, n))
      decreases g.Keys - names.Keys, g.Keys - seen, 1, g[t].height, 0
    {
      hide AllUpTo, AllLeadTo, Reaches, SelfReferring;
      var f := g[t].kind.fields[n];
      assert ClosedAt(g, t) && EmbeddingDescends(g, t);
      AllLeadOn(g, seen, t, f.ftype);
      if f.tag == "-" {
        return props0;
      }
      if Embedded(g, f) {
        props := CollectStructProps(Deref(g, f.ftype), props0);
        return;
      }
      if !f.exported {
        return props0;
      }
      var inner := SchemaFor(f.ftype);
      NullableRenders(g, names, f.ftype, inner);
      assert NamedWhenReentered(g, names, seen, Deref(g, f.ftype));
      var key := if f.tag == "" then f.name else f.tag;
      props := props0[key := Nullable(inner)];
      assert FieldEntries(g, t, n)[0].key == key;
    }
  }

  /** The whole generator. In the document emitted every reference leads to a filled definition, which
      describes a struct of its name. The references are right if and only if structs that were given one
      name decode alike, and then the document accepts exactly what decodes; which is so whenever the
      recursive structs are spelled apart. How far that is what encoding/json loads is decided by the types.
      `names` is what the run named. */
  method ConfigSchema(g: Graph, spell: TypeId -> Spelling, t: TypeId, title: string, description: string)
    returns (document: Doc, ghost root: Schema, ghost defs: Definitions, ghost names: Names)
    requires WellFormed(g) && t in g
    ensures Described(document, title, description, defs)
    ensures RefsResolve(defs, root) && DefinitionsResolve(defs) && Defines(document, defs)
    ensures forall d :: Accepted(document, d) <==> Accepts(defs, root, d)
    ensures Defined(g, names, defs) && forall u :: u in names ==> NameOk(g, spell, names, u)
    ensures PlainStruct(g, Deref(g, t)) ==> Reentered(g, names, {}, Entries(g, Deref(g, t)))
    ensures ReferencesRight(g, names, defs) <==> SharedAlike(g, names)
    ensures SharedAlike(g, names) ==> forall d :: Accepted(document, d) <==> Decodes(g, t, d)
    ensures SpelledApart(g, spell) ==> SharedAlike(g, names) && forall d :: Accepted(document, d) <==> Decodes(g, t, d)
    ensures SharedAlike(g, names) && KeysDistinct(g) ==>
      && (Honest(g, document, t) <==> AdmitsNull(g, Deref(g, t)) && !Holds(g, Deref(g, t), Tight(g)))
      && (Strict(g, document, t) <==> !Holds(g, Deref(g, t), Loose(g)))
  {
    hide Recursive, Renders, RendersStruct, SpelledApart, Decodes, Accepts, RefsResolve, SharedAlike, ReferencesRight, Entries, Bears, DefinitionOk,
         KeysDistinct, Honest, Strict, Holds, Tight, Loose, AdmitsNull, Document, Described, Defines, Accepted;
    var c := new SchemaCtx(g, spell);
    var rendered := c.SchemaFor(t);
    root, defs, names := rendered, c.defs, c.names;
    document := Document(rendered, title, description, c.defs);
    forall u | u in names ensures NameOk(g, spell, names, u) {
    }
    RunIsDefined(g, spell, names, defs);
    DescribedRefsResolve(g, names, defs, t, root, false);
    forall k | k in defs ensures RefsResolve(defs, defs[k].value) {
      DefinitionRefsResolve(g, names, defs, k);
    }
    DocumentDescribed(root, title, description, defs);
    DocumentDefines(root, title, description, defs);
    forall d ensures Accepted(document, d) <==> Accepts(defs, root, d) {
      DocumentAccepts(root, title, description, defs, d);
    }
    ReferencesRightIffSharedAlike(g, names, defs);
    if SharedAlike(g, names) {
      forall d ensures Accepted(document, d) <==> Decodes(g, t, d) {
        AcceptsIffDecodes(g, names, defs, t, root, false, d);
      }
      if KeysDistinct(g) {
        ParityIff(g, document, t);
      }
    }
  }

  lemma {:induction false} DefinitionRefsResolve(g: Graph, names: Names, defs: Definitions, k: string)
    requires WellFormed(g) && Defined(g, names, defs) && k in defs && defs[k].Some? && DefinitionOk(g, names, k, defs[k])
    ensures RefsResolve(defs, defs[k].value)
  {
    hide RendersStruct, Defined;
    var v :| Bears(g, names, k, defs[k].value, v);
    StructRefsResolve(g, names, defs, v, defs[k].value, false);
  }

  /** After the walk every definition is filled. */
  lemma {:induction false} RunIsDefined(g: Graph, spell: TypeId -> Spelling, names: Names, defs: Definitions)
    requires Registry(g, spell, names, defs) && forall k :: k in defs ==> defs[k].Some?
    ensures Defined(g, names, defs)
    ensures SpelledApart(g, spell) ==> SharedAlike(g, names)
  {
    hide Recursive, Renders, RendersStruct, SpelledApart, WellFormed, Decodes;
    forall u | u in names ensures DefinedFor(g, names, defs, u) {
      assert NameOk(g, spell, names, u);
      assert DefinitionOk(g, names, names[u], defs[names[u]]);
    }
  }
}
