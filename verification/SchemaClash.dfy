/** Two structs of one name: where the generator of configuration schemas (internal/docscheck/jsonschema.go)
    goes wrong. */
module SchemaClash {
  import opened TypeGraph
  import opened JsonDecoder
  import opened JsonSchema
  import opened SchemaMeaning
  import opened SchemaDocument
  import opened SchemaParity
  import opened SchemaGen

  /** Two functions of package main each declare a local type Node, and a configuration holds one of each.
      Go spells both "main.Node", short and long. */
  const CLASH: Graph := map[
    0 := TypeDesc(false, false, Struct([Field("X", "x", false, true, false, 1), Field("Y", "y", false, true, false, 2)]), 0),
    1 := TypeDesc(false, false, Struct([Field("P", "p", false, true, false, 3), Field("Next", "next", false, true, false, 4)]), 0),
    2 := TypeDesc(false, false, Struct([Field("Q", "q", false, true, false, 3), Field("Next", "next", false, true, false, 5)]), 0),
    3 := TypeDesc(false, false, Str, 0),
    4 := TypeDesc(false, false, Pointer(1), 1),
    5 := TypeDesc(false, false, Pointer(2), 1)
  ]

  function ClashSpelling(t: TypeId): Spelling {
    if t == 0 then Spelling("main.Config", "main.Config") else Spelling("main.Node", "main.Node")
  }

  lemma {:induction false} ClashIsClosed()
    ensures WellFounded(CLASH)
    ensures Deref(CLASH, 1) == 1 && Deref(CLASH, 2) == 2 && Deref(CLASH, 4) == 1 && Deref(CLASH, 5) == 2
  {
    forall t | t in CLASH ensures ClosedAt(CLASH, t) {
    }
    NothingEmbedded();
  }

  lemma {:induction false} NothingEmbedded()
    requires Closed(CLASH)
    ensures forall t {:trigger EmbeddingDescends(CLASH, t)} :: t in CLASH ==> EmbeddingDescends(CLASH, t)
  {
    hide Deref, Closed;
    forall t | t in CLASH ensures EmbeddingDescends(CLASH, t) {
    }
  }

  lemma {:induction false} TwoEntries(t: TypeId)
    requires WellFounded(CLASH) && 0 <= t <= 2
    ensures
      var fs := CLASH[t].kind.fields;
      Entries(CLASH, t) == [Entry(fs[0].tag, fs[0].ftype), Entry(fs[1].tag, fs[1].ftype)]
  {
    assert FieldEntries(CLASH, t, 0) == [Entry(CLASH[t].kind.fields[0].tag, CLASH[t].kind.fields[0].ftype)];
    assert FieldEntries(CLASH, t, 1) == [Entry(CLASH[t].kind.fields[1].tag, CLASH[t].kind.fields[1].ftype)];
    assert EntriesTo(CLASH, t, 0) == [];
    assert EntriesTo(CLASH, t, 1) == EntriesTo(CLASH, t, 0) + FieldEntries(CLASH, t, 0);
    assert EntriesTo(CLASH, t, 2) == EntriesTo(CLASH, t, 1) + FieldEntries(CLASH, t, 1);
  }

  lemma {:induction false} ClashIsWellFormed()
    ensures WellFormed(CLASH)
    ensures Entries(CLASH, 0) == [Entry("x", 1), Entry("y", 2)]
    ensures Entries(CLASH, 1) == [Entry("p", 3), Entry("next", 4)]
    ensures Entries(CLASH, 2) == [Entry("q", 3), Entry("next", 5)]
  {
    hide WellFounded, Entries;
    ClashIsClosed();
    TwoEntries(0);
    TwoEntries(1);
    TwoEntries(2);
    forall t | t in CLASH && CLASH[t].kind.Struct? ensures Distinct(Entries(CLASH, t)) {
    }
  }

  /** The one key of a Node that is its own. */
  function OwnKey(v: TypeId): string {
    if v == 1 then "p" else "q"
  }

  /** An object of one key, by the entries of its struct. */
  lemma {:induction false} OneKeyDecodes(g: Graph, u: TypeId, k: string, x: Doc)
    requires WellFormed(g) && PlainStruct(g, u)
    ensures Decodes(g, u, Object(map[k := x])) <==>
      exists i :: 0 <= i < |Entries(g, u)| && Entries(g, u)[i].key == k && DecodesBelow(g, Entries(g, u)[i].ftype, x)
  {
    hide Entries, Loads;
    OneKeyJudged(g, u, k, x);
    NullIsNoOp(g, u, Object(map[k := x]));
  }

  lemma {:induction false} NodesArePlain()
    ensures PlainStruct(CLASH, 1) && PlainStruct(CLASH, 2)
  {
  }

  lemma {:induction false} TextDecodes()
    requires WellFounded(CLASH)
    ensures DecodesBelow(CLASH, 3, Text(""))
  {
    hide WellFounded;
  }

  lemma {:induction false} OwnKeyDecodes(u: TypeId, v: TypeId)
    requires WellFormed(CLASH) && 1 <= u <= 2 && 1 <= v <= 2
    ensures Decodes(CLASH, u, Object(map[OwnKey(v) := Text("")])) <==> u == v
  {
    hide WellFormed, Entries, Decodes, DecodesBelow, PlainStruct;
    NodesArePlain();
    ClashIsWellFormed();
    TextDecodes();
    OneKeyDecodes(CLASH, u, OwnKey(v), Text(""));
    assert Entries(CLASH, v)[0] == Entry(OwnKey(v), 3);
  }

  /** An object schema takes an object of one key, when the key's own schema takes the value. */
  lemma {:induction false} OneKeyAccepted(g: Graph, names: Names, defs: Definitions, v: TypeId, body: Schema, k: string, x: Doc)
    requires WellFormed(g) && PlainStruct(g, v) && RendersStruct(g, names, v, body, false)
    requires k in body.properties && Accepts(defs, body.properties[k], x)
    ensures MeetsKeywords(defs, body, Object(map[k := x])) && body.ref.None? && body.anyOf == []
  {
    hide WellFormed, Entries, Accepts, Renders;
    assert HasType(Object(map[k := x]), body.types[0]);
  }

  lemma {:induction false} PropertyOf(g: Graph, names: Names, v: TypeId, body: Schema, i: nat)
    requires WellFormed(g) && PlainStruct(g, v) && RendersStruct(g, names, v, body, false) && i < |Entries(g, v)|
    ensures Entries(g, v)[i].key in body.properties
    ensures Renders(g, names, Entries(g, v)[i].ftype, body.properties[Entries(g, v)[i].key], true)
  {
    hide Renders;
  }

  lemma {:induction false} OwnKeyAccepted(names: Names, defs: Definitions, v: TypeId, body: Schema)
    requires WellFormed(CLASH) && 1 <= v <= 2 && RendersStruct(CLASH, names, v, body, false)
    ensures MeetsKeywords(defs, body, Object(map[OwnKey(v) := Text("")])) && body.ref.None? && body.anyOf == []
  {
    hide WellFormed, Entries, Accepts, MeetsKeywords, Renders, RendersStruct, DecodesBelow, PlainStruct;
    NodesArePlain();
    ClashIsWellFormed();
    TextDecodes();
    assert Entries(CLASH, v)[0] == Entry(OwnKey(v), 3);
    PropertyOf(CLASH, names, v, body, 0);
    LeafAccepts(CLASH, names, defs, 3, body.properties[OwnKey(v)], true, Text(""));
    OneKeyAccepted(CLASH, names, defs, v, body, OwnKey(v), Text(""));
  }

  lemma {:induction false} BothAreNamed(names: Names)
    requires WellFormed(CLASH) && Reentered(CLASH, names, {}, Entries(CLASH, 0))
    ensures 1 in names && 2 in names
  {
    hide WellFormed, Entries;
    ClashIsClosed();
    ClashIsWellFormed();
    assert Entries(CLASH, 1)[1].ftype == 4 && Entries(CLASH, 2)[1].ftype == 5;
    assert SelfReferring(CLASH, 1) && SelfReferring(CLASH, 2);
    assert Entries(CLASH, 0)[0].ftype == 1 && Entries(CLASH, 0)[1].ftype == 2;
  }

  /** Whatever the generator makes of these types, both Nodes refer to one definition, so that one of them
      refers to a schema that takes a document its decoder refuses. */
  lemma {:induction false} ClashBreaksAReference(names: Names, defs: Definitions) returns (u: TypeId, d: Doc)
    requires WellFormed(CLASH) && Defined(CLASH, names, defs)
    requires forall t :: t in names ==> NameOk(CLASH, ClashSpelling, names, t)
    requires Reentered(CLASH, names, {}, Entries(CLASH, 0))
    ensures 1 in names && 2 in names && names[1] == names[2]
    ensures u in {1, 2} && u in names && u in CLASH && Accepts(defs, RefTo(names[u]), d) && !Decodes(CLASH, u, d)
  {
    hide WellFormed, Entries, Reentered, Recursive, RendersStruct, Decodes, MeetsKeywords, RefTo;
    BothAreNamed(names);
    assert NameOk(CLASH, ClashSpelling, names, 1) && NameOk(CLASH, ClashSpelling, names, 2);
    assert DefinedFor(CLASH, names, defs, 1);
    var body := defs[names[1]].value;
    var v: TypeId :| Bears(CLASH, names, names[1], body, v);
    assert NameOk(CLASH, ClashSpelling, names, v);
    u, d := 3 - v, Object(map[OwnKey(v) := Text("")]);
    OwnKeyDecodes(u, v);
    OwnKeyAccepted(names, defs, v, body);
    RefResolves(names[u]);
  }

  lemma {:induction false} PlainRoot()
    ensures WellFounded(CLASH) && PlainStruct(CLASH, Deref(CLASH, 0)) && Deref(CLASH, 0) == 0
  {
    ClashIsClosed();
  }

  lemma {:induction false} ReferenceToNode(document: Doc, defs: Definitions, d: Doc)
    requires Defines(document, defs) && DefinitionsResolve(defs) && Accepts(defs, RefTo("main.Node"), d)
    ensures Validates(document, Rendered(RefTo("main.Node")), d)
  {
    hide Defines, DefinitionsResolve, Rendered, Validates, MeetsKeywords, Resolve;
    RenderedAccepts(document, defs, RefTo("main.Node"), d);
  }

  /** The run that shows it: both Nodes are given the one name, and what stands under it in the document
      takes a document that one of them refuses. */
  method ClashRun() returns (document: Doc, ghost names: Names)
    ensures WellFormed(CLASH) && 1 in names && 2 in names && names[1] == names[2] == "main.Node"
    ensures exists u: TypeId, d :: u in {1, 2} && u in CLASH && !Decodes(CLASH, u, d)
                                   && Validates(document, Rendered(RefTo("main.Node")), d)
  {
    hide WellFormed, Entries, Reentered, Defined, Recursive, Decodes, Accepts, ReferencesRight, SharedAlike, SpelledApart, RefsResolve,
         DefinitionOk, RefTo, Document, Defines, DefinitionsResolve, Validates, Accepted, Rendered;
    ClashIsWellFormed();
    PlainRoot();
    ghost var root, defs;
    document, root, defs, names := ConfigSchema(CLASH, ClashSpelling, 0, "agent configuration", "");
    ghost var u, d := ClashBreaksAReference(names, defs);
    assert NameOk(CLASH, ClashSpelling, names, u) && NameOk(CLASH, ClashSpelling, names, 1);
    ReferenceToNode(document, defs, d);
  }
}
