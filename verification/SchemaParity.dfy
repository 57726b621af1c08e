/** How far the generated schema (internal/docscheck/jsonschema.go) and encoding/json are of one mind. The
    decoder here has its own rule for the keys of a struct, and for bytes; where the two rules part is
    read off the types. */

/** The decoder of encoding/json with unknown keys disallowed. */
module JsonDecoder {
  import opened TypeGraph

  /** The keys field i of struct t answers to. A field that is not exported is seen only when it embeds a
      struct, and one that embeds a pointer then cannot be set; only the bare tag "-" hides a field; a
      tagged struct is not promoted. */
  function FieldKeys(g: Graph, t: TypeId, i: nat): (es: seq<Entry>)
    requires WellFounded(g) && t in g && g[t].kind.Struct? && i < |g[t].kind.fields|
    ensures forall k :: 0 <= k < |es| ==> es[k].ftype in g
    decreases g[t].height, 0
  {
    var f := g[t].kind.fields[i];
    assert ClosedAt(g, t) && EmbeddingDescends(g, t);
    var embedsStruct := f.anonymous && g[Deref(g, f.ftype)].kind.Struct?;
    if !f.exported && (!embedsStruct || g[f.ftype].kind.Pointer?) then []
    else if f.tag == "-" && !f.comma then []
    else if f.tag != "" || !embedsStruct then [Entry(if f.tag == "" then f.name else f.tag, f.ftype)]
    else Keys(g, Deref(g, f.ftype))
  }

  function KeysTo(g: Graph, t: TypeId, n: nat): (es: seq<Entry>)
    requires WellFounded(g) && t in g && g[t].kind.Struct? && n <= |g[t].kind.fields|
    ensures forall k :: 0 <= k < |es| ==> es[k].ftype in g
    decreases g[t].height, 1, n
  {
    if n == 0 then [] else KeysTo(g, t, n - 1) + FieldKeys(g, t, n - 1)
  }

  function Keys(g: Graph, t: TypeId): (es: seq<Entry>)
    requires WellFounded(g) && t in g && g[t].kind.Struct?
    ensures forall i :: 0 <= i < |es| ==> es[i].ftype in g
    decreases g[t].height, 2
  {
    KeysTo(g, t, |g[t].kind.fields|)
  }

  /** No struct answers to one key twice. */
  ghost predicate KeysDistinct(g: Graph)
    requires WellFounded(g)
  {
    forall t {:trigger Keys(g, t)} :: t in g && g[t].kind.Struct? ==> Distinct(Keys(g, t))
  }

  /** What the binary loads. A null is a no-op everywhere; a slice of bytes is base64 text or an array of
      numbers, an array of bytes the latter alone. */
  ghost predicate Loads(g: Graph, t: TypeId, d: Doc)
    requires WellFounded(g) && t in g
    decreases d
  {
    var u := Deref(g, t);
    assert ClosedAt(g, u);
    if d.Null? || g[u].jsonUnmarshaler then true
    else if g[u].textUnmarshaler then d.Text?
    else
      match g[u].kind
      case Struct(_) =>
        d.Object? &&
        forall k :: k in d.members ==>
                      exists i :: 0 <= i < |Keys(g, u)| && Keys(g, u)[i].key == k && Loads(g, Keys(g, u)[i].ftype, d.members[k])
      case Map(e) => d.Object? && forall k :: k in d.members ==> Loads(g, e, d.members[k])
      case List(e, fixed) =>
        || (d.Text? && g[e].kind.Uint8? && !fixed)
        || (d.Array? && forall i :: 0 <= i < |d.items| ==> Loads(g, e, d.items[i]))
      case Str => d.Text?
      case Bool => d.Boolean?
      case Int => d.Integer?
      case Uint8 => d.Integer?
      case Float => d.Integer? || d.Fraction?
      case Other => true
      case Pointer(_) => true // dereferenced above
  }
}

module SchemaParity {
  import opened TypeGraph
  import opened JsonDecoder
  import opened JsonSchema
  import opened SchemaMeaning
  import opened SchemaDocument

  /** Field i of struct t, or one it promotes, is skipped by the generator though its key loads: tagged with
      "-" and a comma, or a tagged embedded struct that is not exported. */
  predicate SkipsAt(g: Graph, t: TypeId, i: nat)
    requires WellFounded(g) && t in g && g[t].kind.Struct? && i < |g[t].kind.fields|
    decreases g[t].height, 0
  {
    var f := g[t].kind.fields[i];
    assert ClosedAt(g, t) && EmbeddingDescends(g, t);
    var hidden := !f.exported && f.anonymous && g[f.ftype].kind.Struct?;
    if Embedded(g, f) then Skips(g, Deref(g, f.ftype), |g[Deref(g, f.ftype)].kind.fields|)
    else (f.tag == "-" && f.comma && (f.exported || hidden)) || (f.tag != "" && f.tag != "-" && hidden)
  }

  predicate Skips(g: Graph, t: TypeId, n: nat)
    requires WellFounded(g) && t in g && g[t].kind.Struct? && n <= |g[t].kind.fields|
    decreases g[t].height, 1, n
  {
    n > 0 && (Skips(g, t, n - 1) || SkipsAt(g, t, n - 1))
  }

  predicate ByteList(g: Graph, u: TypeId)
    requires Closed(g) && u in g
  {
    assert ClosedAt(g, u);
    g[u].kind.List? && g[g[u].kind.elem].kind.Uint8?
  }

  predicate Custom(g: Graph, u: TypeId)
    requires u in g
  {
    g[u].jsonUnmarshaler || g[u].textUnmarshaler
  }

  /** The types the generator renders too tightly, read off the declarations: a struct with a skipped field,
      and a list of bytes, which it takes for text alone. */
  function Tight(g: Graph): set<TypeId>
    requires WellFounded(g)
  {
    set u | u in g && !Custom(g, u)
            && (ByteList(g, u) || (g[u].kind.Struct? && Skips(g, u, |g[u].kind.fields|)))
  }

  /** The types it renders too loosely: an array of bytes loads no text. */
  function Loose(g: Graph): set<TypeId>
    requires WellFounded(g)
  {
    set u | u in g && !Custom(g, u) && ByteList(g, u) && g[u].kind.fixed
  }

  /** Type v is what a value of u is made of, pointers followed. */
  ghost predicate MadeOf(g: Graph, u: TypeId, v: TypeId)
    requires WellFounded(g)
  {
    u in g && !Custom(g, u) &&
    (assert ClosedAt(g, u);
     match g[u].kind
     case Struct(_) => exists i :: 0 <= i < |Entries(g, u)| && Deref(g, Entries(g, u)[i].ftype) == v
     case Map(e) => Deref(g, e) == v
     case List(e, _) => !g[e].kind.Uint8? && Deref(g, e) == v
     case _ => false)
  }

  ghost predicate Chain(g: Graph, p: seq<TypeId>)
    requires WellFounded(g)
  {
    forall i :: 0 <= i < |p| - 1 ==> MadeOf(g, p[i], p[i + 1])
  }

  /** A value of type u can hold one of a type in `bad`, at any depth. */
  ghost predicate Holds(g: Graph, u: TypeId, bad: set<TypeId>)
    requires WellFounded(g)
  {
    exists p {:trigger Chain(g, p)} :: |p| > 0 && p[0] == u && p[|p| - 1] in bad && Chain(g, p)
  }

  lemma {:induction false} HoldsOn(g: Graph, u: TypeId, v: TypeId, bad: set<TypeId>)
    requires WellFounded(g) && MadeOf(g, u, v) && Holds(g, v, bad)
    ensures Holds(g, u, bad)
  {
    hide MadeOf;
    var p :| |p| > 0 && p[0] == v && p[|p| - 1] in bad && Chain(g, p);
    var q := [u] + p;
    forall i | 0 <= i < |q| - 1 ensures MadeOf(g, q[i], q[i + 1]) {
      assert i > 0 ==> MadeOf(g, p[i - 1], p[i]);
    }
    assert Chain(g, q);
  }

  lemma {:induction false} HoldsItself(g: Graph, u: TypeId, bad: set<TypeId>)
    requires WellFounded(g) && u in bad
    ensures Holds(g, u, bad)
  {
    assert Chain(g, [u]);
  }

  ghost predicate Within(es: seq<Entry>, ks: seq<Entry>) {
    forall e :: e in es ==> e in ks
  }

  /** Some key is known to one list alone. */
  ghost predicate Exceeds(ks: seq<Entry>, es: seq<Entry>) {
    exists j :: 0 <= j < |ks| && forall i :: 0 <= i < |es| ==> es[i].key != ks[j].key
  }

  /** What one field adds to the two lists: the decoder knows what the generator does, more exactly when the
      field is skipped, and the same otherwise. */
  ghost predicate Compared(ks: seq<Entry>, es: seq<Entry>, skips: bool) {
    && Within(es, ks)
    && (!skips ==> ks == es)
    && (skips && Distinct(ks) ==> Exceeds(ks, es))
  }

  lemma {:induction false} ExceedsConcat(k1: seq<Entry>, e1: seq<Entry>, k2: seq<Entry>, e2: seq<Entry>)
    requires Within(e1, k1) && Within(e2, k2) && Distinct(k1 + k2)
    requires Exceeds(k1, e1) || Exceeds(k2, e2)
    ensures Exceeds(k1 + k2, e1 + e2)
  {
    var ks, es := k1 + k2, e1 + e2;
    if Exceeds(k1, e1) {
      var j :| 0 <= j < |k1| && forall i :: 0 <= i < |e1| ==> e1[i].key != k1[j].key;
      forall i | 0 <= i < |es| ensures es[i].key != ks[j].key {
        if i >= |e1| {
          assert e2[i - |e1|] in k2;
          var m :| 0 <= m < |k2| && k2[m] == e2[i - |e1|];
          assert ks[|k1| + m] == es[i];
        }
      }
      assert ks[j] == k1[j];
    } else {
      var j :| 0 <= j < |k2| && forall i :: 0 <= i < |e2| ==> e2[i].key != k2[j].key;
      assert ks[|k1| + j] == k2[j];
      forall i | 0 <= i < |es| ensures es[i].key != ks[|k1| + j].key {
        if i < |e1| {
          assert e1[i] in k1;
          var m :| 0 <= m < |k1| && k1[m] == e1[i];
          assert ks[m] == es[i];
        }
      }
    }
  }

  lemma {:induction false} ComparedConcat(k1: seq<Entry>, e1: seq<Entry>, s1: bool, k2: seq<Entry>, e2: seq<Entry>, s2: bool)
    requires Compared(k1, e1, s1) && Compared(k2, e2, s2)
    ensures Compared(k1 + k2, e1 + e2, s1 || s2)
  {
    hide Exceeds;
    if Distinct(k1 + k2) && (s1 || s2) {
      var ks := k1 + k2;
      assert Distinct(k1) by {
        forall i, j | 0 <= i < j < |k1| ensures k1[i].key != k1[j].key {
          assert ks[i] == k1[i] && ks[j] == k1[j];
        }
      }
      assert Distinct(k2) by {
        forall i, j | 0 <= i < j < |k2| ensures k2[i].key != k2[j].key {
          assert ks[|k1| + i] == k2[i] && ks[|k1| + j] == k2[j];
        }
      }
      ExceedsConcat(k1, e1, k2, e2);
    }
  }

  /** The two key rules, field by field: they part exactly at the skipped fields. */
  lemma {:induction false} FieldCompared(g: Graph, t: TypeId, i: nat)
    requires WellFounded(g) && t in g && g[t].kind.Struct? && i < |g[t].kind.fields|
    ensures Compared(FieldKeys(g, t, i), FieldEntries(g, t, i), SkipsAt(g, t, i))
    decreases g[t].height, 0
  {
    hide Skips, Compared;
    var f := g[t].kind.fields[i];
    assert ClosedAt(g, t) && EmbeddingDescends(g, t);
    if Embedded(g, f) {
      var u := Deref(g, f.ftype);
      StructCompared(g, u, |g[u].kind.fields|);
    } else if SkipsAt(g, t, i) {
      OneSkipped(FieldKeys(g, t, i)[0]);
    } else {
      NoneSkipped(FieldKeys(g, t, i));
    }
  }

  lemma {:induction false} StructCompared(g: Graph, t: TypeId, n: nat)
    requires WellFounded(g) && t in g && g[t].kind.Struct? && n <= |g[t].kind.fields|
    ensures Compared(KeysTo(g, t, n), EntriesTo(g, t, n), Skips(g, t, n))
    decreases g[t].height, 1, n
  {
    hide Compared, FieldKeys, FieldEntries, SkipsAt;
    if n == 0 {
      NoneSkipped([]);
    } else {
      StructCompared(g, t, n - 1);
      FieldCompared(g, t, n - 1);
      ComparedConcat(KeysTo(g, t, n - 1), EntriesTo(g, t, n - 1), Skips(g, t, n - 1),
                     FieldKeys(g, t, n - 1), FieldEntries(g, t, n - 1), SkipsAt(g, t, n - 1));
    }
  }

  lemma {:induction false} NoneSkipped(es: seq<Entry>)
    ensures Compared(es, es, false)
  {
  }

  lemma {:induction false} OneSkipped(e: Entry)
    ensures Compared([e], [], true)
  {
    assert [e][0].key == e.key;
  }

  /** The graphs on which both sides know each key once. */
  ghost predicate ClearKeys(g: Graph) {
    WellFormed(g) && KeysDistinct(g)
  }

  lemma {:induction false} KeysCompared(g: Graph, u: TypeId)
    requires ClearKeys(g) && u in g && g[u].kind.Struct?
    ensures Distinct(Keys(g, u)) && Distinct(Entries(g, u)) && Within(Entries(g, u), Keys(g, u))
    ensures
      if Skips(g, u, |g[u].kind.fields|) then Exceeds(Keys(g, u), Entries(g, u)) else Keys(g, u) == Entries(g, u)
  {
    hide Exceeds, Distinct, Skips;
    StructCompared(g, u, |g[u].kind.fields|);
  }

  /** Pointers change nothing. */
  lemma {:induction false} PointersFollowed(g: Graph, t: TypeId, d: Doc)
    requires WellFounded(g) && t in g
    ensures DecodesBelow(g, t, d) <==> DecodesBelow(g, Deref(g, t), d)
    ensures Loads(g, t, d) <==> Loads(g, Deref(g, t), d)
  {
    assert Deref(g, Deref(g, t)) == Deref(g, t);
  }

  /** For what type u is made of: what the schema stands for is loaded, where u holds no array of bytes; and
      nothing else is, where u holds nothing the generator renders too tightly. */
  ghost predicate FitsIn(g: Graph, u: TypeId, t: TypeId, d: Doc)
    requires WellFounded(g) && t in g
  {
    && (!Holds(g, u, Loose(g)) && DecodesBelow(g, t, d) ==> Loads(g, t, d))
    && (!Holds(g, u, Tight(g)) && Loads(g, t, d) ==> DecodesBelow(g, t, d))
  }

  lemma {:induction false} PartFits(g: Graph, u: TypeId, e: TypeId, d: Doc)
    requires WellFounded(g) && e in g && MadeOf(g, u, Deref(g, e)) && FitsIn(g, Deref(g, e), e, d)
    ensures FitsIn(g, u, e, d)
  {
    hide Holds, MadeOf, Loose, Tight, DecodesBelow, Loads;
    if Holds(g, Deref(g, e), Loose(g)) {
      HoldsOn(g, u, Deref(g, e), Loose(g));
    }
    if Holds(g, Deref(g, e), Tight(g)) {
      HoldsOn(g, u, Deref(g, e), Tight(g));
    }
  }

  lemma {:induction false} EachFits(g: Graph, t: TypeId, d: Doc)
    requires ClearKeys(g) && t in g
    ensures FitsIn(g, Deref(g, t), t, d)
    decreases d, 1
  {
    hide KeysDistinct, Loads, DecodesBelow, Holds, Loose, Tight;
    var u := Deref(g, t);
    assert ClosedAt(g, u);
    PointersFollowed(g, t, d);
    if d.Null? || Custom(g, u) || Scalar(g, u) {
      PlainlyJudged(g, u, d);
    } else if g[u].kind.Struct? {
      StructFits(g, u, d);
    } else if g[u].kind.Map? {
      MapFits(g, u, d);
    } else {
      ListFits(g, u, d);
    }
  }

  predicate Scalar(g: Graph, u: TypeId)
    requires u in g
  {
    !(g[u].kind.Struct? || g[u].kind.Map? || g[u].kind.List?)
  }

  /** Documents judged without looking inside. */
  lemma {:induction false} PlainlyJudged(g: Graph, u: TypeId, d: Doc)
    requires WellFounded(g) && u in g && !g[u].kind.Pointer?
    requires d.Null? || Custom(g, u) || Scalar(g, u)
    ensures Loads(g, u, d) <==> DecodesBelow(g, u, d)
  {
    assert ClosedAt(g, u);
  }

  lemma {:induction false} StructFits(g: Graph, u: TypeId, d: Doc)
    requires ClearKeys(g) && PlainStruct(g, u) && !d.Null?
    ensures FitsIn(g, u, u, d)
    decreases d, 0
  {
    hide KeysDistinct, Holds, Skips, Distinct, Exceeds, Entries, Keys, MadeOf;
    KeysCompared(g, u);
    assert !Holds(g, u, Tight(g)) ==> Keys(g, u) == Entries(g, u) by {
      if Skips(g, u, |g[u].kind.fields|) {
        HoldsItself(g, u, Tight(g));
      }
    }
    hide Tight, Loose;
    if d.Object? {
      forall k | k in d.members ensures MemberFits(g, u, k, d.members[k]) {
        forall i | 0 <= i < |Entries(g, u)| ensures FitsIn(g, u, Entries(g, u)[i].ftype, d.members[k]) {
          EachFits(g, Entries(g, u)[i].ftype, d.members[k]);
          FieldIsPart(g, u, i);
          PartFits(g, u, Entries(g, u)[i].ftype, d.members[k]);
        }
        EntryFits(g, u, k, d.members[k]);
      }
      ObjectJudged(g, u, d);
    } else {
      ObjectJudged(g, u, d);
    }
  }

  ghost predicate Decoded(g: Graph, u: TypeId, k: string, x: Doc)
    requires WellFounded(g) && u in g && g[u].kind.Struct?
  {
    exists i :: 0 <= i < |Entries(g, u)| && Entries(g, u)[i].key == k && DecodesBelow(g, Entries(g, u)[i].ftype, x)
  }

  ghost predicate Loaded(g: Graph, u: TypeId, k: string, x: Doc)
    requires WellFounded(g) && u in g && g[u].kind.Struct?
  {
    exists i :: 0 <= i < |Keys(g, u)| && Keys(g, u)[i].key == k && Loads(g, Keys(g, u)[i].ftype, x)
  }

  ghost predicate MemberFits(g: Graph, u: TypeId, k: string, x: Doc)
    requires WellFounded(g) && u in g && g[u].kind.Struct?
  {
    && (!Holds(g, u, Loose(g)) && Decoded(g, u, k, x) ==> Loaded(g, u, k, x))
    && (!Holds(g, u, Tight(g)) && Loaded(g, u, k, x) ==> Decoded(g, u, k, x))
  }

  /** An object is judged member by member. */
  lemma {:induction false} ObjectJudged(g: Graph, u: TypeId, d: Doc)
    requires WellFounded(g) && PlainStruct(g, u) && !d.Null?
    ensures DecodesBelow(g, u, d) <==> d.Object? && forall k :: k in d.members ==> Decoded(g, u, k, d.members[k])
    ensures Loads(g, u, d) <==> d.Object? && forall k :: k in d.members ==> Loaded(g, u, k, d.members[k])
  {
    hide Entries, Keys;
    assert ClosedAt(g, u);
  }

  /** An object of one key. */
  lemma {:induction false} OneKeyJudged(g: Graph, u: TypeId, k: string, x: Doc)
    requires WellFounded(g) && PlainStruct(g, u)
    ensures DecodesBelow(g, u, Object(map[k := x])) <==> Decoded(g, u, k, x)
    ensures Loads(g, u, Object(map[k := x])) <==> Loaded(g, u, k, x)
  {
    hide Decoded, Loaded, DecodesBelow, Loads;
    var d := Object(map[k := x]);
    ObjectJudged(g, u, d);
    assert d.members[k] == x && forall j :: j in d.members <==> j == k;
  }

  lemma {:induction false} FieldIsPart(g: Graph, u: TypeId, i: nat)
    requires WellFounded(g) && PlainStruct(g, u) && i < |Entries(g, u)|
    ensures MadeOf(g, u, Deref(g, Entries(g, u)[i].ftype))
  {
    hide Entries;
    assert ClosedAt(g, u);
  }

  lemma {:induction false} EntryFits(g: Graph, u: TypeId, k: string, x: Doc)
    requires WellFounded(g) && PlainStruct(g, u) && Within(Entries(g, u), Keys(g, u))
    requires !Holds(g, u, Tight(g)) ==> Keys(g, u) == Entries(g, u)
    requires forall i :: 0 <= i < |Entries(g, u)| ==> FitsIn(g, u, Entries(g, u)[i].ftype, x)
    ensures MemberFits(g, u, k, x)
  {
    hide Holds, Tight, Loose, Entries, Keys, DecodesBelow, Loads;
    if !Holds(g, u, Loose(g)) && Decoded(g, u, k, x) {
      var i :| 0 <= i < |Entries(g, u)| && Entries(g, u)[i].key == k && DecodesBelow(g, Entries(g, u)[i].ftype, x);
      assert Entries(g, u)[i] in Keys(g, u);
      var j :| 0 <= j < |Keys(g, u)| && Keys(g, u)[j] == Entries(g, u)[i];
    }
  }

  /** A map is judged member by member, a list item by item; bytes differ. */
  lemma {:induction false} ContainerJudged(g: Graph, u: TypeId, d: Doc)
    requires WellFounded(g) && u in g && ClosedAt(g, u) && !Custom(g, u) && !d.Null?
    ensures
      match g[u].kind
      case Map(e) =>
        && (DecodesBelow(g, u, d) <==> d.Object? && forall k :: k in d.members ==> DecodesBelow(g, e, d.members[k]))
        && (Loads(g, u, d) <==> d.Object? && forall k :: k in d.members ==> Loads(g, e, d.members[k]))
      case List(e, fixed) =>
        && (DecodesBelow(g, u, d) <==>
              if g[e].kind.Uint8? then d.Text?
              else d.Array? && forall i :: 0 <= i < |d.items| ==> DecodesBelow(g, e, d.items[i]))
        && (Loads(g, u, d) <==>
              || (d.Text? && g[e].kind.Uint8? && !fixed)
              || (d.Array? && forall i :: 0 <= i < |d.items| ==> Loads(g, e, d.items[i])))
      case _ => true
  {
    if g[u].kind.Map? || g[u].kind.List? {
      assert Deref(g, u) == u;
    }
  }

  lemma {:induction false} MapFits(g: Graph, u: TypeId, d: Doc)
    requires ClearKeys(g) && u in g && !Custom(g, u) && g[u].kind.Map? && !d.Null?
    ensures FitsIn(g, u, u, d)
    decreases d, 0
  {
    hide KeysDistinct, Holds, Loose, Tight, Loads, DecodesBelow;
    var e := g[u].kind.elem;
    assert ClosedAt(g, u);
    ContainerJudged(g, u, d);
    if d.Object? {
      forall k | k in d.members ensures FitsIn(g, u, e, d.members[k]) {
        EachFits(g, e, d.members[k]);
        PartFits(g, u, e, d.members[k]);
      }
    }
  }

  lemma {:induction false} ListFits(g: Graph, u: TypeId, d: Doc)
    requires ClearKeys(g) && u in g && !Custom(g, u) && g[u].kind.List? && !d.Null?
    ensures FitsIn(g, u, u, d)
    decreases d, 0
  {
    hide KeysDistinct, Holds, Loads, DecodesBelow;
    var e := g[u].kind.elem;
    assert ClosedAt(g, u);
    ContainerJudged(g, u, d);
    if ByteList(g, u) {
      HoldsItself(g, u, Tight(g));
      if g[u].kind.fixed {
        HoldsItself(g, u, Loose(g));
      }
    } else if d.Array? {
      forall i | 0 <= i < |d.items| ensures FitsIn(g, u, e, d.items[i]) {
        EachFits(g, e, d.items[i]);
        PartFits(g, u, e, d.items[i]);
      }
    }
  }

  /** A value of type u in which x stands for the part of type v. */
  lemma {:induction false} Wrap(g: Graph, u: TypeId, v: TypeId, x: Doc) returns (d: Doc)
    requires ClearKeys(g) && MadeOf(g, u, v) && v in g && !x.Null?
    ensures !d.Null?
    ensures DecodesBelow(g, u, d) <==> DecodesBelow(g, v, x)
    ensures Loads(g, u, d) <==> Loads(g, v, x)
  {
    hide KeysDistinct, Entries, Keys;
    assert ClosedAt(g, u);
    match g[u].kind
    case Struct(_) =>
      var i :| 0 <= i < |Entries(g, u)| && Deref(g, Entries(g, u)[i].ftype) == v;
      d := Object(map[Entries(g, u)[i].key := x]);
      FieldWrapped(g, u, i, x);
      PointersFollowed(g, Entries(g, u)[i].ftype, x);
    case Map(e) =>
      d := Object(map["" := x]);
      PointersFollowed(g, e, x);
      assert d.members[""] == x;
    case List(e, _) =>
      d := Array([x]);
      PointersFollowed(g, e, x);
      assert d.items[0] == x;
  }

  lemma {:induction false} FieldWrapped(g: Graph, u: TypeId, i: nat, x: Doc)
    requires ClearKeys(g) && PlainStruct(g, u) && i < |Entries(g, u)|
    ensures
      var d := Object(map[Entries(g, u)[i].key := x]);
      && (DecodesBelow(g, u, d) <==> DecodesBelow(g, Entries(g, u)[i].ftype, x))
      && (Loads(g, u, d) <==> Loads(g, Entries(g, u)[i].ftype, x))
  {
    hide KeysDistinct, Entries, Keys, DecodesBelow, Loads, Exceeds, Skips;
    var e := Entries(g, u)[i];
    KeysCompared(g, u);
    OneKeyJudged(g, u, e.key, x);
    assert e in Keys(g, u);
    var j :| 0 <= j < |Keys(g, u)| && Keys(g, u)[j] == e;
  }

  /** On a type rendered too tightly, a document that loads and is not accepted. */
  lemma {:induction false} TightlyRefused(g: Graph, u: TypeId) returns (d: Doc)
    requires ClearKeys(g) && u in g && u in Tight(g)
    ensures !d.Null? && Loads(g, u, d) && !DecodesBelow(g, u, d)
  {
    hide KeysDistinct, Skips, Keys, Entries, Loads, DecodesBelow;
    assert ClosedAt(g, u);
    if ByteList(g, u) {
      d := Array([]);
      ContainerJudged(g, u, d);
    } else {
      KeysCompared(g, u);
      var j :| 0 <= j < |Keys(g, u)| && forall i :: 0 <= i < |Entries(g, u)| ==> Entries(g, u)[i].key != Keys(g, u)[j].key;
      var k := Keys(g, u)[j].key;
      d := Object(map[k := Null]);
      OneKeyJudged(g, u, k, Null);
      NullIsNoOp(g, Keys(g, u)[j].ftype, Null);
    }
  }

  /** On an array of bytes, a document that is accepted and does not load. */
  lemma {:induction false} LooselyAccepted(g: Graph, u: TypeId)
    requires ClearKeys(g) && u in g && u in Loose(g)
    ensures DecodesBelow(g, u, Text("")) && !Loads(g, u, Text(""))
  {
    assert ClosedAt(g, u);
  }

  /** The two judgments differ on a document of any type that leads to one where they do. */
  lemma {:induction false} WrapAlong(g: Graph, p: seq<TypeId>, x: Doc) returns (d: Doc)
    requires ClearKeys(g) && |p| > 0 && Chain(g, p) && p[|p| - 1] in g && !x.Null?
    ensures p[0] in g && !d.Null?
    ensures DecodesBelow(g, p[0], d) <==> DecodesBelow(g, p[|p| - 1], x)
    ensures Loads(g, p[0], d) <==> Loads(g, p[|p| - 1], x)
  {
    hide KeysDistinct, MadeOf, DecodesBelow, Loads;
    if |p| == 1 {
      d := x;
    } else {
      var q := p[1..];
      forall i | 0 <= i < |q| - 1 ensures MadeOf(g, q[i], q[i + 1]) {
        assert MadeOf(g, p[i + 1], p[i + 2]);
      }
      d := WrapAlong(g, q, x);
      assert MadeOf(g, p[0], p[1]);
      InGraph(g, p[0], p[1]);
      d := Wrap(g, p[0], p[1], d);
    }
  }

  lemma {:induction false} InGraph(g: Graph, u: TypeId, v: TypeId)
    requires WellFounded(g) && MadeOf(g, u, v)
    ensures u in g
  {
  }

  ghost predicate NothingLost(g: Graph, t: TypeId)
    requires WellFounded(g) && t in g
  {
    forall d :: Loads(g, t, d) ==> DecodesBelow(g, t, d)
  }

  ghost predicate NothingLoose(g: Graph, t: TypeId)
    requires WellFounded(g) && t in g
  {
    forall d :: DecodesBelow(g, t, d) ==> Loads(g, t, d)
  }

  /** Below the root, everything that loads is described exactly for the types that hold nothing rendered
      too tightly. */
  lemma {:induction false} HonestIff(g: Graph, t: TypeId)
    requires ClearKeys(g) && t in g
    ensures NothingLost(g, t) <==> !Holds(g, Deref(g, t), Tight(g))
  {
    hide KeysDistinct, Loads, DecodesBelow, Tight, Chain, MadeOf;
    var u := Deref(g, t);
    if Holds(g, u, Tight(g)) {
      var p :| |p| > 0 && p[0] == u && p[|p| - 1] in Tight(g) && Chain(g, p);
      InTight(g, p[|p| - 1]);
      var x := TightlyRefused(g, p[|p| - 1]);
      var d := WrapAlong(g, p, x);
      PointersFollowed(g, t, d);
    } else {
      forall d ensures Loads(g, t, d) ==> DecodesBelow(g, t, d) {
        EachFits(g, t, d);
      }
    }
  }

  lemma {:induction false} InTight(g: Graph, u: TypeId)
    requires WellFounded(g) && u in Tight(g) + Loose(g)
    ensures u in g
  {
  }

  /** Nothing else is described exactly for the types that hold no array of bytes. */
  lemma {:induction false} StrictIff(g: Graph, t: TypeId)
    requires ClearKeys(g) && t in g
    ensures NothingLoose(g, t) <==> !Holds(g, Deref(g, t), Loose(g))
  {
    hide KeysDistinct, Loads, DecodesBelow, Loose, Chain, MadeOf;
    var u := Deref(g, t);
    if Holds(g, u, Loose(g)) {
      var p :| |p| > 0 && p[0] == u && p[|p| - 1] in Loose(g) && Chain(g, p);
      InTight(g, p[|p| - 1]);
      LooselyAccepted(g, p[|p| - 1]);
      var d := WrapAlong(g, p, Text(""));
      PointersFollowed(g, t, d);
    } else {
      forall d ensures DecodesBelow(g, t, d) ==> Loads(g, t, d) {
        EachFits(g, t, d);
      }
    }
  }

  /** Schema and decoder agree, but for a null at the root, which always loads. */
  ghost predicate NullAside(g: Graph, document: Doc, t: TypeId, d: Doc)
    requires WellFounded(g) && t in g
  {
    && (d.Null? ==> Loads(g, t, d) && DecodesBelow(g, t, d))
    && (!d.Null? ==> (Accepted(document, d) <==> DecodesBelow(g, t, d)))
  }

  lemma {:induction false} NullIsNoOp(g: Graph, t: TypeId, d: Doc)
    requires WellFounded(g) && t in g
    ensures DecodesBelow(g, t, d) <==> d.Null? || Decodes(g, t, d)
    ensures d.Null? ==> Loads(g, t, d)
  {
  }

  /** The schema rejects nothing the binary loads. */
  ghost predicate Honest(g: Graph, document: Doc, t: TypeId)
    requires WellFounded(g) && t in g
  {
    forall d :: Loads(g, t, d) ==> Accepted(document, d)
  }

  /** The schema accepts nothing the binary refuses. */
  ghost predicate Strict(g: Graph, document: Doc, t: TypeId)
    requires WellFounded(g) && t in g
  {
    forall d :: Accepted(document, d) ==> Loads(g, t, d)
  }

  /** A schema that accepts what decodes is in parity with the binary by the types alone: it is honest exactly
      when the root admits null and holds nothing rendered too tightly, and strict exactly when the root
      holds no array of bytes. */
  lemma {:induction false} ParityIff(g: Graph, document: Doc, t: TypeId)
    requires ClearKeys(g) && t in g && forall d :: Accepted(document, d) <==> Decodes(g, t, d)
    ensures Honest(g, document, t) <==> AdmitsNull(g, Deref(g, t)) && !Holds(g, Deref(g, t), Tight(g))
    ensures Strict(g, document, t) <==> !Holds(g, Deref(g, t), Loose(g))
  {
    hide KeysDistinct, Holds, Tight, Loose, Accepted, Decodes, DecodesBelow, Loads, AdmitsNull, Honest, Strict, NothingLost, NothingLoose;
    NullDecodes(g, t);
    forall d ensures NullAside(g, document, t, d) {
      assert Accepted(document, d) <==> Decodes(g, t, d);
      NullIsNoOp(g, t, d);
    }
    HonestIff(g, t);
    StrictIff(g, t);
    HonestNullAside(g, document, t);
    StrictNullAside(g, document, t);
  }

  /** Types whose schema admits a null at the root. */
  predicate AdmitsNull(g: Graph, u: TypeId)
    requires u in g
  {
    g[u].jsonUnmarshaler || (!g[u].textUnmarshaler && g[u].kind.Other?)
  }

  lemma {:induction false} NullDecodes(g: Graph, t: TypeId)
    requires WellFounded(g) && t in g
    ensures Decodes(g, t, Null) <==> AdmitsNull(g, Deref(g, t))
  {
  }

  lemma {:induction false} HonestNullAside(g: Graph, document: Doc, t: TypeId)
    requires WellFounded(g) && t in g
    requires forall d {:trigger NullAside(g, document, t, d)} :: NullAside(g, document, t, d)
    ensures Honest(g, document, t) <==> Accepted(document, Null) && NothingLost(g, t)
  {
    hide Accepted, DecodesBelow, Loads;
    assert NullAside(g, document, t, Null);
    if Honest(g, document, t) {
      forall d ensures Loads(g, t, d) ==> DecodesBelow(g, t, d) {
        assert NullAside(g, document, t, d);
      }
    } else if Accepted(document, Null) {
      var d :| Loads(g, t, d) && !Accepted(document, d);
      assert NullAside(g, document, t, d);
    }
  }

  lemma {:induction false} StrictNullAside(g: Graph, document: Doc, t: TypeId)
    requires WellFounded(g) && t in g
    requires forall d {:trigger NullAside(g, document, t, d)} :: NullAside(g, document, t, d)
    ensures Strict(g, document, t) <==> NothingLoose(g, t)
  {
    hide Accepted, DecodesBelow, Loads;
    if Strict(g, document, t) {
      forall d ensures DecodesBelow(g, t, d) ==> Loads(g, t, d) {
        assert NullAside(g, document, t, d);
      }
    } else {
      var d :| Accepted(document, d) && !Loads(g, t, d);
      assert NullAside(g, document, t, d);
    }
  }

  /** A struct with a number under the key "-" and an array of bytes under "sum". */
  const PARTED: Graph := map[
    0 := TypeDesc(false, false, Struct([Field("Dash", "-", true, true, false, 3), Field("Sum", "sum", false, true, false, 1)]), 0),
    1 := TypeDesc(false, false, List(2, true), 1),
    2 := TypeDesc(false, false, Uint8, 0),
    3 := TypeDesc(false, false, Int, 0)
  ]

  lemma {:induction false} PartedIsWellFounded()
    ensures WellFounded(PARTED) && Deref(PARTED, 0) == 0
  {
    forall t | t in PARTED ensures ClosedAt(PARTED, t) {
    }
    hide Deref;
    forall t | t in PARTED ensures EmbeddingDescends(PARTED, t) {
    }
  }

  lemma {:induction false} PartedKeys()
    requires WellFounded(PARTED)
    ensures Keys(PARTED, 0) == [Entry("-", 3), Entry("sum", 1)] && Entries(PARTED, 0) == [Entry("sum", 1)]
  {
    hide Deref, WellFounded;
    assert FieldKeys(PARTED, 0, 0) == [Entry("-", 3)] && FieldEntries(PARTED, 0, 0) == [];
    assert FieldKeys(PARTED, 0, 1) == [Entry("sum", 1)] && FieldEntries(PARTED, 0, 1) == [Entry("sum", 1)];
    assert KeysTo(PARTED, 0, 0) == [] && EntriesTo(PARTED, 0, 0) == [];
    assert KeysTo(PARTED, 0, 1) == [Entry("-", 3)] && EntriesTo(PARTED, 0, 1) == [];
    assert KeysTo(PARTED, 0, 2) == KeysTo(PARTED, 0, 1) + [Entry("sum", 1)];
    assert EntriesTo(PARTED, 0, 2) == [Entry("sum", 1)];
  }

  lemma {:induction false} PartedIsClear()
    ensures ClearKeys(PARTED)
  {
    hide WellFounded, Entries, Keys;
    PartedIsWellFounded();
    PartedKeys();
    forall t | t in PARTED && PARTED[t].kind.Struct? ensures Distinct(Entries(PARTED, t)) && Distinct(Keys(PARTED, t)) {
    }
  }

  lemma {:induction false} PartsJudged()
    requires WellFounded(PARTED)
    ensures Loads(PARTED, 3, Integer(1)) && DecodesBelow(PARTED, 1, Text("")) && !Loads(PARTED, 1, Text(""))
  {
    hide WellFounded;
  }

  /** Neither way is there parity on that struct: the key "-" loads and is refused, and text for the array
      of bytes is accepted and does not load. */
  lemma {:induction false} PartedBothWays()
    ensures ClearKeys(PARTED)
    ensures
      var d := Object(map["-" := Integer(1)]);
      Loads(PARTED, 0, d) && !Decodes(PARTED, 0, d)
    ensures
      var d := Object(map["sum" := Text("")]);
      Decodes(PARTED, 0, d) && !Loads(PARTED, 0, d)
  {
    hide ClearKeys, WellFounded, Entries, Keys, Decodes, DecodesBelow, Loads;
    PartedIsWellFounded();
    PartedIsClear();
    PartedKeys();
    PartsJudged();
    OneKeyJudged(PARTED, 0, "-", Integer(1));
    OneKeyJudged(PARTED, 0, "sum", Text(""));
    assert Keys(PARTED, 0)[0] == Entry("-", 3) && Entries(PARTED, 0)[0] == Entry("sum", 1);
    NullIsNoOp(PARTED, 0, Object(map["-" := Integer(1)]));
    NullIsNoOp(PARTED, 0, Object(map["sum" := Text("")]));
  }
}
