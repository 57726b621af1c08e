/** The selector language (internal/logline/selector.go): "label=value" and "label!=value". */
module SelectorSyntax {
  import opened MatchMemo
  import opened Wrappers

  /** The hash functions, whatever they are: of one string, and of a pair of hashes. */
  datatype Hashing = Hashing(text: string -> uint64, pair: (uint64, uint64) -> uint64)

  const REGEX_SELECTOR_KIND: uint64 := 0x9e3779b97f4a7c15

  /** A compiled selector: an exact comparison, or a regular expression, negated unless `want`. */
  datatype Selector = Selector(regex: bool, key: string, expr: string, hash: uint64, want: bool)

  datatype Parts = Parts(key: string, expr: string, want: bool)

  /** The position of the first '!' or '=', or the length when there is none. */
  function FirstOperator(s: string): (i: nat)
    ensures i <= |s| && (i < |s| ==> s[i] == '!' || s[i] == '=')
    ensures forall k :: 0 <= k < i ==> s[k] != '!' && s[k] != '='
  {
    if s == [] || s[0] == '!' || s[0] == '=' then 0 else 1 + FirstOperator(s[1..])
  }

  /** Splits a selector, leaving the expression as it is spelled. */
  function ParseSelector(s: string): Result<Parts> {
    var i := FirstOperator(s);
    if i == 0 || i == |s| then Err("want label=value or label!=value")
    else if s[i] == '=' then Ok(Parts(s[..i], s[i + 1..], true))
    else if s[i + 1..] != [] && s[i + 1] == '=' then Ok(Parts(s[..i], s[i + 2..], false))
    else Err("'!' must be followed by '='")
  }

  predicate LabelOk(key: string) {
    key != "" && FirstOperator(key) == |key|
  }

  function Spell(p: Parts): string {
    p.key + (if p.want then "=" else "!=") + p.expr
  }

  /** Splitting undoes spelling out, and succeeds on nothing else. */
  lemma {:induction false} ParseIffSpelled(s: string, p: Parts)
    ensures ParseSelector(s) == Ok(p) <==> LabelOk(p.key) && s == Spell(p)
  {
    hide FirstOperator;
    if LabelOk(p.key) && s == Spell(p) {
      var op := if p.want then "=" else "!=";
      FirstOperatorIs(s, |p.key|);
      assert s[..|p.key|] == p.key;
      assert s[|p.key|..] == op + p.expr;
      assert s[|p.key| + |op|..] == p.expr;
    }
    if ParseSelector(s) == Ok(p) {
      FirstOperatorIs(p.key, |p.key|);
      assert s == Spell(p);
    }
  }

  lemma {:induction false} FirstOperatorIs(s: string, i: nat)
    requires i <= |s| && forall k :: 0 <= k < i ==> s[k] != '!' && s[k] != '='
    requires i < |s| ==> s[i] == '!' || s[i] == '='
    ensures FirstOperator(s) == i
  {
  }

  predicate Escape(s: string) {
    |s| >= 2 && s[0] == '\\' && (s[1] == '\\' || s[1] == '"')
  }

  /** What an exact value means: \\ is a backslash and \" a quote, read left to right; any other
      backslash stands for itself. */
  function Unescaped(s: string): string {
    if s == [] then []
    else if Escape(s) then [s[1]] + Unescaped(s[2..])
    else [s[0]] + Unescaped(s[1..])
  }

  /** One way to spell a value. */
  function Escaped(v: string): string {
    if v == [] then []
    else (if v[0] == '\\' || v[0] == '"' then ['\\', v[0]] else [v[0]]) + Escaped(v[1..])
  }

  /** Every value can be spelled. */
  lemma {:induction false} UnescapeUndoesEscape(v: string)
    ensures Unescaped(Escaped(v)) == v
  {
    if v != [] {
      UnescapeUndoesEscape(v[1..]);
      var e := Escaped(v);
      if v[0] == '\\' || v[0] == '"' {
        assert e[2..] == Escaped(v[1..]);
      } else {
        assert e[1..] == Escaped(v[1..]);
      }
    }
  }

  /** A piece of a spelled value: a character that stands for itself, or one behind a backslash. */
  datatype Piece = Literal(c: char) | Behind(c: char)

  function SpellPiece(p: Piece): string {
    match p case Literal(c) => [c] case Behind(c) => ['\\', c]
  }

  function SpellPieces(ps: seq<Piece>): string {
    if ps == [] then [] else SpellPiece(ps[0]) + SpellPieces(ps[1..])
  }

  function Meant(ps: seq<Piece>): string {
    seq(|ps|, i requires 0 <= i < |ps| => ps[i].c)
  }

  ghost predicate PieceOk(ps: seq<Piece>, i: nat)
    requires i < |ps|
  {
    match ps[i]
    case Behind(c) => c == '\\' || c == '"'
    case Literal(c) => c == '\\' && i + 1 < |ps| ==> ps[i + 1].Literal? && ps[i + 1].c != '\\' && ps[i + 1].c != '"'
  }

  /** Only a backslash and a quote stand behind a backslash, and where one of them follows a backslash it
      does stand behind it. */
  ghost predicate Readable(ps: seq<Piece>) {
    forall i :: 0 <= i < |ps| ==> PieceOk(ps, i)
  }

  /** Every text is spelled by readable pieces, and they say what it is read as. */
  lemma {:induction false} UnescapedReads(s: string) returns (ps: seq<Piece>)
    ensures Readable(ps) && SpellPieces(ps) == s && Unescaped(s) == Meant(ps)
  {
    if s == [] {
      ps := [];
    } else if Escape(s) {
      var rest := UnescapedReads(s[2..]);
      ps := [Behind(s[1])] + rest;
      assert ps[1..] == rest && s == ['\\', s[1]] + s[2..];
      forall i | 0 <= i < |ps| ensures PieceOk(ps, i) {
        if i > 0 {
          assert PieceOk(rest, i - 1) && ps[i] == rest[i - 1];
        }
      }
    } else {
      var rest := UnescapedReads(s[1..]);
      ps := [Literal(s[0])] + rest;
      assert ps[1..] == rest && s == [s[0]] + s[1..];
      if rest != [] {
        assert SpellPieces(rest)[0] == s[1];
      }
      forall i | 0 <= i < |ps| ensures PieceOk(ps, i) {
        if i > 0 {
          assert PieceOk(rest, i - 1) && ps[i] == rest[i - 1];
        }
      }
    }
  }

  /** There is one way to read a text. */
  lemma {:induction false} ReadOneWay(ps: seq<Piece>, qs: seq<Piece>)
    requires Readable(ps) && Readable(qs) && SpellPieces(ps) == SpellPieces(qs)
    ensures ps == qs
  {
    if ps != [] && qs != [] {
      var s := SpellPieces(ps);
      assert s == SpellPiece(ps[0]) + SpellPieces(ps[1..]) == SpellPiece(qs[0]) + SpellPieces(qs[1..]);
      assert ps[0] == qs[0] by {
        SecondCharacter(ps);
        SecondCharacter(qs);
      }
      var n := |SpellPiece(ps[0])|;
      assert s[n..] == SpellPieces(ps[1..]) && s[n..] == SpellPieces(qs[1..]);
      RestReadable(ps);
      RestReadable(qs);
      ReadOneWay(ps[1..], qs[1..]);
      assert ps == [ps[0]] + ps[1..] && qs == [qs[0]] + qs[1..];
    }
  }

  lemma {:induction false} RestReadable(ps: seq<Piece>)
    requires Readable(ps) && ps != []
    ensures Readable(ps[1..])
  {
    forall i | 0 <= i < |ps[1..]| ensures PieceOk(ps[1..], i) {
      assert PieceOk(ps, i + 1);
    }
  }

  /** What begins a text of readable pieces tells its first piece. */
  lemma {:induction false} SecondCharacter(ps: seq<Piece>)
    requires Readable(ps) && ps != []
    ensures
      var s := SpellPieces(ps);
      s != [] && ps[0] == if Escape(s) then Behind(s[1]) else Literal(s[0])
  {
    assert PieceOk(ps, 0);
    if ps[0].Literal? && ps[0].c == '\\' && |ps| > 1 {
      assert ps[1..][0] == ps[1];
      assert SpellPieces(ps[1..])[0] == ps[1].c;
    }
  }

  /** The position of the first backslash, or the length when there is none. */
  function FirstBackslash(s: string): (i: nat)
    ensures i <= |s| && (i < |s| ==> s[i] == '\\')
    ensures forall k :: 0 <= k < i ==> s[k] != '\\'
  {
    if s == [] || s[0] == '\\' then 0 else 1 + FirstBackslash(s[1..])
  }

  method UnescapeSelector(s: string) returns (r: string)
    ensures r == Unescaped(s)
  {
    var i := FirstBackslash(s);
    UnescapedPrefix(s, i);
    if i == |s| {
      return s;
    }
    r := s[..i];
    while i < |s|
      invariant i <= |s|
      invariant Pending(s, i, r)
    {
      PendingStep(s, i, r);
      hide Pending;
      if s[i] == '\\' && i + 1 < |s| && (s[i + 1] == '\\' || s[i + 1] == '"') {
        i := i + 1;
      }
      r := r + [s[i]];
      i := i + 1;
    }
  }

  lemma {:induction false} UnescapedPrefix(s: string, i: nat)
    requires i <= |s| && forall k :: 0 <= k < i ==> s[k] != '\\'
    ensures Unescaped(s) == s[..i] + Unescaped(s[i..])
  {
    if i > 0 {
      UnescapedPrefix(s[1..], i - 1);
      assert s[1..][i - 1..] == s[i..];
      assert s[..i] == [s[0]] + s[1..][..i - 1];
    } else {
      assert s[0..] == s;
    }
  }

  /** r is what the first i characters mean, and the rest stands on its own. */
  ghost predicate Pending(s: string, i: nat, r: string) {
    i <= |s| && r + Unescaped(s[i..]) == Unescaped(s)
  }

  lemma {:induction false} PendingStep(s: string, i: nat, r: string)
    requires i < |s| && Pending(s, i, r)
    ensures if Escape(s[i..]) then Pending(s, i + 2, r + [s[i + 1]]) else Pending(s, i + 1, r + [s[i]])
  {
  }

  function HashOf(h: Hashing, regex: bool, key: string, expr: string): uint64 {
    var base := h.pair(h.text(key), h.text(expr));
    if regex then h.pair(base, REGEX_SELECTOR_KIND) else base
  }

  /** The pairs that are hashed for these selectors. */
  ghost function HashedPairs(h: Hashing, all: set<Selector>): set<(uint64, uint64)> {
    (set s | s in all :: (h.text(s.key), h.text(s.expr)))
    + (set s | s in all :: (h.pair(h.text(s.key), h.text(s.expr)), REGEX_SELECTOR_KIND))
  }

  /** The hash functions tell apart the keys, the expressions and the pairs that occur. */
  ghost predicate TellsApart(h: Hashing, all: set<Selector>) {
    && (forall a, b :: a in all && b in all && h.text(a.key) == h.text(b.key) ==> a.key == b.key)
    && (forall a, b :: a in all && b in all && h.text(a.expr) == h.text(b.expr) ==> a.expr == b.expr)
    && (forall p, q :: p in HashedPairs(h, all) && q in HashedPairs(h, all) && h.pair(p.0, p.1) == h.pair(q.0, q.1) ==> p == q)
    && (forall a :: a in all ==> h.text(a.expr) != REGEX_SELECTOR_KIND)
  }

  /** The hash of a selector's test tells its kind, key and expression, as far as its parts do. */
  lemma {:induction false} HashTellsTest(h: Hashing, all: set<Selector>, a: Selector, b: Selector)
    requires TellsApart(h, all) && a in all && b in all
    ensures HashOf(h, a.regex, a.key, a.expr) == HashOf(h, b.regex, b.key, b.expr)
       <==> a.regex == b.regex && a.key == b.key && a.expr == b.expr
  {
    var p, q := (h.text(a.key), h.text(a.expr)), (h.text(b.key), h.text(b.expr));
    var pp, qq := (h.pair(p.0, p.1), REGEX_SELECTOR_KIND), (h.pair(q.0, q.1), REGEX_SELECTOR_KIND);
    assert p in HashedPairs(h, all) && q in HashedPairs(h, all) && pp in HashedPairs(h, all) && qq in HashedPairs(h, all);
  }

  /** The selector a spelling compiles to; `compiles` says which regular expressions are valid. */
  function Compile(h: Hashing, compiles: string -> bool, s: string, regex: bool): Result<Selector> {
    match ParseSelector(s)
    case Err(m) => Err(m)
    case Ok(p) =>
      var expr := if regex then p.expr else Unescaped(p.expr);
      if regex && !compiles(expr) then Err("invalid regex selector")
      else Ok(Selector(regex, p.key, expr, HashOf(h, regex, p.key, expr), p.want))
  }

  ghost predicate CompilesTo(h: Hashing, compiles: string -> bool, spelled: seq<string>, regex: bool, sels: seq<Selector>) {
    |sels| == |spelled| && forall i :: 0 <= i < |spelled| ==> Compile(h, compiles, spelled[i], regex) == Ok(sels[i])
  }

  /** s spells selector c: a label and an expression around an operator; an exact expression as it reads, a
      regular one as it stands, if it is valid. */
  ghost predicate Spells(compiles: string -> bool, s: string, c: Selector, expr: string) {
    && LabelOk(c.key) && s == c.key + (if c.want then "=" else "!=") + expr
    && if c.regex then c.expr == expr && compiles(expr) else c.expr == Unescaped(expr)
  }

  /** Just what is so spelled compiles. */
  lemma {:induction false} CompiledIff(h: Hashing, compiles: string -> bool, s: string, regex: bool, c: Selector)
    ensures Compile(h, compiles, s, regex) == Ok(c) <==>
      c.regex == regex && c.hash == HashOf(h, regex, c.key, c.expr) && exists expr :: Spells(compiles, s, c, expr)
  {
    hide Unescaped, ParseSelector, LabelOk, HashOf;
    if Compile(h, compiles, s, regex) == Ok(c) {
      var p := ParseSelector(s).value;
      ParseIffSpelled(s, p);
      assert Spells(compiles, s, c, p.expr);
    }
    forall expr | Spells(compiles, s, c, expr) ensures ParseSelector(s) == Ok(Parts(c.key, expr, c.want)) {
      ParseIffSpelled(s, Parts(c.key, expr, c.want));
    }
  }

  /** Compiles a list of selectors, or fails when one of them does. */
  method ParseSelectors(h: Hashing, compiles: string -> bool, spelled: seq<string>, regex: bool)
    returns (r: Result<seq<Selector>>)
    ensures r.Ok? ==> CompilesTo(h, compiles, spelled, regex, r.value)
    ensures r.Ok? <==> forall i :: 0 <= i < |spelled| ==> Compile(h, compiles, spelled[i], regex).Ok?
  {
    var sels := [];
    for i := 0 to |spelled|
      invariant CompilesTo(h, compiles, spelled[..i], regex, sels)
    {
      match ParseSelector(spelled[i]) {
        case Err(m) =>
          return Err(m);
        case Ok(p) =>
          var expr := p.expr;
          if !regex {
            expr := UnescapeSelector(p.expr);
          }
          if regex && !compiles(expr) {
            return Err("invalid regex selector");
          }
          sels := sels + [Selector(regex, p.key, expr, HashOf(h, regex, p.key, expr), p.want)];
      }
    }
    assert spelled[..|spelled|] == spelled;
    return Ok(sels);
  }
}

/** Lazy extraction of the referenced fields from a line (internal/logline/fields.go). */
module LineFields {
  import opened Wrappers

  const LINE_KEY := "__line__"
  const SEVERITY_KEY := "__severity__"

  /** A line as the decoders see it: a JSON object, or logfmt pairs in order, where a bare key has no
      value. Of JSON, the raw token of each key ("" for none), whether the decoding failed after filling
      the buffer, and the text of a scalar token. What they make of a line is not modelled. */
  datatype Decoded =
    | Json(raw: string -> string, failed: bool, scalar: string -> Option<string>)
    | Logfmt(pairs: seq<(string, Option<string>)>)

  /** The last value a key was given. */
  function LastValue(pairs: seq<(string, Option<string>)>, key: string): string {
    if pairs == [] then ""
    else
      var p := pairs[|pairs| - 1];
      if p.0 == key && p.1.Some? then p.1.value else LastValue(pairs[..|pairs| - 1], key)
  }

  /** It is the one that no later pair gives again; bare keys give none. */
  lemma {:induction false} LastValueIs(pairs: seq<(string, Option<string>)>, key: string, n: nat)
    requires n <= |pairs| && forall m :: n <= m < |pairs| ==> pairs[m].0 != key || pairs[m].1.None?
    ensures n == 0 ==> LastValue(pairs, key) == ""
    ensures n > 0 && pairs[n - 1].0 == key && pairs[n - 1].1.Some? ==> LastValue(pairs, key) == pairs[n - 1].1.value
  {
    if n < |pairs| {
      LastValueIs(pairs[..|pairs| - 1], key, n);
    }
  }

  function FieldValue(d: Decoded, key: string): string {
    match d
    case Json(raw, failed, scalar) =>
      if failed || raw(key) == "" then "" else if scalar(raw(key)).Some? then scalar(raw(key)).value else ""
    case Logfmt(pairs) => LastValue(pairs, key)
  }

  /** What the decoder writes for these keys. */
  function RawValues(raw: string -> string, keys: seq<string>): seq<string> {
    seq(|keys|, i requires 0 <= i < |keys| => raw(keys[i]))
  }

  predicate Synthetic(key: string) {
    key == "" || key == LINE_KEY || key == SEVERITY_KEY
  }

  /** The distinct field keys the rules reference, each with its slot. */
  class KeyIndex {
    var keys: seq<string>
    var slots: map<string, nat>

    ghost predicate Valid()
      reads this
    {
      && (forall k :: k in slots ==> !Synthetic(k) && slots[k] < |keys| && keys[slots[k]] == k)
      && (forall i :: 0 <= i < |keys| ==> keys[i] in slots && slots[keys[i]] == i)
    }

    constructor ()
      ensures Valid() && keys == [] && slots == map[]
    {
      keys, slots := [], map[];
    }

    /** Registers a key once; the empty and both synthetic keys never become line fields. */
    method Add(key: string)
      requires Valid()
      modifies this
      ensures Valid() && old(keys) <= keys
      ensures slots.Keys == old(slots.Keys) + if key in {"", "__line__", "__severity__"} then {} else {key}
    {
      if key == "" || key == LINE_KEY || key == SEVERITY_KEY {
        return;
      }
      if key in slots {
        return;
      }
      slots := slots[key := |keys|];
      keys := keys + [key];
    }
  }

  /** One line's extracted values, by slot, filled in on the first lookup. */
  class Fields {
    var line: string
    var vals: seq<string>
    var raws: seq<string> // the decoder's output buffer of raw tokens, reused
    var parsed: bool

    /** Nothing of another line shows: unparsed values are blank, parsed ones are this line's. */
    ghost predicate Valid(keys: seq<string>, decode: string -> Decoded)
      reads this
    {
      if parsed then |vals| >= |keys| && forall i :: 0 <= i < |keys| ==> vals[i] == FieldValue(decode(line), keys[i])
      else forall i :: 0 <= i < |vals| ==> vals[i] == ""
    }

    constructor ()
      ensures !parsed && vals == [] && raws == []
    {
      line, vals, raws, parsed := "", [], [], false;
    }

    /** Points the fields at a new line, keeping the buffer. */
    method Reset(line: string)
      modifies this
      ensures this.line == line && !parsed && |vals| == |old(vals)| && raws == old(raws)
      ensures forall i :: 0 <= i < |vals| ==> vals[i] == ""
    {
      this.line := line;
      parsed := false;
      vals := seq(|vals|, _ => "");
    }

    /** Drops every reference into the line. */
    method Release()
      modifies this
      ensures line == "" && !parsed && |vals| == |old(vals)| && |raws| == |old(raws)|
      ensures forall i :: 0 <= i < |vals| ==> vals[i] == ""
      ensures forall i :: 0 <= i < |raws| ==> raws[i] == ""
    {
      line := "";
      parsed := false;
      vals := seq(|vals|, _ => "");
      raws := seq(|raws|, _ => "");
    }

    method Get(ki: KeyIndex, decode: string -> Decoded, key: string) returns (v: string)
      requires ki.Valid() && Valid(ki.keys, decode)
      modifies this`vals, this`raws, this`parsed
      ensures Valid(ki.keys, decode)
      ensures v == if key in ki.slots then FieldValue(decode(line), key) else ""
    {
      if |ki.keys| == 0 {
        return "";
      }
      if key !in ki.slots {
        return "";
      }
      if !parsed {
        if |vals| < |ki.keys| {
          vals := seq(|ki.keys|, _ => "");
        }
        Parse(ki, decode);
        parsed := true;
      }
      v := vals[ki.slots[key]];
    }

    /** JSON values go straight to their slots; of a logfmt key's values the last one stays, and a
        bare key gives none. */
    method Parse(ki: KeyIndex, decode: string -> Decoded)
      requires ki.Valid() && |ki.keys| <= |vals|
      requires forall i :: 0 <= i < |vals| ==> vals[i] == ""
      modifies this`vals, this`raws
      ensures |vals| == |old(vals)|
      ensures forall i :: 0 <= i < |ki.keys| ==> vals[i] == FieldValue(decode(line), ki.keys[i])
      ensures decode(line).Json? ==>
        var d := decode(line);
        && |raws| == |ki.keys|
        && forall i :: 0 <= i < |ki.keys| ==>
             && raws[i] == d.raw(ki.keys[i])
             && vals[i] == if !d.failed && raws[i] != "" && d.scalar(raws[i]).Some? then d.scalar(raws[i]).value else ""
      ensures decode(line).Logfmt? ==> raws == old(raws)
    {
      match decode(line)
      case Json(raw, failed, scalar) =>
        raws := RawValues(raw, ki.keys);
        if failed {
          return;
        }
        for i := 0 to |ki.keys|
          invariant |vals| == |old(vals)|
          invariant raws == RawValues(raw, ki.keys)
          invariant forall j :: 0 <= j < |vals| ==>
            vals[j] == if j < i then FieldValue(decode(line), ki.keys[j]) else ""
        {
          if |raws[i]| == 0 {
            continue;
          }
          var s := scalar(raws[i]);
          if s.Some? {
            vals := vals[i := s.value];
          }
        }
      case Logfmt(pairs) =>
        for n := 0 to |pairs|
          invariant |vals| == |old(vals)| && raws == old(raws)
          invariant forall j :: 0 <= j < |ki.keys| ==> vals[j] == LastValue(pairs[..n], ki.keys[j])
        {
          assert pairs[..n + 1][..n] == pairs[..n];
          var (key, val) := pairs[n];
          if key !in ki.slots {
            continue;
          }
          if val.None? {
            continue;
          }
          vals := vals[ki.slots[key] := val.value];
        }
        assert pairs[..|pairs|] == pairs;
    }
  }

  /** How a selector key resolves: the raw line, else a non-empty attribute, else a registered
      field of the line. */
  function Resolved(key: string, raw: string, lookup: Option<string -> string>, registered: set<string>, d: Decoded): string {
    if key == LINE_KEY then raw
    else if lookup.Some? && lookup.value(key) != "" then lookup.value(key)
    else if key in registered then FieldValue(d, key)
    else ""
  }

  method ResolveKey(key: string, raw: string, lookup: Option<string -> string>, ki: KeyIndex, lf: Fields,
                    decode: string -> Decoded) returns (v: string)
    requires ki.Valid() && lf.Valid(ki.keys, decode)
    modifies lf`vals, lf`raws, lf`parsed
    ensures lf.Valid(ki.keys, decode)
    ensures v == Resolved(key, raw, lookup, ki.slots.Keys, decode(lf.line))
    ensures key == "__line__" ==> v == raw
    ensures key != "__line__" && lookup.Some? && lookup.value(key) != "" ==> v == lookup.value(key)
    ensures key != "__line__" && (lookup.None? || lookup.value(key) == "") ==>
      v == if key in ki.slots then FieldValue(decode(lf.line), key) else ""
  {
    if key == LINE_KEY {
      return raw;
    }
    if lookup.Some? {
      var found := lookup.value(key);
      if found != "" {
        return found;
      }
    }
    v := lf.Get(ki, decode, key);
  }

  /** The severity a rule sees comes from the caller's attributes alone: no line, whatever fields it
      spells, changes it. */
  lemma {:induction false} SeverityIgnoresTheLine(raw: string, lookup: Option<string -> string>, ki: KeyIndex, d: Decoded)
    requires ki.Valid()
    ensures Resolved("__severity__", raw, lookup, ki.slots.Keys, d)
         == if lookup.Some? then lookup.value("__severity__") else ""
  {
  }
}

/** The ordered first-match-wins filter over log lines (internal/logline/linefilter.go), evaluated
    through the selector memo, and what it decides. */
module LineFilter {
  import opened MatchMemo
  import opened SelectorSyntax
  import opened LineFields
  import opened Sampling
  import opened Wrappers

  datatype Selectors = Selectors(exact: seq<Selector>, regex: seq<Selector>)

  /** What a line shows to the selectors. */
  datatype View = View(raw: string, lookup: Option<string -> string>, registered: set<string>, fields: Decoded) {
    function Get(key: string): string {
      Resolved(key, raw, lookup, registered, fields)
    }
  }

  /** The raw outcome of a selector's test, before negation; `matches(pattern, text)` stands for the
      regular expression engine. */
  predicate Outcome(s: Selector, view: View, matches: (string, string) -> bool) {
    if s.regex then matches(s.expr, view.Get(s.key)) else view.Get(s.key) == s.expr
  }

  /** The conjunction, evaluated afresh. */
  predicate AllHold(sels: seq<Selector>, view: View, matches: (string, string) -> bool) {
    forall i :: 0 <= i < |sels| ==> Outcome(sels[i], view, matches) == sels[i].want
  }

  predicate MatchesView(s: Selectors, view: View, matches: (string, string) -> bool) {
    AllHold(s.exact, view, matches) && AllHold(s.regex, view, matches)
  }

  /** Whatever two lines hold: a selector whose key has an attribute tests that attribute on both, unless it
      asks for the raw line. */
  lemma {:induction false} AttributeDecides(s: Selector, a: View, b: View, matches: (string, string) -> bool)
    requires a.lookup == b.lookup && a.lookup.Some? && a.lookup.value(s.key) != "" && s.key != "__line__"
    ensures a.Get(s.key) == b.Get(s.key) == a.lookup.value(s.key)
    ensures Outcome(s, a, matches) == Outcome(s, b, matches)
  {
  }

  /** Without one, the registered field of the line decides. */
  lemma {:induction false} FieldDecides(key: string, view: View)
    requires key != "__line__" && (view.lookup.None? || view.lookup.value(key) == "")
    ensures view.Get(key) == if key in view.registered then FieldValue(view.fields, key) else ""
  {
  }

  /** Equal hashes mean equal tests, negation aside: the assumption the memo rests on. */
  ghost predicate CollisionFree(all: set<Selector>) {
    forall a, b :: a in all && b in all && a.hash == b.hash ==>
                     a.regex == b.regex && a.key == b.key && a.expr == b.expr
  }

  /** What the memo knows about these selectors is true of the current line. */
  ghost predicate Truthful(memo: map<uint64, bool>, all: set<Selector>, view: View, matches: (string, string) -> bool) {
    forall s :: s in all && s.hash in memo ==> memo[s.hash] == Outcome(s, view, matches)
  }

  lemma {:induction false} OutcomeRecorded(memo: map<uint64, bool>, all: set<Selector>, view: View, matches: (string, string) -> bool, s: Selector)
    requires CollisionFree(all) && Truthful(memo, all, view, matches) && s in all
    ensures Truthful(memo[s.hash := Outcome(s, view, matches)], all, view, matches)
  {
  }

  /** The pooled per-line evaluation state. */
  class FilterCtx {
    const ctx: MatchContext
    const line: Fields
    const ki: KeyIndex
    const decode: string -> Decoded
    var lookup: Option<string -> string>
    var raw: string

    ghost predicate Valid()
      reads this, ctx, ctx.slots, line, ki
    {
      ctx.Valid() && ki.Valid() && line.Valid(ki.keys, decode) && line.line == raw
    }

    ghost function CurrentView(): View
      reads this, ki
    {
      View(raw, lookup, ki.slots.Keys, decode(raw))
    }

    constructor (ki: KeyIndex, decode: string -> Decoded)
      requires ki.Valid()
      ensures Valid() && this.ki == ki && this.decode == decode && fresh(ctx) && fresh(ctx.slots) && fresh(line)
    {
      ctx := new MatchContext();
      line := new Fields();
      this.ki, this.decode := ki, decode;
      lookup, raw := None, "";
      new;
      line.Reset("");
    }

    /** Taken from the pool: forgets the previous line. */
    method Begin(lookup: Option<string -> string>, raw: string)
      requires Valid()
      modifies this, ctx`gen, ctx`n, ctx`memo, ctx`at, ctx.slots, line
      ensures Valid() && ctx.memo == map[] && CurrentView() == View(raw, lookup, ki.slots.Keys, decode(raw))
    {
      ctx.Reset();
      line.Reset(raw);
      this.lookup, this.raw := lookup, raw;
    }

    /** Before going back to the pool: drops every reference into the line. */
    method End()
      requires Valid()
      modifies this, line
      ensures Valid()
    {
      lookup, raw := None, "";
      line.Release();
    }

    method Resolve(key: string) returns (v: string)
      requires Valid()
      modifies line`vals, line`raws, line`parsed
      ensures Valid() && v == CurrentView().Get(key)
    {
      v := ResolveKey(key, raw, lookup, ki, line, decode);
    }
  }

  /** One selector through the memo: the same verdict as testing it afresh, whoever filled the slot. */
  method MatchOne(s: Selector, fc: FilterCtx, matches: (string, string) -> bool, ghost all: set<Selector>) returns (ok: bool)
    requires fc.Valid() && s in all && CollisionFree(all)
    requires Truthful(fc.ctx.memo, all, fc.CurrentView(), matches)
    modifies fc.ctx, fc.ctx.slots, fc.line`vals, fc.line`raws, fc.line`parsed
    ensures fc.Valid() && (fc.ctx.slots == old(fc.ctx.slots) || fresh(fc.ctx.slots))
    ensures Truthful(fc.ctx.memo, all, fc.CurrentView(), matches)
    ensures ok == (Outcome(s, fc.CurrentView(), matches) == s.want)
  {
    hide MatchContext.Valid, MatchContext.MayClaim;
    var i, known := fc.ctx.Slot(s.hash);
    if !known {
      TestInto(i, s, fc, matches, all);
    }
    ok := fc.ctx.slots[i].hit == s.want;
  }

  /** Tests a selector into the slot that waits for it. */
  method TestInto(i: nat, s: Selector, fc: FilterCtx, matches: (string, string) -> bool, ghost all: set<Selector>)
    requires fc.Valid() && s in all && CollisionFree(all) && fc.ctx.MayClaim(s.hash, i)
    requires Truthful(fc.ctx.memo, all, fc.CurrentView(), matches)
    modifies fc.ctx`n, fc.ctx`memo, fc.ctx`at, fc.ctx.slots, fc.line`vals, fc.line`raws, fc.line`parsed
    ensures fc.Valid() && i < fc.ctx.slots.Length
    ensures Truthful(fc.ctx.memo, all, fc.CurrentView(), matches)
    ensures fc.ctx.slots[i].hit == Outcome(s, fc.CurrentView(), matches)
  {
    hide MatchContext.Valid, MatchContext.MayClaim, KeyIndex.Valid, Fields.Valid, CollisionFree, Truthful;
    OutcomeRecorded(fc.ctx.memo, all, fc.CurrentView(), matches, s);
    ghost var was, view := fc.ctx.memo, fc.CurrentView();
    fc.ctx.Claim(i, s.hash);
    var v := fc.Resolve(s.key);
    assert fc.CurrentView() == view;
    fc.ctx.SetHit(i, s.hash, if s.regex then matches(s.expr, v) else v == s.expr);
    assert fc.ctx.memo == was[s.hash := Outcome(s, view, matches)];
  }

  /** Whether every selector holds, stopping at the first that does not. */
  method Match(sels: Selectors, fc: FilterCtx, matches: (string, string) -> bool, ghost all: set<Selector>) returns (ok: bool)
    requires fc.Valid() && CollisionFree(all)
    requires forall i :: 0 <= i < |sels.exact| ==> sels.exact[i] in all
    requires forall i :: 0 <= i < |sels.regex| ==> sels.regex[i] in all
    requires Truthful(fc.ctx.memo, all, fc.CurrentView(), matches)
    modifies fc.ctx, fc.ctx.slots, fc.line`vals, fc.line`raws, fc.line`parsed
    ensures fc.Valid() && (fc.ctx.slots == old(fc.ctx.slots) || fresh(fc.ctx.slots))
    ensures Truthful(fc.ctx.memo, all, fc.CurrentView(), matches)
    ensures ok == MatchesView(sels, fc.CurrentView(), matches)
  {
    hide MatchContext.Valid;
    for i := 0 to |sels.exact|
      invariant fc.Valid() && (fc.ctx.slots == old(fc.ctx.slots) || fresh(fc.ctx.slots))
      invariant Truthful(fc.ctx.memo, all, fc.CurrentView(), matches)
      invariant AllHold(sels.exact[..i], fc.CurrentView(), matches)
    {
      var holds := MatchOne(sels.exact[i], fc, matches, all);
      if !holds {
        return false;
      }
    }
    for i := 0 to |sels.regex|
      invariant fc.Valid() && (fc.ctx.slots == old(fc.ctx.slots) || fresh(fc.ctx.slots))
      invariant Truthful(fc.ctx.memo, all, fc.CurrentView(), matches)
      invariant AllHold(sels.regex[..i], fc.CurrentView(), matches)
    {
      var holds := MatchOne(sels.regex[i], fc, matches, all);
      if !holds {
        return false;
      }
    }
    assert sels.exact[..|sels.exact|] == sels.exact && sels.regex[..|sels.regex|] == sels.regex;
    ok := true;
  }

  /** A compiled rule. `keep` is the sample in parts per SAMPLE_DEN, 0 for no sampling. */
  class LineFilterRule {
    const match_: Selectors
    const drop: bool
    const keep: nat
    var picked: nat // matching lines so far

    constructor (sels: Selectors, drop: bool, keep: nat)
      ensures match_ == sels && this.drop == drop && this.keep == keep && picked == 0
    {
      match_, this.drop, this.keep, picked := sels, drop, keep, 0;
    }

    method Sampled() returns (inside: bool)
      modifies this
      ensures picked == old(picked) + 1
      ensures inside == InSample(old(picked), keep)
    {
      picked := picked + 1;
      var k := (picked - 1) % SAMPLE_DEN;
      inside := k * keep % SAMPLE_DEN < keep;
    }
  }

  ghost function SelectorsOf(s: Selectors): set<Selector> {
    (set i | 0 <= i < |s.exact| :: s.exact[i]) + (set i | 0 <= i < |s.regex| :: s.regex[i])
  }

  ghost function AllSelectors(rules: seq<LineFilterRule>): set<Selector> {
    set i, s | 0 <= i < |rules| && s in SelectorsOf(rules[i].match_) :: s
  }

  /** The first rule that matches the line, evaluated afresh; the number of rules when none does. */
  function FirstMatch(rules: seq<LineFilterRule>, view: View, matches: (string, string) -> bool): (i: nat)
    ensures i <= |rules|
  {
    if rules == [] || MatchesView(rules[0].match_, view, matches) then 0 else 1 + FirstMatch(rules[1..], view, matches)
  }

  lemma {:induction false} FirstMatchIs(rules: seq<LineFilterRule>, view: View, matches: (string, string) -> bool, i: nat)
    requires i <= |rules| && forall k :: 0 <= k < i ==> !MatchesView(rules[k].match_, view, matches)
    requires i < |rules| ==> MatchesView(rules[i].match_, view, matches)
    ensures FirstMatch(rules, view, matches) == i
  {
    if i > 0 {
      assert !MatchesView(rules[0].match_, view, matches);
      FirstMatchIs(rules[1..], view, matches, i - 1);
    }
  }

  /** When every key that the rules ask for has an attribute, the line does not matter: the same rule
      matches first on any two. */
  lemma {:induction false} AttributesHideTheLine(rules: seq<LineFilterRule>, a: View, b: View, matches: (string, string) -> bool)
    requires a.lookup == b.lookup && a.lookup.Some?
    requires forall s :: s in AllSelectors(rules) ==> s.key != "__line__" && a.lookup.value(s.key) != ""
    ensures FirstMatch(rules, a, matches) == FirstMatch(rules, b, matches)
  {
    hide View.Get, AllSelectors;
    var i := FirstMatch(rules, a, matches);
    FirstMatchFound(rules, a, matches);
    forall k | 0 <= k < |rules| ensures MatchesView(rules[k].match_, a, matches) == MatchesView(rules[k].match_, b, matches) {
      RuleSelectors(rules, k);
      forall n | 0 <= n < |rules[k].match_.exact| { AttributeDecides(rules[k].match_.exact[n], a, b, matches); }
      forall n | 0 <= n < |rules[k].match_.regex| { AttributeDecides(rules[k].match_.regex[n], a, b, matches); }
    }
    FirstMatchIs(rules, b, matches, i);
  }

  lemma {:induction false} FirstMatchFound(rules: seq<LineFilterRule>, view: View, matches: (string, string) -> bool)
    ensures
      var i := FirstMatch(rules, view, matches);
      && (forall k :: 0 <= k < i ==> !MatchesView(rules[k].match_, view, matches))
      && (i < |rules| ==> MatchesView(rules[i].match_, view, matches))
  {
    hide MatchesView;
    if rules != [] && !MatchesView(rules[0].match_, view, matches) {
      FirstMatchFound(rules[1..], view, matches);
      assert forall k :: 1 <= k < |rules| ==> rules[k] == rules[1..][k - 1];
    }
  }

  class LineFilter {
    const rules: seq<LineFilterRule>
    const ki: KeyIndex

    ghost predicate Valid()
      reads ki
    {
      && ki.Valid()
      && (forall i, j :: 0 <= i < j < |rules| ==> rules[i] != rules[j])
      && (forall i :: 0 <= i < |rules| ==> rules[i].keep < SAMPLE_DEN && (rules[i].drop ==> rules[i].keep == 0))
      && (forall s :: s in AllSelectors(rules) && !Synthetic(s.key) ==> s.key in ki.slots)
    }

    constructor (rules: seq<LineFilterRule>, ki: KeyIndex)
        ensures this.rules == rules && this.ki == ki
    {
      this.rules, this.ki := rules, ki;
    }
  }

  /** What the line shows to this filter: every selector key can be read from it. */
  ghost function ViewOf(f: LineFilter, lookup: Option<string -> string>, line: string, decode: string -> Decoded): View
    reads f.ki
  {
    View(line, lookup, f.ki.slots.Keys, decode(line))
  }

  lemma {:induction false} NothingIsTruthful(all: set<Selector>, view: View, matches: (string, string) -> bool)
    ensures Truthful(map[], all, view, matches)
  {
  }

  lemma {:induction false} RuleSelectors(rules: seq<LineFilterRule>, i: nat)
    requires i < |rules|
    ensures forall k :: 0 <= k < |rules[i].match_.exact| ==> rules[i].match_.exact[k] in AllSelectors(rules)
    ensures forall k :: 0 <= k < |rules[i].match_.regex| ==> rules[i].match_.regex[k] in AllSelectors(rules)
  {
    assert SelectorsOf(rules[i].match_) <= AllSelectors(rules);
  }

  /** Evaluates the rules in order, through the memo, for the line the context holds. */
  method FirstMatching(f: LineFilter, fc: FilterCtx, matches: (string, string) -> bool) returns (i: nat)
    requires f.Valid() && fc.Valid() && fc.ki == f.ki && CollisionFree(AllSelectors(f.rules)) && fc.ctx.memo == map[]
    modifies fc.ctx, fc.ctx.slots, fc.line`vals, fc.line`raws, fc.line`parsed
    ensures fc.Valid()
    ensures i == FirstMatch(f.rules, fc.CurrentView(), matches)
  {
    hide FilterCtx.Valid, FirstMatch, MatchesView, Truthful, CollisionFree, SelectorsOf, AllSelectors;
    i := 0;
    NothingIsTruthful(AllSelectors(f.rules), fc.CurrentView(), matches);
    while i < |f.rules|
      invariant 0 <= i <= |f.rules|
      invariant fc.Valid() && (fc.ctx.slots == old(fc.ctx.slots) || fresh(fc.ctx.slots))
      invariant Truthful(fc.ctx.memo, AllSelectors(f.rules), fc.CurrentView(), matches)
      invariant forall k :: 0 <= k < i ==> !MatchesView(f.rules[k].match_, fc.CurrentView(), matches)
    {
      RuleSelectors(f.rules, i);
      var matched := Match(f.rules[i].match_, fc, matches, AllSelectors(f.rules));
      if matched {
        break;
      }
      i := i + 1;
    }
    FirstMatchIs(f.rules, fc.CurrentView(), matches, i);
  }

  /** The same for a line a pooled context has not seen yet. */
  method Evaluate(f: LineFilter, fc: FilterCtx, lookup: Option<string -> string>, line: string,
                  matches: (string, string) -> bool) returns (i: nat)
    requires f.Valid() && fc.Valid() && fc.ki == f.ki && CollisionFree(AllSelectors(f.rules))
    modifies fc, fc.ctx, fc.ctx.slots, fc.line
    ensures fc.Valid()
    ensures i == FirstMatch(f.rules, ViewOf(f, lookup, line, fc.decode), matches)
  {
    fc.Begin(lookup, line);
    hide FilterCtx.Valid, FirstMatch, LineFilter.Valid, CollisionFree, AllSelectors;
    i := FirstMatching(f, fc, matches);
  }

  /** Rule i decides, counting the line when it samples; a line no rule matches is kept. */
  method Judge(f: LineFilter, i: nat) returns (keep: bool)
    requires f.Valid() && i <= |f.rules|
    modifies if i < |f.rules| then {f.rules[i]} else {}
    ensures keep <==>
      i == |f.rules| || (!f.rules[i].drop && (f.rules[i].keep == 0 || InSample(old(f.rules[i].picked), f.rules[i].keep)))
    ensures forall j :: 0 <= j < |f.rules| ==>
              f.rules[j].picked
              == old(f.rules[j].picked) + if j == i && !f.rules[i].drop && f.rules[i].keep > 0 then 1 else 0
  {
    keep := true;
    if i < |f.rules| {
      keep := !f.rules[i].drop;
      if keep && f.rules[i].keep > 0 {
        keep := f.rules[i].Sampled();
      }
    }
  }

  /** The verdict on one line, whatever lines the pooled context served before. */
  method Keep(f: LineFilter, fc: FilterCtx, lookup: Option<string -> string>, line: string,
              matches: (string, string) -> bool) returns (keep: bool)
    requires f.Valid() && fc.Valid() && fc.ki == f.ki && CollisionFree(AllSelectors(f.rules))
    modifies fc, fc.ctx, fc.ctx.slots, fc.line
    modifies set j | 0 <= j < |f.rules| :: f.rules[j]
    ensures f.Valid() && fc.Valid()
    ensures var i := FirstMatch(f.rules, ViewOf(f, lookup, line, fc.decode), matches);
            && (keep <==>
                  i == |f.rules| || (!f.rules[i].drop && (f.rules[i].keep == 0 || InSample(old(f.rules[i].picked), f.rules[i].keep))))
            && forall j :: 0 <= j < |f.rules| ==>
                 f.rules[j].picked
                 == old(f.rules[j].picked) + if j == i && !f.rules[i].drop && f.rules[i].keep > 0 then 1 else 0
  {
    hide *;
    var i := Evaluate(f, fc, lookup, line, matches);
    keep := Judge(f, i);
    fc.End();
  }

  /** A rule as configured. */
  datatype LineRule = LineRule(action: string, match_: seq<string>, matchRegexp: seq<string>, sample: real)

  /** A sample in parts per SAMPLE_DEN, rounded half up; a whole sample is no sampling at all. */
  function SampleParts(sample: real): (keep: nat)
    requires sample >= 0.0
  {
    var keep := (sample * SAMPLE_DEN as real + 0.5).Floor;
    if keep < SAMPLE_DEN then (if keep > 1 then keep else 1) else 0
  }

  /** The rounded sample is a real sample, within half a part of the configured one; it is absent
      only when the configured one is within half a part of everything. */
  lemma {:induction false} SamplePartsIsClose(sample: real)
    requires 0.000000001 <= sample <= 1.0
    ensures SampleParts(sample) < SAMPLE_DEN
    ensures SampleParts(sample) > 0 ==>
              -0.5 <= sample * SAMPLE_DEN as real - SampleParts(sample) as real <= 0.5
    ensures SampleParts(sample) == 0 <==> sample * SAMPLE_DEN as real >= SAMPLE_DEN as real - 0.5
  {
  }

  /** The configurations the constructor takes. */
  ghost predicate Acceptable(h: Hashing, compiles: string -> bool, r: LineRule) {
    && (r.action == "keep" || r.action == "drop")
    && (r.sample != 0.0 ==> r.action == "keep" && 0.000000001 <= r.sample <= 1.0)
    && (r.match_ != [] || r.matchRegexp != [])
    && (forall i :: 0 <= i < |r.match_| ==> Compile(h, compiles, r.match_[i], false).Ok?)
    && (forall i :: 0 <= i < |r.matchRegexp| ==> Compile(h, compiles, r.matchRegexp[i], true).Ok?)
  }

  ghost predicate SpellsOne(compiles: string -> bool, s: string, regex: bool) {
    exists c: Selector, expr :: c.regex == regex && Spells(compiles, s, c, expr)
  }

  /** Some selector of the list spells nothing: it has no label and operator, or no valid expression. */
  ghost predicate SpellsNothing(compiles: string -> bool, spelled: seq<string>, regex: bool) {
    exists i :: 0 <= i < |spelled| && !SpellsOne(compiles, spelled[i], regex)
  }

  /** Exactly what is refused: an action that is neither keep nor drop, a sample on a drop rule or out of range,
      a rule without selectors, and a selector that spells nothing. */
  lemma {:induction false} RefusedIff(h: Hashing, compiles: string -> bool, r: LineRule)
    ensures !Acceptable(h, compiles, r) <==>
      || r.action !in {"keep", "drop"}
      || (r.action == "drop" && r.sample != 0.0)
      || (r.action == "keep" && r.sample != 0.0 && (r.sample < 0.000000001 || 1.0 < r.sample))
      || (|r.match_| == 0 && |r.matchRegexp| == 0)
      || SpellsNothing(compiles, r.match_, false)
      || SpellsNothing(compiles, r.matchRegexp, true)
  {
    hide Compile, SpellsNothing;
    AllCompileIff(h, compiles, r.match_, false);
    AllCompileIff(h, compiles, r.matchRegexp, true);
  }

  lemma {:induction false} AllCompileIff(h: Hashing, compiles: string -> bool, spelled: seq<string>, regex: bool)
    ensures SpellsNothing(compiles, spelled, regex) <==> exists i :: 0 <= i < |spelled| && !Compile(h, compiles, spelled[i], regex).Ok?
  {
    hide Compile, SpellsOne;
    forall i | 0 <= i < |spelled| ensures Compile(h, compiles, spelled[i], regex).Ok? <==> SpellsOne(compiles, spelled[i], regex) {
      CompilesIff(h, compiles, spelled[i], regex);
    }
  }

  lemma {:induction false} CompilesIff(h: Hashing, compiles: string -> bool, s: string, regex: bool)
    ensures Compile(h, compiles, s, regex).Ok? <==> SpellsOne(compiles, s, regex)
  {
    hide Compile, HashOf;
    var parsed := Compile(h, compiles, s, regex);
    if parsed.Ok? {
      CompiledIff(h, compiles, s, regex, parsed.value);
    }
    forall c: Selector, expr | c.regex == regex && Spells(compiles, s, c, expr) ensures parsed.Ok? {
      var d := c.(hash := HashOf(h, regex, c.key, c.expr));
      assert Spells(compiles, s, d, expr);
      CompiledIff(h, compiles, s, regex, d);
    }
  }

  ghost predicate CompiledAs(h: Hashing, compiles: string -> bool, r: LineRule, c: LineFilterRule) {
    && Acceptable(h, compiles, r)
    && CompilesTo(h, compiles, r.match_, false, c.match_.exact)
    && CompilesTo(h, compiles, r.matchRegexp, true, c.match_.regex)
    && c.drop == (r.action == "drop")
    && c.keep == if r.sample == 0.0 then 0 else SampleParts(r.sample)
  }

  /** What a configured selector says of a line: its key resolves to the value it reads as, or to a text that
      its pattern matches; or not so, when it is negated. */
  ghost predicate SelectorHolds(spelled: string, regex: bool, view: View, matches: (string, string) -> bool) {
    forall key: string, want: bool, expr: string ::
      LabelOk(key) && spelled == Spell(Parts(key, expr, want)) ==>
        want == if regex then matches(expr, view.Get(key)) else view.Get(key) == Unescaped(expr)
  }

  ghost predicate RuleHolds(r: LineRule, view: View, matches: (string, string) -> bool) {
    && (forall i :: 0 <= i < |r.match_| ==> SelectorHolds(r.match_[i], false, view, matches))
    && (forall i :: 0 <= i < |r.matchRegexp| ==> SelectorHolds(r.matchRegexp[i], true, view, matches))
  }

  lemma {:induction false} SelectorAsSpelled(h: Hashing, compiles: string -> bool, spelled: string, regex: bool, c: Selector,
                                             view: View, matches: (string, string) -> bool)
    requires Compile(h, compiles, spelled, regex) == Ok(c)
    ensures (Outcome(c, view, matches) == c.want) <==> SelectorHolds(spelled, regex, view, matches)
  {
    hide View.Get, Unescaped, LabelOk, ParseSelector;
    var p := ParseSelector(spelled).value;
    ParseIffSpelled(spelled, p);
    forall key: string, want: bool, expr: string | LabelOk(key) && spelled == Spell(Parts(key, expr, want))
      ensures Parts(key, expr, want) == p
    {
      ParseIffSpelled(spelled, Parts(key, expr, want));
    }
    assert Parts(p.key, p.expr, p.want) == p;
  }

  /** The rule that decides is the first one that holds as it is configured. */
  lemma {:induction false} FirstMatchAsConfigured(h: Hashing, compiles: string -> bool, configured: seq<LineRule>, rules: seq<LineFilterRule>,
                                                  view: View, matches: (string, string) -> bool, i: nat)
    requires |configured| == |rules| && forall k :: 0 <= k < |rules| ==> CompiledAs(h, compiles, configured[k], rules[k])
    requires i <= |rules|
    ensures FirstMatch(rules, view, matches) == i <==>
      && (forall k :: 0 <= k < i ==> !RuleHolds(configured[k], view, matches))
      && (i < |rules| ==> RuleHolds(configured[i], view, matches))
  {
    hide View.Get, SelectorHolds, Outcome, Compile, FirstMatch, Acceptable;
    forall k | 0 <= k < |rules| ensures MatchesView(rules[k].match_, view, matches) <==> RuleHolds(configured[k], view, matches) {
      assert CompiledAs(h, compiles, configured[k], rules[k]);
      forall n | 0 <= n < |configured[k].match_| {
        SelectorAsSpelled(h, compiles, configured[k].match_[n], false, rules[k].match_.exact[n], view, matches);
      }
      forall n | 0 <= n < |configured[k].matchRegexp| {
        SelectorAsSpelled(h, compiles, configured[k].matchRegexp[n], true, rules[k].match_.regex[n], view, matches);
      }
    }
    hide RuleHolds, MatchesView, CompiledAs;
    FirstMatchFound(rules, view, matches);
    if (forall k :: 0 <= k < i ==> !RuleHolds(configured[k], view, matches)) && (i < |rules| ==> RuleHolds(configured[i], view, matches)) {
      FirstMatchIs(rules, view, matches, i);
    }
  }

  ghost predicate KeysRegistered(sels: Selectors, keys: set<string>) {
    forall s :: s in SelectorsOf(sels) && !Synthetic(s.key) ==> s.key in keys
  }

  /** Registers the keys of a list of selectors. */
  method RegisterKeys(ki: KeyIndex, sels: seq<Selector>)
    requires ki.Valid()
    modifies ki
    ensures ki.Valid() && old(ki.slots.Keys) <= ki.slots.Keys
    ensures forall i :: 0 <= i < |sels| && !Synthetic(sels[i].key) ==> sels[i].key in ki.slots
  {
    for i := 0 to |sels|
      invariant ki.Valid() && old(ki.slots.Keys) <= ki.slots.Keys
      invariant forall k :: 0 <= k < i && !Synthetic(sels[k].key) ==> sels[k].key in ki.slots
    {
      ki.Add(sels[i].key);
    }
  }

  /** One rule, checked in the order the code checks it. */
  method CompileRule(h: Hashing, compiles: string -> bool, r: LineRule) returns (c: Result<LineFilterRule>)
    ensures c.Ok? <==> Acceptable(h, compiles, r)
    ensures c.Ok? ==> fresh(c.value) && CompiledAs(h, compiles, r, c.value) && c.value.picked == 0
  {
    var drop := false;
    if r.action == "keep" {
    } else if r.action == "drop" {
      drop := true;
    } else {
      return Err("want keep or drop");
    }
    var keep := 0;
    if r.sample != 0.0 {
      if drop {
        return Err("sample is only valid on keep rules");
      }
      if r.sample < 0.000000001 || r.sample > 1.0 {
        return Err("want 1e-9 <= sample <= 1");
      }
      keep := SampleParts(r.sample);
    }
    if r.match_ == [] && r.matchRegexp == [] {
      return Err("empty match would apply to every line");
    }
    var exact := ParseSelectors(h, compiles, r.match_, false);
    if exact.Err? {
      return Err(exact.message);
    }
    var regex := ParseSelectors(h, compiles, r.matchRegexp, true);
    if regex.Err? {
      return Err(regex.message);
    }
    var rule := new LineFilterRule(Selectors(exact.value, regex.value), drop, keep);
    c := Ok(rule);
  }

  /** Compiles a rule list: refused exactly when some rule is not acceptable; no rules, no filter. */
  method NewLineFilter(h: Hashing, compiles: string -> bool, rules: seq<LineRule>) returns (f: Result<LineFilter?>)
    ensures f.Ok? <==> forall i :: 0 <= i < |rules| ==> Acceptable(h, compiles, rules[i])
    ensures f.Ok? ==> (f.value == null <==> rules == [])
    ensures f.Ok? && f.value != null ==>
              && f.value.Valid() && |f.value.rules| == |rules|
              && forall i :: 0 <= i < |rules| ==>
                   CompiledAs(h, compiles, rules[i], f.value.rules[i]) && f.value.rules[i].picked == 0
  {
    if rules == [] {
      return Ok(null);
    }
    var ki := new KeyIndex();
    var compiled: seq<LineFilterRule> := [];
    for n := 0 to |rules|
      invariant ki.Valid() && fresh(ki) && |compiled| == n
      invariant forall i :: 0 <= i < n ==> fresh(compiled[i]) && compiled[i].picked == 0 && CompiledAs(h, compiles, rules[i], compiled[i])
      invariant forall i, j :: 0 <= i < j < n ==> compiled[i] != compiled[j]
      invariant forall i :: 0 <= i < n ==> KeysRegistered(compiled[i].match_, ki.slots.Keys)
    {
      var c := CompileRule(h, compiles, rules[n]);
      if c.Err? {
        return Err(c.message);
      }
      hide CompiledAs, Acceptable;
      RegisterKeys(ki, c.value.match_.exact);
      RegisterKeys(ki, c.value.match_.regex);
      compiled := compiled + [c.value];
    }
    var filter := new LineFilter(compiled, ki);
    forall i | 0 <= i < |compiled| ensures compiled[i].keep < SAMPLE_DEN && (compiled[i].drop ==> compiled[i].keep == 0) {
      assert CompiledAs(h, compiles, rules[i], compiled[i]);
    }
    f := Ok(filter);
  }
}
