/** What any text between the braces of a label string says, piece by piece, and that the parser reads just
    that (internal/metrics/labels.go). */
module LabelReading {
  import opened Bytes
  import opened Sorting
  import opened LabelText
  import opened Wrappers

  /** A piece of a key or a value: a byte behind a backslash, a bare quote, or a byte that stands for itself. */
  datatype Piece = Escaped(b: byte) | Quote | Plain(b: byte)

  function Spelled(p: Piece): Text {
    match p case Escaped(b) => [BACKSLASH, b] case Quote => [QUOTE] case Plain(b) => [b]
  }

  function SpelledAll(ps: seq<Piece>): Text {
    if ps == [] then [] else Spelled(ps[0]) + SpelledAll(ps[1..])
  }

  /** A backslash and n is a line break, and a backslash and any other byte is that byte. */
  function Behind(b: byte): byte {
    if b == LOWER_N then NEWLINE else b
  }

  // ----- Keys -----

  /** In a key a quote is a byte as any other, and a bare '=' would end it. */
  predicate KeyOk(ps: seq<Piece>) {
    forall i :: 0 <= i < |ps| ==> KeyPieceOk(ps[i])
  }

  function KeyMeant(ps: seq<Piece>): Text
    requires KeyOk(ps)
  {
    seq(|ps|, i requires 0 <= i < |ps| => if ps[i].Escaped? then Behind(ps[i].b) else ps[i].b)
  }

  /** A key is found in front of its bare '=', and read as it is meant. */
  lemma {:induction false} KeyIsRead(ps: seq<Piece>, rest: Text)
    requires KeyOk(ps)
    ensures EqIndex(SpelledAll(ps) + ([EQUALS] + rest)) == |SpelledAll(ps)|
    ensures Unescaped(SpelledAll(ps)) == KeyMeant(ps)
  {
    hide EqIndex, LabelText.Unescaped, KeyMeant, Spelled, SpelledAll, KeyByte, KeyPieceOk;
    SpelledFirst(ps);
    if ps == [] {
      assert SpelledAll(ps) + ([EQUALS] + rest) == [EQUALS] + rest;
      EqIndexHere(rest);
      NothingMeant();
    } else {
      KeyIsRead(ps[1..], rest);
      PieceIsPassed(ps[0], SpelledAll(ps[1..]) + ([EQUALS] + rest));
      PieceIsUnescaped(ps[0], SpelledAll(ps[1..]));
      assert SpelledAll(ps) + ([EQUALS] + rest) == Spelled(ps[0]) + (SpelledAll(ps[1..]) + ([EQUALS] + rest));
      MeantFirst(ps);
    }
  }

  predicate KeyPieceOk(p: Piece) {
    !p.Quote? && (p.Plain? ==> p.b != BACKSLASH && p.b != EQUALS)
  }

  function KeyByte(p: Piece): byte
    requires KeyPieceOk(p)
  {
    if p.Escaped? then Behind(p.b) else p.b
  }

  lemma {:induction false} SpelledFirst(ps: seq<Piece>)
    ensures SpelledAll(ps) == if ps == [] then [] else Spelled(ps[0]) + SpelledAll(ps[1..])
  {
  }

  lemma {:induction false} NothingMeant()
    ensures KeyMeant([]) == [] && LabelText.Unescaped([]) == []
  {
  }

  lemma {:induction false} MeantFirst(ps: seq<Piece>)
    requires KeyOk(ps) && ps != []
    ensures KeyMeant(ps) == [KeyByte(ps[0])] + KeyMeant(ps[1..])
  {
  }

  lemma {:induction false} PieceIsPassed(p: Piece, rest: Text)
    requires KeyPieceOk(p)
    ensures EqIndex(Spelled(p) + rest) == if EqIndex(rest) < 0 then -1 else |Spelled(p)| + EqIndex(rest)
  {
    assert (Spelled(p) + rest)[|Spelled(p)|..] == rest;
  }

  lemma {:induction false} PieceIsUnescaped(p: Piece, rest: Text)
    requires KeyPieceOk(p)
    ensures LabelText.Unescaped(Spelled(p) + rest) == [KeyByte(p)] + LabelText.Unescaped(rest)
  {
    assert (Spelled(p) + rest)[|Spelled(p)|..] == rest;
  }

  /** Without a bare '=' there is none to find. */
  lemma {:induction false} NoKey(ps: seq<Piece>, dangling: bool)
    requires KeyOk(ps)
    ensures EqIndex(SpelledAll(ps) + if dangling then [BACKSLASH] else []) == -1
  {
    var tail := if dangling then [BACKSLASH] else [];
    var s := SpelledAll(ps) + tail;
    if ps == [] {
      assert s == tail;
    } else {
      NoKey(ps[1..], dangling);
      PieceIsPassed(ps[0], SpelledAll(ps[1..]) + tail);
      assert s == Spelled(ps[0]) + (SpelledAll(ps[1..]) + tail);
    }
  }

  /** Every text is a key and its bare '=', or has none. */
  lemma {:induction false} TextIsKey(s: Text) returns (ps: seq<Piece>, found: bool, rest: Text)
    ensures KeyOk(ps) && if found then s == SpelledAll(ps) + ([EQUALS] + rest)
                         else s == SpelledAll(ps) + rest && (rest == [] || rest == [BACKSLASH])
    decreases |s|
  {
    hide SpelledAll;
    SpelledFirst([]);
    if s == [] || s == [BACKSLASH] {
      ps, found, rest := [], false, s;
    } else if s[0] == EQUALS {
      ps, found, rest := [], true, s[1..];
    } else {
      var p := if s[0] == BACKSLASH then Escaped(s[1]) else Plain(s[0]);
      assert s == Spelled(p) + s[|Spelled(p)|..];
      var more;
      more, found, rest := TextIsKey(s[|Spelled(p)|..]);
      ps := [p] + more;
      assert ps[1..] == more;
      SpelledFirst(ps);
      assert forall i :: 0 < i < |ps| ==> ps[i] == more[i - 1];
    }
  }

  // ----- Values -----

  /** A value may hold a bare comma only between two bare quotes. */
  predicate ValueOk(ps: seq<Piece>, quoted: bool)
    decreases |ps|
  {
    ps != [] ==>
      && (ps[0].Plain? ==> ps[0].b != BACKSLASH && ps[0].b != QUOTE && (ps[0].b == COMMA ==> quoted))
      && ValueOk(ps[1..], if ps[0].Quote? then !quoted else quoted)
  }

  /** Whether the pieces leave a quote open. */
  predicate LeavesOpen(ps: seq<Piece>, quoted: bool)
    decreases |ps|
  {
    if ps == [] then quoted else LeavesOpen(ps[1..], if ps[0].Quote? then !quoted else quoted)
  }

  /** Bare quotes are dropped. */
  function ValueMeant(ps: seq<Piece>): Text {
    if ps == [] then []
    else (match ps[0] case Escaped(b) => [Behind(b)] case Quote => [] case Plain(b) => [b]) + ValueMeant(ps[1..])
  }

  /** How a value ends: at a comma outside quotes, with more to come, or at the end of the text, where a
      backslash that is left over is dropped. */
  datatype Ending = Comma(rest: Text) | End(dangling: bool)

  function SpelledEnding(e: Ending): Text {
    match e case Comma(rest) => [COMMA] + rest case End(dangling) => if dangling then [BACKSLASH] else []
  }

  function Remaining(e: Ending): Text {
    match e case Comma(rest) => rest case End(_) => []
  }

  predicate EndsThere(ps: seq<Piece>, quoted: bool, e: Ending) {
    ValueOk(ps, quoted) && (e.Comma? ==> !LeavesOpen(ps, quoted))
  }

  lemma {:induction false} ValueIsRead(ps: seq<Piece>, quoted: bool, e: Ending)
    requires EndsThere(ps, quoted, e)
    ensures Scan(SpelledAll(ps) + SpelledEnding(e), quoted, false) == Scanned(ValueMeant(ps), Remaining(e))
    decreases |ps|
  {
    hide Scan, ValueMeant, SpelledEnding, Remaining;
    if ps == [] {
      assert SpelledAll(ps) + SpelledEnding(e) == SpelledEnding(e);
      EndingIsRead(quoted, e);
    } else {
      ValueIsRead(ps[1..], if ps[0].Quote? then !quoted else quoted, e);
      var rest := SpelledAll(ps[1..]) + SpelledEnding(e);
      assert SpelledAll(ps) + SpelledEnding(e) == Spelled(ps[0]) + rest;
      PieceIsRead(ps, quoted, rest);
    }
  }

  lemma {:induction false} EndingIsRead(quoted: bool, e: Ending)
    requires e.Comma? ==> !quoted
    ensures Scan(SpelledEnding(e), quoted, false) == Scanned(ValueMeant([]), Remaining(e))
  {
    hide Scan;
    ScanNothing(quoted, true);
    ScanNothing(quoted, false);
    if e.Comma? {
      ScanCons(COMMA, e.rest, quoted, false);
    } else {
      ScanCons(BACKSLASH, [], quoted, false);
      assert [BACKSLASH] + [] == [BACKSLASH];
    }
  }

  lemma {:induction false} PieceIsRead(ps: seq<Piece>, quoted: bool, rest: Text)
    requires ps != [] && ValueOk(ps, quoted)
    ensures
      var r := Scan(rest, if ps[0].Quote? then !quoted else quoted, false);
      r.value == ValueMeant(ps[1..]) ==> Scan(Spelled(ps[0]) + rest, quoted, false) == Scanned(ValueMeant(ps), r.rest)
  {
    hide Scan;
    match ps[0]
    case Quote => ScanCons(QUOTE, rest, quoted, false);
    case Plain(b) => ScanCons(b, rest, quoted, false);
    case Escaped(b) =>
      assert [BACKSLASH, b] + rest == [BACKSLASH] + ([b] + rest);
      ScanCons(BACKSLASH, [b] + rest, quoted, false);
      ScanCons(b, rest, quoted, true);
  }

  /** Every text is a value and its ending. */
  lemma {:induction false} TextIsValue(s: Text, quoted: bool) returns (ps: seq<Piece>, e: Ending)
    ensures EndsThere(ps, quoted, e) && s == SpelledAll(ps) + SpelledEnding(e)
    decreases |s|
  {
    hide ValueOk, LeavesOpen, SpelledAll, Spelled, SpelledEnding;
    NoPieces(quoted);
    if s == [] || s == [BACKSLASH] {
      ps, e := [], End(s != []);
      EndingSpelled(e);
    } else if s[0] == COMMA && !quoted {
      ps, e := [], Comma(s[1..]);
      EndingSpelled(e);
    } else {
      var p := FirstPiece(s);
      ps, e := TextIsValue(s[|Spelled(p)|..], if p.Quote? then !quoted else quoted);
      OneMorePiece(p, ps, quoted);
      assert Spelled(p) + (SpelledAll(ps) + SpelledEnding(e)) == (Spelled(p) + SpelledAll(ps)) + SpelledEnding(e);
      ps := [p] + ps;
    }
  }

  lemma {:induction false} EndingSpelled(e: Ending)
    ensures SpelledEnding(e) == match e case Comma(rest) => [COMMA] + rest case End(dangling) => if dangling then [BACKSLASH] else []
  {
  }

  lemma {:induction false} FirstPiece(s: Text) returns (p: Piece)
    requires s != [] && s != [BACKSLASH]
    ensures Spelled(p) != [] && |Spelled(p)| <= |s| && s == Spelled(p) + s[|Spelled(p)|..]
    ensures p.Plain? ==> p.b == s[0] && p.b != BACKSLASH && p.b != QUOTE
  {
    p := if s[0] == BACKSLASH then Escaped(s[1]) else if s[0] == QUOTE then Quote else Plain(s[0]);
  }

  lemma {:induction false} NoPieces(quoted: bool)
    ensures ValueOk([], quoted) && LeavesOpen([], quoted) == quoted && SpelledAll([]) == []
  {
  }

  lemma {:induction false} OneMorePiece(p: Piece, ps: seq<Piece>, quoted: bool)
    ensures
      var after := if p.Quote? then !quoted else quoted;
      && (ValueOk([p] + ps, quoted) <==>
            (p.Plain? ==> p.b != BACKSLASH && p.b != QUOTE && (p.b == COMMA ==> quoted)) && ValueOk(ps, after))
      && LeavesOpen([p] + ps, quoted) == LeavesOpen(ps, after)
      && SpelledAll([p] + ps) == Spelled(p) + SpelledAll(ps)
  {
    assert ([p] + ps)[1..] == ps;
  }

  // ----- Items -----

  /** One item of a label string: a space that is skipped, a key, '=', a value and its ending. Without the
      space the key does not begin with one. */
  datatype Item = Item(space: bool, key: seq<Piece>, value: seq<Piece>, ending: Ending)

  predicate ItemOk(it: Item) {
    KeyOk(it.key) && EndsThere(it.value, false, it.ending) && (it.space || it.key == [] || it.key[0] != Plain(SPACE))
  }

  function SpelledItem(it: Item): Text {
    (if it.space then [SPACE] else []) + (SpelledAll(it.key) + ([EQUALS] + (SpelledAll(it.value) + SpelledEnding(it.ending))))
  }

  /** The parser takes one item off the front: refused without a key, dropped without a value. */
  lemma {:induction false} ItemIsRead(it: Item)
    requires ItemOk(it)
    ensures ParsedBody(SpelledItem(it)) ==
      if it.key == [] then None
      else Joined(if ValueMeant(it.value) == [] then [] else [Pair(KeyMeant(it.key), ValueMeant(it.value))], ParsedBody(Remaining(it.ending)))
  {
    hide *;
    var s, value := SpelledItem(it), SpelledAll(it.value) + SpelledEnding(it.ending);
    ItemPieces(it);
    KeyIsRead(it.key, value);
    ValueIsRead(it.value, false, it.ending);
    var t, eq := WithoutSpace(s), |SpelledAll(it.key)|;
    assert t[..eq] == SpelledAll(it.key) && t[eq + 1..] == value;
    ParsedBodyStep(s, []);
    JoinedNothing([], ParsedBody(s));
    ReadFirst(Pair(KeyMeant(it.key), ValueMeant(it.value)));
  }

  lemma {:induction false} ReadFirst(p: Pair)
    ensures [] + [p] == [p]
  {
  }

  lemma {:induction false} ItemPieces(it: Item)
    requires ItemOk(it)
    ensures SpelledItem(it) != [] && KeyOk(it.key) && EndsThere(it.value, false, it.ending)
    ensures WithoutSpace(SpelledItem(it)) ==
      SpelledAll(it.key) + ([EQUALS] + (SpelledAll(it.value) + SpelledEnding(it.ending)))
    ensures KeyMeant(it.key) == [] <==> it.key == []
  {
    hide SpelledAll, EndsThere;
    var value := SpelledAll(it.value) + SpelledEnding(it.ending);
    var t := SpelledAll(it.key) + ([EQUALS] + value);
    if it.space {
      assert SpelledItem(it)[1..] == t;
    } else {
      assert SpelledItem(it) == t;
      FirstOfKey(it.key, value);
    }
  }

  lemma {:induction false} FirstOfKey(ps: seq<Piece>, value: Text)
    requires KeyOk(ps) && (ps == [] || ps[0] != Plain(SPACE))
    ensures (SpelledAll(ps) + ([EQUALS] + value))[0] != SPACE
  {
  }

  /** A text that has no bare '=' is refused. */
  lemma {:induction false} NoItemIsRefused(s: Text, ps: seq<Piece>, dangling: bool)
    requires s != [] && KeyOk(ps) && WithoutSpace(s) == SpelledAll(ps) + if dangling then [BACKSLASH] else []
    ensures ParsedBody(s) == None
  {
    hide EqIndex, LabelText.Unescaped, Scan;
    NoKey(ps, dangling);
  }

  /** Every text but the empty one is an item, or has no bare '='. */
  lemma {:induction false} TextIsItem(s: Text) returns (it: Item, found: bool, ps: seq<Piece>, dangling: bool)
    requires s != []
    ensures if found then ItemOk(it) && s == SpelledItem(it)
            else KeyOk(ps) && WithoutSpace(s) == SpelledAll(ps) + if dangling then [BACKSLASH] else []
  {
    hide SpelledAll, EndsThere;
    var t := WithoutSpace(s);
    var rest;
    ps, found, rest := TextIsKey(t);
    dangling := rest == [BACKSLASH];
    it := Item(t != s, ps, [], End(false));
    if found {
      var value, ending := TextIsValue(rest, false);
      it := Item(|t| < |s|, ps, value, ending);
      assert t == SpelledAll(it.key) + ([EQUALS] + (SpelledAll(it.value) + SpelledEnding(it.ending)));
      if !it.space {
        assert t == s;
        KeyBeginsText(ps, rest);
      } else {
        assert s == [SPACE] + t;
      }
    }
  }

  lemma {:induction false} KeyBeginsText(ps: seq<Piece>, rest: Text)
    requires KeyOk(ps) && (SpelledAll(ps) + ([EQUALS] + rest))[0] != SPACE
    ensures ps == [] || ps[0] != Plain(SPACE)
  {
  }

  /** A label string is a text between braces. */
  lemma {:induction false} ParsedIff(s: Text)
    ensures Parsed(s).Some? <==> exists body :: s == [OPEN] + body + [CLOSE] && ParsedBody(body).Some?
    ensures forall body :: s == [OPEN] + body + [CLOSE] && ParsedBody(body).Some? ==>
      Parsed(s) == Some(Sort(ParsedBody(body).value, KeyAtMost))
  {
    hide ParsedBody;
    forall body | s == [OPEN] + body + [CLOSE] ensures s[1..|s| - 1] == body && |s| >= 2 && s[0] == OPEN && s[|s| - 1] == CLOSE {
    }
    if |s| >= 2 && s[0] == OPEN && s[|s| - 1] == CLOSE {
      assert s == [OPEN] + s[1..|s| - 1] + [CLOSE];
    }
  }

  // ----- The format -----

  function Of(s: string): Text
    requires forall i :: 0 <= i < |s| ==> s[i] as int < 256
  {
    seq(|s|, i requires 0 <= i < |s| => s[i] as int as byte)
  }

  lemma {:induction false} FirstPair()
    ensures PairText(Pair(Of(" a="), Of("x\"\n"))) == Of("\\ a\\==\"x\\\"\\n\"")
  {
  }

  lemma {:induction false} SecondPair()
    ensures PairText(Pair(Of("b"), Of("1"))) == Of("b=\"1\"")
  {
  }

  lemma {:induction false} InOrder(p: Pair, q: Pair)
    requires p.value != [] && q.value != [] && !AtMost(p.key, q.key)
    ensures Rendered([p, q]) == [q, p]
  {
    assert [p, q][1..] == [q] && [q][1..] == [];
    assert NonEmpty([q]) == [q] && NonEmpty([p, q]) == [p, q];
    assert Sort([q], KeyAtMost) == Insert(q, Sort([], KeyAtMost), KeyAtMost) == [q];
    assert Insert(p, [q], KeyAtMost) == [q] + Insert(p, [], KeyAtMost) == [q, p];
    assert Sort([p, q], KeyAtMost) == Insert(p, Sort([q], KeyAtMost), KeyAtMost);
  }

  lemma {:induction false} TwoPairs(p: Pair, q: Pair)
    ensures Body([p, q]) == PairText(p) + ([COMMA, SPACE] + PairText(q))
  {
    hide PairText;
    assert [p, q][1..] == [q];
  }

  /** The bytes of the printed form. */
  lemma {:induction false} PrintedPair()
    ensures Printed([Pair(Of("b"), Of("1")), Pair(Of(" a="), Of("x\"\n"))]) == Of("{\\ a\\==\"x\\\"\\n\", b=\"1\"}")
  {
    hide PairText, Body, Rendered;
    var p, q := Pair(Of("b"), Of("1")), Pair(Of(" a="), Of("x\"\n"));
    InOrder(p, q);
    FirstPair();
    SecondPair();
    TwoPairs(q, p);
    PrintedBody(p, q);
    var a, b := Of("\\ a\\==\"x\\\"\\n\""), Of("b=\"1\"");
    assert [OPEN] + (a + ([COMMA, SPACE] + b)) + [CLOSE] == Of("{\\ a\\==\"x\\\"\\n\", b=\"1\"}");
  }

  lemma {:induction false} PrintedBody(p: Pair, q: Pair)
    ensures Printed([p, q]) == [OPEN] + Body(Rendered([p, q])) + [CLOSE]
  {
  }
}
