/** The printed form of a label set and the parser that reads it back (internal/metrics/labels.go). */
module LabelText {
  import opened Bytes
  import opened Sorting
  import opened Wrappers

  datatype Pair = Pair(key: Text, value: Text)
  datatype Scanned = Scanned(value: Text, rest: Text)

  const QUOTE: byte := 34
  const BACKSLASH: byte := 92
  const NEWLINE: byte := 10
  const EQUALS: byte := 61
  const COMMA: byte := 44
  const SPACE: byte := 32
  const OPEN: byte := 123
  const CLOSE: byte := 125
  const LOWER_N: byte := 110

  // ----- Values: escaping and scanning -----

  function EscapedByte(b: byte): Text {
    if b == BACKSLASH || b == QUOTE then [BACKSLASH, b]
    else if b == NEWLINE then [BACKSLASH, LOWER_N]
    else [b]
  }

  /** The value with each byte escaped on its own. */
  function Escaped(v: Text): Text {
    if v == [] then [] else EscapedByte(v[0]) + Escaped(v[1..])
  }

  /** strings.ReplaceAll for a one-byte needle. */
  function ReplaceByte(s: Text, b: byte, new_: Text): Text {
    if s == [] then [] else (if s[0] == b then new_ else [s[0]]) + ReplaceByte(s[1..], b, new_)
  }

  function EscapeValue(v: Text): Text {
    if QUOTE !in v && BACKSLASH !in v && NEWLINE !in v then v
    else
      ReplaceByte(
        ReplaceByte(ReplaceByte(v, BACKSLASH, [BACKSLASH, BACKSLASH]), QUOTE, [BACKSLASH, QUOTE]),
        NEWLINE, [BACKSLASH, LOWER_N])
  }

  lemma {:induction false} ReplaceByteConcat(s: Text, t: Text, b: byte, new_: Text)
    ensures ReplaceByte(s + t, b, new_) == ReplaceByte(s, b, new_) + ReplaceByte(t, b, new_)
  {
    if s == [] {
      assert s + t == t;
    } else {
      assert (s + t)[1..] == s[1..] + t;
      ReplaceByteConcat(s[1..], t, b, new_);
    }
  }

  lemma {:induction false} ReplaceOne(c: byte, b: byte, new_: Text)
    ensures ReplaceByte([c], b, new_) == if c == b then new_ else [c]
  {
  }

  lemma {:induction false} ReplaceNeither(c: byte, d: byte, b: byte, new_: Text)
    requires c != b && d != b
    ensures ReplaceByte([c, d], b, new_) == [c, d]
  {
    assert [c, d] == [c] + [d];
    ReplaceByteConcat([c], [d], b, new_);
    ReplaceOne(c, b, new_);
    ReplaceOne(d, b, new_);
  }

  /** The three passes over one byte; the later passes leave what the earlier ones wrote alone. */
  lemma {:induction false} ThreePassesOnByte(c: byte)
    ensures
      ReplaceByte(
        ReplaceByte(ReplaceByte([c], BACKSLASH, [BACKSLASH, BACKSLASH]), QUOTE, [BACKSLASH, QUOTE]),
        NEWLINE, [BACKSLASH, LOWER_N]) == EscapedByte(c)
  {
    hide ReplaceByte;
    ReplaceOne(c, BACKSLASH, [BACKSLASH, BACKSLASH]);
    ReplaceOne(c, QUOTE, [BACKSLASH, QUOTE]);
    ReplaceOne(c, NEWLINE, [BACKSLASH, LOWER_N]);
    ReplaceNeither(BACKSLASH, BACKSLASH, QUOTE, [BACKSLASH, QUOTE]);
    ReplaceNeither(BACKSLASH, BACKSLASH, NEWLINE, [BACKSLASH, LOWER_N]);
    ReplaceNeither(BACKSLASH, QUOTE, NEWLINE, [BACKSLASH, LOWER_N]);
  }

  lemma {:induction false} ThreePasses(v: Text)
    ensures
      ReplaceByte(
        ReplaceByte(ReplaceByte(v, BACKSLASH, [BACKSLASH, BACKSLASH]), QUOTE, [BACKSLASH, QUOTE]),
        NEWLINE, [BACKSLASH, LOWER_N]) == Escaped(v)
  {
    if v != [] {
      var bb, bq, bn := [BACKSLASH, BACKSLASH], [BACKSLASH, QUOTE], [BACKSLASH, LOWER_N];
      assert v == v[..1] + v[1..] && v[..1] == [v[0]];
      ThreePasses(v[1..]);
      ThreePassesOnByte(v[0]);
      ReplaceByteConcat(v[..1], v[1..], BACKSLASH, bb);
      var h, t := ReplaceByte(v[..1], BACKSLASH, bb), ReplaceByte(v[1..], BACKSLASH, bb);
      ReplaceByteConcat(h, t, QUOTE, bq);
      ReplaceByteConcat(ReplaceByte(h, QUOTE, bq), ReplaceByte(t, QUOTE, bq), NEWLINE, bn);
    }
  }

  lemma {:induction false} NothingToEscape(v: Text)
    requires QUOTE !in v && BACKSLASH !in v && NEWLINE !in v
    ensures Escaped(v) == v
  {
    hide EscapedByte;
    if v != [] {
      PlainByte(v);
      NothingToEscape(v[1..]);
      assert v == [v[0]] + v[1..];
    }
  }

  lemma {:induction false} PlainByte(v: Text)
    requires v != [] && QUOTE !in v && BACKSLASH !in v && NEWLINE !in v
    ensures EscapedByte(v[0]) == [v[0]]
    ensures QUOTE !in v[1..] && BACKSLASH !in v[1..] && NEWLINE !in v[1..]
  {
    assert v[0] in v;
    assert v == [v[0]] + v[1..];
  }

  /** Escaping pass by pass is escaping byte by byte. */
  lemma {:induction false} EscapeValueIsBytewise(v: Text)
    ensures EscapeValue(v) == Escaped(v)
  {
    if QUOTE !in v && BACKSLASH !in v && NEWLINE !in v {
      NothingToEscape(v);
    } else {
      ThreePasses(v);
    }
  }

  /** What was read, behind one more byte. */
  function Behind(b: byte, r: Scanned): Scanned {
    Scanned([b] + r.value, r.rest)
  }

  /** One value off the front of a text, and what follows its comma: the whole of the reading, by the
      state it is in. */
  function Scan(s: Text, quoted: bool, escaped: bool): (r: Scanned)
    ensures |r.rest| <= |s|
  {
    if s == [] then Scanned([], [])
    else if escaped then
      Behind(if s[0] == LOWER_N then NEWLINE else s[0], Scan(s[1..], quoted, false))
    else if s[0] == BACKSLASH then Scan(s[1..], quoted, true)
    else if s[0] == QUOTE then Scan(s[1..], !quoted, false)
    else if !quoted && s[0] == COMMA then Scanned([], s[1..])
    else Behind(s[0], Scan(s[1..], quoted, false))
  }

  /** One step of the reading. */
  lemma {:induction false} ScanCons(c: byte, rest: Text, quoted: bool, escaped: bool)
    ensures escaped ==>
      Scan([c] + rest, quoted, escaped) == Behind(if c == LOWER_N then NEWLINE else c, Scan(rest, quoted, false))
    ensures !escaped && c == BACKSLASH ==> Scan([c] + rest, quoted, escaped) == Scan(rest, quoted, true)
    ensures !escaped && c == QUOTE ==> Scan([c] + rest, quoted, escaped) == Scan(rest, !quoted, false)
    ensures !escaped && !quoted && c == COMMA ==> Scan([c] + rest, quoted, escaped) == Scanned([], rest)
    ensures !escaped && (Plain(c) || (quoted && c == COMMA)) ==>
      Scan([c] + rest, quoted, escaped) == Behind(c, Scan(rest, quoted, false))
  {
  }

  predicate Plain(b: byte) {
    b != BACKSLASH && b != QUOTE && b != COMMA
  }

  /** With nothing special before the comma, the value is the text up to it. */
  lemma {:induction false} ScanPlain(s: Text, i: nat)
    requires i <= |s| && forall j :: 0 <= j < i ==> Plain(s[j])
    requires i < |s| ==> s[i] == COMMA
    ensures Scan(s, false, false) == Scanned(s[..i], if i < |s| then s[i + 1..] else [])
  {
    hide Scan;
    if i > 0 {
      assert Plain(s[0]);
      forall j | 0 <= j < i - 1 ensures Plain(s[1..][j]) {
        assert Plain(s[j + 1]);
      }
      ScanPlain(s[1..], i - 1);
      assert s == [s[0]] + s[1..];
      ScanCons(s[0], s[1..], false, false);
      assert s[..i] == [s[0]] + s[1..][..i - 1];
    } else if s == [] {
      ScanNothing(false, false);
    } else {
      assert s == [COMMA] + s[1..];
      ScanCons(COMMA, s[1..], false, false);
    }
  }

  lemma {:induction false} ScanNothing(quoted: bool, escaped: bool)
    ensures Scan([], quoted, escaped) == Scanned([], [])
  {
  }

  /** The first byte that is not plain. */
  method IndexSpecial(s: Text) returns (i: nat)
    ensures i <= |s| && (forall j :: 0 <= j < i ==> Plain(s[j])) && (i < |s| ==> !Plain(s[i]))
  {
    i := 0;
    while i < |s| && Plain(s[i])
      invariant i <= |s| && forall j :: 0 <= j < i ==> Plain(s[j])
    {
      i := i + 1;
    }
  }

  method ScanLabelValue(s: Text) returns (value: Text, rest: Text)
    ensures Scanned(value, rest) == Scan(s, false, false)
  {
    var special := IndexSpecial(s);
    if special == |s| {
      ScanPlain(s, special);
      assert s[..special] == s;
      return s, [];
    } else if s[special] == COMMA {
      ScanPlain(s, special);
      return s[..special], s[special + 1..];
    }
    value, rest := ScanSlowly(s);
  }

  /** The value read so far, and what the scan of the rest will add to it. */
  function Ahead(value: Text, r: Scanned): Scanned {
    Scanned(value + r.value, r.rest)
  }

  lemma {:induction false} AheadOfBehind(value: Text, b: byte, r: Scanned)
    ensures Ahead(value, Behind(b, r)) == Ahead(value + [b], r)
  {
  }

  lemma {:induction false} AheadOfNothing(value: Text, r: Scanned)
    ensures Ahead([], r) == r
    ensures r.value == [] ==> Ahead(value, r) == Scanned(value, r.rest)
  {
  }

  method ScanSlowly(s: Text) returns (value: Text, rest: Text)
    ensures Scanned(value, rest) == Scan(s, false, false)
  {
    hide Scan, Behind, Ahead;
    var quoted, escaped := false, false;
    value := [];
    var i: nat := 0;
    assert s[0..] == s;
    AheadOfNothing([], Scan(s, false, false));
    while i < |s|
      invariant i <= |s|
      invariant Scan(s, false, false) == Ahead(value, Scan(s[i..], quoted, escaped))
    {
      var c := s[i];
      assert s[i..] == [c] + s[i + 1..];
      ScanCons(c, s[i + 1..], quoted, escaped);
      i := i + 1;
      if escaped {
        escaped := false;
        if c == LOWER_N {
          c := NEWLINE;
        }
      } else if c == BACKSLASH {
        escaped := true;
        continue;
      } else if c == QUOTE {
        quoted := !quoted;
        continue;
      } else if !quoted && c == COMMA {
        AheadOfNothing(value, Scanned([], s[i..]));
        return value, s[i..];
      }
      AheadOfBehind(value, c, Scan(s[i..], quoted, escaped));
      value := value + [c];
    }
    assert s[i..] == [];
    ScanNothing(quoted, escaped);
    AheadOfNothing(value, Scanned([], []));
    return value, [];
  }

  /** Inside quotes, an escaped value is read back up to its closing quote. */
  lemma {:induction false} ScanEscaped(v: Text, tail: Text)
    ensures Scan(Escaped(v) + ([QUOTE] + tail), true, false) == Ahead(v, Scan(tail, false, false))
  {
    hide Scan, EscapedByte, Ahead, Behind;
    if v == [] {
      assert Escaped(v) + ([QUOTE] + tail) == [QUOTE] + tail;
      ScanCons(QUOTE, tail, true, false);
      AheadOfNothing([], Scan(tail, false, false));
    } else {
      ScanEscaped(v[1..], tail);
      var rest := Escaped(v[1..]) + ([QUOTE] + tail);
      assert Escaped(v) + ([QUOTE] + tail) == EscapedByte(v[0]) + rest;
      ScanOneEscaped(v[0], rest);
      BehindOfAhead(v, Scan(tail, false, false));
    }
  }

  lemma {:induction false} BehindOfAhead(v: Text, r: Scanned)
    requires v != []
    ensures Behind(v[0], Ahead(v[1..], r)) == Ahead(v, r)
  {
  }

  lemma {:induction false} ScanOneEscaped(b: byte, rest: Text)
    ensures Scan(EscapedByte(b) + rest, true, false) == Behind(b, Scan(rest, true, false))
  {
  }

  // ----- Keys: escaping, finding the '=', unescaping -----

  predicate HasEdgeSpace(k: Text) {
    k != [] && (k[0] == SPACE || k[|k| - 1] == SPACE)
  }

  function EscapedKeyByte(b: byte, edge: bool): Text {
    if b == BACKSLASH || b == EQUALS || b == COMMA || b == QUOTE then [BACKSLASH, b]
    else if b == NEWLINE then [BACKSLASH, LOWER_N]
    else if b == SPACE && edge then [BACKSLASH, SPACE]
    else [b]
  }

  /** The key escaped from byte i on. */
  function EscapedKeyFrom(k: Text, i: nat): Text
    requires i <= |k|
    decreases |k| - i
  {
    if i == |k| then [] else EscapedKeyByte(k[i], i == 0 || i == |k| - 1) + EscapedKeyFrom(k, i + 1)
  }

  function EscapedKey(k: Text): Text {
    EscapedKeyFrom(k, 0)
  }

  lemma {:induction false} NothingToEscapeInKey(k: Text, i: nat)
    requires i <= |k| && !HasEdgeSpace(k)
    requires EQUALS !in k && COMMA !in k && QUOTE !in k && BACKSLASH !in k && NEWLINE !in k
    ensures EscapedKeyFrom(k, i) == k[i..]
    decreases |k| - i
  {
    hide EscapedKeyByte, HasEdgeSpace;
    if i < |k| {
      NothingToEscapeInKey(k, i + 1);
      PlainKeyByte(k, i);
      assert k[i..] == [k[i]] + k[i + 1..];
    }
  }

  lemma {:induction false} PlainKeyByte(k: Text, i: nat)
    requires i < |k| && !HasEdgeSpace(k)
    requires EQUALS !in k && COMMA !in k && QUOTE !in k && BACKSLASH !in k && NEWLINE !in k
    ensures EscapedKeyByte(k[i], i == 0 || i == |k| - 1) == [k[i]]
  {
  }

  method EscapeKey(k: Text) returns (r: Text)
    ensures r == EscapedKey(k)
  {
    hide EscapedKeyFrom;
    if EQUALS !in k && COMMA !in k && QUOTE !in k && BACKSLASH !in k && NEWLINE !in k && !HasEdgeSpace(k) {
      NothingToEscapeInKey(k, 0);
      assert k[0..] == k;
      return k;
    }
    r := [];
    assert [] + EscapedKeyFrom(k, 0) == EscapedKey(k);
    for i := 0 to |k|
      invariant r + EscapedKeyFrom(k, i) == EscapedKey(k)
    {
      ghost var was := r;
      if k[i] == BACKSLASH || k[i] == EQUALS || k[i] == COMMA || k[i] == QUOTE {
        r := r + [BACKSLASH];
        r := r + [k[i]];
      } else if k[i] == NEWLINE {
        r := r + [BACKSLASH, LOWER_N];
      } else if k[i] == SPACE {
        if i == 0 || i == |k| - 1 {
          r := r + [BACKSLASH];
        }
        r := r + [SPACE];
      } else {
        r := r + [k[i]];
      }
      assert r == was + EscapedKeyByte(k[i], i == 0 || i == |k| - 1);
      EscapedKeyStep(k, i, was);
    }
    EscapedKeyEnd(k, r);
  }

  lemma {:induction false} EscapedKeyStep(k: Text, i: nat, was: Text)
    requires i < |k|
    ensures was + EscapedKeyFrom(k, i) ==
      was + EscapedKeyByte(k[i], i == 0 || i == |k| - 1) + EscapedKeyFrom(k, i + 1)
  {
  }

  lemma {:induction false} EscapedKeyEnd(k: Text, r: Text)
    ensures r + EscapedKeyFrom(k, |k|) == r
  {
  }

  function Unescaped(k: Text): Text {
    if k == [] then []
    else if k[0] == BACKSLASH && |k| > 1 then
      [if k[1] == LOWER_N then NEWLINE else k[1]] + Unescaped(k[2..])
    else [k[0]] + Unescaped(k[1..])
  }

  lemma {:induction false} NothingToUnescape(k: Text)
    requires BACKSLASH !in k
    ensures Unescaped(k) == k
  {
    if k != [] {
      assert k[0] in k;
      assert forall b :: b in k[1..] ==> b in k;
      NothingToUnescape(k[1..]);
      assert k == [k[0]] + k[1..];
    }
  }

  method UnescapeKey(k: Text) returns (r: Text)
    ensures r == Unescaped(k)
  {
    hide Unescaped;
    if BACKSLASH !in k {
      NothingToUnescape(k);
      return k;
    }
    r := [];
    var i: nat := 0;
    assert k[0..] == k;
    while i < |k|
      invariant i <= |k|
      invariant r + Unescaped(k[i..]) == Unescaped(k)
    {
      UnescapedStep(k, i);
      ghost var was := r;
      if k[i] == BACKSLASH && i + 1 < |k| {
        i := i + 1;
        if k[i] == LOWER_N {
          r := r + [NEWLINE];
        } else {
          r := r + [k[i]];
        }
      } else {
        r := r + [k[i]];
      }
      i := i + 1;
      assert was + ([r[|was|]] + Unescaped(k[i..])) == r + Unescaped(k[i..]);
    }
    UnescapedEnd(k, r);
  }

  lemma {:induction false} UnescapedStep(k: Text, i: nat)
    requires i < |k|
    ensures k[i] == BACKSLASH && i + 1 < |k| ==>
      Unescaped(k[i..]) == [if k[i + 1] == LOWER_N then NEWLINE else k[i + 1]] + Unescaped(k[i + 2..])
    ensures !(k[i] == BACKSLASH && i + 1 < |k|) ==> Unescaped(k[i..]) == [k[i]] + Unescaped(k[i + 1..])
  {
    assert k[i..][1..] == k[i + 1..];
    if i + 1 < |k| {
      assert k[i..][2..] == k[i + 2..];
    }
  }

  lemma {:induction false} UnescapedEnd(k: Text, r: Text)
    ensures r + Unescaped(k[|k|..]) == r
  {
  }

  /** Where the first '=' stands that no backslash escapes, or -1. */
  function EqIndex(s: Text): (i: int)
    ensures i == -1 || (0 <= i < |s| && s[i] == EQUALS)
  {
    if s == [] then -1
    else if s[0] == EQUALS then 0
    else
      var skip := if s[0] == BACKSLASH && |s| > 1 then 2 else 1;
      var j := EqIndex(s[skip..]);
      if j < 0 then -1 else skip + j
  }

  method IndexUnescapedEq(s: Text) returns (r: int)
    ensures r == EqIndex(s)
  {
    hide EqIndex;
    var i: nat := 0;
    assert s[0..] == s;
    while i < |s|
      invariant i <= |s|
      invariant EqIndex(s) == if EqIndex(s[i..]) < 0 then -1 else i + EqIndex(s[i..])
    {
      EqIndexStep(s, i);
      if s[i] == BACKSLASH {
        if i + 1 == |s| {
          return -1;
        }
        i := i + 1;
      } else if s[i] == EQUALS {
        return i;
      }
      i := i + 1;
    }
    return -1;
  }

  lemma {:induction false} EqIndexStep(s: Text, i: nat)
    requires i < |s|
    ensures s[i] == EQUALS ==> EqIndex(s[i..]) == 0
    ensures s[i] == BACKSLASH && i + 1 == |s| ==> EqIndex(s[i..]) == -1
    ensures s[i] == BACKSLASH && i + 1 < |s| ==>
      EqIndex(s[i..]) == if EqIndex(s[i + 2..]) < 0 then -1 else 2 + EqIndex(s[i + 2..])
    ensures s[i] != EQUALS && s[i] != BACKSLASH ==>
      EqIndex(s[i..]) == if EqIndex(s[i + 1..]) < 0 then -1 else 1 + EqIndex(s[i + 1..])
  {
    assert s[i..][1..] == s[i + 1..];
    if i + 1 < |s| {
      assert s[i..][2..] == s[i + 2..];
    }
  }

  lemma {:induction false} EqIndexHere(rest: Text)
    ensures EqIndex([EQUALS] + rest) == 0
  {
  }

  lemma {:induction false} EqIndexPastKeyByte(b: byte, edge: bool, rest: Text)
    requires EqIndex(rest) >= 0
    ensures EqIndex(EscapedKeyByte(b, edge) + rest) == |EscapedKeyByte(b, edge)| + EqIndex(rest)
  {
  }

  /** An escaped key hides every '=' of its own. */
  lemma {:induction false} EqIndexAfterKey(k: Text, i: nat, rest: Text)
    requires i <= |k|
    ensures EqIndex(EscapedKeyFrom(k, i) + ([EQUALS] + rest)) == |EscapedKeyFrom(k, i)|
    decreases |k| - i
  {
    hide EqIndex, EscapedKeyByte;
    var tail := [EQUALS] + rest;
    if i == |k| {
      EscapedKeyEnd(k, []);
      assert EscapedKeyFrom(k, i) + tail == tail;
      EqIndexHere(rest);
    } else {
      EqIndexAfterKey(k, i + 1, rest);
      var first := EscapedKeyByte(k[i], i == 0 || i == |k| - 1);
      assert EscapedKeyFrom(k, i) + tail == first + (EscapedKeyFrom(k, i + 1) + tail);
      EqIndexPastKeyByte(k[i], i == 0 || i == |k| - 1, EscapedKeyFrom(k, i + 1) + tail);
    }
  }

  lemma {:induction false} UnescapedKeyByte(b: byte, edge: bool, rest: Text)
    ensures Unescaped(EscapedKeyByte(b, edge) + rest) == [b] + Unescaped(rest)
  {
  }

  /** Unescaping an escaped key gives the key. */
  lemma {:induction false} UnescapeUndoesEscape(k: Text, i: nat)
    requires i <= |k|
    ensures Unescaped(EscapedKeyFrom(k, i)) == k[i..]
    decreases |k| - i
  {
    hide EscapedKeyByte;
    if i < |k| {
      UnescapeUndoesEscape(k, i + 1);
      UnescapedKeyByte(k[i], i == 0 || i == |k| - 1, EscapedKeyFrom(k, i + 1));
      assert k[i..] == [k[i]] + k[i + 1..];
    }
  }

  /** The separator skip cannot touch an escaped key. */
  lemma {:induction false} EscapedKeyHidesLeadingSpace(k: Text)
    ensures EscapedKey(k) == [] || EscapedKey(k)[0] != SPACE
    ensures EscapedKey(k) == [] <==> k == []
  {
  }

  // ----- Whole label sets -----

  predicate KeyAtMost(a: Pair, b: Pair) {
    AtMost(a.key, b.key)
  }

  lemma {:induction false} KeyOrder()
    ensures TotalPreorder(KeyAtMost)
  {
    forall a: Pair, b: Pair ensures KeyAtMost(a, b) || KeyAtMost(b, a) {
      AtMostTotal(a.key, b.key);
    }
    forall a: Pair, b: Pair, c: Pair | KeyAtMost(a, b) && KeyAtMost(b, c) ensures KeyAtMost(a, c) {
      AtMostTransitive(a.key, b.key, c.key);
    }
  }

  /** The pairs that are rendered: those with a value. */
  function NonEmpty(l: seq<Pair>): seq<Pair> {
    if l == [] then [] else (if l[0].value != [] then [l[0]] else []) + NonEmpty(l[1..])
  }

  /** The rendered pairs in key order. */
  function Rendered(l: seq<Pair>): seq<Pair> {
    Sort(NonEmpty(l), KeyAtMost)
  }

  function PairText(p: Pair): Text {
    EscapedKey(p.key) + [EQUALS, QUOTE] + Escaped(p.value) + [QUOTE]
  }

  function Body(ps: seq<Pair>): Text {
    if ps == [] then []
    else if |ps| == 1 then PairText(ps[0])
    else PairText(ps[0]) + ([COMMA, SPACE] + Body(ps[1..]))
  }

  function Printed(l: seq<Pair>): Text {
    [OPEN] + Body(Rendered(l)) + [CLOSE]
  }

  lemma {:induction false} NonEmptyAppend(l: seq<Pair>, p: Pair)
    ensures NonEmpty(l + [p]) == if p.value != [] then NonEmpty(l) + [p] else NonEmpty(l)
  {
    if l == [] {
      assert l + [p] == [p] && [p][1..] == [];
    } else {
      NonEmptyAppend(l[1..], p);
      assert (l + [p])[0] == l[0] && (l + [p])[1..] == l[1..] + [p];
      var head := if l[0].value != [] then [l[0]] else [];
      assert NonEmpty(l) == head + NonEmpty(l[1..]);
      assert NonEmpty(l + [p]) == head + NonEmpty(l[1..] + [p]);
      assert head + (NonEmpty(l[1..]) + [p]) == (head + NonEmpty(l[1..])) + [p];
    }
  }

  method DropEmpty(l: seq<Pair>) returns (kept: seq<Pair>)
    ensures kept == NonEmpty(l)
  {
    kept := [];
    for i := 0 to |l|
      invariant kept == NonEmpty(l[..i])
    {
      assert l[..i + 1] == l[..i] + [l[i]];
      NonEmptyAppend(l[..i], l[i]);
      if l[i].value != [] {
        kept := kept + [l[i]];
      }
    }
    assert l[..|l|] == l;
  }

  /** What is still to be written before pair i: its separator, and the rest of the body. */
  function ToWrite(ps: seq<Pair>, i: nat): Text
    requires i <= |ps|
  {
    if i == |ps| then [] else (if i > 0 then [COMMA, SPACE] else []) + Body(ps[i..])
  }

  lemma {:induction false} BodyStep(ps: seq<Pair>, i: nat)
    requires i < |ps|
    ensures Body(ps[i..]) == PairText(ps[i]) + ToWrite(ps, i + 1)
  {
  }

  lemma {:induction false} PairPieces(p: Pair, rest: Text)
    ensures PairText(p) + rest == EscapedKey(p.key) + ([EQUALS, QUOTE] + (EscapeValue(p.value) + ([QUOTE] + rest)))
  {
    hide EscapedKey, EscapeValue, Escaped;
    EscapeValueIsBytewise(p.value);
  }

  lemma {:induction false} ToWriteStep(ps: seq<Pair>, i: nat)
    requires i < |ps|
    ensures ToWrite(ps, i) ==
      (if i > 0 then [COMMA, SPACE] else []) +
      (EscapedKey(ps[i].key) + ([EQUALS, QUOTE] + (EscapeValue(ps[i].value) + ([QUOTE] + ToWrite(ps, i + 1)))))
  {
    hide EscapedKey, EscapeValue, Escaped, Body, PairText;
    BodyStep(ps, i);
    PairPieces(ps[i], ToWrite(ps, i + 1));
  }

  method String(l: seq<Pair>) returns (sb: Text)
    ensures sb == Printed(l)
  {
    hide Body, ToWrite, EscapeValue, EscapedKey;
    var kept := DropEmpty(l);
    var sorted := Sort(kept, KeyAtMost);
    sb := [OPEN];
    ToWriteStart(sorted);
    for i := 0 to |sorted|
      invariant sb + ToWrite(sorted, i) == [OPEN] + Body(sorted)
    {
      ToWriteStep(sorted, i);
      if i > 0 {
        sb := sb + [COMMA, SPACE];
      }
      var key := EscapeKey(sorted[i].key);
      sb := sb + key;
      sb := sb + [EQUALS, QUOTE];
      sb := sb + EscapeValue(sorted[i].value);
      sb := sb + [QUOTE];
    }
    sb := sb + [CLOSE];
  }

  lemma {:induction false} ToWriteStart(ps: seq<Pair>)
    ensures ToWrite(ps, 0) == Body(ps) && ToWrite(ps, |ps|) == []
  {
  }

  // ----- Parsing -----

  function WithoutSpace(s: Text): (r: Text)
    ensures |r| <= |s|
  {
    if s != [] && s[0] == SPACE then s[1..] else s
  }

  /** The pairs between the braces; None for what is no label string. */
  function ParsedBody(s: Text): Option<seq<Pair>>
    decreases |s|
  {
    if s == [] then Some([]) else
    var t := WithoutSpace(s);
    var eq := EqIndex(t);
    if eq < 0 then None else
    var key := Unescaped(t[..eq]);
    if key == [] then None else
    var scanned := Scan(t[eq + 1..], false, false);
    var tail := ParsedBody(scanned.rest);
    if tail.None? then None
    else if scanned.value == [] then tail
    else Some([Pair(key, scanned.value)] + tail.value)
  }

  function Parsed(s: Text): Option<seq<Pair>> {
    if |s| < 2 || s[0] != OPEN || s[|s| - 1] != CLOSE then None
    else
      var body := ParsedBody(s[1..|s| - 1]);
      if body.None? then None else Some(Sort(body.value, KeyAtMost))
  }

  method ParseLabels(s: Text) returns (r: Option<seq<Pair>>)
    ensures r == Parsed(s)
  {
    hide EqIndex, Unescaped, Scan, ParsedBody, Joined;
    if |s| < 2 || s[0] != OPEN || s[|s| - 1] != CLOSE {
      return None;
    }
    var pairs: seq<Pair> := [];
    var left := s[1..|s| - 1];
    JoinedNothing([], ParsedBody(left));
    while left != []
      invariant ParsedBody(s[1..|s| - 1]) == Joined(pairs, ParsedBody(left))
      decreases |left|
    {
      var t := WithoutSpace(left);
      ParsedBodyStep(left, pairs);
      var eq := IndexUnescapedEq(t);
      if eq < 0 {
        return None;
      }
      var key := UnescapeKey(t[..eq]);
      if key == [] {
        return None;
      }
      var value;
      value, left := ScanLabelValue(t[eq + 1..]);
      if value != [] {
        pairs := pairs + [Pair(key, value)];
      }
    }
    ParseNothing();
    JoinedNothing(pairs, None);
    return Some(Sort(pairs, KeyAtMost));
  }

  /** Pairs read so far, and what the rest reads as. */
  function Joined(pairs: seq<Pair>, rest: Option<seq<Pair>>): Option<seq<Pair>> {
    if rest.None? then None else Some(pairs + rest.value)
  }

  lemma {:induction false} JoinedNothing(pairs: seq<Pair>, rest: Option<seq<Pair>>)
    ensures Joined([], rest) == rest
    ensures Joined(pairs, Some([])) == Some(pairs)
  {
    if rest.Some? {
      assert [] + rest.value == rest.value;
    }
    assert pairs + [] == pairs;
  }

  /** One turn of the parser, with what was read before. */
  lemma {:induction false} ParsedBodyStep(s: Text, pairs: seq<Pair>)
    requires s != []
    ensures
      var t := WithoutSpace(s);
      var eq := EqIndex(t);
      eq < 0 || Unescaped(t[..eq]) == [] ==> Joined(pairs, ParsedBody(s)) == None
    ensures
      var t := WithoutSpace(s);
      var eq := EqIndex(t);
      eq >= 0 && Unescaped(t[..eq]) != [] ==>
        var scanned := Scan(t[eq + 1..], false, false);
        var read := if scanned.value == [] then [] else [Pair(Unescaped(t[..eq]), scanned.value)];
        && |scanned.rest| < |s|
        && Joined(pairs, ParsedBody(s)) == Joined(if read == [] then pairs else pairs + read, ParsedBody(scanned.rest))
  {
    hide EqIndex, Unescaped, Scan;
    var t := WithoutSpace(s);
    var eq := EqIndex(t);
    if eq >= 0 && Unescaped(t[..eq]) != [] {
      var scanned := Scan(t[eq + 1..], false, false);
      var read := [Pair(Unescaped(t[..eq]), scanned.value)];
      var tail := ParsedBody(scanned.rest);
      if tail.Some? && scanned.value != [] {
        assert (pairs + read) + tail.value == pairs + (read + tail.value);
      }
    }
  }

  /** How the parser takes one printed pair off the front. */
  lemma {:induction false} ParsePair(p: Pair, tail: Text)
    requires p.value != []
    requires tail == [] || tail[0] == COMMA
    ensures p.key == [] ==> ParsedBody(PairText(p) + tail) == None
    ensures p.key != [] ==>
      ParsedBody(PairText(p) + tail) == Joined([p], ParsedBody(if tail == [] then [] else tail[1..]))
  {
    hide EscapedKey, Escaped, Unescaped, EqIndex, Scan, ParsedBody;
    var s := PairText(p) + tail;
    var k := EscapedKey(p.key);
    var rest := [QUOTE] + (Escaped(p.value) + ([QUOTE] + tail));
    assert s == k + ([EQUALS] + rest);
    EscapedKeyHidesLeadingSpace(p.key);
    EqIndexOfKey(p.key, rest);
    UnescapeKeyOfKey(p.key);
    assert s[..|k|] == k && s[|k| + 1..] == rest;
    assert WithoutSpace(s) == s;
    ScanCons(QUOTE, Escaped(p.value) + ([QUOTE] + tail), false, false);
    ScanEscaped(p.value, tail);
    ScanTail(tail);
    AheadOfNothing(p.value, Scan(tail, false, false));
    ParsedBodyStep(s, []);
    JoinedNothing([], ParsedBody(s));
    assert [] + [p] == [p];
  }

  lemma {:induction false} ScanTail(tail: Text)
    requires tail == [] || tail[0] == COMMA
    ensures Scan(tail, false, false) == Scanned([], if tail == [] then [] else tail[1..])
  {
  }

  lemma {:induction false} EqIndexOfKey(k: Text, rest: Text)
    ensures EqIndex(EscapedKey(k) + ([EQUALS] + rest)) == |EscapedKey(k)|
  {
    EqIndexAfterKey(k, 0, rest);
  }

  lemma {:induction false} UnescapeKeyOfKey(k: Text)
    ensures Unescaped(EscapedKey(k)) == k
  {
    UnescapeUndoesEscape(k, 0);
  }

  predicate Named(ps: seq<Pair>) {
    forall i :: 0 <= i < |ps| ==> ps[i].key != []
  }

  /** A leading separator space is skipped. */
  lemma {:induction false} ParseAfterSeparator(ps: seq<Pair>)
    requires ps != []
    ensures ParsedBody([SPACE] + Body(ps)) == ParsedBody(Body(ps))
  {
    hide EscapedKey, Escaped;
    var s := [SPACE] + Body(ps);
    EscapedKeyHidesLeadingSpace(ps[0].key);
    assert WithoutSpace(s) == Body(ps);
    assert Body(ps) != [] && Body(ps)[0] != SPACE;
  }

  /** The body of printed pairs parses back to them, unless one has no key. */
  lemma {:induction false} ParseBodyOfPairs(ps: seq<Pair>)
    requires forall i :: 0 <= i < |ps| ==> ps[i].value != []
    ensures ParsedBody(Body(ps)) == if Named(ps) then Some(ps) else None
  {
    hide PairText, ParsedBody;
    if ps == [] {
      ParseNothing();
    } else if |ps| == 1 {
      ParsePair(ps[0], []);
      ParseNothing();
      JoinedNothing(ps, None);
      assert PairText(ps[0]) + [] == PairText(ps[0]);
      assert ps == [ps[0]];
    } else {
      var tail := [COMMA, SPACE] + Body(ps[1..]);
      assert tail[1..] == [SPACE] + Body(ps[1..]);
      ParsePair(ps[0], tail);
      ParseAfterSeparator(ps[1..]);
      ParseBodyOfPairs(ps[1..]);
      assert ps == [ps[0]] + ps[1..];
      assert Named(ps) <==> ps[0].key != [] && Named(ps[1..]) by {
        if Named(ps[1..]) && ps[0].key != [] {
          forall i | 0 <= i < |ps| ensures ps[i].key != [] {
            assert i > 0 ==> ps[i] == ps[1..][i - 1];
          }
        }
        if Named(ps) {
          assert forall i :: 0 <= i < |ps[1..]| ==> ps[1..][i] == ps[i + 1];
        }
      }
    }
  }

  lemma {:induction false} ParseNothing()
    ensures ParsedBody([]) == Some([])
  {
  }

  lemma {:induction false} NonEmptyHolds(l: seq<Pair>, p: Pair)
    ensures p in NonEmpty(l) <==> p in l && p.value != []
  {
    if l != [] {
      NonEmptyHolds(l[1..], p);
      assert l == [l[0]] + l[1..];
    }
  }

  lemma {:induction false} RenderedHolds(l: seq<Pair>, p: Pair)
    ensures p in Rendered(l) <==> p in l && p.value != []
  {
    NonEmptyHolds(l, p);
    SortPermutes(NonEmpty(l), KeyAtMost);
    assert p in NonEmpty(l) <==> p in multiset(NonEmpty(l));
    assert p in Rendered(l) <==> p in multiset(Rendered(l));
  }

  /** A pair that has a value but no key: the one thing printing cannot carry. */
  ghost predicate HasNamelessValue(l: seq<Pair>) {
    exists p :: p in l && p.key == [] && p.value != []
  }

  /** Print, then parse: the rendered pairs in key order, whatever bytes the keys and values hold;
      an error exactly when some value has an empty key. */
  lemma {:induction false} RoundTrip(l: seq<Pair>)
    ensures Parsed(Printed(l)) == if HasNamelessValue(l) then None else Some(Rendered(l))
  {
    hide Body, ParsedBody;
    var ps := Rendered(l);
    forall i | 0 <= i < |ps| ensures ps[i].value != [] {
      RenderedHolds(l, ps[i]);
    }
    ParseBodyOfPairs(ps);
    assert Named(ps) <==> !HasNamelessValue(l) by {
      if HasNamelessValue(l) {
        var p :| p in l && p.key == [] && p.value != [];
        RenderedHolds(l, p);
      }
      if !Named(ps) {
        var i :| 0 <= i < |ps| && ps[i].key == [];
        RenderedHolds(l, ps[i]);
      }
    }
    var s := Printed(l);
    assert s[1..|s| - 1] == Body(ps);
    KeyOrder();
    SortSorts(NonEmpty(l), KeyAtMost);
    SortedStays(ps, KeyAtMost);
  }

  ghost predicate DistinctKeys(l: seq<Pair>) {
    forall i, j :: 0 <= i < j < |l| ==> l[i].key != l[j].key
  }

  lemma {:induction false} NonEmptyDistinct(l: seq<Pair>)
    requires DistinctKeys(l)
    ensures DistinctKeys(NonEmpty(l))
  {
    if l != [] {
      NonEmptyDistinct(l[1..]);
      forall q | q in NonEmpty(l[1..]) ensures q.key != l[0].key {
        NonEmptyHolds(l[1..], q);
      }
    }
  }

  /** Two label sets render to the same text exactly when they hold the same pairs that have a value:
      the text is a normal form of the set, blind to order and to nothing else. */
  lemma {:induction false} PrintedIdentity(a: seq<Pair>, b: seq<Pair>)
    requires !HasNamelessValue(a) && !HasNamelessValue(b)
    requires DistinctKeys(a) && DistinctKeys(b)
    ensures Printed(a) == Printed(b) <==> multiset(NonEmpty(a)) == multiset(NonEmpty(b))
  {
    hide Printed, Parsed;
    SortPermutes(NonEmpty(a), KeyAtMost);
    SortPermutes(NonEmpty(b), KeyAtMost);
    if Printed(a) == Printed(b) {
      RoundTrip(a);
      RoundTrip(b);
    }
    if multiset(NonEmpty(a)) == multiset(NonEmpty(b)) {
      SameRendering(a, b);
      PrintedByRendering(a, b);
    }
  }

  lemma {:induction false} PrintedByRendering(a: seq<Pair>, b: seq<Pair>)
    requires Rendered(a) == Rendered(b)
    ensures Printed(a) == Printed(b)
  {
  }

  lemma {:induction false} SameRendering(a: seq<Pair>, b: seq<Pair>)
    requires DistinctKeys(a)
    requires multiset(NonEmpty(a)) == multiset(NonEmpty(b))
    ensures Rendered(a) == Rendered(b)
  {
    var x, y := NonEmpty(a), NonEmpty(b);
    KeyOrder();
    SortSorts(x, KeyAtMost);
    SortSorts(y, KeyAtMost);
    SortPermutes(x, KeyAtMost);
    SortPermutes(y, KeyAtMost);
    NonEmptyDistinct(a);
    forall p, q | p in Rendered(a) && q in Rendered(a) && KeyAtMost(p, q) && KeyAtMost(q, p) ensures p == q {
      AtMostAntisymmetric(p.key, q.key);
      assert p in multiset(Sort(x, KeyAtMost)) && q in multiset(Sort(x, KeyAtMost));
      assert p in x && q in x;
    }
    SortedUnique(Rendered(a), Rendered(b), KeyAtMost);
  }
}
