/** UTF-8 as Go's unicode/utf8 decodes and encodes it (section 3 of RFC 3629). */
module Utf8 {
  import opened Bytes

  type Rune = r: int | 0 <= r < 0x110000

  /** What an invalid byte decodes to: U+FFFD, one byte wide. */
  const RUNE_ERROR: Rune := 0xFFFD

  /** A decoded rune and how many bytes it took; size 0 at the end of the text. */
  datatype Decoded = Decoded(r: Rune, size: nat)

  predicate Continuation(b: byte) {
    0x80 <= b < 0xC0
  }

  /** The second bytes a leading byte admits: no overlong form, no surrogate, nothing past U+10FFFF. */
  predicate SecondByteOk(lead: byte, b: byte) {
    && Continuation(b)
    && (lead == 0xE0 ==> b >= 0xA0)
    && (lead == 0xED ==> b < 0xA0)
    && (lead == 0xF0 ==> b >= 0x90)
    && (lead == 0xF4 ==> b < 0x90)
  }

  function Decode(s: Text): (d: Decoded)
    ensures d.size <= |s| && d.size <= 4 && (s != [] ==> d.size > 0)
  {
    if s == [] then Decoded(RUNE_ERROR, 0)
    else if s[0] < 0x80 then Decoded(s[0] as int, 1)
    else if 0xC2 <= s[0] < 0xE0 && |s| >= 2 && SecondByteOk(s[0], s[1]) then
      Decoded((s[0] as int - 0xC0) * 64 + (s[1] as int - 0x80), 2)
    else if 0xE0 <= s[0] < 0xF0 && |s| >= 3 && SecondByteOk(s[0], s[1]) && Continuation(s[2]) then
      Decoded((s[0] as int - 0xE0) * 4096 + (s[1] as int - 0x80) * 64 + (s[2] as int - 0x80), 3)
    else if 0xF0 <= s[0] < 0xF5 && |s| >= 4 && SecondByteOk(s[0], s[1]) && Continuation(s[2]) && Continuation(s[3]) then
      Decoded((s[0] as int - 0xF0) * 262144 + (s[1] as int - 0x80) * 4096 + (s[2] as int - 0x80) * 64 + (s[3] as int - 0x80), 4)
    else Decoded(RUNE_ERROR, 1)
  }

  /** A rune that may be encoded: not a surrogate. */
  predicate Scalar(r: Rune) {
    r < 0xD800 || 0xE000 <= r
  }

  function Encode(r: Rune): (s: Text)
    ensures 1 <= |s| <= 4
  {
    if r < 0x80 then [r as byte]
    else if r < 0x800 then [(0xC0 + r / 64) as byte, (0x80 + r % 64) as byte]
    else if !Scalar(r) then [0xEF, 0xBF, 0xBD]
    else if r < 0x10000 then [(0xE0 + r / 4096) as byte, (0x80 + r / 64 % 64) as byte, (0x80 + r % 64) as byte]
    else [(0xF0 + r / 262144) as byte, (0x80 + r / 4096 % 64) as byte, (0x80 + r / 64 % 64) as byte, (0x80 + r % 64) as byte]
  }

  /** Decoding never yields a surrogate, and takes one byte exactly for the single-byte runes and for
      the errors. */
  lemma {:induction false} DecodeIsScalar(s: Text)
    ensures Scalar(Decode(s).r)
  {
  }

  lemma {:induction false} DecodeTwo(r: Rune, s: Text)
    requires 0x80 <= r < 0x800
    requires |s| >= 2 && s[0] as int == 0xC0 + r / 64 && s[1] as int == 0x80 + r % 64
    ensures Decode(s) == Decoded(r, 2)
  {
  }

  lemma {:induction false} DecodeThree(r: Rune, s: Text)
    requires 0x800 <= r < 0x10000 && Scalar(r)
    requires |s| >= 3 && s[0] as int == 0xE0 + r / 4096
    requires s[1] as int == 0x80 + r / 64 % 64 && s[2] as int == 0x80 + r % 64
    ensures Decode(s) == Decoded(r, 3)
  {
    ThreeDigits(r);
  }

  lemma {:induction false} DecodeFour(r: Rune, s: Text)
    requires 0x10000 <= r
    requires |s| >= 4 && s[0] as int == 0xF0 + r / 262144 && s[1] as int == 0x80 + r / 4096 % 64
    requires s[2] as int == 0x80 + r / 64 % 64 && s[3] as int == 0x80 + r % 64
    ensures Decode(s) == Decoded(r, 4)
  {
    FourDigits(r);
  }

  /** What is decoded is what was encoded, or it is one byte of no rune. */
  lemma {:induction false} DecodedWasEncoded(s: Text)
    requires s != []
    ensures Decode(s) == Decoded(RUNE_ERROR, 1) || (Scalar(Decode(s).r) && Encode(Decode(s).r) == s[..Decode(s).size])
  {
    hide Encode, SecondByteOk;
    var d := Decode(s);
    if d.size == 1 {
      OneByteEncoded(s[0]);
    } else if d.size == 2 {
      TwoBytesEncoded(s[0], s[1]);
    } else if d.size == 3 {
      ThreeBytesEncoded(s[0], s[1], s[2]);
    } else if d.size == 4 {
      FourBytesEncoded(s[0], s[1], s[2], s[3]);
    }
  }

  lemma {:induction false} OneByteEncoded(a: byte)
    ensures a < 0x80 ==> Encode(a as int) == [a]
  {
  }

  lemma {:induction false} TwoBytesEncoded(a: byte, b: byte)
    requires 0xC2 <= a < 0xE0 && SecondByteOk(a, b)
    ensures var r := (a as int - 0xC0) * 64 + (b as int - 0x80); 0 <= r < 0xD800 && Encode(r) == [a, b]
  {
  }

  lemma {:induction false} ThreeBytesEncoded(a: byte, b: byte, c: byte)
    requires 0xE0 <= a < 0xF0 && SecondByteOk(a, b) && Continuation(c)
    ensures
      var r := (a as int - 0xE0) * 4096 + (b as int - 0x80) * 64 + (c as int - 0x80);
      0 <= r < 0x10000 && Scalar(r) && Encode(r) == [a, b, c]
  {
    var x, y, z := a as int - 0xE0, b as int - 0x80, c as int - 0x80;
    var r := x * 4096 + y * 64 + z;
    assert r / 4096 == x && r / 64 == x * 64 + y;
  }

  lemma {:induction false} Base64Digits(x: nat, y: nat, z: nat, w: nat)
    requires y < 64 && z < 64 && w < 64
    ensures
      var r := x * 262144 + y * 4096 + z * 64 + w;
      r / 262144 == x && r / 4096 % 64 == y && r / 64 % 64 == z && r % 64 == w
  {
    var r := x * 262144 + y * 4096 + z * 64 + w;
    assert r / 64 == x * 4096 + y * 64 + z;
    assert r / 4096 == x * 64 + y;
    assert r / 262144 == x;
  }

  lemma {:induction false} FourBytesEncoded(a: byte, b: byte, c: byte, d: byte)
    requires 0xF0 <= a < 0xF5 && SecondByteOk(a, b) && Continuation(c) && Continuation(d)
    ensures
      var r := (a as int - 0xF0) * 262144 + (b as int - 0x80) * 4096 + (c as int - 0x80) * 64 + (d as int - 0x80);
      0x10000 <= r < 0x110000 && Encode(r) == [a, b, c, d]
  {
    var x, y, z, w := a as int - 0xF0, b as int - 0x80, c as int - 0x80, d as int - 0x80;
    var r := x * 262144 + y * 4096 + z * 64 + w;
    Base64Digits(x, y, z, w);
  }

  /** Encoding is decoded again, whatever follows. */
  lemma {:induction false} DecodeEncode(r: Rune, rest: Text)
    requires Scalar(r)
    ensures Decode(Encode(r) + rest) == Decoded(r, |Encode(r)|)
  {
    hide Decode;
    var s := Encode(r) + rest;
    if r < 0x80 {
      DecodeOne(s);
    } else if r < 0x800 {
      DecodeTwo(r, s);
    } else if r < 0x10000 {
      DecodeThree(r, s);
    } else {
      DecodeFour(r, s);
    }
  }

  lemma {:induction false} DecodeOne(s: Text)
    requires s != [] && s[0] < 0x80
    ensures Decode(s) == Decoded(s[0] as int, 1)
  {
  }

  /** Dividing by 64 twice. */
  lemma {:induction false} DivideTwice(r: nat)
    ensures r / 4096 == r / 64 / 64
    ensures r / 64 == r / 4096 * 64 + r / 64 % 64
  {
    var a, b := r / 64, r / 64 / 64;
    assert 64 * a <= r < 64 * a + 64;
    assert 64 * b <= a < 64 * b + 64;
    assert 4096 * b <= r < 4096 * b + 4096;
  }

  lemma {:induction false} ThreeDigits(r: nat)
    ensures r == r / 4096 * 4096 + r / 64 % 64 * 64 + r % 64
  {
    DivideTwice(r);
    assert r == r / 64 * 64 + r % 64;
  }

  lemma {:induction false} FourDigits(r: nat)
    ensures r == r / 262144 * 262144 + r / 4096 % 64 * 4096 + r / 64 % 64 * 64 + r % 64
  {
    var a := r / 64;
    DivideTwice(r);
    ThreeDigits(a);
    assert r == a * 64 + r % 64;
    assert a / 4096 == r / 262144 by {
      var b := a / 4096;
      assert 4096 * b <= a < 4096 * b + 4096;
      assert 262144 * b <= r < 262144 * b + 262144;
    }
  }

  /** The runes of a text, invalid bytes read as U+FFFD. */
  function Runes(s: Text): seq<Rune>
    decreases |s|
  {
    if s == [] then [] else [Decode(s).r] + Runes(s[Decode(s).size..])
  }

  /** Valid UTF-8: every decoding step reads a real encoding. */
  predicate Valid(s: Text)
    decreases |s|
  {
    s == [] || (s[..Decode(s).size] == Encode(Decode(s).r) && Valid(s[Decode(s).size..]))
  }

  function EncodeAll(rs: seq<Rune>): Text {
    if rs == [] then [] else Encode(rs[0]) + EncodeAll(rs[1..])
  }

  /** What is built by encoding runes is valid and holds just those runes. */
  lemma {:induction false} EncodedIsValid(rs: seq<Rune>)
    requires forall i :: 0 <= i < |rs| ==> Scalar(rs[i])
    ensures Valid(EncodeAll(rs)) && Runes(EncodeAll(rs)) == rs
  {
    if rs != [] {
      EncodedIsValid(rs[1..]);
      DecodeEncode(rs[0], EncodeAll(rs[1..]));
      var s := EncodeAll(rs);
      assert s[..|Encode(rs[0])|] == Encode(rs[0]) && s[|Encode(rs[0])|..] == EncodeAll(rs[1..]);
    }
  }

  /** Valid text is what encoding runes gives, and nothing else is. */
  lemma {:induction false} ValidIffEncoded(s: Text)
    ensures Valid(s) <==> EncodeAll(Runes(s)) == s && forall i :: 0 <= i < |Runes(s)| ==> Scalar(Runes(s)[i])
    decreases |s|
  {
    hide Encode, Decode;
    if s != [] {
      var n, r := Decode(s).size, Decode(s).r;
      var rs := Runes(s);
      ValidIffEncoded(s[n..]);
      DecodeIsScalar(s);
      assert s == s[..n] + s[n..] && rs == [r] + Runes(s[n..]) && rs[1..] == Runes(s[n..]);
      if EncodeAll(rs) == s {
        DecodeEncode(r, EncodeAll(rs[1..]));
        assert s[..n] == Encode(r) && s[n..] == EncodeAll(rs[1..]);
      }
    }
  }

  lemma {:induction false} EncodeAllAppend(rs: seq<Rune>, r: Rune)
    ensures EncodeAll(rs + [r]) == EncodeAll(rs) + Encode(r)
  {
    hide Encode;
    if rs == [] {
      assert rs + [r] == [r];
      assert [r][1..] == [];
    } else {
      EncodeAllAppend(rs[1..], r);
      assert (rs + [r])[1..] == rs[1..] + [r];
    }
  }

  predicate Ascii(s: Text) {
    forall i :: 0 <= i < |s| ==> s[i] < 0x80
  }

  /** Single-byte text is its own runes. */
  lemma {:induction false} AsciiRunes(s: Text)
    requires Ascii(s)
    ensures |Runes(s)| == |s| && forall i :: 0 <= i < |s| ==> Runes(s)[i] == s[i] as int
  {
    if s != [] {
      AsciiRunes(s[1..]);
    }
  }
}

/** The mask transform of a metric label: a pattern overlaid on a field's value
    (internal/metrics/compile.go). */
module MaskPattern {
  import opened Bytes
  import opened Utf8

  /** The pattern rune that lets the value's rune through: '_'. */
  const HOLE: Rune := 95

  /** The overlay, position by position: a hole shows the value's rune there, if it has one. */
  function Overlaid(value: seq<Rune>, pattern: seq<Rune>): seq<Rune> {
    seq(|pattern|, i requires 0 <= i < |pattern| =>
      if pattern[i] == HOLE && i < |value| then value[i] else pattern[i])
  }

  lemma {:induction false} OverlaidLength(value: seq<Rune>, pattern: seq<Rune>)
    ensures |Overlaid(value, pattern)| == |pattern|
  {
  }

  /** What a mask makes of a value. A missing (empty) value fabricates nothing. */
  function Masked(value: Text, pattern: Text): Text {
    if value == [] then [] else EncodeAll(Overlaid(Runes(value), Runes(pattern)))
  }

  lemma {:induction false} RunesAreScalars(s: Text, i: nat)
    requires i < |Runes(s)|
    ensures Scalar(Runes(s)[i])
    decreases |s|
  {
    DecodeIsScalar(s);
    if i > 0 {
      RunesAreScalars(s[Decode(s).size..], i - 1);
    }
  }

  /** The mask never makes invalid text, and its result has the pattern's runes except at the holes
      the value reaches, whatever bytes the value and the pattern hold. */
  lemma {:induction false} MaskedOverlaysRunes(value: Text, pattern: Text)
    requires value != []
    ensures Valid(Masked(value, pattern))
    ensures |Runes(Masked(value, pattern))| == |Runes(pattern)|
    ensures forall i :: 0 <= i < |Runes(pattern)| ==>
      Runes(Masked(value, pattern))[i] ==
      if Runes(pattern)[i] == HOLE && i < |Runes(value)| then Runes(value)[i] else Runes(pattern)[i]
  {
    var rs := Overlaid(Runes(value), Runes(pattern));
    forall i | 0 <= i < |rs| ensures Scalar(rs[i]) {
      RunesAreScalars(pattern, i);
      if i < |Runes(value)| {
        RunesAreScalars(value, i);
      }
    }
    EncodedIsValid(rs);
  }

  /** As far as a text is single-byte, its runes are its bytes. */
  lemma {:induction false} AsciiPrefixRunes(s: Text, n: nat)
    requires n <= |s| && Ascii(s[..n])
    ensures n <= |Runes(s)| && (n == |s| ==> |Runes(s)| == n)
    ensures forall i :: 0 <= i < n ==> Runes(s)[i] == s[i] as int
  {
    if n > 0 {
      assert s[0] == s[..n][0];
      assert s[1..][..n - 1] == s[..n][1..];
      AsciiPrefixRunes(s[1..], n - 1);
    }
  }

  /** Single-byte runes encode to the bytes they are. */
  lemma {:induction false} EncodeAsciiRunes(rs: seq<Rune>, s: Text)
    requires |rs| == |s| && Ascii(s) && forall i :: 0 <= i < |s| ==> rs[i] == s[i] as int
    ensures EncodeAll(rs) == s
  {
    if rs != [] {
      EncodeAsciiRunes(rs[1..], s[1..]);
      assert s == [s[0]] + s[1..];
    }
  }

  /** The byte overlay is the rune overlay once the pattern, and the value as far as the pattern
      reaches, are single-byte; what lies further in the value does not matter. */
  lemma {:induction false} FastOverlayIsMasked(value: Text, pattern: Text, out: Text)
    requires value != [] && Ascii(pattern)
    requires Ascii(value[..if |value| <= |pattern| then |value| else |pattern|])
    requires |out| == |pattern|
    requires forall i :: 0 <= i < |pattern| ==>
      out[i] == if pattern[i] == '_' as byte && i < |value| then value[i] else pattern[i]
    ensures out == Masked(value, pattern)
  {
    var n := if |value| <= |pattern| then |value| else |pattern|;
    AsciiPrefixRunes(value, n);
    AsciiRunes(pattern);
    forall i | 0 <= i < |value| && i < |pattern| ensures value[i] < 0x80 {
      assert value[i] == value[..n][i];
    }
    EncodeAsciiRunes(Overlaid(Runes(value), Runes(pattern)), out);
  }

  method IsAscii(s: Text) returns (ok: bool)
    ensures ok <==> Ascii(s)
  {
    for i := 0 to |s|
      invariant Ascii(s[..i])
    {
      if s[i] >= 0x80 {
        return false;
      }
    }
    assert s[..|s|] == s;
    return true;
  }

  method AsciiOverlay(value: Text, pattern: Text) returns (ok: bool)
    ensures ok <==> Ascii(pattern) && Ascii(value[..if |value| <= |pattern| then |value| else |pattern|])
  {
    ok := IsAscii(pattern);
    if ok {
      ok := IsAscii(value[..if |value| <= |pattern| then |value| else |pattern|]);
    }
  }

  /** The byte-stepped overlay. */
  method OverlayBytes(value: Text, pattern: Text) returns (out: Text)
    requires value != [] && Ascii(pattern)
    requires Ascii(value[..if |value| <= |pattern| then |value| else |pattern|])
    ensures out == Masked(value, pattern)
  {
    out := [];
    for i := 0 to |pattern|
      invariant |out| == i
      invariant forall j :: 0 <= j < i ==>
        out[j] == if pattern[j] == '_' as byte && j < |value| then value[j] else pattern[j]
    {
      if pattern[i] == '_' as byte && i < |value| {
        out := out + [value[i]];
      } else {
        out := out + [pattern[i]];
      }
    }
    FastOverlayIsMasked(value, pattern, out);
  }

  /** What is left to decode after k runes: nothing once the text ran out. */
  ghost predicate After(s: Text, k: nat, rest: Text) {
    if k <= |Runes(s)| then Runes(rest) == Runes(s)[k..] else rest == []
  }

  /** Decoding one more rune steps on by one. */
  lemma {:induction false} AfterStep(s: Text, k: nat, rest: Text)
    requires After(s, k, rest)
    ensures After(s, k + 1, rest[Decode(rest).size..])
    ensures Decode(rest).size > 0 <==> k < |Runes(s)|
    ensures k < |Runes(s)| ==> Decode(rest).r == Runes(s)[k]
  {
  }

  lemma {:induction false} AfterNothing(s: Text)
    ensures After(s, 0, s)
    ensures EncodeAll([]) == []
  {
  }

  lemma {:induction false} AfterAll(s: Text, k: nat)
    requires k <= |Runes(s)| && After(s, k, [])
    ensures k == |Runes(s)|
  {
  }

  /** One more rune of the overlay, from what the two texts decode to there. */
  lemma {:induction false} OverlaidStep(value: seq<Rune>, pattern: seq<Rune>, k: nat)
    requires k < |pattern|
    ensures EncodeAll(Overlaid(value, pattern)[..k + 1]) ==
      EncodeAll(Overlaid(value, pattern)[..k]) +
      Encode(if pattern[k] == HOLE && k < |value| then value[k] else pattern[k])
  {
    hide EncodeAll, Encode;
    var rs := Overlaid(value, pattern);
    EncodeAllAppend(rs[..k], rs[k]);
    assert rs[..k + 1] == rs[..k] + [rs[k]];
  }

  /** The rune-stepped overlay. */
  method OverlayRunes(value: Text, pattern: Text) returns (out: Text)
    requires value != []
    ensures out == Masked(value, pattern)
  {
    hide Runes, Encode, Decode, EncodeAll, Overlaid, After;
    ghost var rs := Overlaid(Runes(value), Runes(pattern));
    ghost var k: nat := 0;
    var rest, ahead := value, pattern;
    out := [];
    AfterNothing(value);
    AfterNothing(pattern);
    OverlaidLength(Runes(value), Runes(pattern));
    assert rs[..0] == [];
    while ahead != []
      invariant k <= |Runes(pattern)| && After(pattern, k, ahead) && After(value, k, rest)
      invariant out == EncodeAll(rs[..k])
      decreases |ahead|
    {
      AfterStep(pattern, k, ahead);
      AfterStep(value, k, rest);
      OverlaidStep(Runes(value), Runes(pattern), k);
      var p := Decode(ahead);
      var v := Decode(rest);
      ahead, rest := ahead[p.size..], rest[v.size..];
      if p.r == HOLE && v.size > 0 {
        out := out + Encode(v.r);
      } else {
        out := out + Encode(p.r);
      }
      k := k + 1;
    }
    AfterAll(pattern, k);
    assert rs[..k] == rs;
  }

  method MaskPattern(value: Text, pattern: Text) returns (out: Text)
    ensures out == Masked(value, pattern)
    ensures value == [] || pattern == [] ==> out == []
  {
    if pattern == [] {
      return [];
    }
    if value == [] {
      return [];
    }
    var ascii := AsciiOverlay(value, pattern);
    if ascii {
      out := OverlayBytes(value, pattern);
    } else {
      out := OverlayRunes(value, pattern);
    }
  }
}

/** The /pattern/replacement/ form of a label rule, over the runes of its text
    (internal/metrics/compile.go). */
module RegexpReplace {
  import opened Utf8

  const SLASH: Rune := 47
  const BACKSLASH: Rune := 92

  datatype Result = Parts(pattern: seq<Rune>, replacement: seq<Rune>) | NoLeadingSlash | DanglingBackslash | WrongForm

  /** The parts a text falls into at its unescaped slashes, the last one open; None when a backslash is left
      at the end. Only `\/` and `\\` lose their backslash. */
  datatype Split = Split(closed: seq<seq<Rune>>, open: seq<Rune>, escaped: bool)

  function Fed(s: Split, ch: Rune): Split {
    if s.escaped then
      Split(s.closed, (if ch != SLASH && ch != BACKSLASH then s.open + [BACKSLASH] else s.open) + [ch], false)
    else if ch == BACKSLASH then s.(escaped := true)
    else if ch == SLASH then Split(s.closed + [s.open], [], false)
    else s.(open := s.open + [ch])
  }

  function FedAll(s: Split, rs: seq<Rune>): Split
    decreases |rs|
  {
    if rs == [] then s else FedAll(Fed(s, rs[0]), rs[1..])
  }

  lemma {:induction false} FedConcat(s: Split, a: seq<Rune>, b: seq<Rune>)
    ensures FedAll(s, a + b) == FedAll(FedAll(s, a), b)
    decreases |a|
  {
    if a == [] {
      assert a + b == b;
    } else {
      assert (a + b)[1..] == a[1..] + b;
      FedConcat(Fed(s, a[0]), a[1..], b);
    }
  }

  // ----- What a text says, read piece by piece -----

  /** A slash between parts, a rune behind a backslash, or one that stands for itself. */
  datatype Piece = Slash | Escaped(r: Rune) | Plain(r: Rune)

  predicate PieceOk(p: Piece) {
    p.Plain? ==> p.r != SLASH && p.r != BACKSLASH
  }

  predicate PiecesOk(ps: seq<Piece>) {
    forall i :: 0 <= i < |ps| ==> PieceOk(ps[i])
  }

  function SpelledPiece(p: Piece): seq<Rune> {
    match p case Slash => [SLASH] case Escaped(r) => [BACKSLASH, r] case Plain(r) => [r]
  }

  function SpelledPieces(ps: seq<Piece>): seq<Rune> {
    if ps == [] then [] else SpelledPiece(ps[0]) + SpelledPieces(ps[1..])
  }

  /** What a piece adds to its part: a slash or a backslash behind a backslash is just that rune, and any other
      rune keeps its backslash. */
  function Meaning(p: Piece): seq<Rune>
    requires !p.Slash?
  {
    match p
    case Escaped(r) => if r == SLASH || r == BACKSLASH then [r] else [BACKSLASH, r]
    case Plain(r) => [r]
  }

  /** The parts between the slashes, the first one begun with `open`. */
  function PartsOf(open: seq<Rune>, ps: seq<Piece>): (parts: seq<seq<Rune>>)
    ensures parts != []
    decreases |ps|
  {
    if ps == [] then [open]
    else if ps[0].Slash? then [open] + PartsOf([], ps[1..])
    else PartsOf(open + Meaning(ps[0]), ps[1..])
  }

  lemma {:induction false} FedPiece(s: Split, p: Piece)
    requires !s.escaped && PieceOk(p)
    ensures FedAll(s, SpelledPiece(p)) ==
      if p.Slash? then Split(s.closed + [s.open], [], false) else s.(open := s.open + Meaning(p))
  {
    hide FedAll;
    if p.Escaped? {
      assert [BACKSLASH, p.r] == [BACKSLASH] + [p.r];
      FedFirst(s, BACKSLASH, [p.r]);
      FedLast(s.(escaped := true), p.r);
      assert s.open + [BACKSLASH] + [p.r] == s.open + [BACKSLASH, p.r];
    } else {
      FedLast(s, SpelledPiece(p)[0]);
    }
  }

  /** The pieces are read as what they mean, and a backslash left at the end is noticed. */
  lemma {:induction false} PiecesAreRead(s: Split, ps: seq<Piece>, dangling: bool)
    requires !s.escaped && PiecesOk(ps)
    ensures
      var after := FedAll(s, SpelledPieces(ps) + if dangling then [BACKSLASH] else []);
      after.closed + [after.open] == s.closed + PartsOf(s.open, ps) && after.escaped == dangling
    decreases |ps|
  {
    hide Fed, FedAll, SpelledPiece, Meaning;
    var tail := if dangling then [BACKSLASH] else [];
    if ps == [] {
      assert SpelledPieces(ps) + tail == tail;
      FedTail(s, dangling);
    } else {
      var p := ps[0];
      FedPiece(s, p);
      FedConcat(s, SpelledPiece(p), SpelledPieces(ps[1..]) + tail);
      assert SpelledPieces(ps) + tail == SpelledPiece(p) + (SpelledPieces(ps[1..]) + tail);
      var next := FedAll(s, SpelledPiece(p));
      PiecesAreRead(next, ps[1..], dangling);
      if p.Slash? {
        assert s.closed + [s.open] + PartsOf([], ps[1..]) == s.closed + ([s.open] + PartsOf([], ps[1..]));
      }
    }
  }

  lemma {:induction false} FedTail(s: Split, dangling: bool)
    requires !s.escaped
    ensures FedAll(s, if dangling then [BACKSLASH] else []) == s.(escaped := dangling)
  {
    hide FedAll;
    if dangling {
      FedLast(s, BACKSLASH);
    } else {
      FedNothing(s);
    }
  }

  /** Every text is made of such pieces, and possibly a backslash at its end. */
  lemma {:induction false} TextIsPieces(text: seq<Rune>) returns (ps: seq<Piece>, dangling: bool)
    ensures PiecesOk(ps) && [SLASH] + text == TextOf(ps, dangling)
    decreases |text|
  {
    if text == [] || text == [BACKSLASH] {
      ps, dangling := [], text != [];
    } else {
      var p := if text[0] == SLASH then Slash else if text[0] == BACKSLASH then Escaped(text[1]) else Plain(text[0]);
      var n := |SpelledPiece(p)|;
      assert text == SpelledPiece(p) + text[n..];
      var rest;
      rest, dangling := TextIsPieces(text[n..]);
      ps := [p] + rest;
      assert ps[1..] == rest;
      assert SpelledPieces(ps) == SpelledPiece(p) + SpelledPieces(rest);
      assert text[n..] == ([SLASH] + text[n..])[1..] == TextOf(rest, dangling)[1..];
    }
  }

  function TextOf(ps: seq<Piece>, dangling: bool): seq<Rune> {
    [SLASH] + (SpelledPieces(ps) + if dangling then [BACKSLASH] else [])
  }

  ghost predicate Says(r: Result, parts: seq<seq<Rune>>, dangling: bool) {
    && (r.DanglingBackslash? <==> dangling)
    && (r.Parts? <==> !dangling && (|parts| == 2 || (|parts| == 3 && parts[2] == [])))
    && (r.Parts? ==> |parts| >= 2 && r.pattern == parts[0] && r.replacement == parts[1])
  }

  /** Splits at the slashes: refused when there is no slash in front, when a backslash is left at the end, and
      when there are not two parts, with or without a closing slash. */
  method Parse(text: seq<Rune>) returns (r: Result)
    ensures r.NoLeadingSlash? <==> text == [] || text[0] != SLASH
    ensures forall ps, dangling :: PiecesOk(ps) && text == TextOf(ps, dangling) ==> Says(r, PartsOf([], ps), dangling)
  {
    if text == [] || text[0] != SLASH {
      return NoLeadingSlash;
    }
    var parts: seq<seq<Rune>>, buf: seq<Rune>, escaped := [], [], false;
    var rest := text[1..];
    ghost var fed := FedAll(Split([], [], false), rest);
    forall ps, dangling | PiecesOk(ps) && text == TextOf(ps, dangling)
      ensures PartsOf([], ps) == fed.closed + [fed.open] && dangling == fed.escaped
    {
      assert rest == SpelledPieces(ps) + (if dangling then [BACKSLASH] else []);
      PiecesAreRead(Split([], [], false), ps, dangling);
    }
    for i := 0 to |rest|
      invariant FedAll(Split([], [], false), rest) == FedAll(Split(parts, buf, escaped), rest[i..])
    {
      var ch := rest[i];
      assert rest[i..][0] == ch && rest[i..][1..] == rest[i + 1..];
      if escaped {
        if ch != SLASH && ch != BACKSLASH {
          buf := buf + [BACKSLASH];
        }
        buf := buf + [ch];
        escaped := false;
      } else if ch == BACKSLASH {
        escaped := true;
      } else if ch == SLASH {
        parts := parts + [buf];
        buf := [];
      } else {
        buf := buf + [ch];
      }
    }
    assert rest[|rest|..] == [];
    assert fed == Split(parts, buf, escaped);
    ghost var all := parts + [buf];
    if escaped {
      return DanglingBackslash;
    }
    if |buf| > 0 || |parts| < 2 {
      parts := parts + [buf];
    }
    if |parts| != 2 {
      assert |all| != 2 && (|all| == 3 ==> all[2] != []);
      return WrongForm;
    }
    return Parts(parts[0], parts[1]);
  }

  /** A part as it is spelled: its slashes and backslashes escaped. */
  function Spelled(part: seq<Rune>): seq<Rune> {
    if part == [] then []
    else (if part[0] == SLASH || part[0] == BACKSLASH then [BACKSLASH, part[0]] else [part[0]]) + Spelled(part[1..])
  }

  lemma {:induction false} FedFirst(s: Split, ch: Rune, rest: seq<Rune>)
    ensures FedAll(s, [ch] + rest) == FedAll(Fed(s, ch), rest)
  {
    hide Fed;
    assert ([ch] + rest)[1..] == rest;
  }

  lemma {:induction false} FedLast(s: Split, ch: Rune)
    ensures FedAll(s, [ch]) == Fed(s, ch)
  {
    hide Fed;
    assert [ch] == [ch] + [];
    FedFirst(s, ch, []);
    FedNothing(Fed(s, ch));
  }

  lemma {:induction false} FedNothing(s: Split)
    ensures FedAll(s, []) == s
  {
  }

  lemma {:induction false} FedOne(s: Split, ch: Rune)
    requires !s.escaped
    ensures FedAll(s, if ch == SLASH || ch == BACKSLASH then [BACKSLASH, ch] else [ch]) == s.(open := s.open + [ch])
  {
    hide FedAll;
    if ch == SLASH || ch == BACKSLASH {
      assert [BACKSLASH, ch] == [BACKSLASH] + [ch];
      FedFirst(s, BACKSLASH, [ch]);
      FedLast(s.(escaped := true), ch);
    } else {
      FedLast(s, ch);
    }
  }

  lemma {:induction false} SpelledIsRead(s: Split, part: seq<Rune>)
    requires !s.escaped
    ensures FedAll(s, Spelled(part)) == s.(open := s.open + part)
    decreases |part|
  {
    hide Fed;
    if part == [] {
      assert s.open + part == s.open;
    } else {
      var first := if part[0] == SLASH || part[0] == BACKSLASH then [BACKSLASH, part[0]] else [part[0]];
      FedConcat(s, first, Spelled(part[1..]));
      FedOne(s, part[0]);
      SpelledIsRead(s.(open := s.open + [part[0]]), part[1..]);
      assert (s.open + [part[0]]) + part[1..] == s.open + part;
    }
  }

  /** Every pattern and replacement can be written, with or without the closing slash, and is split off
      as it was meant. */
  lemma {:induction false} SpelledPartsAreFound(pattern: seq<Rune>, replacement: seq<Rune>, close: bool)
    ensures FedAll(Split([], [], false),
                   Spelled(pattern) + ([SLASH] + (Spelled(replacement) + (if close then [SLASH] else [])))) ==
      if close then Split([pattern, replacement], [], false) else Split([pattern], replacement, false)
  {
    hide Fed;
    var s0 := Split([], [], false);
    var tail := if close then [SLASH] else [];
    FedConcat(s0, Spelled(pattern), [SLASH] + (Spelled(replacement) + tail));
    SpelledIsRead(s0, pattern);
    assert [] + pattern == pattern;
    var s1 := Split([], pattern, false);
    FedConcat(s1, [SLASH], Spelled(replacement) + tail);
    FedSlash(s1);
    assert [] + [pattern] == [pattern];
    var s2 := Split([pattern], [], false);
    FedConcat(s2, Spelled(replacement), tail);
    SpelledIsRead(s2, replacement);
    assert [] + replacement == replacement;
    FedSlash(Split([pattern], replacement, false));
    assert [pattern] + [replacement] == [pattern, replacement];
  }

  lemma {:induction false} FedSlash(s: Split)
    requires !s.escaped
    ensures FedAll(s, [SLASH]) == Split(s.closed + [s.open], [], false)
  {
  }
}
