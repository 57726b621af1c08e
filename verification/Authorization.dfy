/** The credentials of an `Authorization: Bearer <token>` header, and who is let in
    (internal/bearer/bearer.go). */
module Authorization {
  import opened Bytes
  import opened Utf8
  import opened Wrappers

  const SPACE: byte := 32
  const BEARER: Text := [98, 101, 97, 114, 101, 114]

  // ----- White space -----

  /** unicode.IsSpace. */
  predicate White(r: Rune) {
    || 9 <= r <= 13 || r == 32 || r == 0x85 || r == 0xA0 || r == 0x1680 || 0x2000 <= r <= 0x200A
    || r == 0x2028 || r == 0x2029 || r == 0x202F || r == 0x205F || r == 0x3000
  }

  /** The width of the white rune a text starts with, or 0. */
  /** The white space that is trimmed, rune by rune. */
  lemma {:induction false} WhiteIff(r: Rune)
    ensures White(r) <==> r in {
      0x9, 0xA, 0xB, 0xC, 0xD, 0x20, 0x85, 0xA0, 0x1680, 0x2000, 0x2001, 0x2002, 0x2003, 0x2004, 0x2005, 0x2006, 0x2007, 0x2008,
      0x2009, 0x200A, 0x2028, 0x2029, 0x202F, 0x205F, 0x3000}
  {
  }

  function FirstWhite(s: Text): (n: nat)
    ensures n <= |s|
  {
    if s != [] && White(Decode(s).r) then Decode(s).size else 0
  }

  predicate EndsWhite(s: Text, n: nat) {
    0 < n <= |s| && Decode(s[|s| - n..]).size == n && White(Decode(s[|s| - n..]).r)
  }

  /** The width of the white rune a text ends with, or 0. */
  function LastWhite(s: Text): (n: nat)
    ensures n <= |s|
  {
    if EndsWhite(s, 1) then 1 else if EndsWhite(s, 2) then 2 else if EndsWhite(s, 3) then 3 else 0
  }

  /** Nothing but white runes. */
  predicate Blank(s: Text)
    decreases |s|
  {
    s == [] || (FirstWhite(s) > 0 && Blank(s[FirstWhite(s)..]))
  }

  function TrimmedLeft(s: Text): Text
    decreases |s|
  {
    if FirstWhite(s) == 0 then s else TrimmedLeft(s[FirstWhite(s)..])
  }

  function TrimmedRight(s: Text): Text
    decreases |s|
  {
    if LastWhite(s) == 0 then s else TrimmedRight(s[..|s| - LastWhite(s)])
  }

  /** strings.TrimSpace. */
  function Trimmed(s: Text): Text {
    TrimmedRight(TrimmedLeft(s))
  }

  /** A text with no white rune at either end. */
  predicate Bare(s: Text) {
    s != [] && FirstWhite(s) == 0 && LastWhite(s) == 0
  }

  /** What a text decodes to, unless it is an error, does not depend on what follows. */
  lemma {:induction false} DecodeExtends(s: Text, x: Text)
    requires s != [] && Decode(s).r != RUNE_ERROR
    ensures Decode(s + x) == Decode(s)
  {
  }

  /** Nor does it depend on more than the bytes it took. */
  lemma {:induction false} DecodeShrinks(s: Text, n: nat)
    requires s != [] && Decode(s).r != RUNE_ERROR && Decode(s).size <= n <= |s|
    ensures Decode(s[..n]) == Decode(s)
  {
  }

  /** A white rune takes at most three bytes; the first is no continuation, the others are. */
  lemma {:induction false} WhiteBytes(s: Text)
    requires FirstWhite(s) > 0
    ensures Decode(s).r != RUNE_ERROR && FirstWhite(s) <= 3 && !Continuation(s[0])
    ensures forall i :: 0 < i < FirstWhite(s) ==> Continuation(s[i])
  {
  }

  lemma {:induction false} TrimLeftOfBlank(before: Text, x: Text)
    requires Blank(before)
    ensures TrimmedLeft(before + x) == TrimmedLeft(x)
    decreases |before|
  {
    hide Decode, White;
    if before == [] {
      assert before + x == x;
    } else {
      var n := FirstWhite(before);
      WhiteBytes(before);
      DecodeExtends(before, x);
      TrimLeftOfBlank(before[n..], x);
      assert (before + x)[n..] == before[n..] + x;
    }
  }

  /** What follows a bare text cannot make it start white. */
  lemma {:induction false} BareStays(t: Text, after: Text)
    requires t != [] && FirstWhite(t) == 0 && Blank(after)
    ensures FirstWhite(t + after) == 0
  {
    hide Decode, White;
    var s := t + after;
    assert s[..|t|] == t;
    if after != [] {
      WhiteBytes(after);
      assert s[|t|] == after[0];
    }
    if FirstWhite(s) > 0 {
      WhiteBytes(s);
      if FirstWhite(s) <= |t| {
        DecodeShrinks(s, |t|);
      }
    }
  }

  lemma {:induction false} EndsWhiteOfSuffix(x: Text, s: Text, n: nat)
    requires n <= |s|
    ensures EndsWhite(x + s, n) <==> EndsWhite(s, n)
  {
    hide Decode, White;
    assert (x + s)[|x + s| - n..] == s[|s| - n..];
  }

  /** The last white rune is found whatever stands before it. */
  lemma {:induction false} LastWhiteOfSuffix(x: Text, s: Text)
    requires LastWhite(s) > 0
    ensures LastWhite(x + s) == LastWhite(s)
  {
    hide EndsWhite;
    EndsWhiteOfSuffix(x, s, 1);
    if |s| > 1 {
      EndsWhiteOfSuffix(x, s, 2);
    }
    if |s| > 2 {
      EndsWhiteOfSuffix(x, s, 3);
    }
  }

  lemma {:induction false} LastWhiteIsBlank(s: Text)
    requires LastWhite(s) > 0
    ensures Blank(s[|s| - LastWhite(s)..])
  {
    hide Decode, White;
    var last := s[|s| - LastWhite(s)..];
    assert last[LastWhite(s)..] == [];
  }

  lemma {:induction false} BlankCons(s: Text, more: Text)
    requires FirstWhite(s) > 0 && Blank(more)
    ensures Blank(s[..FirstWhite(s)] + more)
  {
    hide Decode, White;
    var n := FirstWhite(s);
    WhiteBytes(s);
    DecodeShrinks(s, n);
    DecodeExtends(s[..n], more);
    assert (s[..n] + more)[n..] == more;
  }

  /** A white rune alone ends white at its full width. */
  lemma {:induction false} OneWhite(s: Text)
    requires FirstWhite(s) == |s| > 0
    ensures LastWhite(s) == |s|
  {
    WhiteBytes(s);
    assert s[|s| - |s|..] == s;
    if |s| > 1 {
      TailIsNotWhite(s, 1);
    }
    if |s| > 2 {
      TailIsNotWhite(s, 2);
    }
  }

  lemma {:induction false} TailIsNotWhite(s: Text, n: nat)
    requires 0 < n < |s| && Continuation(s[|s| - n])
    ensures !EndsWhite(s, n)
  {
    hide White;
    var tail := s[|s| - n..];
    assert tail[0] == s[|s| - n];
    assert Decode(tail) == Decoded(RUNE_ERROR, 1);
    ErrorIsNotWhite();
  }

  lemma {:induction false} ErrorIsNotWhite()
    ensures !White(RUNE_ERROR)
  {
  }

  /** Blank text can be taken apart from the right as well. */
  lemma {:induction false} BlankFromRight(s: Text)
    requires Blank(s) && s != []
    ensures LastWhite(s) > 0 && Blank(s[..|s| - LastWhite(s)])
    decreases |s|
  {
    hide FirstWhite, LastWhite, Blank;
    BlankParts(s);
    var n := FirstWhite(s);
    var rest := s[n..];
    assert s == s[..n] + rest;
    if rest == [] {
      OneWhite(s);
      assert s[..0] == [];
      NothingIsBlank();
    } else {
      BlankFromRight(rest);
      LastWhiteOfSuffix(s[..n], rest);
      var m := LastWhite(rest);
      BlankCons(s, rest[..|rest| - m]);
      assert s[..|s| - m] == s[..n] + rest[..|rest| - m];
    }
  }

  lemma {:induction false} BlankParts(s: Text)
    requires Blank(s) && s != []
    ensures FirstWhite(s) > 0 && Blank(s[FirstWhite(s)..])
  {
    hide FirstWhite;
  }

  lemma {:induction false} TrimRightOfBlank(t: Text, after: Text)
    requires LastWhite(t) == 0 && Blank(after)
    ensures TrimmedRight(t + after) == t
    decreases |after|
  {
    hide LastWhite, Blank;
    if after == [] {
      assert t + after == t;
    } else {
      BlankFromRight(after);
      LastWhiteOfSuffix(t, after);
      var m := LastWhite(after);
      assert (t + after)[..|t + after| - m] == t + after[..|after| - m];
      TrimRightOfBlank(t, after[..|after| - m]);
    }
  }

  lemma {:induction false} BlankConcat(a: Text, b: Text)
    requires Blank(a) && Blank(b)
    ensures Blank(a + b)
    decreases |a|
  {
    hide Decode, White;
    if a == [] {
      assert a + b == b;
    } else {
      var n := FirstWhite(a);
      WhiteBytes(a);
      DecodeExtends(a, b);
      BlankConcat(a[n..], b);
      assert (a + b)[n..] == a[n..] + b;
    }
  }

  lemma {:induction false} LeftPart(s: Text) returns (before: Text)
    ensures Blank(before) && s == before + TrimmedLeft(s)
    ensures TrimmedLeft(s) == [] || FirstWhite(TrimmedLeft(s)) == 0
    decreases |s|
  {
    hide Blank, FirstWhite;
    var n := FirstWhite(s);
    if n == 0 {
      before := [];
      NothingIsBlank();
    } else {
      var more := LeftPart(s[n..]);
      BlankCons(s, more);
      before := s[..n] + more;
      assert s == s[..n] + s[n..];
    }
  }

  lemma {:induction false} NothingIsBlank()
    ensures Blank([])
  {
  }

  lemma {:induction false} RightPart(s: Text) returns (after: Text)
    ensures Blank(after) && s == TrimmedRight(s) + after && LastWhite(TrimmedRight(s)) == 0
    decreases |s|
  {
    hide Blank, LastWhite;
    var n := LastWhite(s);
    if n == 0 {
      after := [];
      NothingIsBlank();
    } else {
      var more := RightPart(s[..|s| - n]);
      LastWhiteIsBlank(s);
      BlankConcat(more, s[|s| - n..]);
      after := more + s[|s| - n..];
      assert s == s[..|s| - n] + s[|s| - n..];
    }
  }

  /** The start of a text that does not start white does not start white. */
  lemma {:induction false} StartStays(t: Text, after: Text)
    requires t != [] && FirstWhite(t + after) == 0
    ensures FirstWhite(t) == 0
  {
    hide Decode, White;
    if FirstWhite(t) > 0 {
      WhiteBytes(t);
      DecodeExtends(t, after);
    }
  }

  /** Trimming finds just the bare text between two blank ones. */
  lemma {:induction false} TrimmedIff(s: Text, t: Text)
    requires t != []
    ensures Trimmed(s) == t <==>
      Bare(t) && exists before, after :: Blank(before) && Blank(after) && s == before + (t + after)
  {
    hide Blank, FirstWhite, LastWhite, TrimmedLeft, TrimmedRight;
    if Trimmed(s) == t {
      var before := LeftPart(s);
      var after := RightPart(TrimmedLeft(s));
      assert TrimmedLeft(s) == t + after;
      StartStays(t, after);
      assert s == before + (t + after);
    }
    if Bare(t) && exists before, after :: Blank(before) && Blank(after) && s == before + (t + after) {
      var before, after :| Blank(before) && Blank(after) && s == before + (t + after);
      TrimLeftOfBlank(before, t + after);
      BareStays(t, after);
      NothingOnTheLeft(t + after);
      TrimRightOfBlank(t, after);
    }
  }

  lemma {:induction false} NothingOnTheLeft(s: Text)
    requires FirstWhite(s) == 0
    ensures TrimmedLeft(s) == s
  {
  }

  method TrimSpace(s: Text) returns (t: Text)
    ensures t == Trimmed(s)
  {
    hide Decode, White;
    t := s;
    while FirstWhite(t) > 0
      invariant TrimmedLeft(t) == TrimmedLeft(s)
      decreases |t|
    {
      t := t[FirstWhite(t)..];
    }
    while LastWhite(t) > 0
      invariant TrimmedRight(t) == Trimmed(s)
      decreases |t|
    {
      t := t[..|t| - LastWhite(t)];
    }
  }

  // ----- The header -----

  function Lower(b: byte): byte {
    if 65 <= b <= 90 then b + 32 else b
  }

  /** "bearer", in any mixture of cases. */
  predicate IsBearer(s: Text) {
    |s| == |BEARER| && forall i :: 0 <= i < |s| ==> Lower(s[i]) == BEARER[i]
  }

  /** The first space, or the length when there is none. */
  function FirstSpace(s: Text): (i: nat)
    ensures i <= |s| && (i < |s| ==> s[i] == SPACE) && forall j :: 0 <= j < i ==> s[j] != SPACE
  {
    if s == [] || s[0] == SPACE then 0 else 1 + FirstSpace(s[1..])
  }

  function Credentials(header: Text): Option<Text> {
    var i := FirstSpace(header);
    if i == |header| || !IsBearer(header[..i]) || Trimmed(header[i + 1..]) == [] then None
    else Some(Trimmed(header[i + 1..]))
  }

  /** The scheme, letter by letter in either case. */
  lemma {:induction false} BearerIff(s: Text)
    ensures IsBearer(s) <==>
      |s| == 6 && forall i :: 0 <= i < 6 ==> s[i] as int == "bearer"[i] as int || s[i] as int == "BEARER"[i] as int
  {
    if |s| == 6 {
      forall i | 0 <= i < 6
        ensures Lower(s[i]) == BEARER[i] <==> s[i] as int == "bearer"[i] as int || s[i] as int == "BEARER"[i] as int
      {
      }
    }
  }

  /** The header carries a token exactly when it is the scheme in any case, a space, and the token, bare,
      between blanks. */
  lemma {:induction false} CredentialsIff(header: Text, token: Text)
    ensures Credentials(header) == Some(token) <==>
      Bare(token) &&
      exists scheme, before, after ::
        IsBearer(scheme) && Blank(before) && Blank(after) && header == scheme + [32] + (before + (token + after))
  {
    hide Blank, FirstWhite, LastWhite, Trimmed;
    if Credentials(header) == Some(token) {
      var i := FirstSpace(header);
      TrimmedIff(header[i + 1..], token);
      var before, after :| Blank(before) && Blank(after) && header[i + 1..] == before + (token + after);
      assert header == header[..i] + [SPACE] + (before + (token + after));
    }
    if Bare(token) && exists scheme, before, after ::
         IsBearer(scheme) && Blank(before) && Blank(after) && header == scheme + [SPACE] + (before + (token + after)) {
      var scheme, before, after :|
        IsBearer(scheme) && Blank(before) && Blank(after) && header == scheme + [SPACE] + (before + (token + after));
      SchemeEndsAtSpace(scheme, before + (token + after));
      TrimmedIff(before + (token + after), token);
    }
  }

  lemma {:induction false} SchemeEndsAtSpace(scheme: Text, rest: Text)
    requires IsBearer(scheme)
    ensures FirstSpace(scheme + [SPACE] + rest) == |scheme|
    ensures (scheme + [SPACE] + rest)[..|scheme|] == scheme && (scheme + [SPACE] + rest)[|scheme| + 1..] == rest
  {
    var s := scheme + [SPACE] + rest;
    assert s[|scheme|] == SPACE;
    forall j | 0 <= j < |scheme| ensures s[j] != SPACE {
      assert Lower(s[j]) == BEARER[j];
    }
  }

  method ParseHeader(header: Text) returns (r: Option<Text>)
    ensures r == Credentials(header)
  {
    var i := FirstSpace(header);
    if i == |header| || !IsBearer(header[..i]) {
      return None;
    }
    var token := TrimSpace(header[i + 1..]);
    if token == [] {
      return None;
    }
    return Some(token);
  }

  /** Whether the header carries one of the tokens. Every candidate is compared; none ends the search. */
  method Authorized(header: Text, tokens: seq<Text>) returns (ok: bool)
    ensures ok <==> exists token :: token in tokens && Credentials(header) == Some(token)
  {
    hide Credentials;
    var got := ParseHeader(header);
    if got.None? {
      return false;
    }
    CredentialsIff(header, got.value);
    var matched := false;
    for i := 0 to |tokens|
      invariant matched <==> got.value in tokens[..i]
    {
      if tokens[i] == [] {
        continue;
      }
      matched := matched || got.value == tokens[i];
    }
    assert tokens[..|tokens|] == tokens;
    return matched;
  }
}
