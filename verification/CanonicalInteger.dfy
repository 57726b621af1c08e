/** The normal form of integer tokens: one rendering per number, whatever the token's length
    (internal/logline/fields.go). */
module CanonicalInteger {
  import opened Bytes

  const MINUS: byte := 45
  const ZERO: byte := 48

  predicate Digit(b: byte) {
    48 <= b <= 57
  }

  predicate Digits(s: Text) {
    s != [] && forall i :: 0 <= i < |s| ==> Digit(s[i])
  }

  predicate Negative(s: Text) {
    s != [] && s[0] == MINUS
  }

  /** The digits of a token. */
  function Unsigned(s: Text): Text {
    if Negative(s) then s[1..] else s
  }

  /** An integer token: digits, with or without a minus. */
  predicate Token(s: Text) {
    Digits(Unsigned(s))
  }

  function DigitsValue(s: Text): nat
    requires forall i :: 0 <= i < |s| ==> Digit(s[i])
  {
    if s == [] then 0
    else
      assert Digit(s[|s| - 1]);
      DigitsValue(s[..|s| - 1]) * 10 + (s[|s| - 1] as int - 48)
  }

  /** The integer a token spells. */
  function Value(s: Text): int
    requires Token(s)
  {
    if Negative(s) then -(DigitsValue(Unsigned(s)) as int) else DigitsValue(Unsigned(s))
  }

  /** No leading zero but the number zero itself, and no negative zero. */
  predicate Normal(s: Text) {
    && Token(s)
    && (Unsigned(s)[0] == ZERO ==> s == [ZERO])
  }

  function Stripped(digits: Text): Text {
    if |digits| > 1 && digits[0] == ZERO then Stripped(digits[1..]) else digits
  }

  function Canonical(s: Text): Text {
    if Negative(s) && Stripped(s[1..]) != [ZERO] then [MINUS] + Stripped(s[1..]) else Stripped(Unsigned(s))
  }

  lemma {:induction false} StrippedFrom(digits: Text, i: nat)
    requires i <= |digits| && (i > 0 ==> i < |digits|)
    requires forall j :: 0 <= j < i ==> digits[j] == ZERO
    ensures Stripped(digits[i..]) == Stripped(digits)
  {
    if i == 0 {
      assert digits[0..] == digits;
    } else {
      StrippedFrom(digits[1..], i - 1);
      assert digits[1..][i - 1..] == digits[i..];
    }
  }

  method Render(raw: Text) returns (r: Text)
    requires raw != []
    ensures r == Canonical(raw)
  {
    var neg := raw[0] == MINUS;
    var digits := raw;
    if neg {
      digits := raw[1..];
    }
    var i: nat := 0;
    while i < |digits| - 1 && digits[i] == ZERO
      invariant i <= |digits| && (i > 0 ==> i < |digits|)
      invariant forall j :: 0 <= j < i ==> digits[j] == ZERO
    {
      i := i + 1;
    }
    StrippedFrom(digits, i);
    ghost var all := digits;
    digits := digits[i..];
    assert Stripped(digits) == digits;
    var isZero := |digits| == 1 && digits[0] == ZERO;
    assert isZero <==> digits == [ZERO];
    if i == 0 && (!neg || !isZero) {
      assert digits == all;
      assert neg ==> raw == [MINUS] + digits;
      return raw;
    } else if neg && !isZero {
      return [MINUS] + digits;
    }
    return digits;
  }

  /** Every number has a normal form. */
  lemma {:induction false} EveryNumberIsSpelled(n: int) returns (s: Text)
    ensures Normal(s) && Value(s) == n
  {
    s := SpelledDigits(if n < 0 then -n else n);
    if n < 0 {
      var digits := s;
      s := [MINUS] + digits;
      assert s[1..] == digits;
    }
  }

  lemma {:induction false} SpelledDigits(n: nat) returns (s: Text)
    ensures Digits(s) && DigitsValue(s) == n && (s[0] == ZERO ==> n == 0 && s == [ZERO])
    decreases n
  {
    var last := (48 + n % 10) as byte;
    if n < 10 {
      s := [last];
      assert s[..0] == [];
    } else {
      var front := SpelledDigits(n / 10);
      s := front + [last];
      assert s[..|s| - 1] == front;
    }
  }

  /** Leading zeros do not count. */
  lemma {:induction false} LeadingZero(s: Text)
    requires |s| > 1 && Digits(s) && s[0] == ZERO
    ensures DigitsValue(s) == DigitsValue(s[1..])
  {
    var n := |s| - 1;
    if n == 1 {
      assert s[..1] == [ZERO] && s[..1][..0] == [];
      assert s[1..][..0] == [];
    } else {
      LeadingZero(s[..n]);
      assert s[1..][..n - 1] == s[..n][1..];
    }
  }

  lemma {:induction false} StrippedValue(s: Text)
    requires Digits(s)
    ensures Digits(Stripped(s)) && DigitsValue(Stripped(s)) == DigitsValue(s)
    ensures Stripped(s)[0] == ZERO ==> Stripped(s) == [ZERO]
    ensures |Stripped(s)| <= |s|
  {
    if |s| > 1 && s[0] == ZERO {
      LeadingZero(s);
      StrippedValue(s[1..]);
    }
  }

  /** The rendering is a normal form of the same integer. */
  lemma {:induction false} CanonicalIsNormal(s: Text)
    requires Token(s)
    ensures Normal(Canonical(s)) && Value(Canonical(s)) == Value(s) && |Canonical(s)| <= |s|
  {
    var d := Stripped(Unsigned(s));
    StrippedValue(Unsigned(s));
    if Negative(s) && d != [ZERO] {
      assert ([MINUS] + d)[1..] == d;
    } else {
      assert !Negative(d) by {
        assert Digit(d[0]);
      }
      if Negative(s) {
        assert DigitsValue([ZERO]) == 0 by {
          assert [ZERO][..0] == [];
        }
      }
    }
  }

  /** Without leading zeros the digits are positive. */
  lemma {:induction false} LeadingDigitCounts(s: Text)
    requires Digits(s) && s[0] != ZERO
    ensures DigitsValue(s) >= 1
  {
    if |s| == 1 {
      assert s[..0] == [];
    } else {
      LeadingDigitCounts(s[..|s| - 1]);
    }
  }

  /** Digits without leading zeros are determined by their value. */
  lemma {:induction false} DigitsUnique(a: Text, b: Text)
    requires Digits(a) && Digits(b) && a[0] != ZERO && b[0] != ZERO
    requires DigitsValue(a) == DigitsValue(b)
    ensures a == b
  {
    var x, y := a[..|a| - 1], b[..|b| - 1];
    LastDigit(DigitsValue(x), a[|a| - 1], DigitsValue(y), b[|b| - 1]);
    if x == [] && y != [] {
      LeadingDigitCounts(y);
    } else if x != [] && y == [] {
      LeadingDigitCounts(x);
    } else if x != [] {
      DigitsUnique(x, y);
    }
    assert a == x + [a[|a| - 1]] && b == y + [b[|b| - 1]];
  }

  lemma {:induction false} LastDigit(x: nat, c: byte, y: nat, d: byte)
    requires Digit(c) && Digit(d) && x * 10 + (c as int - 48) == y * 10 + (d as int - 48)
    ensures x == y && c == d
  {
  }

  lemma {:induction false} NormalSign(s: Text)
    requires Normal(s)
    ensures s == [ZERO] ==> Value(s) == 0
    ensures s != [ZERO] ==> Unsigned(s)[0] != ZERO && (if Negative(s) then Value(s) < 0 else Value(s) > 0)
  {
    if s == [ZERO] {
      assert [ZERO][..0] == [];
      assert DigitsValue([ZERO]) == 0;
    } else {
      LeadingDigitCounts(Unsigned(s));
    }
  }

  lemma {:induction false} NormalUnique(a: Text, b: Text)
    requires Normal(a) && Normal(b) && Value(a) == Value(b)
    ensures a == b
  {
    NormalSign(a);
    NormalSign(b);
    if a != [ZERO] {
      DigitsUnique(Unsigned(a), Unsigned(b));
      assert Negative(a) ==> a == [MINUS] + Unsigned(a);
      assert Negative(b) ==> b == [MINUS] + Unsigned(b);
    }
  }

  /** Two tokens render alike exactly when they are the same number; rendering twice is rendering once;
      and no token of that number is shorter. */
  lemma {:induction false} CanonicalIsNormalForm(a: Text, b: Text)
    requires Token(a) && Token(b)
    ensures Canonical(a) == Canonical(b) <==> Value(a) == Value(b)
    ensures Canonical(Canonical(a)) == Canonical(a)
    ensures Value(a) == Value(b) ==> |Canonical(a)| <= |b|
  {
    CanonicalIsNormal(a);
    CanonicalIsNormal(b);
    CanonicalIsNormal(Canonical(a));
    if Value(a) == Value(b) {
      NormalUnique(Canonical(a), Canonical(b));
    }
    NormalUnique(Canonical(Canonical(a)), Canonical(a));
  }
}
