/** Label sets as they are built, one key at a time, and the hash that identifies them
    (internal/metrics/labels.go). */
module LabelSets {
  import opened Bytes
  import opened LabelText
  import Utf8

  /** The bound on one value, in bytes. */
  const MAX_VALUE_BYTES: nat := 256

  // ----- Bounding a value -----

  /** Back from `end` to a byte that starts something; 0 when there is none after the first. */
  function BackOff(v: Text, end: nat): (e: nat)
    requires end < |v|
    ensures e <= end && (e == 0 || !Utf8.Continuation(v[e]))
    ensures forall j :: e < j <= end ==> Utf8.Continuation(v[j])
  {
    if end > 0 && Utf8.Continuation(v[end]) then BackOff(v, end - 1) else end
  }

  function Cut(v: Text): (n: nat)
    ensures n <= |v| && n <= MAX_VALUE_BYTES && (v != [] ==> n > 0)
    ensures |v| <= MAX_VALUE_BYTES ==> n == |v|
  {
    if |v| <= MAX_VALUE_BYTES then |v|
    else if BackOff(v, MAX_VALUE_BYTES) == 0 then MAX_VALUE_BYTES
    else BackOff(v, MAX_VALUE_BYTES)
  }

  function Bounded(v: Text): Text {
    v[..Cut(v)]
  }

  method TruncLabelCut(v: Text) returns (end: nat)
    ensures end == Cut(v)
  {
    if |v| <= MAX_VALUE_BYTES {
      return |v|;
    }
    end := MAX_VALUE_BYTES;
    while end > 0 && Utf8.Continuation(v[end])
      invariant end <= MAX_VALUE_BYTES && BackOff(v, end) == BackOff(v, MAX_VALUE_BYTES)
    {
      end := end - 1;
    }
    if end == 0 {
      end := MAX_VALUE_BYTES;
    }
  }

  lemma {:induction false} BackOffIff(v: Text, end: nat)
    requires end < |v|
    ensures BackOff(v, end) == 0 <==> forall j :: 0 < j <= end ==> Utf8.Continuation(v[j])
    ensures BackOff(v, end) == end <==> end == 0 || !Utf8.Continuation(v[end])
  {
  }

  /** A long value is cut at the byte bound exactly when a rune starts there, or when none starts at any
      byte after the first up to there. */
  lemma {:induction false} CutAtBoundIff(v: Text)
    requires |v| > 256
    ensures Cut(v) == 256 <==> !Utf8.Continuation(v[256]) || forall j :: 0 < j <= 256 ==> Utf8.Continuation(v[j])
  {
    hide BackOff;
    BackOffIff(v, MAX_VALUE_BYTES);
  }

  /** Cutting a cut value changes nothing, so what is hashed is what is rendered. */
  lemma {:induction false} BoundedIsIdempotent(v: Text)
    ensures Bounded(Bounded(v)) == Bounded(v)
    ensures Bounded(v) == [] <==> v == []
  {
  }

  lemma {:induction false} LeadsAreNotContinuations(s: Text)
    requires Utf8.Valid(s) && s != []
    ensures !Utf8.Continuation(s[0])
    ensures forall j :: 0 < j < Utf8.Decode(s).size ==> Utf8.Continuation(s[j])
  {
  }

  /** The first rune of a valid text, read alone or in front of anything else, is the same rune. */
  lemma {:induction false} FirstRuneStays(s: Text, t: Text)
    requires Utf8.Valid(s) && s != []
    requires |t| >= Utf8.Decode(s).size && t[..Utf8.Decode(s).size] == s[..Utf8.Decode(s).size]
    ensures Utf8.Decode(t) == Utf8.Decode(s)
  {
    hide Utf8.Decode, Utf8.Encode;
    var d := Utf8.Decode(s);
    Utf8.DecodeIsScalar(s);
    Utf8.DecodeEncode(d.r, t[d.size..]);
    Utf8.DecodeEncode(d.r, s[d.size..]);
    assert t == Utf8.Encode(d.r) + t[d.size..];
    assert s == Utf8.Encode(d.r) + s[d.size..];
  }

  /** A valid text cut where a rune starts is valid. */
  lemma {:induction false} CutAtRuneStart(s: Text, e: nat)
    requires Utf8.Valid(s) && e < |s| && !Utf8.Continuation(s[e])
    ensures Utf8.Valid(s[..e])
    decreases e
  {
    hide Utf8.Decode, Utf8.Encode;
    if e > 0 {
      var d := Utf8.Decode(s).size;
      LeadsAreNotContinuations(s);
      CutAtRuneStart(s[d..], e - d);
      assert s[..e][..d] == s[..d];
      FirstRuneStays(s, s[..e]);
      assert s[..e][d..] == s[d..][..e - d];
    }
  }

  /** Cutting never makes a valid value invalid. */
  lemma {:induction false} BoundedStaysValid(v: Text)
    requires Utf8.Valid(v)
    ensures Utf8.Valid(Bounded(v))
  {
    hide Utf8.Decode, Utf8.Encode, Utf8.Valid;
    if |v| <= MAX_VALUE_BYTES {
      assert v[..|v|] == v;
    } else {
      var e := BackOff(v, MAX_VALUE_BYTES);
      SecondRuneStarts(v);
      CutAtRuneStart(v, e);
    }
  }

  /** A long valid text has a rune starting at one of its bytes 1 to 4. */
  lemma {:induction false} SecondRuneStarts(v: Text)
    requires Utf8.Valid(v) && |v| > 4
    ensures 1 <= Utf8.Decode(v).size <= 4 && !Utf8.Continuation(v[Utf8.Decode(v).size])
  {
  }

  // ----- Setting a label -----

  /** The set as a map: what `get` answers. The first pair of a key counts. */
  ghost function MapOf(l: seq<Pair>): map<Text, Text> {
    if l == [] then map[] else MapOf(l[1..])[l[0].key := l[0].value]
  }

  /** The pairs after setting a (non-empty) key to a (non-empty) value. */
  function Replaced(l: seq<Pair>, key: Text, value: Text): seq<Pair> {
    if l == [] then [Pair(key, value)]
    else if l[0].key == key then [Pair(key, value)] + l[1..]
    else [l[0]] + Replaced(l[1..], key, value)
  }

  function WithLabel(l: seq<Pair>, key: Text, value: Text): seq<Pair> {
    if key == [] || value == [] then l else Replaced(l, key, Bounded(value))
  }

  /** What every label set built through `set` is: distinct, non-empty keys, and bounded, non-empty values. */
  ghost predicate WellFormed(l: seq<Pair>) {
    && DistinctKeys(l)
    && forall i :: 0 <= i < |l| ==> l[i].key != [] && l[i].value != [] && |l[i].value| <= MAX_VALUE_BYTES
  }

  lemma {:induction false} ReplacedAt(l: seq<Pair>, i: nat, key: Text, value: Text)
    requires i < |l| && l[i].key == key && forall j :: 0 <= j < i ==> l[j].key != key
    ensures Replaced(l, key, value) == l[i := Pair(key, value)]
  {
    if i > 0 {
      forall j | 0 <= j < i - 1 ensures l[1..][j].key != key {
        assert l[1..][j] == l[j + 1];
      }
      ReplacedAt(l[1..], i - 1, key, value);
    }
  }

  lemma {:induction false} ReplacedAppends(l: seq<Pair>, key: Text, value: Text)
    requires forall j :: 0 <= j < |l| ==> l[j].key != key
    ensures Replaced(l, key, value) == l + [Pair(key, value)]
  {
    if l != [] {
      forall j | 0 <= j < |l[1..]| ensures l[1..][j].key != key {
        assert l[1..][j] == l[j + 1];
      }
      ReplacedAppends(l[1..], key, value);
    }
  }

  /** Where a key stands, if anywhere. */
  ghost function Position(l: seq<Pair>, key: Text): (i: nat)
    ensures i <= |l| && (i < |l| ==> l[i].key == key) && forall j :: 0 <= j < i ==> l[j].key != key
  {
    if l == [] || l[0].key == key then 0
    else
      var i := Position(l[1..], key);
      assert forall j :: 1 <= j < |l| ==> l[1..][j - 1] == l[j];
      1 + i
  }

  /** Setting keeps the set well-formed. */
  lemma {:induction false} SetKeepsWellFormed(l: seq<Pair>, key: Text, value: Text)
    requires WellFormed(l)
    ensures WellFormed(WithLabel(l, key, value))
  {
    hide Replaced, Bounded, Cut;
    if key != [] && value != [] {
      BoundedIsIdempotent(value);
      BoundedFits(value);
      var i := Position(l, key);
      if i < |l| {
        ReplacedAt(l, i, key, Bounded(value));
      } else {
        ReplacedAppends(l, key, Bounded(value));
      }
    }
  }

  lemma {:induction false} BoundedFits(v: Text)
    ensures |Bounded(v)| <= MAX_VALUE_BYTES
  {
  }

  /** Setting is updating the map: one key changes, to the bounded value, and nothing else does. */
  lemma {:induction false} SetUpdatesMap(l: seq<Pair>, key: Text, value: Text)
    ensures MapOf(Replaced(l, key, value)) == MapOf(l)[key := value]
  {
    if l == [] {
      assert [Pair(key, value)][1..] == [];
    } else if l[0].key == key {
      assert ([Pair(key, value)] + l[1..])[1..] == l[1..];
    } else {
      SetUpdatesMap(l[1..], key, value);
      assert ([l[0]] + Replaced(l[1..], key, value))[1..] == Replaced(l[1..], key, value);
    }
  }

  // ----- The hash -----

  datatype Uint128 = Uint128(hi: bv64, lo: bv64)

  function Xor(a: Uint128, b: Uint128): Uint128 {
    Uint128(XorHalf(a.hi, b.hi), XorHalf(a.lo, b.lo))
  }

  function XorHalf(a: bv64, b: bv64): bv64 {
    a ^ b
  }

  const ZERO := Uint128(0, 0)

  lemma {:induction false} XorLaws(a: Uint128, b: Uint128, c: Uint128)
    ensures Xor(a, b) == Xor(b, a)
    ensures Xor(Xor(a, b), c) == Xor(a, Xor(b, c))
    ensures Xor(a, a) == ZERO && Xor(a, ZERO) == a
    ensures Xor(Xor(a, b), b) == a
  {
    hide XorHalf;
    HalfLaws(a.hi, b.hi, c.hi);
    HalfLaws(a.lo, b.lo, c.lo);
    HalfLaws(a.hi, b.hi, b.hi);
    HalfLaws(a.lo, b.lo, b.lo);
    HalfLaws(b.hi, b.hi, b.hi);
    HalfLaws(b.lo, b.lo, b.lo);
  }

  lemma {:induction false} HalfLaws(a: bv64, b: bv64, c: bv64)
    ensures XorHalf(a, b) == XorHalf(b, a)
    ensures XorHalf(XorHalf(a, b), c) == XorHalf(a, XorHalf(b, c))
    ensures XorHalf(a, a) == 0 && XorHalf(a, 0) == a
  {
    hide XorHalf;
    HalfCommutes(a, b);
    HalfAssociates(a, b, c);
    HalfCancels(a);
  }

  lemma {:induction false} HalfCommutes(a: bv64, b: bv64)
    ensures XorHalf(a, b) == XorHalf(b, a)
  {
  }

  lemma {:induction false} HalfAssociates(a: bv64, b: bv64, c: bv64)
    ensures XorHalf(XorHalf(a, b), c) == XorHalf(a, XorHalf(b, c))
  {
  }

  lemma {:induction false} HalfCancels(a: bv64)
    ensures XorHalf(a, a) == 0 && XorHalf(a, 0) == a
  {
  }

  /** The fold of the pairs' contributions. What one pair contributes is left open. */
  function Fold(l: seq<Pair>, contribution: Pair -> Uint128): Uint128 {
    if l == [] then ZERO else Xor(contribution(l[0]), Fold(l[1..], contribution))
  }

  lemma {:induction false} FoldConcat(a: seq<Pair>, b: seq<Pair>, contribution: Pair -> Uint128)
    ensures Fold(a + b, contribution) == Xor(Fold(a, contribution), Fold(b, contribution))
  {
    hide Xor;
    if a == [] {
      assert a + b == b;
      XorLaws(Fold(b, contribution), ZERO, ZERO);
    } else {
      assert (a + b)[1..] == a[1..] + b;
      FoldConcat(a[1..], b, contribution);
      XorLaws(contribution(a[0]), Fold(a[1..], contribution), Fold(b, contribution));
    }
  }

  lemma {:induction false} FoldOne(p: Pair, contribution: Pair -> Uint128)
    ensures Fold([p], contribution) == contribution(p)
  {
    assert [p][1..] == [];
    XorLaws(contribution(p), ZERO, ZERO);
  }

  /** A pair taken from anywhere in the set folds out again. */
  lemma {:induction false} FoldWithout(l: seq<Pair>, i: nat, contribution: Pair -> Uint128)
    requires i < |l|
    ensures Fold(l, contribution) == Xor(contribution(l[i]), Fold(l[..i] + l[i + 1..], contribution))
  {
    hide Xor, Fold;
    var a, p, b := l[..i], l[i], l[i + 1..];
    assert l == a + ([p] + b);
    FoldConcat(a, [p] + b, contribution);
    FoldConcat([p], b, contribution);
    FoldConcat(a, b, contribution);
    FoldOne(p, contribution);
    XorLaws(Fold(a, contribution), contribution(p), Fold(b, contribution));
    XorLaws(contribution(p), Fold(a, contribution), Fold(b, contribution));
  }

  /** The fold does not see the order of the pairs. */
  lemma {:induction false} FoldOfPermutation(a: seq<Pair>, b: seq<Pair>, contribution: Pair -> Uint128)
    requires multiset(a) == multiset(b)
    ensures Fold(a, contribution) == Fold(b, contribution)
  {
    hide Xor, Fold;
    if a == [] {
      assert |multiset(b)| == |b|;
    } else {
      var i := TakenOut(a, b);
      var rest := b[..i] + b[i + 1..];
      FoldOfPermutation(a[1..], rest, contribution);
      FoldWithout(b, i, contribution);
      FoldWithout(a, 0, contribution);
      assert a[..0] + a[1..] == a[1..];
    }
  }

  lemma {:induction false} TakenOut(a: seq<Pair>, b: seq<Pair>) returns (i: nat)
    requires a != [] && multiset(a) == multiset(b)
    ensures i < |b| && b[i] == a[0] && multiset(a[1..]) == multiset(b[..i] + b[i + 1..])
  {
    assert a[0] in multiset(a);
    assert a[0] in b;
    i :| 0 <= i < |b| && b[i] == a[0];
    FrontOf(b, i);
    Sorting.TailsAgree(a, [b[i]] + (b[..i] + b[i + 1..]));
  }

  lemma {:induction false} FrontOf(b: seq<Pair>, i: nat)
    requires i < |b|
    ensures multiset([b[i]] + (b[..i] + b[i + 1..])) == multiset(b)
    ensures ([b[i]] + (b[..i] + b[i + 1..]))[1..] == b[..i] + b[i + 1..]
  {
    assert b == b[..i] + ([b[i]] + b[i + 1..]);
  }

  /** Overriding a key folds its old pair out and its new pair in; a new key only folds in. */
  lemma {:induction false} SetFolds(l: seq<Pair>, key: Text, value: Text, contribution: Pair -> Uint128)
    requires WellFormed(l) && key != [] && value != []
    ensures
      var i := Position(l, key);
      var without := if i < |l| then Xor(Fold(l, contribution), contribution(l[i])) else Fold(l, contribution);
      Fold(WithLabel(l, key, value), contribution) == Xor(without, contribution(Pair(key, Bounded(value))))
  {
    hide Xor, Fold;
    var i := Position(l, key);
    var p := Pair(key, Bounded(value));
    if i < |l| {
      var after := l[i := p];
      ReplacedAt(l, i, key, Bounded(value));
      FoldWithout(l, i, contribution);
      FoldWithout(after, i, contribution);
      assert after[..i] + after[i + 1..] == l[..i] + l[i + 1..];
      var rest := Fold(l[..i] + l[i + 1..], contribution);
      XorLaws(contribution(l[i]), rest, ZERO);
      XorLaws(rest, contribution(l[i]), ZERO);
      XorLaws(rest, contribution(p), ZERO);
    } else {
      ReplacedAppends(l, key, Bounded(value));
      FoldConcat(l, [p], contribution);
      FoldOne(p, contribution);
    }
  }

  /** Why the keys must be distinct: a pair folded twice is not seen at all. */
  lemma {:induction false} TwiceIsNotAtAll(p: Pair, l: seq<Pair>, contribution: Pair -> Uint128)
    ensures Fold([p, p] + l, contribution) == Fold(l, contribution)
  {
    hide Xor, Fold;
    assert [p, p] + l == [p] + ([p] + l);
    FoldConcat([p], [p] + l, contribution);
    FoldConcat([p], l, contribution);
    FoldOne(p, contribution);
    XorLaws(contribution(p), contribution(p), Fold(l, contribution));
    XorLaws(Fold(l, contribution), ZERO, ZERO);
    XorLaws(ZERO, Fold(l, contribution), ZERO);
  }

  /** A label set, updated in place. */
  class Labels {
    var pairs: seq<Pair>

    constructor ()
      ensures pairs == [] && WellFormed(pairs)
    {
      pairs := [];
    }

    method Set(key: Text, value: Text)
      requires WellFormed(pairs)
      modifies this
      ensures WellFormed(pairs) && pairs == WithLabel(old(pairs), key, value)
      ensures MapOf(pairs) ==
        if key == [] || value == [] then MapOf(old(pairs)) else MapOf(old(pairs))[key := Bounded(value)]
    {
      hide WellFormed, Replaced, MapOf, Cut;
      if key == [] || value == [] {
        return;
      }
      SetKeepsWellFormed(pairs, key, value);
      SetUpdatesMap(pairs, key, Bounded(value));
      var cut := TruncLabelCut(value);
      var bounded := value[..cut];
      for i := 0 to |pairs|
        invariant pairs == old(pairs)
        invariant forall j :: 0 <= j < i ==> pairs[j].key != key
      {
        if pairs[i].key == key {
          ReplacedAt(pairs, i, key, bounded);
          pairs := pairs[i := Pair(key, bounded)];
          return;
        }
      }
      ReplacedAppends(pairs, key, bounded);
      pairs := pairs + [Pair(key, bounded)];
    }

    method HashAccum(contribution: Pair -> Uint128) returns (h: Uint128)
      ensures h == Fold(pairs, contribution)
    {
      hide Fold;
      h := ZERO;
      FoldNothing(contribution);
      for i := 0 to |pairs|
        invariant h == Fold(pairs[..i], contribution)
      {
        assert pairs[..i + 1] == pairs[..i] + [pairs[i]];
        FoldConcat(pairs[..i], [pairs[i]], contribution);
        FoldOne(pairs[i], contribution);
        h := Xor(h, contribution(pairs[i]));
      }
      assert pairs[..|pairs|] == pairs;
    }
  }

  lemma {:induction false} FoldNothing(contribution: Pair -> Uint128)
    ensures Fold([], contribution) == ZERO
  {
  }

  // ----- Identity: text, map and hash -----

  lemma {:induction false} InMap(l: seq<Pair>, p: Pair)
    requires WellFormed(l)
    ensures p in l <==> p.key in MapOf(l) && MapOf(l)[p.key] == p.value
  {
    if l != [] {
      assert forall i :: 0 <= i < |l[1..]| ==> l[1..][i] == l[i + 1];
      InMap(l[1..], p);
      assert l == [l[0]] + l[1..];
      if p in l[1..] {
        assert p.key != l[0].key;
      }
    }
  }

  lemma {:induction false} Multiplicity(l: seq<Pair>, p: Pair)
    requires WellFormed(l)
    ensures multiset(l)[p] == if p in l then 1 else 0
  {
    if l != [] {
      assert forall i :: 0 <= i < |l[1..]| ==> l[1..][i] == l[i + 1];
      Multiplicity(l[1..], p);
      assert l == [l[0]] + l[1..];
      if p in l[1..] {
        assert p.key != l[0].key;
      }
    }
  }

  lemma {:induction false} AllRendered(l: seq<Pair>)
    requires WellFormed(l)
    ensures NonEmpty(l) == l
  {
    if l != [] {
      assert forall i :: 0 <= i < |l[1..]| ==> l[1..][i] == l[i + 1];
      AllRendered(l[1..]);
      assert l == [l[0]] + l[1..];
    }
  }

  /** For sets built through `set`: the printed text identifies the map, and a printed set parses back
      to all its pairs. */
  lemma {:induction false} TextIdentifiesMap(a: seq<Pair>, b: seq<Pair>)
    requires WellFormed(a) && WellFormed(b)
    ensures Printed(a) == Printed(b) <==> MapOf(a) == MapOf(b)
    ensures Parsed(Printed(a)).Some? && multiset(Parsed(Printed(a)).value) == multiset(a)
  {
    hide Printed, Parsed;
    AllRendered(a);
    AllRendered(b);
    PrintedIdentity(a, b);
    RoundTrip(a);
    Sorting.SortPermutes(a, KeyAtMost);
    if MapOf(a) == MapOf(b) {
      forall p: Pair ensures multiset(a)[p] == multiset(b)[p] {
        InMap(a, p);
        InMap(b, p);
        Multiplicity(a, p);
        Multiplicity(b, p);
      }
      assert multiset(a) == multiset(b);
    }
    if multiset(a) == multiset(b) {
      forall p: Pair ensures p in a <==> p in b {
        assert p in a <==> p in multiset(a);
        assert p in b <==> p in multiset(b);
      }
      SameMap(a, b);
    }
  }

  lemma {:induction false} SameMap(a: seq<Pair>, b: seq<Pair>)
    requires WellFormed(a) && WellFormed(b) && forall p :: p in a <==> p in b
    ensures MapOf(a) == MapOf(b)
  {
    forall k ensures k in MapOf(a) <==> k in MapOf(b)
             ensures k in MapOf(a) ==> k in MapOf(b) && MapOf(a)[k] == MapOf(b)[k]
    {
      if k in MapOf(a) {
        InMap(a, Pair(k, MapOf(a)[k]));
        InMap(b, Pair(k, MapOf(a)[k]));
      }
      if k in MapOf(b) {
        InMap(a, Pair(k, MapOf(b)[k]));
        InMap(b, Pair(k, MapOf(b)[k]));
      }
    }
  }

  /** The hashed identity follows the rendered one: equal texts, equal hashes, in whatever order the
      labels were set and however often they were overridden. */
  lemma {:induction false} EqualTextEqualHash(a: seq<Pair>, b: seq<Pair>, contribution: Pair -> Uint128)
    requires WellFormed(a) && WellFormed(b) && Printed(a) == Printed(b)
    ensures Fold(a, contribution) == Fold(b, contribution)
  {
    hide Printed, Fold;
    AllRendered(a);
    AllRendered(b);
    PrintedIdentity(a, b);
    FoldOfPermutation(a, b, contribution);
  }

  /** The label set after a run of `set` calls on an empty one. */
  function Built(calls: seq<Pair>): seq<Pair> {
    if calls == [] then []
    else
      var last := calls[|calls| - 1];
      WithLabel(Built(calls[..|calls| - 1]), last.key, last.value)
  }

  /** The map such a run builds: every call with a key and a value overrides that key. */
  ghost function Overridden(calls: seq<Pair>): map<Text, Text> {
    if calls == [] then map[]
    else
      var last := calls[|calls| - 1];
      var before := Overridden(calls[..|calls| - 1]);
      if last.key == [] || last.value == [] then before else before[last.key := Bounded(last.value)]
  }

  lemma {:induction false} BuiltHolds(calls: seq<Pair>)
    ensures WellFormed(Built(calls)) && MapOf(Built(calls)) == Overridden(calls)
  {
    if calls != [] {
      var before := calls[..|calls| - 1];
      var last := calls[|calls| - 1];
      BuiltHolds(before);
      SetKeepsWellFormed(Built(before), last.key, last.value);
      SetUpdatesMap(Built(before), last.key, Bounded(last.value));
    }
  }

  /** Over any two runs of `set`: the texts agree exactly when the maps do, and then the hashes agree. */
  lemma {:induction false} RunsAgree(x: seq<Pair>, y: seq<Pair>, contribution: Pair -> Uint128)
    ensures Printed(Built(x)) == Printed(Built(y)) <==> Overridden(x) == Overridden(y)
    ensures Overridden(x) == Overridden(y) ==> Fold(Built(x), contribution) == Fold(Built(y), contribution)
  {
    BuiltHolds(x);
    BuiltHolds(y);
    TextIdentifiesMap(Built(x), Built(y));
    if Overridden(x) == Overridden(y) {
      EqualTextEqualHash(Built(x), Built(y), contribution);
    }
  }
}
