/** The export of log-derived metrics (internal/metrics/export.go): snapshots are sent in chunks, and
    what a transient failure leaves undelivered, and the store no longer holds, is kept for the
    next export under two caps. */

/** Samples, generations, and how many samples a grouping carries. */
module Generations {
  import opened Bytes

  /** A resource, by its rendered attributes. */
  datatype Resource = Resource(name: Text)

  /** `final`: the store can no longer produce this sample. */
  datatype Sample = Sample(id: nat, final: bool)

  /** The samples one series showed for one resource in one snapshot, taken at ts. */
  datatype Generation = Generation(series: nat, samples: seq<Sample>, ts: int)

  type Groups = map<Resource, seq<Generation>>

  /** The samples a failed export must keep. */
  function Finals(samples: seq<Sample>): seq<Sample> {
    if samples == [] then []
    else Finals(samples[..|samples| - 1]) + if samples[|samples| - 1].final then [samples[|samples| - 1]] else []
  }

  lemma {:induction false} FinalsStay(samples: seq<Sample>)
    requires forall s :: s in samples ==> s.final
    ensures Finals(samples) == samples
  {
    if samples != [] {
      var n := |samples| - 1;
      assert samples[n] in samples && samples[n].final;
      assert samples == samples[..n] + [samples[n]];
      assert forall s :: s in samples[..n] ==> s in samples;
      FinalsStay(samples[..n]);
      assert Finals(samples) == Finals(samples[..n]) + [samples[n]];
    }
  }

  /** The final samples of two runs of samples are those of the one and then those of the other. */
  lemma {:induction false} FinalsConcat(a: seq<Sample>, b: seq<Sample>)
    ensures Finals(a + b) == Finals(a) + Finals(b)
  {
    if b == [] {
      assert a + b == a;
    } else {
      var n := |b| - 1;
      FinalsConcat(a, b[..n]);
      assert (a + b)[..|a + b| - 1] == a + b[..n];
    }
  }

  /** A way to measure samples: each one counts, or only one of them does, or only that one under one
      snapshot time. */
  datatype Measure = Each | Only(x: Sample) | OnlyAt(x: Sample, ts: int) {
    function Of(s: Sample): nat {
      if Each? || x == s then 1 else 0
    }
  }

  /** The measure of the final samples. */
  function FinalWeight(samples: seq<Sample>, m: Measure): nat {
    if samples == [] then 0
    else
      var s := samples[|samples| - 1];
      FinalWeight(samples[..|samples| - 1], m) + if s.final then m.Of(s) else 0
  }

  /** The measure of the final samples of one generation. */
  function FinalsIn(g: Generation, m: Measure): nat {
    if m.OnlyAt? && g.ts != m.ts then 0 else FinalWeight(g.samples, m)
  }

  lemma {:induction false} FinalsWeigh(samples: seq<Sample>, m: Measure)
    ensures FinalWeight(Finals(samples), m) == FinalWeight(samples, m)
  {
    if samples != [] {
      var n := |samples| - 1;
      FinalsWeigh(samples[..n], m);
      if samples[n].final {
        assert Finals(samples)[..|Finals(samples)| - 1] == Finals(samples[..n]);
      } else {
        assert Finals(samples) == Finals(samples[..n]);
      }
    }
  }

  lemma {:induction false} FinalsCounted(samples: seq<Sample>)
    ensures FinalWeight(samples, Each) == |Finals(samples)|
  {
    if samples != [] {
      FinalsCounted(samples[..|samples| - 1]);
    }
  }

  function Weight(gens: seq<Generation>, m: Measure): nat {
    if gens == [] then 0 else Weight(gens[..|gens| - 1], m) + FinalsIn(gens[|gens| - 1], m)
  }

  lemma {:induction false} WeightAppend(gens: seq<Generation>, g: Generation, m: Measure)
    ensures Weight(gens + [g], m) == Weight(gens, m) + FinalsIn(g, m)
  {
  }

  lemma {:induction false} WeightConcat(a: seq<Generation>, b: seq<Generation>, m: Measure)
    ensures Weight(a + b, m) == Weight(a, m) + Weight(b, m)
  {
    if b == [] {
      assert a + b == a;
    } else {
      var n := |b| - 1;
      WeightConcat(a, b[..n], m);
      assert (a + b)[..|a| + n] == a + b[..n];
    }
  }

  function WeightAt(groups: Groups, r: Resource, m: Measure): nat {
    if r in groups then Weight(groups[r], m) else 0
  }

  /** The measure of the final samples of the listed resources. */
  function WeightOf(groups: Groups, order: seq<Resource>, m: Measure): nat {
    if order == [] then 0
    else WeightOf(groups, order[..|order| - 1], m) + WeightAt(groups, order[|order| - 1], m)
  }

  lemma {:induction false} WeightOfAppend(groups: Groups, order: seq<Resource>, r: Resource, m: Measure)
    ensures WeightOf(groups, order + [r], m) == WeightOf(groups, order, m) + WeightAt(groups, r, m)
  {
  }

  lemma {:induction false} WeightOfConcat(groups: Groups, a: seq<Resource>, b: seq<Resource>, m: Measure)
    ensures WeightOf(groups, a + b, m) == WeightOf(groups, a, m) + WeightOf(groups, b, m)
  {
    if b == [] {
      assert a + b == a;
    } else {
      var n := |b| - 1;
      WeightOfConcat(groups, a, b[..n], m);
      assert (a + b)[..|a| + n] == a + b[..n];
    }
  }

  lemma {:induction false} WeightOfSame(a: Groups, b: Groups, order: seq<Resource>, m: Measure)
    requires forall r :: r in order ==> WeightAt(a, r, m) == WeightAt(b, r, m)
    ensures WeightOf(a, order, m) == WeightOf(b, order, m)
  {
    if order != [] {
      WeightOfSame(a, b, order[..|order| - 1], m);
    }
  }

  ghost predicate NoDuplicates<T>(s: seq<T>) {
    forall i, j :: 0 <= i < j < |s| ==> s[i] != s[j]
  }

  /** Replacing one resource's generations changes the weight by just that much. */
  lemma {:induction false} WeightOfUpdate(groups: Groups, order: seq<Resource>, r: Resource, gens: seq<Generation>, m: Measure)
    requires NoDuplicates(order) && r in order
    ensures WeightOf(groups[r := gens], order, m) + WeightAt(groups, r, m) == WeightOf(groups, order, m) + Weight(gens, m)
  {
    var n := |order| - 1;
    if order[n] == r {
      assert r !in order[..n];
      WeightOfSame(groups, groups[r := gens], order[..n], m);
    } else {
      assert r in order[..n];
      WeightOfUpdate(groups, order[..n], r, gens, m);
    }
  }

  /** Taking one resource out of the list. */
  lemma {:induction false} WeightOfRemove(groups: Groups, order: seq<Resource>, i: nat, m: Measure)
    requires i < |order|
    ensures WeightOf(groups, order, m) == WeightOf(groups, order[..i] + order[i + 1..], m) + WeightAt(groups, order[i], m)
  {
    assert order == order[..i] + [order[i]] + order[i + 1..];
    WeightOfConcat(groups, order[..i] + [order[i]], order[i + 1..], m);
    WeightOfAppend(groups, order[..i], order[i], m);
    WeightOfConcat(groups, order[..i], order[i + 1..], m);
  }

  /** All samples of some generations, final or not. */
  function Count(gens: seq<Generation>): nat {
    if gens == [] then 0 else Count(gens[..|gens| - 1]) + |gens[|gens| - 1].samples|
  }

  ghost predicate Ascending(gens: seq<Generation>) {
    forall i, j :: 0 <= i < j < |gens| ==> gens[i].ts <= gens[j].ts
  }

  ghost predicate AllFinal(gens: seq<Generation>) {
    forall i :: 0 <= i < |gens| ==> gens[i].samples != [] && forall s :: s in gens[i].samples ==> s.final
  }

  /** Generations of final samples weigh their very size. */
  lemma {:induction false} FinalGenerationsCounted(gens: seq<Generation>)
    requires AllFinal(gens)
    ensures Weight(gens, Each) == Count(gens)
  {
    if gens != [] {
      var n := |gens| - 1;
      FinalGenerationsCounted(gens[..n]);
      FinalsCounted(gens[n].samples);
      FinalsStay(gens[n].samples);
    }
  }

  /** The listed resources' generations, one after the other. */
  function GenerationsOf(groups: Groups, order: seq<Resource>): seq<Generation> {
    if order == [] then []
    else
      var r := order[|order| - 1];
      GenerationsOf(groups, order[..|order| - 1]) + if r in groups then groups[r] else []
  }

  lemma {:induction false} GenerationsWeigh(groups: Groups, order: seq<Resource>, m: Measure)
    ensures Weight(GenerationsOf(groups, order), m) == WeightOf(groups, order, m)
  {
    if order != [] {
      var n := |order| - 1;
      GenerationsWeigh(groups, order[..n], m);
      WeightConcat(GenerationsOf(groups, order[..n]), if order[n] in groups then groups[order[n]] else [], m);
    }
  }

  /** The generations of final samples that a failed export keeps of some generations. */
  function FinalGenerations(gens: seq<Generation>): seq<Generation> {
    if gens == [] then []
    else
      var g := gens[|gens| - 1];
      FinalGenerations(gens[..|gens| - 1])
      + if Finals(g.samples) == [] then [] else [g.(samples := Finals(g.samples))]
  }

  lemma {:induction false} NothingWeighs(m: Measure)
    ensures Weight([], m) == 0
  {
  }

  /** What is kept of one generation weighs what it did. */
  lemma {:induction false} FinalsWeighIn(g: Generation, m: Measure)
    ensures FinalsIn(g.(samples := Finals(g.samples)), m) == FinalsIn(g, m)
    ensures Finals(g.samples) == [] ==> FinalsIn(g, m) == 0
  {
    FinalsWeigh(g.samples, m);
  }

  lemma {:induction false} FinalGenerationsWeigh(gens: seq<Generation>, m: Measure)
    ensures Weight(FinalGenerations(gens), m) == Weight(gens, m)
  {
    hide FinalWeight, FinalsIn, Finals, Weight;
    NothingWeighs(m);
    if gens != [] {
      var n := |gens| - 1;
      FinalGenerationsWeigh(gens[..n], m);
      WeightAppend(gens[..n], gens[n], m);
      assert gens == gens[..n] + [gens[n]];
      FinalsWeighIn(gens[n], m);
      if Finals(gens[n].samples) != [] {
        WeightAppend(FinalGenerations(gens[..n]), gens[n].(samples := Finals(gens[n].samples)), m);
      } else {
        assert FinalGenerations(gens) == FinalGenerations(gens[..n]);
      }
    }
  }

  lemma {:induction false} FinalsAreFinal(samples: seq<Sample>)
    ensures forall s :: s in Finals(samples) ==> s.final
  {
    if samples != [] {
      FinalsAreFinal(samples[..|samples| - 1]);
    }
  }

  lemma {:induction false} FinalGenerationsAreFinal(gens: seq<Generation>)
    ensures AllFinal(FinalGenerations(gens))
  {
    if gens != [] {
      FinalGenerationsAreFinal(gens[..|gens| - 1]);
      FinalsAreFinal(gens[|gens| - 1].samples);
    }
  }

  /** Their snapshot times are among the originals, in order. */
  lemma {:induction false} FinalGenerationsAscend(gens: seq<Generation>, bound: int)
    requires Ascending(gens) && forall i :: 0 <= i < |gens| ==> gens[i].ts <= bound
    ensures Ascending(FinalGenerations(gens))
    ensures forall i :: 0 <= i < |FinalGenerations(gens)| ==> FinalGenerations(gens)[i].ts <= bound
  {
    if gens != [] {
      var n := |gens| - 1;
      FinalGenerationsAscend(gens[..n], gens[n].ts);
    }
  }

  /** The listed resources that are among the keys. */
  function Within(order: seq<Resource>, keys: set<Resource>): seq<Resource> {
    if order == [] then []
    else Within(order[..|order| - 1], keys) + if order[|order| - 1] in keys then [order[|order| - 1]] else []
  }

  lemma {:induction false} WithinHolds(order: seq<Resource>, keys: set<Resource>, r: Resource)
    ensures r in Within(order, keys) <==> r in order && r in keys
  {
    if order != [] {
      WithinHolds(order[..|order| - 1], keys, r);
    }
  }

  lemma {:induction false} WithinNoDuplicates(order: seq<Resource>, keys: set<Resource>)
    requires NoDuplicates(order)
    ensures NoDuplicates(Within(order, keys))
  {
    if order != [] {
      var n := |order| - 1;
      WithinNoDuplicates(order[..n], keys);
      assert order[n] !in order[..n];
      WithinHolds(order[..n], keys, order[n]);
    }
  }
}

/** Which retained generations go first, and what is left when some are gone. */
module Eviction {
  import opened Bytes
  import opened Sorting
  import opened Generations

  /** A retained generation: its time, its resource's freshest time, and where it sits. */
  datatype GenRef = GenRef(ts: int, newest: int, res: Resource, i: nat)

  /** Oldest first; ties go to the resource gone quietest, then to the resource name, then to the
      position. */
  predicate RefAtMost(a: GenRef, b: GenRef) {
    if a.ts != b.ts then a.ts < b.ts
    else if a.newest != b.newest then a.newest < b.newest
    else if a.res != b.res then AtMost(a.res.name, b.res.name)
    else a.i <= b.i
  }

  lemma {:induction false} RefOrder()
    ensures TotalPreorder(RefAtMost)
    ensures forall a, b :: RefAtMost(a, b) && RefAtMost(b, a) ==> a == b
  {
    forall a: GenRef, b: GenRef ensures RefAtMost(a, b) || RefAtMost(b, a) {
      AtMostTotal(a.res.name, b.res.name);
    }
    forall a: GenRef, b: GenRef, c: GenRef | RefAtMost(a, b) && RefAtMost(b, c) ensures RefAtMost(a, c) {
      if AtMost(a.res.name, b.res.name) && AtMost(b.res.name, c.res.name) {
        AtMostTransitive(a.res.name, b.res.name, c.res.name);
        if AtMost(b.res.name, a.res.name) { AtMostAntisymmetric(a.res.name, b.res.name); }
        if a.res == c.res { AtMostAntisymmetric(a.res.name, b.res.name); }
      }
    }
    forall a: GenRef, b: GenRef | RefAtMost(a, b) && RefAtMost(b, a) ensures a == b {
      if AtMost(a.res.name, b.res.name) && AtMost(b.res.name, a.res.name) {
        AtMostAntisymmetric(a.res.name, b.res.name);
      }
    }
  }

  /** The snapshot time of a resource's freshest generation. */
  function Newest(gens: seq<Generation>): int
    requires gens != []
  {
    gens[|gens| - 1].ts
  }

  function RefsTo(gens: seq<Generation>, res: Resource, n: nat): (refs: seq<GenRef>)
    requires gens != [] && n <= |gens|
    ensures |refs| == n && forall i :: 0 <= i < n ==> refs[i] == GenRef(gens[i].ts, Newest(gens), res, i)
  {
    if n == 0 then [] else RefsTo(gens, res, n - 1) + [GenRef(gens[n - 1].ts, Newest(gens), res, n - 1)]
  }

  predicate Covered(groups: Groups, order: seq<Resource>) {
    forall r :: r in order ==> r in groups && groups[r] != []
  }

  /** Every generation of the listed resources. */
  function Refs(groups: Groups, order: seq<Resource>): (refs: seq<GenRef>)
    requires Covered(groups, order)
    ensures forall x :: x in refs ==> RefOk(groups, order, x)
  {
    if order == [] then []
    else
      var r := order[|order| - 1];
      Refs(groups, order[..|order| - 1]) + RefsTo(groups[r], r, |groups[r]|)
  }

  predicate RefOk(groups: Groups, order: seq<Resource>, x: GenRef)
    requires Covered(groups, order)
  {
    x.res in order && x.i < |groups[x.res]| && x == GenRef(groups[x.res][x.i].ts, Newest(groups[x.res]), x.res, x.i)
  }

  lemma {:induction false} RefsComplete(groups: Groups, order: seq<Resource>, res: Resource, i: nat)
    requires Covered(groups, order) && res in order && i < |groups[res]|
    ensures GenRef(groups[res][i].ts, Newest(groups[res]), res, i) in Refs(groups, order)
  {
    var n := |order| - 1;
    var last := RefsTo(groups[order[n]], order[n], |groups[order[n]]|);
    if order[n] == res {
      assert last[i] in last;
    } else {
      assert res in order[..n];
      RefsComplete(groups, order[..n], res, i);
    }
  }

  lemma {:induction false} RefsNoDuplicates(groups: Groups, order: seq<Resource>)
    requires Covered(groups, order) && NoDuplicates(order)
    ensures NoDuplicates(Refs(groups, order))
  {
    if order != [] {
      var n := |order| - 1;
      RefsNoDuplicates(groups, order[..n]);
      var before := Refs(groups, order[..n]);
      forall i | 0 <= i < |before| ensures before[i].res != order[n] {
        assert before[i] in before;
      }
    }
  }

  lemma {:induction false} Multiplicity<T>(s: seq<T>)
    requires NoDuplicates(s)
    ensures forall x :: multiset(s)[x] <= 1
  {
    if s != [] {
      var n := |s| - 1;
      Multiplicity(s[..n]);
      assert s == s[..n] + [s[n]];
      assert s[n] !in s[..n];
    }
  }

  lemma {:induction false} DistinctFromMultiplicity<T>(s: seq<T>)
    requires forall x :: multiset(s)[x] <= 1
    ensures NoDuplicates(s)
  {
    forall i, j | 0 <= i < j < |s| ensures s[i] != s[j] {
      assert s == s[..j] + s[j..];
      assert multiset(s)[s[i]] == multiset(s[..j])[s[i]] + multiset(s[j..])[s[i]];
      assert s[i] in s[..j] && s[j] in s[j..];
    }
  }

  /** The eviction order lists every generation once. */
  lemma {:induction false} EvictionOrder(groups: Groups, order: seq<Resource>) returns (sorted: seq<GenRef>)
    requires Covered(groups, order) && NoDuplicates(order)
    ensures sorted == Sort(Refs(groups, order), RefAtMost)
    ensures SortedBy(sorted, RefAtMost) && NoDuplicates(sorted)
    ensures forall x :: x in sorted <==> x in Refs(groups, order)
    ensures forall x :: x in sorted ==> RefOk(groups, order, x)
  {
    var refs := Refs(groups, order);
    sorted := Sort(refs, RefAtMost);
    RefOrder();
    SortSorts(refs, RefAtMost);
    SortPermutes(refs, RefAtMost);
    RefsNoDuplicates(groups, order);
    Multiplicity(refs);
    DistinctFromMultiplicity(sorted);
    forall x ensures x in sorted <==> x in refs {
      assert x in sorted <==> x in multiset(sorted);
      assert x in refs <==> x in multiset(refs);
    }
  }

  /** The positions gone, by resource. */
  type Marks = map<Resource, set<nat>>

  predicate Marked(marks: Marks, res: Resource, i: nat) {
    res in marks && i in marks[res]
  }

  function Mark(marks: Marks, res: Resource, i: nat): Marks {
    marks[res := (if res in marks then marks[res] else {}) + {i}]
  }

  /** The first n generations without the marked ones. */
  function Survivors(gens: seq<Generation>, res: Resource, marks: Marks, n: nat): seq<Generation>
    requires n <= |gens|
  {
    if n == 0 then []
    else Survivors(gens, res, marks, n - 1) + if Marked(marks, res, n - 1) then [] else [gens[n - 1]]
  }

  function SurvivingGroups(groups: Groups, marks: Marks): Groups {
    map r | r in groups :: Survivors(groups[r], r, marks, |groups[r]|)
  }

  lemma {:induction false} SurvivorsSame(gens: seq<Generation>, res: Resource, a: Marks, b: Marks, n: nat)
    requires n <= |gens| && forall i :: 0 <= i < n ==> (Marked(a, res, i) <==> Marked(b, res, i))
    ensures Survivors(gens, res, a, n) == Survivors(gens, res, b, n)
  {
    if n > 0 {
      SurvivorsSame(gens, res, a, b, n - 1);
    }
  }

  lemma {:induction false} UnmarkedSurvive(gens: seq<Generation>, res: Resource, marks: Marks, n: nat)
    requires n <= |gens| && forall i :: 0 <= i < n ==> !Marked(marks, res, i)
    ensures Survivors(gens, res, marks, n) == gens[..n]
  {
    if n > 0 {
      UnmarkedSurvive(gens, res, marks, n - 1);
    }
  }

  lemma {:induction false} MarkedAfterMark(marks: Marks, res: Resource, i: nat, r: Resource, j: nat)
    ensures Marked(Mark(marks, res, i), r, j) <==> Marked(marks, r, j) || (r == res && j == i)
  {
  }

  lemma {:induction false} SurvivorsStep(gens: seq<Generation>, res: Resource, marks: Marks, n: nat, m: Measure)
    requires 0 < n <= |gens|
    ensures Weight(Survivors(gens, res, marks, n), m)
         == Weight(Survivors(gens, res, marks, n - 1), m)
            + if Marked(marks, res, n - 1) then 0 else FinalsIn(gens[n - 1], m)
  {
    if Marked(marks, res, n - 1) {
      assert Survivors(gens, res, marks, n) == Survivors(gens, res, marks, n - 1);
    } else {
      WeightAppend(Survivors(gens, res, marks, n - 1), gens[n - 1], m);
    }
  }

  /** One more mark takes away just that generation. */
  lemma {:induction false} MarkWeighs(gens: seq<Generation>, res: Resource, marks: Marks, i: nat, n: nat, m: Measure)
    requires i < n <= |gens| && !Marked(marks, res, i)
    ensures Weight(Survivors(gens, res, marks, n), m)
         == Weight(Survivors(gens, res, Mark(marks, res, i), n), m) + FinalsIn(gens[i], m)
  {
    hide Survivors, Weight, Mark, Marked, FinalsIn;
    var more := Mark(marks, res, i);
    SurvivorsStep(gens, res, marks, n, m);
    SurvivorsStep(gens, res, more, n, m);
    MarkedAfterMark(marks, res, i, res, n - 1);
    if i == n - 1 {
      forall j | 0 <= j < n - 1 { MarkedAfterMark(marks, res, i, res, j); }
      SurvivorsSame(gens, res, marks, more, n - 1);
    } else {
      MarkWeighs(gens, res, marks, i, n - 1, m);
    }
  }

  lemma {:induction false} MarkWeighsAmongGroups(groups: Groups, order: seq<Resource>, marks: Marks, res: Resource, i: nat, m: Measure)
    requires NoDuplicates(order) && res in order && res in groups && i < |groups[res]| && !Marked(marks, res, i)
    ensures WeightOf(SurvivingGroups(groups, marks), order, m)
         == WeightOf(SurvivingGroups(groups, Mark(marks, res, i)), order, m) + FinalsIn(groups[res][i], m)
  {
    var a, b := SurvivingGroups(groups, marks), SurvivingGroups(groups, Mark(marks, res, i));
    forall r | r in groups && r != res ensures a[r] == b[r] {
      SurvivorsSame(groups[r], r, marks, Mark(marks, res, i), |groups[r]|);
    }
    assert b == a[res := b[res]];
    WeightOfUpdate(a, order, res, b[res], m);
    MarkWeighs(groups[res], res, marks, i, |groups[res]|, m);
  }

  /** The marks for the first k generations in eviction order. */
  function MarksTo(sorted: seq<GenRef>, k: nat): Marks
    requires k <= |sorted|
  {
    if k == 0 then map[] else Mark(MarksTo(sorted, k - 1), sorted[k - 1].res, sorted[k - 1].i)
  }

  lemma {:induction false} MarkedIffAmongFirst(sorted: seq<GenRef>, k: nat, res: Resource, i: nat)
    requires k <= |sorted|
    ensures Marked(MarksTo(sorted, k), res, i) <==> exists j :: 0 <= j < k && sorted[j].res == res && sorted[j].i == i
  {
    if k > 0 {
      MarkedIffAmongFirst(sorted, k - 1, res, i);
    }
  }

  /** How many samples the first k generations in eviction order hold. */
  function SizeTo(groups: Groups, sorted: seq<GenRef>, k: nat): nat
    requires k <= |sorted|
    requires forall j :: 0 <= j < |sorted| ==> sorted[j].res in groups && sorted[j].i < |groups[sorted[j].res]|
  {
    if k == 0 then 0 else SizeTo(groups, sorted, k - 1) + |groups[sorted[k - 1].res][sorted[k - 1].i].samples|
  }

  /** The groups that still hold something. */
  function NonEmpty(groups: Groups): Groups {
    map r | r in groups && groups[r] != [] :: groups[r]
  }

  lemma {:induction false} NonEmptyWeighs(groups: Groups, order: seq<Resource>, m: Measure)
    requires forall r :: r in order ==> r in groups
    ensures WeightOf(NonEmpty(groups), Within(order, NonEmpty(groups).Keys), m) == WeightOf(groups, order, m)
  {
    if order != [] {
      var n := |order| - 1;
      NonEmptyWeighs(groups, order[..n], m);
      if order[n] in NonEmpty(groups) {
        WeightOfAppend(NonEmpty(groups), Within(order[..n], NonEmpty(groups).Keys), order[n], m);
      } else {
        assert Within(order, NonEmpty(groups).Keys) == Within(order[..n], NonEmpty(groups).Keys);
      }
    }
  }
}
