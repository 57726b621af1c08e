/** The set of log-derived metrics, as far as its export goes (internal/metrics/export.go). */
module MetricExport {
  import opened Bytes
  import opened Sorting
  import opened Generations
  import opened Eviction
  import opened Wrappers

  const MAX_RETAINED_RESOURCES := 4096
  const MAX_RETAINED_SAMPLES := 50_000

  /** What became of one flushed chunk. */
  datatype Outcome = Delivered | Transient | Permanent

  datatype Flushed = Flushed(chunk: seq<Resource>, outcome: Outcome)

  /** The retention: nothing listed twice, nothing listed without generations or the other way
      round, final samples only, each resource's generations in ascending snapshot time and none
      taken after `latest`, and the sample count exact. */
  ghost predicate RetentionOk(groups: Groups, order: seq<Resource>, samples: int, latest: int) {
    && NoDuplicates(order)
    && (forall r :: r in groups <==> r in order)
    && (forall r {:trigger GroupOk(groups[r], latest)} :: r in groups ==> GroupOk(groups[r], latest))
    && samples == WeightOf(groups, order, Each)
  }

  ghost predicate GroupOk(gens: seq<Generation>, latest: int) {
    gens != [] && AllFinal(gens) && Ascending(gens) && forall i :: 0 <= i < |gens| ==> gens[i].ts <= latest
  }

  class MetricSet {
    var retryBy: Groups
    var retryOrder: seq<Resource>
    var retainedSamples: int
    var dropped: nat // the counter of undelivered samples given up on
    ghost var latest: int // the last snapshot's time
    // Everything that ever was in a snapshot, in a delivered chunk, in a rejected one, or evicted.
    ghost var offered: seq<Generation>
    ghost var delivered: seq<Generation>
    ghost var rejected: seq<Generation>
    ghost var evicted: seq<Generation>

    /** How much of the final samples has met its fate or is still held. */
    ghost function Accounted(m: Measure): nat
      reads this
    {
      Weight(delivered, m) + Weight(rejected, m) + Weight(evicted, m) + WeightOf(retryBy, retryOrder, m)
    }

    /** What holds between exports, after any run of them: the retention is in order and within both
        caps, every final sample ever offered is accounted for as often as it was offered, and the
        counter is the evicted samples plus all samples of rejected chunks. */
    ghost predicate Valid()
      reads this
    {
      && RepOk() && CapsOk()
      && (forall m :: Weight(offered, m) == Accounted(m))
      && dropped == Weight(evicted, Each) + Count(rejected)
    }

    ghost predicate RepOk()
      reads this
    {
      RetentionOk(retryBy, retryOrder, retainedSamples, latest)
    }

    ghost predicate CapsOk()
      reads this
    {
      |retryOrder| <= MAX_RETAINED_RESOURCES && retainedSamples <= MAX_RETAINED_SAMPLES
    }

    constructor ()
      ensures Valid() && offered == [] && dropped == 0
    {
      retryBy, retryOrder, retainedSamples, dropped := map[], [], 0, 0;
      latest, offered, delivered, rejected, evicted := 0, [], [], [], [];
    }

    /** A final sample that was in one snapshot is in exactly one place: delivered once, rejected,
        evicted, or still held, and under the time of that snapshot. */
    lemma {:induction false} OneFate(x: Sample, ts: int)
      requires Valid() && Weight(offered, Only(x)) == Weight(offered, OnlyAt(x, ts)) == 1
      ensures forall m :: m in {Only(x), OnlyAt(x, ts)} ==>
        Weight(delivered, m) + Weight(rejected, m) + Weight(evicted, m) + WeightOf(retryBy, retryOrder, m) == 1
    {
    }

    /** Keeps the final samples of a failed chunk, each generation under its own snapshot time. */
    method KeepFinals(groups: Groups, chunk: seq<Resource>)
      requires RepOk() && ChunkOk(groups, chunk, latest)
      requires forall r :: r in chunk ==> r !in retryBy
      modifies this`retryBy, this`retryOrder, this`retainedSamples
      ensures RepOk()
      ensures retryBy == AfterKeeping(old(retryBy), groups, chunk)
      ensures retryOrder == old(retryOrder) + Keeping(groups, chunk)
      ensures forall m :: WeightOf(retryBy, retryOrder, m) == old(WeightOf(retryBy, retryOrder, m)) + WeightOf(groups, chunk, m)
    {
      hide RetentionOk, WeightOf, Weight, FinalGenerations, AfterKeeping, Keeping;
      NothingKept(retryBy, groups);
      assert chunk[..0] == [];
      for j := 0 to |chunk|
        invariant RepOk()
        invariant retryBy == AfterKeeping(old(retryBy), groups, chunk[..j])
        invariant retryOrder == old(retryOrder) + Keeping(groups, chunk[..j])
        invariant forall m :: WeightOf(retryBy, retryOrder, m)
                           == old(WeightOf(retryBy, retryOrder, m)) + WeightOf(groups, chunk[..j], m)
      {
        KeepingStep(old(retryBy), groups, chunk, j);
        KeepOneIsOk(retryBy, retryOrder, retainedSamples, latest, chunk[j], groups[chunk[j]]);
        var kept, n := CollectFinals(groups[chunk[j]]);
        if kept != [] {
          retryOrder := retryOrder + [chunk[j]];
          retryBy := retryBy[chunk[j] := kept];
          retainedSamples := retainedSamples + n;
        }
      }
      assert chunk[..|chunk|] == chunk;
    }

    /** The resource gone quietest. */
    method Stalest() returns (victim: nat)
      requires RepOk() && retryOrder != []
      ensures victim < |retryOrder|
      ensures forall j :: 0 <= j < |retryOrder| ==> StalerOf(retryBy, retryOrder[victim], retryOrder[j])
    {
      victim := 0;
      assert GroupOk(retryBy[retryOrder[0]], latest);
      AtMostTotal(retryOrder[0].name, retryOrder[0].name);
      var newest := Newest(retryBy[retryOrder[0]]);
      for i := 1 to |retryOrder|
        invariant victim < i && GroupOk(retryBy[retryOrder[victim]], latest)
        invariant newest == Newest(retryBy[retryOrder[victim]])
        invariant forall j :: 0 <= j < i ==> StalerOf(retryBy, retryOrder[victim], retryOrder[j])
      {
        assert GroupOk(retryBy[retryOrder[i]], latest);
        var ts := Newest(retryBy[retryOrder[i]]);
        StalerSteps(retryBy, retryOrder, victim, i);
        if ts < newest || (ts == newest && StrictlyBefore(retryOrder[i], retryOrder[victim])) {
          victim, newest := i, ts;
        }
      }
    }

    /** Past the resource cap the stalest resources go, whole. */
    method EvictStalest() returns (n: nat)
      requires RepOk()
      modifies this`retryBy, this`retryOrder, this`retainedSamples, this`evicted
      ensures RepOk()
      ensures |retryOrder| == if |old(retryOrder)| > 4096 then 4096 else |old(retryOrder)|
      ensures StalestGone(old(retryBy), old(retryOrder), retryBy, retryOrder)
      ensures StalestFirst(old(retryBy), retryBy)
      ensures n == Weight(evicted, Each) - old(Weight(evicted, Each))
      ensures forall m :: WeightOf(retryBy, retryOrder, m) + Weight(evicted, m)
                       == old(WeightOf(retryBy, retryOrder, m) + Weight(evicted, m))
    {
      hide RetentionOk, GroupOk, WeightOf, Weight, StalestGone, StalestFirst, StalerOf;
      n := 0;
      NoneGone(retryBy, retryOrder, retainedSamples, latest);
      while |retryOrder| > MAX_RETAINED_RESOURCES
        invariant RepOk()
        invariant |retryOrder| <= |old(retryOrder)|
        invariant |retryOrder| >= MAX_RETAINED_RESOURCES || |retryOrder| == |old(retryOrder)|
        invariant StalestGone(old(retryBy), old(retryOrder), retryBy, retryOrder)
        invariant n == Weight(evicted, Each) - old(Weight(evicted, Each))
        invariant forall m :: WeightOf(retryBy, retryOrder, m) + Weight(evicted, m)
                           == old(WeightOf(retryBy, retryOrder, m) + Weight(evicted, m))
      {
        var i := Stalest();
        var victim := retryOrder[i];
        ListedIsHeld(retryBy, retryOrder, retainedSamples, latest, i);
        OneMoreGone(old(retryBy), old(retryOrder), old(retainedSamples), retryBy, retryOrder, retainedSamples, latest, i);
        RemovalIsOk(retryBy, retryOrder, retainedSamples, latest, i);
        forall m { WeightConcat(evicted, retryBy[victim], m); }
        var size := CountGenerations(retryBy[victim]);
        retryOrder := retryOrder[..i] + retryOrder[i + 1..];
        retainedSamples := retainedSamples - size;
        evicted := evicted + retryBy[victim];
        retryBy := retryBy - {victim};
        n := n + size;
      }
      StalestWentFirst(old(retryBy), old(retryOrder), retryBy, retryOrder);
    }

    /** Past the sample cap generations go, oldest snapshot first: exactly the shortest prefix of the
        eviction order that meets the cap. The survivors keep their order. */
    method EvictOldestGenerations() returns (n: nat, ghost sorted: seq<GenRef>, k: nat)
      requires RepOk()
      modifies this`retryBy, this`retryOrder, this`retainedSamples, this`evicted
      ensures RepOk() && retainedSamples <= 50_000
      ensures OldestGone(old(retryBy), old(retryOrder), old(retainedSamples), retryBy, retryOrder, retainedSamples, sorted, k)
      ensures OldestFirst(old(retryBy), retryBy)
      ensures n == Weight(evicted, Each) - old(Weight(evicted, Each))
      ensures forall m :: WeightOf(retryBy, retryOrder, m) + Weight(evicted, m)
                       == old(WeightOf(retryBy, retryOrder, m) + Weight(evicted, m))
    {
      hide RetentionOk, WeightOf, Weight, GroupOk, Covered, EvictionList, Survivors, SurvivingGroups, NonEmpty, Within, SizeTo,
           MarksTo, OldestGone, NoDuplicates, SortedBy, Sort, Refs, OldestFirst;
      HeldIsCovered(retryBy, retryOrder, retainedSamples, latest);
      var refs := CollectRefs(retryBy, retryOrder);
      sorted := EvictionListed(retryBy, retryOrder);
      var gone;
      gone, n, k := MarkOldest(Sort(refs, RefAtMost));
      SurvivorsAreOk(retryBy, retryOrder, old(retainedSamples), latest, gone);
      MarksInside(retryBy, retryOrder, sorted, k);
      retryBy := Compact(retryBy, gone);
      retryOrder := FilterHeld(retryOrder, retryBy);
      OldestGoneIs(old(retryBy), old(retryOrder), old(retainedSamples), retainedSamples, sorted, k);
      OldestWentFirst(old(retryBy), old(retryOrder), old(retainedSamples), retryBy, retryOrder, retainedSamples, sorted, k, latest);
    }

    /** Marks generations in eviction order until the rest fits. */
    method MarkOldest(sorted: seq<GenRef>) returns (gone: Marks, n: nat, k: nat)
      requires RepOk() && Covered(retryBy, retryOrder) && EvictionList(retryBy, retryOrder, sorted)
      modifies this`retainedSamples, this`evicted
      ensures k <= |sorted| && gone == MarksTo(sorted, k)
      ensures retainedSamples == old(retainedSamples) - SizeTo(retryBy, sorted, k) <= MAX_RETAINED_SAMPLES
      ensures k > 0 ==> old(retainedSamples) - SizeTo(retryBy, sorted, k - 1) > MAX_RETAINED_SAMPLES
      ensures retainedSamples == WeightOf(SurvivingGroups(retryBy, gone), retryOrder, Each)
      ensures n == Weight(evicted, Each) - old(Weight(evicted, Each))
      ensures forall m :: WeightOf(SurvivingGroups(retryBy, gone), retryOrder, m) + Weight(evicted, m)
                       == WeightOf(retryBy, retryOrder, m) + old(Weight(evicted, m))
    {
      hide RetentionOk, WeightOf, Weight, GroupOk, Survivors, SurvivingGroups;
      gone, n, k := map[], 0, 0;
      NothingMarked(retryBy, retryOrder, retainedSamples, latest);
      while k < |sorted| && retainedSamples > MAX_RETAINED_SAMPLES
        invariant k <= |sorted| && gone == MarksTo(sorted, k)
        invariant retainedSamples == old(retainedSamples) - SizeTo(retryBy, sorted, k)
        invariant k > 0 ==> old(retainedSamples) - SizeTo(retryBy, sorted, k - 1) > MAX_RETAINED_SAMPLES
        invariant retainedSamples == WeightOf(SurvivingGroups(retryBy, gone), retryOrder, Each)
        invariant n == Weight(evicted, Each) - old(Weight(evicted, Each))
        invariant forall m :: WeightOf(SurvivingGroups(retryBy, gone), retryOrder, m) + Weight(evicted, m)
                           == WeightOf(retryBy, retryOrder, m) + old(Weight(evicted, m))
        decreases |sorted| - k
      {
        var g := sorted[k];
        MarkNext(retryBy, retryOrder, old(retainedSamples), latest, sorted, k);
        var generation := retryBy[g.res][g.i];
        forall m { WeightAppend(evicted, generation, m); }
        gone := Mark(gone, g.res, g.i);
        retainedSamples := retainedSamples - |generation.samples|;
        evicted := evicted + [generation];
        n := n + |generation.samples|;
        k := k + 1;
      }
      if k == |sorted| {
        AllMarked(retryBy, retryOrder, sorted);
      }
    }

    /** A transiently failed chunk: what the store can no longer produce is kept, under both caps;
        what the caps cost is counted. */
    method Retain(groups: Groups, chunk: seq<Resource>)
      returns (ghost by1: Groups, ghost order1: seq<Resource>, ghost samples1: int, ghost sorted: seq<GenRef>, ghost k: nat)
      requires RepOk() && ChunkOk(groups, chunk, latest)
      requires forall r :: r in chunk ==> r !in retryBy
      modifies this`retryBy, this`retryOrder, this`retainedSamples, this`evicted, this`dropped
      ensures RepOk() && |retryOrder| <= 4096 && retainedSamples <= 50_000
      ensures StalestGone(AfterKeeping(old(retryBy), groups, chunk), old(retryOrder) + Keeping(groups, chunk), by1, order1)
      ensures StalestFirst(AfterKeeping(old(retryBy), groups, chunk), by1)
      ensures
        var n := |old(retryOrder)| + |Keeping(groups, chunk)|;
        |order1| == if n > 4096 then 4096 else n
      ensures if samples1 > 50_000
              then OldestGone(by1, order1, samples1, retryBy, retryOrder, retainedSamples, sorted, k) && OldestFirst(by1, retryBy)
              else retryBy == by1 && retryOrder == order1
      ensures forall r :: r in retryBy ==> r in old(retryBy) || r in chunk
      ensures dropped - Weight(evicted, Each) == old(dropped) - old(Weight(evicted, Each))
      ensures forall m :: WeightOf(retryBy, retryOrder, m) + Weight(evicted, m)
                       == old(WeightOf(retryBy, retryOrder, m) + Weight(evicted, m)) + WeightOf(groups, chunk, m)
    {
      hide RetentionOk, WeightOf, Weight, GroupOk, Keeping, AfterKeeping, StalestGone, OldestGone, StalestFirst, OldestFirst;
      KeepFinals(groups, chunk);
      ghost var by0, order0 := retryBy, retryOrder;
      ghost var start := Weight(evicted, Each);
      var n := EvictStalest();
      by1, order1, samples1, sorted, k := retryBy, retryOrder, retainedSamples, [], 0;
      if retainedSamples > MAX_RETAINED_SAMPLES {
        var more;
        more, sorted, k := EvictOldestGenerations();
        n := n + more;
        OldestGoneKeepsCap(by1, order1, samples1, retryBy, retryOrder, retainedSamples, sorted, k);
      }
      RetainedWereThere(old(retryBy), groups, chunk, by0, order0, by1, order1, retryBy);
      if n != 0 {
        dropped := dropped + n;
      }
    }

    /** Folds what was retained into a snapshot's groups, the older generations first, and clears the
        retention. */
    method MergeRetry(groups: Groups, order: seq<Resource>, ghost now: int) returns (merged: Groups, listed: seq<Resource>)
      requires RepOk() && SnapshotOk(groups, order, now) && latest <= now
      modifies this`retryBy, this`retryOrder, this`retainedSamples
      ensures retryBy == map[] && retryOrder == [] && retainedSamples == 0
      ensures merged == Merged(old(retryBy), groups, old(retryOrder))
      ensures listed == order + Within(old(retryOrder), old(retryBy).Keys - groups.Keys)
      ensures ChunkOk(merged, listed, now) && forall r :: r in merged ==> r in listed
      ensures forall m :: WeightOf(merged, listed, m)
                       == WeightOf(groups, order, m) + old(WeightOf(retryBy, retryOrder, m))
    {
      hide RetentionOk, GroupOk, WeightOf, Weight, Merged, Within, SnapshotOk, ChunkOk;
      merged, listed := groups, order;
      var held, heldOrder := retryBy, retryOrder;
      ghost var retainedSamples0, latest0 := retainedSamples, latest;
      MergedIsOk(held, heldOrder, retainedSamples, latest, groups, order, now);
      NothingMerged(held, groups, order);
      assert heldOrder[..0] == [];
      for j := 0 to |heldOrder|
        invariant merged == Merged(held, groups, heldOrder[..j])
        invariant listed == order + Within(heldOrder[..j], held.Keys - groups.Keys)
        invariant forall m :: WeightOf(merged, listed, m)
                           == WeightOf(groups, order, m) + WeightOf(held, heldOrder[..j], m)
      {
        MergeStep(held, heldOrder, retainedSamples0, latest0, groups, order, now, j);
        var r := heldOrder[j];
        if r !in merged {
          listed := listed + [r];
        }
        merged := merged[r := held[r] + if r in merged then merged[r] else []];
      }
      assert heldOrder[..|heldOrder|] == heldOrder;
      retryBy, retryOrder := map[], [];
      retainedSamples := 0;
    }

    /** Sends one chunk. */
    method Send(groups: Groups, chunk: seq<Resource>, outcome: Outcome) returns (lost: nat)
      requires RepOk() && CapsOk() && ChunkOk(groups, chunk, latest)
      requires forall r :: r in chunk ==> r !in retryBy
      modifies this`retryBy, this`retryOrder, this`retainedSamples, this`evicted, this`dropped, this`delivered, this`rejected
      ensures RepOk() && CapsOk()
      ensures delivered == old(delivered) + if outcome.Delivered? then GenerationsOf(groups, chunk) else []
      ensures rejected == old(rejected) + if outcome.Permanent? then GenerationsOf(groups, chunk) else []
      ensures !outcome.Transient? ==> retryBy == old(retryBy) && evicted == old(evicted)
      ensures forall r :: r in retryBy ==> r in old(retryBy) || r in chunk
      ensures lost == if outcome.Permanent? then |chunk| else 0
      ensures dropped - Weight(evicted, Each) - Count(rejected) == old(dropped - Weight(evicted, Each) - Count(rejected))
      ensures forall m :: Accounted(m) == old(Accounted(m)) + WeightOf(groups, chunk, m)
    {
      hide RetentionOk, GroupOk, WeightOf, Weight, Count, GenerationsOf;
      forall m { GenerationsWeigh(groups, chunk, m); }
      lost := 0;
      match outcome
      case Delivered =>
        forall m { WeightConcat(delivered, GenerationsOf(groups, chunk), m); }
        delivered := delivered + GenerationsOf(groups, chunk);
      case Permanent =>
        var n := ChunkSamples(groups, chunk);
        CountConcat(rejected, GenerationsOf(groups, chunk));
        forall m { WeightConcat(rejected, GenerationsOf(groups, chunk), m); }
        rejected := rejected + GenerationsOf(groups, chunk);
        dropped := dropped + n;
        lost := |chunk|;
      case Transient =>
        ghost var _, _, _, _, _ := Retain(groups, chunk);
    }

    /** One export of a snapshot taken at `now`. Chunk i meets outcome(i); the error returned is that
        of the first permanent rejection, or else of the first failure. */
    method Export(snapshot: Groups, order: seq<Resource>, ghost now: int, maxBytes: nat,
                  size: (Resource, seq<Generation>) -> nat, outcome: nat -> Outcome)
      returns (lost: nat, failed: Option<nat>, ghost groups: Groups, flushes: seq<Flushed>)
      requires Valid() && SnapshotOk(snapshot, order, now) && latest <= now
      requires forall r, gens :: size(r, gens) > 0
      modifies this
      ensures Valid() && latest == now
      ensures offered == old(offered) + GenerationsOf(snapshot, order)
      ensures groups == Merged(old(retryBy), snapshot, old(retryOrder))
      ensures Rendered(flushes) == order + Within(old(retryOrder), old(retryBy).Keys - snapshot.Keys)
      ensures forall i :: 0 <= i < |flushes| ==> flushes[i].outcome == outcome(i)
      ensures Packed(groups, flushes, size, maxBytes)
      ensures delivered == old(delivered) + Sent(groups, flushes, Delivered)
      ensures rejected == old(rejected) + Sent(groups, flushes, Permanent)
      ensures lost == LostIn(flushes)
      ensures FirstFailure(flushes, failed)
    {
      hide Underway, Logged, Open, Packed, Rendered, Sent, LostIn, FirstFailure, Merged, Within, SnapshotOk, ChunkOk, GenerationsOf,
           Valid, RepOk, CapsOk, Accounted, TotalSize;
      var merged, all := Prepare(snapshot, order, now, outcome);
      groups := merged;
      lost, flushes := 0, [];
      var first, perm := None, None;
      var chunk: seq<Resource>, total: nat := [], 0;
      NothingOpen(groups, size, maxBytes);
      for i := 0 to |all|
        invariant Underway(groups, all, flushes, chunk, i)
        invariant Logged(groups, flushes, old(delivered), old(rejected), lost, first, perm, outcome)
        invariant Open(groups, flushes, chunk, total, size, maxBytes)
        invariant offered == old(offered) + GenerationsOf(snapshot, order) && latest == now
      {
        var r := all[i];
        AreHeld(groups, all, flushes, chunk, i);
        var rmSize := size(r, merged[r]);
        if maxBytes > 0 && total > 0 && total + rmSize > maxBytes {
          CloseAndStart(groups, flushes, chunk, total, size, maxBytes, r, outcome(|flushes|));
          flushes, lost, first, perm :=
            Flush(merged, all, i, flushes, chunk, outcome, old(delivered), old(rejected), lost, first, perm);
          chunk, total := [], 0;
        } else {
          Extend(groups, flushes, chunk, total, size, maxBytes, r);
        }
        ChunkGrows(groups, all, flushes, chunk, i);
        assert [] + [r] == [r];
        chunk := chunk + [r];
        total := total + rmSize;
      }
      Close(groups, flushes, chunk, total, size, maxBytes, outcome(|flushes|));
      if |chunk| != 0 {
        flushes, lost, first, perm :=
          Flush(merged, all, |all|, flushes, chunk, outcome, old(delivered), old(rejected), lost, first, perm);
      }
      Finish(groups, all, flushes, old(delivered), old(rejected), lost, first, perm, outcome);
      failed := if perm.Some? then perm else first;
    }

    /** The snapshot's samples are on offer, what was retained is merged in, nothing is sent yet. */
    method Prepare(snapshot: Groups, order: seq<Resource>, ghost now: int, ghost outcome: nat -> Outcome)
      returns (groups: Groups, all: seq<Resource>)
      requires Valid() && SnapshotOk(snapshot, order, now) && latest <= now
      modifies this`retryBy, this`retryOrder, this`retainedSamples, this`latest, this`offered
      ensures offered == old(offered) + GenerationsOf(snapshot, order) && latest == now
      ensures groups == Merged(old(retryBy), snapshot, old(retryOrder))
      ensures all == order + Within(old(retryOrder), old(retryBy).Keys - snapshot.Keys)
      ensures Underway(groups, all, [], [], 0)
      ensures Logged(groups, [], delivered, rejected, 0, None, None, outcome)
    {
      hide WeightOf, Weight, Count, GenerationsOf, RetentionOk, Merged, Within, SnapshotOk, ChunkOk;
      forall m ensures Weight(offered + GenerationsOf(snapshot, order), m) == Accounted(m) + WeightOf(snapshot, order, m) {
        GenerationsWeigh(snapshot, order, m);
        WeightConcat(offered, GenerationsOf(snapshot, order), m);
      }
      offered := offered + GenerationsOf(snapshot, order);
      groups, all := MergeRetry(snapshot, order, now);
      latest := now;
      NothingListed(groups, latest);
      assert all[0..] == all && all[..0] == [] && Rendered([]) + [] == [];
    }

    /** Between two chunks of an export: the first i of the listed resources are rendered, those of
        `chunk` not sent yet. */
    ghost predicate Underway(groups: Groups, all: seq<Resource>, flushes: seq<Flushed>, chunk: seq<Resource>, i: nat)
      reads this
    {
      && RepOk() && CapsOk() && ChunkOk(groups, all, latest)
      && i <= |all| && Rendered(flushes) + chunk == all[..i]
      && (forall r :: r in retryBy ==> r in Rendered(flushes))
      && (forall m :: Accounted(m) + WeightOf(groups, chunk, m) + WeightOf(groups, all[i..], m) == Weight(offered, m))
      && dropped == Weight(evicted, Each) + Count(rejected)
    }

    /** What the flushes so far did: delivered and rejected generations, losses, first failures. */
    ghost predicate Logged(groups: Groups, flushes: seq<Flushed>, delivered0: seq<Generation>, rejected0: seq<Generation>,
                           lost: nat, first: Option<nat>, perm: Option<nat>, outcome: nat -> Outcome)
      reads this
    {
      && delivered == delivered0 + Sent(groups, flushes, Delivered)
      && rejected == rejected0 + Sent(groups, flushes, Permanent)
      && (forall i :: 0 <= i < |flushes| ==> flushes[i].outcome == outcome(i))
      && lost == LostIn(flushes)
      && FirstsOk(flushes, first, perm)
    }

    lemma {:induction false} AreHeld(groups: Groups, all: seq<Resource>, flushes: seq<Flushed>, chunk: seq<Resource>, i: nat)
      requires Underway(groups, all, flushes, chunk, i)
      ensures i < |all| ==> all[i] in groups
      ensures forall r :: r in chunk ==> r in groups
    {
      forall r | r in chunk ensures r in all {
        assert r in Rendered(flushes) + chunk;
        assert r in all[..i];
      }
      assert i < |all| ==> all[i] in all;
    }

    /** The open chunk may be sent: nothing of it was, and nothing of it is retained. */
    lemma {:induction false} ChunkIsNew(groups: Groups, all: seq<Resource>, flushes: seq<Flushed>, chunk: seq<Resource>, i: nat)
      requires Underway(groups, all, flushes, chunk, i)
      ensures ChunkOk(groups, chunk, latest) && forall r :: r in chunk ==> r !in retryBy
    {
      var sent := Rendered(flushes);
      forall k | 0 <= k < |chunk| ensures chunk[k] == all[|sent| + k] && chunk[k] in all && chunk[k] !in sent {
        assert (sent + chunk)[|sent| + k] == chunk[k];
        assert forall j :: 0 <= j < |sent| ==> sent[j] == (sent + chunk)[j] == all[j];
      }
    }

    /** One more resource is rendered into the open chunk. */
    lemma {:induction false} ChunkGrows(groups: Groups, all: seq<Resource>, flushes: seq<Flushed>, chunk: seq<Resource>, i: nat)
      requires Underway(groups, all, flushes, chunk, i) && i < |all|
      ensures Underway(groups, all, flushes, chunk + [all[i]], i + 1)
    {
      hide WeightOf, Weight, Count, RetentionOk, ChunkOk;
      assert all[..i + 1] == all[..i] + [all[i]];
      assert Rendered(flushes) + (chunk + [all[i]]) == (Rendered(flushes) + chunk) + [all[i]];
      forall m
        ensures Accounted(m) + WeightOf(groups, chunk + [all[i]], m) + WeightOf(groups, all[i + 1..], m) == Weight(offered, m)
      {
        WeightOfAppend(groups, chunk, all[i], m);
        WeightOfFirst(groups, all, i, m);
      }
    }

    /** The export's flush: sends the open chunk and notes its outcome. */
    method Flush(groups: Groups, ghost all: seq<Resource>, ghost i: nat, flushes: seq<Flushed>, chunk: seq<Resource>,
                 outcome: nat -> Outcome, ghost delivered0: seq<Generation>, ghost rejected0: seq<Generation>,
                 lost: nat, first: Option<nat>, perm: Option<nat>)
      returns (flushes1: seq<Flushed>, lost1: nat, first1: Option<nat>, perm1: Option<nat>)
      requires Underway(groups, all, flushes, chunk, i)
      requires Logged(groups, flushes, delivered0, rejected0, lost, first, perm, outcome)
      modifies this`retryBy, this`retryOrder, this`retainedSamples, this`evicted, this`dropped, this`delivered, this`rejected
      ensures flushes1 == flushes + [Flushed(chunk, outcome(|flushes|))]
      ensures Underway(groups, all, flushes1, [], i)
      ensures Logged(groups, flushes1, delivered0, rejected0, lost1, first1, perm1, outcome)
    {
      hide RetentionOk, GroupOk, WeightOf, Weight, Count, GenerationsOf, ChunkOk, FirstsOk, Rendered, Sent, LostIn, Accounted;
      ChunkIsNew(groups, all, flushes, chunk, i);
      var o := outcome(|flushes|);
      FirstsStep(flushes, chunk, o, first, perm);
      first1, perm1 := first, perm;
      if o != Delivered {
        if first.None? {
          first1 := Some(|flushes|);
        }
        if o.Permanent? && perm.None? {
          perm1 := Some(|flushes|);
        }
      }
      var n := Send(groups, chunk, o);
      lost1 := lost + n;
      flushes1 := flushes + [Flushed(chunk, o)];
      FlushedStep(groups, flushes, chunk, o);
    }

    /** Everything is sent: the set is as it should be between exports. */
    lemma {:induction false} Finish(groups: Groups, all: seq<Resource>, flushes: seq<Flushed>, delivered0: seq<Generation>, rejected0: seq<Generation>,
                 lost: nat, first: Option<nat>, perm: Option<nat>, outcome: nat -> Outcome)
      requires Underway(groups, all, flushes, [], |all|)
      requires Logged(groups, flushes, delivered0, rejected0, lost, first, perm, outcome)
      ensures Valid() && Rendered(flushes) == all
      ensures delivered == delivered0 + Sent(groups, flushes, Delivered)
      ensures rejected == rejected0 + Sent(groups, flushes, Permanent)
      ensures lost == LostIn(flushes) && forall k :: 0 <= k < |flushes| ==> flushes[k].outcome == outcome(k)
      ensures FirstFailure(flushes, if perm.Some? then perm else first)
    {
      assert all[|all|..] == [] && all[..|all|] == all && Rendered(flushes) + [] == Rendered(flushes);
    }
  }

  /** The retention after the final generations of a chunk's resources joined it. */
  function AfterKeeping(by0: Groups, groups: Groups, chunk: seq<Resource>): Groups
    requires forall r :: r in chunk ==> r in groups
  {
    if chunk == [] then by0
    else
      var r := chunk[|chunk| - 1];
      WithKept(AfterKeeping(by0, groups, chunk[..|chunk| - 1]), r, FinalGenerations(groups[r]))
  }

  /** What it holds for each resource: for those of the chunk their final generations, if any, and
      for the others what was there before. */
  lemma {:induction false} AfterKeepingHolds(by0: Groups, groups: Groups, chunk: seq<Resource>, r: Resource)
    requires NoDuplicates(chunk) && forall q :: q in chunk ==> q in groups && q !in by0
    ensures r in chunk ==> KeptAs(AfterKeeping(by0, groups, chunk), r, FinalGenerations(groups[r]))
    ensures r !in chunk ==> KeptAs(AfterKeeping(by0, groups, chunk), r, if r in by0 then by0[r] else [])
                            || (r in by0 && by0[r] == [])
  {
    if chunk != [] {
      AfterKeepingHolds(by0, groups, chunk[..|chunk| - 1], r);
      hide FinalGenerations;
    }
  }

  lemma {:induction false} NothingKept(by0: Groups, groups: Groups)
    ensures AfterKeeping(by0, groups, []) == by0 && Keeping(groups, []) == []
    ensures forall m :: WeightOf(groups, [], m) == 0
  {
  }

  lemma {:induction false} KeepingStep(by0: Groups, groups: Groups, chunk: seq<Resource>, j: nat)
    requires j < |chunk| && NoDuplicates(chunk) && forall r :: r in chunk ==> r in groups && r !in by0
    ensures chunk[j] !in AfterKeeping(by0, groups, chunk[..j])
    ensures FinalGenerations(groups[chunk[j]]) == [] ==>
              && AfterKeeping(by0, groups, chunk[..j + 1]) == AfterKeeping(by0, groups, chunk[..j])
              && Keeping(groups, chunk[..j + 1]) == Keeping(groups, chunk[..j])
    ensures FinalGenerations(groups[chunk[j]]) != [] ==>
              && AfterKeeping(by0, groups, chunk[..j + 1])
                 == AfterKeeping(by0, groups, chunk[..j])[chunk[j] := FinalGenerations(groups[chunk[j]])]
              && Keeping(groups, chunk[..j + 1]) == Keeping(groups, chunk[..j]) + [chunk[j]]
    ensures forall m :: WeightOf(groups, chunk[..j + 1], m) == WeightOf(groups, chunk[..j], m) + Weight(groups[chunk[j]], m)
  {
    assert chunk[..j + 1][..j] == chunk[..j];
    AfterKeepingHolds(by0, groups, chunk[..j], chunk[j]);
  }

  /** The inner loop of retain: a resource's final generations and how many samples they hold. */
  method CollectFinals(gens: seq<Generation>) returns (kept: seq<Generation>, n: nat)
    ensures kept == FinalGenerations(gens) && n == Weight(kept, Each)
  {
    kept, n := [], 0;
    for i := 0 to |gens|
      invariant kept == FinalGenerations(gens[..i]) && n == Weight(kept, Each)
    {
      FinalGenerationsStep(gens, i);
      var finals := FinalSamples(gens[i].samples);
      if |finals| == 0 {
        continue;
      }
      kept := kept + [gens[i].(samples := finals)];
      n := n + |finals|;
    }
    assert gens[..|gens|] == gens;
  }

  /** A chunk of an export: no resource twice, each with generations in ascending time up to now. */
  ghost predicate ChunkOk(groups: Groups, chunk: seq<Resource>, now: int) {
    NoDuplicates(chunk) && forall r :: r in chunk ==> r in groups && AscendsTo(groups[r], now)
  }

  ghost predicate AscendsTo(gens: seq<Generation>, now: int) {
    Ascending(gens) && forall i :: 0 <= i < |gens| ==> gens[i].ts <= now
  }

  /** The generations kept for a resource, absent when there are none. */
  ghost predicate KeptAs(groups: Groups, r: Resource, gens: seq<Generation>) {
    if gens == [] then r !in groups else r in groups && groups[r] == gens
  }

  function WithKept(groups: Groups, r: Resource, gens: seq<Generation>): Groups {
    if gens == [] then groups else groups[r := gens]
  }

  function Listed(r: Resource, gens: seq<Generation>): seq<Resource> {
    if gens == [] then [] else [r]
  }

  /** The resources of a chunk that have anything final. */
  function Keeping(groups: Groups, chunk: seq<Resource>): seq<Resource>
    requires forall r :: r in chunk ==> r in groups
  {
    if chunk == [] then []
    else
      var r := chunk[|chunk| - 1];
      Keeping(groups, chunk[..|chunk| - 1]) + Listed(r, FinalGenerations(groups[r]))
  }

  /** finalSamples: counts first, and copies only when some samples are final and some are not. */
  method FinalSamples(samples: seq<Sample>) returns (kept: seq<Sample>)
    ensures kept == Finals(samples)
  {
    var n := 0;
    for i := 0 to |samples|
      invariant n == |Finals(samples[..i])| <= i
      invariant n == i ==> Finals(samples[..i]) == samples[..i]
    {
      assert samples[..i + 1][..i] == samples[..i];
      if samples[i].final {
        n := n + 1;
      }
    }
    assert samples[..|samples|] == samples;
    if n == 0 {
      return [];
    }
    if n == |samples| {
      return samples;
    }
    kept := [];
    for i := 0 to |samples|
      invariant kept == Finals(samples[..i])
    {
      assert samples[..i + 1][..i] == samples[..i];
      if samples[i].final {
        kept := kept + [samples[i]];
      }
    }
  }

  lemma {:induction false} FinalGenerationsStep(gens: seq<Generation>, i: nat)
    requires i < |gens|
    ensures Finals(gens[i].samples) == [] ==> FinalGenerations(gens[..i + 1]) == FinalGenerations(gens[..i])
    ensures Finals(gens[i].samples) != [] ==>
              && FinalGenerations(gens[..i + 1]) == FinalGenerations(gens[..i]) + [gens[i].(samples := Finals(gens[i].samples))]
              && Weight(FinalGenerations(gens[..i + 1]), Each)
                 == Weight(FinalGenerations(gens[..i]), Each) + |Finals(gens[i].samples)|
  {
    var before, kept := FinalGenerations(gens[..i]), Finals(gens[i].samples);
    assert gens[..i + 1][..i] == gens[..i];
    WeightAppend(before, gens[i].(samples := kept), Each);
    FinalsWeigh(gens[i].samples, Each);
    FinalsCounted(gens[i].samples);
    if kept == [] {
      assert before + [] == before;
    }
  }

  lemma {:induction false} KeepOneIsOk(groups: Groups, order: seq<Resource>, samples: int, latest: int, r: Resource, gens: seq<Generation>)
    requires RetentionOk(groups, order, samples, latest) && r !in groups
    requires Ascending(gens) && forall i :: 0 <= i < |gens| ==> gens[i].ts <= latest
    ensures FinalGenerations(gens) == [] ==> forall m :: Weight(gens, m) == 0
    ensures FinalGenerations(gens) != [] ==>
              && RetentionOk(groups[r := FinalGenerations(gens)], order + [r],
                             samples + Weight(FinalGenerations(gens), Each), latest)
              && forall m :: WeightOf(groups[r := FinalGenerations(gens)], order + [r], m)
                          == WeightOf(groups, order, m) + Weight(gens, m)
  {
    hide FinalGenerations, Weight, WeightOf, RetentionOk, Ascending, AllFinal;
    var kept := FinalGenerations(gens);
    forall m ensures Weight(kept, m) == Weight(gens, m) && Weight([], m) == 0 {
      FinalGenerationsWeigh(gens, m);
      NothingWeighs(m);
    }
    if kept != [] {
      FinalGenerationsAscend(gens, latest);
      FinalGenerationsAreFinal(gens);
      assert GroupOk(kept, latest);
      JoinWeighs(groups, order, samples, latest, r, kept);
      JoinIsOk(groups, order, samples, latest, r, kept);
    }
  }

  lemma {:induction false} JoinWeighs(groups: Groups, order: seq<Resource>, samples: int, latest: int, r: Resource, kept: seq<Generation>)
    requires RetentionOk(groups, order, samples, latest) && r !in groups
    ensures forall m :: WeightOf(groups[r := kept], order + [r], m) == WeightOf(groups, order, m) + Weight(kept, m)
  {
    hide GroupOk, NoDuplicates;
    forall m ensures WeightOf(groups[r := kept], order + [r], m) == WeightOf(groups, order, m) + Weight(kept, m) {
      WeightOfSame(groups, groups[r := kept], order, m);
      WeightOfAppend(groups[r := kept], order, r, m);
    }
  }

  lemma {:induction false} JoinIsOk(groups: Groups, order: seq<Resource>, samples: int, latest: int, r: Resource, kept: seq<Generation>)
    requires RetentionOk(groups, order, samples, latest) && r !in groups && GroupOk(kept, latest)
    ensures RetentionOk(groups[r := kept], order + [r], samples + Weight(kept, Each), latest)
  {
    JoinWeighs(groups, order, samples, latest, r, kept);
    hide GroupOk, NoDuplicates, Weight, WeightOf;
    NoDuplicatesAppend(order, r);
    var after := groups[r := kept];
    forall q {:trigger after[q]} | q in after ensures GroupOk(after[q], latest) {
      assert q != r ==> GroupOk(groups[q], latest);
    }
  }

  lemma {:induction false} NoDuplicatesAppend<T>(s: seq<T>, x: T)
    requires NoDuplicates(s) && x !in s
    ensures NoDuplicates(s + [x])
  {
  }

  predicate StrictlyBefore(a: Resource, b: Resource) {
    !AtMost(b.name, a.name)
  }

  /** Resource a is evicted before resource b, or is b: quieter for longer, the name breaking ties. */
  predicate StalerOf(groups: Groups, a: Resource, b: Resource) {
    && a in groups && b in groups && groups[a] != [] && groups[b] != []
    && (Newest(groups[a]) < Newest(groups[b]) || (Newest(groups[a]) == Newest(groups[b]) && AtMost(a.name, b.name)))
  }

  lemma {:induction false} StalerSteps(groups: Groups, order: seq<Resource>, victim: nat, i: nat)
    requires victim < i < |order| && order[i] in groups && groups[order[i]] != []
    requires order[victim] in groups && groups[order[victim]] != []
    requires forall j :: 0 <= j < i ==> StalerOf(groups, order[victim], order[j])
    ensures StalerOf(groups, order[i], order[i])
    ensures var a, b := order[victim], order[i];
            if Newest(groups[b]) < Newest(groups[a]) || (Newest(groups[b]) == Newest(groups[a]) && StrictlyBefore(b, a))
            then forall j :: 0 <= j < i ==> StalerOf(groups, b, order[j])
            else StalerOf(groups, a, b)
  {
    AtMostTotal(order[victim].name, order[i].name);
    AtMostTotal(order[i].name, order[i].name);
    forall j | 0 <= j < i && AtMost(order[i].name, order[victim].name) && AtMost(order[victim].name, order[j].name)
      ensures AtMost(order[i].name, order[j].name)
    {
      AtMostTransitive(order[i].name, order[victim].name, order[j].name);
    }
  }

  /** The sample loop over one resource's generations. */
  method CountGenerations(gens: seq<Generation>) returns (n: nat)
    ensures n == Count(gens)
  {
    n := 0;
    for i := 0 to |gens|
      invariant n == Count(gens[..i])
    {
      assert gens[..i + 1][..i] == gens[..i];
      n := n + |gens[i].samples|;
    }
    assert gens[..|gens|] == gens;
  }

  /** What is left is what was there, in its order; and whatever went was staler than all that is left. */
  ghost predicate StalestGone(by0: Groups, order0: seq<Resource>, by1: Groups, order1: seq<Resource>) {
    && (forall r :: r in by1 ==> r in by0 && by1[r] == by0[r])
    && order1 == Within(order0, by1.Keys)
    && (forall v, r :: v in by0 && v !in by1 && r in by1 ==> StalerOf(by0, v, r))
  }

  lemma {:induction false} NoneGone(groups: Groups, order: seq<Resource>, samples: int, latest: int)
    requires RetentionOk(groups, order, samples, latest)
    ensures StalestGone(groups, order, groups, order)
  {
    WithinAll(order, groups.Keys);
  }

  lemma {:induction false} WithinAll(order: seq<Resource>, keys: set<Resource>)
    requires forall r :: r in order ==> r in keys
    ensures Within(order, keys) == order
  {
    if order != [] {
      WithinAll(order[..|order| - 1], keys);
    }
  }

  lemma {:induction false} DeleteFromLonger<T>(before: seq<T>, last: seq<T>, i: nat)
    requires i < |before|
    ensures (before + last)[..i] + (before + last)[i + 1..] == (before[..i] + before[i + 1..]) + last
  {
  }

  lemma {:induction false} DeleteLast<T>(before: seq<T>, x: T)
    ensures (before + [x])[..|before|] + (before + [x])[|before| + 1..] == before
  {
  }

  /** Narrowing the keys by one resource deletes its one place in the list. */
  lemma {:induction false} WithinDelete(order0: seq<Resource>, keys: set<Resource>, i: nat)
    requires NoDuplicates(order0) && i < |Within(order0, keys)|
    ensures var order := Within(order0, keys);
            Within(order0, keys - {order[i]}) == order[..i] + order[i + 1..]
  {
    var n := |order0| - 1;
    var before, x := Within(order0[..n], keys), order0[n];
    assert x !in order0[..n];
    var last := if x in keys then [x] else [];
    assert Within(order0, keys) == before + last;
    if i < |before| {
      WithinDelete(order0[..n], keys, i);
      WithinHolds(order0[..n], keys, before[i]);
      assert before[i] in before;
      assert before[i] != x;
      DeleteFromLonger(before, last, i);
    } else {
      WithinSame(order0[..n], keys, keys - {x});
      DeleteLast(before, x);
    }
  }

  lemma {:induction false} WithinSame(order: seq<Resource>, a: set<Resource>, b: set<Resource>)
    requires forall r :: r in order ==> (r in a <==> r in b)
    ensures Within(order, a) == Within(order, b)
  {
    if order != [] {
      WithinSame(order[..|order| - 1], a, b);
    }
  }

  lemma {:induction false} ListedIsHeld(groups: Groups, order: seq<Resource>, samples: int, latest: int, i: nat)
    requires RetentionOk(groups, order, samples, latest) && i < |order|
    ensures order[i] in groups && Count(groups[order[i]]) == Weight(groups[order[i]], Each)
  {
    assert order[i] in order;
    assert GroupOk(groups[order[i]], latest);
    FinalGenerationsCounted(groups[order[i]]);
  }

  lemma {:induction false} RemovalIsOk(groups: Groups, order: seq<Resource>, samples: int, latest: int, i: nat)
    requires RetentionOk(groups, order, samples, latest) && i < |order| && order[i] in groups
    ensures RetentionOk(groups - {order[i]}, order[..i] + order[i + 1..], samples - Weight(groups[order[i]], Each), latest)
    ensures forall m :: WeightOf(groups - {order[i]}, order[..i] + order[i + 1..], m) + Weight(groups[order[i]], m)
                     == WeightOf(groups, order, m)
  {
    hide GroupOk, Weight, WeightOf;
    var rest, after := order[..i] + order[i + 1..], groups - {order[i]};
    DeleteMembers(order, i);
    forall m ensures WeightOf(after, rest, m) + Weight(groups[order[i]], m) == WeightOf(groups, order, m) {
      WeightOfRemove(groups, order, i, m);
      WeightOfSame(groups, after, rest, m);
    }
    forall q {:trigger after[q]} | q in after ensures GroupOk(after[q], latest) {
      assert GroupOk(groups[q], latest);
    }
  }

  lemma {:induction false} DeleteMembers<T>(order: seq<T>, i: nat)
    requires NoDuplicates(order) && i < |order|
    ensures NoDuplicates(order[..i] + order[i + 1..])
    ensures forall q :: q in order[..i] + order[i + 1..] <==> q in order && q != order[i]
  {
  }

  lemma {:induction false} OneMoreGone(by0: Groups, order0: seq<Resource>, samples0: int, by1: Groups, order1: seq<Resource>, samples1: int,
                    latest: int, i: nat)
    requires StalestGone(by0, order0, by1, order1) && RetentionOk(by0, order0, samples0, latest)
    requires RetentionOk(by1, order1, samples1, latest) && i < |order1| && order1[i] in by1
    requires forall j :: 0 <= j < |order1| ==> StalerOf(by1, order1[i], order1[j])
    ensures StalestGone(by0, order0, by1 - {order1[i]}, order1[..i] + order1[i + 1..])
  {
    hide GroupOk, WeightOf, Within;
    var by2 := by1 - {order1[i]};
    WithinDelete(order0, by1.Keys, i);
    assert by2.Keys == by1.Keys - {order1[i]};
    forall v, r | v in by0 && v !in by2 && r in by2 ensures StalerOf(by0, v, r) {
      if v == order1[i] {
        assert r in order1;
        var j :| 0 <= j < |order1| && order1[j] == r;
        assert StalerOf(by1, order1[i], order1[j]);
      }
    }
  }

  lemma {:induction false} HeldIsCovered(groups: Groups, order: seq<Resource>, samples: int, latest: int)
    requires RetentionOk(groups, order, samples, latest)
    ensures Covered(groups, order) && NoDuplicates(order)
    ensures forall r :: r in groups ==> groups[r] != []
  {
    forall r | r in order ensures r in groups && groups[r] != [] {
      assert GroupOk(groups[r], latest);
    }
  }

  /** The generations of all retained resources, listed for sorting. */
  method CollectRefs(groups: Groups, order: seq<Resource>) returns (refs: seq<GenRef>)
    requires Covered(groups, order)
    ensures refs == Refs(groups, order)
  {
    refs := [];
    for j := 0 to |order|
      invariant Covered(groups, order[..j]) && refs == Refs(groups, order[..j])
    {
      assert order[..j + 1][..j] == order[..j];
      var gens := groups[order[j]];
      var newest := Newest(gens);
      ghost var before := refs;
      for i := 0 to |gens|
        invariant refs == before + RefsTo(gens, order[j], i)
      {
        refs := refs + [GenRef(gens[i].ts, newest, order[j], i)];
      }
    }
    assert order[..|order|] == order;
  }

  /** A complete, duplicate-free list of the retained generations. */
  ghost predicate EvictionList(groups: Groups, order: seq<Resource>, sorted: seq<GenRef>)
    requires Covered(groups, order)
  {
    && NoDuplicates(order) && NoDuplicates(sorted)
    && (forall j :: 0 <= j < |sorted| ==> RefOk(groups, order, sorted[j]))
    && (forall x :: x in Refs(groups, order) ==> x in sorted)
  }

  /** The k first generations in eviction order are gone and nothing else, k being the least number
      with which the rest fits. */
  ghost predicate OldestGone(by0: Groups, order0: seq<Resource>, samples0: int, by1: Groups, order1: seq<Resource>, samples1: int,
                             sorted: seq<GenRef>, k: nat) {
    && Covered(by0, order0) && EvictionList(by0, order0, sorted) && SortedBy(sorted, RefAtMost) && k <= |sorted|
    && by1 == NonEmpty(SurvivingGroups(by0, MarksTo(sorted, k)))
    && order1 == Within(order0, by1.Keys)
    && samples1 == samples0 - SizeTo(by0, sorted, k)
    && (k > 0 ==> samples0 - SizeTo(by0, sorted, k - 1) > MAX_RETAINED_SAMPLES)
  }

  lemma {:induction false} EvictionListed(groups: Groups, order: seq<Resource>) returns (sorted: seq<GenRef>)
    requires Covered(groups, order) && NoDuplicates(order)
    ensures sorted == Sort(Refs(groups, order), RefAtMost)
    ensures EvictionList(groups, order, sorted) && SortedBy(sorted, RefAtMost)
  {
    sorted := EvictionOrder(groups, order);
    forall j | 0 <= j < |sorted| ensures RefOk(groups, order, sorted[j]) {
      assert sorted[j] in sorted;
    }
  }

  /** A resource goes whole, and one that went is one gone quieter than every one that stays: the last
      generation older, or as old and the name before. */
  ghost predicate StalestFirst(by0: Groups, by1: Groups) {
    && (forall r :: r in by1 ==> r in by0 && by1[r] == by0[r])
    && (forall v, r :: v in by0 && v !in by1 && r in by1 && by0[v] != [] && by0[r] != [] ==>
          var lastOfV, lastOfR := by0[v][|by0[v]| - 1].ts, by0[r][|by0[r]| - 1].ts;
          lastOfV < lastOfR || (lastOfV == lastOfR && AtMost(v.name, r.name)))
  }

  lemma {:induction false} StalestWentFirst(by0: Groups, order0: seq<Resource>, by1: Groups, order1: seq<Resource>)
    requires StalestGone(by0, order0, by1, order1)
    ensures StalestFirst(by0, by1)
  {
    hide Within;
    forall v, r | v in by0 && v !in by1 && r in by1 ensures StalerOf(by0, v, r) {
    }
  }

  lemma {:induction false} OldestGoneIs(by0: Groups, order0: seq<Resource>, samples0: int, samples1: int, sorted: seq<GenRef>, k: nat)
    requires Covered(by0, order0) && EvictionList(by0, order0, sorted) && SortedBy(sorted, RefAtMost) && k <= |sorted|
    requires samples1 == samples0 - SizeTo(by0, sorted, k)
    requires k > 0 ==> samples0 - SizeTo(by0, sorted, k - 1) > MAX_RETAINED_SAMPLES
    ensures var by1 := NonEmpty(SurvivingGroups(by0, MarksTo(sorted, k)));
            OldestGone(by0, order0, samples0, by1, Within(order0, by1.Keys), samples1, sorted, k)
  {
  }

  /** What is left of a resource's generations. */
  function LeftOf(groups: Groups, r: Resource): seq<Generation> {
    if r in groups then groups[r] else []
  }

  /** A generation of r may go before one of q: the older; of one time, that of the resource whose last
      generation is the older; then by name, and within a resource by position. */
  ghost predicate GoesBefore(by0: Groups, r: Resource, i: nat, q: Resource, j: nat)
    requires r in by0 && q in by0 && i < |by0[r]| && j < |by0[q]|
  {
    var a, b := by0[r][i].ts, by0[q][j].ts;
    var lastOfR, lastOfQ := by0[r][|by0[r]| - 1].ts, by0[q][|by0[q]| - 1].ts;
    a < b || (a == b && (lastOfR < lastOfQ || (lastOfR == lastOfQ && if r == q then i < j else AtMost(r.name, q.name))))
  }

  /** What went from a resource is the front of its generations, the rest is as it was; and every generation
      that went is one to go before every one that stays. */
  ghost predicate OldestFirst(by0: Groups, by1: Groups) {
    && (forall r :: r in by1 ==> r in by0 && by1[r] != [])
    && (forall r :: r in by0 ==>
          |LeftOf(by1, r)| <= |by0[r]| && LeftOf(by1, r) == by0[r][|by0[r]| - |LeftOf(by1, r)|..])
    && (forall r, i: nat, q, j: nat ::
          r in by0 && i < |by0[r]| - |LeftOf(by1, r)| && q in by0 && |by0[q]| - |LeftOf(by1, q)| <= j < |by0[q]| ==>
            GoesBefore(by0, r, i, q, j))
  }

  /** How many of the first generations of a resource are marked. */
  function MarkedFront(marks: Marks, res: Resource, i: nat, n: nat): (c: nat)
    requires i <= n
    ensures i <= c <= n && (forall j :: i <= j < c ==> Marked(marks, res, j)) && (c < n ==> !Marked(marks, res, c))
    decreases n - i
  {
    if i == n || !Marked(marks, res, i) then i else MarkedFront(marks, res, i + 1, n)
  }

  /** The marked generations of one resource are its first ones: they go before those of others. */
  lemma {:induction false} MarkedGoBefore(by0: Groups, order0: seq<Resource>, sorted: seq<GenRef>, k: nat, r: Resource, i: nat, q: Resource, j: nat)
    requires Covered(by0, order0) && EvictionList(by0, order0, sorted) && SortedBy(sorted, RefAtMost) && k <= |sorted|
    requires r in order0 && q in order0 && i < |by0[r]| && j < |by0[q]|
    requires Marked(MarksTo(sorted, k), r, i) && !Marked(MarksTo(sorted, k), q, j)
    ensures GoesBefore(by0, r, i, q, j)
  {
    hide MarksTo, Marked, SortedBy;
    MarkedIffAmongFirst(sorted, k, r, i);
    MarkedIffAmongFirst(sorted, k, q, j);
    var x :| 0 <= x < k && sorted[x].res == r && sorted[x].i == i;
    RefsComplete(by0, order0, q, j);
    var b := GenRef(by0[q][j].ts, Newest(by0[q]), q, j);
    var y :| 0 <= y < |sorted| && sorted[y] == b;
    assert RefOk(by0, order0, sorted[x]);
    assert RefAtMost(sorted[x], b) by {
      assert x < y;
      EarlierAtMost(sorted, x, y);
    }
  }

  lemma {:induction false} EarlierAtMost(sorted: seq<GenRef>, x: nat, y: nat)
    requires SortedBy(sorted, RefAtMost) && x < y < |sorted|
    ensures RefAtMost(sorted[x], sorted[y])
  {
  }

  lemma {:induction false} SurvivorsSuffix(gens: seq<Generation>, r: Resource, marks: Marks, c: nat, n: nat)
    requires c <= |gens| && n <= |gens| && forall i :: 0 <= i < n ==> (Marked(marks, r, i) <==> i < c)
    ensures Survivors(gens, r, marks, n) == if n <= c then [] else gens[c..n]
  {
    if n > 0 {
      SurvivorsSuffix(gens, r, marks, c, n - 1);
    }
  }

  /** What is left of one resource is the end of its generations. */
  lemma {:induction false} FrontGone(by0: Groups, order0: seq<Resource>, sorted: seq<GenRef>, k: nat, r: Resource) returns (c: nat)
    requires Covered(by0, order0) && EvictionList(by0, order0, sorted) && SortedBy(sorted, RefAtMost) && k <= |sorted|
    requires r in order0 && Ascending(by0[r])
    ensures c <= |by0[r]| && forall i :: 0 <= i < |by0[r]| ==> (Marked(MarksTo(sorted, k), r, i) <==> i < c)
    ensures Survivors(by0[r], r, MarksTo(sorted, k), |by0[r]|) == by0[r][c..]
  {
    hide MarksTo, Marked, SortedBy, Survivors, EvictionList;
    var marks := MarksTo(sorted, k);
    c := MarkedFront(marks, r, 0, |by0[r]|);
    forall i | c <= i < |by0[r]| ensures !Marked(marks, r, i) {
      if Marked(marks, r, i) {
        MarkedGoBefore(by0, order0, sorted, k, r, i, r, c);
        assert false;
      }
    }
    SurvivorsSuffix(by0[r], r, marks, c, |by0[r]|);
    assert by0[r][c..|by0[r]|] == by0[r][c..];
  }

  /** The oldest generations go first, whatever sorted them. */
  lemma {:induction false} OldestWentFirst(by0: Groups, order0: seq<Resource>, samples0: int, by1: Groups, order1: seq<Resource>, samples1: int,
                                           sorted: seq<GenRef>, k: nat, latest: int)
    requires RetentionOk(by0, order0, samples0, latest) && OldestGone(by0, order0, samples0, by1, order1, samples1, sorted, k)
    ensures OldestFirst(by0, by1)
  {
    hide MarksTo, Marked, SortedBy, Survivors, EvictionList, WeightOf, Within, SizeTo, GoesBefore;
    var marks := MarksTo(sorted, k);
    forall r | r in by0
      ensures |LeftOf(by1, r)| <= |by0[r]| && LeftOf(by1, r) == by0[r][|by0[r]| - |LeftOf(by1, r)|..]
      ensures forall i :: 0 <= i < |by0[r]| ==> (Marked(marks, r, i) <==> i < |by0[r]| - |LeftOf(by1, r)|)
    {
      assert GroupOk(by0[r], latest);
      var c := FrontGone(by0, order0, sorted, k, r);
      assert LeftOf(by1, r) == by0[r][c..];
    }
    forall r, i: nat, q, j: nat |
      r in by0 && i < |by0[r]| - |LeftOf(by1, r)| && q in by0 && |by0[q]| - |LeftOf(by1, q)| <= j < |by0[q]|
      ensures GoesBefore(by0, r, i, q, j)
    {
      MarkedGoBefore(by0, order0, sorted, k, r, i, q, j);
    }
  }

  lemma {:induction false} NothingMarked(groups: Groups, order: seq<Resource>, samples: int, latest: int)
    requires RetentionOk(groups, order, samples, latest)
    ensures SurvivingGroups(groups, map[]) == groups && samples == WeightOf(groups, order, Each)
  {
    forall r | r in groups ensures Survivors(groups[r], r, map[], |groups[r]|) == groups[r] {
      UnmarkedSurvive(groups[r], r, map[], |groups[r]|);
      assert groups[r][..|groups[r]|] == groups[r];
    }
  }

  /** Marking the next generation in eviction order. */
  lemma {:induction false} MarkNext(groups: Groups, order: seq<Resource>, samples: int, latest: int, sorted: seq<GenRef>, k: nat)
    requires RetentionOk(groups, order, samples, latest)
    requires Covered(groups, order) && EvictionList(groups, order, sorted) && k < |sorted|
    ensures RefOk(groups, order, sorted[k])
    ensures var samples := groups[sorted[k].res][sorted[k].i].samples;
            && FinalsIn(groups[sorted[k].res][sorted[k].i], Each) == |samples|
            && forall m :: WeightOf(SurvivingGroups(groups, MarksTo(sorted, k)), order, m)
                        == WeightOf(SurvivingGroups(groups, MarksTo(sorted, k + 1)), order, m) + FinalsIn(groups[sorted[k].res][sorted[k].i], m)
  {
    hide GroupOk, WeightOf, SurvivingGroups;
    var g := sorted[k];
    NotYetMarked(groups, order, sorted, k);
    forall m
      ensures WeightOf(SurvivingGroups(groups, MarksTo(sorted, k)), order, m)
           == WeightOf(SurvivingGroups(groups, MarksTo(sorted, k + 1)), order, m) + FinalsIn(groups[g.res][g.i], m)
    {
      MarkWeighsAmongGroups(groups, order, MarksTo(sorted, k), g.res, g.i, m);
    }
    GenerationIsFinal(groups[g.res], latest, g.i);
  }

  lemma {:induction false} NotYetMarked(groups: Groups, order: seq<Resource>, sorted: seq<GenRef>, k: nat)
    requires Covered(groups, order) && EvictionList(groups, order, sorted) && k < |sorted|
    ensures !Marked(MarksTo(sorted, k), sorted[k].res, sorted[k].i)
  {
    MarkedIffAmongFirst(sorted, k, sorted[k].res, sorted[k].i);
    forall j | 0 <= j < k ensures sorted[j].res != sorted[k].res || sorted[j].i != sorted[k].i {
      assert RefOk(groups, order, sorted[j]) && RefOk(groups, order, sorted[k]);
    }
  }

  lemma {:induction false} GenerationIsFinal(gens: seq<Generation>, latest: int, i: nat)
    requires GroupOk(gens, latest) && i < |gens|
    ensures FinalsIn(gens[i], Each) == |gens[i].samples|
  {
    FinalsCounted(gens[i].samples);
    FinalsStay(gens[i].samples);
  }

  /** With every generation marked nothing weighs anything. */
  lemma {:induction false} AllMarked(groups: Groups, order: seq<Resource>, sorted: seq<GenRef>)
    requires Covered(groups, order) && EvictionList(groups, order, sorted)
    ensures WeightOf(SurvivingGroups(groups, MarksTo(sorted, |sorted|)), order, Each) == 0
  {
    var marks := MarksTo(sorted, |sorted|);
    forall r | r in order ensures WeightAt(SurvivingGroups(groups, marks), r, Each) == 0 {
      forall i | 0 <= i < |groups[r]| ensures Marked(marks, r, i) {
        RefsComplete(groups, order, r, i);
        MarkedIffAmongFirst(sorted, |sorted|, r, i);
      }
      NoneSurvive(groups[r], r, marks, |groups[r]|);
    }
    WeightlessOrder(SurvivingGroups(groups, marks), order);
  }

  lemma {:induction false} NoneSurvive(gens: seq<Generation>, r: Resource, marks: Marks, n: nat)
    requires n <= |gens| && forall i :: 0 <= i < n ==> Marked(marks, r, i)
    ensures Survivors(gens, r, marks, n) == []
  {
    if n > 0 {
      NoneSurvive(gens, r, marks, n - 1);
    }
  }

  lemma {:induction false} WeightlessOrder(groups: Groups, order: seq<Resource>)
    requires forall r :: r in order ==> WeightAt(groups, r, Each) == 0
    ensures WeightOf(groups, order, Each) == 0
  {
    if order != [] {
      WeightlessOrder(groups, order[..|order| - 1]);
    }
  }

  lemma {:induction false} MarksInside(groups: Groups, order: seq<Resource>, sorted: seq<GenRef>, k: nat)
    requires Covered(groups, order) && EvictionList(groups, order, sorted) && k <= |sorted|
    ensures forall r :: r in MarksTo(sorted, k) ==> r in groups
  {
    if k > 0 {
      MarksInside(groups, order, sorted, k - 1);
      assert RefOk(groups, order, sorted[k - 1]);
    }
  }

  /** The loop over one resource's marks. */
  method KeepUnmarked(gens: seq<Generation>, r: Resource, marks: Marks) returns (kept: seq<Generation>)
    ensures kept == Survivors(gens, r, marks, |gens|)
  {
    kept := [];
    for i := 0 to |gens|
      invariant kept == Survivors(gens, r, marks, i)
    {
      if !Marked(marks, r, i) {
        kept := kept + [gens[i]];
      }
    }
  }

  /** The groups with the resources already done filtered, the emptied ones removed. */
  function Compacted(groups: Groups, marks: Marks, done: set<Resource>): Groups {
    map r | r in groups && (r in done ==> Survivors(groups[r], r, marks, |groups[r]|) != []) ::
      if r in done then Survivors(groups[r], r, marks, |groups[r]|) else groups[r]
  }

  /** Filters the marked resources one by one, in whatever order. */
  method Compact(groups: Groups, marks: Marks) returns (after: Groups)
    requires forall r :: r in marks ==> r in groups
    requires forall r :: r in groups ==> groups[r] != []
    ensures after == NonEmpty(SurvivingGroups(groups, marks))
  {
    after := groups;
    var todo := marks.Keys;
    ghost var done: set<Resource> := {};
    assert after == Compacted(groups, marks, done);
    while todo != {}
      invariant todo == marks.Keys - done && done <= marks.Keys
      invariant after == Compacted(groups, marks, done)
    {
      var r :| r in todo;
      assert r in after && after[r] == groups[r];
      var kept := KeepUnmarked(after[r], r, marks);
      CompactOne(groups, marks, done, r);
      if kept == [] {
        after := after - {r};
      } else {
        after := after[r := kept];
      }
      todo, done := todo - {r}, done + {r};
    }
    AllCompacted(groups, marks);
    assert done == marks.Keys;
  }

  lemma {:induction false} CompactOne(groups: Groups, marks: Marks, done: set<Resource>, r: Resource)
    requires r in groups && r !in done
    ensures var before, kept := Compacted(groups, marks, done), Survivors(groups[r], r, marks, |groups[r]|);
            Compacted(groups, marks, done + {r}) == if kept == [] then before - {r} else before[r := kept]
  {
  }

  lemma {:induction false} AllCompacted(groups: Groups, marks: Marks)
    requires forall r :: r in groups ==> groups[r] != []
    ensures Compacted(groups, marks, marks.Keys) == NonEmpty(SurvivingGroups(groups, marks))
  {
    forall r | r in groups && r !in marks ensures Survivors(groups[r], r, marks, |groups[r]|) == groups[r] {
      UnmarkedSurvive(groups[r], r, marks, |groups[r]|);
      assert groups[r][..|groups[r]|] == groups[r];
    }
  }

  method FilterHeld(order: seq<Resource>, groups: Groups) returns (kept: seq<Resource>)
    ensures kept == Within(order, groups.Keys)
  {
    kept := [];
    for j := 0 to |order|
      invariant kept == Within(order[..j], groups.Keys)
    {
      assert order[..j + 1][..j] == order[..j];
      if order[j] in groups {
        kept := kept + [order[j]];
      }
    }
    assert order[..|order|] == order;
  }

  lemma {:induction false} SurvivorsAscend(gens: seq<Generation>, r: Resource, marks: Marks, n: nat, latest: int)
    requires n <= |gens| && AllFinal(gens) && Ascending(gens) && forall i :: 0 <= i < n ==> gens[i].ts <= latest
    ensures AllFinal(Survivors(gens, r, marks, n)) && Ascending(Survivors(gens, r, marks, n))
    ensures forall i :: 0 <= i < |Survivors(gens, r, marks, n)| ==> Survivors(gens, r, marks, n)[i].ts <= latest
  {
    if n > 0 {
      SurvivorsAscend(gens, r, marks, n - 1, gens[n - 1].ts);
    }
  }

  /** Dropping generations keeps the retention in order, with the weight of what survives. */
  lemma {:induction false} SurvivorsAreOk(groups: Groups, order: seq<Resource>, samples: int, latest: int, marks: Marks)
    requires RetentionOk(groups, order, samples, latest)
    ensures var left := SurvivingGroups(groups, marks);
            var by1 := NonEmpty(left);
            && RetentionOk(by1, Within(order, by1.Keys), WeightOf(left, order, Each), latest)
            && forall m :: WeightOf(by1, Within(order, by1.Keys), m) == WeightOf(left, order, m)
  {
    var left := SurvivingGroups(groups, marks);
    var by1 := NonEmpty(left);
    var order1 := Within(order, by1.Keys);
    WithinNoDuplicates(order, by1.Keys);
    forall m ensures WeightOf(by1, order1, m) == WeightOf(left, order, m) {
      NonEmptyWeighs(left, order, m);
    }
    forall r ensures r in by1 <==> r in order1 {
      WithinHolds(order, by1.Keys, r);
    }
    SurvivingGroupsOk(groups, order, samples, latest, marks);
  }

  lemma {:induction false} SurvivingGroupsOk(groups: Groups, order: seq<Resource>, samples: int, latest: int, marks: Marks)
    requires RetentionOk(groups, order, samples, latest)
    ensures var by1 := NonEmpty(SurvivingGroups(groups, marks));
            forall r {:trigger GroupOk(by1[r], latest)} :: r in by1 ==> GroupOk(by1[r], latest)
  {
    var by1 := NonEmpty(SurvivingGroups(groups, marks));
    forall r {:trigger by1[r]} | r in by1 ensures GroupOk(by1[r], latest) {
      assert GroupOk(groups[r], latest);
      SurvivorsAscend(groups[r], r, marks, |groups[r]|, latest);
    }
  }

  lemma {:induction false} WithinShorter(order: seq<Resource>, keys: set<Resource>)
    ensures |Within(order, keys)| <= |order|
  {
    if order != [] {
      WithinShorter(order[..|order| - 1], keys);
    }
  }

  lemma {:induction false} OldestGoneKeepsCap(by0: Groups, order0: seq<Resource>, samples0: int, by1: Groups, order1: seq<Resource>, samples1: int,
                           sorted: seq<GenRef>, k: nat)
    requires OldestGone(by0, order0, samples0, by1, order1, samples1, sorted, k)
    ensures |order1| <= |order0| && forall r :: r in by1 ==> r in by0
  {
    WithinShorter(order0, by1.Keys);
  }

  lemma {:induction false} RetainedWereThere(before: Groups, groups: Groups, chunk: seq<Resource>, by0: Groups, order0: seq<Resource>,
                          by1: Groups, order1: seq<Resource>, by2: Groups)
    requires NoDuplicates(chunk) && forall r :: r in chunk ==> r in groups && r !in before
    requires by0 == AfterKeeping(before, groups, chunk) && StalestGone(by0, order0, by1, order1)
    requires forall r :: r in by2 ==> r in by1
    ensures forall r :: r in by2 ==> r in before || r in chunk
  {
    forall r | r in by2 ensures r in before || r in chunk {
      AfterKeepingMembers(before, groups, chunk, r);
    }
  }

  lemma {:induction false} AfterKeepingMembers(by0: Groups, groups: Groups, chunk: seq<Resource>, r: Resource)
    requires forall q :: q in chunk ==> q in groups
    ensures r in AfterKeeping(by0, groups, chunk) ==> r in by0 || r in chunk
  {
    if chunk != [] {
      AfterKeepingMembers(by0, groups, chunk[..|chunk| - 1], r);
    }
  }

  /** A fresh snapshot, taken at now: each resource listed once, with generations of this moment. */
  ghost predicate SnapshotOk(groups: Groups, order: seq<Resource>, now: int) {
    && NoDuplicates(order)
    && (forall r :: r in order ==> r in groups)
    && (forall r :: r in groups ==> r in order)
    && (forall r, i :: r in groups && 0 <= i < |groups[r]| ==> groups[r][i].ts == now)
  }

  /** The snapshot with the retained generations of these resources put in front. */
  function Merged(retained: Groups, groups: Groups, order: seq<Resource>): Groups
    requires forall r :: r in order ==> r in retained
  {
    if order == [] then groups
    else
      var before, r := Merged(retained, groups, order[..|order| - 1]), order[|order| - 1];
      before[r := retained[r] + if r in before then before[r] else []]
  }

  lemma {:induction false} MergedHolds(retained: Groups, groups: Groups, order: seq<Resource>, r: Resource)
    requires NoDuplicates(order) && forall q :: q in order ==> q in retained
    ensures r in Merged(retained, groups, order) <==> r in order || r in groups
    ensures r in order ==> Merged(retained, groups, order)[r] == retained[r] + if r in groups then groups[r] else []
    ensures r !in order && r in groups ==> Merged(retained, groups, order)[r] == groups[r]
  {
    if order != [] {
      MergedHolds(retained, groups, order[..|order| - 1], r);
    }
  }

  lemma {:induction false} NothingMerged(retained: Groups, groups: Groups, order: seq<Resource>)
    ensures Merged(retained, groups, []) == groups && order + Within([], retained.Keys - groups.Keys) == order
    ensures forall m :: WeightOf(retained, [], m) == 0
  {
  }

  /** One turn of the merging loop. */
  lemma {:induction false} MergeStep(retained: Groups, retryOrder: seq<Resource>, samples: int, latest: int, groups: Groups, order: seq<Resource>,
                  now: int, j: nat)
    requires RetentionOk(retained, retryOrder, samples, latest) && SnapshotOk(groups, order, now) && j < |retryOrder|
    ensures retryOrder[j] in retained && forall r :: r in retryOrder ==> r in retained
    ensures var before, r := Merged(retained, groups, retryOrder[..j]), retryOrder[j];
            var was := if r in before then before[r] else [];
            var keys := retained.Keys - groups.Keys;
            var listed := order + Within(retryOrder[..j], keys);
            var after, more := before[r := retained[r] + was], if r in before then listed else listed + [r];
            && after == Merged(retained, groups, retryOrder[..j + 1])
            && more == order + Within(retryOrder[..j + 1], keys)
            && forall m :: WeightOf(after, more, m) == WeightOf(before, listed, m) + Weight(retained[r], m)
    ensures forall m :: WeightOf(retained, retryOrder[..j + 1], m)
                     == WeightOf(retained, retryOrder[..j], m) + Weight(retained[retryOrder[j]], m)
  {
    var r, done := retryOrder[j], retryOrder[..j];
    assert retryOrder[..j + 1][..j] == done;
    assert r !in done;
    assert r in retryOrder;
    MergedHolds(retained, groups, done, r);
    var before := Merged(retained, groups, done);
    var keys := retained.Keys - groups.Keys;
    MergeWeighs(retained, groups, before, order, done, keys, r);
    if r in before {
      assert order + Within(retryOrder[..j + 1], keys) == order + Within(done, keys);
    } else {
      assert order + Within(retryOrder[..j + 1], keys) == (order + Within(done, keys)) + [r];
    }
  }

  lemma {:induction false} MergeWeighs(retained: Groups, groups: Groups, before: Groups, order: seq<Resource>, done: seq<Resource>,
                    keys: set<Resource>, r: Resource)
    requires NoDuplicates(order) && NoDuplicates(done) && r !in done && r in retained
    requires forall q :: q in groups <==> q in order
    requires keys == retained.Keys - groups.Keys && forall q :: q in done ==> q in retained
    requires before == Merged(retained, groups, done)
    ensures var listed := order + Within(done, keys);
            var was := if r in before then before[r] else [];
            var after, more := before[r := retained[r] + was], if r in before then listed else listed + [r];
            forall m :: WeightOf(after, more, m) == WeightOf(before, listed, m) + Weight(retained[r], m)
  {
    hide WeightOf, Weight, Merged, Within;
    var listed := order + Within(done, keys);
    MergedHolds(retained, groups, done, r);
    ListedOnce(order, done, keys);
    WithinHolds(done, keys, r);
    forall m { MergeOneWeighs(before, listed, r, retained[r], m); }
  }

  /** Putting generations in front of a resource's, or listing the resource with them, adds their weight. */
  lemma {:induction false} MergeOneWeighs(before: Groups, listed: seq<Resource>, r: Resource, gens: seq<Generation>, m: Measure)
    requires NoDuplicates(listed) && (r in before <==> r in listed)
    ensures var was := if r in before then before[r] else [];
            var after, more := before[r := gens + was], if r in before then listed else listed + [r];
            WeightOf(after, more, m) == WeightOf(before, listed, m) + Weight(gens, m)
  {
    hide WeightOf, Weight, NoDuplicates;
    if r in before {
      WeightConcat(gens, before[r], m);
      WeightOfUpdate(before, listed, r, gens + before[r], m);
    } else {
      assert gens + [] == gens;
      WeightOfSame(before, before[r := gens], listed, m);
      WeightOfAppend(before[r := gens], listed, r, m);
    }
  }

  lemma {:induction false} ListedOnce(order: seq<Resource>, done: seq<Resource>, keys: set<Resource>)
    requires NoDuplicates(order) && NoDuplicates(done) && forall q :: q in order ==> q !in keys
    ensures NoDuplicates(order + Within(done, keys))
  {
    WithinNoDuplicates(done, keys);
    var more := Within(done, keys);
    forall i | 0 <= i < |more| ensures more[i] !in order {
      WithinHolds(done, keys, more[i]);
    }
  }

  lemma {:induction false} MergedIsOk(retained: Groups, retryOrder: seq<Resource>, samples: int, latest: int, groups: Groups, order: seq<Resource>,
                   now: int)
    requires RetentionOk(retained, retryOrder, samples, latest) && SnapshotOk(groups, order, now) && latest <= now
    ensures forall r :: r in retryOrder ==> r in retained
    ensures var merged := Merged(retained, groups, retryOrder);
            var listed := order + Within(retryOrder, retained.Keys - groups.Keys);
            ChunkOk(merged, listed, now) && forall r :: r in merged ==> r in listed
  {
    var merged, keys := Merged(retained, groups, retryOrder), retained.Keys - groups.Keys;
    var listed := order + Within(retryOrder, keys);
    ListedOnce(order, retryOrder, keys);
    forall r ensures r in merged <==> r in listed {
      MergedHolds(retained, groups, retryOrder, r);
      WithinHolds(retryOrder, keys, r);
    }
    forall r | r in merged ensures AscendsTo(merged[r], now) {
      MergedHolds(retained, groups, retryOrder, r);
      if r in retryOrder {
        assert GroupOk(retained[r], latest);
      }
    }
  }

  lemma {:induction false} CountConcat(a: seq<Generation>, b: seq<Generation>)
    ensures Count(a + b) == Count(a) + Count(b)
  {
    if b == [] {
      assert a + b == a;
    } else {
      var n := |b| - 1;
      CountConcat(a, b[..n]);
      assert (a + b)[..|a| + n] == a + b[..n];
    }
  }

  /** All samples of a chunk, final or not. */
  method ChunkSamples(groups: Groups, chunk: seq<Resource>) returns (n: nat)
    requires forall r :: r in chunk ==> r in groups
    ensures n == Count(GenerationsOf(groups, chunk))
  {
    n := 0;
    for j := 0 to |chunk|
      invariant n == Count(GenerationsOf(groups, chunk[..j]))
    {
      assert chunk[..j + 1][..j] == chunk[..j];
      CountConcat(GenerationsOf(groups, chunk[..j]), groups[chunk[j]]);
      var size := CountGenerations(groups[chunk[j]]);
      n := n + size;
    }
    assert chunk[..|chunk|] == chunk;
  }

  /** The resources of all flushes, in order. */
  ghost function Rendered(flushes: seq<Flushed>): seq<Resource> {
    if flushes == [] then [] else Rendered(flushes[..|flushes| - 1]) + flushes[|flushes| - 1].chunk
  }

  /** The generations of the chunks that met one outcome. */
  ghost function Sent(groups: Groups, flushes: seq<Flushed>, outcome: Outcome): seq<Generation> {
    if flushes == [] then []
    else
      var f := flushes[|flushes| - 1];
      Sent(groups, flushes[..|flushes| - 1], outcome) + if f.outcome == outcome then GenerationsOf(groups, f.chunk) else []
  }

  /** How many resources the permanent rejections cost. */
  ghost function LostIn(flushes: seq<Flushed>): nat {
    if flushes == [] then 0
    else LostIn(flushes[..|flushes| - 1]) + if flushes[|flushes| - 1].outcome.Permanent? then |flushes[|flushes| - 1].chunk| else 0
  }

  ghost function TotalSize(groups: Groups, chunk: seq<Resource>, size: (Resource, seq<Generation>) -> nat): nat {
    if chunk == [] then 0
    else
      var r := chunk[|chunk| - 1];
      TotalSize(groups, chunk[..|chunk| - 1], size) + if r in groups then size(r, groups[r]) else 0
  }

  /** Chunks are never empty, fit the limit unless they hold a single resource, and are full: the
      next resource would not have fitted. Without a limit there is one chunk at most. */
  ghost predicate Packed(groups: Groups, flushes: seq<Flushed>, size: (Resource, seq<Generation>) -> nat, maxBytes: nat) {
    && (forall i :: 0 <= i < |flushes| ==> flushes[i].chunk != [])
    && (maxBytes == 0 ==> |flushes| <= 1)
    && (maxBytes > 0 ==> forall i :: 0 <= i < |flushes| && |flushes[i].chunk| > 1 ==> TotalSize(groups, flushes[i].chunk, size) <= maxBytes)
    && (forall i :: 0 <= i < |flushes| - 1 ==>
          TotalSize(groups, flushes[i].chunk + [flushes[i + 1].chunk[0]], size) > maxBytes)
  }

  /** Which flush the returned error is about. */
  ghost predicate FirstFailure(flushes: seq<Flushed>, failed: Option<nat>) {
    match failed
    case None => forall i :: 0 <= i < |flushes| ==> flushes[i].outcome.Delivered?
    case Some(k) =>
      k < |flushes| && !flushes[k].outcome.Delivered?
      && if flushes[k].outcome.Permanent? then forall i :: 0 <= i < k ==> !flushes[i].outcome.Permanent?
         else (forall i :: 0 <= i < |flushes| ==> !flushes[i].outcome.Permanent?)
              && (forall i :: 0 <= i < k ==> flushes[i].outcome.Delivered?)
  }

  /** The first failure and the first permanent rejection so far. */
  ghost predicate FirstsOk(flushes: seq<Flushed>, first: Option<nat>, perm: Option<nat>) {
    && (match first
        case None => forall i :: 0 <= i < |flushes| ==> flushes[i].outcome.Delivered?
        case Some(k) => k < |flushes| && !flushes[k].outcome.Delivered? && forall i :: 0 <= i < k ==> flushes[i].outcome.Delivered?)
    && (match perm
        case None => forall i :: 0 <= i < |flushes| ==> !flushes[i].outcome.Permanent?
        case Some(k) => k < |flushes| && flushes[k].outcome.Permanent? && forall i :: 0 <= i < k ==> !flushes[i].outcome.Permanent?)
  }

  lemma {:induction false} WeightOfFirst(groups: Groups, all: seq<Resource>, i: nat, m: Measure)
    requires i < |all|
    ensures WeightOf(groups, all[i..], m) == WeightAt(groups, all[i], m) + WeightOf(groups, all[i + 1..], m)
  {
    assert all[i..] == [all[i]] + all[i + 1..];
    WeightOfConcat(groups, [all[i]], all[i + 1..], m);
    WeightOfAppend(groups, [], all[i], m);
    assert [] + [all[i]] == [all[i]];
  }

  /** The open chunk: with it closed the chunks would be packed; `total` is its size. */
  ghost predicate Open(groups: Groups, flushes: seq<Flushed>, chunk: seq<Resource>, total: nat,
                       size: (Resource, seq<Generation>) -> nat, maxBytes: nat) {
    && total == TotalSize(groups, chunk, size)
    && if chunk == [] then flushes == [] else Packed(groups, flushes + [Flushed(chunk, Delivered)], size, maxBytes)
  }

  lemma {:induction false} NothingOpen(groups: Groups, size: (Resource, seq<Generation>) -> nat, maxBytes: nat)
    ensures Open(groups, [], [], 0, size, maxBytes)
  {
  }

  lemma {:induction false} TotalSizeAppend(groups: Groups, chunk: seq<Resource>, r: Resource, size: (Resource, seq<Generation>) -> nat)
    requires r in groups
    ensures TotalSize(groups, chunk + [r], size) == TotalSize(groups, chunk, size) + size(r, groups[r])
  {
  }

  lemma {:induction false} TotalSizePositive(groups: Groups, chunk: seq<Resource>, size: (Resource, seq<Generation>) -> nat)
    requires forall r, gens :: size(r, gens) > 0
    requires chunk != [] && chunk[|chunk| - 1] in groups
    ensures TotalSize(groups, chunk, size) > 0
  {
  }

  /** The resource still fits, or there is no limit, or the chunk is empty. */
  lemma {:induction false} Extend(groups: Groups, flushes: seq<Flushed>, chunk: seq<Resource>, total: nat,
               size: (Resource, seq<Generation>) -> nat, maxBytes: nat, r: Resource)
    requires Open(groups, flushes, chunk, total, size, maxBytes) && r in groups
    requires forall r, gens :: size(r, gens) > 0
    requires forall q :: q in chunk ==> q in groups
    requires !(maxBytes > 0 && total > 0 && total + size(r, groups[r]) > maxBytes)
    ensures Open(groups, flushes, chunk + [r], total + size(r, groups[r]), size, maxBytes)
  {
    TotalSizeAppend(groups, chunk, r, size);
    if chunk == [] {
      assert chunk + [r] == [r];
      assert flushes + [Flushed([r], Delivered)] == [Flushed([r], Delivered)];
    } else {
      TotalSizePositive(groups, chunk, size);
      ExtendLast(groups, flushes, chunk, size, maxBytes, r);
    }
  }

  lemma {:induction false} ExtendLast(groups: Groups, flushes: seq<Flushed>, chunk: seq<Resource>, size: (Resource, seq<Generation>) -> nat,
                   maxBytes: nat, r: Resource)
    requires chunk != [] && Packed(groups, flushes + [Flushed(chunk, Delivered)], size, maxBytes)
    requires maxBytes > 0 ==> TotalSize(groups, chunk + [r], size) <= maxBytes
    ensures Packed(groups, flushes + [Flushed(chunk + [r], Delivered)], size, maxBytes)
  {
    hide TotalSize;
    var before, after := flushes + [Flushed(chunk, Delivered)], flushes + [Flushed(chunk + [r], Delivered)];
    assert forall i :: 0 <= i < |flushes| ==> before[i] == flushes[i] == after[i];
    assert before[|flushes|].chunk == chunk && after[|flushes|].chunk == chunk + [r];
    forall i | 0 <= i < |after| - 1
      ensures TotalSize(groups, after[i].chunk + [after[i + 1].chunk[0]], size) > maxBytes
    {
      assert before[i].chunk == after[i].chunk && before[i + 1].chunk[0] == after[i + 1].chunk[0];
    }
  }

  /** The resource does not fit: the chunk is flushed and the resource opens the next. */
  lemma {:induction false} CloseAndStart(groups: Groups, flushes: seq<Flushed>, chunk: seq<Resource>, total: nat,
                      size: (Resource, seq<Generation>) -> nat, maxBytes: nat, r: Resource, o: Outcome)
    requires Open(groups, flushes, chunk, total, size, maxBytes) && r in groups
    requires maxBytes > 0 && total > 0 && total + size(r, groups[r]) > maxBytes
    ensures Open(groups, flushes + [Flushed(chunk, o)], [r], size(r, groups[r]), size, maxBytes)
  {
    TotalSizeAppend(groups, chunk, r, size);
    TotalSizeAppend(groups, [], r, size);
    assert [] + [r] == [r];
    var before := flushes + [Flushed(chunk, Delivered)];
    var after := flushes + [Flushed(chunk, o)] + [Flushed([r], Delivered)];
    assert before[|flushes|].chunk == chunk;
    forall i | 0 <= i < |before| ensures after[i].chunk == before[i].chunk {
    }
    assert after[|before|].chunk == [r];
  }

  /** Without a further resource the open chunk, if any, is the last. */
  lemma {:induction false} Close(groups: Groups, flushes: seq<Flushed>, chunk: seq<Resource>, total: nat,
              size: (Resource, seq<Generation>) -> nat, maxBytes: nat, o: Outcome)
    requires Open(groups, flushes, chunk, total, size, maxBytes)
    ensures Packed(groups, if chunk == [] then flushes else flushes + [Flushed(chunk, o)], size, maxBytes)
  {
    if chunk != [] {
      var before, after := flushes + [Flushed(chunk, Delivered)], flushes + [Flushed(chunk, o)];
      forall i | 0 <= i < |before| ensures after[i].chunk == before[i].chunk {
      }
    }
  }

  lemma {:induction false} NothingListed(groups: Groups, latest: int)
    ensures RetentionOk(map[], [], 0, latest)
    ensures forall m :: WeightOf(map[], [], m) == 0 && WeightOf(groups, [], m) == 0
  {
  }

  lemma {:induction false} FlushedStep(groups: Groups, flushes: seq<Flushed>, chunk: seq<Resource>, o: Outcome)
    ensures var more := flushes + [Flushed(chunk, o)];
            && Rendered(more) == Rendered(flushes) + chunk
            && (forall p :: Sent(groups, more, p) == Sent(groups, flushes, p) + (if p == o then GenerationsOf(groups, chunk) else []))
            && LostIn(more) == LostIn(flushes) + (if o.Permanent? then |chunk| else 0)
            && Rendered(more) + [] == Rendered(more)
    ensures forall m :: WeightOf(groups, [], m) == 0
  {
  }

  lemma {:induction false} FirstsStep(flushes: seq<Flushed>, chunk: seq<Resource>, o: Outcome, first: Option<nat>, perm: Option<nat>)
    requires FirstsOk(flushes, first, perm)
    ensures FirstsOk(flushes + [Flushed(chunk, o)],
                     if !o.Delivered? && first.None? then Some(|flushes|) else first,
                     if o.Permanent? && perm.None? then Some(|flushes|) else perm)
  {
  }
}
