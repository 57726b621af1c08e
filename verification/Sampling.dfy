/** The deterministic sampler of the line filter (internal/logline/linefilter.go): of the matching
    lines numbered 0, 1, ..., line k is kept when (k * keep) mod SAMPLE_DEN < keep. */
module Sampling {
  const SAMPLE_DEN: nat := 1_000_000_000

  /** Whether matching line k is inside a sample of `keep` parts per SAMPLE_DEN, with the counter
      reduced first, as the code does. */
  predicate InSample(k: nat, keep: nat) {
    k % SAMPLE_DEN * keep % SAMPLE_DEN < keep
  }

  /** How many of the lines first, ..., first + n - 1 are kept. */
  function KeptFrom(first: nat, n: nat, keep: nat): nat {
    if n == 0 then 0
    else KeptFrom(first, n - 1, keep) + if InSample(first + n - 1, keep) then 1 else 0
  }

  /** The number of whole multiples of SAMPLE_DEN in k * keep. */
  function Whole(k: nat, keep: nat): nat {
    k * keep / SAMPLE_DEN
  }

  /** Line k + 1 is kept exactly when the accumulated fraction passes a whole number there. */
  lemma {:induction false} KeptWhenWholeAdvances(k: nat, keep: nat)
    requires 0 < keep < SAMPLE_DEN
    ensures Whole(k + 1, keep) == Whole(k, keep) + if InSample(k + 1, keep) then 1 else 0
  {
    ReduceFirst(k + 1, keep);
    var before, after := k * keep, (k + 1) * keep;
    assert after == before + keep;
    assert after / SAMPLE_DEN == before / SAMPLE_DEN + if after % SAMPLE_DEN < keep then 1 else 0;
  }

  /** Reducing the counter does not change the outcome: the pattern continues across periods. */
  lemma {:induction false} ReduceFirst(k: nat, keep: nat)
    ensures k % SAMPLE_DEN * keep % SAMPLE_DEN == k * keep % SAMPLE_DEN
  {
    var q, r := k / SAMPLE_DEN, k % SAMPLE_DEN;
    assert k * keep == r * keep + (q * keep) * SAMPLE_DEN by {
      assert k == r + q * SAMPLE_DEN;
      Distribute(r, q, keep);
    }
    AddMultiple(r * keep, q * keep);
  }

  lemma {:induction false} Distribute(r: nat, q: nat, keep: nat)
    ensures (r + q * SAMPLE_DEN) * keep == r * keep + (q * keep) * SAMPLE_DEN
  {
  }

  lemma {:induction false} AddMultiple(a: nat, m: nat)
    ensures (a + m * SAMPLE_DEN) % SAMPLE_DEN == a % SAMPLE_DEN
  {
  }

  /** The exact count: among the first n >= 1 matching lines, 1 + floor((n - 1) * keep / DEN). */
  lemma {:induction false} KeptAmongFirst(n: nat, keep: nat)
    requires 0 < keep < SAMPLE_DEN && n >= 1
    ensures KeptFrom(0, n, keep) == 1 + Whole(n - 1, keep)
  {
    if n == 1 {
      assert InSample(0, keep);
      assert KeptFrom(0, 1, keep) == KeptFrom(0, 0, keep) + 1;
    } else {
      KeptAmongFirst(n - 1, keep);
      KeptWhenWholeAdvances(n - 2, keep);
    }
  }

  /** Evenly spread: the count is always within one of the exact share. */
  lemma {:induction false} WithinOneOfShare(n: nat, keep: nat)
    requires 0 < keep < SAMPLE_DEN && n >= 1
    ensures n * keep - SAMPLE_DEN < KeptFrom(0, n, keep) * SAMPLE_DEN < n * keep + SAMPLE_DEN
  {
    KeptAmongFirst(n, keep);
    var before := (n - 1) * keep;
    assert n * keep == before + keep;
    assert before - SAMPLE_DEN < before / SAMPLE_DEN * SAMPLE_DEN <= before;
  }

  lemma {:induction false} KeptFromSplit(a: nat, b: nat, keep: nat)
    ensures KeptFrom(0, a + b, keep) == KeptFrom(0, a, keep) + KeptFrom(a, b, keep)
  {
    if b > 0 {
      KeptFromSplit(a, b - 1, keep);
    }
  }

  /** Exactly `keep` of every SAMPLE_DEN consecutive matching lines, wherever the run starts. */
  lemma {:induction false} ExactlyKeepPerPeriod(first: nat, keep: nat)
    requires 0 < keep < SAMPLE_DEN
    ensures KeptFrom(first, SAMPLE_DEN, keep) == keep
  {
    KeptFromSplit(first, SAMPLE_DEN, keep);
    KeptAmongFirst(first + SAMPLE_DEN, keep);
    if first == 0 {
      assert (SAMPLE_DEN - 1) * keep == keep * SAMPLE_DEN - keep;
      assert Whole(SAMPLE_DEN - 1, keep) == keep - 1;
    } else {
      KeptAmongFirst(first, keep);
      assert (first - 1 + SAMPLE_DEN) * keep == (first - 1) * keep + keep * SAMPLE_DEN;
      assert Whole(first - 1 + SAMPLE_DEN, keep) == Whole(first - 1, keep) + keep;
    }
  }

  /** For a reciprocal whose period divides SAMPLE_DEN, the kept lines are every period-th one. */
  lemma {:induction false} ReciprocalKeepsEveryNth(k: nat, keep: nat, period: nat)
    requires keep > 0 && keep * period == SAMPLE_DEN
    ensures InSample(k, keep) <==> k % period == 0
  {
    ReduceFirst(k, keep);
    SplitByPeriod(k, keep, period);
    SmallMultiple(period, k % period, keep);
    FromRemainder(k % period * keep, k / period);
  }

  lemma {:induction false} SplitByPeriod(k: nat, keep: nat, period: nat)
    requires keep * period == SAMPLE_DEN
    ensures k * keep == k % period * keep + k / period * SAMPLE_DEN
  {
  }

  lemma {:induction false} FromRemainder(x: nat, q: nat)
    requires x < SAMPLE_DEN
    ensures (x + q * SAMPLE_DEN) % SAMPLE_DEN == x
  {
  }

  lemma {:induction false} SmallMultiple(period: nat, r: nat, keep: nat)
    requires keep * period == SAMPLE_DEN && r < period && keep > 0
    ensures r * keep < SAMPLE_DEN && (r * keep < keep <==> r == 0)
  {
    assert (period - r) * keep >= keep;
    if r > 0 {
      assert r * keep == (r - 1) * keep + keep;
    }
  }

  /** The product stays inside 64 bits. */
  lemma {:induction false} ProductFits(k: nat, keep: nat)
    requires keep < SAMPLE_DEN
    ensures k % SAMPLE_DEN * keep < 0x1_0000_0000_0000_0000
  {
  }
}
