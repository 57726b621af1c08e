/** A throttle that many callers race for, and the outage reporter built on it
    (internal/logdedupe/logdedupe.go). Times are nanoseconds since the process's epoch. */
module Throttling {
  const SECOND: nat := 1_000_000_000

  /** What one claim decides, from the stamp the caller loaded and the one now stored: the verdict
      and the stored stamp after it. A stamp of 0 means nothing has fired. */
  function Claimed(stored: int, loaded: int, now: int, interval: int): (bool, int) {
    if loaded != 0 && now - loaded < interval then (false, stored)
    else if stored == loaded then (true, now)
    else (false, stored)
  }

  class Throttle {
    var last: int

    constructor ()
      ensures last == 0
    {
      last := 0;
    }

    method CompareAndSwap(expected: int, stamp: int) returns (swapped: bool)
      modifies this
      ensures swapped == (old(last) == expected) && last == if swapped then stamp else old(last)
    {
      swapped := last == expected;
      if swapped {
        last := stamp;
      }
    }

    method Claim(loaded: int, now: int, interval: int) returns (won: bool)
      modifies this
      ensures (won, last) == Claimed(old(last), loaded, now, interval)
    {
      if loaded != 0 && now - loaded < interval {
        return false;
      }
      won := CompareAndSwap(loaded, now);
    }

    /** Allow for a caller nobody races: it fires when nothing has, or the interval has passed. */
    method AllowAt(now: nat, interval: int) returns (won: bool)
      modifies this
      ensures won <==> old(last) == 0 || now + 1 - old(last) >= interval
      ensures last == if won then now + 1 else old(last)
    {
      won := Claim(last, now + 1, interval);
    }

    method StampAt(now: nat)
      modifies this
      ensures last == now + 1
    {
      last := now + 1;
    }
  }

  // ----- Racing callers -----

  /** A caller between its steps: it read the clock, then loaded the stamp, then claims. */
  datatype Caller =
    | Timed(now: nat, interval: int)
    | Loaded(now: nat, interval: int, loaded: int)

  /** One step of one caller; steps of different callers interleave in any order. */
  datatype Step =
    | ReadClock(id: nat, now: nat, interval: int)
    | Load(id: nat)
    | Swap(id: nat)

  /** A caller that was told to log: its stamp, its interval, and the stamp it had loaded. */
  datatype Win = Win(stamp: int, interval: int, loaded: int)

  datatype Race = Race(last: int, callers: map<nat, Caller>, wins: seq<Win>)

  function Next(r: Race, step: Step): Race {
    match step
    case ReadClock(id, now, interval) => r.(callers := r.callers[id := Timed(now, interval)])
    case Load(id) =>
      if id in r.callers && r.callers[id].Timed? then
        r.(callers := r.callers[id := Loaded(r.callers[id].now, r.callers[id].interval, r.last)])
      else r
    case Swap(id) =>
      if id in r.callers && r.callers[id].Loaded? then
        var c := r.callers[id];
        var (won, stored) := Claimed(r.last, c.loaded, c.now + 1, c.interval);
        Race(stored, r.callers - {id}, if won then r.wins + [Win(c.now + 1, c.interval, c.loaded)] else r.wins)
      else r
  }

  function Raced(steps: seq<Step>): Race {
    if steps == [] then Race(0, map[], []) else Next(Raced(steps[..|steps| - 1]), steps[|steps| - 1])
  }

  /** The wins are chained: each loaded just the stamp of the win before it and lies its own interval
      or more behind it. */
  ghost predicate Chained(r: Race) {
    && (r.wins == [] ==> r.last == 0)
    && (r.wins != [] ==> r.last == r.wins[|r.wins| - 1].stamp)
    && (forall i :: 0 <= i < |r.wins| ==> r.wins[i].stamp > 0)
    && (r.wins != [] ==> r.wins[0].loaded == 0)
    && forall i :: 0 < i < |r.wins| ==>
         r.wins[i].loaded == r.wins[i - 1].stamp && r.wins[i].stamp - r.wins[i - 1].stamp >= r.wins[i].interval
  }

  lemma {:induction false} NextKeepsChain(r: Race, step: Step)
    requires Chained(r)
    ensures Chained(Next(r, step))
  {
    if step.Swap? && step.id in r.callers && r.callers[step.id].Loaded? {
      var c := r.callers[step.id];
      if Claimed(r.last, c.loaded, c.now + 1, c.interval).0 {
        assert r.wins != [] ==> c.loaded == r.wins[|r.wins| - 1].stamp && c.loaded != 0;
      }
    }
  }

  /** In every interleaving: winners are spaced by their own intervals, however the races went. */
  lemma {:induction false} WinnersAreSpaced(steps: seq<Step>)
    ensures Chained(Raced(steps))
  {
    if steps != [] {
      WinnersAreSpaced(steps[..|steps| - 1]);
      NextKeepsChain(Raced(steps[..|steps| - 1]), steps[|steps| - 1]);
    }
  }

  lemma {:induction false} StampsGrow(r: Race, i: nat, j: nat)
    requires Chained(r) && i < j < |r.wins|
    requires forall k :: i < k <= j ==> r.wins[k].interval > 0
    ensures r.wins[i].stamp < r.wins[j].stamp
  {
    if i < j - 1 {
      StampsGrow(r, i, j - 1);
    }
    assert r.wins[j].interval > 0;
  }

  /** The loser rule: of all the callers that loaded one stamp, at most one is ever told to log, unless
      one that won in between asked with no interval. */
  lemma {:induction false} OneWinnerPerStamp(steps: seq<Step>, i: nat, j: nat)
    requires i < j < |Raced(steps).wins|
    requires forall k :: i <= k < j ==> Raced(steps).wins[k].interval > 0
    ensures Raced(steps).wins[i].loaded != Raced(steps).wins[j].loaded
  {
    var r := Raced(steps);
    WinnersAreSpaced(steps);
    assert r.wins[j].loaded == r.wins[j - 1].stamp > 0;
    if i > 0 {
      assert r.wins[i].loaded == r.wins[i - 1].stamp;
      StampsGrow(r, i - 1, j - 1);
    }
  }

  /** Every caller of a race asks with interval d. */
  ghost predicate AllAsk(steps: seq<Step>, d: int) {
    forall i :: 0 <= i < |steps| && steps[i].ReadClock? ==> steps[i].interval == d
  }

  /** No two callers that loaded one stamp were both told to log. */
  ghost predicate LosersSilent(r: Race) {
    forall i, j :: 0 <= i < j < |r.wins| ==> r.wins[i].loaded != r.wins[j].loaded
  }

  lemma {:induction false} AskedIntervals(steps: seq<Step>, d: int)
    requires AllAsk(steps, d)
    ensures forall id :: id in Raced(steps).callers ==> Raced(steps).callers[id].interval == d
    ensures forall i :: 0 <= i < |Raced(steps).wins| ==> Raced(steps).wins[i].interval == d
  {
    if steps != [] {
      AskedIntervals(steps[..|steps| - 1], d);
    }
  }

  lemma {:induction false} RacedOn(steps: seq<Step>, step: Step)
    ensures Raced(steps + [step]) == Next(Raced(steps), step)
  {
    assert (steps + [step])[..|steps + [step]| - 1] == steps;
  }

  /** One caller, from its clock reading to its swap. */
  function Alone(id: nat, now: nat, d: int): seq<Step> {
    [ReadClock(id, now, d), Load(id), Swap(id)]
  }

  lemma {:induction false} FirstFires(now: nat, d: int)
    ensures Raced(Alone(0, now, d)) == Race(now + 1, map[], [Win(now + 1, d, 0)])
  {
    var s := Alone(0, now, d);
    assert s[..1] == [] + [s[0]] && s[..2] == s[..1] + [s[1]] && s == s[..2] + [s[2]];
    RacedOn([], s[0]);
    RacedOn(s[..1], s[1]);
    RacedOn(s[..2], s[2]);
    assert Raced(s).callers == map[];
  }

  /** After a first fire, two callers read the clock at that same instant, both load, both swap. */
  function Rematch(now: nat, d: int): seq<Step> {
    Alone(0, now, d) +
    [ReadClock(1, now, d)] + [Load(1)] + [ReadClock(2, now, d)] + [Load(2)] + [Swap(1)] + [Swap(2)]
  }

  /** Both of them have loaded the stamp of the first fire. */
  lemma {:induction false} BothLoad(now: nat, d: int)
    ensures Raced(Rematch(now, d)[..7]) ==
      Race(now + 1, map[1 := Loaded(now, d, now + 1), 2 := Loaded(now, d, now + 1)], [Win(now + 1, d, 0)])
  {
    var s := Rematch(now, d);
    FirstFires(now, d);
    assert s[..3] == Alone(0, now, d) && s[..4] == s[..3] + [s[3]] && s[..5] == s[..4] + [s[4]];
    assert s[..6] == s[..5] + [s[5]] && s[..7] == s[..6] + [s[6]];
    RacedOn(s[..3], s[3]);
    RacedOn(s[..4], s[4]);
    RacedOn(s[..5], s[5]);
    RacedOn(s[..6], s[6]);
  }

  /** With no interval a stamp is replaced by itself, which does not make the second swap fail. */
  lemma {:induction false} BothWin(now: nat, d: int)
    requires d <= 0
    ensures AllAsk(Rematch(now, d), d) && !LosersSilent(Raced(Rematch(now, d)))
  {
    var s := Rematch(now, d);
    BothLoad(now, d);
    assert s[..8] == s[..7] + [Swap(1)] && s == s[..8] + [Swap(2)];
    RacedOn(s[..7], Swap(1));
    RacedOn(s[..8], Swap(2));
    assert Raced(s).wins[1] == Win(now + 1, d, now + 1) && Raced(s).wins[2] == Win(now + 1, d, now + 1);
  }

  /** The loser rule, exactly: callers that ask with interval d never log twice over one stamp, in any
      interleaving, if and only if d is positive. */
  lemma {:induction false} LoserRuleIff(d: int)
    ensures (forall steps :: AllAsk(steps, d) ==> LosersSilent(Raced(steps))) <==> d > 0
  {
    if d > 0 {
      forall steps | AllAsk(steps, d) ensures LosersSilent(Raced(steps)) {
        AskedIntervals(steps, d);
        forall i, j | 0 <= i < j < |Raced(steps).wins|
          ensures Raced(steps).wins[i].loaded != Raced(steps).wins[j].loaded
        {
          OneWinnerPerStamp(steps, i, j);
        }
      }
    } else {
      BothWin(0, d);
    }
  }

  // ----- Outages -----

  /** time.Duration.Round to a second: the nearest multiple, halves away from zero. */
  function RoundToSecond(d: int): int
    decreases d < 0
  {
    if d < 0 then -RoundToSecond(-d)
    else if d % SECOND + d % SECOND < SECOND then d - d % SECOND
    else d + SECOND - d % SECOND
  }

  /** A whole second at most half a second away; of two equally near, the one away from zero. */
  ghost predicate NearestSecond(d: int, r: int) {
    && r % SECOND == 0
    && -(SECOND as int) <= 2 * (r - d) <= SECOND
    && (2 * (r - d) == SECOND ==> d >= 0) && (2 * (r - d) == -(SECOND as int) ==> d < 0)
  }

  lemma {:induction false} RoundedIsNearest(d: int)
    ensures NearestSecond(d, RoundToSecond(d))
    decreases d < 0
  {
    if d < 0 {
      RoundedIsNearest(-d);
      WholeSeconds(-(RoundToSecond(-d) / SECOND));
    } else {
      assert d == d / SECOND * SECOND + d % SECOND;
      WholeSeconds(d / SECOND);
      WholeSeconds(d / SECOND + 1);
    }
  }

  /** There is just one nearest second. */
  lemma {:induction false} NearestIsRounded(d: int, r: int)
    requires NearestSecond(d, r)
    ensures r == RoundToSecond(d)
  {
    hide RoundToSecond;
    RoundedIsNearest(d);
    SecondsApart(r, RoundToSecond(d));
  }

  /** Two whole seconds are the same or at least one second apart. */
  lemma {:induction false} SecondsApart(a: int, b: int)
    requires a % SECOND == 0 && b % SECOND == 0
    ensures a == b || a - b >= SECOND || b - a >= SECOND
  {
    var m, n := a / SECOND, b / SECOND;
    assert a == m * SECOND && b == n * SECOND;
    assert m == n || m >= n + 1 || n >= m + 1;
  }

  lemma {:induction false} WholeSeconds(n: int)
    ensures n * SECOND % SECOND == 0
  {
  }

  /** The open run of failures (none when failures is 0), and the stamp of the last loud line. */
  datatype OutageState = OutageState(failures: nat, since: int, last: int)

  datatype FailVerdict = FailVerdict(first: bool, loud: bool)
  datatype RecoverVerdict = RecoverVerdict(failures: nat, lasted: int, ok: bool)

  function Failed(o: OutageState, now: nat, every: int): (OutageState, FailVerdict) {
    if o.failures == 0 then (OutageState(1, now, now + 1), FailVerdict(true, true))
    else
      var (loud, last) := Claimed(o.last, o.last, now + 1, every);
      (OutageState(o.failures + 1, o.since, last), FailVerdict(false, loud))
  }

  function Recovered(o: OutageState, now: nat): (OutageState, RecoverVerdict) {
    if o.failures == 0 then (o, RecoverVerdict(0, 0, false))
    else (OutageState(0, 0, o.last), RecoverVerdict(o.failures, RoundToSecond(now - o.since), true))
  }

  class Outage {
    var failures: nat
    var since: int
    const warn: Throttle

    constructor ()
      ensures fresh(warn) && State() == OutageState(0, 0, 0)
    {
      failures, since := 0, 0;
      warn := new Throttle();
    }

    ghost function State(): OutageState
      reads this, warn
    {
      OutageState(failures, since, warn.last)
    }

    method Fail(now: nat, every: int) returns (first: bool, loud: bool)
      modifies this, warn
      ensures (State(), FailVerdict(first, loud)) == Failed(old(State()), now, every)
    {
      failures := failures + 1;
      if failures == 1 {
        since := now;
        warn.StampAt(now);
        return true, true;
      }
      first := false;
      loud := warn.AllowAt(now, every);
    }

    /** Whole seconds, as near as can be to how long the open run has lasted; 0 outside a run. */
    method Lasted(now: nat) returns (d: int)
      ensures failures == 0 ==> d == 0
      ensures failures > 0 ==> NearestSecond(now - since, d)
    {
      if failures == 0 {
        return 0;
      }
      d := RoundToSecond(now - since);
      RoundedIsNearest(now - since);
    }

    method Recover(now: nat) returns (count: nat, lasted: int, ok: bool)
      modifies this
      ensures (State(), RecoverVerdict(count, lasted, ok)) == Recovered(old(State()), now)
    {
      if failures == 0 {
        return 0, 0, false;
      }
      lasted := Lasted(now);
      NearestIsRounded(now - since, lasted);
      count := failures;
      failures, since := 0, 0;
      ok := true;
    }
  }

  datatype Report = Fail(now: nat, every: int) | Recover(now: nat)

  /** A loud line: when, whether it opened a run, and the interval it was asked with. */
  datatype Loud = Loud(now: nat, first: bool, every: int)

  /** A whole history: the state it led to, its loud lines, and its failures, in all and as reported
      by recoveries. */
  datatype History = History(state: OutageState, loud: seq<Loud>, total: nat, reported: nat)

  function Told(h: History, r: Report): History {
    match r
    case Fail(now, every) =>
      var (state, v) := Failed(h.state, now, every);
      History(state, if v.loud then h.loud + [Loud(now, v.first, every)] else h.loud, h.total + 1, h.reported)
    case Recover(now) =>
      var (state, v) := Recovered(h.state, now);
      History(state, h.loud, h.total, h.reported + v.failures)
  }

  function Histories(reports: seq<Report>): History {
    if reports == [] then History(OutageState(0, 0, 0), [], 0, 0)
    else Told(Histories(reports[..|reports| - 1]), reports[|reports| - 1])
  }

  /** What a reader of the loud lines may rely on. */
  ghost predicate Honest(h: History) {
    && h.reported + h.state.failures == h.total
    && (h.loud == [] ==> h.state.last == 0 && h.state.failures == 0)
    && (h.loud != [] ==> h.state.last == h.loud[|h.loud| - 1].now + 1 && h.loud[0].first)
    && forall i :: 0 < i < |h.loud| && !h.loud[i].first ==>
         h.loud[i].now - h.loud[i - 1].now >= h.loud[i].every
  }

  lemma {:induction false} ToldStaysHonest(h: History, r: Report)
    requires Honest(h)
    ensures Honest(Told(h, r))
  {
  }

  /** Over any history: failures reported by recoveries and those of the open run are all the
      failures, and a loud line that opens no run comes `every` or more after the one before. */
  lemma {:induction false} HistoriesAreHonest(reports: seq<Report>)
    ensures Honest(Histories(reports))
  {
    if reports != [] {
      HistoriesAreHonest(reports[..|reports| - 1]);
      ToldStaysHonest(Histories(reports[..|reports| - 1]), reports[|reports| - 1]);
    }
  }

  /** How many runs of failures a history opens: failures that follow nothing or a recovery. */
  function Openings(reports: seq<Report>): nat {
    if reports == [] then 0
    else
      var n := |reports| - 1;
      Openings(reports[..n]) + if reports[n].Fail? && (n == 0 || reports[n - 1].Recover?) then 1 else 0
  }

  function Firsts(loud: seq<Loud>): nat {
    if loud == [] then 0 else Firsts(loud[..|loud| - 1]) + if loud[|loud| - 1].first then 1 else 0
  }

  lemma {:induction false} FirstsOn(loud: seq<Loud>, l: Loud)
    ensures Firsts(loud + [l]) == Firsts(loud) + if l.first then 1 else 0
  {
    assert (loud + [l])[..|loud + [l]| - 1] == loud;
  }

  lemma {:induction false} NoFirsts()
    ensures Firsts([]) == 0
  {
  }

  /** A report adds an opening line just when it is a failure outside a run. */
  lemma {:induction false} ToldFirsts(h: History, r: Report)
    ensures Firsts(Told(h, r).loud) == Firsts(h.loud) + if r.Fail? && h.state.failures == 0 then 1 else 0
  {
    hide Firsts;
    if r.Fail? {
      FirstsOn(h.loud, Loud(r.now, h.state.failures == 0, r.every));
    }
  }

  /** After a report a run is open just when it was a failure. */
  lemma {:induction false} ToldOpens(h: History, r: Report)
    ensures Told(h, r).state.failures > 0 <==> r.Fail?
  {
  }

  lemma {:induction false} OpenIffFailing(reports: seq<Report>)
    ensures Histories(reports).state.failures > 0 <==> reports != [] && reports[|reports| - 1].Fail?
  {
    hide Told;
    if reports != [] {
      ToldOpens(Histories(reports[..|reports| - 1]), reports[|reports| - 1]);
    }
  }

  /** Every run opens with one loud line of its own, whatever was logged moments before, and no other line
      claims to open one. */
  lemma {:induction false} EveryRunOpensLoud(reports: seq<Report>)
    ensures Firsts(Histories(reports).loud) == Openings(reports)
  {
    hide Told, Firsts;
    if reports == [] {
      NoFirsts();
    } else {
      var n := |reports| - 1;
      EveryRunOpensLoud(reports[..n]);
      OpenIffFailing(reports[..n]);
      ToldFirsts(Histories(reports[..n]), reports[n]);
      assert n > 0 ==> reports[..n][n - 1] == reports[n - 1];
    }
  }

  lemma {:induction false} HistoriesOn(reports: seq<Report>, r: Report)
    ensures Histories(reports + [r]) == Told(Histories(reports), r)
  {
    assert (reports + [r])[..|reports + [r]| - 1] == reports;
  }

  /** Exactly which failures are loud: those that open a run, and those the interval or more behind the last
      loud line. */
  lemma {:induction false} LoudIff(reports: seq<Report>, now: nat, every: int)
    ensures
      var h := Histories(reports);
      var opens := reports == [] || reports[|reports| - 1].Recover?;
      && (!opens ==> h.loud != [])
      && Histories(reports + [Fail(now, every)]).loud ==
         h.loud + if opens || now - h.loud[|h.loud| - 1].now >= every then [Loud(now, opens, every)] else []
  {
    hide Histories;
    HistoriesAreHonest(reports);
    OpenIffFailing(reports);
    HistoriesOn(reports, Fail(now, every));
  }

  /** When the run that a history ends in was opened. */
  function RunStart(reports: seq<Report>): nat
    requires reports != [] && reports[|reports| - 1].Fail?
  {
    var n := |reports| - 1;
    if n == 0 || reports[n - 1].Recover? then reports[n].now else RunStart(reports[..n])
  }

  lemma {:induction false} RunsAreTimed(reports: seq<Report>)
    requires reports != [] && reports[|reports| - 1].Fail?
    ensures Histories(reports).state.since == RunStart(reports)
  {
    hide Told;
    var n := |reports| - 1;
    OpenIffFailing(reports[..n]);
    if n > 0 && reports[n - 1].Fail? {
      RunsAreTimed(reports[..n]);
    }
    FailKeepsStart(Histories(reports[..n]), reports[n]);
  }

  lemma {:induction false} FailKeepsStart(h: History, r: Report)
    requires r.Fail?
    ensures Told(h, r).state.since == if h.state.failures == 0 then r.now else h.state.since
  {
  }

  /** Over any history, what a recovery tells: nothing outside a run; in one, all its failures that no recovery
      reported before, and the whole seconds nearest to the time since it was opened. */
  lemma {:induction false} RecoveryTellsTheRun(reports: seq<Report>, now: nat)
    ensures
      var v := Recovered(Histories(reports).state, now).1;
      if reports != [] && reports[|reports| - 1].Fail?
      then v.ok && v.failures == Histories(reports).total - Histories(reports).reported > 0 && NearestSecond(now - RunStart(reports), v.lasted)
      else v == RecoverVerdict(0, 0, false)
  {
    hide Histories, RunStart;
    HistoriesAreHonest(reports);
    OpenIffFailing(reports);
    if reports != [] && reports[|reports| - 1].Fail? {
      RunsAreTimed(reports);
      RoundedIsNearest(now - RunStart(reports));
    }
  }
}

/** The bounded table that suppresses repeats key by key (internal/logdedupe/logdedupe.go). Clock readings are positive and do not
    decrease, since they are taken under the table's lock. */
module Suppression {
  import opened Bytes
  import opened Sets

  /** What the table promises, without its shortcut: the keys it holds with the time each last logged,
      and whether it has ever said that it was full. */
  datatype Naive = Naive(seen: map<Text, int>, saturated: bool)

  datatype Verdict = Verdict(allow: bool, saturated: bool)

  function Swept(seen: map<Text, int>, now: int, window: int): map<Text, int> {
    map k | k in seen && now - seen[k] < window :: seen[k]
  }

  /** The plain table: a full one is swept at every new key. */
  function Allowed(t: Naive, key: Text, now: int, max: nat, window: int): (Naive, Verdict) {
    if key in t.seen then
      if window <= 0 || now - t.seen[key] < window then (t, Verdict(false, false))
      else (t.(seen := t.seen[key := now]), Verdict(true, false))
    else
      var seen := if |t.seen| >= max && window > 0 then Swept(t.seen, now, window) else t.seen;
      if |seen| >= max then (Naive(seen, true), Verdict(false, !t.saturated))
      else (Naive(seen[key := now], t.saturated), Verdict(true, false))
  }

  /** The stored bound is never late: no entry can expire before it. */
  ghost predicate NeverLate(seen: map<Text, int>, reclaimAt: int, window: int, clock: int) {
    && (forall k :: k in seen ==> 0 < seen[k] <= clock)
    && (reclaimAt != 0 ==> reclaimAt <= clock + window && forall k :: k in seen ==> reclaimAt <= seen[k] + window)
  }

  /** A bound set by a sweep: the earliest expiry of what survived, or 0 when nothing did. */
  ghost predicate EarliestExpiry(seen: map<Text, int>, reclaimAt: int, window: int) {
    && (reclaimAt == 0 <==> seen == map[])
    && (seen != map[] ==> exists k :: k in seen && reclaimAt == seen[k] + window)
    && forall k :: k in seen ==> reclaimAt <= seen[k] + window
  }

  /** Before the bound a sweep frees nothing. */
  lemma {:induction false} SweepFreesNothing(seen: map<Text, int>, reclaimAt: int, window: int, clock: int, now: int)
    requires NeverLate(seen, reclaimAt, window, clock) && now < reclaimAt
    requires 0 < now
    ensures Swept(seen, now, window) == seen
  {
  }

  class Table {
    var seen: map<Text, int>
    var saturated: bool
    var reclaimAt: int
    var sweeps: nat
    const max: nat
    const window: int
    /** The last clock reading. */
    ghost var clock: int

    ghost predicate Valid()
      reads this
    {
      0 <= clock && NeverLate(seen, reclaimAt, window, clock) && |seen| <= max && 0 < max
    }

    ghost function State(): Naive
      reads this
    {
      Naive(seen, saturated)
    }

    constructor (limit: int, window: int)
      ensures Valid() && State() == Naive(map[], false)
      ensures max == (if limit < 1 then 1 else limit) && this.window == window && clock == 0
    {
      max := if limit < 1 then 1 else limit;
      this.window := window;
      seen, saturated, reclaimAt, sweeps := map[], false, 0, 0;
      clock := 0;
    }

    /** Answers and table are those of the plain table, though the sweep is skipped until the bound. */
    method Allow(key: Text, now: int) returns (allow: bool, full: bool)
      requires Valid() && 0 < now && clock <= now
      modifies this
      ensures Valid() && clock == now
      ensures (State(), Verdict(allow, full)) == Allowed(old(State()), key, now, max, window)
    {
      clock := now;
      if key in seen {
        if window <= 0 || now - seen[key] < window {
          return false, false;
        }
        seen := seen[key := now];
        return true, false;
      }
      if |seen| >= max {
        if window > 0 && now >= reclaimAt {
          Reclaim(now);
        } else if window > 0 {
          SweepFreesNothing(seen, reclaimAt, window, old(clock), now);
        }
        if |seen| >= max {
          var first := !saturated;
          saturated := true;
          return false, first;
        }
      }
      seen := seen[key := now];
      return true, false;
    }

    /** One pass over the entries: the expired go, and the earliest expiry of the rest is noted. */
    method Reclaim(now: int)
      requires window > 0 && 0 < now && clock == now && (forall k :: k in seen ==> 0 < seen[k] <= now)
      modifies this
      ensures seen == Swept(old(seen), now, window) && |seen| <= old(|seen|)
      ensures EarliestExpiry(seen, reclaimAt, window) && NeverLate(seen, reclaimAt, window, now)
      ensures saturated == old(saturated) && clock == old(clock)
    {
      hide Sweeping, EarliestExpiry, NeverLate, Swept;
      sweeps := sweeps + 1;
      var oldest := 0;
      var todo := seen.Keys;
      SweepStarts(seen, now, window);
      while todo != {}
        invariant Sweeping(old(seen), seen, todo, oldest, now, window)
        invariant saturated == old(saturated) && clock == old(clock)
        decreases todo
      {
        var k :| k in todo;
        SweepStep(old(seen), seen, todo, oldest, now, window, k);
        var at := seen[k];
        todo := todo - {k};
        if now - at >= window {
          seen := seen - {k};
          continue;
        }
        if oldest == 0 || at < oldest {
          oldest := at;
        }
      }
      SweepEnds(old(seen), seen, oldest, now, window);
      reclaimAt := 0;
      if oldest != 0 {
        reclaimAt := oldest + window;
      }
    }
  }

  /** Midway through a sweep: the entries not yet visited are as they were, of the others only the
      live ones are left, and `oldest` is the least of those, or 0. */
  ghost predicate Sweeping(before: map<Text, int>, seen: map<Text, int>, todo: set<Text>, oldest: int, now: int, window: int) {
    && todo <= seen.Keys <= before.Keys
    && (forall k :: k in before ==> 0 < before[k] <= now)
    && (forall k :: k in seen ==> seen[k] == before[k])
    && (forall k :: k in before && k !in todo ==> (k in seen <==> now - before[k] < window))
    && (oldest == 0 <==> seen.Keys == todo)
    && (oldest != 0 ==> exists k :: k in seen && k !in todo && seen[k] == oldest)
    && forall k :: k in seen && k !in todo ==> 0 < oldest <= seen[k]
  }

  lemma {:induction false} SweepStarts(seen: map<Text, int>, now: int, window: int)
    requires forall k :: k in seen ==> 0 < seen[k] <= now
    ensures Sweeping(seen, seen, seen.Keys, 0, now, window)
  {
  }

  lemma {:induction false} SweepStep(before: map<Text, int>, seen: map<Text, int>, todo: set<Text>, oldest: int, now: int, window: int, k: Text)
    requires Sweeping(before, seen, todo, oldest, now, window) && k in todo
    ensures k in seen
    ensures now - seen[k] >= window ==> Sweeping(before, seen - {k}, todo - {k}, oldest, now, window)
    ensures now - seen[k] < window ==>
      Sweeping(before, seen, todo - {k}, if oldest == 0 || seen[k] < oldest then seen[k] else oldest, now, window)
  {
  }

  lemma {:induction false} SweepEnds(before: map<Text, int>, seen: map<Text, int>, oldest: int, now: int, window: int)
    requires Sweeping(before, seen, {}, oldest, now, window) && window > 0
    ensures seen == Swept(before, now, window) && |seen| <= |before|
    ensures EarliestExpiry(seen, if oldest != 0 then oldest + window else 0, window)
    ensures NeverLate(seen, if oldest != 0 then oldest + window else 0, window, now)
  {
    assert seen == Swept(before, now, window);
    FewerKeys(seen, before);
  }

  lemma {:induction false} FewerKeys(a: map<Text, int>, b: map<Text, int>)
    requires a.Keys <= b.Keys
    ensures |a| <= |b|
  {
    assert |a.Keys| <= |b.Keys| by {
      SubsetSize(a.Keys, b.Keys);
    }
    assert |a| == |a.Keys| && |b| == |b.Keys|;
  }

  // ----- Runs -----

  datatype Call = Call(key: Text, now: int)

  /** A run of calls: the table, the calls that were allowed, and how often fullness was announced. */
  datatype Logged = Logged(table: Naive, allowed: seq<Call>, notices: nat, clock: int)

  function Answered(l: Logged, c: Call, max: nat, window: int): Logged {
    var (table, v) := Allowed(l.table, c.key, c.now, max, window);
    Logged(table,
           if v.allow then l.allowed + [c] else l.allowed,
           if v.saturated then l.notices + 1 else l.notices,
           c.now)
  }

  function Ran(calls: seq<Call>, max: nat, window: int): Logged {
    if calls == [] then Logged(Naive(map[], false), [], 0, 0)
    else Answered(Ran(calls[..|calls| - 1], max, window), calls[|calls| - 1], max, window)
  }

  ghost predicate Ordered(calls: seq<Call>) {
    && (forall i :: 0 <= i < |calls| ==> 0 < calls[i].now)
    && forall i, j :: 0 <= i < j < |calls| ==> calls[i].now <= calls[j].now
  }

  /** Every allowed call is still remembered at its time or later, or its window is over. */
  ghost predicate Remembered(l: Logged, window: int) {
    forall i :: 0 <= i < |l.allowed| ==>
      var e := l.allowed[i];
      (e.key in l.table.seen && e.now <= l.table.seen[e.key]) || (window > 0 && e.now + window <= l.clock)
  }

  /** Two lines about one key are a window apart; with no window there is only ever one. */
  ghost predicate Spaced(allowed: seq<Call>, window: int) {
    forall i, j :: 0 <= i < j < |allowed| && allowed[i].key == allowed[j].key ==>
      window > 0 && allowed[i].now + window <= allowed[j].now
  }

  lemma {:induction false} AnsweredKeepsMemory(l: Logged, c: Call, max: nat, window: int)
    requires Remembered(l, window) && l.clock <= c.now
    requires forall k :: k in l.table.seen ==> l.table.seen[k] <= l.clock
    ensures Remembered(Answered(l, c, max, window), window)
    ensures forall k :: k in Answered(l, c, max, window).table.seen ==>
      Answered(l, c, max, window).table.seen[k] <= c.now
  {
    var after := Answered(l, c, max, window);
    forall i | 0 <= i < |after.allowed|
      ensures
        var e := after.allowed[i];
        (e.key in after.table.seen && e.now <= after.table.seen[e.key]) || (window > 0 && e.now + window <= c.now)
    {
      if i < |l.allowed| {
        assert after.allowed[i] == l.allowed[i];
      }
    }
  }

  lemma {:induction false} AnsweredKeepsSpacing(l: Logged, c: Call, max: nat, window: int)
    requires Remembered(l, window) && Spaced(l.allowed, window) && l.clock <= c.now
    ensures Spaced(Answered(l, c, max, window).allowed, window)
  {
  }

  lemma {:induction false} AnsweredKeepsBounds(l: Logged, c: Call, max: nat, window: int)
    requires |l.table.seen| <= max && l.notices == (if l.table.saturated then 1 else 0)
    ensures |Answered(l, c, max, window).table.seen| <= max
    ensures Answered(l, c, max, window).notices == if Answered(l, c, max, window).table.saturated then 1 else 0
  {
    var seen := l.table.seen;
    if c.key in seen {
      assert seen[c.key := c.now].Keys == seen.Keys;
    } else {
      FewerKeys(Swept(seen, c.now, window), seen);
    }
  }

  /** Over any run on an ordered clock: the table stays within its limit, fullness is announced at
      most once, and lines about one key are a window apart (once ever, with no window). */
  lemma {:induction false} RunsAreBounded(calls: seq<Call>, max: nat, window: int)
    requires Ordered(calls)
    ensures
      var l := Ran(calls, max, window);
      && |l.table.seen| <= max
      && l.notices == (if l.table.saturated then 1 else 0)
      && Spaced(l.allowed, window)
      && Remembered(l, window)
      && (forall k :: k in l.table.seen ==> l.table.seen[k] <= l.clock)
      && l.clock == if calls == [] then 0 else calls[|calls| - 1].now
  {
    if calls != [] {
      var before := calls[..|calls| - 1];
      var c := calls[|calls| - 1];
      RunsAreBounded(before, max, window);
      var l := Ran(before, max, window);
      AnsweredKeepsMemory(l, c, max, window);
      AnsweredKeepsSpacing(l, c, max, window);
      AnsweredKeepsBounds(l, c, max, window);
    }
  }

  /** Fullness is announced in a run exactly when some new key was refused in it. */
  lemma {:induction false} AnnouncedIffRefused(calls: seq<Call>, max: nat, window: int)
    requires Ordered(calls)
    ensures Ran(calls, max, window).notices == 1 <==>
      exists n :: 0 <= n < |calls| && RefusedAsNew(calls, n, max, window)
  {
    hide Spaced, Remembered, Allowed, Ordered, RefusedAsNew, Ran;
    SaturatedIffAnnounced(calls, max, window);
    if calls == [] {
      NothingRan(max, window);
    } else {
      var n := |calls| - 1;
      OrderedBefore(calls);
      AnnouncedIffRefused(calls[..n], max, window);
      SaturatedIffAnnounced(calls[..n], max, window);
      OneMoreCall(calls, max, window);
      forall m | 0 <= m < n ensures RefusedAsNew(calls, m, max, window) <==> RefusedAsNew(calls[..n], m, max, window) {
        SameBefore(calls, m, max, window);
      }
    }
  }

  lemma {:induction false} NothingRan(max: nat, window: int)
    ensures Ran([], max, window).notices == 0
  {
  }

  lemma {:induction false} OrderedBefore(calls: seq<Call>)
    requires Ordered(calls) && calls != []
    ensures Ordered(calls[..|calls| - 1])
  {
  }

  lemma {:induction false} SaturatedIffAnnounced(calls: seq<Call>, max: nat, window: int)
    requires Ordered(calls)
    ensures Ran(calls, max, window).notices == if Ran(calls, max, window).table.saturated then 1 else 0
  {
    hide Spaced, Remembered, Allowed, Ordered;
    RunsAreBounded(calls, max, window);
  }

  lemma {:induction false} OneMoreCall(calls: seq<Call>, max: nat, window: int)
    requires calls != []
    ensures Ran(calls, max, window).table.saturated <==>
      Ran(calls[..|calls| - 1], max, window).table.saturated || RefusedAsNew(calls, |calls| - 1, max, window)
  {
    hide Allowed;
    var n := |calls| - 1;
    RefusedIff(Ran(calls[..n], max, window).table, calls[n].key, calls[n].now, max, window);
  }

  lemma {:induction false} SameBefore(calls: seq<Call>, m: nat, max: nat, window: int)
    requires m < |calls| - 1
    ensures RefusedAsNew(calls, m, max, window) <==> RefusedAsNew(calls[..|calls| - 1], m, max, window)
  {
    hide Allowed, Ran;
    assert calls[..|calls| - 1][..m] == calls[..m];
  }

  ghost predicate RefusedAsNew(calls: seq<Call>, n: nat, max: nat, window: int)
    requires n < |calls|
  {
    var before := Ran(calls[..n], max, window).table;
    calls[n].key !in before.seen && !Allowed(before, calls[n].key, calls[n].now, max, window).1.allow
  }

  /** Exactly when a key may not log: it logged within the window (or ever, with no window), or it is
      new and the table holds its limit of keys whose windows are not over. Saturation suppresses; it
      never clears. Live keys keep their time, an allowed one gets this, no other comes in, and a new key
      that meets a full table drives out what is over; and fullness is announced at the first new key that is refused. */
  lemma {:induction false} RefusedIff(t: Naive, key: Text, now: int, max: nat, window: int)
    ensures
      var live := if window > 0 then Swept(t.seen, now, window) else t.seen;
      !Allowed(t, key, now, max, window).1.allow <==>
      (key in live || (key !in t.seen && |live| >= max))
    ensures forall k ::
      k in t.seen && (window <= 0 || now - t.seen[k] < window) ==>
        k in Allowed(t, key, now, max, window).0.seen && Allowed(t, key, now, max, window).0.seen[k] == t.seen[k]
    ensures
      var (after, v) := Allowed(t, key, now, max, window);
      && (v.allow ==> key in after.seen && after.seen[key] == now)
      && (!v.allow && key !in t.seen ==> key !in after.seen)
      && (forall k :: k in after.seen && k != key ==> k in t.seen && after.seen[k] == t.seen[k])
      && (key !in t.seen && |t.seen| >= max && window > 0 ==>
            forall k :: k in after.seen && k != key ==> now - after.seen[k] < window)
    ensures
      var (after, v) := Allowed(t, key, now, max, window);
      && (after.saturated <==> t.saturated || (!v.allow && key !in t.seen))
      && (v.saturated <==> after.saturated && !t.saturated)
  {
    if window > 0 {
      FewerKeys(Swept(t.seen, now, window), t.seen);
    }
  }
}
