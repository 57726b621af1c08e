/** The set of tokens a receiver accepts: the file's token and, for a grace window after a change, its
    predecessor (internal/bearer/bearer.go). Clock readings are taken under the lock, so they do not decrease from step to step. */
module Rotating {
  import opened Bytes
  import opened Flights
  import Throttling
  import opened Wrappers

  /** What reading the file found: a trimmed, non-empty token, or an error. */
  datatype ReadResult = Good(token: Text) | Bad

  // ----- Settings -----

  const DEFAULT_READ_INTERVAL: int := 60_000_000_000
  const DEFAULT_REFRESH_INTERVAL: int := 1_000_000_000
  const DEFAULT_GRACE: int := 300_000_000_000

  datatype Setting = WithInterval(d: int) | WithGrace(d: int)
  datatype Settings = Settings(interval: int, refresh: int, grace: int)

  /** The last positive interval asked for, or the default. */
  function LastInterval(options: seq<Setting>, default_: int): int {
    if options == [] then default_
    else
      var last := options[|options| - 1];
      if last.WithInterval? && last.d > 0 then last.d else LastInterval(options[..|options| - 1], default_)
  }

  function LastGrace(options: seq<Setting>, default_: int): int {
    if options == [] then default_
    else
      var last := options[|options| - 1];
      if last.WithGrace? && last.d > 0 then last.d else LastGrace(options[..|options| - 1], default_)
  }

  /** It is that of the last option that asks for one. */
  lemma {:induction false} LastIntervalIs(options: seq<Setting>, default_: int, n: nat)
    requires n <= |options| && forall m :: n <= m < |options| ==> !(options[m].WithInterval? && options[m].d > 0)
    ensures n == 0 ==> LastInterval(options, default_) == default_
    ensures n > 0 && options[n - 1].WithInterval? && options[n - 1].d > 0 ==> LastInterval(options, default_) == options[n - 1].d
  {
    if n < |options| {
      LastIntervalIs(options[..|options| - 1], default_, n);
    }
  }

  lemma {:induction false} LastGraceIs(options: seq<Setting>, default_: int, n: nat)
    requires n <= |options| && forall m :: n <= m < |options| ==> !(options[m].WithGrace? && options[m].d > 0)
    ensures n == 0 ==> LastGrace(options, default_) == default_
    ensures n > 0 && options[n - 1].WithGrace? && options[n - 1].d > 0 ==> LastGrace(options, default_) == options[n - 1].d
  {
    if n < |options| {
      LastGraceIs(options[..|options| - 1], default_, n);
    }
  }

  /** The options in order over the defaults, a minute and five minutes; the refresh cadence is never slower than the interval. */
  method Resolve(options: seq<Setting>) returns (s: Settings)
    ensures s.interval == LastInterval(options, 60_000_000_000)
    ensures s.grace == LastGrace(options, 300_000_000_000)
    ensures s.refresh == if s.interval < 1_000_000_000 then s.interval else 1_000_000_000
    ensures 0 < s.refresh <= s.interval && 0 < s.grace
  {
    s := Settings(DEFAULT_READ_INTERVAL, DEFAULT_REFRESH_INTERVAL, DEFAULT_GRACE);
    for i := 0 to |options|
      invariant s.interval == LastInterval(options[..i], DEFAULT_READ_INTERVAL) > 0
      invariant s.grace == LastGrace(options[..i], DEFAULT_GRACE) > 0
      invariant s.refresh == DEFAULT_REFRESH_INTERVAL
    {
      assert options[..i + 1][..i] == options[..i];
      var o := options[i];
      if o.d > 0 {
        s := if o.WithInterval? then s.(interval := o.d) else s.(grace := o.d);
      }
    }
    assert options[..|options|] == options;
    if s.refresh > s.interval {
      s := s.(refresh := s.interval);
    }
  }

  // ----- The stretches under the lock -----

  /** No predecessor is prev == []. */
  datatype Accepting = Accepting(cur: Text, prev: Text, prevUntil: int, nextRead: int, failures: nat)

  /** Past its grace the predecessor is dropped for good. */
  function Expired(a: Accepting, now: int): Accepting {
    if a.prev != [] && now >= a.prevUntil then a.(prev := [], prevUntil := 0) else a
  }

  function Accepted(a: Accepting): seq<Text> {
    if a.prev != [] then [a.cur, a.prev] else [a.cur]
  }

  function Due(a: Accepting, now: int): bool {
    now >= a.nextRead
  }

  /** A claimed read returned. */
  function Refreshed(a: Accepting, r: ReadResult, now: int, s: Settings): Accepting {
    match r
    case Bad =>
      a.(nextRead := now + (if a.failures > 0 then s.interval else s.refresh), failures := a.failures + 1)
    case Good(token) =>
      if token == a.cur then a.(failures := 0)
      else Accepting(token, a.cur, now + s.grace, a.nextRead, 0)
  }

  class Receiver {
    var cur: Text
    var prev: Text
    var prevUntil: int
    var nextRead: int
    const flight: Flight
    const outage: Throttling.Outage
    const settings: Settings

    constructor (token: Text, settings: Settings, now: int)
      ensures fresh(flight) && fresh(flight.warn) && fresh(outage) && fresh(outage.warn) && this.settings == settings
      ensures State() == Accepting(token, [], 0, now + settings.refresh, 0) && flight.State() == START.flight
    {
      cur, prev, prevUntil, nextRead := token, [], 0, now + settings.refresh;
      flight := new Flight();
      outage := new Throttling.Outage();
      this.settings := settings;
    }

    ghost function State(): Accepting
      reads this, outage
    {
      Accepting(cur, prev, prevUntil, nextRead, outage.failures)
    }

    /** The first stretch of Tokens: claim a due read, which is then waited for, or answer at once. */
    method Begin(now: int) returns (claim: Option<nat>, tokens: seq<Text>)
      modifies this, flight
      ensures claim.Some? <==> Due(old(State()), now) && !old(flight.reading)
      ensures claim.Some? ==>
        (flight.State(), claim) == Claimed(old(flight.State())) &&
        State() == old(State()).(nextRead := now + settings.refresh)
      ensures claim.None? ==>
        flight.State() == old(flight.State()) && State() == Expired(old(State()), now) &&
        tokens == Accepted(Expired(old(State()), now))
    {
      claim, tokens := None, [];
      if now >= nextRead {
        claim := flight.Claim();
        if claim.Some? {
          nextRead := now + settings.refresh;
          return;
        }
      }
      tokens := Cached(now);
    }

    /** Cached, and the last stretch of Tokens. */
    method Cached(now: int) returns (tokens: seq<Text>)
      modifies this
      ensures State() == Expired(old(State()), now) && tokens == Accepted(State())
    {
      if prev != [] && now >= prevUntil {
        prev, prevUntil := [], 0;
      }
      tokens := [cur];
      if prev != [] {
        tokens := tokens + [prev];
      }
    }

    /** The stretch of refresh under the lock. */
    method Publish(r: ReadResult, now: nat) returns (released: Released)
      modifies this, flight, outage, outage.warn
      ensures State() == Refreshed(old(State()), r, now, settings)
      ensures (flight.State(), released) == Ended(old(flight.State()))
    {
      released := flight.Release();
      if r.Bad? {
        if outage.failures > 0 {
          nextRead := now + settings.interval;
        } else {
          nextRead := now + settings.refresh;
        }
        var _, _ := outage.Fail(now, RE_WARN_INTERVAL);
      } else {
        var _, _, _ := outage.Recover(now);
        if r.token != cur {
          prev, prevUntil := cur, now + settings.grace;
          cur := r.token;
        }
      }
    }
  }

  // ----- Every interleaving of callers, reads and timeouts -----

  /** Callers of Tokens, the ticker's among them, claimed reads returning, and callers of Cached. A caller
      that claimed a read sees it return, or times out and reports the stall, before it answers. */
  datatype Step =
    | Begin(id: nat, now: int)
    | ReadReturns(gen: nat, result: ReadResult, now: int)
    | Finish(id: nat, timedOut: bool, warn: bool, now: int)
    | Cached(now: int)

  /** A token that came into the file, and when its read was published. */
  datatype Rotation = Rotation(token: Text, at: int)

  /** An accept set handed out: when, and how many tokens had been published by then. */
  datatype Handed = Handed(tokens: seq<Text>, now: int, published: nat)

  datatype Returned = Returned(ok: bool, at: int)

  /** The receiver, its claim's story, the clock, the tokens published in order, when each claim was made,
      how and when each claimed read returned, the callers waiting (with their claim), and the accept
      sets handed out. */
  datatype System = System(a: Accepting, p: Protocol, clock: int, history: seq<Rotation>, claimedAt: seq<int>,
                           returned: seq<Returned>, waiting: map<nat, nat>, handed: seq<Handed>)

  function Initial(token: Text, now: int, s: Settings): System {
    System(Accepting(token, [], 0, now + s.refresh, 0), START, now, [Rotation(token, now)], [], [], map[], [])
  }

  function Hands(y: System, now: int): System {
    var a := Expired(y.a, now);
    y.(a := a, clock := now, handed := y.handed + [Handed(Accepted(a), now, |y.history|)])
  }

  predicate Enabled(y: System, step: Step) {
    && y.clock <= step.now
    && match step
       case Begin(id, now) => id !in y.waiting
       case ReadReturns(gen, result, now) => gen in InFlight(y.p) && (result.Good? ==> result.token != [])
       case Finish(id, timedOut, warn, now) =>
         id in y.waiting && (!timedOut ==> y.waiting[id] <= |y.returned|)
       case Cached(now) => true
  }

  function Stepped(y: System, step: Step, s: Settings): System {
    match step
    case Begin(id, now) =>
      if Due(y.a, now) && !y.p.flight.reading then
        y.(a := y.a.(nextRead := now + s.refresh), p := Did(y.p, Op.Claim), clock := now,
           claimedAt := y.claimedAt + [now], waiting := y.waiting[id := y.p.flight.gen + 1])
      else Hands(y, now)
    case ReadReturns(gen, result, now) =>
      y.(a := Refreshed(y.a, result, now, s), p := Did(y.p, Op.ReadReturns(gen)), clock := now,
         history := if result.Good? && result.token != y.a.cur then y.history + [Rotation(result.token, now)] else y.history,
         returned := y.returned + [Returned(result.Good?, now)])
    case Finish(id, timedOut, warn, now) =>
      if id !in y.waiting then y else
      var p := if timedOut then Did(y.p, Op.Stall(y.waiting[id], warn)) else y.p;
      Hands(y.(p := p, waiting := y.waiting - {id}), now)
    case Cached(now) => Hands(y, now)
  }

  function Ran(token: Text, start: int, steps: seq<Step>, s: Settings): System {
    if steps == [] then Initial(token, start, s)
    else
      var y := Ran(token, start, steps[..|steps| - 1], s);
      var step := steps[|steps| - 1];
      if Enabled(y, step) then Stepped(y, step, s) else y
  }

  /** The accept set the rotation contract promises, from the published tokens alone: the last one, and
      its immediate predecessor until the grace after the change is over. */
  function Promised(history: seq<Rotation>, now: int, grace: int): seq<Text>
    requires history != []
  {
    var n := |history|;
    if n > 1 && now < history[n - 1].at + grace then [history[n - 1].token, history[n - 2].token]
    else [history[n - 1].token]
  }

  /** The receiver's fields follow the published tokens. */
  ghost predicate FollowsHistory(y: System, s: Settings) {
    var n := |y.history|;
    && n > 0
    && (forall i :: 0 <= i < n ==> y.history[i].token != [])
    && y.a.cur == y.history[n - 1].token
    && y.history[n - 1].at <= y.clock
    && (y.a.prev != [] ==>
         n > 1 && y.a.prev == y.history[n - 2].token && y.a.prevUntil == y.history[n - 1].at + s.grace)
    && (y.a.prev == [] ==> n == 1 || y.history[n - 1].at + s.grace <= y.clock)
  }

  /** Every accept set handed out was the promised one. */
  ghost predicate HandedAsPromised(y: System, s: Settings) {
    forall i :: 0 <= i < |y.handed| ==>
      var h := y.handed[i];
      0 < h.published <= |y.history| && h.tokens == Promised(y.history[..h.published], h.now, s.grace)
  }

  /** `next` is late enough after the read before claim j: a failed read backs off, and for longer when
      the read before it failed too. */
  ghost predicate BackedOff(returned: seq<Returned>, j: nat, next: int, s: Settings) {
    0 < j <= |returned| && !returned[j - 1].ok ==>
      next >= returned[j - 1].at + (if j > 1 && !returned[j - 2].ok then s.interval else s.refresh)
  }

  /** Claims are a refresh or more apart, and backed off after failures. */
  ghost predicate ClaimsSpaced(y: System, s: Settings) {
    var k := |y.claimedAt|;
    && k == y.p.flight.gen
    && |y.returned| == |y.p.returned| == k - (if y.p.flight.reading then 1 else 0)
    && (k > 0 ==> y.claimedAt[k - 1] <= y.clock && y.claimedAt[k - 1] + s.refresh <= y.a.nextRead)
    && (forall j :: 0 < j < k ==> y.claimedAt[j - 1] + s.refresh <= y.claimedAt[j])
    && (forall j :: 0 < j < k ==> BackedOff(y.returned, j, y.claimedAt[j], s))
    && (!y.p.flight.reading ==> BackedOff(y.returned, k, y.a.nextRead, s))
    && (y.a.failures > 0 <==> |y.returned| > 0 && !y.returned[|y.returned| - 1].ok)
  }

  ghost predicate Sound(y: System, s: Settings) {
    Orderly(y.p) && FollowsHistory(y, s) && HandedAsPromised(y, s) && ClaimsSpaced(y, s)
  }

  ghost predicate Sane(s: Settings) {
    0 < s.refresh <= s.interval && 0 < s.grace
  }

  /** Handing out the set: what the fields say is what is promised. */
  lemma {:induction false} HandsStaysSound(y: System, now: int, s: Settings)
    requires Sound(y, s) && y.clock <= now
    ensures Sound(Hands(y, now), s)
  {
    hide Orderly;
    var h := y.history;
    assert h[..|h|] == h;
    assert Accepted(Expired(y.a, now)) == Promised(h, now, s.grace);
    HandsKeepsSpacing(y, now, s);
  }

  lemma {:induction false} HandsKeepsSpacing(y: System, now: int, s: Settings)
    requires ClaimsSpaced(y, s) && y.clock <= now
    ensures ClaimsSpaced(Hands(y, now), s)
  {
  }

  lemma {:induction false} ClaimStaysSound(y: System, id: nat, now: int, s: Settings)
    requires Sound(y, s) && Sane(s) && y.clock <= now && Due(y.a, now) && !y.p.flight.reading
    ensures Sound(Stepped(y, Begin(id, now), s), s)
  {
    DidStaysOrderly(y.p, Op.Claim);
  }

  /** A read that returned was the last one claimed. */
  lemma {:induction false} ReturnIsLast(y: System, gen: nat, s: Settings)
    requires Sound(y, s) && gen in InFlight(y.p)
    ensures y.p.flight.reading && !Did(y.p, Op.ReadReturns(gen)).flight.reading
    ensures Did(y.p, Op.ReadReturns(gen)).flight.gen == y.p.flight.gen
    ensures |Did(y.p, Op.ReadReturns(gen)).returned| == |y.p.returned| + 1
  {
  }

  lemma {:induction false} ReturnKeepsSpacing(y: System, gen: nat, r: ReadResult, now: int, s: Settings)
    requires Sound(y, s) && Sane(s) && y.clock <= now && gen in InFlight(y.p)
    ensures ClaimsSpaced(Stepped(y, Step.ReadReturns(gen, r, now), s), s)
  {
    hide Did, InFlight, Orderly, FollowsHistory, HandedAsPromised;
    ReturnIsLast(y, gen, s);
  }

  lemma {:induction false} ReturnFollowsHistory(y: System, gen: nat, r: ReadResult, now: int, s: Settings)
    requires Sound(y, s) && y.clock <= now && gen in InFlight(y.p) && (r.Good? ==> r.token != [])
    ensures FollowsHistory(Stepped(y, Step.ReadReturns(gen, r, now), s), s)
    ensures HandedAsPromised(Stepped(y, Step.ReadReturns(gen, r, now), s), s)
  {
    hide Did, InFlight, Orderly, ClaimsSpaced;
    var z := Stepped(y, Step.ReadReturns(gen, r, now), s);
    forall i | 0 <= i < |z.handed|
      ensures y.history[..z.handed[i].published] == z.history[..z.handed[i].published]
    {
    }
  }

  lemma {:induction false} FinishStaysSound(y: System, id: nat, timedOut: bool, warn: bool, now: int, s: Settings)
    requires Sound(y, s) && y.clock <= now && id in y.waiting
    ensures Sound(Stepped(y, Finish(id, timedOut, warn, now), s), s)
  {
    hide Orderly, InFlight, FollowsHistory, HandedAsPromised, BackedOff, Hands;
    var op := Op.Stall(y.waiting[id], warn);
    DidStaysOrderly(y.p, op);
    HandsStaysSound(y.(p := if timedOut then Did(y.p, op) else y.p, waiting := y.waiting - {id}), now, s) by {
      FinishKeepsFields(y, id, timedOut, op, s);
    }
  }

  lemma {:induction false} FinishKeepsFields(y: System, id: nat, timedOut: bool, op: Op, s: Settings)
    requires Sound(y, s) && op.Stall?
    ensures
      var z := y.(p := if timedOut then Did(y.p, op) else y.p, waiting := y.waiting - {id});
      FollowsHistory(z, s) && HandedAsPromised(z, s) && ClaimsSpaced(z, s)
  {
    hide Orderly, InFlight, BackedOff;
  }

  lemma {:induction false} StepStaysSound(y: System, step: Step, s: Settings)
    requires Sound(y, s) && Sane(s) && Enabled(y, step)
    ensures Sound(Stepped(y, step, s), s)
  {
    hide Did, InFlight, Orderly, FollowsHistory, HandedAsPromised, ClaimsSpaced, Hands, Due;
    match step {
      case Begin(id, now) =>
        if Due(y.a, now) && !y.p.flight.reading {
          ClaimStaysSound(y, id, now, s);
        } else {
          HandsStaysSound(y, now, s);
        }
      case ReadReturns(gen, r, now) =>
        DidStaysOrderly(y.p, Op.ReadReturns(gen));
        ReturnKeepsSpacing(y, gen, r, now, s);
        ReturnFollowsHistory(y, gen, r, now, s);
      case Finish(id, timedOut, warn, now) => FinishStaysSound(y, id, timedOut, warn, now, s);
      case Cached(now) => HandsStaysSound(y, now, s);
    }
  }

  lemma {:induction false} EveryRunIsSound(token: Text, start: int, steps: seq<Step>, s: Settings)
    requires token != [] && Sane(s)
    ensures Sound(Ran(token, start, steps, s), s)
  {
    if steps != [] {
      var before := steps[..|steps| - 1];
      EveryRunIsSound(token, start, before, s);
      if Enabled(Ran(token, start, before, s), steps[|steps| - 1]) {
        StepStaysSound(Ran(token, start, before, s), steps[|steps| - 1], s);
      }
    }
  }

  /** When the next read is due, by what happened: a refresh after the last claim (or the start); or, when
      the read claimed then failed, a refresh after it returned, and an interval after a second failure in
      a row. */
  function DueAt(y: System, s: Settings): int
    requires y.history != []
  {
    var k := |y.claimedAt|;
    if k == 0 then y.history[0].at + s.refresh
    else if 0 < k == |y.returned| && !y.returned[k - 1].ok then
      y.returned[k - 1].at + (if k > 1 && !y.returned[k - 2].ok then s.interval else s.refresh)
    else y.claimedAt[k - 1] + s.refresh
  }

  ghost predicate DueInTime(y: System, s: Settings) {
    y.history != [] && y.a.nextRead == DueAt(y, s)
  }

  lemma {:induction false} ReturnKeepsDue(y: System, gen: nat, r: ReadResult, now: int, s: Settings)
    requires Sound(y, s) && DueInTime(y, s) && gen in InFlight(y.p)
    ensures DueInTime(Stepped(y, Step.ReadReturns(gen, r, now), s), s)
  {
    hide Did, InFlight, Orderly, HandedAsPromised;
    ReturnIsLast(y, gen, s);
  }

  lemma {:induction false} StepKeepsDue(y: System, step: Step, s: Settings)
    requires Sound(y, s) && DueInTime(y, s) && Enabled(y, step)
    ensures DueInTime(Stepped(y, step, s), s)
  {
    hide Did, InFlight, Orderly, FollowsHistory, HandedAsPromised;
    if step.ReadReturns? {
      ReturnKeepsDue(y, step.gen, step.result, step.now, s);
    }
  }

  lemma {:induction false} EveryRunIsDueInTime(token: Text, start: int, steps: seq<Step>, s: Settings)
    requires token != [] && Sane(s)
    ensures DueInTime(Ran(token, start, steps, s), s)
  {
    hide Sound;
    if steps != [] {
      var before := steps[..|steps| - 1];
      EveryRunIsDueInTime(token, start, before, s);
      EveryRunIsSound(token, start, before, s);
      if Enabled(Ran(token, start, before, s), steps[|steps| - 1]) {
        StepKeepsDue(Ran(token, start, before, s), steps[|steps| - 1], s);
      }
    }
  }

  /** Over every run, exactly when a caller claims a read: when none is in flight and it is due. */
  lemma {:induction false} ClaimsIffDue(token: Text, start: int, steps: seq<Step>, s: Settings, id: nat, now: int)
    requires token != [] && Sane(s) && Enabled(Ran(token, start, steps, s), Begin(id, now))
    ensures
      var y := Ran(token, start, steps, s);
      var after := Ran(token, start, steps + [Begin(id, now)], s);
      && y.history != []
      && if InFlight(y.p) == {} && DueAt(y, s) <= now
         then
           && after.claimedAt == y.claimedAt + [now] && after.p.claims == y.p.claims + [|y.p.claims| + 1]
           && after.waiting == y.waiting[id := |y.p.claims| + 1]
         else after.claimedAt == y.claimedAt && after.p == y.p && |after.handed| == |y.handed| + 1
  {
    hide Ran, FollowsHistory, HandedAsPromised, ClaimsSpaced, DueAt, InFlight;
    var y := Ran(token, start, steps, s);
    EveryRunIsDueInTime(token, start, steps, s);
    EveryRunIsSound(token, start, steps, s);
    InFlightIsTheClaim(y.p);
    RanOn(token, start, steps, Begin(id, now), s);
  }

  lemma {:induction false} RanOn(token: Text, start: int, steps: seq<Step>, step: Step, s: Settings)
    requires Enabled(Ran(token, start, steps, s), step)
    ensures Ran(token, start, steps + [step], s) == Stepped(Ran(token, start, steps, s), step, s)
  {
    assert (steps + [step])[..|steps + [step]| - 1] == steps;
  }

  /** The set accepts the last token published, and its immediate predecessor exactly while the grace after
      the change lasts; nothing else, and no empty token. */
  ghost predicate AcceptsJust(h: Handed, history: seq<Rotation>, s: Settings) {
    var n := h.published;
    && 0 < n <= |history|
    && [] !in h.tokens
    && forall t :: t in h.tokens <==>
         t == history[n - 1].token ||
         (n > 1 && h.now < history[n - 1].at + s.grace && t == history[n - 2].token)
  }

  lemma {:induction false} PromisedAcceptsJust(y: System, s: Settings, i: nat)
    requires FollowsHistory(y, s) && HandedAsPromised(y, s) && i < |y.handed|
    ensures AcceptsJust(y.handed[i], y.history, s)
  {
  }

  /** However late claims, reads and timeouts run: every accept set handed out, by Tokens or by Cached,
      accepts just what it should. */
  lemma {:induction false} AcceptSetsAreSafe(token: Text, start: int, steps: seq<Step>, s: Settings, i: nat)
    requires token != [] && Sane(s) && i < |Ran(token, start, steps, s).handed|
    ensures AcceptsJust(Ran(token, start, steps, s).handed[i], Ran(token, start, steps, s).history, s)
  {
    hide Ran, AcceptsJust, FollowsHistory, HandedAsPromised, ClaimsSpaced, Orderly;
    EveryRunIsSound(token, start, steps, s);
    PromisedAcceptsJust(Ran(token, start, steps, s), s, i);
  }

  ghost predicate NoGoodRead(steps: seq<Step>) {
    forall i :: 0 <= i < |steps| && steps[i].ReadReturns? ==> steps[i].result.Bad?
  }

  lemma {:induction false} NothingPublished(token: Text, start: int, steps: seq<Step>, more: seq<Step>, s: Settings)
    requires NoGoodRead(more)
    ensures
      var y, z := Ran(token, start, steps, s), Ran(token, start, steps + more, s);
      && z.history == y.history && y.handed <= z.handed
      && forall i :: |y.handed| <= i < |z.handed| ==> z.handed[i].published == |y.history|
  {
    hide Did, InFlight, Due;
    if more == [] {
      assert steps + more == steps;
    } else {
      var last := more[|more| - 1];
      NothingPublished(token, start, steps, more[..|more| - 1], s);
      assert (steps + more)[..|steps + more| - 1] == steps + more[..|more| - 1];
    }
  }

  /** However many reads fail, and however long: until one succeeds, every accept set handed out is the one
      promised by the tokens published before. */
  lemma {:induction false} FailuresKeepTheSet(token: Text, start: int, steps: seq<Step>, more: seq<Step>, s: Settings, i: nat)
    requires token != [] && Sane(s) && NoGoodRead(more)
    requires |Ran(token, start, steps, s).handed| <= i < |Ran(token, start, steps + more, s).handed|
    ensures
      var y, h := Ran(token, start, steps, s), Ran(token, start, steps + more, s).handed[i];
      y.history != [] && h.tokens == Promised(y.history, h.now, s.grace)
  {
    hide Ran, Orderly, ClaimsSpaced;
    NothingPublished(token, start, steps, more, s);
    EveryRunIsSound(token, start, steps + more, s);
    var z := Ran(token, start, steps + more, s);
    assert z.history[..|z.history|] == z.history;
  }

  lemma {:induction false} ClaimsApart(y: System, s: Settings, i: nat, j: nat)
    requires ClaimsSpaced(y, s) && Sane(s) && i < j < |y.claimedAt|
    ensures y.claimedAt[i] + s.refresh <= y.claimedAt[j]
  {
    assert y.claimedAt[j - 1] + s.refresh <= y.claimedAt[j];
    if i < j - 1 {
      ClaimsApart(y, s, i, j - 1);
    }
  }

  /** Any two claims start a refresh or more apart, and no claim starts within the longer interval after
      the second of two failures in a row. */
  lemma {:induction false} ReadsAreBounded(token: Text, start: int, steps: seq<Step>, s: Settings, i: nat, j: nat)
    requires token != [] && Sane(s) && i < j < |Ran(token, start, steps, s).claimedAt|
    ensures
      var y := Ran(token, start, steps, s);
      && y.claimedAt[i] + s.refresh <= y.claimedAt[j]
      && i < |y.returned|
      && (i > 0 && !y.returned[i].ok && !y.returned[i - 1].ok ==> y.returned[i].at + s.interval <= y.claimedAt[j])
  {
    var y := Ran(token, start, steps, s);
    EveryRunIsSound(token, start, steps, s);
    ClaimsApart(y, s, i, j);
    assert BackedOff(y.returned, i + 1, y.claimedAt[i + 1], s);
    if i + 1 < j {
      ClaimsApart(y, s, i + 1, j);
    }
  }
}
