/** The single-flight claim on a read that runs with its owner's lock dropped
    (internal/bearer/bearer.go). */
module Flights {
  import Throttling
  import opened Wrappers

  /** How long a persisting stall stays quiet: five minutes. */
  const RE_WARN_INTERVAL: int := 300_000_000_000

  /** The claim's fields. Channels are numbered as they are made; 0 is no channel. */
  datatype FlightState = FlightState(reading: bool, gen: nat, stalled: bool, loud: bool, done: nat, made: nat)

  datatype Released = Released(stalled: bool, loud: bool, closed: nat)
  datatype StallReport = StallReport(report: bool, loud: bool)

  function Claimed(c: FlightState): (FlightState, Option<nat>) {
    if c.reading then (c, None) else (c.(reading := true, gen := c.gen + 1), Some(c.gen + 1))
  }

  /** The channel a waiter waits on, made by the first that needs it. */
  function Awaited(c: FlightState): (FlightState, nat) {
    if c.done == 0 then (c.(done := c.made + 1, made := c.made + 1), c.made + 1) else (c, c.done)
  }

  function Ended(c: FlightState): (FlightState, Released) {
    (FlightState(false, c.gen, false, false, 0, c.made), Released(c.stalled, c.loud, c.done))
  }

  /** A claimer that stopped waiting; `warn` is what the throttle would say. */
  function GivenUp(c: FlightState, gen: nat, warn: bool): (FlightState, StallReport) {
    if !c.reading || c.gen != gen || c.stalled then (c, StallReport(false, false))
    else (c.(stalled := true, loud := warn), StallReport(true, warn))
  }

  class Flight {
    var reading: bool
    var gen: nat
    var stalled: bool
    var loud: bool
    var done: nat
    var made: nat
    const warn: Throttling.Throttle

    constructor ()
      ensures fresh(warn) && State() == FlightState(false, 0, false, false, 0, 0)
    {
      reading, gen, stalled, loud, done, made := false, 0, false, false, 0, 0;
      warn := new Throttling.Throttle();
    }

    ghost function State(): FlightState
      reads this
    {
      FlightState(reading, gen, stalled, loud, done, made)
    }

    method Claim() returns (claim: Option<nat>)
      modifies this
      ensures (State(), claim) == Claimed(old(State()))
    {
      if reading {
        return None;
      }
      reading := true;
      gen := gen + 1;
      return Some(gen);
    }

    method Returned() returns (channel: nat)
      requires reading
      modifies this
      ensures (State(), channel) == Awaited(old(State()))
    {
      if done == 0 {
        made := made + 1;
        done := made;
      }
      return done;
    }

    method Release() returns (r: Released)
      modifies this
      ensures (State(), r) == Ended(old(State()))
    {
      r := Released(stalled, loud, done);
      reading, stalled, loud := false, false, false;
      if done != 0 {
        done := 0;
      }
    }

    method Stall(claim: nat, now: nat) returns (r: StallReport)
      modifies this, warn
      ensures (State(), r) ==
        GivenUp(old(State()), claim, old(warn.last) == 0 || now + 1 - old(warn.last) >= RE_WARN_INTERVAL)
      ensures warn.last == if r.loud then now + 1 else old(warn.last)
      ensures r.loud ==> r.report
    {
      if !reading || gen != claim || stalled {
        return StallReport(false, false);
      }
      loud := warn.AllowAt(now, RE_WARN_INTERVAL);
      stalled := true;
      r := StallReport(true, loud);
    }
  }

  // ----- The protocol, over every interleaving of its operations -----

  /** A channel closed, and the claim it was closed for. */
  datatype Closing = Closing(channel: nat, gen: nat)

  /** The claim with its story: the claims made, the claimed reads that returned, the stalls reported and the
      resumptions reported, each with whether it was loud, and the channels closed. */
  datatype Protocol = Protocol(flight: FlightState, claims: seq<nat>, returned: seq<nat>, stalls: seq<nat>, loudStalls: seq<bool>,
                               resumes: seq<nat>, loudResumes: seq<bool>, closings: seq<Closing>)

  const START := Protocol(FlightState(false, 0, false, false, 0, 0), [], [], [], [], [], [], [])

  datatype Op = Claim | Wait | ReadReturns(gen: nat) | Stall(gen: nat, warn: bool)

  /** The claimed reads in flight: those that have not returned. */
  function InFlight(p: Protocol): set<nat> {
    set g | g in p.claims && g !in p.returned
  }

  function Did(p: Protocol, op: Op): Protocol {
    match op
    case Claim =>
      var (c, claim) := Claimed(p.flight);
      p.(flight := c, claims := if claim.Some? then p.claims + [claim.value] else p.claims)
    case Wait =>
      if p.flight.reading then p.(flight := Awaited(p.flight).0) else p
    case ReadReturns(gen) =>
      if gen !in InFlight(p) then p else
      var (c, r) := Ended(p.flight);
      p.(flight := c,
         returned := p.returned + [gen],
         resumes := if r.stalled then p.resumes + [gen] else p.resumes,
         loudResumes := if r.stalled then p.loudResumes + [r.loud] else p.loudResumes,
         closings := if r.closed != 0 then p.closings + [Closing(r.closed, gen)] else p.closings)
    case Stall(gen, warn) =>
      var (c, r) := GivenUp(p.flight, gen, warn);
      p.(flight := c,
         stalls := if r.report then p.stalls + [gen] else p.stalls,
         loudStalls := if r.report then p.loudStalls + [r.loud] else p.loudStalls)
  }

  ghost predicate Increasing(s: seq<nat>) {
    forall i, j :: 0 <= i < j < |s| ==> s[i] < s[j]
  }

  /** What every interleaving keeps. The claims are numbered 1, 2, ...; all but the one in flight have
      returned, in order; every stall but the one in flight was resumed, once; and each channel made
      was closed once, for a claim of its own. */
  ghost predicate Orderly(p: Protocol) {
    && |p.claims| == p.flight.gen
    && (forall i :: 0 <= i < |p.claims| ==> p.claims[i] == i + 1)
    && p.claims == p.returned + (if p.flight.reading then [p.flight.gen] else [])
    && (p.flight.stalled ==> p.flight.reading)
    && (p.flight.loud ==> p.flight.stalled)
    && p.stalls == p.resumes + (if p.flight.stalled then [p.flight.gen] else [])
    && p.loudStalls == p.loudResumes + (if p.flight.stalled then [p.flight.loud] else [])
    && Increasing(p.resumes)
    && (forall i :: 0 <= i < |p.resumes| ==> 0 < p.resumes[i] <= |p.returned|)
    && (p.flight.done != 0 ==> p.flight.reading && p.flight.done == p.flight.made)
    && |p.closings| == p.flight.made - (if p.flight.done != 0 then 1 else 0)
    && (forall i :: 0 <= i < |p.closings| ==>
         p.closings[i].channel == i + 1 && 0 < p.closings[i].gen <= |p.returned|)
    && (forall i, j :: 0 <= i < j < |p.closings| ==> p.closings[i].gen < p.closings[j].gen)
  }

  /** At most one claimed read is in flight, the one the claim says. */
  lemma {:induction false} InFlightIsTheClaim(p: Protocol)
    requires Orderly(p)
    ensures InFlight(p) == if p.flight.reading then {p.flight.gen} else {}
  {
    forall g ensures g in InFlight(p) <==> p.flight.reading && g == p.flight.gen {
      if g in p.returned {
        var i :| 0 <= i < |p.returned| && p.returned[i] == g;
        assert p.claims[i] == g;
      }
      if p.flight.reading {
        assert p.claims[|p.claims| - 1] == p.flight.gen;
      }
    }
  }

  lemma {:induction false} DidStaysOrderly(p: Protocol, op: Op)
    requires Orderly(p)
    ensures Orderly(Did(p, op))
  {
    hide InFlight, Orderly;
    match op {
      case Claim => ClaimStaysOrderly(p);
      case Wait => WaitStaysOrderly(p);
      case ReadReturns(gen) => ReturnStaysOrderly(p, gen);
      case Stall(gen, warn) => StallStaysOrderly(p, gen, warn);
    }
  }

  lemma {:induction false} ClaimStaysOrderly(p: Protocol)
    requires Orderly(p)
    ensures Orderly(Did(p, Claim))
  {
  }

  lemma {:induction false} WaitStaysOrderly(p: Protocol)
    requires Orderly(p)
    ensures Orderly(Did(p, Wait))
  {
  }

  lemma {:induction false} ReturnStaysOrderly(p: Protocol, gen: nat)
    requires Orderly(p)
    ensures Orderly(Did(p, ReadReturns(gen)))
  {
    hide InFlight;
    InFlightIsTheClaim(p);
  }

  lemma {:induction false} StallStaysOrderly(p: Protocol, gen: nat, warn: bool)
    requires Orderly(p)
    ensures Orderly(Did(p, Stall(gen, warn)))
  {
    hide InFlight;
  }

  function Flown(ops: seq<Op>): Protocol {
    if ops == [] then START else Did(Flown(ops[..|ops| - 1]), ops[|ops| - 1])
  }

  lemma {:induction false} EveryFlightIsOrderly(ops: seq<Op>)
    ensures Orderly(Flown(ops))
  {
    if ops != [] {
      EveryFlightIsOrderly(ops[..|ops| - 1]);
      DidStaysOrderly(Flown(ops[..|ops| - 1]), ops[|ops| - 1]);
    }
  }

  /** In every interleaving of callers, timeouts and completions: at most one claimed read is in flight;
      claim numbers strictly increase; each claim's stall is reported at most once, and so is its
      resumption, as loud as the stall was, never more of them than stalls; and each claim closes at most one channel. */
  lemma {:induction false} SingleFlight(ops: seq<Op>)
    ensures |InFlight(Flown(ops))| <= 1
    ensures Increasing(Flown(ops).claims)
    ensures Increasing(Flown(ops).stalls)
    ensures Flown(ops).resumes <= Flown(ops).stalls && |Flown(ops).stalls| <= |Flown(ops).resumes| + 1
    ensures Flown(ops).loudResumes <= Flown(ops).loudStalls
    ensures forall i, j :: 0 <= i < j < |Flown(ops).closings| ==>
      Flown(ops).closings[i].gen != Flown(ops).closings[j].gen &&
      Flown(ops).closings[i].channel != Flown(ops).closings[j].channel
  {
    EveryFlightIsOrderly(ops);
    InFlightIsTheClaim(Flown(ops));
  }

  /** A claim is made exactly when no claimed read is in flight. */
  lemma {:induction false} ClaimedIffFree(p: Protocol)
    requires Orderly(p)
    ensures Did(p, Claim).claims == p.claims + if InFlight(p) == {} then [|p.claims| + 1] else []
  {
    hide InFlight;
    InFlightIsTheClaim(p);
  }

  /** The stall of a read in flight is reported the first time a claimer gives it up, as loud as the throttle
      has it. */
  lemma {:induction false} StallIsReported(p: Protocol, gen: nat, warn: bool)
    requires Orderly(p) && gen in InFlight(p)
    ensures Did(p, Stall(gen, warn)).stalls == p.stalls + if gen in p.stalls then [] else [gen]
    ensures Did(p, Stall(gen, warn)).loudStalls == p.loudStalls + if gen in p.stalls then [] else [warn]
  {
    hide InFlight;
    InFlightIsTheClaim(p);
    assert gen == |p.returned| + 1;
    assert gen !in p.resumes;
    assert p.flight.stalled ==> p.stalls[|p.resumes|] == gen;
  }

  /** A stall is reported only while the read it is about is in flight, and not a second time. */
  lemma {:induction false} StallOnlyInFlight(p: Protocol, gen: nat, warn: bool)
    requires Orderly(p) && GivenUp(p.flight, gen, warn).1.report
    ensures gen in InFlight(p) && gen !in p.stalls
  {
    InFlightIsTheClaim(p);
  }
}

/** The token a client presents, read from a file by at most one reader at a time
    (internal/bearer/bearer.go). */
module TokenFile {
  import opened Bytes
  import opened Flights
  import opened Wrappers

  type Error = nat

  /** What reading the file found: a trimmed, non-empty token, or an error. */
  datatype ReadResult = Good(token: Text) | Bad(error: Error)

  /** What a caller is told: a token, the read's error, or that the first read has not returned. */
  datatype Answer = Present(token: Text) | Failed(error: Error) | Pending

  datatype FileState = FileState(token: Text, fetched: int, loaded: bool, firstErr: Option<Error>)

  /** How a call goes on after its first look: answered, waiting for the first read, or to read itself. */
  datatype Entry = Answered(answer: Answer) | MustWait(channel: nat) | MustRead(gen: nat)

  function LastGood(token: Text, loaded: bool): Answer {
    if loaded then Present(token) else Pending
  }

  function Entered(f: FileState, c: FlightState, now: int, interval: int): (FlightState, Entry) {
    if f.loaded && now - f.fetched < interval then (c, Answered(Present(f.token)))
    else if !c.reading then (Claimed(c).0, MustRead(c.gen + 1))
    else if !f.loaded then (Awaited(c).0, MustWait(Awaited(c).1))
    else (c, Answered(Present(f.token)))
  }

  function Stored(token: Text, now: int): FileState {
    FileState(token, now, true, None)
  }

  /** The file after a claimed read found r at now, and what that read's claimer is told. */
  function Published(f: FileState, r: ReadResult, now: int): (FileState, Answer) {
    match r
    case Good(token) => (Stored(token, now), Present(token))
    case Bad(error) =>
      if f.loaded then (f.(fetched := now), Present(f.token))
      else (f.(firstErr := Some(error)), Failed(error))
  }

  /** What a caller woken by the end of the first read is told. */
  function WokenAnswer(f: FileState): Answer {
    if !f.loaded && f.firstErr.Some? then Failed(f.firstErr.value) else LastGood(f.token, f.loaded)
  }

  /** The steps below are the stretches of the source that run under the lock, or between two of them. */
  class File {
    var token: Text
    var fetched: int
    var loaded: bool
    var firstErr: Option<Error>
    const flight: Flight
    const interval: int

    constructor (interval: int)
      ensures fresh(flight) && fresh(flight.warn) && this.interval == interval
      ensures State() == FileState([], 0, false, None) && flight.State() == START.flight
    {
      token, fetched, loaded, firstErr := [], 0, false, None;
      flight := new Flight();
      this.interval := interval;
    }

    ghost function State(): FileState
      reads this
    {
      FileState(token, fetched, loaded, firstErr)
    }

    method Enter(now: int) returns (e: Entry)
      modifies this, flight
      ensures State() == old(State())
      ensures (flight.State(), e) == Entered(State(), old(flight.State()), now, interval)
    {
      if loaded && now - fetched < interval {
        return Answered(Present(token));
      }
      var claim := flight.Claim();
      if claim.None? && !loaded {
        var channel := flight.Returned();
        return MustWait(channel);
      }
      if claim.None? {
        return Answered(LastGood(token, loaded));
      }
      return MustRead(claim.value);
    }

    /** Read and the successful half of refresh publish through this. */
    method Store(tok: Text, now: int) returns (changed: bool)
      modifies this
      ensures State() == Stored(tok, now)
      ensures changed <==> old(loaded) && old(token) != tok
    {
      changed := loaded && tok != token;
      token, fetched, loaded, firstErr := tok, now, true, None;
    }

    method Publish(result: ReadResult, now: int) returns (answer: Answer, released: Released)
      modifies this, flight
      ensures (State(), answer) == Published(old(State()), result, now)
      ensures (flight.State(), released) == Ended(old(flight.State()))
    {
      released := flight.Release();
      if result.Good? {
        var _ := Store(result.token, now);
        return Present(result.token), released;
      }
      var last, had := token, loaded;
      if loaded {
        fetched := now;
      } else {
        firstErr := Some(result.error);
      }
      if !had {
        return Failed(result.error), released;
      }
      return Present(last), released;
    }

    method GiveUp(gen: nat, now: nat) returns (answer: Answer, r: StallReport)
      modifies flight, flight.warn
      ensures answer == LastGood(token, loaded)
      ensures (flight.State(), r) == GivenUp(old(flight.State()), gen,
        old(flight.warn.last) == 0 || now + 1 - old(flight.warn.last) >= RE_WARN_INTERVAL)
    {
      r := flight.Stall(gen, now);
      answer := LastGood(token, loaded);
    }

    method AnswerWoken() returns (answer: Answer)
      ensures answer == WokenAnswer(State())
    {
      if !loaded && firstErr.Some? {
        return Failed(firstErr.value);
      }
      return LastGood(token, loaded);
    }
  }

  // ----- Every interleaving of callers, reads and timeouts -----

  /** A call between two of its steps. `since` counts the tokens published when it began: 0 when there
      was none to fall back on. */
  datatype Caller =
    | AwaitingRead(since: nat, gen: nat)
    | TimedOut(since: nat, gen: nat)
    | AwaitingFirst(since: nat, channel: nat)
    | Woken(since: nat, channel: nat)

  datatype Step =
    | Enter(id: nat, now: int)
    | ReadReturns(gen: nat, result: ReadResult, now: int)
    | SeeRead(id: nat)
    | TimeOut(id: nat)
    | GiveUp(id: nat, warn: bool)
    | Wake(id: nat)
    | AnswerWoken(id: nat)
    | GiveUpFirst(id: nat)
    | DirectRead(token: Text, now: int)

  /** An answer, how many tokens were published when its call began and when it was given, and whether the
      end of a read woke the caller. */
  datatype Told = Told(answer: Answer, since: nat, till: nat, woken: bool)

  /** The file, the claim's story, the tokens published in order, the claimed reads that returned with
      what they found and what their claimers were left, the times of all publications and returns, the
      calls under way, and the answers given. */
  datatype System = System(file: FileState, p: Protocol, good: seq<Text>, found: seq<ReadResult>, left: seq<Answer>,
                           times: seq<int>, callers: map<nat, Caller>, told: seq<Told>)

  const FRESH := System(FileState([], 0, false, None), START, [], [], [], [], map[], [])

  function Answers(s: System, id: nat, t: Told): System {
    s.(callers := s.callers - {id}, told := s.told + [t])
  }

  function Enters(s: System, id: nat, now: int, interval: int): System {
    match Entered(s.file, s.p.flight, now, interval).1
    case Answered(answer) => Answers(s, id, Told(answer, |s.good|, |s.good|, false))
    case MustRead(gen) =>
      s.(p := Did(s.p, Op.Claim), callers := s.callers[id := AwaitingRead(|s.good|, gen)])
    case MustWait(channel) =>
      s.(p := Did(s.p, Op.Wait), callers := s.callers[id := AwaitingFirst(|s.good|, channel)])
  }

  function Returns(s: System, gen: nat, result: ReadResult, now: int): System {
    var (file, answer) := Published(s.file, result, now);
    s.(file := file, p := Did(s.p, Op.ReadReturns(gen)),
       good := if result.Good? then s.good + [result.token] else s.good,
       found := s.found + [result], left := s.left + [answer], times := s.times + [now])
  }

  /** Whether a step can be taken: a call is at that point, a channel is closed, a read is in flight. */
  predicate Enabled(s: System, step: Step) {
    match step
    case Enter(id, now) => id !in s.callers
    case ReadReturns(gen, result, now) => gen in InFlight(s.p) && (result.Good? ==> result.token != [])
    case SeeRead(id) => id in s.callers && s.callers[id].AwaitingRead? && 0 < s.callers[id].gen <= |s.left|
    case TimeOut(id) => id in s.callers && s.callers[id].AwaitingRead?
    case GiveUp(id, warn) => id in s.callers && s.callers[id].TimedOut?
    case Wake(id) =>
      id in s.callers && s.callers[id].AwaitingFirst? &&
      exists k :: 0 <= k < |s.p.closings| && s.p.closings[k].channel == s.callers[id].channel
    case AnswerWoken(id) => id in s.callers && s.callers[id].Woken?
    case GiveUpFirst(id) => id in s.callers && s.callers[id].AwaitingFirst?
    case DirectRead(token, now) => token != []
  }

  function Stepped(s: System, step: Step, interval: int): System
    requires Enabled(s, step)
  {
    match step
    case Enter(id, now) => Enters(s, id, now, interval)
    case ReadReturns(gen, result, now) => Returns(s, gen, result, now)
    case SeeRead(id) => Answers(s, id, Told(s.left[s.callers[id].gen - 1], s.callers[id].since, |s.good|, false))
    case TimeOut(id) => s.(callers := s.callers[id := TimedOut(s.callers[id].since, s.callers[id].gen)])
    case GiveUp(id, warn) =>
      Answers(s.(p := Did(s.p, Op.Stall(s.callers[id].gen, warn))), id,
              Told(LastGood(s.file.token, s.file.loaded), s.callers[id].since, |s.good|, false))
    case Wake(id) => s.(callers := s.callers[id := Woken(s.callers[id].since, s.callers[id].channel)])
    case AnswerWoken(id) => Answers(s, id, Told(WokenAnswer(s.file), s.callers[id].since, |s.good|, true))
    case GiveUpFirst(id) => Answers(s, id, Told(LastGood([], false), s.callers[id].since, |s.good|, false))
    case DirectRead(token, now) => s.(file := Stored(token, now), good := s.good + [token], times := s.times + [now])
  }

  function Ran(steps: seq<Step>, interval: int): System {
    if steps == [] then FRESH
    else
      var s := Ran(steps[..|steps| - 1], interval);
      var step := steps[|steps| - 1];
      if Enabled(s, step) then Stepped(s, step, interval) else s
  }

  /** The file presents the token published last, as fresh as the last publication or failed read; until
      there is one, the last read's error is kept. A good read leaves its claimer what it found. */
  ghost predicate FileSound(s: System) {
    && Orderly(s.p)
    && |s.found| == |s.p.returned| == |s.left|
    && (s.file.loaded <==> s.good != [])
    && (s.file.loaded ==> s.file.token == s.good[|s.good| - 1])
    && (forall i :: 0 <= i < |s.good| ==> s.good[i] != [])
    && (s.file.loaded ==> s.times != [] && s.file.fetched == s.times[|s.times| - 1])
    && (forall i :: 0 <= i < |s.found| && s.found[i].Good? ==> s.left[i] == Present(s.found[i].token))
    && (forall i :: 0 <= i < |s.found| && s.left[i].Failed? ==> s.found[i] == Bad(s.left[i].error))
    && (!s.file.loaded ==> forall i :: 0 <= i < |s.found| ==> s.found[i].Bad?)
    && (!s.file.loaded ==>
         s.file.firstErr == if s.found == [] then None else Some(s.found[|s.found| - 1].error))
  }

  /** The token was the last good one at some time since the `since`-th was published. */
  ghost predicate GoodSince(token: Text, since: nat, good: seq<Text>) {
    exists k :: 0 <= k < |good| && since <= k + 1 && good[k] == token
  }

  /** An answer presents such a token, and a call that began with a token to fall back on has one. */
  ghost predicate Regular(a: Answer, since: nat, good: seq<Text>) {
    && (a.Present? ==> GoodSince(a.token, since, good))
    && (since > 0 ==> a.Present?)
  }

  /** The calls under way: what a read leaves its claimer is as good as an answer; only the first use
      waits for another's read; and who was woken, was woken by the end of a read. */
  ghost predicate CallersSound(s: System) {
    && (forall i :: 0 <= i < |s.left| ==> !s.left[i].Pending?)
    && (forall id :: id in s.callers ==> s.callers[id].since <= |s.good|)
    && (forall id :: id in s.callers && s.callers[id].AwaitingRead? ==>
         forall i :: i == s.callers[id].gen - 1 && 0 <= i < |s.left| ==> Regular(s.left[i], s.callers[id].since, s.good))
    && (forall id :: id in s.callers && (s.callers[id].AwaitingFirst? || s.callers[id].Woken?) ==>
         s.callers[id].since == 0)
    && (forall id :: id in s.callers && s.callers[id].AwaitingFirst? ==> 0 < s.callers[id].channel <= s.p.flight.made)
    && (forall id :: id in s.callers && s.callers[id].Woken? ==> 0 < s.callers[id].channel <= |s.p.closings|)
  }

  ghost predicate ToldSound(s: System) {
    forall i :: 0 <= i < |s.told| ==>
      s.told[i].till <= |s.good| && Regular(s.told[i].answer, s.told[i].since, s.good[..s.told[i].till]) &&
      (s.told[i].woken ==> !s.told[i].answer.Pending?)
  }

  ghost predicate Sound(s: System) {
    FileSound(s) && CallersSound(s) && ToldSound(s)
  }

  lemma {:induction false} StaysGood(token: Text, since: nat, good: seq<Text>, more: seq<Text>)
    requires GoodSince(token, since, good)
    ensures GoodSince(token, since, good + more)
  {
    var k :| 0 <= k < |good| && since <= k + 1 && good[k] == token;
    assert (good + more)[k] == token;
  }

  lemma {:induction false} StaysRegular(since: nat, good: seq<Text>, more: seq<Text>)
    ensures forall a :: Regular(a, since, good) ==> Regular(a, since, good + more)
  {
    forall a | Regular(a, since, good) ensures Regular(a, since, good + more) {
      if a.Present? {
        StaysGood(a.token, since, good, more);
      }
    }
  }

  /** The last good token is an answer to every call under way. */
  lemma {:induction false} LastGoodIsRegular(good: seq<Text>, since: nat)
    requires since <= |good|
    ensures good != [] ==> Regular(Present(good[|good| - 1]), since, good)
    ensures good == [] ==> Regular(Pending, since, good) && forall e :: Regular(Failed(e), since, good)
  {
  }

  /** Publishing one more token, or none, keeps what was said before. */
  lemma {:induction false} PublishingStaysSound(s: System, more: seq<Text>)
    requires CallersSound(s) && ToldSound(s)
    ensures CallersSound(s.(good := s.good + more)) && ToldSound(s.(good := s.good + more))
  {
    hide Regular;
    forall id | id in s.callers
      ensures forall a :: Regular(a, s.callers[id].since, s.good) ==> Regular(a, s.callers[id].since, s.good + more)
    {
      StaysRegular(s.callers[id].since, s.good, more);
    }
    forall i | 0 <= i < |s.told|
      ensures (s.good + more)[..s.told[i].till] == s.good[..s.told[i].till]
    {
    }
  }

  lemma {:induction false} ReturnIsTheClaims(s: System, gen: nat)
    requires FileSound(s) && gen in InFlight(s.p)
    ensures s.p.flight.reading && gen == s.p.flight.gen == |s.found| + 1
    ensures Did(s.p, Op.ReadReturns(gen)).returned == s.p.returned + [gen]
  {
  }

  lemma {:induction false} ReturnsStaysFileSound(s: System, gen: nat, result: ReadResult, now: int)
    requires FileSound(s) && gen in InFlight(s.p) && (result.Good? ==> result.token != [])
    ensures FileSound(Returns(s, gen, result, now))
  {
    hide Did, Orderly, InFlight;
    ReturnIsTheClaims(s, gen);
    DidStaysOrderly(s.p, Op.ReadReturns(gen));
  }

  lemma {:induction false} OthersReturnNothing(p: Protocol, op: Op)
    requires !op.ReadReturns?
    ensures Did(p, op).returned == p.returned && Did(p, op).closings == p.closings
  {
  }

  /** Channels stay made; a waiter's is one of them. */
  lemma {:induction false} ChannelsStay(p: Protocol, op: Op)
    requires Orderly(p)
    ensures Did(p, op).flight.made >= p.flight.made
    ensures op.Wait? && p.flight.reading ==> 0 < Awaited(p.flight).1 <= Did(p, op).flight.made
  {
  }

  lemma {:induction false} StepStaysFileSound(s: System, step: Step, interval: int)
    requires FileSound(s) && Enabled(s, step)
    ensures FileSound(Stepped(s, step, interval))
  {
    hide Did, Orderly, InFlight, Entered;
    if step.ReadReturns? {
      ReturnsStaysFileSound(s, step.gen, step.result, step.now);
    } else if step.Enter? {
      DidStaysOrderly(s.p, Op.Claim);
      DidStaysOrderly(s.p, Op.Wait);
      OthersReturnNothing(s.p, Op.Claim);
      OthersReturnNothing(s.p, Op.Wait);
    } else if step.GiveUp? {
      var op := Op.Stall(s.callers[step.id].gen, step.warn);
      DidStaysOrderly(s.p, op);
      OthersReturnNothing(s.p, op);
    }
  }

  lemma {:induction false} EntersStaysSound(s: System, id: nat, now: int, interval: int)
    requires Sound(s) && id !in s.callers
    ensures CallersSound(Enters(s, id, now, interval)) && ToldSound(Enters(s, id, now, interval))
  {
    hide Did, InFlight, Regular;
    OthersReturnNothing(s.p, Op.Claim);
    OthersReturnNothing(s.p, Op.Wait);
    ChannelsStay(s.p, Op.Claim);
    ChannelsStay(s.p, Op.Wait);
    LastGoodIsRegular(s.good, |s.good|);
    assert s.good[..|s.good|] == s.good;
  }

  lemma {:induction false} ReturnKeepsChannels(p: Protocol, gen: nat)
    ensures Did(p, Op.ReadReturns(gen)).flight.made == p.flight.made
    ensures |p.closings| <= |Did(p, Op.ReadReturns(gen)).closings|
  {
  }

  lemma {:induction false} ReturnsStaysCallersSound(s: System, gen: nat, result: ReadResult, now: int)
    requires Sound(s) && gen in InFlight(s.p) && (result.Good? ==> result.token != [])
    ensures CallersSound(Returns(s, gen, result, now)) && ToldSound(Returns(s, gen, result, now))
  {
    hide Orderly, InFlight, Regular, Did;
    ReturnKeepsChannels(s.p, gen);
    var good := if result.Good? then s.good + [result.token] else s.good;
    assert s.good + [] == s.good;
    PublishingStaysSound(s, if result.Good? then [result.token] else []);
    forall id | id in s.callers ensures Regular(Published(s.file, result, now).1, s.callers[id].since, good) {
      LastGoodIsRegular(good, s.callers[id].since);
    }
  }

  lemma {:induction false} AnswerStaysSound(s: System, id: nat, t: Told)
    requires CallersSound(s) && ToldSound(s)
    requires t.till == |s.good| && Regular(t.answer, t.since, s.good) && (t.woken ==> !t.answer.Pending?)
    ensures CallersSound(Answers(s, id, t)) && ToldSound(Answers(s, id, t))
  {
    hide Regular;
    assert s.good[..|s.good|] == s.good;
  }

  lemma {:induction false} GiveUpStaysSound(s: System, id: nat, warn: bool, interval: int)
    requires Sound(s) && Enabled(s, GiveUp(id, warn))
    ensures CallersSound(Stepped(s, GiveUp(id, warn), interval)) && ToldSound(Stepped(s, GiveUp(id, warn), interval))
  {
    hide Did, Orderly, InFlight, Regular;
    var op := Op.Stall(s.callers[id].gen, warn);
    OthersReturnNothing(s.p, op);
    ChannelsStay(s.p, op);
    LastGoodIsRegular(s.good, s.callers[id].since);
    AnswerStaysSound(s.(p := Did(s.p, op)), id,
                     Told(LastGood(s.file.token, s.file.loaded), s.callers[id].since, |s.good|, false));
  }

  /** A closed channel means a read has returned: there is a token, or that read's error. */
  lemma {:induction false} WokenIsNotPending(s: System, id: nat)
    requires Sound(s) && id in s.callers && s.callers[id].Woken?
    ensures !WokenAnswer(s.file).Pending? && Regular(WokenAnswer(s.file), s.callers[id].since, s.good)
  {
    hide InFlight, Regular;
    assert 0 < s.p.closings[0].gen <= |s.p.returned|;
    LastGoodIsRegular(s.good, s.callers[id].since);
  }

  lemma {:induction false} WakeStaysSound(s: System, id: nat, interval: int)
    requires Sound(s) && Enabled(s, Wake(id))
    ensures CallersSound(Stepped(s, Wake(id), interval)) && ToldSound(Stepped(s, Wake(id), interval))
  {
    hide InFlight, Regular;
    assert 0 < s.callers[id].channel <= |s.p.closings|;
  }

  lemma {:induction false} StepStaysSound(s: System, step: Step, interval: int)
    requires Sound(s) && Enabled(s, step)
    ensures Sound(Stepped(s, step, interval))
  {
    hide Did, Orderly, InFlight, FileSound, Enters, Returns, Regular;
    StepStaysFileSound(s, step, interval);
    match step {
      case Enter(id, now) => EntersStaysSound(s, id, now, interval);
      case ReadReturns(gen, result, now) => ReturnsStaysCallersSound(s, gen, result, now);
      case GiveUp(id, warn) => GiveUpStaysSound(s, id, warn, interval);
      case Wake(id) => WakeStaysSound(s, id, interval);
      case AnswerWoken(id) =>
        WokenIsNotPending(s, id);
        AnswerStaysSound(s, id, Told(WokenAnswer(s.file), s.callers[id].since, |s.good|, true));
      case GiveUpFirst(id) =>
        NothingToFallBackOn(s, id);
        AnswerStaysSound(s, id, Told(Pending, s.callers[id].since, |s.good|, false));
      case SeeRead(id) =>
        AnswerStaysSound(s, id, Told(s.left[s.callers[id].gen - 1], s.callers[id].since, |s.good|, false));
      case DirectRead(token, now) => PublishingStaysSound(s, [token]);
      case TimeOut(id) =>
    }
  }

  lemma {:induction false} NothingToFallBackOn(s: System, id: nat)
    requires CallersSound(s) && id in s.callers && s.callers[id].AwaitingFirst?
    ensures Regular(Pending, s.callers[id].since, s.good)
  {
  }

  /** In every interleaving: the claimed reads keep the single-flight protocol; every token presented
      was the last good one at some time during its call; a call that began with a token to fall back on
      is answered with a token; and one woken by the end of a read is never told that it is pending. */
  lemma {:induction false} EveryRunIsSound(steps: seq<Step>, interval: int)
    ensures Sound(Ran(steps, interval))
  {
    if steps != [] {
      var before := steps[..|steps| - 1];
      EveryRunIsSound(before, interval);
      if Enabled(Ran(before, interval), steps[|steps| - 1]) {
        StepStaysSound(Ran(before, interval), steps[|steps| - 1], interval);
      }
    }
  }

  /** Over every run, exactly when a call reads the file: when no claimed read is in flight, and either no
      token was ever published or the last publication or returned read lies the interval or more back. */
  lemma {:induction false} ReadsIffStale(steps: seq<Step>, interval: int, id: nat, now: int)
    requires id !in Ran(steps, interval).callers
    ensures
      var s := Ran(steps, interval);
      var after := Ran(steps + [Enter(id, now)], interval);
      if InFlight(s.p) == {} && (s.good == [] || (s.times != [] && now - s.times[|s.times| - 1] >= interval))
      then
        && after.p.claims == s.p.claims + [|s.p.claims| + 1]
        && after.callers == s.callers[id := AwaitingRead(|s.good|, |s.p.claims| + 1)]
      else after.p.claims == s.p.claims
  {
    hide Ran, CallersSound, ToldSound;
    var s := Ran(steps, interval);
    EveryRunIsSound(steps, interval);
    RanOn(steps, Enter(id, now), interval);
    EntersIffStale(s, id, now, interval);
  }

  lemma {:induction false} EntersIffStale(s: System, id: nat, now: int, interval: int)
    requires FileSound(s)
    ensures
      var after := Enters(s, id, now, interval);
      if InFlight(s.p) == {} && (s.good == [] || (s.times != [] && now - s.times[|s.times| - 1] >= interval))
      then
        && after.p.claims == s.p.claims + [|s.p.claims| + 1]
        && after.callers == s.callers[id := AwaitingRead(|s.good|, |s.p.claims| + 1)]
      else after.p.claims == s.p.claims
  {
    hide InFlight;
    InFlightIsTheClaim(s.p);
  }

  /** And what the others get: the token published last, at once; or, before there is one, to wait for the
      read in flight. */
  lemma {:induction false} OthersAreAnswered(steps: seq<Step>, interval: int, id: nat, now: int)
    requires id !in Ran(steps, interval).callers
    ensures
      var s := Ran(steps, interval);
      var after := Ran(steps + [Enter(id, now)], interval);
      after.p.claims == s.p.claims ==>
        if s.good != [] then after.told == s.told + [Told(Present(s.good[|s.good| - 1]), |s.good|, |s.good|, false)]
        else id in after.callers && after.callers[id] == AwaitingFirst(0, after.p.flight.done) && InFlight(s.p) != {}
  {
    hide Ran, CallersSound, ToldSound, InFlight;
    var s := Ran(steps, interval);
    EveryRunIsSound(steps, interval);
    InFlightIsTheClaim(s.p);
    RanOn(steps, Enter(id, now), interval);
  }

  /** Who claimed a read that returned is told what it found: its token; its error, when there is no other
      token; or else a token. */
  lemma {:induction false} ClaimerHearsItsRead(steps: seq<Step>, interval: int, id: nat)
    requires Enabled(Ran(steps, interval), SeeRead(id))
    ensures 0 < Ran(steps, interval).callers[id].gen <= |Ran(steps, interval).found|
    ensures
      var s := Ran(steps, interval);
      var told := Ran(steps + [SeeRead(id)], interval).told;
      var found := s.found[s.callers[id].gen - 1];
      && |told| == |s.told| + 1
      && (found.Good? ==> told[|s.told|].answer == Present(found.token))
      && (found.Bad? ==> told[|s.told|].answer == Failed(found.error) || told[|s.told|].answer.Present?)
  {
    hide Ran, Orderly, ToldSound, Regular, InFlight;
    EveryRunIsSound(steps, interval);
    RanOn(steps, SeeRead(id), interval);
  }

  /** Once no read is in flight, everyone who waits for one can go on. */
  lemma {:induction false} WaitersCanWake(steps: seq<Step>, interval: int, id: nat)
    requires
      var s := Ran(steps, interval);
      InFlight(s.p) == {} && id in s.callers && s.callers[id].AwaitingFirst?
    ensures Enabled(Ran(steps, interval), Wake(id))
  {
    hide Ran, ToldSound, Regular, InFlight;
    var s := Ran(steps, interval);
    EveryRunIsSound(steps, interval);
    InFlightIsTheClaim(s.p);
    assert s.p.closings[s.callers[id].channel - 1].channel == s.callers[id].channel;
  }

  /** What a woken caller is told, exactly: the token that is loaded; or, when none ever was, the error
      of the last claimed read that returned. The read it waited for is that one or an earlier one. */
  lemma {:induction false} WokenHearsTheLastRead(steps: seq<Step>, interval: int, id: nat)
    requires
      var s := Ran(steps, interval);
      id in s.callers && s.callers[id].Woken?
    ensures
      var s := Ran(steps, interval);
      var answer := WokenAnswer(s.file);
      (s.file.loaded && answer == Present(s.file.token)) ||
      (!s.file.loaded && s.found != [] && s.found[|s.found| - 1].Bad? &&
       answer == Failed(s.found[|s.found| - 1].error))
    ensures
      var s := Ran(steps, interval);
      var ch := s.callers[id].channel;
      0 < ch <= |s.p.closings| && s.p.closings[ch - 1].channel == ch && 0 < s.p.closings[ch - 1].gen <= |s.found|
  {
    var s := Ran(steps, interval);
    EveryRunIsSound(steps, interval);
    WokenIsNotPending(s, id);
  }

  /** The claimed read that woke a caller. */
  function WokenBy(s: System, id: nat): nat
    requires id in s.callers && s.callers[id].Woken? && 0 < s.callers[id].channel <= |s.p.closings|
  {
    s.p.closings[s.callers[id].channel - 1].gen
  }

  /** Exactly when a woken caller that gets no token is told what its own read found: when the last read
      that returned found the same error; above all, when its own read is the last that returned. */
  lemma {:induction false} HearsItsOwnReadIff(steps: seq<Step>, interval: int, id: nat)
    requires
      var s := Ran(steps, interval);
      id in s.callers && s.callers[id].Woken? && !s.file.loaded
    ensures
      var s := Ran(steps, interval);
      && 0 < s.callers[id].channel <= |s.p.closings| && 0 < WokenBy(s, id) <= |s.found|
      && s.found[WokenBy(s, id) - 1].Bad? && s.found[|s.found| - 1].Bad?
      && (WokenAnswer(s.file) == Failed(s.found[WokenBy(s, id) - 1].error) <==>
          s.found[|s.found| - 1].error == s.found[WokenBy(s, id) - 1].error)
      && (WokenBy(s, id) == |s.found| ==> WokenAnswer(s.file) == Failed(s.found[WokenBy(s, id) - 1].error))
  {
    hide Ran, Orderly, CallersSound, ToldSound;
    EveryRunIsSound(steps, interval);
    WokenHearsTheLastRead(steps, interval, id);
  }

  /** Two calls find the first read, which fails; before the woken one looks, a third call claims a read
      that fails too. */
  const LATE_LOOK: seq<Step> := [
    Enter(0, 0), Enter(1, 0), Step.ReadReturns(1, Bad(1), 0), Wake(1), Enter(2, 0), Step.ReadReturns(2, Bad(2), 0)
  ]

  lemma {:induction false} RanOn(steps: seq<Step>, step: Step, interval: int)
    requires Enabled(Ran(steps, interval), step)
    ensures Ran(steps + [step], interval) == Stepped(Ran(steps, interval), step, interval)
  {
    assert (steps + [step])[..|steps + [step]| - 1] == steps;
  }

  lemma {:induction false} BothEntered(interval: int)
    ensures
      var s := Ran(LATE_LOOK[..2], interval);
      && s.file == FileState([], 0, false, None) && s.p.flight == FlightState(true, 1, false, false, 1, 1)
      && s.p.claims == [1] && s.p.returned == [] && s.p.closings == [] && s.found == [] && s.good == []
      && s.callers == map[0 := AwaitingRead(0, 1), 1 := AwaitingFirst(0, 1)]
  {
    assert LATE_LOOK[..1] == [] + [LATE_LOOK[0]] && LATE_LOOK[..2] == LATE_LOOK[..1] + [LATE_LOOK[1]];
    RanOn([], LATE_LOOK[0], interval);
    RanOn(LATE_LOOK[..1], LATE_LOOK[1], interval);
  }

  /** The first half of that run: the caller is woken by the read that failed. */
  lemma {:induction false} WokenByTheFirst(interval: int)
    ensures
      var s := Ran(LATE_LOOK[..4], interval);
      && s.file == FileState([], 0, false, Some(1)) && s.p.flight == FlightState(false, 1, false, false, 0, 1)
      && s.p.claims == [1] && s.p.returned == [1] && s.p.closings == [Closing(1, 1)] && s.found == [Bad(1)]
      && s.callers == map[0 := AwaitingRead(0, 1), 1 := Woken(0, 1)]
  {
    BothEntered(interval);
    assert LATE_LOOK[..3] == LATE_LOOK[..2] + [LATE_LOOK[2]] && LATE_LOOK[..4] == LATE_LOOK[..3] + [LATE_LOOK[3]];
    RanOn(LATE_LOOK[..2], LATE_LOOK[2], interval);
    assert Ran(LATE_LOOK[..3], interval).p.closings[0].channel == 1;
    RanOn(LATE_LOOK[..3], LATE_LOOK[3], interval);
  }

  /** So a woken caller may be told the error of a read it did not wait for. */
  lemma {:induction false} WokenMayHearALaterRead(interval: int)
    ensures
      var s := Ran(LATE_LOOK, interval);
      && 1 in s.callers && s.callers[1].Woken? && s.callers[1].channel == 1 && |s.p.closings| == 1
      && WokenBy(s, 1) == 1 && s.found == [Bad(1), Bad(2)] && WokenAnswer(s.file) == Failed(2)
  {
    assert LATE_LOOK[..5] == LATE_LOOK[..4] + [LATE_LOOK[4]] && LATE_LOOK == LATE_LOOK[..5] + [LATE_LOOK[5]];
    WokenByTheFirst(interval);
    RanOn(LATE_LOOK[..4], LATE_LOOK[4], interval);
    RanOn(LATE_LOOK[..5], LATE_LOOK[5], interval);
  }
}
