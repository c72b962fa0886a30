/** The cached app domain: a value refreshed by a loader no more often than its deadlines
    allow, and at once after a reset. */
module AppDomainCaches {
  import opened Wrappers

  type Time = int

  const SECOND: Time := 1_000_000_000
  const APP_DOMAIN_TTL := 600 * SECOND
  const APP_DOMAIN_ERROR_TTL := 30 * SECOND
  const ZERO_TIME: Time := 0

  /** What a call of the loader comes back with. */
  datatype Answer = Domain(domain: string) | LoadError

  datatype State = State(hasLoader: bool, seeded: bool, domain: string, nextLoad: Time)

  const INITIAL := State(false, false, "", ZERO_TIME)

  /** A read finds the clock at now, and at after once the loader, if it is called, has
      given its answer. */
  datatype Event =
    | Read(configured: string, now: Time, after: Time, answer: Answer)
    | SetReloadFunc(present: bool)
    | SetToNeedReload

  /** Whether an event calls the loader. */
  predicate Loads(s: State, e: Event) {
    e.Read? && s.nextLoad <= e.now && s.hasLoader
  }

  function Window(answer: Answer): Time {
    if answer.LoadError? then APP_DOMAIN_ERROR_TTL else APP_DOMAIN_TTL
  }

  function Step(s: State, e: Event): State {
    match e
    case SetReloadFunc(present) => s.(hasLoader := present)
    case SetToNeedReload => s.(nextLoad := ZERO_TIME)
    case Read(configured, now, after, answer) =>
      var known := if s.seeded then s.domain else configured;
      if !Loads(s, e) then s.(seeded := true, domain := known)
      else
        s.(seeded := true,
           domain := if answer.Domain? && answer.domain != "" then answer.domain else known,
           nextLoad := after + Window(answer))
  }

  // ---------------------------------------------------------------- The cache itself

  class AppDomainCache {
    var hasLoader: bool
    var seeded: bool
    var domain: string
    var nextLoad: Time

    function Now(): State
      reads this
    {
      State(hasLoader, seeded, domain, nextLoad)
    }

    constructor ()
      ensures Now() == INITIAL
    {
      hasLoader, seeded, domain, nextLoad := false, false, "", ZERO_TIME;
    }

    method LoadAppDomain(configured: string, now: Time, after: Time, answer: Answer)
      returns (served: string, called: bool)
      modifies this
      ensures Now() == Step(old(Now()), Read(configured, now, after, answer))
      ensures called <==> Loads(old(Now()), Read(configured, now, after, answer))
      ensures served == domain
    {
      called := false;
      if !seeded {
        domain := configured;
        seeded := true;
      }
      if now < nextLoad {
        return domain, false;
      }
      if !hasLoader {
        return domain, false;
      }
      called := true;
      if answer.LoadError? {
        nextLoad := after + APP_DOMAIN_ERROR_TTL;
        return domain, true;
      }
      if answer.domain != "" {
        domain := answer.domain;
      }
      nextLoad := after + APP_DOMAIN_TTL;
      return domain, true;
    }

    method SetAppDomainReloadFunc(present: bool)
      modifies this
      ensures Now() == Step(old(Now()), SetReloadFunc(present))
    {
      hasLoader := present;
    }

    method SetAppDomainToNeedReload()
      modifies this
      ensures Now() == Step(old(Now()), SetToNeedReload)
    {
      nextLoad := ZERO_TIME;
    }
  }

  // ---------------------------------------------------------------- Whole runs

  function After(s: State, events: seq<Event>): State
    decreases |events|
  {
    if events == [] then s else After(Step(s, events[0]), events[1..])
  }

  function LoadCount(s: State, events: seq<Event>): nat
    decreases |events|
  {
    if events == [] then 0
    else (if Loads(s, events[0]) then 1 else 0) + LoadCount(Step(s, events[0]), events[1..])
  }

  function ResetCount(events: seq<Event>): nat {
    multiset(events)[SetToNeedReload]
  }

  lemma ResetsOfOneMore(events: seq<Event>)
    requires events != []
    ensures ResetCount(events) == (if events[0].SetToNeedReload? then 1 else 0) + ResetCount(events[1..])
  {
    assert events == [events[0]] + events[1..];
    assert multiset(events) == multiset([events[0]]) + multiset(events[1..]);
  }

  /** The clock never runs back: not between two reads, not during one. */
  predicate Monotone(start: Time, events: seq<Event>)
    decreases |events|
  {
    events != [] ==>
      if events[0].Read? then
        start <= events[0].now <= events[0].after && Monotone(events[0].after, events[1..])
      else
        Monotone(start, events[1..])
  }

  function EndTime(start: Time, events: seq<Event>): Time
    decreases |events|
  {
    if events == [] then start
    else EndTime(if events[0].Read? then events[0].after else start, events[1..])
  }

  /** How long the next load has to wait, up to the shortest window. */
  function Wait(s: State, start: Time): Time {
    if s.nextLoad <= start then 0
    else if s.nextLoad - start < APP_DOMAIN_ERROR_TTL then s.nextLoad - start
    else APP_DOMAIN_ERROR_TTL
  }

  lemma {:induction false} LoadBudget(s: State, start: Time, events: seq<Event>)
    requires ZERO_TIME <= start && Monotone(start, events)
    ensures LoadCount(s, events) * APP_DOMAIN_ERROR_TTL + Wait(s, start)
         <= (ResetCount(events) + 1) * APP_DOMAIN_ERROR_TTL + EndTime(start, events) - start
    decreases |events|
  {
    if events != [] {
      ResetsOfOneMore(events);
      LoadBudget(Step(s, events[0]), if events[0].Read? then events[0].after else start, events[1..]);
    }
  }

  /** From any state, however it came about: the loads of a stretch of time number at most
      one, one for each reset, and one for each full 30 seconds of it. */
  lemma LoadRateIsBounded(s: State, start: Time, events: seq<Event>)
    requires ZERO_TIME <= start && Monotone(start, events)
    ensures LoadCount(s, events)
         <= ResetCount(events) + 1 + (EndTime(start, events) - start) / (30 * SECOND)
  {
    LoadBudget(s, start, events);
  }

  /** With neither a reset nor a load the deadline stays. */
  lemma {:induction false} DeadlineStays(s: State, events: seq<Event>)
    requires ResetCount(events) == 0 && LoadCount(s, events) == 0
    ensures After(s, events).nextLoad == s.nextLoad
    decreases |events|
  {
    if events != [] {
      ResetsOfOneMore(events);
      DeadlineStays(Step(s, events[0]), events[1..]);
    }
  }

  /** With no reset since, the next read to load is the first, with a loader there, that is as
      far from the last load as its outcome says. */
  lemma LoadsAreApart(s: State, first: Event, between: seq<Event>, second: Event)
    requires first.Read? && first.now >= s.nextLoad && s.hasLoader && second.Read?
    requires ResetCount(between) == 0 && LoadCount(Step(s, first), between) == 0
    ensures Loads(After(Step(s, first), between), second)
       <==> && After(Step(s, first), between).hasLoader
            && second.now >= first.after + (if first.answer.LoadError? then 30 else 600) * SECOND
  {
    DeadlineStays(Step(s, first), between);
  }

  /** A domain once known is never given up for none, whatever is loaded, fails or is reset. */
  lemma {:induction false} DomainStaysKnown(s: State, events: seq<Event>)
    requires s.seeded && s.domain != ""
    ensures After(s, events).seeded && After(s, events).domain != ""
    decreases |events|
  {
    if events != [] {
      DomainStaysKnown(Step(s, events[0]), events[1..]);
    }
  }

  /** The domains loaders gave over a run, in order. */
  function Given(s: State, events: seq<Event>): seq<string>
    decreases |events|
  {
    if events == [] then []
    else
      var e := events[0];
      (if Loads(s, e) && e.answer.Domain? && e.answer.domain != "" then [e.answer.domain] else [])
      + Given(Step(s, e), events[1..])
  }

  /** The configured domain of the first read there is. */
  function FirstConfigured(events: seq<Event>): Option<string> {
    if events == [] then None
    else if events[0].Read? then Some(events[0].configured)
    else FirstConfigured(events[1..])
  }

  /** Whatever is read, loaded, fails or is reset, the domain is the last one a loader gave;
      before there is one, the one it began with, or that configured at the first read. */
  lemma {:induction false} DomainIsTheLastGiven(s: State, events: seq<Event>)
    ensures Given(s, events) != [] ==> After(s, events).domain == Given(s, events)[|Given(s, events)| - 1]
    ensures Given(s, events) == [] ==>
              After(s, events).domain == if s.seeded || FirstConfigured(events).None? then s.domain
                                         else FirstConfigured(events).value
    ensures After(s, events).seeded <==> s.seeded || FirstConfigured(events).Some?
    decreases |events|
  {
    if events != [] {
      DomainIsTheLastGiven(Step(s, events[0]), events[1..]);
    }
  }

  /** So a domain loaded is served by that read and every later one, until another is. */
  lemma LoadedIsServed(s: State, e: Event, later: seq<Event>)
    requires e.Read? && e.now >= s.nextLoad && s.hasLoader && e.answer.Domain? && e.answer.domain != ""
    requires Given(Step(s, e), later) == []
    ensures After(Step(s, e), later).domain == e.answer.domain
  {
    DomainIsTheLastGiven(Step(s, e), later);
  }

  lemma {:induction false} DeadlineIsNear(s: State, start: Time, events: seq<Event>)
    requires ZERO_TIME <= start && Monotone(start, events)
    requires s.nextLoad <= start + APP_DOMAIN_TTL
    ensures After(s, events).nextLoad <= EndTime(start, events) + APP_DOMAIN_TTL
    decreases |events|
  {
    if events != [] {
      DeadlineIsNear(Step(s, events[0]), if events[0].Read? then events[0].after else start, events[1..]);
    }
  }

  /** The longer window bounds how long a domain is served unchecked: in every run from the
      start, once it has passed since the last event, the next read loads. */
  lemma StaleReadLoads(start: Time, events: seq<Event>, e: Event)
    requires ZERO_TIME <= start && Monotone(start, events)
    requires e.Read? && e.now >= EndTime(start, events) + 600 * SECOND
    requires After(INITIAL, events).hasLoader
    ensures Loads(After(INITIAL, events), e)
  {
    DeadlineIsNear(INITIAL, start, events);
  }
}
