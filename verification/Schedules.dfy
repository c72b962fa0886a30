/** The scheduled-run calculator: which instants a job runs at, and the remembered
    last run that later scans resume from. */
module Schedules {
  import opened Wrappers

  // ---------------------------------------------------------------- Time

  /** Nanoseconds from Go's zero time. */
  type Time = int

  const ZERO_TIME: Time := 0
  const MAX_DURATION := 0x7FFF_FFFF_FFFF_FFFF
  const MIN_DURATION := -0x8000_0000_0000_0000

  /** A difference of two times, saturated to what a 64-bit duration holds. */
  function Sub(t: Time, u: Time): (d: int)
    ensures MIN_DURATION <= d <= MAX_DURATION
    ensures MIN_DURATION <= t - u <= MAX_DURATION ==> d == t - u
    ensures t - u > MAX_DURATION ==> d == MAX_DURATION
    ensures t - u < MIN_DURATION ==> d == MIN_DURATION
  {
    if t - u > MAX_DURATION then MAX_DURATION
    else if t - u < MIN_DURATION then MIN_DURATION
    else t - u
  }

  // ---------------------------------------------------------------- The cron library

  /** Where an expression's hours are read: the installation's zone, or a fixed offset. */
  datatype Location = Installation | Offset(seconds: int)

  /** The cron library, as far as the calculator uses it: which expressions parse, the
      instants one fires at in a location, and the next of them after a time. */
  datatype CronLib = CronLib(
    parses: string -> bool,
    fires: (string, Location, Time) -> bool,
    next: (string, Location, Time) -> Time)

  ghost predicate IsNextFiring(lib: CronLib, expr: string, loc: Location, t: Time, n: Time) {
    t < n && lib.fires(expr, loc, n) && forall u :: t < u < n ==> !lib.fires(expr, loc, u)
  }

  /** What the library promises: next is the least firing after a time, or the zero time
      where it finds none. */
  ghost predicate KeepsPromise(lib: CronLib, expr: string, loc: Location) {
    forall t :: lib.next(expr, loc, t) == ZERO_TIME || IsNextFiring(lib, expr, loc, t, lib.next(expr, loc, t))
  }

  // ---------------------------------------------------------------- Schedules

  datatype Error = ArgumentInvalid(name: string) | CronSyntax

  type Result<+T> = Wrappers.Result<T, Error>

  /** A schedule's fields; zone is the UTC offset its initial time was given with. */
  datatype Schedule = Schedule(
    cronExpr: string, interval: int, initialTime: Time, zone: int, endTime: Time,
    lastSchedTime: Time, lastCronExpr: string, lastInterval: int, lastInitialTime: Time)
  {
    function CronLocation(): Location {
      if zone != 0 then Offset(zone) else Installation
    }

    /** The last run made by this schedule, when it is before fromTime. */
    predicate ResumesFrom(fromTime: Time) {
      && lastSchedTime != ZERO_TIME
      && lastSchedTime < fromTime
      && lastCronExpr == cronExpr
      && lastInterval == interval
      && lastInitialTime == initialTime
    }

    function CountingFrom(fromTime: Time): Time {
      if ResumesFrom(fromTime) then lastSchedTime else initialTime
    }

    /** The error a calculation ends in, whatever the times it is asked for. */
    function Fault(lib: CronLib): Result<()> {
      if interval > 0 then Success(())
      else if cronExpr == "" then Failure(ArgumentInvalid("Schedule"))
      else if !lib.parses(cronExpr) then Failure(CronSyntax)
      else Success(())
    }

    /** Whether the calculation reads the cron expression. */
    predicate ReadsCron(lib: CronLib) {
      interval <= 0 && cronExpr != "" && lib.parses(cronExpr)
    }

    function Next(lib: CronLib, t: Time): Time {
      lib.next(cronExpr, CronLocation(), t)
    }

    /** Whether a schedule may be saved: it has one of the two, and a cron expression parses. */
    function IsValid(lib: CronLib): Result<()> {
      if cronExpr != "" then
        if interval > 0 then Failure(ArgumentInvalid("Schedule"))
        else if !lib.parses(cronExpr) then Failure(CronSyntax)
        else Success(())
      else if interval > 0 then Success(())
      else Failure(ArgumentInvalid("Schedule"))
    }

    function WithLast(t: Time): Schedule {
      if t == ZERO_TIME || t == lastSchedTime then this
      else this.(lastSchedTime := t, lastCronExpr := cronExpr,
                 lastInterval := interval, lastInitialTime := initialTime)
    }

    function Forgotten(): Schedule {
      this.(lastSchedTime := ZERO_TIME, lastCronExpr := "", lastInterval := 0, lastInitialTime := ZERO_TIME)
    }
  }

  /** t is a run when runs are counted from base. An interval's end is exclusive and its
      base a run; a cron expression's end is inclusive and its base none. */
  predicate IsRun(lib: CronLib, s: Schedule, base: Time, t: Time) {
    if s.interval > 0 then
      base <= t && (t - base) % s.interval == 0 && (s.endTime == ZERO_TIME || t < s.endTime)
    else
      && s.cronExpr != "" && base < t && lib.fires(s.cronExpr, s.CronLocation(), t)
      && (s.endTime == ZERO_TIME || t <= s.endTime)
  }

  /** The runs of a window, found by looking at each nanosecond of it. */
  ghost function RunsIn(lib: CronLib, s: Schedule, base: Time, from: Time, till: Time): seq<Time>
    decreases if from <= till then till - from + 1 else 0
  {
    if from > till then []
    else RunsIn(lib, s, base, from, till - 1) + (if IsRun(lib, s, base, till) then [till] else [])
  }

  // ---------------------------------------------------------------- What the reference list is

  ghost predicate Increasing(ts: seq<Time>) {
    forall i, j :: 0 <= i < j < |ts| ==> ts[i] < ts[j]
  }

  /** ts lists the runs of a window in order, each once. */
  ghost predicate ListsRuns(lib: CronLib, s: Schedule, base: Time, from: Time, till: Time, ts: seq<Time>) {
    && Increasing(ts)
    && forall t :: (t in ts <==> from <= t <= till && IsRun(lib, s, base, t))
  }

  lemma Appended(ts: seq<Time>, t: Time)
    requires Increasing(ts) && forall u :: u in ts ==> u < t
    ensures Increasing(ts + [t])
    ensures forall u :: (u in ts + [t] <==> u in ts || u == t)
  {
    forall i, j | 0 <= i < j < |ts + [t]|
      ensures (ts + [t])[i] < (ts + [t])[j]
    {
      assert (ts + [t])[i] in ts;
    }
  }

  /** The reference list is strictly increasing and holds the window's runs and no others. */
  lemma {:induction false} RunsInExact(lib: CronLib, s: Schedule, base: Time, from: Time, till: Time)
    ensures ListsRuns(lib, s, base, from, till, RunsIn(lib, s, base, from, till))
    decreases if from <= till then till - from + 1 else 0
  {
    if from <= till {
      RunsInExact(lib, s, base, from, till - 1);
      Appended(RunsIn(lib, s, base, from, till - 1), till);
    }
  }

  lemma {:induction false} IncreasingUnique(a: seq<Time>, b: seq<Time>)
    requires Increasing(a) && Increasing(b)
    requires forall t :: t in a <==> t in b
    ensures a == b
  {
    assert a != [] ==> a[|a| - 1] in a;
    assert b != [] ==> b[|b| - 1] in b;
    if a != [] {
      var a', b' := a[..|a| - 1], b[..|b| - 1];
      forall t
        ensures t in a' <==> t in b'
      {
        assert t in a <==> t in a' || t == a[|a| - 1];
        assert t in b <==> t in b' || t == b[|b| - 1];
      }
      IncreasingUnique(a', b');
    }
  }

  /** What lists a window's runs is the reference list. */
  lemma ListedIsRunsIn(lib: CronLib, s: Schedule, base: Time, from: Time, till: Time, ts: seq<Time>)
    requires ListsRuns(lib, s, base, from, till, ts)
    ensures ts == RunsIn(lib, s, base, from, till)
  {
    RunsInExact(lib, s, base, from, till);
    IncreasingUnique(ts, RunsIn(lib, s, base, from, till));
  }

  /** Windows tile: the runs of [from, to] are those up to mid, then those after it. */
  lemma {:induction false} WindowsTile(lib: CronLib, s: Schedule, base: Time, from: Time, mid: Time, till: Time)
    requires from - 1 <= mid <= till
    ensures RunsIn(lib, s, base, from, till)
         == RunsIn(lib, s, base, from, mid) + RunsIn(lib, s, base, mid + 1, till)
    decreases till - mid
  {
    if mid < till {
      WindowsTile(lib, s, base, from, mid, till - 1);
    }
  }

  // ---------------------------------------------------------------- The grid of an interval

  predicate OnGrid(base: Time, interval: int, t: Time)
    requires interval > 0
  {
    base <= t && (t - base) % interval == 0
  }

  lemma {:induction false} MulGap(i: int, p: int, q: int)
    requires i > 0 && p < q
    ensures i * p + i <= i * q
    decreases q - p
  {
    assert i * q == i * (q - 1) + i;
    if p + 1 < q {
      MulGap(i, p, q - 1);
    }
  }

  lemma ModUnique(x: int, i: int, q: int, r: int)
    requires i > 0 && 0 <= r < i && x == i * q + r
    ensures x % i == r && x / i == q
  {
    var q' := x / i;
    assert x == i * q' + x % i;
    if q < q' { MulGap(i, q, q'); }
    if q' < q { MulGap(i, q', q); }
  }

  predicate IsPoint(base: Time, interval: int, k: nat, t: Time) {
    t == base + k * interval
  }

  /** An interval's runs are the base and each whole number of intervals after it, up to the
      end and not at it; a cron expression's are the firings after the base, up to the end and
      at it. With an interval the expression is not looked at. */
  lemma IsRunIff(lib: CronLib, s: Schedule, base: Time, t: Time)
    ensures IsRun(lib, s, base, t) <==>
              IsRun(lib, s.(endTime := ZERO_TIME), base, t)
              && (s.endTime == ZERO_TIME || t < s.endTime || (t == s.endTime && s.interval <= 0))
    ensures s.interval > 0 && s.endTime == ZERO_TIME ==>
              (IsRun(lib, s, base, t) <==> exists k: nat :: IsPoint(base, s.interval, k, t))
    ensures s.interval <= 0 && s.endTime == ZERO_TIME ==>
              (IsRun(lib, s, base, t) <==> s.cronExpr != "" && t > base && lib.fires(s.cronExpr, s.CronLocation(), t))
  {
    if s.interval > 0 {
      if base <= t && (t - base) % s.interval == 0 {
        assert IsPoint(base, s.interval, (t - base) / s.interval, t);
      }
      if k: nat :| IsPoint(base, s.interval, k, t) {
        ModUnique(t - base, s.interval, k, 0);
      }
    }
  }

  lemma GridStep(base: Time, interval: int, t: Time, d: int)
    requires interval > 0 && OnGrid(base, interval, t) && 0 <= d <= interval
    ensures OnGrid(base, interval, t + d) <==> d == 0 || d == interval
  {
    var x := t - base;
    assert x == interval * (x / interval);
    if d < interval {
      ModUnique(x + d, interval, x / interval, d);
    } else {
      assert x + d == interval * (x / interval + 1);
      ModUnique(x + d, interval, x / interval + 1, 0);
    }
  }

  lemma GridJump(base: Time, interval: int, diff: int)
    requires interval > 0 && diff >= 0
    ensures OnGrid(base, interval, base + diff / interval * interval)
    ensures 0 <= diff / interval * interval <= diff
  {
    ModUnique(diff / interval * interval, interval, diff / interval, 0);
  }

  /** Grids of one interval through each other's points are the same from there on. */
  lemma GridShift(base: Time, interval: int, later: Time, t: Time)
    requires interval > 0 && OnGrid(base, interval, later) && later <= t
    ensures OnGrid(base, interval, t) <==> OnGrid(later, interval, t)
  {
    var a, b := later - base, t - later;
    assert a == interval * (a / interval);
    assert b == interval * (b / interval) + b % interval;
    assert t - base == interval * (a / interval + b / interval) + b % interval;
    ModUnique(t - base, interval, a / interval + b / interval, b % interval);
  }

  lemma NoRunBetweenGridPoints(lib: CronLib, s: Schedule, base: Time, at: Time)
    requires s.interval > 0 && OnGrid(base, s.interval, at)
    ensures forall t :: at < t < at + s.interval ==> !IsRun(lib, s, base, t)
  {
    forall t | at < t < at + s.interval
      ensures !IsRun(lib, s, base, t)
    {
      GridStep(base, s.interval, at, t - at);
    }
  }

  /** Where the jump lands: as many whole intervals on as the time to go, as far as a duration
      can say it, holds. */
  function Jumped(base: Time, interval: int, fromTime: Time): Time
    requires interval > 0
  {
    var diff := Sub(fromTime, base);
    if diff > interval then base + diff / interval * interval else base
  }

  lemma JumpLandsOnGrid(base: Time, interval: int, fromTime: Time)
    requires interval > 0
    ensures var at := Jumped(base, interval, fromTime);
            OnGrid(base, interval, at) && (at <= fromTime || at == base)
  {
    var diff := Sub(fromTime, base);
    if diff > interval {
      GridJump(base, interval, diff);
    }
  }

  /** The jump lands on the grid, and passes no run from the time asked from on. */
  lemma JumpPassesNoRun(lib: CronLib, s: Schedule, base: Time, fromTime: Time)
    requires s.interval > 0
    ensures var at := Jumped(base, s.interval, fromTime);
            && OnGrid(base, s.interval, at)
            && (fromTime < at ==> at == base)
            && forall t :: fromTime <= t < at ==> !IsRun(lib, s, base, t)
  {
    JumpLandsOnGrid(base, s.interval, fromTime);
  }

  // ---------------------------------------------------------------- The first runs

  /** Jumps to the last grid point that is not past a time, if there is one to jump to. */
  method JumpAhead(base: Time, interval: int, fromTime: Time) returns (at: Time)
    requires interval > 0
    ensures at == Jumped(base, interval, fromTime) && OnGrid(base, interval, at) && (at <= fromTime || at == base)
  {
    at := base;
    JumpLandsOnGrid(base, interval, fromTime);
    var diff := Sub(fromTime, base);
    if diff > interval {
      at := base + diff / interval * interval;
    }
  }

  /** ts lists the runs from a time on that come before another. */
  ghost predicate ListsBefore(lib: CronLib, s: Schedule, base: Time, from: Time, at: Time, ts: seq<Time>) {
    && Increasing(ts)
    && forall t :: (t in ts <==> from <= t < at && IsRun(lib, s, base, t))
  }

  lemma NoRunBeforeJump(lib: CronLib, s: Schedule, base: Time, at: Time, from: Time)
    requires s.interval > 0 && at == Jumped(base, s.interval, from)
    ensures ListsBefore(lib, s, base, from, at, [])
  {
    JumpPassesNoRun(lib, s, base, from);
  }

  /** A grid point before the end is the next run. */
  lemma GridPointListed(lib: CronLib, s: Schedule, base: Time, from: Time, at: Time, ts: seq<Time>)
    requires s.interval > 0 && OnGrid(base, s.interval, at) && (s.endTime == ZERO_TIME || at < s.endTime)
    requires ListsBefore(lib, s, base, from, at, ts)
    ensures OnGrid(base, s.interval, at + s.interval) && IsRun(lib, s, base, at)
    ensures at < from ==> ListsBefore(lib, s, base, from, at + s.interval, ts)
    ensures at >= from ==> ListsBefore(lib, s, base, from, at + s.interval, ts + [at])
  {
    NoRunBetweenGridPoints(lib, s, base, at);
    GridStep(base, s.interval, at, s.interval);
    Appended(ts, at);
  }

  /** res is the first count runs from a time on, or all of them when there are fewer. */
  ghost predicate FirstRuns(lib: CronLib, s: Schedule, base: Time, from: Time, count: nat, res: seq<Time>) {
    && Increasing(res)
    && |res| <= count
    && (forall t :: t in res ==> from <= t && IsRun(lib, s, base, t))
    && (forall t :: from <= t && IsRun(lib, s, base, t) && t !in res ==>
          |res| == count > 0 && res[count - 1] < t)
  }

  function UpTo(ts: seq<Time>, till: Time): (r: seq<Time>)
    ensures Increasing(ts) ==> forall t :: (t in r <==> t in ts && t <= till)
    ensures Increasing(ts) ==> Increasing(r)
  {
    if ts == [] then []
    else if ts[|ts| - 1] <= till then ts
    else
      assert forall t :: t in ts <==> t == ts[|ts| - 1] || t in ts[..|ts| - 1];
      UpTo(ts[..|ts| - 1], till)
  }

  /** A window's list is the list of the next count runs cut at the window's end, once
      count is large enough to reach it. */
  lemma RangeIsNextRunsCut(lib: CronLib, s: Schedule, base: Time, from: Time, till: Time,
                           count: nat, res: seq<Time>)
    requires FirstRuns(lib, s, base, from, count, res)
    requires |res| < count || (count > 0 && till <= res[count - 1])
    ensures RunsIn(lib, s, base, from, till) == UpTo(res, till)
  {
    ListedIsRunsIn(lib, s, base, from, till, UpTo(res, till));
  }

  // ---------------------------------------------------------------- The schedule object

  /** A schedule that may be saved is one whose runs can be calculated, and that does not
      have both an interval and an expression. */
  lemma ValidIff(lib: CronLib, s: Schedule)
    ensures s.IsValid(lib).Success? <==> s.Fault(lib).Success? && (s.interval <= 0 || s.cronExpr == "")
  {
  }

  ghost predicate Answered(lib: CronLib, s: Schedule, t: Time) {
    IsNextFiring(lib, s.cronExpr, s.CronLocation(), t, s.Next(lib, t))
  }

  /** The library's answer is the next run, unless the end comes before. */
  lemma FiringListed(lib: CronLib, s: Schedule, base: Time, from: Time, at: Time, ts: seq<Time>)
    requires s.ReadsCron(lib) && Answered(lib, s, at) && base <= at
    requires ListsRuns(lib, s, base, from, at, ts)
    ensures var n := s.Next(lib, at);
            && at < n
            && (s.endTime != ZERO_TIME && n > s.endTime ==> forall t :: t > at ==> !IsRun(lib, s, base, t))
            && (s.endTime == ZERO_TIME || n <= s.endTime ==>
                  && IsRun(lib, s, base, n)
                  && ListsRuns(lib, s, base, from, n, if n < from then ts else ts + [n])
                  && forall t :: at < t < n ==> !IsRun(lib, s, base, t))
  {
    Appended(ts, s.Next(lib, at));
  }

  // ---------------------------------------------------------------- Steps through the firings

  /** Where a cron calculation is after n steps from a time. */
  function Searched(lib: CronLib, s: Schedule, t: Time, n: nat): Time {
    if n == 0 then t else s.Next(lib, Searched(lib, s, t, n - 1))
  }

  predicate NotPastEnd(s: Schedule, t: Time) {
    s.endTime == ZERO_TIME || t <= s.endTime
  }

  /** Of the times n steps find, those from a time on. */
  function Gathered(lib: CronLib, s: Schedule, from: Time, t: Time, n: nat): seq<Time> {
    if n == 0 then []
    else if Searched(lib, s, t, n) < from then Gathered(lib, s, from, t, n - 1)
    else Gathered(lib, s, from, t, n - 1) + [Searched(lib, s, t, n)]
  }

  /** The times at which a window's calculation goes on ... */
  function WithinWindow(s: Schedule, from: Time, till: Time): Time -> bool {
    t => NotPastEnd(s, t) && (t < from || t <= till)
  }

  /** ... which is what each of the first n steps finds. */
  ghost predicate StaysIn(lib: CronLib, s: Schedule, t: Time, goesOn: Time -> bool, n: nat) {
    forall j :: 0 < j <= n ==> goesOn(Searched(lib, s, t, j))
  }

  lemma OneMoreWithin(lib: CronLib, s: Schedule, from: Time, till: Time, t: Time, n: nat)
    requires StaysIn(lib, s, t, WithinWindow(s, from, till), n)
    ensures var at := Searched(lib, s, t, n + 1);
            if NotPastEnd(s, at) && (at < from || at <= till)
            then StaysIn(lib, s, t, WithinWindow(s, from, till), n + 1)
            else !WithinWindow(s, from, till)(at)
  {
  }

  /** No step is one the calculation stops at. */
  ghost predicate NeverStops(lib: CronLib, s: Schedule, t: Time, goesOn: Time -> bool) {
    forall n: nat :: n > 0 ==> goesOn(Searched(lib, s, t, n))
  }

  /** A window's calculation stops at its first step out of the window, with what was made. */
  ghost predicate StopsWith(lib: CronLib, s: Schedule, from: Time, till: Time, t: Time, res: seq<Time>) {
    exists n: nat ::
      && StaysIn(lib, s, t, WithinWindow(s, from, till), n)
      && !WithinWindow(s, from, till)(Searched(lib, s, t, n + 1))
      && res == Gathered(lib, s, from, t, n)
  }

  /** Whether a calculation of the next count runs goes on after its nth step. */
  predicate GoesOn(lib: CronLib, s: Schedule, from: Time, count: nat, t: Time, n: nat) {
    NotPastEnd(s, Searched(lib, s, t, n)) && |Gathered(lib, s, from, t, n)| < count
  }

  ghost predicate GoesOnTo(lib: CronLib, s: Schedule, from: Time, count: nat, t: Time, n: nat) {
    forall j :: 0 < j <= n ==> GoesOn(lib, s, from, count, t, j)
  }

  /** It passes no end, and never makes so many. */
  ghost predicate NeverEnds(lib: CronLib, s: Schedule, from: Time, count: nat, t: Time) {
    forall n: nat :: n > 0 ==> GoesOn(lib, s, from, count, t, n)
  }

  /** It ends at the first step it does not go on after, with what was made up to the end. */
  ghost predicate EndsWith(lib: CronLib, s: Schedule, from: Time, count: nat, t: Time, res: seq<Time>) {
    exists n: nat ::
      && GoesOnTo(lib, s, from, count, t, n) && !GoesOn(lib, s, from, count, t, n + 1)
      && res == Gathered(lib, s, from, t, if NotPastEnd(s, Searched(lib, s, t, n + 1)) then n + 1 else n)
  }

  /** Whether the library has a next firing wherever a window's calculation asks for one ... */
  ghost predicate AnsweredInWindow(lib: CronLib, s: Schedule, base: Time, from: Time, till: Time) {
    s.ReadsCron(lib) ==>
      forall n: nat :: StaysIn(lib, s, base, WithinWindow(s, from, till), n) ==>
        Answered(lib, s, Searched(lib, s, base, n))
  }

  /** ... and wherever a calculation of the next count runs does. */
  ghost predicate AnsweredForRuns(lib: CronLib, s: Schedule, base: Time, from: Time, count: nat) {
    s.ReadsCron(lib) ==>
      forall n: nat :: GoesOnTo(lib, s, from, count, base, n) ==> Answered(lib, s, Searched(lib, s, base, n))
  }

  /** Steps that were answered with firings have found every run there is up to where they are. */
  lemma {:induction false} AnsweredSteps(lib: CronLib, s: Schedule, base: Time, from: Time, n: nat)
    requires s.ReadsCron(lib) && forall j :: 0 <= j < n ==> Answered(lib, s, Searched(lib, s, base, j))
    requires forall j :: 0 < j <= n ==> NotPastEnd(s, Searched(lib, s, base, j))
    ensures Searched(lib, s, base, n) >= base + n
    ensures |Gathered(lib, s, from, base, n)| >= if from > base then n - (from - base) else n
    ensures ListsRuns(lib, s, base, from, Searched(lib, s, base, n), Gathered(lib, s, from, base, n))
  {
    if n > 0 {
      AnsweredSteps(lib, s, base, from, n - 1);
      assert Answered(lib, s, Searched(lib, s, base, n - 1)) && NotPastEnd(s, Searched(lib, s, base, n));
      FiringListed(lib, s, base, from, Searched(lib, s, base, n - 1), Gathered(lib, s, from, base, n - 1));
    }
  }

  /** A window's calculation that is answered ends ... */
  lemma AnsweredStops(lib: CronLib, s: Schedule, base: Time, from: Time, till: Time)
    requires s.ReadsCron(lib) && AnsweredInWindow(lib, s, base, from, till)
    ensures !NeverStops(lib, s, base, WithinWindow(s, from, till))
  {
    var on := WithinWindow(s, from, till);
    if NeverStops(lib, s, base, on) {
      var bound := if from > till then from else till + 1;
      var n: nat := if bound > base then bound - base else 1;
      forall j: nat ensures Answered(lib, s, Searched(lib, s, base, j)) {
        assert StaysIn(lib, s, base, on, j);
      }
      AnsweredSteps(lib, s, base, from, n);
      assert false;
    }
  }

  /** ... with the window's runs. */
  lemma AnsweredStopsWithRuns(lib: CronLib, s: Schedule, base: Time, from: Time, till: Time, res: seq<Time>)
    requires s.ReadsCron(lib) && AnsweredInWindow(lib, s, base, from, till)
    requires StopsWith(lib, s, from, till, base, res)
    ensures res == RunsIn(lib, s, base, from, till)
  {
    var on := WithinWindow(s, from, till);
    var n: nat :|
      && StaysIn(lib, s, base, on, n) && !on(Searched(lib, s, base, n + 1))
      && res == Gathered(lib, s, from, base, n);
    forall j | 0 <= j <= n ensures Answered(lib, s, Searched(lib, s, base, j)) {
      assert StaysIn(lib, s, base, on, j);
    }
    AnsweredSteps(lib, s, base, from, n);
    FiringListed(lib, s, base, from, Searched(lib, s, base, n), res);
    assert forall t :: t in res ==> t <= till by { GatheredWithin(lib, s, from, till, base, n); }
    ListedIsRunsIn(lib, s, base, from, till, res);
  }

  lemma {:induction false} GatheredWithin(lib: CronLib, s: Schedule, from: Time, till: Time, t: Time, n: nat)
    requires StaysIn(lib, s, t, WithinWindow(s, from, till), n)
    ensures forall u :: u in Gathered(lib, s, from, t, n) ==> u <= till
  {
    if n > 0 {
      GatheredWithin(lib, s, from, till, t, n - 1);
      assert WithinWindow(s, from, till)(Searched(lib, s, t, n));
    }
  }

  /** A calculation of the next runs that is answered ends, too, ... */
  lemma AnsweredEnds(lib: CronLib, s: Schedule, base: Time, from: Time, count: nat)
    requires s.ReadsCron(lib) && AnsweredForRuns(lib, s, base, from, count)
    ensures !NeverEnds(lib, s, from, count, base)
  {
    if NeverEnds(lib, s, from, count, base) {
      var n: nat := count + (if from > base then from - base else 0) + 1;
      forall j: nat ensures Answered(lib, s, Searched(lib, s, base, j)) {
        assert GoesOnTo(lib, s, from, count, base, j);
      }
      forall j | 0 < j <= n ensures NotPastEnd(s, Searched(lib, s, base, j)) {
        assert GoesOn(lib, s, from, count, base, j);
      }
      assert GoesOn(lib, s, from, count, base, n);
      AnsweredSteps(lib, s, base, from, n);
      assert false;
    }
  }

  /** ... with those. */
  lemma AnsweredEndsWithRuns(lib: CronLib, s: Schedule, base: Time, from: Time, count: nat, res: seq<Time>)
    requires s.ReadsCron(lib) && AnsweredForRuns(lib, s, base, from, count) && count > 0
    requires EndsWith(lib, s, from, count, base, res)
    ensures FirstRuns(lib, s, base, from, count, res)
  {
    var n: nat :|
      && GoesOnTo(lib, s, from, count, base, n) && !GoesOn(lib, s, from, count, base, n + 1)
      && res == Gathered(lib, s, from, base, if NotPastEnd(s, Searched(lib, s, base, n + 1)) then n + 1 else n);
    forall j | 0 <= j <= n ensures Answered(lib, s, Searched(lib, s, base, j)) {
      assert GoesOnTo(lib, s, from, count, base, j);
    }
    forall j | 0 < j <= n ensures NotPastEnd(s, Searched(lib, s, base, j)) {
      assert GoesOn(lib, s, from, count, base, j);
    }
    AnsweredSteps(lib, s, base, from, n);
    assert n > 0 ==> GoesOn(lib, s, from, count, base, n);
    LastStepIsFirstRuns(lib, s, base, from, count, Searched(lib, s, base, n), Gathered(lib, s, from, base, n));
  }

  /** The runs before a step that makes the last of those asked for, or passes the end. */
  lemma LastStepIsFirstRuns(lib: CronLib, s: Schedule, base: Time, from: Time, count: nat, at: Time, ts: seq<Time>)
    requires s.ReadsCron(lib) && Answered(lib, s, at) && base <= at
    requires ListsRuns(lib, s, base, from, at, ts) && |ts| < count
    requires NotPastEnd(s, s.Next(lib, at)) ==> s.Next(lib, at) >= from && |ts| + 1 == count
    ensures FirstRuns(lib, s, base, from, count, if NotPastEnd(s, s.Next(lib, at)) then ts + [s.Next(lib, at)] else ts)
  {
    FiringListed(lib, s, base, from, at, ts);
  }

  /** How many runs a count asks for. */
  function Wanted(count: int): nat {
    if count > 0 then count else 1
  }

  class SchedJobSchedule {
    var cronExpr: string
    var interval: int
    var initialTime: Time
    var zone: int
    var endTime: Time
    var lastSchedTime: Time
    var lastCronExpr: string
    var lastInterval: int
    var lastInitialTime: Time

    function State(): Schedule
      reads this
    {
      Schedule(cronExpr, interval, initialTime, zone, endTime,
               lastSchedTime, lastCronExpr, lastInterval, lastInitialTime)
    }

    constructor (s: Schedule)
      ensures State() == s
    {
      cronExpr, interval, initialTime, zone, endTime :=
        s.cronExpr, s.interval, s.initialTime, s.zone, s.endTime;
      lastSchedTime, lastCronExpr, lastInterval, lastInitialTime :=
        s.lastSchedTime, s.lastCronExpr, s.lastInterval, s.lastInitialTime;
    }

    method CountingFrom(fromTime: Time) returns (t: Time)
      ensures t == State().CountingFrom(fromTime)
    {
      if lastSchedTime != ZERO_TIME && lastSchedTime < fromTime
        && lastCronExpr == cronExpr && lastInterval == interval
        && lastInitialTime == initialTime {
        return lastSchedTime;
      }
      return initialTime;
    }

    method SetLastSchedTime(t: Time) returns (changed: bool)
      modifies this
      ensures State() == old(State()).WithLast(t)
      ensures changed <==> t != ZERO_TIME && t != old(lastSchedTime)
    {
      if t == ZERO_TIME || lastSchedTime == t {
        return false;
      }
      lastSchedTime := t;
      lastCronExpr := cronExpr;
      lastInterval := interval;
      lastInitialTime := initialTime;
      return true;
    }

    /** A person's edit writes the schedule and leaves what was remembered. */
    method Edit(cronExpr': string, interval': int, initialTime': Time, zone': int, endTime': Time)
      modifies this
      ensures State() == old(State()).(cronExpr := cronExpr', interval := interval',
                                       initialTime := initialTime', zone := zone', endTime := endTime')
    {
      cronExpr, interval, initialTime, zone, endTime := cronExpr', interval', initialTime', zone', endTime';
    }

    /** The next count runs, unless the calculation never ends. A negative count asks for
        one. The library's answers are followed whatever they are. */
    method CalcNextRuns(lib: CronLib, fromTime: Time, count: int) returns (r: Result<seq<Time>>)
      requires count != 0 && State().ReadsCron(lib) ==>
                 !NeverEnds(lib, State(), fromTime, Wanted(count), State().CountingFrom(fromTime))
      ensures count == 0 ==> r == Failure(ArgumentInvalid("count"))
      ensures count != 0 && State().Fault(lib).Failure? ==> r == Failure(State().Fault(lib).error)
      ensures count != 0 && State().Fault(lib).Success? ==>
                && r.Success?
                && (State().ReadsCron(lib) ==>
                      EndsWith(lib, State(), fromTime, Wanted(count), State().CountingFrom(fromTime), r.value))
                && (AnsweredForRuns(lib, State(), State().CountingFrom(fromTime), fromTime, Wanted(count)) ==>
                      FirstRuns(lib, State(), State().CountingFrom(fromTime), fromTime, Wanted(count), r.value))
    {
      if count == 0 {
        return Failure(ArgumentInvalid("count"));
      }
      if interval > 0 {
        var res := NextIntervalRuns(lib, fromTime, count);
        return Success(res);
      }
      if cronExpr != "" {
        if !lib.parses(cronExpr) {
          return Failure(CronSyntax);
        }
        var res := NextCronRuns(lib, fromTime, count);
        ghost var base := State().CountingFrom(fromTime);
        if AnsweredForRuns(lib, State(), base, fromTime, Wanted(count)) {
          AnsweredEndsWithRuns(lib, State(), base, fromTime, Wanted(count), res);
        }
        return Success(res);
      }
      return Failure(ArgumentInvalid("Schedule"));
    }

    method NextIntervalRuns(ghost lib: CronLib, fromTime: Time, count: int) returns (res: seq<Time>)
      requires count != 0 && interval > 0
      ensures FirstRuns(lib, State(), State().CountingFrom(fromTime), fromTime, Wanted(count), res)
    {
      ghost var s := State();
      ghost var wanted := Wanted(count);
      var nextRunAt := CountingFrom(fromTime);
      ghost var base := nextRunAt;
      res := [];
      nextRunAt := JumpAhead(nextRunAt, interval, fromTime);
      NoRunBeforeJump(lib, s, base, nextRunAt, fromTime);
      while endTime == ZERO_TIME || nextRunAt < endTime
        invariant OnGrid(base, interval, nextRunAt)
        invariant |res| < wanted && ListsBefore(lib, s, base, fromTime, nextRunAt, res)
        decreases wanted - |res|, fromTime - nextRunAt
      {
        GridPointListed(lib, s, base, fromTime, nextRunAt, res);
        if nextRunAt < fromTime {
          nextRunAt := nextRunAt + interval;
          continue;
        }
        res := res + [nextRunAt];
        if |res| >= count {
          break;
        }
        nextRunAt := nextRunAt + interval;
      }
    }

    method NextCronRuns(lib: CronLib, fromTime: Time, count: int) returns (res: seq<Time>)
      requires count != 0 && State().ReadsCron(lib)
      requires !NeverEnds(lib, State(), fromTime, Wanted(count), State().CountingFrom(fromTime))
      ensures EndsWith(lib, State(), fromTime, Wanted(count), State().CountingFrom(fromTime), res)
    {
      ghost var s, wanted := State(), Wanted(count);
      var nextRunAt := CountingFrom(fromTime);
      ghost var base := nextRunAt;
      ghost var end: nat :| end > 0 && !GoesOn(lib, s, fromTime, wanted, base, end);
      ghost var n: nat := 0;
      res := [];
      while true
        invariant nextRunAt == Searched(lib, s, base, n) && res == Gathered(lib, s, fromTime, base, n)
        invariant n < end && |res| < wanted && GoesOnTo(lib, s, fromTime, wanted, base, n)
        decreases end - n
      {
        nextRunAt := lib.next(cronExpr, State().CronLocation(), nextRunAt);
        assert nextRunAt == Searched(lib, s, base, n + 1);
        if endTime != ZERO_TIME && nextRunAt > endTime {
          break;
        }
        n := n + 1;
        if nextRunAt < fromTime {
          continue;
        }
        res := res + [nextRunAt];
        if |res| >= count {
          n := n - 1;
          break;
        }
      }
    }

    /** The runs of a window, unless the calculation never ends. */
    method CalcNextRunsInRange(lib: CronLib, fromTime: Time, toTime: Time) returns (r: Result<seq<Time>>)
      requires toTime != ZERO_TIME && State().ReadsCron(lib) ==>
                 !NeverStops(lib, State(), State().CountingFrom(fromTime), WithinWindow(State(), fromTime, toTime))
      ensures toTime == ZERO_TIME ==> r == Failure(ArgumentInvalid("toTime"))
      ensures toTime != ZERO_TIME && State().Fault(lib).Failure? ==> r == Failure(State().Fault(lib).error)
      ensures toTime != ZERO_TIME && State().Fault(lib).Success? ==>
                && r.Success?
                && (State().ReadsCron(lib) ==>
                      StopsWith(lib, State(), fromTime, toTime, State().CountingFrom(fromTime), r.value))
                && (AnsweredInWindow(lib, State(), State().CountingFrom(fromTime), fromTime, toTime) ==>
                      r.value == RunsIn(lib, State(), State().CountingFrom(fromTime), fromTime, toTime))
    {
      if toTime == ZERO_TIME {
        return Failure(ArgumentInvalid("toTime"));
      }
      if interval > 0 {
        var res := IntervalRunsInRange(lib, fromTime, toTime);
        return Success(res);
      }
      if cronExpr != "" {
        if !lib.parses(cronExpr) {
          return Failure(CronSyntax);
        }
        var res := CronRunsInRange(lib, fromTime, toTime);
        ghost var base := State().CountingFrom(fromTime);
        if AnsweredInWindow(lib, State(), base, fromTime, toTime) {
          AnsweredStopsWithRuns(lib, State(), base, fromTime, toTime, res);
        }
        return Success(res);
      }
      return Failure(ArgumentInvalid("Schedule"));
    }

    method IntervalRunsInRange(ghost lib: CronLib, fromTime: Time, toTime: Time) returns (res: seq<Time>)
      requires interval > 0
      ensures res == RunsIn(lib, State(), State().CountingFrom(fromTime), fromTime, toTime)
    {
      ghost var s := State();
      ghost var far := if fromTime > toTime then fromTime else toTime;
      var nextRunAt := CountingFrom(fromTime);
      ghost var base := nextRunAt;
      res := [];
      nextRunAt := JumpAhead(nextRunAt, interval, fromTime);
      NoRunBeforeJump(lib, s, base, nextRunAt, fromTime);
      while endTime == ZERO_TIME || nextRunAt < endTime
        invariant OnGrid(base, interval, nextRunAt)
        invariant ListsBefore(lib, s, base, fromTime, nextRunAt, res) && forall t :: t in res ==> t <= toTime
        decreases far - nextRunAt
      {
        GridPointListed(lib, s, base, fromTime, nextRunAt, res);
        if nextRunAt < fromTime {
          nextRunAt := nextRunAt + interval;
          continue;
        }
        if nextRunAt > toTime {
          break;
        }
        res := res + [nextRunAt];
        nextRunAt := nextRunAt + interval;
      }
      ListedIsRunsIn(lib, s, base, fromTime, toTime, res);
    }

    method CronRunsInRange(lib: CronLib, fromTime: Time, toTime: Time) returns (res: seq<Time>)
      requires State().ReadsCron(lib)
      requires !NeverStops(lib, State(), State().CountingFrom(fromTime), WithinWindow(State(), fromTime, toTime))
      ensures StopsWith(lib, State(), fromTime, toTime, State().CountingFrom(fromTime), res)
    {
      ghost var s := State();
      ghost var on := WithinWindow(s, fromTime, toTime);
      var nextRunAt := CountingFrom(fromTime);
      ghost var base := nextRunAt;
      ghost var end: nat :| end > 0 && !on(Searched(lib, s, base, end));
      ghost var n: nat := 0;
      res := [];
      while true
        invariant nextRunAt == Searched(lib, s, base, n) && res == Gathered(lib, s, fromTime, base, n)
        invariant n < end && StaysIn(lib, s, base, on, n)
        decreases end - n
      {
        nextRunAt := lib.next(cronExpr, State().CronLocation(), nextRunAt);
        OneMoreWithin(lib, s, fromTime, toTime, base, n);
        assert nextRunAt == Searched(lib, s, base, n + 1);
        if endTime != ZERO_TIME && nextRunAt > endTime {
          break;
        }
        if nextRunAt < fromTime {
          n := n + 1;
          continue;
        }
        if nextRunAt > toTime {
          break;
        }
        res := res + [nextRunAt];
        n := n + 1;
      }
    }

    /** One scan of the task queue: a task for each run of the window, and the last of
        them remembered. */
    method Scan(lib: CronLib, fromTime: Time, tillTime: Time) returns (r: Result<seq<Time>>)
      requires tillTime != ZERO_TIME && State().ReadsCron(lib) ==>
                 !NeverStops(lib, State(), State().CountingFrom(fromTime), WithinWindow(State(), fromTime, tillTime))
      modifies this
      ensures r.Failure? ==> State() == old(State())
      ensures r.Success? ==>
                State() == old(State()).WithLast(if r.value == [] then ZERO_TIME else r.value[|r.value| - 1])
      ensures tillTime != ZERO_TIME && State().ReadsCron(lib) ==>
                && r.Success?
                && StopsWith(lib, old(State()), fromTime, tillTime, old(State()).CountingFrom(fromTime), r.value)
      ensures tillTime == ZERO_TIME
              || AnsweredInWindow(lib, old(State()), old(State()).CountingFrom(fromTime), fromTime, tillTime) ==>
                (State(), r) == Step(lib, old(State()), Event.Scan(fromTime, tillTime))
    {
      r := CalcNextRunsInRange(lib, fromTime, tillTime);
      if r.Failure? {
        return;
      }
      var lastSched := ZERO_TIME;
      var i := 0;
      while i < |r.value|
        invariant 0 <= i <= |r.value|
        invariant lastSched == if i == 0 then ZERO_TIME else r.value[i - 1]
      {
        lastSched := r.value[i];
        i := i + 1;
      }
      var _ := SetLastSchedTime(lastSched);
    }
  }

  // ---------------------------------------------------------------- Resuming changes nothing

  /** What is remembered is a run, or could be one, of the schedule that made it. */
  ghost predicate Coherent(s: Schedule) {
    s.lastSchedTime != ZERO_TIME ==>
      && s.lastInitialTime <= s.lastSchedTime
      && (s.lastInterval > 0 ==> OnGrid(s.lastInitialTime, s.lastInterval, s.lastSchedTime))
  }

  lemma SameRunFromEither(lib: CronLib, s: Schedule, from: Time, t: Time)
    requires Coherent(s) && from <= t
    ensures IsRun(lib, s, s.CountingFrom(from), t) <==> IsRun(lib, s, s.initialTime, t)
  {
    if s.ResumesFrom(from) && s.interval > 0 {
      GridShift(s.initialTime, s.interval, s.lastSchedTime, t);
    }
  }

  /** Counted from the last run remembered or from the initial time, a window's runs are
      the same. */
  lemma ResumedRunsAreTheRuns(lib: CronLib, s: Schedule, from: Time, till: Time)
    requires Coherent(s)
    ensures RunsIn(lib, s, s.CountingFrom(from), from, till) == RunsIn(lib, s, s.initialTime, from, till)
  {
    var runs := RunsIn(lib, s, s.CountingFrom(from), from, till);
    RunsInExact(lib, s, s.CountingFrom(from), from, till);
    forall t
      ensures t in runs <==> from <= t <= till && IsRun(lib, s, s.initialTime, t)
    {
      if from <= t {
        SameRunFromEither(lib, s, from, t);
      }
    }
    ListedIsRunsIn(lib, s, s.initialTime, from, till, runs);
  }

  /** The same for the first runs. */
  lemma ResumedFirstRunsAreTheFirstRuns(lib: CronLib, s: Schedule, from: Time, count: nat, res: seq<Time>)
    requires Coherent(s)
    ensures FirstRuns(lib, s, s.CountingFrom(from), from, count, res)
       <==> FirstRuns(lib, s, s.initialTime, from, count, res)
  {
    forall t | from <= t
      ensures IsRun(lib, s, s.CountingFrom(from), t) <==> IsRun(lib, s, s.initialTime, t)
    {
      SameRunFromEither(lib, s, from, t);
    }
  }

  // ---------------------------------------------------------------- Whole runs of the queue

  datatype Event =
    | Scan(from: Time, till: Time)
    | Edit(cronExpr: string, interval: int, initialTime: Time, zone: int, endTime: Time)

  function Edited(s: Schedule, e: Event): Schedule
    requires e.Edit?
  {
    s.(cronExpr := e.cronExpr, interval := e.interval, initialTime := e.initialTime,
       zone := e.zone, endTime := e.endTime)
  }

  /** What one event does to a schedule, and the runs a scan makes tasks for. */
  ghost function Step(lib: CronLib, s: Schedule, e: Event): (Schedule, Result<seq<Time>>) {
    match e
    case Edit(_, _, _, _, _) => (Edited(s, e), Success([]))
    case Scan(from, till) =>
      if till == ZERO_TIME then (s, Failure(ArgumentInvalid("toTime")))
      else if s.Fault(lib).Failure? then (s, Failure(s.Fault(lib).error))
      else
        var runs := RunsIn(lib, s, s.CountingFrom(from), from, till);
        (s.WithLast(if runs == [] then ZERO_TIME else runs[|runs| - 1]), Success(runs))
  }

  /** The outputs of a run of events. */
  ghost function Outputs(lib: CronLib, s: Schedule, events: seq<Event>): seq<Result<seq<Time>>>
    decreases |events|
  {
    if events == [] then []
    else
      var (s', out) := Step(lib, s, events[0]);
      [out] + Outputs(lib, s', events[1..])
  }

  /** The same machine, remembering nothing: every scan counts from the initial time. */
  ghost function Memoryless(lib: CronLib, s: Schedule, events: seq<Event>): seq<Result<seq<Time>>>
    decreases |events|
  {
    if events == [] then []
    else
      var (s', out) := Step(lib, s.Forgotten(), events[0]);
      [out] + Memoryless(lib, s'.Forgotten(), events[1..])
  }

  lemma RunsIgnoreMemory(lib: CronLib, s: Schedule, s': Schedule, base: Time, from: Time, till: Time)
    requires s.Forgotten() == s'.Forgotten()
    ensures RunsIn(lib, s, base, from, till) == RunsIn(lib, s', base, from, till)
  {
    RunsInExact(lib, s, base, from, till);
    ListedIsRunsIn(lib, s', base, from, till, RunsIn(lib, s, base, from, till));
  }

  /** One event keeps what is remembered coherent, and a scan gives the schedule's runs. */
  lemma StepKeepsCoherent(lib: CronLib, s: Schedule, e: Event)
    requires Coherent(s)
    ensures Coherent(Step(lib, s, e).0)
    ensures Step(lib, s, e).1 == Step(lib, s.Forgotten(), e).1
    ensures Step(lib, s, e).0.Forgotten() == Step(lib, s.Forgotten(), e).0.Forgotten()
  {
    if e.Scan? {
      ResumedRunsAreTheRuns(lib, s, e.from, e.till);
      RunsIgnoreMemory(lib, s, s.Forgotten(), s.initialTime, e.from, e.till);
      RunsInExact(lib, s, s.initialTime, e.from, e.till);
      var runs := RunsIn(lib, s, s.initialTime, e.from, e.till);
      assert runs != [] ==> runs[|runs| - 1] in runs;
    }
  }

  /** Over every run of scans and edits, the remembered last run changes no scan. */
  lemma {:induction false} MemoryIsInvisible(lib: CronLib, s: Schedule, events: seq<Event>)
    requires Coherent(s)
    ensures Outputs(lib, s, events) == Memoryless(lib, s.Forgotten(), events)
    decreases |events|
  {
    if events != [] {
      StepKeepsCoherent(lib, s, events[0]);
      MemoryIsInvisible(lib, Step(lib, s, events[0]).0, events[1..]);
    }
  }

  /** Windows of which each begins no later than just after the one before ended. */
  ghost predicate Touching(windows: seq<Event>) {
    && (forall i :: 0 <= i < |windows| ==> windows[i].Scan? && windows[i].till != ZERO_TIME)
    && (forall i :: 0 < i < |windows| ==> windows[i].from <= windows[i - 1].till + 1)
  }

  ghost predicate Made(outputs: seq<Result<seq<Time>>>, t: Time) {
    exists i :: 0 <= i < |outputs| && outputs[i].Success? && t in outputs[i].value
  }

  lemma MadeFirst(out: Result<seq<Time>>, later: seq<Result<seq<Time>>>, t: Time)
    ensures Made([out] + later, t) <==> (out.Success? && t in out.value) || Made(later, t)
  {
    var outputs := [out] + later;
    assert outputs[0] == out;
    if Made(outputs, t) && !(out.Success? && t in out.value) {
      var i :| 0 <= i < |outputs| && outputs[i].Success? && t in outputs[i].value;
      assert later[i - 1] == outputs[i];
    }
    if Made(later, t) {
      var i :| 0 <= i < |later| && later[i].Success? && t in later[i].value;
      assert outputs[i + 1] == later[i];
    }
  }

  /** Touching or overlapping scans of one schedule lose no run between the first's start
      and the last's end, and make nothing that is not a run. */
  lemma {:induction false} TouchingScansLoseNoRun(lib: CronLib, s: Schedule, windows: seq<Event>, t: Time)
    requires Coherent(s) && s.Fault(lib).Success?
    requires windows != [] && Touching(windows)
    ensures Made(Outputs(lib, s, windows), t) ==> IsRun(lib, s, s.initialTime, t)
    ensures windows[0].from <= t <= windows[|windows| - 1].till && IsRun(lib, s, s.initialTime, t) ==>
              Made(Outputs(lib, s, windows), t)
    decreases |windows|
  {
    var (s', out) := Step(lib, s, windows[0]);
    var later := Outputs(lib, s', windows[1..]);
    StepKeepsCoherent(lib, s, windows[0]);
    ResumedRunsAreTheRuns(lib, s, windows[0].from, windows[0].till);
    RunsInExact(lib, s, s.initialTime, windows[0].from, windows[0].till);
    MadeFirst(out, later, t);
    assert Outputs(lib, s, windows) == [out] + later;
    assert IsRun(lib, s, s.initialTime, t) <==> IsRun(lib, s', s'.initialTime, t);
    if |windows| > 1 {
      TouchingScansLoseNoRun(lib, s', windows[1..], t);
    } else {
      assert windows[1..] == [];
    }
  }

  // ---------------------------------------------------------------- Where the code falls short

  /** Whether two schedules are the same schedule. */
  predicate Equal(a: Schedule, b: Schedule) {
    && a.cronExpr == b.cronExpr && a.interval == b.interval
    && a.initialTime == b.initialTime && a.endTime == b.endTime
  }

  /** A library that has an answer for every expression that parses, everywhere. */
  ghost predicate AlwaysAnswers(lib: CronLib) {
    forall expr, loc, t :: lib.parses(expr) ==> IsNextFiring(lib, expr, loc, t, lib.next(expr, loc, t))
  }

  ghost predicate SameRuns(a: Schedule, b: Schedule) {
    forall lib, t :: AlwaysAnswers(lib) ==> (IsRun(lib, a, a.initialTime, t) <==> IsRun(lib, b, b.initialTime, t))
  }

  /** A library in which an expression fires at every instant, but at one location only at
      those an even distance from an anchor. */
  function ByLocation(halved: Location, anchor: Time): CronLib {
    CronLib(_ => true,
            (e, loc, t) => loc != halved || (t - anchor) % 2 == 0,
            (e, loc, t) => if loc != halved || (t - anchor) % 2 == 1 then t + 1 else t + 2)
  }

  lemma ByLocationLawful(halved: Location, anchor: Time)
    ensures AlwaysAnswers(ByLocation(halved, anchor))
  {
    var lib := ByLocation(halved, anchor);
    forall expr, loc, t
      ensures IsNextFiring(lib, expr, loc, t, lib.next(expr, loc, t))
    {
    }
  }

  /** Equal schedules have the same runs exactly when no cron expression is read, it is
      read in one place, or the end leaves no room for a run: the comparison leaves the
      offset of the initial time out. */
  lemma EqualSchedulesRunAlikeIff(a: Schedule, b: Schedule)
    requires Equal(a, b)
    ensures SameRuns(a, b) <==>
              || a.interval > 0 || a.cronExpr == ""
              || a.zone == b.zone
              || (a.endTime != ZERO_TIME && a.endTime <= a.initialTime)
  {
    if a.interval <= 0 && a.cronExpr != "" && a.zone != b.zone
      && (a.endTime == ZERO_TIME || a.initialTime < a.endTime) {
      var lib := ByLocation(a.CronLocation(), a.initialTime);
      ByLocationLawful(a.CronLocation(), a.initialTime);
      assert !IsRun(lib, a, a.initialTime, a.initialTime + 1);
      assert IsRun(lib, b, b.initialTime, a.initialTime + 1);
    }
  }

  // ---------------------------------------------------------------- Where an expression's hours are read

  /** Two libraries are one, of an expression in a location. */
  ghost predicate AgreeIn(a: CronLib, b: CronLib, expr: string, loc: Location) {
    && a.parses(expr) == b.parses(expr)
    && forall t :: a.fires(expr, loc, t) == b.fires(expr, loc, t) && a.next(expr, loc, t) == b.next(expr, loc, t)
  }

  /** An expression's hours are read in the installation's zone when the initial time was given
      in UTC, and at the offset it was given with otherwise: libraries that agree there give
      the same runs, by the same steps. */
  lemma {:induction false} ReadThere(a: CronLib, b: CronLib, s: Schedule, base: Time, from: Time, till: Time)
    requires s.zone == 0 ==> AgreeIn(a, b, s.cronExpr, Installation)
    requires s.zone != 0 ==> AgreeIn(a, b, s.cronExpr, Offset(s.zone))
    ensures RunsIn(a, s, base, from, till) == RunsIn(b, s, base, from, till)
    decreases if from <= till then till - from + 1 else 0
  {
    if from <= till {
      ReadThere(a, b, s, base, from, till - 1);
    }
  }

  lemma {:induction false} SearchedThere(a: CronLib, b: CronLib, s: Schedule, t: Time, n: nat)
    requires s.zone == 0 ==> AgreeIn(a, b, s.cronExpr, Installation)
    requires s.zone != 0 ==> AgreeIn(a, b, s.cronExpr, Offset(s.zone))
    ensures Searched(a, s, t, n) == Searched(b, s, t, n)
  {
    if n > 0 {
      SearchedThere(a, b, s, t, n - 1);
    }
  }

  /** A library in which every expression fires at every instant. */
  function EveryInstant(): CronLib {
    CronLib(_ => true, (e, loc, t) => true, (e, loc, t) => t + 1)
  }

  /** Nor is it read anywhere else: of an initial time given in UTC libraries that agree at every
      offset may give different runs, and of one given with an offset those that agree in the
      installation's zone. */
  lemma NotReadElsewhere(s: Schedule, base: Time) returns (a: CronLib, b: CronLib)
    requires s.interval <= 0 && s.cronExpr != "" && (s.endTime == ZERO_TIME || base < s.endTime)
    ensures AlwaysAnswers(a) && AlwaysAnswers(b)
    ensures s.zone == 0 ==> forall expr, seconds :: AgreeIn(a, b, expr, Offset(seconds))
    ensures s.zone != 0 ==> forall expr :: AgreeIn(a, b, expr, Installation)
    ensures !(base + 1 in RunsIn(a, s, base, base, base + 1)) && base + 1 in RunsIn(b, s, base, base, base + 1)
  {
    var loc := if s.zone == 0 then Installation else Offset(s.zone);
    a, b := ByLocation(loc, base), EveryInstant();
    ByLocationLawful(loc, base);
    RunsInExact(a, s, base, base, base + 1);
    RunsInExact(b, s, base, base, base + 1);
    assert !IsRun(a, s, base, base + 1) && IsRun(b, s, base, base + 1);
  }
}
