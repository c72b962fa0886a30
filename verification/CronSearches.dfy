/** When a calculation of a cron expression's runs never ends: the library answers with the
    zero time where it finds no firing, and the calculation searches on from there. */
module CronSearches {
  import opened Schedules

  lemma {:induction false} SearchedPlus(lib: CronLib, s: Schedule, t: Time, a: nat, b: nat)
    ensures Searched(lib, s, t, a + b) == Searched(lib, s, Searched(lib, s, t, a), b)
  {
    if b > 0 {
      SearchedPlus(lib, s, t, a, b - 1);
    }
  }

  /** No step of the n was answered with the zero time. */
  ghost predicate Found(lib: CronLib, s: Schedule, t: Time, n: nat) {
    forall j :: 0 < j <= n ==> Searched(lib, s, t, j) != ZERO_TIME
  }

  lemma {:induction false} FoundClimbs(lib: CronLib, s: Schedule, t: Time, n: nat)
    requires KeepsPromise(lib, s.cronExpr, s.CronLocation()) && Found(lib, s, t, n)
    ensures Searched(lib, s, t, n) >= t + n
  {
    if n > 0 {
      FoundClimbs(lib, s, t, n - 1);
      assert Searched(lib, s, t, n) != ZERO_TIME;
    }
  }

  /** The calculation is answered with the zero time before it stops. */
  ghost predicate GivenUpAt(lib: CronLib, s: Schedule, t: Time, goesOn: Time -> bool, k: nat) {
    && k > 0 && Searched(lib, s, t, k) == ZERO_TIME
    && StaysIn(lib, s, t, goesOn, k)
  }

  ghost predicate GivenUp(lib: CronLib, s: Schedule, t: Time, goesOn: Time -> bool) {
    exists k: nat :: GivenUpAt(lib, s, t, goesOn, k)
  }

  lemma NeverStoppingIsGivenUp(lib: CronLib, s: Schedule, t: Time, goesOn: Time -> bool, bound: Time)
    requires KeepsPromise(lib, s.cronExpr, s.CronLocation()) && forall u :: goesOn(u) ==> u < bound
    requires NeverStops(lib, s, t, goesOn)
    ensures GivenUp(lib, s, t, goesOn) && NeverStops(lib, s, ZERO_TIME, goesOn)
  {
    var n: nat := if bound > t then bound - t else 1;
    assert goesOn(Searched(lib, s, t, n));
    if Found(lib, s, t, n) {
      FoundClimbs(lib, s, t, n);
    }
    var k: nat :| 0 < k <= n && Searched(lib, s, t, k) == ZERO_TIME;
    assert GivenUpAt(lib, s, t, goesOn, k);
    forall n: nat | n > 0
      ensures goesOn(Searched(lib, s, ZERO_TIME, n))
    {
      SearchedPlus(lib, s, t, k, n);
    }
  }

  lemma {:induction false} ZeroToZeroGoesOn(lib: CronLib, s: Schedule, goesOn: Time -> bool, m: nat, n: nat)
    requires GivenUpAt(lib, s, ZERO_TIME, goesOn, m) && n > 0
    ensures goesOn(Searched(lib, s, ZERO_TIME, n))
  {
    if n > m {
      ZeroToZeroGoesOn(lib, s, goesOn, m, n - m);
      SearchedPlus(lib, s, ZERO_TIME, m, n - m);
    }
  }

  /** A calculation that cannot stop beyond a bound goes on for ever exactly when it is
      answered with the zero time before it stops, and begun again at the zero time is
      answered with it once more. */
  lemma NeverStopsIff(lib: CronLib, s: Schedule, t: Time, goesOn: Time -> bool, bound: Time)
    requires KeepsPromise(lib, s.cronExpr, s.CronLocation()) && forall u :: goesOn(u) ==> u < bound
    ensures NeverStops(lib, s, t, goesOn) <==> GivenUp(lib, s, t, goesOn) && GivenUp(lib, s, ZERO_TIME, goesOn)
  {
    if NeverStops(lib, s, t, goesOn) {
      NeverStoppingIsGivenUp(lib, s, t, goesOn, bound);
      NeverStoppingIsGivenUp(lib, s, ZERO_TIME, goesOn, bound);
    }
    if GivenUp(lib, s, t, goesOn) && GivenUp(lib, s, ZERO_TIME, goesOn) {
      var k: nat :| GivenUpAt(lib, s, t, goesOn, k);
      var m: nat :| GivenUpAt(lib, s, ZERO_TIME, goesOn, m);
      forall n: nat | n > 0
        ensures goesOn(Searched(lib, s, t, n))
      {
        if n > k {
          SearchedPlus(lib, s, t, k, n - k);
          ZeroToZeroGoesOn(lib, s, goesOn, m, n - k);
        }
      }
    }
  }

  /** The times at which a search for one run goes on. */
  function BeforeRun(s: Schedule, from: Time): Time -> bool {
    t => NotPastEnd(s, t) && t < from
  }

  /** When the calculation of a window's runs never ends. */
  lemma WindowNeverEndsIff(lib: CronLib, s: Schedule, from: Time, till: Time)
    requires KeepsPromise(lib, s.cronExpr, s.CronLocation())
    ensures var on := WithinWindow(s, from, till);
            NeverStops(lib, s, s.CountingFrom(from), on)
            <==> GivenUp(lib, s, s.CountingFrom(from), on) && GivenUp(lib, s, ZERO_TIME, on)
  {
    var bound := if from > till then from else till + 1;
    NeverStopsIff(lib, s, s.CountingFrom(from), WithinWindow(s, from, till), bound);
  }

  lemma {:induction false} GatheredPlus(lib: CronLib, s: Schedule, from: Time, t: Time, a: nat, b: nat)
    ensures Gathered(lib, s, from, t, a + b)
         == Gathered(lib, s, from, t, a) + Gathered(lib, s, from, Searched(lib, s, t, a), b)
  {
    if b > 0 {
      GatheredPlus(lib, s, from, t, a, b - 1);
      SearchedPlus(lib, s, t, a, b);
    }
  }

  /** No step of the n made a run. */
  ghost predicate NoneGathered(lib: CronLib, s: Schedule, from: Time, t: Time, n: nat) {
    forall j :: 0 < j <= n ==> Searched(lib, s, t, j) < from
  }

  lemma {:induction false} NoneGatheredIff(lib: CronLib, s: Schedule, from: Time, t: Time, n: nat)
    ensures |Gathered(lib, s, from, t, n)| == 0 <==> NoneGathered(lib, s, from, t, n)
  {
    if n > 0 {
      NoneGatheredIff(lib, s, from, t, n - 1);
      assert NoneGathered(lib, s, from, t, n)
        <==> NoneGathered(lib, s, from, t, n - 1) && Searched(lib, s, t, n) < from;
    }
  }

  lemma {:induction false} FoundGathers(lib: CronLib, s: Schedule, from: Time, t: Time, n: nat)
    requires KeepsPromise(lib, s.cronExpr, s.CronLocation()) && Found(lib, s, t, n)
    ensures |Gathered(lib, s, from, t, n)| >= if from > t then n - (from - t) else n
  {
    if n > 0 {
      FoundGathers(lib, s, from, t, n - 1);
      FoundClimbs(lib, s, t, n);
    }
  }

  /** It is answered with the zero time before it ends. */
  ghost predicate GivenUpBeforeEnd(lib: CronLib, s: Schedule, from: Time, count: nat, t: Time, k: nat) {
    k > 0 && Searched(lib, s, t, k) == ZERO_TIME && GoesOnTo(lib, s, from, count, t, k)
  }

  lemma NeverEndingIsGivenUp(lib: CronLib, s: Schedule, from: Time, count: nat, t: Time) returns (k: nat)
    requires KeepsPromise(lib, s.cronExpr, s.CronLocation()) && NeverEnds(lib, s, from, count, t)
    ensures GivenUpBeforeEnd(lib, s, from, count, t, k) && |Gathered(lib, s, from, t, k)| < count
    ensures NeverEnds(lib, s, from, count - |Gathered(lib, s, from, t, k)|, ZERO_TIME)
  {
    var n: nat := count + (if from > t then from - t else 0) + 1;
    assert GoesOn(lib, s, from, count, t, n);
    if Found(lib, s, t, n) {
      FoundGathers(lib, s, from, t, n);
    }
    k :| 0 < k <= n && Searched(lib, s, t, k) == ZERO_TIME;
    assert GoesOn(lib, s, from, count, t, k);
    var left: nat := count - |Gathered(lib, s, from, t, k)|;
    forall n: nat | n > 0
      ensures GoesOn(lib, s, from, left, ZERO_TIME, n)
    {
      SearchedPlus(lib, s, t, k, n);
      GatheredPlus(lib, s, from, t, k, n);
      assert GoesOn(lib, s, from, count, t, k + n);
    }
  }

  /** A round from the zero time to the zero time that makes a run makes any number, repeated. */
  lemma {:induction false} RoundsMake(lib: CronLib, s: Schedule, from: Time, m: nat, rounds: nat) returns (n: nat)
    requires m > 0 && Searched(lib, s, ZERO_TIME, m) == ZERO_TIME && |Gathered(lib, s, from, ZERO_TIME, m)| > 0
    ensures n > 0 && Searched(lib, s, ZERO_TIME, n) == ZERO_TIME && |Gathered(lib, s, from, ZERO_TIME, n)| >= rounds
    ensures !GoesOn(lib, s, from, rounds, ZERO_TIME, n)
  {
    n := m;
    if rounds > 1 {
      var before := RoundsMake(lib, s, from, m, rounds - 1);
      SearchedPlus(lib, s, ZERO_TIME, before, m);
      GatheredPlus(lib, s, from, ZERO_TIME, before, m);
      n := before + m;
    }
  }

  /** The calculation of the next count runs never ends exactly when the library answers it
      with the zero time before it ends, and does so again, of a search begun at the zero
      time, before that makes a run or passes the end. */
  lemma CalculationNeverEndsIff(lib: CronLib, s: Schedule, from: Time, count: nat)
    requires KeepsPromise(lib, s.cronExpr, s.CronLocation())
    ensures NeverEnds(lib, s, from, count, s.CountingFrom(from))
       <==> && (exists k: nat :: GivenUpBeforeEnd(lib, s, from, count, s.CountingFrom(from), k))
            && GivenUp(lib, s, ZERO_TIME, BeforeRun(s, from))
  {
    var t := s.CountingFrom(from);
    if NeverEnds(lib, s, from, count, t) {
      var k := NeverEndingIsGivenUp(lib, s, from, count, t);
      var left: nat := count - |Gathered(lib, s, from, t, k)|;
      var m := NeverEndingIsGivenUp(lib, s, from, left, ZERO_TIME);
      if |Gathered(lib, s, from, ZERO_TIME, m)| > 0 {
        var n := RoundsMake(lib, s, from, m, left);
        assert false;
      }
      NoneGatheredIff(lib, s, from, ZERO_TIME, m);
      forall j | 0 < j <= m
        ensures BeforeRun(s, from)(Searched(lib, s, ZERO_TIME, j))
      {
        assert GoesOn(lib, s, from, left, ZERO_TIME, j);
      }
      assert GivenUpAt(lib, s, ZERO_TIME, BeforeRun(s, from), m);
    }
    if GivenUp(lib, s, ZERO_TIME, BeforeRun(s, from)) {
      if k: nat :| GivenUpBeforeEnd(lib, s, from, count, t, k) {
        GivenUpTwiceNeverEnds(lib, s, from, count, t, k);
      }
    }
  }

  lemma GivenUpTwiceNeverEnds(lib: CronLib, s: Schedule, from: Time, count: nat, t: Time, k: nat)
    requires KeepsPromise(lib, s.cronExpr, s.CronLocation())
    requires GivenUpBeforeEnd(lib, s, from, count, t, k) && GivenUp(lib, s, ZERO_TIME, BeforeRun(s, from))
    ensures NeverEnds(lib, s, from, count, t)
  {
    NeverStopsIff(lib, s, ZERO_TIME, BeforeRun(s, from), from);
    forall n: nat | n > 0
      ensures GoesOn(lib, s, from, count, t, n)
    {
      if n > k {
        assert GoesOn(lib, s, from, count, t, k);
        SearchedPlus(lib, s, t, k, n - k);
        GatheredPlus(lib, s, from, t, k, n - k);
        NoneGatheredIff(lib, s, from, ZERO_TIME, n - k);
        assert BeforeRun(s, from)(Searched(lib, s, ZERO_TIME, n - k));
      }
    }
  }

  /** Steps that were answered with firings climb, so none found the zero time. */
  lemma AnsweredFindsNoZero(lib: CronLib, s: Schedule, from: Time, t: Time, k: nat)
    requires s.ReadsCron(lib) && ZERO_TIME <= t && k > 0
    requires forall j :: 0 <= j < k ==> Answered(lib, s, Searched(lib, s, t, j))
    requires forall j :: 0 < j <= k ==> NotPastEnd(s, Searched(lib, s, t, j))
    ensures Searched(lib, s, t, k) != ZERO_TIME
  {
    AnsweredSteps(lib, s, t, from, k);
  }

  lemma UnansweredFindsZero(lib: CronLib, s: Schedule, t: Time, n: nat)
    requires KeepsPromise(lib, s.cronExpr, s.CronLocation()) && !Answered(lib, s, Searched(lib, s, t, n))
    ensures Searched(lib, s, t, n + 1) == ZERO_TIME
  {
    var u := Searched(lib, s, t, n);
    assert Searched(lib, s, t, n + 1) == s.Next(lib, u) == lib.next(s.cronExpr, s.CronLocation(), u);
  }

  /** A calculation of the next runs is answered, and so gives them, exactly when it is not
      given up before it ends ... */
  lemma AnsweredUnlessGivenUp(lib: CronLib, s: Schedule, from: Time, count: nat)
    requires s.ReadsCron(lib) && KeepsPromise(lib, s.cronExpr, s.CronLocation()) && count > 0
    requires ZERO_TIME <= s.CountingFrom(from) && ZERO_TIME < from && NotPastEnd(s, ZERO_TIME)
    ensures AnsweredForRuns(lib, s, s.CountingFrom(from), from, count)
       <==> !exists k: nat :: GivenUpBeforeEnd(lib, s, from, count, s.CountingFrom(from), k)
  {
    var t := s.CountingFrom(from);
    if !AnsweredForRuns(lib, s, t, from, count) {
      var n: nat :| GoesOnTo(lib, s, from, count, t, n) && !Answered(lib, s, Searched(lib, s, t, n));
      UnansweredFindsZero(lib, s, t, n);
      assert n > 0 ==> GoesOn(lib, s, from, count, t, n);
      assert Gathered(lib, s, from, t, n + 1) == Gathered(lib, s, from, t, n);
      assert GoesOn(lib, s, from, count, t, n + 1);
      assert GivenUpBeforeEnd(lib, s, from, count, t, n + 1);
    } else if k: nat :| GivenUpBeforeEnd(lib, s, from, count, t, k) {
      forall j | 0 <= j < k ensures Answered(lib, s, Searched(lib, s, t, j)) {
        assert GoesOnTo(lib, s, from, count, t, j);
      }
      forall j | 0 < j <= k ensures NotPastEnd(s, Searched(lib, s, t, j)) {
        assert GoesOn(lib, s, from, count, t, j);
      }
      AnsweredFindsNoZero(lib, s, from, t, k);
      assert false;
    }
  }

  lemma UnansweredIsGivenUp(lib: CronLib, s: Schedule, t: Time, goesOn: Time -> bool, n: nat)
    requires KeepsPromise(lib, s.cronExpr, s.CronLocation()) && goesOn(ZERO_TIME)
    requires StaysIn(lib, s, t, goesOn, n) && !Answered(lib, s, Searched(lib, s, t, n))
    ensures GivenUp(lib, s, t, goesOn)
  {
    UnansweredFindsZero(lib, s, t, n);
    forall j | 0 < j <= n + 1 ensures goesOn(Searched(lib, s, t, j)) {
    }
    assert GivenUpAt(lib, s, t, goesOn, n + 1);
  }

  lemma GivenUpIsUnanswered(lib: CronLib, s: Schedule, from: Time, till: Time, t: Time, k: nat)
    requires s.ReadsCron(lib) && ZERO_TIME <= t && GivenUpAt(lib, s, t, WithinWindow(s, from, till), k)
    ensures !AnsweredInWindow(lib, s, t, from, till)
  {
    var on := WithinWindow(s, from, till);
    if AnsweredInWindow(lib, s, t, from, till) {
      forall j | 0 <= j < k ensures Answered(lib, s, Searched(lib, s, t, j)) {
        assert StaysIn(lib, s, t, on, j);
      }
      forall j | 0 < j <= k ensures NotPastEnd(s, Searched(lib, s, t, j)) {
        assert on(Searched(lib, s, t, j));
      }
      AnsweredFindsNoZero(lib, s, from, t, k);
      assert false;
    }
  }

  /** ... and a window's calculation likewise. */
  lemma WindowAnsweredUnlessGivenUp(lib: CronLib, s: Schedule, from: Time, till: Time)
    requires s.ReadsCron(lib) && KeepsPromise(lib, s.cronExpr, s.CronLocation())
    requires ZERO_TIME <= s.CountingFrom(from) && ZERO_TIME < from && NotPastEnd(s, ZERO_TIME)
    ensures AnsweredInWindow(lib, s, s.CountingFrom(from), from, till)
       <==> !GivenUp(lib, s, s.CountingFrom(from), WithinWindow(s, from, till))
  {
    var t, on := s.CountingFrom(from), WithinWindow(s, from, till);
    if !AnsweredInWindow(lib, s, t, from, till) {
      var n: nat :| StaysIn(lib, s, t, on, n) && !Answered(lib, s, Searched(lib, s, t, n));
      UnansweredIsGivenUp(lib, s, t, on, n);
    } else if k: nat :| GivenUpAt(lib, s, t, on, k) {
      GivenUpIsUnanswered(lib, s, from, till, t, k);
    }
  }

  /** A library that gives up when nothing fires up to a horizon, which never moves back. */
  ghost predicate LooksAhead(lib: CronLib, expr: string, loc: Location, horizon: Time -> Time) {
    && (forall t, u :: t <= u ==> horizon(t) <= horizon(u))
    && (forall t :: var n := lib.next(expr, loc, t);
          if n == ZERO_TIME then forall u :: t < u <= horizon(t) ==> !lib.fires(expr, loc, u)
          else IsNextFiring(lib, expr, loc, t, n) && n <= horizon(t))
  }

  /** Nothing fires for as long as the library looks. */
  ghost predicate IsGap(lib: CronLib, s: Schedule, horizon: Time -> Time, g: Time) {
    forall u :: g < u <= horizon(g) ==> !lib.fires(s.cronExpr, s.CronLocation(), u)
  }

  lemma GapIffZero(lib: CronLib, s: Schedule, horizon: Time -> Time, g: Time)
    requires LooksAhead(lib, s.cronExpr, s.CronLocation(), horizon)
    ensures IsGap(lib, s, horizon, g) <==> s.Next(lib, g) == ZERO_TIME
  {
    assert s.Next(lib, g) == lib.next(s.cronExpr, s.CronLocation(), g);
  }

  lemma LooksAheadKeepsPromise(lib: CronLib, expr: string, loc: Location, horizon: Time -> Time)
    requires LooksAhead(lib, expr, loc, horizon)
    ensures KeepsPromise(lib, expr, loc)
  {
  }

  /** A search goes on up to some time. */
  ghost predicate GoesOnUpTo(goesOn: Time -> bool) {
    forall t, u :: t <= u && goesOn(u) ==> goesOn(t)
  }

  /** The first zero time comes after steps that found firings. */
  lemma {:induction false} FirstGivenUp(lib: CronLib, s: Schedule, t: Time, goesOn: Time -> bool, k: nat)
    returns (j: nat)
    requires GivenUpAt(lib, s, t, goesOn, k)
    ensures GivenUpAt(lib, s, t, goesOn, j) && Found(lib, s, t, j - 1)
  {
    if Found(lib, s, t, k - 1) {
      j := k;
    } else {
      var i: nat :| 0 < i <= k - 1 && Searched(lib, s, t, i) == ZERO_TIME;
      j := FirstGivenUp(lib, s, t, goesOn, i);
    }
  }

  lemma GivenUpAtGap(lib: CronLib, s: Schedule, t: Time, goesOn: Time -> bool, horizon: Time -> Time) returns (g: Time)
    requires LooksAhead(lib, s.cronExpr, s.CronLocation(), horizon)
    requires GivenUp(lib, s, t, goesOn) && goesOn(t)
    ensures t <= g && goesOn(g) && IsGap(lib, s, horizon, g)
  {
    var k: nat :| GivenUpAt(lib, s, t, goesOn, k);
    var j := FirstGivenUp(lib, s, t, goesOn, k);
    LooksAheadKeepsPromise(lib, s.cronExpr, s.CronLocation(), horizon);
    FoundClimbs(lib, s, t, j - 1);
    g := Searched(lib, s, t, j - 1);
    assert s.Next(lib, g) == Searched(lib, s, t, j) == ZERO_TIME;
    GapIffZero(lib, s, horizon, g);
  }

  /** A gap is not crossed: a search that comes to it is given up there, if not before. */
  lemma {:induction false} GapGivesUp(lib: CronLib, s: Schedule, t: Time, goesOn: Time -> bool, horizon: Time -> Time,
                                      g: Time) returns (k: nat)
    requires LooksAhead(lib, s.cronExpr, s.CronLocation(), horizon) && GoesOnUpTo(goesOn)
    requires ZERO_TIME <= t <= g && goesOn(g) && IsGap(lib, s, horizon, g)
    ensures GivenUpAt(lib, s, t, goesOn, k)
    decreases g - t
  {
    var n := s.Next(lib, t);
    assert Searched(lib, s, t, 0) == t && Searched(lib, s, t, 1) == n == lib.next(s.cronExpr, s.CronLocation(), t);
    if n == ZERO_TIME {
      k := 1;
    } else {
      assert horizon(t) <= horizon(g);
      assert t < n <= g;
      var later := GapGivesUp(lib, s, n, goesOn, horizon, g);
      k := 1 + later;
      OneStepEarlier(lib, s, t, goesOn, later);
    }
  }

  lemma OneStepEarlier(lib: CronLib, s: Schedule, t: Time, goesOn: Time -> bool, k: nat)
    requires GivenUpAt(lib, s, Searched(lib, s, t, 1), goesOn, k) && goesOn(Searched(lib, s, t, 1))
    ensures GivenUpAt(lib, s, t, goesOn, 1 + k)
  {
    SearchedPlus(lib, s, t, 1, k);
    forall j | 0 < j <= 1 + k ensures goesOn(Searched(lib, s, t, j)) {
      if j > 1 {
        SearchedPlus(lib, s, t, 1, j - 1);
      }
    }
  }

  /** With such a library, which the real one is at five years, a search is given up exactly
      when there is a gap from where it begins to where it would stop ... */
  lemma GivenUpIffGap(lib: CronLib, s: Schedule, t: Time, goesOn: Time -> bool, horizon: Time -> Time)
    requires LooksAhead(lib, s.cronExpr, s.CronLocation(), horizon) && GoesOnUpTo(goesOn)
    requires ZERO_TIME <= t && goesOn(t)
    ensures GivenUp(lib, s, t, goesOn) <==> exists g :: t <= g && goesOn(g) && IsGap(lib, s, horizon, g)
  {
    if GivenUp(lib, s, t, goesOn) {
      var g := GivenUpAtGap(lib, s, t, goesOn, horizon);
    }
    if g :| t <= g && goesOn(g) && IsGap(lib, s, horizon, g) {
      var k := GapGivesUp(lib, s, t, goesOn, horizon, g);
    }
  }

  /** ... and given up once it never ends: begun again at the zero time, it does not cross the
      gap either. */
  lemma GivenUpIsForEver(lib: CronLib, s: Schedule, t: Time, goesOn: Time -> bool, bound: Time, horizon: Time -> Time)
    requires LooksAhead(lib, s.cronExpr, s.CronLocation(), horizon) && GoesOnUpTo(goesOn)
    requires ZERO_TIME <= t && goesOn(t) && forall u :: goesOn(u) ==> u < bound
    ensures NeverStops(lib, s, t, goesOn) <==> GivenUp(lib, s, t, goesOn)
  {
    LooksAheadKeepsPromise(lib, s.cronExpr, s.CronLocation(), horizon);
    NeverStopsIff(lib, s, t, goesOn, bound);
    if GivenUp(lib, s, t, goesOn) {
      var g := GivenUpAtGap(lib, s, t, goesOn, horizon);
      var k := GapGivesUp(lib, s, ZERO_TIME, goesOn, horizon, g);
    }
  }

  /** So a window's calculation never ends exactly when there is a gap in what it goes through. */
  lemma WindowNeverEndsIffGap(lib: CronLib, s: Schedule, from: Time, till: Time, horizon: Time -> Time)
    requires LooksAhead(lib, s.cronExpr, s.CronLocation(), horizon)
    requires ZERO_TIME <= s.CountingFrom(from) && WithinWindow(s, from, till)(s.CountingFrom(from))
    ensures NeverStops(lib, s, s.CountingFrom(from), WithinWindow(s, from, till))
       <==> exists g :: s.CountingFrom(from) <= g && WithinWindow(s, from, till)(g) && IsGap(lib, s, horizon, g)
  {
    var bound := if from > till then from else till + 1;
    GivenUpIsForEver(lib, s, s.CountingFrom(from), WithinWindow(s, from, till), bound, horizon);
    GivenUpIffGap(lib, s, s.CountingFrom(from), WithinWindow(s, from, till), horizon);
  }

  /** And if it ends, it gives exactly the window's runs. */
  lemma WindowRightOrNeverEnds(lib: CronLib, s: Schedule, from: Time, till: Time, horizon: Time -> Time)
    requires s.ReadsCron(lib) && LooksAhead(lib, s.cronExpr, s.CronLocation(), horizon) && ZERO_TIME < from
    requires ZERO_TIME <= s.CountingFrom(from) && WithinWindow(s, from, till)(s.CountingFrom(from))
    ensures NeverStops(lib, s, s.CountingFrom(from), WithinWindow(s, from, till))
       <==> !AnsweredInWindow(lib, s, s.CountingFrom(from), from, till)
  {
    var bound := if from > till then from else till + 1;
    LooksAheadKeepsPromise(lib, s.cronExpr, s.CronLocation(), horizon);
    GivenUpIsForEver(lib, s, s.CountingFrom(from), WithinWindow(s, from, till), bound, horizon);
    WindowAnsweredUnlessGivenUp(lib, s, from, till);
  }

  /** The times up to which fewer than count runs are made. */
  ghost function BeforeCount(lib: CronLib, s: Schedule, from: Time, count: nat): Time -> bool {
    t => NotPastEnd(s, t) && |RunsIn(lib, s, s.CountingFrom(from), from, t)| < count
  }

  lemma BeforeCountUpTo(lib: CronLib, s: Schedule, from: Time, count: nat)
    ensures GoesOnUpTo(BeforeCount(lib, s, from, count))
  {
    forall t, u | t <= u && BeforeCount(lib, s, from, count)(u)
      ensures BeforeCount(lib, s, from, count)(t)
    {
      if from - 1 <= t {
        WindowsTile(lib, s, s.CountingFrom(from), from, t, u);
      }
    }
  }

  /** While firings are found, what was made are the runs up to there. */
  lemma FoundMadeRuns(lib: CronLib, s: Schedule, from: Time, t: Time, n: nat)
    requires s.ReadsCron(lib) && KeepsPromise(lib, s.cronExpr, s.CronLocation()) && Found(lib, s, t, n)
    requires forall j :: 0 < j <= n ==> NotPastEnd(s, Searched(lib, s, t, j))
    ensures Gathered(lib, s, from, t, n) == RunsIn(lib, s, t, from, Searched(lib, s, t, n))
  {
    forall j | 0 <= j < n ensures Answered(lib, s, Searched(lib, s, t, j)) {
      assert Searched(lib, s, t, j + 1) != ZERO_TIME;
    }
    AnsweredSteps(lib, s, t, from, n);
    ListedIsRunsIn(lib, s, t, from, Searched(lib, s, t, n), Gathered(lib, s, from, t, n));
  }

  /** A calculation given up at the first zero time is a search given up while fewer than
      count runs are made ... */
  lemma GivenUpBeforeEndIff(lib: CronLib, s: Schedule, from: Time, count: nat, k: nat)
    requires s.ReadsCron(lib) && KeepsPromise(lib, s.cronExpr, s.CronLocation()) && k > 0 && count > 0
    requires Searched(lib, s, s.CountingFrom(from), k) == ZERO_TIME < from && Found(lib, s, s.CountingFrom(from), k - 1)
    ensures GivenUpBeforeEnd(lib, s, from, count, s.CountingFrom(from), k)
       <==> GivenUpAt(lib, s, s.CountingFrom(from), BeforeCount(lib, s, from, count), k)
  {
    var t, on := s.CountingFrom(from), BeforeCount(lib, s, from, count);
    assert Gathered(lib, s, from, t, k) == Gathered(lib, s, from, t, k - 1);
    if GivenUpBeforeEnd(lib, s, from, count, t, k) {
      forall j | 0 < j <= k ensures NotPastEnd(s, Searched(lib, s, t, j)) && on(Searched(lib, s, t, j)) {
        GivenUpStep(lib, s, from, count, t, k, j);
      }
    }
    if GivenUpAt(lib, s, t, on, k) {
      forall j | 0 < j <= k ensures GoesOn(lib, s, from, count, t, j) {
        SearchStep(lib, s, from, count, k, j);
      }
    }
  }

  lemma GivenUpStep(lib: CronLib, s: Schedule, from: Time, count: nat, t: Time, k: nat, j: nat)
    requires s.ReadsCron(lib) && KeepsPromise(lib, s.cronExpr, s.CronLocation()) && count > 0
    requires 0 < j <= k && GoesOnTo(lib, s, from, count, t, k)
    requires t == s.CountingFrom(from) && Searched(lib, s, t, k) == ZERO_TIME < from && Found(lib, s, t, k - 1)
    ensures BeforeCount(lib, s, from, count)(Searched(lib, s, t, j))
  {
    forall i | 0 < i <= j ensures NotPastEnd(s, Searched(lib, s, t, i)) {
      assert GoesOn(lib, s, from, count, t, i);
    }
    assert GoesOn(lib, s, from, count, t, j);
    if j < k {
      FoundMadeRuns(lib, s, from, t, j);
    } else {
      assert RunsIn(lib, s, t, from, ZERO_TIME) == [];
    }
  }

  lemma SearchStep(lib: CronLib, s: Schedule, from: Time, count: nat, k: nat, j: nat)
    requires s.ReadsCron(lib) && KeepsPromise(lib, s.cronExpr, s.CronLocation()) && count > 0
    requires var t := s.CountingFrom(from);
             && k > 0 && Searched(lib, s, t, k) == ZERO_TIME < from && Found(lib, s, t, k - 1)
             && StaysIn(lib, s, t, BeforeCount(lib, s, from, count), k)
    requires 0 < j <= k
    ensures GoesOn(lib, s, from, count, s.CountingFrom(from), j)
  {
    var t, on := s.CountingFrom(from), BeforeCount(lib, s, from, count);
    forall i | 0 < i <= j ensures NotPastEnd(s, Searched(lib, s, t, i)) {
      assert on(Searched(lib, s, t, i));
    }
    var n := if j < k then j else k - 1;
    FoundMadeRuns(lib, s, from, t, n);
    assert n > 0 ==> on(Searched(lib, s, t, n));
    if j == k {
      assert Gathered(lib, s, from, t, k) == Gathered(lib, s, from, t, k - 1);
    }
  }

  /** ... and so given up before it ends exactly when there is a gap that it comes to before
      that. */
  lemma GivenUpBeforeEndIffGap(lib: CronLib, s: Schedule, from: Time, count: nat, horizon: Time -> Time)
    requires s.ReadsCron(lib) && LooksAhead(lib, s.cronExpr, s.CronLocation(), horizon) && count > 0
    requires ZERO_TIME <= s.CountingFrom(from) && ZERO_TIME < from && NotPastEnd(s, s.CountingFrom(from))
    ensures (exists k: nat :: GivenUpBeforeEnd(lib, s, from, count, s.CountingFrom(from), k))
       <==> exists g :: s.CountingFrom(from) <= g && BeforeCount(lib, s, from, count)(g) && IsGap(lib, s, horizon, g)
  {
    var t, on := s.CountingFrom(from), BeforeCount(lib, s, from, count);
    LooksAheadKeepsPromise(lib, s.cronExpr, s.CronLocation(), horizon);
    BeforeCountUpTo(lib, s, from, count);
    NoRunAtBase(lib, s, t, from);
    GivenUpIffGap(lib, s, t, on, horizon);
    if k: nat :| GivenUpBeforeEnd(lib, s, from, count, t, k) {
      var first := FirstZero(lib, s, t, k);
      assert GoesOnTo(lib, s, from, count, t, first);
      GivenUpBeforeEndIff(lib, s, from, count, first);
    }
    if GivenUp(lib, s, t, on) {
      var k: nat :| GivenUpAt(lib, s, t, on, k);
      var first := FirstGivenUp(lib, s, t, on, k);
      GivenUpBeforeEndIff(lib, s, from, count, first);
    }
  }

  lemma {:induction false} FirstZero(lib: CronLib, s: Schedule, t: Time, k: nat) returns (j: nat)
    requires k > 0 && Searched(lib, s, t, k) == ZERO_TIME
    ensures 0 < j <= k && Searched(lib, s, t, j) == ZERO_TIME && Found(lib, s, t, j - 1)
  {
    if Found(lib, s, t, k - 1) {
      j := k;
    } else {
      var i: nat :| 0 < i <= k - 1 && Searched(lib, s, t, i) == ZERO_TIME;
      j := FirstZero(lib, s, t, i);
    }
  }

  lemma NoRunAtBase(lib: CronLib, s: Schedule, base: Time, from: Time)
    requires s.ReadsCron(lib)
    ensures RunsIn(lib, s, base, from, base) == []
  {
    ListedIsRunsIn(lib, s, base, from, base, []);
  }

  /** The calculation of the next count runs never ends exactly when there is a gap that it
      comes to before it has made them or passed the end, and one before the time asked from. */
  lemma CalculationNeverEndsIffGaps(lib: CronLib, s: Schedule, from: Time, count: nat, horizon: Time -> Time)
    requires s.ReadsCron(lib) && LooksAhead(lib, s.cronExpr, s.CronLocation(), horizon) && count > 0
    requires ZERO_TIME <= s.CountingFrom(from) && ZERO_TIME < from
    requires NotPastEnd(s, s.CountingFrom(from)) && NotPastEnd(s, ZERO_TIME)
    ensures NeverEnds(lib, s, from, count, s.CountingFrom(from))
       <==> && (exists g ::
                  s.CountingFrom(from) <= g && BeforeCount(lib, s, from, count)(g) && IsGap(lib, s, horizon, g))
            && (exists g :: ZERO_TIME <= g && BeforeRun(s, from)(g) && IsGap(lib, s, horizon, g))
  {
    LooksAheadKeepsPromise(lib, s.cronExpr, s.CronLocation(), horizon);
    CalculationNeverEndsIff(lib, s, from, count);
    GivenUpBeforeEndIffGap(lib, s, from, count, horizon);
    GivenUpIffGap(lib, s, ZERO_TIME, BeforeRun(s, from), horizon);
  }

  /** An expression whose firings repeat, as the calendar does every 400 years, and how far the
      library looks with them. */
  ghost predicate Repeats(lib: CronLib, s: Schedule, horizon: Time -> Time, period: Time) {
    && (forall t :: t > ZERO_TIME ==>
          (lib.fires(s.cronExpr, s.CronLocation(), t) <==> lib.fires(s.cronExpr, s.CronLocation(), t + period)))
    && (forall t :: horizon(t + period) == horizon(t) + period)
  }

  lemma {:induction false} GapRepeats(lib: CronLib, s: Schedule, horizon: Time -> Time, period: Time, g: Time)
    returns (g0: Time)
    requires period > 0 && Repeats(lib, s, horizon, period) && ZERO_TIME <= g && IsGap(lib, s, horizon, g)
    ensures ZERO_TIME <= g0 < period && g0 <= g && IsGap(lib, s, horizon, g0)
    decreases g
  {
    g0 := g;
    if g >= period {
      assert horizon(g - period + period) == horizon(g - period) + period;
      forall u | g - period < u <= horizon(g - period)
        ensures !lib.fires(s.cronExpr, s.CronLocation(), u)
      {
        assert !lib.fires(s.cronExpr, s.CronLocation(), u + period);
      }
      g0 := GapRepeats(lib, s, horizon, period, g - period);
    }
  }

  /** So of an expression that repeats, asked for from later than that, a calculation gives
      exactly the runs, or it never ends: a gap is there before the time asked from, too. */
  lemma RightOrNeverEnds(lib: CronLib, s: Schedule, from: Time, count: nat, horizon: Time -> Time, period: Time)
    requires s.ReadsCron(lib) && LooksAhead(lib, s.cronExpr, s.CronLocation(), horizon) && count > 0
    requires 0 < period <= from && Repeats(lib, s, horizon, period)
    requires ZERO_TIME <= s.CountingFrom(from) && NotPastEnd(s, s.CountingFrom(from)) && NotPastEnd(s, ZERO_TIME)
    ensures NeverEnds(lib, s, from, count, s.CountingFrom(from))
       <==> !AnsweredForRuns(lib, s, s.CountingFrom(from), from, count)
  {
    LooksAheadKeepsPromise(lib, s.cronExpr, s.CronLocation(), horizon);
    CalculationNeverEndsIffGaps(lib, s, from, count, horizon);
    GivenUpBeforeEndIffGap(lib, s, from, count, horizon);
    AnsweredUnlessGivenUp(lib, s, from, count);
    var t, on := s.CountingFrom(from), BeforeCount(lib, s, from, count);
    if g :| t <= g && on(g) && IsGap(lib, s, horizon, g) {
      var g0 := GapRepeats(lib, s, horizon, period, g);
      assert BeforeRun(s, from)(g0);
    }
  }

  /** A gap between the last firing before the time asked from and the next, as of a 29
      February counted past 2096 by a library that looks five years ahead: it is enough. */
  lemma LongGapNeverEnds(lib: CronLib, s: Schedule, from: Time, count: nat, horizon: Time -> Time, last: Time)
    requires s.ReadsCron(lib) && LooksAhead(lib, s.cronExpr, s.CronLocation(), horizon) && count > 0
    requires ZERO_TIME <= s.CountingFrom(from) <= last < from && NotPastEnd(s, last)
    requires IsGap(lib, s, horizon, last)
    ensures NeverEnds(lib, s, from, count, s.CountingFrom(from))
  {
    assert BeforeRun(s, from)(last);
    assert RunsIn(lib, s, s.CountingFrom(from), from, last) == [];
    assert BeforeCount(lib, s, from, count)(last);
    CalculationNeverEndsIffGaps(lib, s, from, count, horizon);
  }

  /** An expression that parses and never fires - a 30 February - is always answered with
      the zero time. */
  lemma NeverFiringNeverEnds(lib: CronLib, s: Schedule, from: Time, count: nat)
    requires forall t :: s.Next(lib, t) == ZERO_TIME
    requires ZERO_TIME < from && NotPastEnd(s, ZERO_TIME) && count > 0
    ensures NeverEnds(lib, s, from, count, s.CountingFrom(from))
  {
    var t := s.CountingFrom(from);
    assert forall u :: s.Next(lib, u) == lib.next(s.cronExpr, s.CronLocation(), u);
    assert Searched(lib, s, t, 1) == s.Next(lib, Searched(lib, s, t, 0)) == ZERO_TIME;
    assert |Gathered(lib, s, from, t, 1)| == |Gathered(lib, s, from, t, 0)|;
    assert GivenUpBeforeEnd(lib, s, from, count, t, 1);
    assert Searched(lib, s, ZERO_TIME, 1) == s.Next(lib, Searched(lib, s, ZERO_TIME, 0)) == ZERO_TIME;
    assert GivenUpAt(lib, s, ZERO_TIME, BeforeRun(s, from), 1);
    GivenUpTwiceNeverEnds(lib, s, from, count, t, 1);
  }

  /** A library whose one expression fires once, as none of five fields does, and that finds
      that however far away. */
  function OneFiring(once: Time): CronLib {
    CronLib(_ => true, (e, loc, t) => t == once, (e, loc, t) => if t < once then once else ZERO_TIME)
  }

  lemma OneFiringKeepsPromise(once: Time, expr: string, loc: Location)
    ensures KeepsPromise(OneFiring(once), expr, loc)
  {
  }

  lemma StepsOfOneFiring(s: Schedule, once: Time, from: Time, t: Time)
    requires ZERO_TIME < from <= once && ZERO_TIME <= t < once
    ensures var lib := OneFiring(once);
            && Searched(lib, s, t, 1) == Searched(lib, s, t, 3) == once && Searched(lib, s, t, 2) == ZERO_TIME
            && Gathered(lib, s, from, t, 1) == Gathered(lib, s, from, t, 2) == [once]
            && Gathered(lib, s, from, t, 3) == [once, once]
  {
    var lib := OneFiring(once);
    assert Searched(lib, s, t, 0) == t && Gathered(lib, s, from, t, 0) == [];
    assert Searched(lib, s, t, 1) == s.Next(lib, t) == once && Gathered(lib, s, from, t, 1) == [once];
    assert Searched(lib, s, t, 2) == s.Next(lib, once) == ZERO_TIME && Gathered(lib, s, from, t, 2) == [once];
    assert Searched(lib, s, t, 3) == s.Next(lib, ZERO_TIME) == once;
  }

  /** That firings repeat matters: with a library held to its promise alone, a calculation that
      was given up may end all the same, with a run made twice. Asked for two runs of an
      expression that fires once, it finds the one, the zero time, and the one again. */
  lemma GivenUpMakesARunTwice(s: Schedule, once: Time, from: Time)
    requires ZERO_TIME < from <= once && s.endTime == ZERO_TIME && ZERO_TIME <= s.CountingFrom(from) < once
    ensures KeepsPromise(OneFiring(once), s.cronExpr, s.CronLocation())
    ensures EndsWith(OneFiring(once), s, from, 2, s.CountingFrom(from), [once, once])
  {
    var lib, t := OneFiring(once), s.CountingFrom(from);
    OneFiringKeepsPromise(once, s.cronExpr, s.CronLocation());
    StepsOfOneFiring(s, once, from, t);
    assert GoesOnTo(lib, s, from, 2, t, 2) && !GoesOn(lib, s, from, 2, t, 2 + 1);
  }
}
