/**
 When the archiver runs. The scraping loop looks at the calendar now and then; it archives when the
 day-of-month equals the one it noted after the previous run, and then notes tomorrow's. The archiver reads
 the clock itself, so the day it archives on need not be the day of the look that started it.
 */
module Scheduler {
  import opened Calendar

  /** A look at the calendar: the day it sees, and the day on which the archiver reads the clock if the look
      starts it. */
  datatype Look = Look(seen: Day, archived: Day)

  /** Start-up: the day on which the archiver reads the clock, and the day of the reading after that run,
      from which the next run is noted. */
  datatype StartUp = StartUp(archived: Day, noted: Day)

  /** The launcher's memory of its next run is a day-of-month, not a date. */
  class Launcher {
    var nextDay: int

    /** Start-up archives once, then waits for the day-of-month after the day noted. */
    constructor (start: StartUp)
      ensures nextDay == Tomorrow(start.noted).day
    {
      nextDay := Tomorrow(start.noted).day;
    }

    /** One look at the calendar; `ran` says whether the archiver was run. */
    method VerifDate(look: Look) returns (ran: bool)
      modifies this
      ensures Launching(old(nextDay), [look]) == if ran then [look] else []
      ensures nextDay == if ran then Tomorrow(look.seen).day else old(nextDay)
    {
      var j := look.seen.day;
      ran := j == nextDay;
      if ran {
        nextDay := Tomorrow(look.seen).day;
      }
    }

    /** The scraping loop, reduced to its looks at the calendar: the days on which the archiver runs. */
    method LoopVals(looks: seq<Look>) returns (days: seq<Day>)
      modifies this
      ensures days == ArchiveDays(Launching(old(nextDay), looks))
    {
      days := [];
      ghost var runs: seq<Look> := [];
      for i := 0 to |looks|
        invariant runs + Launching(nextDay, looks[i..]) == Launching(old(nextDay), looks)
        invariant days == ArchiveDays(runs)
      {
        assert looks[i..][1..] == looks[i + 1..];
        var ran := VerifDate(looks[i]);
        if ran {
          ArchiveDaysSnoc(runs, looks[i]);
          days, runs := days + [looks[i].archived], runs + [looks[i]];
        }
      }
    }
  }

  /** The looks that start the archiver. */
  function Launching(nextDay: int, looks: seq<Look>): seq<Look>
    decreases |looks|
  {
    if looks == [] then []
    else if looks[0].seen.day == nextDay then [looks[0]] + Launching(Tomorrow(looks[0].seen).day, looks[1..])
    else Launching(nextDay, looks[1..])
  }

  function Seen(looks: seq<Look>): (days: seq<Day>)
    ensures |days| == |looks| && forall i | 0 <= i < |looks| :: days[i] == looks[i].seen
  {
    if looks == [] then [] else [looks[0].seen] + Seen(looks[1..])
  }

  function ArchiveDays(looks: seq<Look>): (days: seq<Day>)
    ensures |days| == |looks| && forall i | 0 <= i < |looks| :: days[i] == looks[i].archived
  {
    if looks == [] then [] else [looks[0].archived] + ArchiveDays(looks[1..])
  }

  lemma ArchiveDaysSnoc(looks: seq<Look>, look: Look)
    ensures ArchiveDays(looks + [look]) == ArchiveDays(looks) + [look.archived]
  {
    var a, b := ArchiveDays(looks + [look]), ArchiveDays(looks) + [look.archived];
    assert forall i | 0 <= i < |b| :: a[i] == b[i];
  }

  // ---------------------------------------------------------------- the days seen

  /** Whether a look starts the archiver depends on the days seen alone. */
  lemma {:induction false} LaunchingSeen(nextDay: int, looks: seq<Look>)
    ensures Seen(Launching(nextDay, looks)) == Runs(nextDay, Seen(looks))
    decreases |looks|
  {
    if looks != [] {
      var ran := looks[0].seen.day == nextDay;
      LaunchingSeen(if ran then Tomorrow(looks[0].seen).day else nextDay, looks[1..]);
      assert Seen(looks)[1..] == Seen(looks[1..]);
      if ran {
        var later := Launching(Tomorrow(looks[0].seen).day, looks[1..]);
        assert Launching(nextDay, looks)[1..] == later;
      }
    }
  }

  /** The days of the looks that start the archiver, among the days seen. */
  function Runs(nextDay: int, polls: seq<Day>): seq<Day>
    decreases |polls|
  {
    if polls == [] then []
    else if polls[0].day == nextDay then [polls[0]] + Runs(Tomorrow(polls[0]).day, polls[1..])
    else Runs(nextDay, polls[1..])
  }

  /** Every look is on the day of the previous one or on the day after. */
  predicate EveryDayPolled(last: Day, polls: seq<Day>)
    decreases |polls|
  {
    polls != [] ==>
      && (polls[0] == last || polls[0] == Tomorrow(last))
      && EveryDayPolled(polls[0], polls[1..])
  }

  lemma {:induction false} MonthStartMonotone(y: int, m: int, b: Day)
    requires 1 <= m <= 12
    requires y < b.year || (y == b.year && m < b.month)
    ensures DayNumber(Date(y, m, 1)) + MonthLength(y, m) <= DayNumber(Date(b.year, b.month, 1))
  {
    MonthStep(y, m);
    var (ny, nm) := NextMonth(y, m);
    DayNumberInjective(Date(ny, nm, 1), Date(b.year, b.month, 1));
  }

  /** Two different days with the same day-of-month are at least four weeks apart. */
  lemma SameDayOfMonthIsFar(a: Day, b: Day)
    requires a.day == b.day
    ensures a == b || DayNumber(b) - DayNumber(a) >= 28 || DayNumber(a) - DayNumber(b) >= 28
  {
    if Before(a, b) {
      MonthStartMonotone(a.year, a.month, b);
    } else if Before(b, a) {
      MonthStartMonotone(b.year, b.month, a);
    }
  }

  /** The days of `runs` have the consecutive day numbers `n`, `n + 1`, ... */
  predicate Successive(runs: seq<Day>, n: int) {
    forall i | 0 <= i < |runs| :: DayNumber(runs[i]) == n + i
  }

  lemma TomorrowFacts(d: Day)
    ensures DayNumber(Tomorrow(d)) == DayNumber(d) + 1
    ensures d.day != Tomorrow(d).day
  {
    if d.day == Tomorrow(d).day {
      SameDayOfMonthIsFar(d, Tomorrow(d));
    }
  }

  lemma SuccessiveCons(d: Day, runs: seq<Day>, n: int)
    requires DayNumber(d) == n && Successive(runs, n + 1)
    ensures Successive([d] + runs, n)
  {
  }

  function Final(last: Day, polls: seq<Day>): Day {
    if polls == [] then last else polls[|polls| - 1]
  }

  /** A look on the day of the last run, or on the next day, leaves the wait for the day after the look. */
  lemma RunsAfterLook(last: Day, polls: seq<Day>)
    requires polls != [] && (polls[0] == last || polls[0] == Tomorrow(last))
    ensures var later := Runs(Tomorrow(polls[0]).day, polls[1..]);
            Runs(Tomorrow(last).day, polls) == if polls[0] == Tomorrow(last) then [polls[0]] + later else later
  {
    TomorrowFacts(last);
  }

  /** If no calendar day goes by without a look, the archiver runs exactly once on every day
      after the last run, in order, up to the day of the last look. */
  lemma {:induction false} DailyPollingRunsDaily(last: Day, polls: seq<Day>)
    requires EveryDayPolled(last, polls)
    ensures |Runs(Tomorrow(last).day, polls)| == DayNumber(Final(last, polls)) - DayNumber(last)
    ensures Successive(Runs(Tomorrow(last).day, polls), DayNumber(last) + 1)
    decreases |polls|
  {
    if polls != [] {
      var p, rest := polls[0], polls[1..];
      TomorrowFacts(last);
      RunsAfterLook(last, polls);
      DailyPollingRunsDaily(p, rest);
      assert Final(last, polls) == Final(p, rest);
      if p == Tomorrow(last) {
        SuccessiveCons(p, Runs(Tomorrow(p).day, rest), DayNumber(last) + 1);
      }
    }
  }

  // ---------------------------------------------------------------- exactly when it runs daily

  /** Time does not go back between looks, nor before the last run. */
  predicate Forward(last: Day, polls: seq<Day>)
    decreases |polls|
  {
    polls != [] ==> DayNumber(last) <= DayNumber(polls[0]) && Forward(polls[0], polls[1..])
  }

  /** Some look falls on the day with number `n`. */
  predicate LookedOn(polls: seq<Day>, n: int) {
    exists i | 0 <= i < |polls| :: DayNumber(polls[i]) == n
  }

  /** Every day after the last run, up to the day of the last look, has a look. */
  ghost predicate NoDayWithoutLook(last: Day, polls: seq<Day>) {
    forall n | DayNumber(last) < n <= DayNumber(Final(last, polls)) :: LookedOn(polls, n)
  }

  /** The archiver was started on exactly the days after the last run up to the last look, once each, in
      order. */
  predicate RanDaily(last: Day, polls: seq<Day>) {
    var runs := Runs(Tomorrow(last).day, polls);
    |runs| == DayNumber(Final(last, polls)) - DayNumber(last) && Successive(runs, DayNumber(last) + 1)
  }

  lemma {:induction false} ForwardBound(last: Day, polls: seq<Day>, i: nat)
    requires Forward(last, polls) && i < |polls|
    ensures DayNumber(last) <= DayNumber(polls[i]) <= DayNumber(Final(last, polls))
    decreases |polls|
  {
    if i > 0 {
      ForwardBound(polls[0], polls[1..], i - 1);
    } else if |polls| > 1 {
      ForwardBound(polls[0], polls[1..], 0);
    }
  }

  /** The first look after a run is on the day of the run or the day after, if no day is left out. */
  lemma FirstLookIsNear(last: Day, polls: seq<Day>)
    requires polls != [] && Forward(last, polls) && NoDayWithoutLook(last, polls)
    ensures polls[0] == last || polls[0] == Tomorrow(last)
  {
    var n := DayNumber(last) + 1;
    ForwardBound(last, polls, 0);
    DayNumberInjective(polls[0], last);
    DayNumberInjective(polls[0], Tomorrow(last));
    if DayNumber(polls[0]) > n {
      assert LookedOn(polls, n);
      var i :| 0 <= i < |polls| && DayNumber(polls[i]) == n;
      LaterLooks(last, polls, i);
    }
  }

  lemma LaterLooks(last: Day, polls: seq<Day>, i: nat)
    requires i < |polls| && Forward(last, polls)
    ensures DayNumber(polls[0]) <= DayNumber(polls[i])
  {
    if i > 0 {
      ForwardBound(polls[0], polls[1..], i - 1);
    }
  }

  lemma {:induction false} CoveredIsEveryDay(last: Day, polls: seq<Day>)
    requires Forward(last, polls) && NoDayWithoutLook(last, polls)
    ensures EveryDayPolled(last, polls)
    decreases |polls|
  {
    if polls != [] {
      var p, rest := polls[0], polls[1..];
      FirstLookIsNear(last, polls);
      CoveredTail(last, polls);
      CoveredIsEveryDay(p, rest);
    }
  }

  lemma CoveredTail(last: Day, polls: seq<Day>)
    requires polls != [] && Forward(last, polls) && NoDayWithoutLook(last, polls)
    ensures NoDayWithoutLook(polls[0], polls[1..])
  {
    var p, rest := polls[0], polls[1..];
    assert Final(last, polls) == Final(p, rest);
    forall n | DayNumber(p) < n <= DayNumber(Final(p, rest)) ensures LookedOn(rest, n) {
      ForwardBound(last, polls, 0);
      assert LookedOn(polls, n);
      var i :| 0 <= i < |polls| && DayNumber(polls[i]) == n;
      assert rest[i - 1] == polls[i];
    }
  }

  /** Every run is a look. */
  lemma {:induction false} RunsAreLooks(nextDay: int, polls: seq<Day>)
    ensures forall r | r in Runs(nextDay, polls) :: r in polls
    decreases |polls|
  {
    if polls != [] {
      var p := polls[0];
      RunsAreLooks(if p.day == nextDay then Tomorrow(p).day else nextDay, polls[1..]);
      assert forall r | r in polls[1..] :: r in polls;
    }
  }

  /** Whatever the looks after a run, as long as time goes forward: the archiver is started on every day up
      to the last look, once each, if and only if each of those days has a look. */
  lemma RunsDailyIff(last: Day, polls: seq<Day>)
    requires Forward(last, polls)
    ensures RanDaily(last, polls) <==> NoDayWithoutLook(last, polls)
  {
    if NoDayWithoutLook(last, polls) {
      CoveredIsEveryDay(last, polls);
      DailyPollingRunsDaily(last, polls);
    }
    if RanDaily(last, polls) {
      var runs := Runs(Tomorrow(last).day, polls);
      RunsAreLooks(Tomorrow(last).day, polls);
      forall n | DayNumber(last) < n <= DayNumber(Final(last, polls)) ensures LookedOn(polls, n) {
        var r := runs[n - DayNumber(last) - 1];
        assert r in polls && DayNumber(r) == n;
        var i :| 0 <= i < |polls| && polls[i] == r;
      }
    }
  }

  // ---------------------------------------------------------------- exactly when every day is archived

  lemma ForwardTail(last: Day, polls: seq<Day>)
    requires polls != [] && Forward(last, polls)
    ensures Forward(last, polls[1..])
    ensures DayNumber(last) <= DayNumber(Final(last, polls[1..])) <= DayNumber(Final(last, polls))
    ensures polls[1..] != [] ==> Final(last, polls[1..]) == Final(last, polls)
  {
    if |polls| > 1 {
      ForwardBound(last, polls, |polls| - 1);
    }
  }

  /** After a run, there is at most one run a day up to the last look, and if there are that many they are
      on consecutive days. */
  lemma {:induction false} RunsBound(last: Day, polls: seq<Day>)
    requires Forward(last, polls)
    ensures var runs, days := Runs(Tomorrow(last).day, polls), DayNumber(Final(last, polls)) - DayNumber(last);
            |runs| <= days && (|runs| == days ==> Successive(runs, DayNumber(last) + 1))
    decreases |polls|
  {
    if polls != [] {
      var p, rest := polls[0], polls[1..];
      if p.day == Tomorrow(last).day {
        TomorrowFacts(last);
        DayNumberInjective(last, p);
        assert Final(last, polls) == Final(p, rest);
        RunsBound(p, rest);
        if DayNumber(p) == DayNumber(last) + 1 && Successive(Runs(Tomorrow(p).day, rest), DayNumber(p) + 1) {
          SuccessiveCons(p, Runs(Tomorrow(p).day, rest), DayNumber(last) + 1);
        }
      } else {
        ForwardTail(last, polls);
        RunsBound(last, rest);
      }
    }
  }

  /** The last day seen. */
  function LastSeen(start: StartUp, looks: seq<Look>): Day {
    Final(start.noted, Seen(looks))
  }

  /** The archiver archived on every day from start-up to the last look, once each, in order. */
  predicate ArchivedDaily(start: StartUp, looks: seq<Look>) {
    var days := ArchiveDays(Launching(Tomorrow(start.noted).day, looks));
    && |days| == DayNumber(LastSeen(start, looks)) - DayNumber(start.archived)
    && Successive(days, DayNumber(start.archived) + 1)
  }

  /** Midnight does not fall between the two readings of the clock at start-up, or between a look and the
      run it starts. */
  predicate NoRunAcrossMidnight(start: StartUp, looks: seq<Look>) {
    && start.noted == start.archived
    && forall look | look in Launching(Tomorrow(start.noted).day, looks) :: look.archived == look.seen
  }

  lemma SameReadings(runs: seq<Look>, n: int)
    requires Successive(Seen(runs), n)
    ensures Successive(ArchiveDays(runs), n) <==> forall look | look in runs :: look.archived == look.seen
  {
    forall i | 0 <= i < |runs|
      ensures runs[i].archived == runs[i].seen <==> DayNumber(ArchiveDays(runs)[i]) == n + i
    {
      assert DayNumber(Seen(runs)[i]) == n + i;
      DayNumberInjective(runs[i].archived, runs[i].seen);
    }
    if Successive(ArchiveDays(runs), n) {
      forall look | look in runs ensures look.archived == look.seen {
        var i :| 0 <= i < |runs| && runs[i] == look;
        assert DayNumber(ArchiveDays(runs)[i]) == n + i;
      }
    }
  }

  /** Whatever the looks after start-up, as long as time goes forward: every day is archived on, once each,
      if and only if each day has a look and no run is started just before midnight and made after it. */
  lemma ArchivedDailyIff(start: StartUp, looks: seq<Look>)
    requires DayNumber(start.archived) <= DayNumber(start.noted) && Forward(start.noted, Seen(looks))
    ensures ArchivedDaily(start, looks) <==>
            NoRunAcrossMidnight(start, looks) && NoDayWithoutLook(start.noted, Seen(looks))
  {
    var last, runs := start.noted, Launching(Tomorrow(start.noted).day, looks);
    LaunchingSeen(Tomorrow(last).day, looks);
    RunsBound(last, Seen(looks));
    RunsDailyIff(last, Seen(looks));
    DayNumberInjective(start.archived, start.noted);
    if start.archived == start.noted && Successive(Seen(runs), DayNumber(last) + 1) {
      SameReadings(runs, DayNumber(last) + 1);
    }
  }

  /** A start-up run that ends after midnight: the next day has a look, and yet no run. */
  lemma MidnightAtStartUp(d: Day)
    ensures var start, looks := StartUp(d, Tomorrow(d)), [Look(Tomorrow(d), Tomorrow(d))];
            && NoDayWithoutLook(d, Seen(looks)) && Launching(Tomorrow(start.noted).day, looks) == []
            && !ArchivedDaily(start, looks)
  {
    TomorrowFacts(d);
    TomorrowFacts(Tomorrow(d));
    var looks := [Look(Tomorrow(d), Tomorrow(d))];
    assert Seen(looks)[0] == Tomorrow(d);
    assert looks[1..] == [];
  }

  /** A run that a look starts just before midnight: it archives for the day after. */
  lemma MidnightAfterLook(d: Day)
    ensures var looks := [Look(Tomorrow(d), Tomorrow(Tomorrow(d)))];
            && NoDayWithoutLook(d, Seen(looks)) && !ArchivedDaily(StartUp(d, d), looks)
            && ArchiveDays(Launching(Tomorrow(d).day, looks)) == [Tomorrow(Tomorrow(d))]
  {
    TomorrowFacts(d);
    TomorrowFacts(Tomorrow(d));
    var looks := [Look(Tomorrow(d), Tomorrow(Tomorrow(d)))];
    assert Seen(looks)[0] == Tomorrow(d);
    assert looks[1..] == [] && Launching(Tomorrow(d).day, looks) == looks;
    assert DayNumber(ArchiveDays(looks)[0]) == DayNumber(d) + 2;
  }

  // ---------------------------------------------------------------- how long it waits otherwise

  /** The first look on a given day-of-month. */
  function FirstOn(day: int, polls: seq<Day>): (k: nat)
    ensures k <= |polls| && (k < |polls| ==> polls[k].day == day)
    ensures forall i | 0 <= i < k :: polls[i].day != day
  {
    if polls == [] || polls[0].day == day then 0 else 1 + FirstOn(day, polls[1..])
  }

  /** After a run the next one is the first look on tomorrow's day-of-month, in whatever month; and a look
      on that day-of-month that is not tomorrow is at least four weeks away from it. */
  lemma {:induction false} NextRunIsFirstOn(last: Day, polls: seq<Day>)
    ensures var k := FirstOn(Tomorrow(last).day, polls);
            && Runs(Tomorrow(last).day, polls) ==
               (if k == |polls| then [] else [polls[k]] + Runs(Tomorrow(polls[k]).day, polls[k + 1..]))
            && (k < |polls| && DayNumber(polls[k]) > DayNumber(last) ==>
                  polls[k] == Tomorrow(last) || DayNumber(polls[k]) >= DayNumber(last) + 29)
  {
    SkipsTo(Tomorrow(last).day, polls);
    var k := FirstOn(Tomorrow(last).day, polls);
    if k < |polls| && DayNumber(polls[k]) > DayNumber(last) {
      NotTomorrowIsFar(last, polls[k]);
    }
  }

  lemma NotTomorrowIsFar(last: Day, d: Day)
    requires d.day == Tomorrow(last).day && DayNumber(d) > DayNumber(last)
    ensures d == Tomorrow(last) || DayNumber(d) >= DayNumber(last) + 29
  {
    TomorrowFacts(last);
    SameDayOfMonthIsFar(d, Tomorrow(last));
  }

  lemma {:induction false} SkipsTo(day: int, polls: seq<Day>)
    ensures var k := FirstOn(day, polls);
            Runs(day, polls) == if k == |polls| then [] else [polls[k]] + Runs(Tomorrow(polls[k]).day, polls[k + 1..])
    decreases |polls|
  {
    if polls != [] && polls[0].day != day {
      SkipsTo(day, polls[1..]);
      var k := FirstOn(day, polls);
      assert k > 0 && (k < |polls| ==> polls[1..][k - 1] == polls[k] && polls[1..][k..] == polls[k + 1..]);
    }
  }

  /** A run on 30 January, no look on the 31st, then looks on every day of February: no run. */
  lemma StalledFebruary(polls: seq<Day>)
    requires polls == seq(28, i => Date(2023, 2, i + 1))
    ensures Runs(Tomorrow(Date(2023, 1, 30)).day, polls) == []
  {
    assert forall p | p in polls :: p.year == 2023 && p.month == 2 && 1 <= p.day <= 28;
    NoMatchNoRun(31, polls);
    YesterdayIsPredecessor(Date(2023, 1, 31), Date(2023, 1, 31));
    YesterdayByCases(2023, 1, 31);
  }

  lemma {:induction false} NoMatchNoRun(nextDay: int, polls: seq<Day>)
    requires forall p | p in polls :: p.day != nextDay
    ensures Runs(nextDay, polls) == []
  {
    if polls != [] {
      assert forall p | p in polls[1..] :: p in polls;
      NoMatchNoRun(nextDay, polls[1..]);
    }
  }
}
