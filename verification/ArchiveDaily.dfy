/**
 The scheduler and the archive together: if the scraping loop looks at the calendar every day, archiving
 is exactly once and every run leaves clean tables.
 */
module ArchiveDaily {
  import opened Calendar
  import opened Scheduler
  import opened Archive
  import opened ArchiveSafety
  import opened ArchiveConservation

  /** The days on which the archiver began, in order. */
  function BeginDays(ss: seq<State>, es: seq<Event>): seq<int>
    requires |ss| == |es| + 1
    decreases |es|
  {
    if es == [] then []
    else
      var n := |es| - 1;
      BeginDays(ss[..n + 1], es[..n]) + (if es[n].Begin? then [ss[n].day] else [])
  }

  predicate Consecutive(days: seq<int>, first: int) {
    forall i | 0 <= i < |days| :: days[i] == first + i
  }

  predicate Undisturbed(es: seq<Event>) {
    Throw !in es && Die !in es
  }

  /** Between runs everything before yesterday's window has been swept, `next` being the day of the next
      run; during a run its window is the first one that has not. */
  predicate UpToDate(s: State, next: int) {
    if s.job.Idle? then s.swept >= next - 1 else s.job.hier == next - 2 && s.swept >= next - 2
  }

  lemma UpToDateStep(s: State, e: Event, s': State, next: int)
    requires UpToDate(s, next) && Step(s, e, s') && !e.Throw? && !e.Die?
    requires e.Begin? ==> s.day == next
    ensures UpToDate(s', if e.Begin? then next + 1 else next)
    ensures e.Begin? ==> s.day - 1 <= s.swept
  {
    if e.Begin? {
      assert s.job.Idle? && s'.job.Running? && s'.job.hier == s.day - 1 && s'.swept == s.swept;
    } else if e.Finish? {
      assert s'.job.Idle? && s.job.Running?;
    } else {
      SweptStays(s, e, s');
      SameHier(s, e, s');
    }
  }

  lemma SameHier(s: State, e: Event, s': State)
    requires Step(s, e, s') && !e.Begin? && !e.Finish? && !e.Die?
    ensures s.job.Idle? <==> s'.job.Idle?
    ensures s.job.Running? ==> s'.job.hier == s.job.hier
  {
  }

  /** Runs that begin on consecutive days and are not disturbed are on schedule. */
  lemma {:induction false} ConsecutiveIsOnSchedule(ss: seq<State>, es: seq<Event>, first: int)
    requires IsRun(ss, es) && Undisturbed(es) && ss[0].job.Idle? && ss[0].swept >= first - 1
    requires Consecutive(BeginDays(ss, es), first)
    ensures OnSchedule(ss, es)
    ensures UpToDate(ss[|es|], first + |BeginDays(ss, es)|)
    decreases |es|
  {
    if es != [] {
      var n := |es| - 1;
      var before, front := ss[..n + 1], es[..n];
      var days := BeginDays(before, front);
      assert IsRun(before, front) && Undisturbed(front);
      assert days == BeginDays(ss, es)[..|days|];
      ConsecutiveIsOnSchedule(before, front, first);
      assert es[n].Begin? ==> BeginDays(ss, es)[|days|] == ss[n].day;
      UpToDateStep(ss[n], es[n], ss[n + 1], first + |days|);
      ScheduleSnoc(ss, es);
    }
  }

  lemma ScheduleSnoc(ss: seq<State>, es: seq<Event>)
    requires |ss| == |es| + 1 && es != [] && OnSchedule(ss[..|es|], es[..|es| - 1])
    requires var n := |es| - 1; es[n].Begin? ==> ss[n].day - 1 <= ss[n].swept
    ensures OnSchedule(ss, es)
  {
    var n := |es| - 1;
    forall i | 0 <= i < |es| && es[i].Begin? ensures ss[i].day - 1 <= ss[i].swept {
      if i < n {
        assert es[..n][i] == es[i] && ss[..n + 1][i] == ss[i];
      }
    }
  }

  function DayNumbers(days: seq<Day>): (ns: seq<int>)
    ensures |ns| == |days| && forall i | 0 <= i < |days| :: ns[i] == DayNumber(days[i])
  {
    if days == [] then [] else [DayNumber(days[0])] + DayNumbers(days[1..])
  }

  /** The days on which the archiver runs: at start-up, and then as the looks decide. */
  function LauncherDays(start: StartUp, looks: seq<Look>): seq<int> {
    [DayNumber(start.archived)] + DayNumbers(ArchiveDays(Launching(Tomorrow(start.noted).day, looks)))
  }

  /** Time goes forward, each day has a look, and midnight does not come between two readings of the clock
      that belong to one run. */
  ghost predicate EveryDay(start: StartUp, looks: seq<Look>) {
    && Forward(start.noted, Seen(looks)) && NoDayWithoutLook(start.noted, Seen(looks))
    && NoRunAcrossMidnight(start, looks)
  }

  lemma LauncherDaysConsecutive(start: StartUp, looks: seq<Look>)
    requires EveryDay(start, looks)
    ensures Consecutive(LauncherDays(start, looks), DayNumber(start.archived))
  {
    ArchivedDailyIff(start, looks);
    var runs := ArchiveDays(Launching(Tomorrow(start.noted).day, looks));
    var ns := DayNumbers(runs);
    forall i | 0 <= i < |ns| ensures ns[i] == DayNumber(start.archived) + 1 + i {
      assert DayNumber(runs[i]) == DayNumber(start.archived) + 1 + i;
    }
  }

  lemma {:induction false} BeginDaysGrow(ss: seq<State>, es: seq<Event>, n: nat)
    requires |ss| == |es| + 1 && n <= |es|
    ensures BeginDays(ss[..n + 1], es[..n]) <= BeginDays(ss, es)
    decreases |es|
  {
    if n == |es| {
      assert ss[..n + 1] == ss && es[..n] == es;
    } else {
      var m := |es| - 1;
      BeginDaysGrow(ss[..m + 1], es[..m], n);
      assert ss[..m + 1][..n + 1] == ss[..n + 1] && es[..m][..n] == es[..n];
    }
  }

  /** A history of the store from a first day on, in which nothing is thrown, nothing dies, and the
      archiver is begun by the launcher: at start-up, when nothing older than yesterday is left over, and
      then as the looks at the calendar decide. */
  ghost predicate LauncherRun(ss: seq<State>, es: seq<Event>, start: StartUp, looks: seq<Look>) {
    && CalmRun(ss, es) && Undisturbed(es)
    && FreshStart(ss[0]) && SweepInv(ss[0]) && ss[0].swept >= DayNumber(start.archived) - 1
    && BeginDays(ss, es) <= LauncherDays(start, looks)
  }

  lemma LauncherRunOnSchedule(ss: seq<State>, es: seq<Event>, start: StartUp, looks: seq<Look>)
    requires LauncherRun(ss, es, start, looks)
    requires EveryDay(start, looks)
    ensures OnSchedule(ss, es)
  {
    LauncherDaysConsecutive(start, looks);
    ConsecutiveIsOnSchedule(ss, es, DayNumber(start.archived));
  }

  lemma LauncherRunPrefix(ss: seq<State>, es: seq<Event>, start: StartUp, looks: seq<Look>, n: nat)
    requires LauncherRun(ss, es, start, looks) && n <= |es|
    ensures LauncherRun(ss[..n + 1], es[..n], start, looks)
  {
    BeginDaysGrow(ss, es, n);
    assert CalmRun(ss[..n + 1], es[..n]);
  }

  lemma CleanAfterFinish(
      ss: seq<State>, es: seq<Event>, start: StartUp, looks: seq<Look>, e: Event, s': State, site: Site, r: Row)
    requires LauncherRun(ss, es, start, looks)
    requires EveryDay(start, looks)
    requires Step(ss[|es|], e, s') && e.Finish? && site in s'.sites && r in Rows(s'.tables, site.ty)
    ensures ss[|es|].job.Running? && r.day >= ss[|es|].job.hier + 1
  {
    LauncherRunOnSchedule(ss, es, start, looks);
    TablesHoldOnlyToday(ss, es, e, s', site, r);
  }

  /** At every moment without a file in hand tables and complete files hold everything exactly once; and if
      no day goes by without a look and no run crosses midnight, then whenever a run finishes the tables of
      the sites hold only rows dated on or after the day it began. */
  lemma DailyLooksArchiveDaily(
      ss: seq<State>, es: seq<Event>, start: StartUp, looks: seq<Look>, i: nat, site: Site, r: Row)
    requires LauncherRun(ss, es, start, looks) && i <= |es|
    ensures !MidWrite(ss[i]) ==> Conserved(ss[i])
    ensures EveryDay(start, looks) && i < |es| && es[i].Finish? && site in ss[i + 1].sites
            && r in Rows(ss[i + 1].tables, site.ty) ==>
              ss[i].job.Running? && r.day >= ss[i].job.hier + 1
  {
    var before, front := ss[..i + 1], es[..i];
    LauncherRunPrefix(ss, es, start, looks, i);
    if !MidWrite(ss[i]) {
      Conservation(before, front, FileKey(site.ty, r.day), r);
    }
    if EveryDay(start, looks) && i < |es| && es[i].Finish? && site in ss[i + 1].sites
       && r in Rows(ss[i + 1].tables, site.ty) {
      assert Step(ss[i], es[i], ss[i + 1]);
      CleanAfterFinish(before, front, start, looks, es[i], ss[i + 1], site, r);
    }
  }
}
