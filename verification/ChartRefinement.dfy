/**
 Incremental polling against full loads: a chart that is only ever extended by polls is the chart a
 fresh load would have shown.
 */
module ChartRefinement {
  import opened Wrappers
  import opened Chart

  // ---------------------------------------------------------------- the server's series

  /** Textual order of dates, as the server compares them. */
  predicate Earlier(a: string, b: string) {
    b != "" && (a == "" || a[0] < b[0] || (a[0] == b[0] && Earlier(a[1..], b[1..])))
  }

  lemma {:induction false} EarlierAsymmetric(a: string, b: string)
    ensures Earlier(a, b) ==> !Earlier(b, a)
    decreases |a|
  {
    if a != "" && b != "" {
      EarlierAsymmetric(a[1..], b[1..]);
    }
  }

  predicate Chronological(series: seq<Point>) {
    forall i, j | 0 <= i < j < |series| :: Earlier(series[i].date, series[j].date)
  }

  /** The answer to a poll: the points dated after `since`. */
  function After(series: seq<Point>, since: string): seq<Point> {
    if series == [] then []
    else (if Earlier(since, series[0].date) then [series[0]] else []) + After(series[1..], since)
  }

  lemma {:induction false} AfterAll(series: seq<Point>, since: string)
    requires forall i | 0 <= i < |series| :: Earlier(since, series[i].date)
    ensures After(series, since) == series
  {
    if series != [] {
      AfterAll(series[1..], since);
      assert series == [series[0]] + series[1..];
    }
  }

  /** After the date of the `k`-th point come exactly the points behind it. */
  lemma {:induction false} AfterIsSuffix(series: seq<Point>, k: nat)
    requires Chronological(series) && 1 <= k <= |series|
    ensures After(series, series[k - 1].date) == series[k..]
    decreases k
  {
    var since := series[k - 1].date;
    if k == 1 {
      EarlierAsymmetric(since, since);
      AfterAll(series[1..], since);
    } else {
      EarlierAsymmetric(series[0].date, since);
      AfterIsSuffix(series[1..], k - 1);
      assert series[1..][k - 1..] == series[k..];
    }
  }

  lemma {:induction false} AfterNone(series: seq<Point>, since: string)
    requires forall i | 0 <= i < |series| :: Earlier(series[i].date, since)
    ensures After(series, since) == []
  {
    if series != [] {
      EarlierAsymmetric(series[0].date, since);
      AfterNone(series[1..], since);
    }
  }

  /** The same as the server saw it when the series had `n` points. */
  lemma AfterSnapshot(series: seq<Point>, n: nat, k: nat)
    requires Chronological(series) && 1 <= k <= |series| && n <= |series|
    ensures After(series[..n], series[k - 1].date) == if k <= n then series[k..n] else []
  {
    var seen := series[..n];
    assert Chronological(seen);
    if k <= n {
      AfterIsSuffix(seen, k);
      assert seen[k..] == series[k..n];
    } else {
      AfterNone(seen, series[k - 1].date);
    }
  }

  // ---------------------------------------------------------------- one selection, one poll at a time

  /** The component and the server's series for its selection and period. */
  datatype System = System(s: State, series: seq<Point>)

  datatype Move =
    | Grow(p: Point)
    | Poll(timer: nat)
    | Answer(i: nat, n: nat)
    | Other(i: nat, response: Response)

  predicate NoPoll(flight: seq<Request>) {
    forall r | r in flight :: !r.AskNews?
  }

  /** The server only appends later points; a timer ticks only when no poll is in flight; a poll is
      answered with what is newer than its date in the series as the server read it, which may have grown
      since, or fails; totals are answered with anything. */
  predicate Allowed(y: System, m: Move) {
    match m
    case Grow(p) => Chronological(y.series + [p])
    case Poll(_) => NoPoll(y.s.flight)
    case Answer(i, n) => i < |y.s.flight| && y.s.flight[i].AskNews? && n <= |y.series|
    case Other(i, response) => i < |y.s.flight| && (response.Failed? || y.s.flight[i].AskTotal?)
  }

  function Next(y: System, m: Move): System
    requires Allowed(y, m)
  {
    match m
    case Grow(p) => y.(series := y.series + [p])
    case Poll(timer) => y.(s := Step(y.s, Fire(timer)))
    case Answer(i, n) => y.(s := Step(y.s, Deliver(i, Points(After(y.series[..n], y.s.flight[i].since)))))
    case Other(i, response) => y.(s := Step(y.s, Deliver(i, response)))
  }

  /** The part of the state that the page shows. */
  predicate SameChart(a: State, b: State) {
    a.chart == b.chart && a.maxVal == b.maxVal && a.minVal == b.minVal && a.maxDate == b.maxDate
  }

  /** The page shows exactly these points. */
  predicate Shows(s: State, pts: seq<Point>) {
    && pts != []
    && s.chart == Some(Series(Labels(s.time, pts), Vals(pts)))
    && s.maxVal == Some(ReduceMax(Vals(pts))) && s.minVal == Some(ReduceMin(Vals(pts)))
    && s.maxDate == Some(pts[|pts| - 1].date)
  }

  /** That is: it looks as after a full load of them, by whatever request. */
  lemma ShowsIsFreshLoad(s: State, pts: seq<Point>, id: int)
    requires pts != []
    ensures Shows(s, pts) <==> SameChart(s, OnVals(s, id, pts))
    ensures Shows(OnVals(s, id, pts), pts)
  {
  }

  predicate AtMostOnePoll(flight: seq<Request>) {
    forall i, j | 0 <= i < j < |flight| :: !(flight[i].AskNews? && flight[j].AskNews?)
  }

  /** Nothing outstanding but totals and at most one poll, sent for this index at this date. */
  predicate Calls(flight: seq<Request>, id: int, since: string) {
    && AtMostOnePoll(flight)
    && forall r | r in flight :: r.AskTotal? || r == AskNews(id, since)
  }

  /** The chart stands at the first `k` points of the series, and so does any poll in flight. */
  predicate InStep(y: System, k: nat) {
    && Chronological(y.series) && 1 <= k <= |y.series| && Shows(y.s, y.series[..k])
    && y.s.selected.Some? && Calls(y.s.flight, y.s.selected.value, y.series[k - 1].date)
  }

  lemma CallsWithout(flight: seq<Request>, id: int, since: string, i: nat, later: string)
    requires Calls(flight, id, since) && i < |flight|
    ensures Calls(Without(flight, i), id, since)
    ensures flight[i].AskNews? ==> Calls(Without(flight, i), id, later)
  {
  }

  lemma JoinPoints(time: Time, a: seq<Point>, b: seq<Point>)
    ensures Vals(a + b) == Vals(a) + Vals(b)
    ensures Labels(time, a + b) == Labels(time, a) + Labels(time, b)
  {
  }

  lemma JoinShows(s: State, time: Time, a: seq<Point>, b: seq<Point>)
    requires a != [] && b != [] && s.time == time
    requires s.chart == Some(Series(Labels(time, a) + Labels(time, b), Vals(a) + Vals(b)))
    requires s.maxVal == Some(ReduceMax(Vals(a) + Vals(b))) && s.minVal == Some(ReduceMin(Vals(a) + Vals(b)))
    requires s.maxDate == Some(b[|b| - 1].date)
    ensures Shows(s, a + b)
  {
    JoinPoints(time, a, b);
  }

  /** Appending the suffix to what shows a prefix shows the whole. */
  lemma ExtendIsReload(s: State, a: seq<Point>, b: seq<Point>, id: int)
    requires Shows(s, a)
    ensures Shows(OnNews(s, id, b), a + b)
  {
    if b == [] {
      assert a + b == a;
    } else {
      JoinShows(OnNews(s, id, b), s.time, a, b);
    }
  }

  lemma GrowStep(y: System, p: Point, k: nat)
    requires InStep(y, k) && Allowed(y, Grow(p))
    ensures InStep(Next(y, Grow(p)), k)
  {
    assert (y.series + [p])[..k] == y.series[..k];
  }

  lemma PollStep(y: System, timer: nat, k: nat)
    requires InStep(y, k) && Allowed(y, Poll(timer))
    ensures InStep(Next(y, Poll(timer)), k)
  {
    if timer in y.s.live {
      var news := AskNews(y.s.selected.value, y.series[k - 1].date);
      assert Next(y, Poll(timer)).s.flight == y.s.flight + [news];
      assert Calls(y.s.flight + [news], news.id, news.since);
    }
  }

  /** Failures and totals change nothing in the chart. */
  lemma OtherStep(y: System, m: Move, k: nat)
    requires InStep(y, k) && m.Other? && Allowed(y, m)
    ensures InStep(Next(y, m), k)
  {
    CallsWithout(y.s.flight, y.s.selected.value, y.series[k - 1].date, m.i, "");
    var s1 := y.s.(flight := Without(y.s.flight, m.i));
    assert Next(y, m).s == s1 || (m.response.Totals? && Next(y, m).s == OnTotals(s1, m.response));
  }

  lemma SplitAt(series: seq<Point>, k: nat)
    requires k <= |series|
    ensures forall n | k <= n <= |series| :: series[..k] + series[k..n] == series[..n]
  {
  }

  /** New values change neither the requests nor the selection, and show the joined series. */
  lemma NewsLevels(s: State, a: seq<Point>, b: seq<Point>, whole: seq<Point>, id: int)
    requires Shows(s, a) && a + b == whole
    ensures Shows(OnNews(s, id, b), whole)
    ensures OnNews(s, id, b).flight == s.flight && OnNews(s, id, b).selected == s.selected
  {
    ExtendIsReload(s, a, b, id);
  }

  lemma DeliverIsNews(s: State, i: nat, pts: seq<Point>)
    requires i < |s.flight| && s.flight[i].AskNews?
    ensures Step(s, Deliver(i, Points(pts))) == OnNews(s.(flight := Without(s.flight, i)), s.flight[i].id, pts)
  {
  }

  lemma AnswerIsNews(y: System, i: nat, n: nat)
    requires Allowed(y, Answer(i, n))
    ensures var r := y.s.flight[i];
            Next(y, Answer(i, n)) ==
            y.(s := OnNews(y.s.(flight := Without(y.s.flight, i)), r.id, After(y.series[..n], r.since)))
  {
    DeliverIsNews(y.s, i, After(y.series[..n], y.s.flight[i].since));
  }

  function Max(a: nat, b: nat): nat {
    if a < b then b else a
  }

  /** An answered poll brings the chart level with what the server read. */
  lemma AnswerStep(y: System, i: nat, n: nat, k: nat)
    requires InStep(y, k) && Allowed(y, Answer(i, n))
    ensures InStep(Next(y, Answer(i, n)), Max(k, n))
  {
    var id, since := y.s.selected.value, y.series[k - 1].date;
    var s1 := y.s.(flight := Without(y.s.flight, i));
    assert y.s.flight[i] == AskNews(id, since) by {
      assert y.s.flight[i] in y.s.flight;
    }
    AnswerIsNews(y, i, n);
    CallsWithout(y.s.flight, id, since, i, y.series[Max(k, n) - 1].date);
    assert Shows(s1, y.series[..k]) by {
      ShowsSame(y.s, s1, y.series[..k]);
    }
    AfterSnapshot(y.series, n, k);
    if k <= n {
      SplitAt(y.series, k);
      NewsLevels(s1, y.series[..k], y.series[k..n], y.series[..n], id);
    }
  }

  lemma ShowsSame(s: State, s': State, pts: seq<Point>)
    requires Shows(s, pts) && SameChart(s, s') && s.time == s'.time
    ensures Shows(s', pts)
  {
  }

  predicate AllAllowed(y: System, ms: seq<Move>)
    decreases |ms|
  {
    ms != [] ==> Allowed(y, ms[0]) && AllAllowed(Next(y, ms[0]), ms[1..])
  }

  function Moves(y: System, ms: seq<Move>): System
    requires AllAllowed(y, ms)
    decreases |ms|
  {
    if ms == [] then y else Moves(Next(y, ms[0]), ms[1..])
  }

  /** With one selection and at most one poll in flight, however often the server's series has grown and
      polls have been answered or have failed: the chart, its extremes and its last date are those of a
      full load of the series as the server read it for the last answered poll. */
  lemma {:induction false} PollingIsReloading(y: System, ms: seq<Move>, k: nat, id: int)
    requires InStep(y, k) && AllAllowed(y, ms)
    ensures var y', n := Moves(y, ms), LevelAfter(y, ms, k);
            InStep(y', n) && SameChart(y'.s, OnVals(y'.s, id, y'.series[..n]))
    decreases |ms|
  {
    if ms == [] {
      ShowsIsFreshLoad(y.s, y.series[..k], id);
    } else {
      match ms[0] {
        case Grow(p) => GrowStep(y, p, k);
        case Poll(timer) => PollStep(y, timer, k);
        case Answer(i, n) => AnswerStep(y, i, n, k);
        case Other(_, _) => OtherStep(y, ms[0], k);
      }
      PollingIsReloading(Next(y, ms[0]), ms[1..], LevelStep(ms[0], k), id);
    }
  }

  /** How much of the series the last answered poll has covered. */
  function LevelStep(m: Move, k: nat): nat
  {
    if m.Answer? then Max(k, m.n) else k
  }

  function LevelAfter(y: System, ms: seq<Move>, k: nat): nat
    requires AllAllowed(y, ms)
    decreases |ms|
  {
    if ms == [] then k else LevelAfter(Next(y, ms[0]), ms[1..], LevelStep(ms[0], k))
  }

  /** The starting point: a non-empty full load that has just been answered, with nothing else asked. */
  lemma FreshLoadIsInStep(s: State, id: int, series: seq<Point>)
    requires Chronological(series) && series != [] && s.selected.Some?
    requires forall r | r in s.flight :: r.AskTotal?
    ensures InStep(System(OnVals(s, id, series), series), |series|)
  {
    assert series[..|series|] == series;
    ShowsIsFreshLoad(s, series, id);
    assert forall i | 0 <= i < |s.flight| :: s.flight[i] in s.flight;
  }

  /** What the surroundings may do: the server may append any later point, and read its series for a poll at
      any length; a poll in flight may be answered or fail, and totals may bring anything. */
  lemma MovesAreFree(y: System, i: nat, n: nat, p: Point, response: Response)
    ensures Chronological(y.series + [p]) ==> Allowed(y, Grow(p))
    ensures i < |y.s.flight| && y.s.flight[i].AskNews? && n <= |y.series| ==> Allowed(y, Answer(i, n))
    ensures i < |y.s.flight| ==> Allowed(y, Other(i, Failed))
    ensures i < |y.s.flight| && y.s.flight[i].AskTotal? ==> Allowed(y, Other(i, response))
  {
  }

  /** One round: the series grows by a point, a live timer ticks, and the poll is answered from the grown
      series. The chart then shows it all. */
  lemma PollingCatchesUp(y: System, p: Point, timer: nat)
    requires InStep(y, |y.series|) && NoPoll(y.s.flight) && timer in y.s.live && Chronological(y.series + [p])
    ensures var ms := [Grow(p), Poll(timer), Answer(|y.s.flight|, |y.series| + 1)];
            AllAllowed(y, ms) && Moves(y, ms).series == y.series + [p] && Shows(Moves(y, ms).s, y.series + [p])
  {
    var k, grow, poll, answer := |y.series|, Grow(p), Poll(timer), Answer(|y.s.flight|, |y.series| + 1);
    GrowStep(y, p, k);
    var y1 := Next(y, grow);
    assert y1.s == y.s;
    PollStep(y1, timer, k);
    TickStep(y1.s, timer);
    var y2 := Next(y1, poll);
    assert y2.s.flight == y.s.flight + [AskNews(y.s.selected.value, y.s.maxDate.value)];
    AnswerStep(y2, |y.s.flight|, k + 1, k);
    var y3 := Next(y2, answer);
    assert y3.series[..k + 1] == y.series + [p];
    Round(y, grow, poll, answer);
  }

  lemma Round(y: System, a: Move, b: Move, c: Move)
    requires Allowed(y, a) && Allowed(Next(y, a), b) && Allowed(Next(Next(y, a), b), c)
    ensures AllAllowed(y, [a, b, c]) && Moves(y, [a, b, c]) == Next(Next(Next(y, a), b), c)
  {
    assert [a, b, c][1..] == [b, c] && [b, c][1..] == [c] && [c][1..] == [];
    var y1, y2, y3 := Next(y, a), Next(Next(y, a), b), Next(Next(Next(y, a), b), c);
    assert AllAllowed(y3, []) && Moves(y3, []) == y3;
    assert AllAllowed(y2, [c]) && Moves(y2, [c]) == y3;
    assert AllAllowed(y1, [b, c]) && Moves(y1, [b, c]) == y3;
  }

  // ---------------------------------------------------------------- stale polls

  lemma ShowsLength(s: State, a: seq<Point>, b: seq<Point>)
    requires Shows(s, a) && |a| != |b|
    ensures !Shows(s, b)
  {
  }

  /** The chart shows the first `k` points, and a poll that was sent at the date of the `j`-th one is
      answered with what the server has after that date: the chart then shows the server's series if and
      only if `j` is `k`, that is, if the poll was sent at the date the chart ends with. After an earlier
      date points appear twice, after a later one they are missing. */
  lemma PollExactIffCurrent(s: State, series: seq<Point>, i: nat, j: nat, k: nat)
    requires Chronological(series) && 1 <= j <= |series| && 1 <= k <= |series| && Shows(s, series[..k])
    requires i < |s.flight| && s.flight[i].AskNews? && s.flight[i].since == series[j - 1].date
    ensures Shows(Step(s, Deliver(i, Points(After(series, s.flight[i].since)))), series) <==> j == k
  {
    var id, s1 := s.flight[i].id, s.(flight := Without(s.flight, i));
    assert After(series, s.flight[i].since) == series[j..] by {
      AfterIsSuffix(series, j);
    }
    assert Shows(s1, series[..k]) by {
      ShowsSame(s, s1, series[..k]);
    }
    DeliverIsNews(s, i, series[j..]);
    ExtendExactIff(s1, series, j, k, id);
  }

  lemma ExtendExactIff(s: State, series: seq<Point>, j: nat, k: nat, id: int)
    requires 1 <= j <= |series| && 1 <= k <= |series| && Shows(s, series[..k])
    ensures Shows(OnNews(s, id, series[j..]), series) <==> j == k
  {
    if j == k {
      SplitWhole(series, k);
      NewsLevels(s, series[..k], series[k..], series, id);
    } else {
      LongerChart(s, series[..k], series[j..], series, id);
    }
  }

  lemma SplitWhole(series: seq<Point>, k: nat)
    requires k <= |series|
    ensures series[..k] + series[k..] == series
  {
  }

  lemma LongerChart(s: State, a: seq<Point>, b: seq<Point>, series: seq<Point>, id: int)
    requires Shows(s, a) && |a| + |b| != |series|
    ensures !Shows(OnNews(s, id, b), series)
  {
    ExtendIsReload(s, a, b, id);
    ShowsLength(OnNews(s, id, b), a + b, series);
  }

  lemma TickStep(s: State, t: nat)
    requires t in s.live && s.selected.Some? && s.maxDate.Some?
    ensures Step(s, Fire(t)) ==
            s.(count := s.count + 1, flight := s.flight + [AskNews(s.selected.value, s.maxDate.value)])
  {
  }

  lemma NewsStep(s: State, i: nat, q: Point)
    requires i < |s.flight| && s.flight[i].AskNews? && s.chart.Some?
    ensures var s' := Step(s, Deliver(i, Points([q])));
            s'.chart.Some? && s'.flight == Without(s.flight, i) && s'.shown == s.shown + [Shown(q, s.flight[i].id)]
  {
    assert Tag([q], s.flight[i].id) == [Shown(q, s.flight[i].id)];
  }

  /** A run up to a load of one point and two ticks before any answer, which the interval timer allows. */
  function TwoTicks(p: Point): seq<Event> {
    [Deliver(0, ListOf([1]))] + [Deliver(1, Points([p]))] + [Fire(0)] + [Fire(0)]
  }

  lemma AfterTwoTicks(p: Point)
    ensures var s := Run(FIRST, TwoTicks(p));
            && s.flight == [AskTotal(1), AskNews(1, p.date), AskNews(1, p.date)]
            && s.chart.Some? && s.shown == [Shown(p, 1)]
  {
    var es1 := [Deliver(0, ListOf([1]))];
    AfterList([1]);
    var s1 := Run(FIRST, es1);
    var es2 := es1 + [Deliver(1, Points([p]))];
    RunSnoc(FIRST, es1, Deliver(1, Points([p])));
    var s2 := Run(FIRST, es2);
    assert Without(s1.flight, 1) == [AskTotal(1)];
    assert s2 == OnVals(s1.(flight := [AskTotal(1)]), 1, [p]);
    assert s2.live == {0} && s2.maxDate == Some(p.date) && s2.selected == Some(1) && s2.flight == [AskTotal(1)];
    assert s2.shown == [Shown(p, 1)];
    var es3 := es2 + [Fire(0)];
    RunSnoc(FIRST, es2, Fire(0));
    TickStep(s2, 0);
    var s3 := Run(FIRST, es3);
    RunSnoc(FIRST, es3, Fire(0));
    TickStep(s3, 0);
  }

  /** Both polls are then answered with what is newer than their date: the new point is shown twice. */
  lemma TwoPollsInFlight(p: Point, q: Point)
    requires Earlier(p.date, q.date)
    ensures var answer := Points(After([p, q], p.date));
            Run(FIRST, TwoTicks(p) + [Deliver(1, answer)] + [Deliver(1, answer)]).shown ==
            [Shown(p, 1), Shown(q, 1), Shown(q, 1)]
  {
    var answer := Points(After([p, q], p.date));
    assert answer == Points([q]) by {
      assert Chronological([p, q]);
      AfterIsSuffix([p, q], 1);
    }
    AfterTwoTicks(p);
    var s4, es5 := Run(FIRST, TwoTicks(p)), TwoTicks(p) + [Deliver(1, answer)];
    RunSnoc(FIRST, TwoTicks(p), Deliver(1, answer));
    NewsStep(s4, 1, q);
    var s5 := Run(FIRST, es5);
    assert s5.flight == [AskTotal(1), AskNews(1, p.date)];
    RunSnoc(FIRST, es5, Deliver(1, answer));
    NewsStep(s5, 1, q);
  }

  /** A run up to a load that is overtaken by a later one: the second load brings two points, a tick polls
      from the second of them, and then the first load is answered with one. */
  function Overtaken(p: Point, q: Point): seq<Event> {
    [Deliver(0, ListOf([1]))] + [Click(1)] + [Deliver(3, Points([p, q]))] + [Fire(0)] + [Deliver(1, Points([p]))]
  }

  lemma ValsStep(s: State, i: nat, pts: seq<Point>)
    requires i < |s.flight| && s.flight[i].AskVals? && pts != []
    ensures var s' := Step(s, Deliver(i, Points(pts)));
            && s'.flight == Without(s.flight, i) && s'.shown == Tag(pts, s.flight[i].id) && s'.chart.Some?
            && s'.selected == s.selected && s'.maxDate == Some(pts[|pts| - 1].date)
            && s'.nextTimer == s.nextTimer + 1 && s.nextTimer in s'.live
  {
  }

  lemma AfterSecondLoad(p: Point, q: Point)
    ensures var s := Run(FIRST, [Deliver(0, ListOf([1]))] + [Click(1)] + [Deliver(3, Points([p, q]))]);
            && s.flight == [AskTotal(1), AskVals(1, AllTime), AskTotal(1)]
            && s.selected == Some(1) && s.maxDate == Some(q.date) && 0 in s.live
  {
    var es := [Deliver(0, ListOf([1]))];
    AfterList([1]);
    RunSnoc(FIRST, es, Click(1));
    var s := Run(FIRST, es + [Click(1)]);
    assert s.flight == [AskTotal(1), AskVals(1, AllTime), AskTotal(1), AskVals(1, AllTime)];
    RunSnoc(FIRST, es + [Click(1)], Deliver(3, Points([p, q])));
    ValsStep(s, 3, [p, q]);
    assert Without(s.flight, 3) == [AskTotal(1), AskVals(1, AllTime), AskTotal(1)];
  }

  lemma AfterOvertaken(p: Point, q: Point)
    ensures var s := Run(FIRST, Overtaken(p, q));
            && s.flight == [AskTotal(1), AskTotal(1), AskNews(1, q.date)]
            && s.chart.Some? && s.shown == [Shown(p, 1)]
  {
    var es := [Deliver(0, ListOf([1]))] + [Click(1)] + [Deliver(3, Points([p, q]))];
    AfterSecondLoad(p, q);
    RunSnoc(FIRST, es, Fire(0));
    TickStep(Run(FIRST, es), 0);
    var s := Run(FIRST, es + [Fire(0)]);
    assert s.flight == [AskTotal(1), AskVals(1, AllTime), AskTotal(1), AskNews(1, q.date)];
    RunSnoc(FIRST, es + [Fire(0)], Deliver(1, Points([p])));
    ValsStep(s, 1, [p]);
    assert Without(s.flight, 1) == [AskTotal(1), AskTotal(1), AskNews(1, q.date)];
    assert Tag([p], 1) == [Shown(p, 1)];
  }

  /** The poll is then answered with what is newer than its date: the point in between is never shown. */
  lemma OvertakenLoadLosesPoint(p: Point, q: Point, r: Point)
    requires Chronological([p, q, r])
    ensures var answer := Points(After([p, q, r], q.date));
            Run(FIRST, Overtaken(p, q) + [Deliver(2, answer)]).shown == [Shown(p, 1), Shown(r, 1)]
  {
    var answer := Points(After([p, q, r], q.date));
    AfterIsSuffix([p, q, r], 2);
    assert answer == Points([r]);
    AfterOvertaken(p, q);
    RunSnoc(FIRST, Overtaken(p, q), Deliver(2, answer));
    NewsStep(Run(FIRST, Overtaken(p, q)), 2, r);
  }
}
