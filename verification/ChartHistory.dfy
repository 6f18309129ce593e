/**
 What the component holds, told from the events alone: over every run, what is on show, the counters, the
 selection, the period and the number of ticks are those that the clicks and the delivered responses make.
 */
module ChartHistory {
  import opened Wrappers
  import opened Chart

  datatype Delivery = Nothing | Delivered(request: Request, response: Response)

  /** Which request an event answers, and with what. */
  function DeliveredBy(s: State, e: Event): Delivery {
    if e.Deliver? && e.i < |s.flight| then Delivered(s.flight[e.i], e.response) else Nothing
  }

  /** The last event of a run, as a delivery. */
  function LastDelivery(es: seq<Event>): Delivery
    requires es != []
  {
    DeliveredBy(Run(FIRST, es[..|es| - 1]), es[|es| - 1])
  }

  predicate IsTotals(d: Delivery) {
    d.Delivered? && d.request.AskTotal? && d.response.Totals?
  }

  predicate IsLoad(d: Delivery) {
    d.Delivered? && d.request.AskVals? && d.response.Points?
  }

  predicate IsNews(d: Delivery) {
    d.Delivered? && d.request.AskNews? && d.response.Points?
  }

  predicate IsList(d: Delivery) {
    d.Delivered? && d.request.AskList? && d.response.ListOf?
  }

  // ---------------------------------------------------------------- the counters

  /** The last totals that were delivered. */
  function Reported(es: seq<Event>): (r: Option<Response>)
    ensures r.Some? ==> r.value.Totals?
  {
    if es == [] then None
    else if IsTotals(LastDelivery(es)) then Some(LastDelivery(es).response)
    else Reported(es[..|es| - 1])
  }

  /** How many points polls have delivered since those totals. */
  function PolledSince(es: seq<Event>): nat {
    if es == [] || IsTotals(LastDelivery(es)) then 0
    else
      PolledSince(es[..|es| - 1]) + if IsNews(LastDelivery(es)) then |LastDelivery(es).response.points| else 0
  }

  /** The four counters that totals and points polled since amount to. */
  function Counters(reported: Option<Response>, polled: nat): seq<int>
    requires reported.Some? ==> reported.value.Totals?
  {
    match reported
    case None => []
    case Some(r) =>
      [r.today + polled, r.month + r.today + polled, r.year + r.today + polled, r.all + r.today + polled]
  }

  /** A poll in flight has a chart to push to. */
  lemma PollHasChart(s: State, e: Event)
    requires Inv(s) && IsNews(DeliveredBy(s, e))
    ensures s.chart.Some?
  {
    assert s.flight[e.i] in s.flight;
  }

  /** What a delivery makes of the counters. */
  function CountersAfter(d: Delivery, before: seq<int>): seq<int> {
    if IsTotals(d) then Counters(Some(d.response), 0)
    else if IsNews(d) then AddEach(before, |d.response.points|)
    else before
  }

  lemma NumbersStep(s: State, e: Event)
    requires Inv(s)
    ensures Step(s, e).numbers == CountersAfter(DeliveredBy(s, e), s.numbers)
  {
    if IsNews(DeliveredBy(s, e)) {
      PollHasChart(s, e);
      assert AddEach(s.numbers, 0) == s.numbers;
    }
  }

  lemma CountersAdd(reported: Option<Response>, polled: nat, n: nat)
    requires reported.Some? ==> reported.value.Totals?
    ensures AddEach(Counters(reported, polled), n) == Counters(reported, polled + n)
  {
  }

  function CountersOf(es: seq<Event>): seq<int> {
    Counters(Reported(es), PolledSince(es))
  }

  lemma CountersSnoc(es: seq<Event>)
    requires es != []
    ensures CountersOf(es) == CountersAfter(LastDelivery(es), CountersOf(es[..|es| - 1]))
  {
    var front := es[..|es| - 1];
    CountersOneMore(LastDelivery(es), Reported(front), PolledSince(front), Reported(es), PolledSince(es));
  }

  lemma CountersOneMore(d: Delivery, before: Option<Response>, polled: nat, after: Option<Response>, polled': nat)
    requires (before.Some? ==> before.value.Totals?) && (after.Some? ==> after.value.Totals?)
    requires after == if IsTotals(d) then Some(d.response) else before
    requires polled' == if IsTotals(d) then 0 else polled + if IsNews(d) then |d.response.points| else 0
    ensures Counters(after, polled') == CountersAfter(d, Counters(before, polled))
  {
    if IsNews(d) {
      CountersAdd(before, polled, |d.response.points|);
    }
  }

  /** Over every run: before any totals there are no counters; after that, they are the last totals and
      the points that polls have delivered since. */
  lemma {:induction false} CountersAre(es: seq<Event>)
    ensures Run(FIRST, es).numbers == Counters(Reported(es), PolledSince(es))
    decreases |es|
  {
    if es != [] {
      var front := es[..|es| - 1];
      CountersAre(front);
      EveryInterleaving(front);
      NumbersStep(Run(FIRST, front), es[|es| - 1]);
      CountersSnoc(es);
    }
  }

  // ---------------------------------------------------------------- the points on show

  /** The points of the last load answered, and of the polls answered since. */
  function OnShow(es: seq<Event>): seq<Shown> {
    if es == [] then []
    else
      var d, before := LastDelivery(es), OnShow(es[..|es| - 1]);
      if IsLoad(d) then Tag(d.response.points, d.request.id)
      else if IsNews(d) then before + Tag(d.response.points, d.request.id)
      else before
  }

  lemma OnShowStep(s: State, e: Event)
    requires Inv(s)
    ensures var d := DeliveredBy(s, e);
            Step(s, e).shown ==
            if IsLoad(d) then Tag(d.response.points, d.request.id)
            else if IsNews(d) then s.shown + Tag(d.response.points, d.request.id)
            else s.shown
  {
    if IsNews(DeliveredBy(s, e)) {
      PollHasChart(s, e);
    }
  }

  /** Over every run: the points on show are those of the last load answered and of the polls since, and
      the chart has their values in order. */
  lemma {:induction false} ShownAre(es: seq<Event>)
    ensures var s := Run(FIRST, es);
            && s.shown == OnShow(es)
            && (s.chart.Some? ==>
                  |s.chart.value.data| == |OnShow(es)|
                  && forall i | 0 <= i < |OnShow(es)| :: s.chart.value.data[i] == OnShow(es)[i].point.val)
    decreases |es|
  {
    EveryInterleaving(es);
    if es != [] {
      var front := es[..|es| - 1];
      ShownAre(front);
      EveryInterleaving(front);
      OnShowStep(Run(FIRST, front), es[|es| - 1]);
    }
  }

  // ---------------------------------------------------------------- the choices of the user

  /** The period last chosen. */
  function Period(es: seq<Event>): Time {
    if es == [] then AllTime
    else if es[|es| - 1].ChangeTime? then es[|es| - 1].time
    else Period(es[..|es| - 1])
  }

  /** The list delivered, if any. */
  function Offered(es: seq<Event>): seq<int> {
    if es == [] then []
    else if IsList(LastDelivery(es)) then LastDelivery(es).response.ids
    else Offered(es[..|es| - 1])
  }

  /** The index last clicked among those offered; the first one offered before that. */
  function Chosen(es: seq<Event>): Option<int> {
    if es == [] then None
    else
      var e, front := es[|es| - 1], es[..|es| - 1];
      if IsList(LastDelivery(es)) then
        if LastDelivery(es).response.ids == [] then None else Some(LastDelivery(es).response.ids[0])
      else if e.Click? && e.id in Offered(front) then Some(e.id)
      else Chosen(front)
  }

  /** How often a live timer has ticked. */
  function Ticks(es: seq<Event>): nat {
    if es == [] then 0
    else
      var e, front := es[|es| - 1], es[..|es| - 1];
      Ticks(front) + if e.Fire? && e.timer in Run(FIRST, front).live then 1 else 0
  }

  lemma ChoicesStep(s: State, e: Event)
    ensures var s', d := Step(s, e), DeliveredBy(s, e);
            && s'.time == (if e.ChangeTime? then e.time else s.time)
            && s'.list == (if IsList(d) then d.response.ids else s.list)
            && s'.selected ==
               (if IsList(d) then if d.response.ids == [] then None else Some(d.response.ids[0])
                else if e.Click? && e.id in s.list then Some(e.id)
                else s.selected)
            && s'.count == s.count + if e.Fire? && e.timer in s.live then 1 else 0
  {
  }

  /** Over every run: period, list, selection and number of ticks are those of the events. */
  lemma {:induction false} ChoicesAre(es: seq<Event>)
    ensures var s := Run(FIRST, es);
            s.time == Period(es) && s.list == Offered(es) && s.selected == Chosen(es) && s.count == Ticks(es)
    decreases |es|
  {
    if es != [] {
      var front := es[..|es| - 1];
      ChoicesAre(front);
      ChoicesStep(Run(FIRST, front), es[|es| - 1]);
    }
  }

  // ---------------------------------------------------------------- the timers

  /** How many loads have been answered with points: each starts a timer. */
  function Started(es: seq<Event>): nat {
    if es == [] then 0
    else Started(es[..|es| - 1]) + if IsLoad(LastDelivery(es)) && LastDelivery(es).response.points != [] then 1 else 0
  }

  /** Whether a timer is running: the last load answered had points, and the component has not been
      destroyed since. */
  predicate Ticking(es: seq<Event>) {
    && es != [] && !es[|es| - 1].Destroy?
    && if IsLoad(LastDelivery(es)) then LastDelivery(es).response.points != [] else Ticking(es[..|es| - 1])
  }

  /** The timers, numbered as they were started: the last one is known, and no other is running. */
  predicate TimersSay(s: State, started: nat, ticking: bool) {
    && s.nextTimer == started && s.timing == (if started == 0 then None else Some(started - 1))
    && s.live == (if ticking && started > 0 then {started - 1} else {})
    && (ticking ==> started > 0)
  }

  lemma TimersLoad(s: State, id: int, pts: seq<Point>, started: nat, ticking: bool)
    requires TimersSay(s, started, ticking)
    ensures TimersSay(OnVals(s, id, pts), if pts == [] then started else started + 1, pts != [])
  {
  }

  lemma TimersOther(s: State, request: Request, response: Response)
    requires !(request.AskVals? && response.Points?)
    ensures var s' := OnResponse(s, request, response);
            s'.nextTimer == s.nextTimer && s'.timing == s.timing && s'.live == s.live
  {
  }

  lemma TimersStep(s: State, e: Event, started: nat, ticking: bool)
    requires TimersSay(s, started, ticking)
    ensures var d := DeliveredBy(s, e);
            var starts := IsLoad(d) && d.response.points != [];
            TimersSay(Step(s, e), started + (if starts then 1 else 0),
                      !e.Destroy? && if IsLoad(d) then starts else ticking)
  {
    var d := DeliveredBy(s, e);
    if d.Delivered? {
      var s1 := s.(flight := Without(s.flight, e.i));
      if IsLoad(d) {
        TimersLoad(s1, d.request.id, d.response.points, started, ticking);
      } else {
        TimersOther(s1, d.request, d.response);
      }
    }
  }

  /** Over every run: a timer is started by every load that is answered with points, stopped by every load
      that is answered and by destruction, and by nothing else. */
  lemma {:induction false} TimersAre(es: seq<Event>)
    ensures TimersSay(Run(FIRST, es), Started(es), Ticking(es))
    decreases |es|
  {
    if es != [] {
      var front := es[..|es| - 1];
      TimersAre(front);
      TimersStep(Run(FIRST, front), es[|es| - 1], Started(front), Ticking(front));
    }
  }

  // ---------------------------------------------------------------- what is asked for

  /** The requests that an event sends: a click and a list ask for totals and values, a change of the period
      for values, a tick of a live timer for news. */
  function Sends(s: State, e: Event): seq<Request> {
    var d := DeliveredBy(s, e);
    if IsList(d) && d.response.ids != [] then
      [AskTotal(d.response.ids[0]), AskVals(d.response.ids[0], s.time)]
    else if e.Click? && e.id in s.list then [AskTotal(e.id), AskVals(e.id, s.time)]
    else if e.ChangeTime? && s.selected.Some? then [AskVals(s.selected.value, e.time)]
    else if e.Fire? && e.timer in s.live && s.selected.Some? && s.maxDate.Some? then
      [AskNews(s.selected.value, s.maxDate.value)]
    else []
  }

  /** The requests in flight are those that were, without the one that was answered, and then those sent. */
  lemma RequestsAre(s: State, e: Event)
    ensures Step(s, e).flight ==
            (if DeliveredBy(s, e).Delivered? then Without(s.flight, e.i) else s.flight) + Sends(s, e)
  {
  }

  /** A change of the period with something selected: the period is the new one, exactly one load has been
      asked for, for the selection and that period, and nothing else has changed. */
  lemma ChangeTimeAsks(s: State, time: Time)
    requires s.selected.Some?
    ensures var s' := Step(s, ChangeTime(time));
            && s'.time == time && s'.flight == s.flight + [AskVals(s.selected.value, time)]
            && s'.(time := s.time, flight := s.flight) == s
  {
  }

  /** A click on an index that is offered: it is selected, its totals and its values for the period in force
      have been asked for, in that order, and nothing else has changed. */
  lemma ClickAsks(s: State, id: int)
    requires id in s.list
    ensures var s' := Step(s, Click(id));
            && s'.selected == Some(id) && s'.flight == s.flight + [AskTotal(id), AskVals(id, s.time)]
            && s'.(selected := s.selected, flight := s.flight) == s
  {
  }
}
