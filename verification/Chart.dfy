/**
 The live chart as an asynchronous machine: the fields of the component, the browser's timers and the
 requests in flight. Responses may arrive in any order, with any content, at any time.
 */
module Chart {
  import opened Wrappers

  datatype Time = AllTime | Year | Month | Today

  /** A value as the server sends it: the date is text. */
  datatype Point = Point(val: real, date: string)

  datatype Request =
    | AskList
    | AskTotal(id: int)
    | AskVals(id: int, time: Time)
    | AskNews(id: int, since: string)

  datatype Response =
    | ListOf(ids: seq<int>)
    | Totals(all: int, year: int, month: int, today: int)
    | Points(points: seq<Point>)
    | Failed

  /** The labels and the data of the chart, which are always set together. */
  datatype Series = Series(labels: seq<string>, data: seq<real>)

  /** A point on show and the index it was requested for (history). */
  datatype Shown = Shown(point: Point, id: int)

  /** Fields of the component; then timers and requests of the browser; then history, which no handler
      reads: the points on show. */
  datatype State = State(
    list: seq<int>, selected: Option<int>, time: Time,
    chart: Option<Series>, maxVal: Option<real>, minVal: Option<real>, maxDate: Option<string>,
    numbers: seq<int>, timing: Option<nat>, count: nat,
    live: set<nat>, nextTimer: nat, flight: seq<Request>,
    shown: seq<Shown>)

  datatype Event =
    | Click(id: int)
    | ChangeTime(time: Time)
    | Fire(timer: nat)
    | Deliver(i: nat, response: Response)
    | Destroy

  // ---------------------------------------------------------------- pieces of the handlers

  /** `substring(a, b)`, which stops at the end of the text. */
  function Substring(s: string, a: nat, b: nat): string
    requires a <= b
  {
    if |s| <= a then "" else if |s| <= b then s[a..] else s[a..b]
  }

  function Label(time: Time, date: string): string {
    if time.Today? then Substring(date, 11, 16) else Substring(date, 0, 16)
  }

  /** On dates of the form day, separator, hours and minutes, anything: today's labels are the time of day,
      the others day and time. */
  lemma LabelMeaning(time: Time, day: string, sep: char, clock: string, rest: string)
    requires |day| == 10 && |clock| == 5
    ensures Label(time, day + [sep] + clock + rest) == if time.Today? then clock else day + [sep] + clock
  {
  }

  function Labels(time: Time, pts: seq<Point>): (r: seq<string>)
    ensures |r| == |pts|
    ensures forall i | 0 <= i < |pts| :: r[i] == Label(time, pts[i].date)
  {
    seq(|pts|, i requires 0 <= i < |pts| => Label(time, pts[i].date))
  }

  function Vals(pts: seq<Point>): (r: seq<real>)
    ensures |r| == |pts|
    ensures forall i | 0 <= i < |pts| :: r[i] == pts[i].val
  {
    seq(|pts|, i requires 0 <= i < |pts| => pts[i].val)
  }

  function Tag(pts: seq<Point>, id: int): (r: seq<Shown>)
    ensures |r| == |pts|
    ensures forall i | 0 <= i < |pts| :: r[i] == Shown(pts[i], id)
  {
    seq(|pts|, i requires 0 <= i < |pts| => Shown(pts[i], id))
  }

  predicate IsMax(m: real, d: seq<real>) {
    m in d && forall x | x in d :: x <= m
  }

  predicate IsMin(m: real, d: seq<real>) {
    m in d && forall x | x in d :: m <= x
  }

  /** `reduce` with `Math.max`, left to right; it throws on an empty series. */
  function ReduceMax(d: seq<real>): (m: real)
    requires d != []
    ensures IsMax(m, d)
  {
    if |d| == 1 then d[0]
    else
      var front := d[..|d| - 1];
      assert d == front + [d[|d| - 1]];
      var m := ReduceMax(front);
      if m < d[|d| - 1] then d[|d| - 1] else m
  }

  function ReduceMin(d: seq<real>): (m: real)
    requires d != []
    ensures IsMin(m, d)
  {
    if |d| == 1 then d[0]
    else
      var front := d[..|d| - 1];
      assert d == front + [d[|d| - 1]];
      var m := ReduceMin(front);
      if m > d[|d| - 1] then d[|d| - 1] else m
  }

  function ClearTiming(s: State): State {
    s.(live := if s.timing.Some? then s.live - {s.timing.value} else s.live)
  }

  function Send(s: State, rs: seq<Request>): State {
    s.(flight := s.flight + rs)
  }

  // ---------------------------------------------------------------- handlers

  /** The list of indices: the first is selected. An empty list leaves nothing selected, and asking for
      the totals of nothing throws. */
  function OnList(s: State, ids: seq<int>): State {
    if ids == [] then s.(list := [], selected := None)
    else Send(s.(list := ids, selected := Some(ids[0])), [AskTotal(ids[0]), AskVals(ids[0], s.time)])
  }

  function OnTotals(s: State, r: Response): State
    requires r.Totals?
  {
    s.(numbers := [r.today, r.month + r.today, r.year + r.today, r.all + r.today])
  }

  /** A full load. With no points, the chart has been replaced by an empty one when the maximum throws. */
  function OnVals(s: State, id: int, pts: seq<Point>): State {
    var s1 := ClearTiming(s).(chart := Some(Series(Labels(s.time, pts), Vals(pts))), shown := Tag(pts, id));
    if pts == [] then s1
    else
      s1.(maxVal := Some(ReduceMax(Vals(pts))), minVal := Some(ReduceMin(Vals(pts))),
          maxDate := Some(pts[|pts| - 1].date),
          timing := Some(s.nextTimer), live := s1.live + {s.nextTimer}, nextTimer := s.nextTimer + 1)
  }

  function AddEach(numbers: seq<int>, n: nat): (r: seq<int>)
    ensures |r| == |numbers| && forall i | 0 <= i < |r| :: r[i] == numbers[i] + n
  {
    seq(|numbers|, i requires 0 <= i < |numbers| => numbers[i] + n)
  }

  /** New values: appended to whatever chart is on show. Without a chart there is nothing to push to. */
  function OnNews(s: State, id: int, pts: seq<Point>): State {
    if pts == [] || s.chart.None? then s
    else
      var data := s.chart.value.data + Vals(pts);
      s.(chart := Some(Series(s.chart.value.labels + Labels(s.time, pts), data)),
         shown := s.shown + Tag(pts, id),
         maxDate := Some(pts[|pts| - 1].date),
         numbers := AddEach(s.numbers, |pts|),
         maxVal := Some(ReduceMax(data)), minVal := Some(ReduceMin(data)))
  }

  /** The indices on the page can be clicked. */
  function OnClick(s: State, id: int): State {
    if id in s.list then Send(s.(selected := Some(id)), [AskTotal(id), AskVals(id, s.time)])
    else s
  }

  function OnChangeTime(s: State, time: Time): State {
    var s1 := s.(time := time);
    if s.selected.None? then s1 else Send(s1, [AskVals(s.selected.value, time)])
  }

  /** A tick of a live timer asks for what is newer than the last point. */
  function OnTick(s: State): State {
    var s1 := s.(count := s.count + 1);
    if s.selected.None? || s.maxDate.None? then s1
    else Send(s1, [AskNews(s.selected.value, s.maxDate.value)])
  }

  function Without(flight: seq<Request>, i: nat): seq<Request>
    requires i < |flight|
  {
    flight[..i] + flight[i + 1..]
  }

  function OnResponse(s: State, request: Request, response: Response): State {
    match (request, response)
    case (AskList, ListOf(ids)) => OnList(s, ids)
    case (AskTotal(_), Totals(_, _, _, _)) => OnTotals(s, response)
    case (AskVals(id, _), Points(pts)) => OnVals(s, id, pts)
    case (AskNews(id, _), Points(pts)) => OnNews(s, id, pts)
    case _ => s
  }

  function Step(s: State, e: Event): State {
    match e
    case Click(id) => OnClick(s, id)
    case ChangeTime(time) => OnChangeTime(s, time)
    case Fire(timer) => if timer in s.live then OnTick(s) else s
    case Destroy => ClearTiming(s)
    case Deliver(i, response) =>
      if i < |s.flight| then OnResponse(s.(flight := Without(s.flight, i)), s.flight[i], response) else s
  }

  /** Any events, in any order; what is not possible in a state changes nothing. */
  function Run(s: State, es: seq<Event>): State
    decreases |es|
  {
    if es == [] then s else Step(Run(s, es[..|es| - 1]), es[|es| - 1])
  }

  lemma RunSnoc(s: State, es: seq<Event>, e: Event)
    ensures Run(s, es + [e]) == Step(Run(s, es), e)
  {
    assert (es + [e])[..|es|] == es;
  }

  const FIRST: State :=
    State([], None, AllTime, None, None, None, None, [], None, 0, {}, 0, [AskList], [])

  /** The list has come: its first index is selected and asked for. */
  lemma AfterList(ids: seq<int>)
    requires ids != []
    ensures Run(FIRST, [Deliver(0, ListOf(ids))]) ==
            FIRST.(list := ids, selected := Some(ids[0]), flight := [AskTotal(ids[0]), AskVals(ids[0], AllTime)])
  {
    var e := Deliver(0, ListOf(ids));
    RunSnoc(FIRST, [], e);
    assert [] + [e] == [e];
    assert Without([AskList], 0) == [];
    assert [] + [AskTotal(ids[0]), AskVals(ids[0], AllTime)] == [AskTotal(ids[0]), AskVals(ids[0], AllTime)];
  }

  // ---------------------------------------------------------------- what every interleaving keeps

  predicate LabelFor(l: string, date: string) {
    l == Label(AllTime, date) || l == Label(Today, date)
  }

  predicate Parallel(c: Series, shown: seq<Shown>) {
    && |c.labels| == |c.data| == |shown|
    && forall i | 0 <= i < |shown| ::
         c.data[i] == shown[i].point.val && LabelFor(c.labels[i], shown[i].point.date)
  }

  lemma ParallelAppend(c: Series, shown: seq<Shown>, time: Time, pts: seq<Point>, id: int)
    requires Parallel(c, shown)
    ensures Parallel(Series(c.labels + Labels(time, pts), c.data + Vals(pts)), shown + Tag(pts, id))
  {
    var labels, data, all := c.labels + Labels(time, pts), c.data + Vals(pts), shown + Tag(pts, id);
    forall i | 0 <= i < |all|
      ensures data[i] == all[i].point.val && LabelFor(labels[i], all[i].point.date)
    {
      if i >= |shown| {
        assert all[i] == Shown(pts[i - |shown|], id) && labels[i] == Label(time, pts[i - |shown|].date);
      }
    }
  }

  /** Labels and data are parallel and belong to the points on show; a non-empty series has its exact
      maximum and minimum, and the date polled from is that of its last point. */
  predicate ChartInv(s: State) {
    s.chart.Some? ==>
      && var c := s.chart.value;
         && Parallel(c, s.shown)
         && (c.data != [] ==>
               && s.maxVal.Some? && IsMax(s.maxVal.value, c.data)
               && s.minVal.Some? && IsMin(s.minVal.value, c.data)
               && s.maxDate == Some(s.shown[|s.shown| - 1].point.date))
  }

  /** At most one timer runs, the one the component knows; while one runs or a poll is in flight there is
      a chart to push to, a date to poll from and a selection. */
  predicate TimerInv(s: State) {
    && (forall t | t in s.live :: s.timing == Some(t) && t < s.nextTimer)
    && (s.live != {} ==> Polling(s))
    && (forall r | r in s.flight :: r.AskNews? ==> Polling(s))
    && (AskList in s.flight ==> s == FIRST.(time := s.time))
  }

  predicate Polling(s: State) {
    s.chart.Some? && s.maxDate.Some? && s.selected.Some?
  }

  predicate Inv(s: State) {
    ChartInv(s) && TimerInv(s) && Asked(s)
  }

  lemma ValsChart(s: State, id: int, pts: seq<Point>)
    ensures ChartInv(OnVals(s, id, pts))
  {
  }

  lemma LastIsNew(shown: seq<Shown>, pts: seq<Point>, id: int)
    requires pts != []
    ensures var all := shown + Tag(pts, id); all[|all| - 1].point == pts[|pts| - 1]
  {
  }

  lemma NewsChart(s: State, id: int, pts: seq<Point>)
    requires ChartInv(s)
    ensures ChartInv(OnNews(s, id, pts))
  {
    if pts != [] && s.chart.Some? {
      ParallelAppend(s.chart.value, s.shown, s.time, pts, id);
      LastIsNew(s.shown, pts, id);
    }
  }

  /** Only a load and a poll change the chart. */
  lemma ResponseFrame(s: State, request: Request, response: Response)
    ensures (response.Points? && (request.AskVals? || request.AskNews?))
            || KeepsChart(s, OnResponse(s, request, response))
  {
  }

  predicate KeepsChart(s: State, s': State) {
    && s'.chart == s.chart && s'.shown == s.shown
    && s'.maxVal == s.maxVal && s'.minVal == s.minVal && s'.maxDate == s.maxDate
  }

  lemma ChartKept(s: State, s': State)
    requires KeepsChart(s, s')
    ensures ChartInv(s') <==> ChartInv(s)
  {
  }

  lemma ResponseChart(s: State, request: Request, response: Response)
    requires ChartInv(s)
    ensures ChartInv(OnResponse(s, request, response))
  {
    if response.Points? && request.AskVals? {
      ValsChart(s, request.id, response.points);
    } else if response.Points? && request.AskNews? {
      NewsChart(s, request.id, response.points);
    } else {
      ResponseFrame(s, request, response);
      ChartKept(s, OnResponse(s, request, response));
    }
  }

  lemma WithoutIsPart(flight: seq<Request>, i: nat)
    requires i < |flight|
    ensures forall r | r in Without(flight, i) :: r in flight
  {
  }

  /** A full load leaves at most its own timer running. */
  lemma ValsTimer(s: State, id: int, pts: seq<Point>)
    requires TimerInv(s) && s.selected.Some? && AskList !in s.flight
    ensures TimerInv(OnVals(s, id, pts))
  {
  }

  lemma NewsTimer(s: State, id: int, pts: seq<Point>)
    requires TimerInv(s) && Polling(s) && AskList !in s.flight
    ensures TimerInv(OnNews(s, id, pts))
  {
  }

  /** Delivering a response keeps the timers in order; the list can only come first. */
  lemma DeliverTimer(s: State, i: nat, response: Response)
    requires TimerInv(s) && Asked(s) && i < |s.flight|
    ensures TimerInv(Step(s, Deliver(i, response)))
  {
    var request, s1 := s.flight[i], s.(flight := Without(s.flight, i));
    WithoutIsPart(s.flight, i);
    if request.AskList? {
      assert s.flight == [AskList] && s1.flight == [];
    } else {
      assert AskList !in s.flight;
      assert TimerInv(s1);
      match (request, response)
      case (AskVals(id, _), Points(pts)) => ValsTimer(s1, id, pts);
      case (AskNews(id, _), Points(pts)) => NewsTimer(s1, id, pts);
      case _ =>
    }
  }

  /** Values are only ever asked for when something is selected. */
  predicate Asked(s: State) {
    forall r | r in s.flight :: r.AskVals? ==> s.selected.Some?
  }

  lemma AskedStep(s: State, e: Event)
    requires TimerInv(s) && Asked(s)
    ensures Asked(Step(s, e))
  {
  }

  lemma OtherTimer(s: State, e: Event)
    requires TimerInv(s) && !e.Deliver?
    ensures TimerInv(Step(s, e))
  {
  }

  lemma OtherFrame(s: State, e: Event)
    requires !e.Deliver?
    ensures KeepsChart(s, Step(s, e))
  {
  }

  lemma OtherInv(s: State, e: Event)
    requires ChartInv(s) && !e.Deliver?
    ensures ChartInv(Step(s, e))
  {
    OtherFrame(s, e);
    ChartKept(s, Step(s, e));
  }

  lemma DeliverInv(s: State, i: nat, response: Response)
    requires ChartInv(s) && i < |s.flight|
    ensures ChartInv(Step(s, Deliver(i, response)))
  {
    var s1 := s.(flight := Without(s.flight, i));
    ChartKept(s, s1);
    ResponseChart(s1, s.flight[i], response);
  }

  lemma StepInv(s: State, e: Event)
    requires Inv(s)
    ensures Inv(Step(s, e))
  {
    AskedStep(s, e);
    if !e.Deliver? {
      OtherInv(s, e);
      OtherTimer(s, e);
    } else if e.i < |s.flight| {
      DeliverInv(s, e.i, e.response);
      DeliverTimer(s, e.i, e.response);
    }
  }

  /** The invariant holds after every sequence of clicks, ticks, destructions and responses. */
  lemma {:induction false} EveryInterleaving(es: seq<Event>)
    ensures Inv(Run(FIRST, es))
    decreases |es|
  {
    if es != [] {
      EveryInterleaving(es[..|es| - 1]);
      StepInv(Run(FIRST, es[..|es| - 1]), es[|es| - 1]);
    }
  }
}
