/**
 What depends on the order of responses: timers after the component is gone, and whose points are on
 show.
 */
module ChartRaces {
  import opened Wrappers
  import opened Chart
  import opened ChartHistory

  // ---------------------------------------------------------------- timers after destruction

  /** The event is the arrival of a full load with at least one point. */
  predicate LoadArrives(s: State, e: Event) {
    && e.Deliver? && e.i < |s.flight| && s.flight[e.i].AskVals?
    && e.response.Points? && e.response.points != []
  }

  /** Only the arrival of a non-empty load starts a timer. */
  lemma TimerStartsOnLoad(s: State, e: Event)
    requires s.live == {}
    ensures Step(s, e).live != {} <==> LoadArrives(s, e)
  {
  }

  /** No timer runs in any state along the events. */
  predicate NeverLive(s: State, es: seq<Event>) {
    Run(s, es).live == {} && (es != [] ==> NeverLive(s, es[..|es| - 1]))
  }

  predicate NoLoadArrives(s: State, es: seq<Event>) {
    es != [] ==>
      !LoadArrives(Run(s, es[..|es| - 1]), es[|es| - 1]) && NoLoadArrives(s, es[..|es| - 1])
  }

  /** Destroying the component stops its timer, and from then on no timer runs if and only if no
      non-empty load arrives any more: a response that is still in flight starts a timer nobody stops. */
  lemma {:induction false} QuietAfterDestroyIff(s: State, es: seq<Event>)
    requires Inv(s)
    ensures NeverLive(Step(s, Destroy), es) <==> NoLoadArrives(Step(s, Destroy), es)
  {
    assert Step(s, Destroy).live == {};
    QuietRun(Step(s, Destroy), es);
  }

  lemma {:induction false} QuietRun(s: State, es: seq<Event>)
    requires s.live == {}
    ensures NeverLive(s, es) <==> NoLoadArrives(s, es)
    decreases |es|
  {
    if es != [] {
      var front := es[..|es| - 1];
      QuietRun(s, front);
      if Run(s, front).live == {} {
        TimerStartsOnLoad(Run(s, front), es[|es| - 1]);
      }
    }
  }

  /** A load requested before the component is destroyed and answered after it: a timer runs. */
  lemma TimerAfterDestroy(p: Point)
    ensures Run(FIRST, [Deliver(0, ListOf([7])), Destroy, Deliver(1, Points([p]))]).live != {}
  {
    var es := [Deliver(0, ListOf([7]))];
    AfterList([7]);
    var s1 := Run(FIRST, es);
    RunSnoc(FIRST, es, Destroy);
    RunSnoc(FIRST, es + [Destroy], Deliver(1, Points([p])));
    assert es + [Destroy] + [Deliver(1, Points([p]))] == [Deliver(0, ListOf([7])), Destroy, Deliver(1, Points([p]))];
    assert 0 in Step(Step(s1, Destroy), Deliver(1, Points([p]))).live;
  }

  // ---------------------------------------------------------------- whose points are on show

  /** The indices whose responses have put points on show: the last load answered, if it had any, and
      the polls answered with new points since. */
  function Contributors(s: State, sources: seq<int>, e: Event): seq<int> {
    if e.Deliver? && e.i < |s.flight| && e.response.Points? then
      var r, pts := s.flight[e.i], e.response.points;
      if r.AskVals? then (if pts == [] then [] else [r.id])
      else if r.AskNews? && pts != [] && s.chart.Some? then sources + [r.id]
      else sources
    else sources
  }

  function Sources(es: seq<Event>): seq<int> {
    if es == [] then []
    else Contributors(Run(FIRST, es[..|es| - 1]), Sources(es[..|es| - 1]), es[|es| - 1])
  }

  predicate AllAre(ids: seq<int>, id: int) {
    forall i | 0 <= i < |ids| :: ids[i] == id
  }

  predicate AllOwned(shown: seq<Shown>, id: int) {
    forall i | 0 <= i < |shown| :: shown[i].id == id
  }

  /** Points and sources name the same indices. */
  ghost predicate SameOwners(shown: seq<Shown>, sources: seq<int>) {
    forall id :: AllOwned(shown, id) <==> AllAre(sources, id)
  }

  lemma OwnersOfLoad(pts: seq<Point>, id: int)
    ensures SameOwners(Tag(pts, id), if pts == [] then [] else [id])
  {
    forall x ensures AllOwned(Tag(pts, id), x) <==> AllAre(if pts == [] then [] else [id], x) {
      if pts != [] {
        assert Tag(pts, id)[0].id == id;
        assert [id][0] == id;
      }
    }
  }

  lemma OwnersOfNews(shown: seq<Shown>, sources: seq<int>, pts: seq<Point>, id: int)
    requires SameOwners(shown, sources) && pts != []
    ensures SameOwners(shown + Tag(pts, id), sources + [id])
  {
    forall x ensures AllOwned(shown + Tag(pts, id), x) <==> AllAre(sources + [id], x) {
      OwnedConcat(shown, Tag(pts, id), x);
      AreConcat(sources, id, x);
      assert Tag(pts, id)[0].id == id;
      assert AllOwned(Tag(pts, id), x) <==> x == id;
    }
  }

  lemma OwnedConcat(a: seq<Shown>, b: seq<Shown>, id: int)
    ensures AllOwned(a + b, id) <==> AllOwned(a, id) && AllOwned(b, id)
  {
    if AllOwned(a + b, id) {
      assert forall i | 0 <= i < |a| :: a[i] == (a + b)[i];
      assert forall i | 0 <= i < |b| :: b[i] == (a + b)[|a| + i];
    }
  }

  lemma AreConcat(a: seq<int>, y: int, id: int)
    ensures AllAre(a + [y], id) <==> AllAre(a, id) && y == id
  {
    if AllAre(a + [y], id) {
      assert forall i | 0 <= i < |a| :: a[i] == (a + [y])[i];
      assert (a + [y])[|a|] == y;
    }
  }

  lemma OwnersStep(s: State, sources: seq<int>, e: Event)
    requires SameOwners(s.shown, sources)
    ensures SameOwners(Step(s, e).shown, Contributors(s, sources, e))
  {
    if e.Deliver? && e.i < |s.flight| && e.response.Points? {
      var r, pts := s.flight[e.i], e.response.points;
      if r.AskVals? {
        OwnersOfLoad(pts, r.id);
      } else if r.AskNews? && pts != [] && s.chart.Some? {
        OwnersOfNews(s.shown, sources, pts, r.id);
      }
    }
  }

  /** Over every run, whatever the order and content of the responses: all points on show belong to an
      index if and only if the last answered load was asked for it, or was empty, and so was every poll
      that was answered with new points since. */
  lemma {:induction false} ShowsSelectionIff(es: seq<Event>, id: int)
    ensures AllOwned(Run(FIRST, es).shown, id) <==> AllAre(Sources(es), id)
  {
    OwnersRun(es);
  }

  lemma {:induction false} OwnersRun(es: seq<Event>)
    ensures SameOwners(Run(FIRST, es).shown, Sources(es))
    decreases |es|
  {
    if es != [] {
      var front := es[..|es| - 1];
      OwnersRun(front);
      OwnersStep(Run(FIRST, front), Sources(front), es[|es| - 1]);
    }
  }

  // ---------------------------------------------------------------- responses in order

  /** Responses come in the order of their requests, and no load fails. */
  predicate InOrder(s: State, e: Event) {
    e.Deliver? ==>
      && e.i == 0
      && (s.flight != [] && s.flight[0].AskVals? ==> e.response.Points?)
  }

  predicate LoadPending(flight: seq<Request>, j: nat) {
    exists k | j < k < |flight| :: flight[k].AskVals?
  }

  predicate AnyLoad(flight: seq<Request>) {
    exists k | 0 <= k < |flight| :: flight[k].AskVals?
  }

  predicate ForValues(r: Request) {
    r.AskVals? || r.AskNews?
  }

  /** A request for another index is followed by a load; with no load pending, everything on show came
      from requests for the selection. */
  predicate OwnInv(s: State, sources: seq<int>) {
    && (AskList in s.flight ==> s == FIRST.(time := s.time))
    && (s.selected.None? ==> sources == [] && forall j | 0 <= j < |s.flight| :: !ForValues(s.flight[j]))
    && (s.selected.Some? ==>
          && (forall j | 0 <= j < |s.flight| && ForValues(s.flight[j]) ::
                s.flight[j].id == s.selected.value || LoadPending(s.flight, j))
          && (AnyLoad(s.flight) || AllAre(sources, s.selected.value)))
  }

  lemma SentLoad(selected: int, time: Time, before: seq<Request>)
    ensures var f := before + [AskVals(selected, time)];
            && AnyLoad(f)
            && forall j | 0 <= j < |f| && ForValues(f[j]) :: f[j].id == selected || LoadPending(f, j)
  {
    var f := before + [AskVals(selected, time)];
    assert f[|before|].AskVals?;
    forall j | 0 <= j < |f| && ForValues(f[j]) ensures f[j].id == selected || LoadPending(f, j) {
      if j < |before| {
        assert f[|before|].AskVals?;
      }
    }
  }

  lemma OwnClick(s: State, sources: seq<int>, e: Event)
    requires OwnInv(s, sources) && (e.Click? || e.ChangeTime?)
    ensures OwnInv(Step(s, e), sources)
  {
    var s' := Step(s, e);
    if e.Click? && e.id in s.list {
      assert AskList !in s.flight;
      SentLoad(e.id, s.time, s.flight + [AskTotal(e.id)]);
      assert s'.flight == s.flight + [AskTotal(e.id)] + [AskVals(e.id, s.time)];
    } else if e.ChangeTime? && s.selected.Some? {
      assert AskList !in s.flight;
      SentLoad(s.selected.value, e.time, s.flight);
    }
  }

  /** A tick asks on behalf of the selection. */
  lemma OwnTick(s: State, sources: seq<int>)
    requires OwnInv(s, sources) && AskList !in s.flight
    ensures OwnInv(OnTick(s), sources)
  {
    var s' := OnTick(s);
    if s.selected.Some? {
      forall j | 0 <= j < |s'.flight| && ForValues(s'.flight[j])
        ensures s'.flight[j].id == s.selected.value || LoadPending(s'.flight, j)
      {
        if j < |s.flight| && LoadPending(s.flight, j) {
          var k :| j < k < |s.flight| && s.flight[k].AskVals?;
          assert s'.flight[k].AskVals?;
        }
      }
      if AnyLoad(s.flight) {
        var k :| 0 <= k < |s.flight| && s.flight[k].AskVals?;
        assert s'.flight[k].AskVals?;
      }
    }
  }

  /** Dropping the first request moves every later one forward. */
  lemma DropFirst(flight: seq<Request>, id: int)
    requires flight != []
    requires forall j | 0 <= j < |flight| && ForValues(flight[j]) :: flight[j].id == id || LoadPending(flight, j)
    ensures var rest := flight[1..];
            forall j | 0 <= j < |rest| && ForValues(rest[j]) :: rest[j].id == id || LoadPending(rest, j)
    ensures LoadPending(flight, 0) <==> AnyLoad(flight[1..])
  {
  }

  /** Whatever the first response is, points of another index stay only if a load is still to come. */
  lemma OwnDeliver(s: State, sources: seq<int>, e: Event)
    requires OwnInv(s, sources) && InOrder(s, e) && e.Deliver? && s.flight != [] && s.selected.Some?
    ensures OwnInv(Step(s, e), Contributors(s, sources, e))
  {
    var rest := s.flight[1..];
    assert AskList !in s.flight && Without(s.flight, 0) == rest;
    DropFirst(s.flight, s.selected.value);
    OwnSources(s, sources, e);
    SelectionKept(s.(flight := rest), s.flight[0], e.response);
  }

  lemma OwnSources(s: State, sources: seq<int>, e: Event)
    requires OwnInv(s, sources) && InOrder(s, e) && e.Deliver? && s.flight != [] && s.selected.Some?
    ensures AnyLoad(s.flight[1..]) || AllAre(Contributors(s, sources, e), s.selected.value)
  {
    var id, rest, r := s.selected.value, s.flight[1..], s.flight[0];
    DropFirst(s.flight, id);
    assert !ForValues(r) || r.id == id || AnyLoad(rest);
    if AnyLoad(s.flight) && !r.AskVals? {
      var k :| 0 <= k < |s.flight| && s.flight[k].AskVals?;
      assert LoadPending(s.flight, 0);
    }
  }

  lemma SelectionKept(s: State, request: Request, response: Response)
    requires !request.AskList?
    ensures var s' := OnResponse(s, request, response); s'.flight == s.flight && s'.selected == s.selected
  {
  }

  /** Before anything is selected, the only thing that matters is the list. */
  lemma OwnFirst(s: State, sources: seq<int>, e: Event)
    requires OwnInv(s, sources) && InOrder(s, e) && e.Deliver? && s.flight != [] && s.selected.None?
    ensures OwnInv(Step(s, e), Contributors(s, sources, e))
  {
    assert Without(s.flight, 0) == s.flight[1..];
    if s.flight[0].AskList? {
      assert AskList in s.flight;
      if e.response.ListOf? && e.response.ids != [] {
        var id := e.response.ids[0];
        SentLoad(id, s.time, [AskTotal(id)]);
        assert Step(s, e).flight == [AskTotal(id)] + [AskVals(id, s.time)];
      }
    } else {
      assert !ForValues(s.flight[0]);
    }
  }

  lemma OwnStep(s: State, sources: seq<int>, e: Event)
    requires OwnInv(s, sources) && InOrder(s, e)
    ensures OwnInv(Step(s, e), Contributors(s, sources, e))
  {
    match e
    case Click(_) => OwnClick(s, sources, e);
    case ChangeTime(_) => OwnClick(s, sources, e);
    case Fire(t) =>
      if t in s.live {
        assert AskList !in s.flight;
        OwnTick(s, sources);
      }
    case Destroy =>
    case Deliver(_, response) =>
      if s.flight != [] {
        if s.selected.Some? {
          OwnDeliver(s, sources, e);
        } else {
          OwnFirst(s, sources, e);
        }
      }
  }

  predicate AllInOrder(s: State, es: seq<Event>) {
    es != [] ==>
      InOrder(Run(s, es[..|es| - 1]), es[|es| - 1]) && AllInOrder(s, es[..|es| - 1])
  }

  lemma {:induction false} InOrderRun(es: seq<Event>)
    requires AllInOrder(FIRST, es)
    ensures OwnInv(Run(FIRST, es), Sources(es))
    decreases |es|
  {
    if es != [] {
      var front := es[..|es| - 1];
      InOrderRun(front);
      OwnStep(Run(FIRST, front), Sources(front), es[|es| - 1]);
    }
  }

  /** If responses arrive in the order of the requests and no load fails, the condition of
      `ShowsSelectionIff` is met for the selection whenever no load is pending. */
  lemma {:induction false} InOrderShowsSelection(es: seq<Event>)
    requires AllInOrder(FIRST, es)
    ensures var s := Run(FIRST, es);
            s.selected.Some? && !AnyLoad(s.flight) ==>
              AllAre(Sources(es), s.selected.value) && AllOwned(s.shown, s.selected.value)
  {
    var s := Run(FIRST, es);
    InOrderRun(es);
    if s.selected.Some? {
      ShowsSelectionIff(es, s.selected.value);
    }
  }

  // ---------------------------------------------------------------- the period on show

  /** The load that was answered last. */
  function LoadShown(es: seq<Event>): Option<Request> {
    if es == [] then None
    else if IsLoad(LastDelivery(es)) then Some(LastDelivery(es).request)
    else LoadShown(es[..|es| - 1])
  }

  /** The load asked for last that is still in flight, or else the one that was answered last. */
  function NewestLoad(flight: seq<Request>, shown: Option<Request>): Option<Request> {
    if flight == [] then shown
    else if flight[|flight| - 1].AskVals? then Some(flight[|flight| - 1])
    else NewestLoad(flight[..|flight| - 1], shown)
  }

  lemma {:induction false} NewestAppend(flight: seq<Request>, more: seq<Request>, shown: Option<Request>)
    ensures NewestLoad(flight + more, shown) == NewestLoad(more, NewestLoad(flight, shown))
    decreases |more|
  {
    if more == [] {
      assert flight + more == flight;
    } else {
      var n := |more| - 1;
      assert (flight + more)[..|flight + more| - 1] == flight + more[..n];
      NewestAppend(flight, more[..n], shown);
    }
  }

  /** Answering the first request: if it is a load, it becomes the one on show. */
  lemma NewestFirst(flight: seq<Request>, shown: Option<Request>)
    requires flight != []
    ensures NewestLoad(flight, shown) ==
            NewestLoad(flight[1..], if flight[0].AskVals? then Some(flight[0]) else shown)
  {
    assert flight == [flight[0]] + flight[1..];
    NewestAppend([flight[0]], flight[1..], shown);
    assert NewestLoad([flight[0]], shown) == if flight[0].AskVals? then Some(flight[0]) else shown by {
      assert [flight[0]][..0] == [];
    }
  }

  lemma {:induction false} NoLoadNewest(flight: seq<Request>, shown: Option<Request>)
    requires !AnyLoad(flight)
    ensures NewestLoad(flight, shown) == shown
  {
    if flight != [] {
      var front := flight[..|flight| - 1];
      assert !flight[|flight| - 1].AskVals?;
      forall k | 0 <= k < |front| ensures !front[k].AskVals? {
        assert front[k] == flight[k];
      }
      NoLoadNewest(front, shown);
    }
  }

  /** The newest load is for the selection and the period in force. */
  predicate NewestInv(s: State, shown: Option<Request>) {
    s.selected.Some? ==> NewestLoad(s.flight, shown) == Some(AskVals(s.selected.value, s.time))
  }

  lemma NewestSent(flight: seq<Request>, sent: seq<Request>, id: int, time: Time, shown: Option<Request>)
    requires sent != [] && sent[|sent| - 1] == AskVals(id, time)
    ensures NewestLoad(flight + sent, shown) == Some(AskVals(id, time))
  {
    assert (flight + sent)[|flight + sent| - 1] == sent[|sent| - 1];
  }

  lemma NewestAct(s: State, e: Event, shown: Option<Request>)
    requires NewestInv(s, shown) && !e.Deliver?
    ensures NewestInv(Step(s, e), shown)
  {
    RequestsAre(s, e);
    var sent := Sends(s, e);
    match e
    case Click(id) =>
      if id in s.list {
        NewestSent(s.flight, sent, id, s.time, shown);
      } else {
        assert s.flight + [] == s.flight;
      }
    case ChangeTime(time) =>
      if s.selected.Some? {
        NewestSent(s.flight, sent, s.selected.value, time, shown);
      }
    case Fire(t) =>
      if sent != [] {
        assert (s.flight + sent)[..|s.flight|] == s.flight;
      } else {
        assert s.flight + [] == s.flight;
      }
    case Destroy =>
  }

  lemma NewestDeliver(s: State, e: Event, shown: Option<Request>)
    requires NewestInv(s, shown) && InOrder(s, e) && e.Deliver? && s.flight != [] && !s.flight[0].AskList?
    ensures NewestInv(Step(s, e), if IsLoad(DeliveredBy(s, e)) then Some(s.flight[0]) else shown)
  {
    ChoicesStep(s, e);
    RequestsAre(s, e);
    assert Without(s.flight, 0) + [] == s.flight[1..];
    NewestFirst(s.flight, shown);
  }

  lemma NewestList(s: State, e: Event, shown: Option<Request>)
    requires OwnInv(s, []) && e.Deliver? && e.i == 0 && s.flight != [] && s.flight[0].AskList?
    ensures NewestInv(Step(s, e), shown)
  {
    ChoicesStep(s, e);
    RequestsAre(s, e);
    assert AskList in s.flight;
    var d := DeliveredBy(s, e);
    if IsList(d) && d.response.ids != [] {
      NewestSent(Without(s.flight, 0), Sends(s, e), d.response.ids[0], s.time, shown);
    }
  }

  lemma {:induction false} NewestRun(es: seq<Event>)
    requires AllInOrder(FIRST, es)
    ensures NewestInv(Run(FIRST, es), LoadShown(es))
    decreases |es|
  {
    if es != [] {
      var front, e := es[..|es| - 1], es[|es| - 1];
      var s := Run(FIRST, front);
      NewestRun(front);
      if !e.Deliver? {
        NewestAct(s, e, LoadShown(front));
      } else if s.flight != [] {
        if s.flight[0].AskList? {
          InOrderRun(front);
          assert AskList in s.flight && s.selected.None?;
          NewestList(s, e, LoadShown(front));
        } else {
          NewestDeliver(s, e, LoadShown(front));
        }
      }
    }
  }

  /** If responses arrive in the order of the requests and no load fails, then whenever no load is pending
      the load on show is the one for the index and the period now selected. */
  lemma InOrderShowsPeriod(es: seq<Event>)
    requires AllInOrder(FIRST, es)
    ensures var s := Run(FIRST, es);
            s.selected.Some? && !AnyLoad(s.flight) ==>
              LoadShown(es) == Some(AskVals(s.selected.value, s.time))
  {
    NewestRun(es);
    var s := Run(FIRST, es);
    if s.selected.Some? && !AnyLoad(s.flight) {
      NoLoadNewest(s.flight, LoadShown(es));
    }
  }

  // ---------------------------------------------------------------- the labels on show

  /** No load has failed so far. */
  predicate NoLoadFails(es: seq<Event>) {
    es != [] ==>
      && (LastDelivery(es).Delivered? && LastDelivery(es).request.AskVals? ==> LastDelivery(es).response.Points?)
      && NoLoadFails(es[..|es| - 1])
  }

  /** Every label is the one of its point in the period now selected. */
  predicate LabelsCurrent(s: State) {
    s.chart.Some? ==> LabelsOf(s.chart.value.labels, s.shown, s.time)
  }

  predicate LabelsInv(s: State) {
    (s.selected.None? ==> s.chart.None?) && (AnyLoad(s.flight) || LabelsCurrent(s))
  }

  lemma StillLoading(flight: seq<Request>, i: nat)
    requires i < |flight| && !flight[i].AskVals? && AnyLoad(flight)
    ensures AnyLoad(Without(flight, i))
  {
    var k :| 0 <= k < |flight| && flight[k].AskVals?;
    assert Without(flight, i)[if k < i then k else k - 1] == flight[k];
  }

  lemma MoreLoading(flight: seq<Request>, more: seq<Request>)
    ensures AnyLoad(flight) || AnyLoad(more) ==> AnyLoad(flight + more)
  {
    if k :| 0 <= k < |flight| && flight[k].AskVals? {
      assert (flight + more)[k].AskVals?;
    }
    if k :| 0 <= k < |more| && more[k].AskVals? {
      assert (flight + more)[|flight| + k].AskVals?;
    }
  }

  lemma LabelsAct(s: State, e: Event)
    requires LabelsInv(s) && !e.Deliver?
    ensures LabelsInv(Step(s, e))
  {
    RequestsAre(s, e);
    ChoicesStep(s, e);
    OtherFrame(s, e);
    MoreLoading(s.flight, Sends(s, e));
    if e.ChangeTime? && s.selected.Some? {
      assert Sends(s, e)[0].AskVals?;
    }
  }

  lemma LabelsNews(s: State, id: int, pts: seq<Point>)
    requires LabelsCurrent(s) && ChartInv(s)
    ensures LabelsCurrent(OnNews(s, id, pts))
  {
    if pts != [] && s.chart.Some? {
      LabelsJoin(s.chart.value.labels, s.shown, s.time, pts, id);
    }
  }

  predicate LabelsOf(labels: seq<string>, shown: seq<Shown>, time: Time) {
    |labels| == |shown| && forall i | 0 <= i < |shown| :: labels[i] == Label(time, shown[i].point.date)
  }

  lemma LabelsJoin(labels: seq<string>, shown: seq<Shown>, time: Time, pts: seq<Point>, id: int)
    requires LabelsOf(labels, shown, time)
    ensures LabelsOf(labels + Labels(time, pts), shown + Tag(pts, id), time)
  {
    var all, n := shown + Tag(pts, id), |shown|;
    forall i | 0 <= i < |all| ensures (labels + Labels(time, pts))[i] == Label(time, all[i].point.date) {
      if i >= n {
        assert all[i] == Shown(pts[i - n], id);
      }
    }
  }

  lemma LabelsDeliver(s: State, i: nat, response: Response)
    requires Inv(s) && LabelsInv(s) && i < |s.flight| && !s.flight[i].AskVals?
    ensures LabelsInv(Step(s, Deliver(i, response)))
  {
    var e, r := Deliver(i, response), s.flight[i];
    var s1 := s.(flight := Without(s.flight, i));
    RequestsAre(s, e);
    ChoicesStep(s, e);
    assert r in s.flight;
    MoreLoading(s1.flight, Sends(s, e));
    if AnyLoad(s.flight) {
      StillLoading(s.flight, i);
    } else if r.AskNews? && response.Points? {
      LabelsNews(s1, r.id, response.points);
    }
  }

  lemma LabelsLoad(s: State, i: nat, pts: seq<Point>)
    requires Inv(s) && i < |s.flight| && s.flight[i].AskVals?
    ensures LabelsInv(Step(s, Deliver(i, Points(pts))))
  {
    assert s.flight[i] in s.flight;
  }

  /** As long as no load fails, in whatever order responses come: whenever no load is pending, every label
      is the one of its point in the period now selected. */
  lemma {:induction false} LabelsFollowPeriod(es: seq<Event>)
    requires NoLoadFails(es)
    ensures LabelsInv(Run(FIRST, es))
    decreases |es|
  {
    if es != [] {
      var front, e := es[..|es| - 1], es[|es| - 1];
      var s := Run(FIRST, front);
      LabelsFollowPeriod(front);
      EveryInterleaving(front);
      if !e.Deliver? {
        LabelsAct(s, e);
      } else if e.i < |s.flight| {
        if s.flight[e.i].AskVals? {
          LabelsLoad(s, e.i, e.response.points);
        } else {
          LabelsDeliver(s, e.i, e.response);
        }
      }
    }
  }

  // ---------------------------------------------------------------- and two ways for it to fail

  const CLICKED := [Deliver(0, ListOf([1, 2])), Click(2)]

  lemma AfterClick()
    ensures var s := Run(FIRST, CLICKED);
            && s.flight == [AskTotal(1), AskVals(1, AllTime), AskTotal(2), AskVals(2, AllTime)]
            && s.selected == Some(2)
  {
    AfterList([1, 2]);
    var s1 := Run(FIRST, [Deliver(0, ListOf([1, 2]))]);
    RunSnoc(FIRST, [Deliver(0, ListOf([1, 2]))], Click(2));
    assert [Deliver(0, ListOf([1, 2]))] + [Click(2)] == CLICKED;
    assert s1.flight + [AskTotal(2), AskVals(2, AllTime)]
        == [AskTotal(1), AskVals(1, AllTime), AskTotal(2), AskVals(2, AllTime)];
  }

  /** A load of one point arrives at position `i`. */
  lemma LoadStep(s: State, i: nat, p: Point)
    requires i < |s.flight| && s.flight[i].AskVals?
    ensures var s' := Step(s, Deliver(i, Points([p])));
            s'.flight == Without(s.flight, i) && s'.selected == s.selected && s'.shown == [Shown(p, s.flight[i].id)]
  {
    assert Tag([p], s.flight[i].id) == [Shown(p, s.flight[i].id)];
  }

  /** Anything else at position `i` that is not a list leaves the points on show alone. */
  lemma FailedStep(s: State, i: nat)
    requires i < |s.flight|
    ensures Step(s, Deliver(i, Failed)) == s.(flight := Without(s.flight, i))
  {
  }

  /** Out of order: a second index is clicked, its points arrive, then the first one's do. The second
      index is selected, no load is pending, and the chart shows the first. */
  lemma OutOfOrderShowsAnother(a: Point, b: Point)
    ensures var s := Run(FIRST, CLICKED + [Deliver(3, Points([b]))] + [Deliver(1, Points([a]))]);
            !AnyLoad(s.flight) && s.selected == Some(2) && s.shown == [Shown(a, 1)]
  {
    AfterClick();
    var s2 := Run(FIRST, CLICKED);
    RunSnoc(FIRST, CLICKED, Deliver(3, Points([b])));
    LoadStep(s2, 3, b);
    var s3 := Step(s2, Deliver(3, Points([b])));
    assert s3.flight == [AskTotal(1), AskVals(1, AllTime), AskTotal(2)];
    RunSnoc(FIRST, CLICKED + [Deliver(3, Points([b]))], Deliver(1, Points([a])));
    LoadStep(s3, 1, a);
    assert Without(s3.flight, 1) == [AskTotal(1), AskTotal(2)];
  }

  /** In order, but the second load fails: nothing is in flight at all, the second index is selected, and
      the chart shows the first. */
  lemma FailedLoadShowsAnother(a: Point)
    ensures var es := CLICKED + [Deliver(0, Failed)] + [Deliver(0, Points([a]))]
                      + [Deliver(0, Failed)] + [Deliver(0, Failed)];
            var s := Run(FIRST, es);
            s.flight == [] && s.selected == Some(2) && s.shown == [Shown(a, 1)]
  {
    AfterClick();
    var s2 := Run(FIRST, CLICKED);
    var es3 := CLICKED + [Deliver(0, Failed)];
    RunSnoc(FIRST, CLICKED, Deliver(0, Failed));
    FailedStep(s2, 0);
    var s3 := Run(FIRST, es3);
    assert s3.flight == [AskVals(1, AllTime), AskTotal(2), AskVals(2, AllTime)];
    var es4 := es3 + [Deliver(0, Points([a]))];
    RunSnoc(FIRST, es3, Deliver(0, Points([a])));
    LoadStep(s3, 0, a);
    var s4 := Run(FIRST, es4);
    assert s4.flight == [AskTotal(2), AskVals(2, AllTime)];
    var es5 := es4 + [Deliver(0, Failed)];
    RunSnoc(FIRST, es4, Deliver(0, Failed));
    FailedStep(s4, 0);
    var s5 := Run(FIRST, es5);
    assert s5.flight == [AskVals(2, AllTime)];
    RunSnoc(FIRST, es5, Deliver(0, Failed));
    FailedStep(s5, 0);
  }
}
