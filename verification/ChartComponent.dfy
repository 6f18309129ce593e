/**
 The component itself, in place: its fields, its handlers, and the browser's timers and requests they
 act on. Every handler is shown to make exactly the step of the chart machine.
 */
module ChartComponent {
  import opened Wrappers
  import opened Chart

  class IndicesComponent {
    var list: seq<int>
    var indiceSelected: Option<int>
    var timeSelected: Time
    var chartLabels: Option<seq<string>>
    var chartData: Option<seq<real>>
    var maxVal: Option<real>
    var minVal: Option<real>
    var maxDate: Option<string>
    var numbers: seq<int>
    var timing: Option<nat>
    var count: nat
    var live: set<nat>
    var nextTimer: nat
    var flight: seq<Request>
    ghost var shown: seq<Shown>

    /** Labels and data are set together and stay parallel. */
    ghost predicate Valid()
      reads this
    {
      (chartLabels.Some? <==> chartData.Some?) && Inv(View())
    }

    ghost function View(): State
      reads this
    {
      var chart :=
        if chartLabels.Some? && chartData.Some? then Some(Series(chartLabels.value, chartData.value)) else None;
      State(list, indiceSelected, timeSelected, chart, maxVal, minVal, maxDate, numbers, timing, count,
            live, nextTimer, flight, shown)
    }

    /** `ngOnInit` has asked for the list. */
    constructor ()
      ensures Valid() && View() == FIRST
    {
      list, indiceSelected, timeSelected := [], None, AllTime;
      chartLabels, chartData, maxVal, minVal, maxDate := None, None, None, None, None;
      numbers, timing, count, live, nextTimer, flight := [], None, 0, {}, 0, [AskList];
      shown := [];
    }

    method ClearInterval()
      modifies this`live
      ensures View() == ClearTiming(old(View()))
    {
      if timing.Some? {
        live := live - {timing.value};
      }
    }

    method GetTotal(id: int)
      modifies this`flight
      ensures View() == Send(old(View()), [AskTotal(id)])
    {
      flight := flight + [AskTotal(id)];
    }

    method GetIndiceVals(id: int)
      modifies this`flight
      ensures View() == Send(old(View()), [AskVals(id, timeSelected)])
    {
      flight := flight + [AskVals(id, timeSelected)];
    }

    method ClickIndice(id: int)
      requires Valid() && id in list
      modifies this
      ensures Valid() && View() == Step(old(View()), Click(id))
    {
      StepInv(View(), Click(id));
      indiceSelected := Some(id);
      GetTotal(id);
      GetIndiceVals(id);
      assert old(flight) + [AskTotal(id)] + [AskVals(id, timeSelected)]
          == old(flight) + [AskTotal(id), AskVals(id, timeSelected)];
    }

    method ChangeTimeTo(time: Time)
      requires Valid()
      modifies this
      ensures Valid() && View() == Step(old(View()), ChangeTime(time))
    {
      StepInv(View(), ChangeTime(time));
      timeSelected := time;
      if indiceSelected.Some? {
        GetIndiceVals(indiceSelected.value);
      }
    }

    /** The interval callback of a live timer. */
    method Tick(timer: nat)
      requires Valid() && timer in live
      modifies this
      ensures Valid() && View() == Step(old(View()), Fire(timer))
      ensures |flight| == |old(flight)| + 1
    {
      StepInv(View(), Fire(timer));
      count := count + 1;
      if indiceSelected.Some? && maxDate.Some? {
        flight := flight + [AskNews(indiceSelected.value, maxDate.value)];
      }
    }

    method NgOnDestroy()
      requires Valid()
      modifies this`live
      ensures Valid() && View() == Step(old(View()), Destroy)
    {
      StepInv(View(), Destroy);
      ClearInterval();
    }

    /** Take a request out of flight and run its response handler. */
    method Receive(i: nat, response: Response)
      requires Valid() && i < |flight|
      modifies this
      ensures Valid() && View() == Step(old(View()), Deliver(i, response))
    {
      ghost var before := View();
      StepInv(before, Deliver(i, response));
      assert flight[i].AskNews? ==> chartLabels.Some? by {
        assert flight[i] in before.flight;
      }
      var request := flight[i];
      flight := flight[..i] + flight[i + 1..];
      Handle(request, response);
    }

    /** The response handlers; an error response is only logged. */
    method Handle(request: Request, response: Response)
      requires (chartLabels.Some? <==> chartData.Some?) && (request.AskNews? ==> chartLabels.Some?)
      modifies this
      ensures chartLabels.Some? <==> chartData.Some?
      ensures View() == OnResponse(old(View()), request, response)
    {
      match (request, response)
      case (AskList, ListOf(ids)) => HandleList(ids);
      case (AskTotal(_), Totals(_, _, _, _)) => HandleTotals(response);
      case (AskVals(id, _), Points(pts)) => HandleVals(id, pts);
      case (AskNews(id, _), Points(pts)) => HandleNews(id, pts);
      case _ =>
    }

    method HandleList(ids: seq<int>)
      modifies this`list, this`indiceSelected, this`flight
      ensures View() == OnList(old(View()), ids)
    {
      list := ids;
      indiceSelected := if ids == [] then None else Some(ids[0]);
      if ids != [] {
        GetTotal(ids[0]);
        GetIndiceVals(ids[0]);
        assert old(flight) + [AskTotal(ids[0])] + [AskVals(ids[0], timeSelected)]
            == old(flight) + [AskTotal(ids[0]), AskVals(ids[0], timeSelected)];
      }
    }

    method HandleTotals(r: Response)
      requires r.Totals?
      modifies this`numbers
      ensures View() == OnTotals(old(View()), r)
    {
      numbers := [r.today, r.month + r.today, r.year + r.today, r.all + r.today];
    }

    /** Response handler of `getIndiceVals`: stop the timer, replace the chart, then its extremes, the
        date to poll from and the timer. */
    method HandleVals(id: int, pts: seq<Point>)
      modifies this
      ensures View() == OnVals(old(View()), id, pts)
      ensures chartLabels.Some? && chartData.Some?
    {
      ClearInterval();
      Replace(id, pts);
      if pts != [] {
        FollowUp(pts);
      }
    }

    /** The extremes of the new chart, the date to poll from and the timer. */
    method FollowUp(pts: seq<Point>)
      requires pts != [] && chartData == Some(Vals(pts))
      modifies this`maxVal, this`minVal, this`maxDate, this`timing, this`live, this`nextTimer
      ensures View() == old(View()).(maxVal := Some(ReduceMax(Vals(pts))), minVal := Some(ReduceMin(Vals(pts))),
                                     maxDate := Some(pts[|pts| - 1].date), timing := Some(old(nextTimer)),
                                     live := old(live) + {old(nextTimer)}, nextTimer := old(nextTimer) + 1)
    {
      SetExtremes();
      maxDate := Some(pts[|pts| - 1].date);
      StartTiming();
    }

    method Replace(id: int, pts: seq<Point>)
      modifies this`chartLabels, this`chartData, this`shown
      ensures View() == old(View()).(chart := Some(Series(Labels(timeSelected, pts), Vals(pts))), shown := Tag(pts, id))
      ensures chartLabels.Some? && chartData == Some(Vals(pts))
    {
      chartData, chartLabels := Some(Vals(pts)), Some(Labels(timeSelected, pts));
      shown := Tag(pts, id);
    }

    method SetExtremes()
      requires chartData.Some? && chartData.value != []
      modifies this`maxVal, this`minVal
      ensures View() == old(View()).(maxVal := Some(ReduceMax(chartData.value)),
                                     minVal := Some(ReduceMin(chartData.value)))
    {
      var max := GetMax(chartData.value);
      var min := GetMin(chartData.value);
      maxVal, minVal := Some(max), Some(min);
    }

    method StartTiming()
      modifies this`timing, this`live, this`nextTimer
      ensures View() == old(View()).(timing := Some(old(nextTimer)), live := old(live) + {old(nextTimer)},
                                     nextTimer := old(nextTimer) + 1)
    {
      timing, live, nextTimer := Some(nextTimer), live + {nextTimer}, nextTimer + 1;
    }

    /** Response handler of `getNewVals`: push each point, then move the date, the counters and the
        extremes. */
    method HandleNews(id: int, pts: seq<Point>)
      requires chartLabels.Some? && chartData.Some?
      modifies this
      ensures View() == OnNews(old(View()), id, pts)
      ensures chartLabels.Some? && chartData.Some?
    {
      if pts != [] {
        Push(id, pts);
        maxDate := Some(pts[|pts| - 1].date);
        AddToNumbers(|pts|);
        SetExtremes();
      }
    }

    /** The `forEach` over the new points. */
    method Push(id: int, pts: seq<Point>)
      requires chartLabels.Some? && chartData.Some?
      modifies this`chartLabels, this`chartData, this`shown
      ensures chartLabels.Some? && chartData == Some(old(chartData).value + Vals(pts))
      ensures var labels := old(chartLabels).value + Labels(timeSelected, pts);
              View() == old(View()).(chart := Some(Series(labels, chartData.value)), shown := old(shown) + Tag(pts, id))
    {
      for i := 0 to |pts|
        invariant chartLabels.Some? && chartData.Some? && shown == old(shown)
        invariant chartLabels.value == old(chartLabels).value + Labels(timeSelected, pts[..i])
        invariant chartData.value == old(chartData).value + Vals(pts[..i])
      {
        chartLabels := Some(chartLabels.value + [Label(timeSelected, pts[i].date)]);
        chartData := Some(chartData.value + [pts[i].val]);
        assert Labels(timeSelected, pts[..i + 1]) ==
               Labels(timeSelected, pts[..i]) + [Label(timeSelected, pts[i].date)];
        assert Vals(pts[..i + 1]) == Vals(pts[..i]) + [pts[i].val];
      }
      assert pts[..|pts|] == pts;
      shown := shown + Tag(pts, id);
    }

    /** The `forEach` over the counters. */
    method AddToNumbers(n: nat)
      modifies this`numbers
      ensures View() == old(View()).(numbers := AddEach(old(numbers), n))
    {
      for i := 0 to |numbers|
        invariant |numbers| == |old(numbers)|
        invariant forall j | 0 <= j < |numbers| :: numbers[j] == old(numbers)[j] + if j < i then n else 0
      {
        numbers := numbers[i := numbers[i] + n];
      }
      assert numbers == AddEach(old(numbers), n);
    }
  }

  /** `getMax`: `reduce` from the left. */
  method GetMax(d: seq<real>) returns (m: real)
    requires d != []
    ensures m == ReduceMax(d) && IsMax(m, d)
  {
    m := d[0];
    for i := 1 to |d|
      invariant m == ReduceMax(d[..i])
    {
      assert d[..i + 1][..i] == d[..i];
      m := if m < d[i] then d[i] else m;
    }
    assert d[..|d|] == d;
  }

  method GetMin(d: seq<real>) returns (m: real)
    requires d != []
    ensures m == ReduceMin(d) && IsMin(m, d)
  {
    m := d[0];
    for i := 1 to |d|
      invariant m == ReduceMin(d[..i])
    {
      assert d[..i + 1][..i] == d[..i];
      m := if m > d[i] then d[i] else m;
    }
    assert d[..|d|] == d;
  }
}
