/** The fetchers: ask the provider of each plan for its rows, skip responses
    without a time axis, and merge what came back. The hourly and the daily
    fetcher differ only in the response key they read, so they are one model;
    the upstream request is a function from plan to its parsed response, `None`
    when the response lacks the `hourly`/`daily` object or its `time` array. */
module Fetcher {
  import opened Wrappers
  import opened Planner
  import opened Series

  /** The rows the plans contribute, in plan order. */
  function Contributed<V>(plans: seq<Plan>, upstream: Plan -> Option<seq<Row<V>>>): seq<Row<V>>
  {
    if plans == [] then []
    else
      var n := |plans| - 1;
      Contributed(plans[..n], upstream) +
        match upstream(plans[n]) case None => [] case Some(rows) => rows
  }

  lemma ConcatSnoc<V>(pieces: seq<seq<Row<V>>>, piece: seq<Row<V>>)
    ensures Concat(pieces + [piece]) == Concat(pieces) + piece
  {
    assert (pieces + [piece])[..|pieces|] == pieces;
  }

  /** The loop of the fetchers over the planned requests, then the merge. */
  method FetchSeries<V(==)>(plans: seq<Plan>, upstream: Plan -> Option<seq<Row<V>>>)
    returns (series: seq<Row<V>>)
    ensures StrictlyAscending(series)
    ensures Timestamps(series) == Timestamps(Contributed(plans, upstream))
    ensures forall i :: 0 <= i < |series| ==>
              var rows := Contributed(plans, upstream);
              LastIndex(rows, series[i].time) >= 0 &&
              series[i] == rows[LastIndex(rows, series[i].time)]
    ensures Contributed(plans, upstream) == [] ==> series == []
  {
    var pieces: seq<seq<Row<V>>> := [];
    for i := 0 to |plans|
      invariant Concat(pieces) == Contributed(plans[..i], upstream)
    {
      assert plans[..i + 1][..i] == plans[..i];
      var response := upstream(plans[i]);
      if response.None? {
        continue;
      }
      ConcatSnoc(pieces, response.value);
      pieces := pieces + [response.value];
    }
    assert plans[..|plans|] == plans;
    if pieces == [] {
      series := [];
    } else {
      series := Merge(pieces);
      MergeKeepsLastOccurrence(pieces);
    }
    TimestampsEmpty(series);
    TimestampsEmpty(Contributed(plans, upstream));
  }

  /** `fetch_hourly` / `fetch_daily`: plan the range with the default look-back
      window, then fetch and merge. */
  method FetchRange<V(==)>(startD: int, endD: int, today: int, upstream: Plan -> Option<seq<Row<V>>>)
    returns (series: seq<Row<V>>, ghost plans: seq<Plan>)
    ensures Planned(startD, endD, today, DefaultForecastPastDaysMax, plans)
    ensures StrictlyAscending(series)
    ensures Timestamps(series) == Timestamps(Contributed(plans, upstream))
    ensures forall i :: 0 <= i < |series| ==>
              var rows := Contributed(plans, upstream);
              LastIndex(rows, series[i].time) >= 0 &&
              series[i] == rows[LastIndex(rows, series[i].time)]
    ensures startD > endD ==> series == []
  {
    var ranges := SplitRanges(startD, endD, today, DefaultForecastPastDaysMax);
    series := FetchSeries(ranges, upstream);
    plans := ranges;
  }
}
