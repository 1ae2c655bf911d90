/** The date-range planner: which provider is asked for which days. Days are
    day numbers; `today` is supplied by the caller instead of read from the clock. */
module Planner {

  datatype Endpoint = Archive | Forecast

  /** One request: a provider and an inclusive day range. */
  datatype Plan = Plan(endpoint: Endpoint, start: int, end: int)

  /** The look-back window the fetchers use when they call the planner. */
  const DefaultForecastPastDaysMax: int := 92

  /** Some plan asks for `day`. */
  predicate Covers(plans: seq<Plan>, day: int) {
    exists i :: 0 <= i < |plans| && plans[i].start <= day <= plans[i].end
  }

  /** What the planner promises about the plans for `[startD, endD]`. */
  ghost predicate Planned(startD: int, endD: int, today: int, forecastPastDaysMax: int, ranges: seq<Plan>)
  {
    && PlansInside(startD, endD, today, forecastPastDaysMax, ranges)
    && PlansCover(startD, endD, today, forecastPastDaysMax, ranges)
  }

  /** At most two plans inside the range, archive before the forecast window and
      forecast inside it, archive first, no day asked twice. */
  ghost predicate PlansInside(startD: int, endD: int, today: int, forecastPastDaysMax: int, ranges: seq<Plan>)
  {
    && |ranges| <= 2
    && (startD > endD ==> ranges == [])
    && (forall i :: 0 <= i < |ranges| ==> startD <= ranges[i].start <= ranges[i].end <= endD)
    && (forall i :: 0 <= i < |ranges| && ranges[i].endpoint == Archive ==>
          ranges[i].end <= today - 1 && ranges[i].end < today - forecastPastDaysMax)
    && (forall i :: 0 <= i < |ranges| && ranges[i].endpoint == Forecast ==>
          today - forecastPastDaysMax <= ranges[i].start)
    && (forall i, j :: 0 <= i < j < |ranges| ==>
          ranges[i].endpoint == Archive && ranges[j].endpoint == Forecast &&
          ranges[i].end < ranges[j].start)
  }

  /** Exactly the requested days are asked for, except those between yesterday and
      the forecast window's first day (a gap only when forecastPastDaysMax < 0); a
      range inside one provider's window is one plan for the whole range. */
  ghost predicate PlansCover(startD: int, endD: int, today: int, forecastPastDaysMax: int, ranges: seq<Plan>)
  {
    && (forall day :: Covers(ranges, day) <==>
          startD <= day <= endD && !(today - 1 < day < today - forecastPastDaysMax))
    && (startD <= endD && today - forecastPastDaysMax <= startD ==>
          ranges == [Plan(Forecast, startD, endD)])
    && (startD <= endD && endD < today - forecastPastDaysMax && endD <= today - 1 ==>
          ranges == [Plan(Archive, startD, endD)])
  }

  /** Split `[startD, endD]` into an archive part strictly before
      `today - forecastPastDaysMax` and no later than yesterday, followed by a
      forecast part from `max(startD, today - forecastPastDaysMax)` on. */
  method SplitRanges(startD: int, endD: int, today: int, forecastPastDaysMax: int)
    returns (ranges: seq<Plan>)
    ensures PlansInside(startD, endD, today, forecastPastDaysMax, ranges)
    ensures PlansCover(startD, endD, today, forecastPastDaysMax, ranges)
  {
    var forecastEarliest := today - forecastPastDaysMax;
    var archiveLatest := today - 1;

    ranges := [];
    if startD <= archiveLatest && startD < forecastEarliest {
      var rStart := startD;
      var rEnd := Min(endD, Min(archiveLatest, forecastEarliest - 1));
      if rStart <= rEnd {
        ranges := ranges + [Plan(Archive, rStart, rEnd)];
      }
    }
    ghost var archive := ranges;

    var fStart := Max(startD, forecastEarliest);
    var fEnd := endD;
    if fStart <= fEnd {
      ranges := ranges + [Plan(Forecast, fStart, fEnd)];
    }
    PartsInside(startD, endD, today, forecastPastDaysMax, archive, ranges[|archive|..]);
    assert ranges == archive + ranges[|archive|..];
    PartsCover(startD, endD, today, forecastPastDaysMax, archive, ranges[|archive|..]);
  }

  /** The archive part `SplitRanges` builds: at most one plan, from `startD` up to
      the earliest of `endD`, yesterday and the day before the forecast window. */
  ghost predicate ArchivePart(startD: int, endD: int, today: int, forecastPastDaysMax: int, archive: seq<Plan>)
  {
    var last := Min(endD, Min(today - 1, today - forecastPastDaysMax - 1));
    archive == if startD <= last then [Plan(Archive, startD, last)] else []
  }

  /** The forecast part `SplitRanges` builds: at most one plan, from the later of
      `startD` and the forecast window's first day up to `endD`. */
  ghost predicate ForecastPart(startD: int, endD: int, today: int, forecastPastDaysMax: int, forecast: seq<Plan>)
  {
    var first := Max(startD, today - forecastPastDaysMax);
    forecast == if first <= endD then [Plan(Forecast, first, endD)] else []
  }

  lemma PartsInside(startD: int, endD: int, today: int, forecastPastDaysMax: int, archive: seq<Plan>, forecast: seq<Plan>)
    requires ArchivePart(startD, endD, today, forecastPastDaysMax, archive)
    requires ForecastPart(startD, endD, today, forecastPastDaysMax, forecast)
    ensures PlansInside(startD, endD, today, forecastPastDaysMax, archive + forecast)
  {
  }

  lemma PartsCover(startD: int, endD: int, today: int, forecastPastDaysMax: int, archive: seq<Plan>, forecast: seq<Plan>)
    requires ArchivePart(startD, endD, today, forecastPastDaysMax, archive)
    requires ForecastPart(startD, endD, today, forecastPastDaysMax, forecast)
    ensures PlansCover(startD, endD, today, forecastPastDaysMax, archive + forecast)
  {
    var ranges := archive + forecast;
    PartsInside(startD, endD, today, forecastPastDaysMax, archive, forecast);
    forall day | startD <= day <= endD && !(today - 1 < day < today - forecastPastDaysMax)
      ensures Covers(ranges, day)
    {
      if day < today - forecastPastDaysMax {
        assert ranges[0].start <= day <= ranges[0].end;
      } else {
        assert ranges[|ranges| - 1].start <= day <= ranges[|ranges| - 1].end;
      }
    }
    CoveredDaysRequested(startD, endD, today, forecastPastDaysMax, ranges);
  }

  /** Plans that stay inside the range and out of the gap ask only for requested days. */
  lemma CoveredDaysRequested(startD: int, endD: int, today: int, forecastPastDaysMax: int, ranges: seq<Plan>)
    requires PlansInside(startD, endD, today, forecastPastDaysMax, ranges)
    ensures forall day :: Covers(ranges, day) ==>
      startD <= day <= endD && !(today - 1 < day < today - forecastPastDaysMax)
  {
    forall day | Covers(ranges, day)
      ensures startD <= day <= endD && !(today - 1 < day < today - forecastPastDaysMax)
    {
      var i :| 0 <= i < |ranges| && ranges[i].start <= day <= ranges[i].end;
      assert ranges[i].endpoint == Archive || ranges[i].endpoint == Forecast;
    }
  }

  function Min(a: int, b: int): int { if a <= b then a else b }

  function Max(a: int, b: int): int { if a <= b then b else a }
}
