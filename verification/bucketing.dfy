/** The 6-hour bucketing of `async_update`: a single greedy pass over the
    timeseries carrying the start time of the last window opened. */
module Bucketing {
  import opened Wrappers
  import opened Conditions
  import opened Timeseries

  /** An entry that may open a window: not in the past (an entry at exactly
      `now` counts) and carrying a `next_6_hours` block. */
  predicate Eligible<V>(e: Entry<V>, now: int)
  {
    e.time >= now && e.nextSixHours.Some?
  }

  /** Time `t` lies outside the window opened at `last`, if any: no window
      yet, or at least six hours after its start. */
  predicate WindowOpen(last: Option<int>, t: int)
  {
    last.None? || t >= last.value + SixHours
  }

  /** Record `r` is the record of entry `e`: its own time, the normalised
      `next_6_hours` symbol, the temperatures and precipitation of the
      `next_6_hours` details, the pressure and wind of the entry's instant
      details, and a precipitation probability that is absent exactly when
      the details omit it. */
  ghost predicate CopiesEntry<V>(cmap: ConditionMap, r: Record<V>, e: Entry<V>)
    requires e.nextSixHours.Some?
  {
    var six := e.nextSixHours.value;
    && r.time == e.time
    && r.condition == FormatCondition(cmap, six.symbolCode)
    && r.temperature == six.details.airTemperatureMax
    && r.templow == six.details.airTemperatureMin
    && r.precipitation == six.details.precipitationAmount
    && (r.precipitationProbability.None? <==> six.details.probabilityOfPrecipitation.None?)
    && (six.details.probabilityOfPrecipitation.Some? ==>
          r.precipitationProbability == Some(six.details.probabilityOfPrecipitation.value))
    && r.pressure == e.instant.airPressureAtSeaLevel
    && r.windBearing == e.instant.windFromDirection
    && r.windSpeed == e.instant.windSpeed
  }

  /** The record for an entry that opens a window. `CopiesEntry` fixes every
      field of a record, so this is the only record copying the entry. */
  function MakeRecord<V>(cmap: ConditionMap, e: Entry<V>): (r: Record<V>)
    requires e.nextSixHours.Some?
    ensures CopiesEntry(cmap, r, e)
  {
    var six := e.nextSixHours.value;
    Record(
      e.time,
      FormatCondition(cmap, six.symbolCode),
      six.details.airTemperatureMax,
      six.details.airTemperatureMin,
      six.details.precipitationAmount,
      six.details.probabilityOfPrecipitation,
      e.instant.airPressureAtSeaLevel,
      e.instant.windFromDirection,
      e.instant.windSpeed)
  }

  /** The records produced from `ts` when the last window opened so far
      started at `last`. Past entries are skipped; an entry opens a window
      only when it is outside the current one and has a `next_6_hours`
      block; an entry without that block leaves the marker unchanged. */
  function ForecastFrom<V>(cmap: ConditionMap, ts: seq<Entry<V>>, now: int, last: Option<int>): (r: seq<Record<V>>)
    ensures |r| <= |ts|
    ensures forall k :: 0 <= k < |r| ==> r[k].time >= now
    ensures |r| > 0 ==> WindowOpen(last, r[0].time)
    ensures forall a, b :: 0 <= a < b < |r| ==> r[a].time + SixHours <= r[b].time
    decreases |ts|
  {
    if |ts| == 0 then []
    else
      var e := ts[0];
      if e.time < now then ForecastFrom(cmap, ts[1..], now, last)
      else if WindowOpen(last, e.time) then
        if e.nextSixHours.None? then ForecastFrom(cmap, ts[1..], now, last)
        else [MakeRecord(cmap, e)] + ForecastFrom(cmap, ts[1..], now, Some(e.time))
      else ForecastFrom(cmap, ts[1..], now, last)
  }

  /** The forecast list of one update: records at or after `now`, each at
      least six hours after every earlier one, hence strictly increasing in
      time whatever the order of the input. */
  function Forecast<V>(cmap: ConditionMap, ts: seq<Entry<V>>, now: int): (r: seq<Record<V>>)
    ensures forall k :: 0 <= k < |r| ==> r[k].time >= now
    ensures forall a, b :: 0 <= a < b < |r| ==> r[a].time + SixHours <= r[b].time
    ensures forall a, b :: 0 <= a < b < |r| ==> r[a].time < r[b].time
  {
    ForecastFrom(cmap, ts, now, None)
  }

  /** An entry that is in the past or has no `next_6_hours` block can be
      removed from anywhere in the timeseries without changing the result:
      it neither yields a record nor moves the window marker. */
  lemma {:induction false} SkippedEntryIsInert<V>(cmap: ConditionMap, front: seq<Entry<V>>, e: Entry<V>,
                                                  back: seq<Entry<V>>, now: int, last: Option<int>)
    requires e.time < now || e.nextSixHours.None?
    ensures ForecastFrom(cmap, front + [e] + back, now, last) == ForecastFrom(cmap, front + back, now, last)
    decreases |front|
  {
    if |front| == 0 {
      assert front + [e] + back == [e] + back;
      assert ([e] + back)[1..] == back;
      assert front + back == back;
    } else {
      var h := front[0];
      assert (front + [e] + back)[0] == h && (front + back)[0] == h;
      assert (front + [e] + back)[1..] == front[1..] + [e] + back;
      assert (front + back)[1..] == front[1..] + back;
      SkippedEntryIsInert(cmap, front[1..], e, back, now, last);
      SkippedEntryIsInert(cmap, front[1..], e, back, now, Some(h.time));
    }
  }

  /** One step of the fold at index `i`: the entry opens a window exactly
      when it is eligible and outside the current one. */
  lemma ForecastFromStep<V>(cmap: ConditionMap, ts: seq<Entry<V>>, i: int, now: int, last: Option<int>)
    requires 0 <= i < |ts|
    ensures Eligible(ts[i], now) && WindowOpen(last, ts[i].time) ==>
              ForecastFrom(cmap, ts[i..], now, last)
              == [MakeRecord(cmap, ts[i])] + ForecastFrom(cmap, ts[i + 1..], now, Some(ts[i].time))
    ensures !(Eligible(ts[i], now) && WindowOpen(last, ts[i].time)) ==>
              ForecastFrom(cmap, ts[i..], now, last) == ForecastFrom(cmap, ts[i + 1..], now, last)
  {
    assert ts[i..][0] == ts[i] && ts[i..][1..] == ts[i + 1..];
  }

  /** Imperative form of the loop of `async_update`: it computes the same
      list as the fold. */
  method ComputeForecast<V>(cmap: ConditionMap, ts: seq<Entry<V>>, now: int) returns (records: seq<Record<V>>)
    ensures records == Forecast(cmap, ts, now)
  {
    records := [];
    var last: Option<int> := None;
    var i := 0;
    while i < |ts|
      invariant 0 <= i <= |ts|
      invariant records + ForecastFrom(cmap, ts[i..], now, last) == Forecast(cmap, ts, now)
      decreases |ts| - i
    {
      var e := ts[i];
      ForecastFromStep(cmap, ts, i, now, last);
      if e.time < now {
        // entries before now never open a window
        i := i + 1;
        continue;
      }
      if last.None? || e.time >= last.value + SixHours {
        if e.nextSixHours.None? {
          i := i + 1;
          continue;
        }
        var r := MakeRecord(cmap, e);
        assert records + ([r] + ForecastFrom(cmap, ts[i + 1..], now, Some(e.time)))
            == (records + [r]) + ForecastFrom(cmap, ts[i + 1..], now, Some(e.time));
        records := records + [r];
        last := Some(e.time);
      }
      i := i + 1;
    }
    assert ts[i..] == [];
  }
}
