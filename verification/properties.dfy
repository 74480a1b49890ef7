/** Properties of the forecast list stated on the records themselves,
    derived from its description as the greedy selection. */
module ForecastProperties {
  import opened Wrappers
  import opened Conditions
  import opened Timeseries
  import opened Bucketing
  import opened Selection

  /** The forecast is an order-preserving subsequence of the entries: there
      are increasing entry indices, one per record, each record copying its
      entry's fields. */
  lemma ForecastIsSubsequence<V>(cmap: ConditionMap, ts: seq<Entry<V>>, now: int)
    ensures var r := Forecast(cmap, ts, now);
            exists picks: seq<int> ::
              && |picks| == |r|
              && (forall k :: 0 <= k < |picks| ==>
                    0 <= picks[k] < |ts| && Eligible(ts[picks[k]], now) && CopiesEntry(cmap, r[k], ts[picks[k]]))
              && (forall a, b :: 0 <= a < b < |picks| ==> picks[a] < picks[b])
  {
    PicksAreGreedy(ts, now, None, 0);
    var picks := PicksFrom(ts, now, None, 0);
    ForecastIsGreedySelection(cmap, ts, now, picks);
  }

  /** Greedy maximality on the records: an entry not in the past and with a
      `next_6_hours` block either has its record in the forecast, or lies
      less than six hours after a record taken from an earlier entry. */
  lemma ForecastIsMaximal<V>(cmap: ConditionMap, ts: seq<Entry<V>>, now: int, j: int)
    requires 0 <= j < |ts| && Eligible(ts[j], now)
    ensures var r := Forecast(cmap, ts, now);
            || (exists k :: 0 <= k < |r| && r[k] == MakeRecord(cmap, ts[j]))
            || (exists k, i :: 0 <= k < |r| && 0 <= i < j && Eligible(ts[i], now)
                  && r[k] == MakeRecord(cmap, ts[i]) && ts[j].time < r[k].time + SixHours)
  {
    PicksAreGreedy(ts, now, None, 0);
    var picks := PicksFrom(ts, now, None, 0);
    ForecastIsGreedySelection(cmap, ts, now, picks);
    var r := Forecast(cmap, ts, now);
    if j in picks {
      var k :| 0 <= k < |picks| && picks[k] == j;
      assert r[k] == MakeRecord(cmap, ts[j]);
    } else {
      assert Blocked(ts, None, picks, j);
      var k :| 0 <= k < |picks| && picks[k] < j && ts[j].time < ts[picks[k]].time + SixHours;
      assert r[k] == MakeRecord(cmap, ts[picks[k]]);
    }
  }

  /** The first entry that is not in the past and has a `next_6_hours`
      block always gives the first record. */
  lemma ForecastFirstRecord<V>(cmap: ConditionMap, ts: seq<Entry<V>>, now: int, j: int)
    requires 0 <= j < |ts| && Eligible(ts[j], now)
    requires forall i :: 0 <= i < j ==> !Eligible(ts[i], now)
    ensures |Forecast(cmap, ts, now)| > 0
    ensures Forecast(cmap, ts, now)[0] == MakeRecord(cmap, ts[j])
  {
    PicksAreGreedy(ts, now, None, 0);
    var picks := PicksFrom(ts, now, None, 0);
    ForecastIsGreedySelection(cmap, ts, now, picks);
    assert j in picks;
    var k :| 0 <= k < |picks| && picks[k] == j;
    assert k == 0 || picks[0] < picks[k];
  }

  /** With no entry both current and carrying a `next_6_hours` block, no
      record is produced, whatever the window marker. */
  lemma {:induction false} ForecastEmptyWithoutEligible<V>(cmap: ConditionMap, ts: seq<Entry<V>>, now: int, last: Option<int>)
    requires forall i :: 0 <= i < |ts| ==> !Eligible(ts[i], now)
    ensures ForecastFrom(cmap, ts, now, last) == []
    decreases |ts|
  {
    if |ts| > 0 {
      assert forall i :: 0 <= i < |ts[1..]| ==> ts[1..][i] == ts[i + 1];
      ForecastEmptyWithoutEligible(cmap, ts[1..], now, last);
    }
  }
}
