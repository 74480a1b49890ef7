/** A non-recursive description of which entries become forecast records,
    and the proof that the fold of `async_update` produces exactly the
    records of that selection.

    A selection is a sequence of entry indices. It is greedy when
    - it picks only eligible entries, in increasing index order,
    - each pick is at least six hours after every earlier pick (and after
      the initial window marker), and
    - every eligible entry it leaves out is blocked: it falls inside the
      window of the initial marker or of some earlier pick.
    There is exactly one greedy selection, and the forecast is its records. */
module Selection {
  import opened Wrappers
  import opened Conditions
  import opened Timeseries
  import opened Bucketing

  /** Entry `j` lies inside the window of the marker `last` or of a pick
      made before it. */
  ghost predicate Blocked<V>(ts: seq<Entry<V>>, last: Option<int>, picks: seq<int>, j: int)
    requires 0 <= j < |ts|
    requires forall k :: 0 <= k < |picks| ==> 0 <= picks[k] < |ts|
  {
    || !WindowOpen(last, ts[j].time)
    || exists k :: 0 <= k < |picks| && picks[k] < j && ts[j].time < ts[picks[k]].time + SixHours
  }

  /** Every pick is an eligible entry at index `lo` or later. */
  ghost predicate PicksEligible<V>(ts: seq<Entry<V>>, now: int, lo: nat, picks: seq<int>)
  {
    forall k :: 0 <= k < |picks| ==> lo <= picks[k] < |ts| && Eligible(ts[picks[k]], now)
  }

  /** Picks come in index order, each at least six hours after every
      earlier one. */
  ghost predicate PicksSpaced<V>(ts: seq<Entry<V>>, picks: seq<int>)
    requires forall k :: 0 <= k < |picks| ==> 0 <= picks[k] < |ts|
  {
    forall a, b :: 0 <= a < b < |picks| ==>
      picks[a] < picks[b] && ts[picks[a]].time + SixHours <= ts[picks[b]].time
  }

  /** Every eligible entry from `lo` on that is not picked is blocked. */
  ghost predicate PicksMaximal<V>(ts: seq<Entry<V>>, now: int, last: Option<int>, lo: nat, picks: seq<int>)
    requires forall k :: 0 <= k < |picks| ==> 0 <= picks[k] < |ts|
  {
    forall j :: lo <= j < |ts| && Eligible(ts[j], now) && j !in picks ==> Blocked(ts, last, picks, j)
  }

  /** `picks` is the greedy selection among the entries from index `lo` on,
      starting from the window marker `last`. */
  ghost predicate IsGreedyFrom<V>(ts: seq<Entry<V>>, now: int, last: Option<int>, lo: nat, picks: seq<int>)
  {
    && PicksEligible(ts, now, lo, picks)
    && PicksSpaced(ts, picks)
    && (|picks| > 0 ==> WindowOpen(last, ts[picks[0]].time))
    && PicksMaximal(ts, now, last, lo, picks)
  }

  /** The greedy selection over the whole timeseries with no window open. */
  ghost predicate IsGreedy<V>(ts: seq<Entry<V>>, now: int, picks: seq<int>)
  {
    IsGreedyFrom(ts, now, None, 0, picks)
  }

  /** The indices the fold turns into records, from index `lo` on. */
  ghost function PicksFrom<V>(ts: seq<Entry<V>>, now: int, last: Option<int>, lo: nat): seq<int>
    requires lo <= |ts|
    decreases |ts| - lo
  {
    if lo == |ts| then []
    else if Eligible(ts[lo], now) && WindowOpen(last, ts[lo].time) then
      [lo] + PicksFrom(ts, now, Some(ts[lo].time), lo + 1)
    else PicksFrom(ts, now, last, lo + 1)
  }

  /** Prepending an eligible entry outside the marker's window to a greedy
      selection that starts from that entry's window gives a greedy
      selection. */
  lemma GreedyCons<V>(ts: seq<Entry<V>>, now: int, last: Option<int>, lo: nat, rest: seq<int>)
    requires lo < |ts| && Eligible(ts[lo], now) && WindowOpen(last, ts[lo].time)
    requires IsGreedyFrom(ts, now, Some(ts[lo].time), lo + 1, rest)
    ensures IsGreedyFrom(ts, now, last, lo, [lo] + rest)
  {
    var t := ts[lo].time;
    var p := [lo] + rest;
    forall a, b | 0 <= a < b < |p|
      ensures p[a] < p[b] && ts[p[a]].time + SixHours <= ts[p[b]].time
    {
      if a == 0 {
        if b > 1 {
          assert ts[rest[0]].time + SixHours <= ts[rest[b - 1]].time;
        }
      } else {
        assert p[a] == rest[a - 1] && p[b] == rest[b - 1];
      }
    }
    forall j | lo <= j < |ts| && Eligible(ts[j], now) && j !in p
      ensures Blocked(ts, last, p, j)
    {
      assert j != lo && j !in rest;
      assert Blocked(ts, Some(t), rest, j);
      if ts[j].time < t + SixHours {
        assert p[0] == lo < j;
      } else {
        var k :| 0 <= k < |rest| && rest[k] < j && ts[j].time < ts[rest[k]].time + SixHours;
        assert p[k + 1] == rest[k];
      }
    }
  }

  /** Corollary of the definition, the converse of `GreedyCons`: a greedy
      selection that picks `lo` first continues with a greedy selection from
      that entry's window. */
  lemma GreedyTail<V>(ts: seq<Entry<V>>, now: int, last: Option<int>, lo: nat, picks: seq<int>)
    requires lo < |ts| && IsGreedyFrom(ts, now, last, lo, picks)
    requires |picks| > 0 && picks[0] == lo
    ensures IsGreedyFrom(ts, now, Some(ts[lo].time), lo + 1, picks[1..])
  {
  }

  /** The fold's picks form a greedy selection. */
  lemma {:induction false} PicksAreGreedy<V>(ts: seq<Entry<V>>, now: int, last: Option<int>, lo: nat)
    requires lo <= |ts|
    ensures IsGreedyFrom(ts, now, last, lo, PicksFrom(ts, now, last, lo))
    decreases |ts| - lo
  {
    if lo == |ts| {
    } else if Eligible(ts[lo], now) && WindowOpen(last, ts[lo].time) {
      PicksAreGreedy(ts, now, Some(ts[lo].time), lo + 1);
      GreedyCons(ts, now, last, lo, PicksFrom(ts, now, Some(ts[lo].time), lo + 1));
    } else {
      PicksAreGreedy(ts, now, last, lo + 1);
    }
  }

  /** Every greedy selection is the fold's: the greedy selection is unique. */
  lemma {:induction false} GreedyIsPicks<V>(ts: seq<Entry<V>>, now: int, last: Option<int>, lo: nat, picks: seq<int>)
    requires lo <= |ts|
    requires IsGreedyFrom(ts, now, last, lo, picks)
    ensures picks == PicksFrom(ts, now, last, lo)
    decreases |ts| - lo
  {
    assert |picks| == 0 || lo <= picks[0] < |ts|;
    assert forall k :: 0 <= k < |picks| ==> picks[0] <= picks[k];
    if lo == |ts| {
    } else if Eligible(ts[lo], now) && WindowOpen(last, ts[lo].time) {
      // `lo` cannot be blocked, so it is picked, and it is the first pick
      assert lo in picks;
      GreedyTail(ts, now, last, lo, picks);
      GreedyIsPicks(ts, now, Some(ts[lo].time), lo + 1, picks[1..]);
      assert picks == [lo] + picks[1..];
    } else {
      // `lo` is not picked, since the first pick opens a window
      assert lo !in picks;
      assert IsGreedyFrom(ts, now, last, lo + 1, picks);
      GreedyIsPicks(ts, now, last, lo + 1, picks);
    }
  }

  /** The fold over `ts[lo..]` yields, in order, the records of the picked
      entries. */
  lemma {:induction false} ForecastFromIsPicks<V>(cmap: ConditionMap, ts: seq<Entry<V>>, now: int, last: Option<int>, lo: nat)
    requires lo <= |ts|
    ensures var p := PicksFrom(ts, now, last, lo);
            var r := ForecastFrom(cmap, ts[lo..], now, last);
            && |r| == |p|
            && forall k :: 0 <= k < |p| ==>
                 lo <= p[k] < |ts| && Eligible(ts[p[k]], now) && r[k] == MakeRecord(cmap, ts[p[k]])
    decreases |ts| - lo
  {
    if lo < |ts| {
      assert ts[lo..][0] == ts[lo] && ts[lo..][1..] == ts[lo + 1..];
      ForecastFromIsPicks(cmap, ts, now, last, lo + 1);
      ForecastFromIsPicks(cmap, ts, now, Some(ts[lo].time), lo + 1);
    }
  }

  /** The forecast is exactly the records of the greedy selection: every
      greedy selection `picks` has one record per pick, in pick order, built
      from the picked entry. */
  lemma ForecastIsGreedySelection<V>(cmap: ConditionMap, ts: seq<Entry<V>>, now: int, picks: seq<int>)
    requires IsGreedy(ts, now, picks)
    ensures |Forecast(cmap, ts, now)| == |picks|
    ensures forall k :: 0 <= k < |picks| ==>
              0 <= picks[k] < |ts| && ts[picks[k]].nextSixHours.Some?
              && Forecast(cmap, ts, now)[k] == MakeRecord(cmap, ts[picks[k]])
  {
    GreedyIsPicks(ts, now, None, 0, picks);
    ForecastFromIsPicks(cmap, ts, now, None, 0);
    assert ts[0..] == ts;
  }

  /** A greedy selection always exists. */
  lemma GreedySelectionExists<V>(ts: seq<Entry<V>>, now: int)
    ensures exists picks :: IsGreedy(ts, now, picks)
  {
    PicksAreGreedy(ts, now, None, 0);
    assert IsGreedy(ts, now, PicksFrom(ts, now, None, 0));
  }
}
