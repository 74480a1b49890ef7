/** The weather entity's state across updates: the published forecast list
    and the first timeseries entry (the current conditions), and the
    `condition` property read from that entry. */
module WeatherEntity {
  import opened Wrappers
  import opened Conditions
  import opened Timeseries
  import opened Bucketing

  /** What the entity publishes. Both parts are unset until an update
      reaches them. */
  datatype Entity<V> = Entity(forecast: Option<seq<Record<V>>>, firstEntry: Option<Entry<V>>)

  /** The entity as constructed, before any update. */
  function Initial<V>(): Entity<V>
  {
    Entity(None, None)
  }

  /** Outcome of fetching the forecast document: its timeseries, or the
      fetcher's not-found failure on a non-200 response. */
  datatype Fetched<V> = Timeseries(entries: seq<Entry<V>>) | NotFound

  /** Why an update did not complete. */
  datatype UpdateError =
    | FetchFailed      // the fetch raised; nothing was changed
    | EmptyTimeseries  // reading the first entry of an empty timeseries failed

  /** One update cycle at time `now`. A failed fetch leaves the entity as it
      was. Otherwise the forecast list is rebuilt and published first, and
      only then is the first entry read: on an empty timeseries the update
      fails with the forecast already replaced by the empty list and the old
      current conditions kept. */
  function Update<V>(cmap: ConditionMap, prev: Entity<V>, fetched: Fetched<V>, now: int): (r: (Entity<V>, Option<UpdateError>))
    ensures fetched.NotFound? ==> r.0 == prev && r.1 == Some(FetchFailed)
    ensures fetched.Timeseries? ==> r.0.forecast == Some(Forecast(cmap, fetched.entries, now))
    ensures r.1.None? <==> fetched.Timeseries? && |fetched.entries| > 0
    ensures r.1.None? ==> r.0.firstEntry == Some(fetched.entries[0])
    ensures fetched.Timeseries? && |fetched.entries| == 0 ==>
              r.0.forecast == Some([]) && r.0.firstEntry == prev.firstEntry && r.1 == Some(EmptyTimeseries)
  {
    match fetched
    case NotFound => (prev, Some(FetchFailed))
    case Timeseries(ts) =>
      var published := Entity(Some(Forecast(cmap, ts, now)), prev.firstEntry);
      if |ts| == 0 then (published, Some(EmptyTimeseries))
      else (published.(firstEntry := Some(ts[0])), None)
  }

  /** The `condition` property: the first entry's `next_1_hours` symbol,
      normalised. `None` stands for the lookup failing: no first entry yet,
      or a first entry without a `next_1_hours` block. */
  function Condition<V>(cmap: ConditionMap, ent: Entity<V>): (r: Option<string>)
    ensures r.Some? <==> ent.firstEntry.Some? && ent.firstEntry.value.nextHourSymbol.Some?
    ensures r.Some? ==>
              var code := ent.firstEntry.value.nextHourSymbol.value;
              && (forall i :: FirstListing(cmap, i, code) ==> r.value == cmap[i].0)
              && ((forall i :: 0 <= i < |cmap| ==> code !in cmap[i].1) ==> r.value == code)
  {
    match ent.firstEntry
    case None => None
    case Some(e) =>
      match e.nextHourSymbol
      case None => None
      case Some(code) => Some(FormatCondition(cmap, code))
  }

  /** The entity after a run of update cycles, each given by its fetch
      outcome and its clock reading. A failed cycle keeps whatever state its
      update left; nothing else carries over between cycles. */
  function RunCycles<V>(cmap: ConditionMap, start: Entity<V>, cycles: seq<(Fetched<V>, int)>): Entity<V>
    decreases |cycles|
  {
    if |cycles| == 0 then start
    else RunCycles(cmap, Update(cmap, start, cycles[0].0, cycles[0].1).0, cycles[1..])
  }

  /** Running two batches of cycles one after the other is running their
      concatenation. */
  lemma {:induction false} RunCyclesAppend<V>(cmap: ConditionMap, start: Entity<V>,
                                              first: seq<(Fetched<V>, int)>, second: seq<(Fetched<V>, int)>)
    ensures RunCycles(cmap, start, first + second) == RunCycles(cmap, RunCycles(cmap, start, first), second)
    decreases |first|
  {
    if |first| > 0 {
      assert (first + second)[0] == first[0];
      assert (first + second)[1..] == first[1..] + second;
      RunCyclesAppend(cmap, Update(cmap, start, first[0].0, first[0].1).0, first[1..], second);
    } else {
      assert first + second == second;
    }
  }

  /** Cycles whose fetch fails leave the published state untouched: stale
      data stays visible. */
  lemma {:induction false} FailedFetchesKeepState<V>(cmap: ConditionMap, start: Entity<V>, cycles: seq<(Fetched<V>, int)>)
    requires forall i :: 0 <= i < |cycles| ==> cycles[i].0.NotFound?
    ensures RunCycles(cmap, start, cycles) == start
    decreases |cycles|
  {
    if |cycles| > 0 {
      FailedFetchesKeepState(cmap, start, cycles[1..]);
    }
  }

  /** Until a fetch succeeds nothing is published and reading the current
      condition fails, whatever the condition table. */
  lemma {:induction false} NothingBeforeFirstFetch<V>(cmap: ConditionMap, cycles: seq<(Fetched<V>, int)>)
    requires forall i :: 0 <= i < |cycles| ==> cycles[i].0.NotFound?
    ensures RunCycles(cmap, Initial(), cycles).forecast.None?
    ensures Condition(cmap, RunCycles(cmap, Initial(), cycles)).None?
  {
    FailedFetchesKeepState(cmap, Initial(), cycles);
  }

  /** The last fetch that succeeded decides what is published: from any
      earlier state `prev`, its forecast list computed at its own clock
      reading and, when its timeseries is non-empty, its first entry; nothing
      of `prev` is merged in. An empty timeseries publishes an empty list and
      keeps the first entry of `prev`. */
  lemma LastFetchDecides<V>(cmap: ConditionMap, prev: Entity<V>, ts: seq<Entry<V>>, now: int,
                            after: seq<(Fetched<V>, int)>)
    requires forall i :: 0 <= i < |after| ==> after[i].0.NotFound?
    ensures |ts| > 0 ==>
              RunCycles(cmap, prev, [(Timeseries(ts), now)] + after) == Entity(Some(Forecast(cmap, ts, now)), Some(ts[0]))
    ensures |ts| == 0 ==>
              RunCycles(cmap, prev, [(Timeseries(ts), now)] + after) == Entity(Some([]), prev.firstEntry)
  {
    assert ([(Timeseries(ts), now)] + after)[0] == (Timeseries(ts), now);
    assert ([(Timeseries(ts), now)] + after)[1..] == after;
    FailedFetchesKeepState(cmap, Update(cmap, prev, Timeseries(ts), now).0, after);
  }
}
