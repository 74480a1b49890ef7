# Met.no next-6-hours forecast: the forecast transform

A Dafny model of the one piece of logic in the Home Assistant weather
platform `met_next_6_hours_forecast`: turning the Met.no `locationforecast`
timeseries into a list of 6-hour forecast records, normalising provider
condition codes, and taking the current conditions from the first entry.

- `conditions.dfy` (module `Conditions`): `format_condition`, a first-match
  lookup over the ordered condition table, with pass-through of unknown codes.
- `timeseries.dfy` (module `Timeseries`): timeseries entries (`instant`,
  optional `next_1_hours` symbol, optional `next_6_hours` block with an
  optional probability of precipitation) and forecast records. Measurements
  are an opaque type parameter `V`: they are copied, never computed on.
  Times are integer seconds; six hours is 21600.
- `bucketing.dfy` (module `Bucketing`): the loop of `async_update` as a pure
  fold carrying the start of the last window (`Option<int>`), and the same
  loop written imperatively and proved equal to the fold.
- `selection.dfy` (module `Selection`): an independent, non-recursive
  description of the output as the unique *greedy selection* of entry
  indices, and the proof that the fold produces exactly its records.
- `properties.dfy` (module `ForecastProperties`): consequences stated on the
  records: subsequence of the input with fields copied from the right
  blocks, greedy maximality, the first eligible entry opens the first window.
- `entity.dfy` (module `WeatherEntity`): one update cycle of the entity
  (forecast published, then first entry read), runs of update cycles, and the
  `condition` property.
- `wrappers.dfy` (module `Wrappers`): `Option`.

`now` (one reading of the clock for the whole pass; see "Left out") and the
fetched document are parameters. The condition table (`CONDITIONS_MAP`, defined in `const.py`,
which is not part of this model) is a parameter too: an ordered sequence of
(name, code set) pairs, in the dictionary's insertion order.

`async_update` stores the rebuilt forecast list before it reads
`timeseries[0]`, so an empty timeseries makes the update fail with the
forecast already emptied and the previous current conditions kept
(`WeatherEntity.Update`). Taking `timeseries[0]` as the current conditions
presumes the provider sends entries in time order; the bucketing loop itself
accepts entries in any time order, and the model does not assume one.

## Model

| member | source | states |
|---|---|---|
| `Conditions.FormatCondition` | custom_components/met_next_6_hours_forecast/weather.py:48-53 | a code listed in the table gets the name of the first entry, in table order, whose code set contains it; a code listed nowhere is returned unchanged |
| `Conditions.FormatConditionAppend` | custom_components/met_next_6_hours_forecast/weather.py:50-53 | entries after the first listing entry never decide the name: extending the table at the end keeps every already-listed code's name, and a code the front part does not list is named by the rest alone |
| `Bucketing.ForecastFrom` | custom_components/met_next_6_hours_forecast/weather.py:186-220 | from any window marker, every record is at or after `now`, the first lies outside the marker's window, and each record is at least six hours after every earlier one |
| `Bucketing.Forecast` | custom_components/met_next_6_hours_forecast/weather.py:183-220 | the forecast list holds no record before `now` (an entry at exactly `now` may be kept), records are six hours or more apart and strictly increasing in time for any input order |
| `Bucketing.SkippedEntryIsInert` | custom_components/met_next_6_hours_forecast/weather.py:189-196 | a past entry or one without `next_6_hours` can be removed from anywhere in the timeseries without changing the forecast: it yields no record and does not move the window marker |
| `Bucketing.ComputeForecast` | custom_components/met_next_6_hours_forecast/weather.py:183-220 | the imperative loop (skip past, test the window, skip entries without `next_6_hours`, append and move the marker) computes exactly the fold's forecast list |
| `Selection.PicksAreGreedy` | custom_components/met_next_6_hours_forecast/weather.py:186-220 | the entries the loop turns into records are eligible, in input order, six hours apart, and every eligible entry left out lies inside the window of the marker or of an earlier pick |
| `Selection.GreedyIsPicks` | custom_components/met_next_6_hours_forecast/weather.py:186-220 | any index selection with those greedy properties is exactly the loop's selection, so the greedy selection is unique |
| `Selection.ForecastFromIsPicks` | custom_components/met_next_6_hours_forecast/weather.py:193-220 | the fold yields one record per picked entry, in pick order, each built from its picked entry |
| `Selection.ForecastIsGreedySelection` | custom_components/met_next_6_hours_forecast/weather.py:183-220 | for any greedy selection, the forecast has one record per pick, in order, and each is the record of its picked entry |
| `Selection.GreedySelectionExists` | custom_components/met_next_6_hours_forecast/weather.py:183-220 | every timeseries has a greedy selection |
| `ForecastProperties.ForecastIsSubsequence` | custom_components/met_next_6_hours_forecast/weather.py:186-220 | the records come from increasing entry indices; each copies its own entry's time, the normalised `next_6_hours` symbol, max/min temperature and precipitation from `next_6_hours.details`, pressure and wind from `instant.details`, and a probability of precipitation absent exactly when the details omit it, equal to it otherwise |
| `ForecastProperties.ForecastIsMaximal` | custom_components/met_next_6_hours_forecast/weather.py:193-220 | an entry not in the past that has `next_6_hours` either has its record in the forecast or lies before the time, plus six hours, of a record taken from an earlier entry |
| `ForecastProperties.ForecastFirstRecord` | custom_components/met_next_6_hours_forecast/weather.py:189-220 | the first entry that is not past and has `next_6_hours` always gives the first record |
| `ForecastProperties.ForecastEmptyWithoutEligible` | custom_components/met_next_6_hours_forecast/weather.py:186-196 | when no entry is both current and carries `next_6_hours`, no record is produced |
| `Bucketing.MakeRecord` | custom_components/met_next_6_hours_forecast/weather.py:198-218 | the record of an entry copies, field by field (`CopiesEntry`), its time, its normalised `next_6_hours` symbol, max/min temperature and precipitation amount from `next_6_hours.details`, pressure, wind bearing and wind speed from `instant.details`, and a probability of precipitation absent exactly when the details omit it; `ForecastIsSubsequence` states the same mapping for every record of the forecast |
| `WeatherEntity.NothingBeforeFirstFetch` | custom_components/met_next_6_hours_forecast/weather.py:78-104 | from the constructed entity (no forecast, no first entry), as long as every fetch fails nothing is published and reading the current condition fails, whatever the condition table |
| `WeatherEntity.Update` | custom_components/met_next_6_hours_forecast/weather.py:177-224 | a failed fetch changes nothing; otherwise the forecast is always replaced by the new list; the update succeeds exactly when the timeseries is non-empty, and then the current conditions are its first entry; an empty timeseries fails with the forecast emptied and the old current conditions kept |
| `WeatherEntity.RunCyclesAppend` | custom_components/met_next_6_hours_forecast/weather.py:177-224 | update cycles compose: running two batches in turn is running their concatenation |
| `WeatherEntity.FailedFetchesKeepState` | custom_components/met_next_6_hours_forecast/weather.py:179-181 | cycles whose fetch fails leave the published forecast and current conditions unchanged |
| `WeatherEntity.LastFetchDecides` | custom_components/met_next_6_hours_forecast/weather.py:183-224 | from any earlier state, a successful fetch followed only by failed ones leaves exactly that fetch's forecast at its own clock reading and its first entry, nothing of the earlier state merged in; an empty timeseries publishes an empty list and keeps the earlier first entry |
| `WeatherEntity.Condition` | custom_components/met_next_6_hours_forecast/weather.py:99-104 | the current condition exists exactly when there is a first entry with a `next_1_hours` block, and is that symbol normalised by first match or passed through |

## Left out

- The HTTP fetch (`MetApi.get_complete` in `met_api.py`): network I/O; only its outcome (a timeseries or a not-found failure) enters `WeatherEntity.Update`.
- `hass.async_add_executor_job`, `async_setup_entry` and entity registration: host-framework and async plumbing.
- `datetime.utcnow()`: replaced by the `now` parameter. The source reads the clock afresh for every entry, so its "now" moves forward during the pass; the model uses one instant for the whole pass. The lists differ only for an entry whose time falls between the first clock reading and a later one in the same pass: the source skips it, the model keeps it. `now` stands for the clock rounded up to a whole second, which leaves `time < now` unchanged for whole-second entry times.
- `dt_util.parse_datetime`: ISO 8601 parsing is a library's; entries carry already-parsed integer seconds.
- `time.strftime(...)` of the record time: calendar formatting is a library's; records keep the integer instant. The source prints the wall-clock fields with a fixed `+00:00` suffix, which is right only for UTC inputs; the model assumes UTC inputs.
- `json.dumps` with `serialize_datetime` (the diagnostic JSON attribute), logging, and `SCAN_INTERVAL` with its random 40–49 minute jitter.
- The entity's field accessors (`unique_id`, `name`, `device_info`, `attribution`, units, `native_temperature`, `native_pressure`, `humidity`, `native_wind_speed`, `wind_bearing`, `forecast`, `async_forecast_hourly`): plain projections of the stored state.
- The contents of `CONDITIONS_MAP`: a parameter of the model.
- Measurement values as floats: they are only copied, so they are an opaque type.
- Missing mandatory keys (`instant.details`, `next_6_hours.summary`, the temperature or precipitation keys) raise `KeyError` in the source; the model's datatypes always carry them, so that failure is not modelled.
