/** The provider's timeseries entries and the forecast records built from
    them. Measurement values are only ever copied, never computed on, so
    they are an opaque type parameter `V`. Times are whole seconds on one
    UTC time line. */
module Timeseries {
  import opened Wrappers

  /** Six hours in seconds: the length of one forecast window. */
  const SixHours: int := 6 * 60 * 60

  /** The `instant.details` block: readings at the entry's own time. */
  datatype InstantDetails<V> = InstantDetails(
    airTemperature: V,
    airPressureAtSeaLevel: V,
    relativeHumidity: V,
    windSpeed: V,
    windFromDirection: V)

  /** The `next_6_hours.details` block. The probability of precipitation is
      an optional key of that block: `None` when the provider omits it. */
  datatype SixHourDetails<V> = SixHourDetails(
    airTemperatureMax: V,
    airTemperatureMin: V,
    precipitationAmount: V,
    probabilityOfPrecipitation: Option<V>)

  /** The `next_6_hours` block: its summary's symbol code and its details. */
  datatype NextSixHours<V> = NextSixHours(symbolCode: string, details: SixHourDetails<V>)

  /** One timeseries entry: its parsed time, its instant readings, and the
      optional `next_1_hours` symbol code and `next_6_hours` block. */
  datatype Entry<V> = Entry(
    time: int,
    instant: InstantDetails<V>,
    nextHourSymbol: Option<string>,
    nextSixHours: Option<NextSixHours<V>>)

  /** One forecast record: a 6-hour window anchored at `time`. */
  datatype Record<V> = Record(
    time: int,
    condition: string,
    temperature: V,
    templow: V,
    precipitation: V,
    precipitationProbability: Option<V>,
    pressure: V,
    windBearing: V,
    windSpeed: V)
}
