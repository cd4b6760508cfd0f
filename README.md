# AnimeMap front end: colour bucketing and per-country percentages

AnimeMap draws a world map that shows, per country, how many anime titles are
available there. The back end sends a dictionary from location code to count,
one count per group of a `GROUP BY Location` query. The front end reads the
group under the key `Total` as the total (`locations.Total`). It is an
ordinary group: nothing computes it from the other counts or bounds them by
it. From that dictionary the front end:

- builds a colour legend with one bar per count `0..Total`;
- processes every country feature of the map. A country that has a count and
  is not the skipped code `"I T"` gets a record in the `countryColors`
  dictionary: its percentage `Math.round(100 * data / Total)`, the ramp shade
  for that percentage and its display name. The feature is also added to the
  vector source that is drawn;
- labels the bars of a chart of counts with country names. It falls back to
  `"Unknown Territory"` for the code `ZZ` and to the raw code otherwise.

Colours come from an eight-entry table. Each entry is a single colour string
or a ramp of shades. For a ramp of `len` shades, a percentage `d` picks the
shade at `floor(len * d / 100)`, clamped into `[0, len-1]`.

The Dafny model has four modules:

- `Palette` (palette.dfy): the colour table, the shade index and `getColor`.
- `Percent` (percent.dfy): `Math.round` of a non-negative quotient, written
  as integer round-half-up, and the percentage built on it.
- `Legend` (legend.dfy): the legend loop, as a method with loop invariants.
- `Countries` (countries.dfy): the records and the `MapState` class. The
  class holds the module-level `countryColors` map and the vector source,
  modelled as a sequence of features. It
  has the `processFeature` update and the loop over the map's features. The
  module also has the chart-label fallback.

The repository also holds the start of a polygon partitioner and angular
sector classifier for pie-wedge overlays. The classifier (`addPoly`) is
commented out, and the partitioner (`splitPolygon`, `polygonize`,
`filterInside`) only makes single calls into the geometry library. The model
therefore covers the integer colour and percentage logic that the code
actually runs.

Modelling choices:

- Counts are naturals. The total is the count under the `Total` key, and the
  model requires it to be present and positive. A country's count may exceed
  it; its percentage is then at least 100 (possibly exactly 100, as for a
  count of 1001 against a total of 1000), and the colour lookup gives the
  last shade.
- A percentage (`decalage`) is an integer. Every caller passes the result of
  `Math.round`. `getColor` clamps out-of-range values, so `decalage` is an
  `int`, not a `nat`.
- `Math.floor` of `len * d / 100` is Dafny's `/` with a positive divisor.
  `Math.round(100 * data / Total)` is `(200 * data + Total) / (2 * Total)`,
  specified by the interval
  `200*data - Total < 2*Total*p <= 200*data + Total`.
- The first colour entry is the output of the colour-map library (ten
  "autumn" shades, reversed). It is a parameter of the model with ten
  opaque strings.
- A feature is modelled by its code `iso_a2` and its optional `name`. The
  chart label uses `?.name ??`, which also falls back when a record has no
  name.
- The dictionary key order that `Object.keys` produces is a parameter of
  `ChartLabels`: a sequence of keys.

## Model

| member | source | states |
|---|---|---|
| Palette.Colors | index.js:31-52 | the table has eight entries; entry 0 is the ramp of ten shades, entry 2 a ramp of five shades, all others single colours; every ramp is non-empty |
| Palette.ShadeIndex | index.js:56-57 | the shade index always lies in `[0, len-1]`, for any percentage, negative or above 100; for `0 <= d < 100` it is `floor(len*d/100)`, stated as `100k <= len*d < 100(k+1)` |
| Palette.GetColor | index.js:54-58 | a single-colour entry yields that colour whatever the percentage; a ramp entry yields one of its own shades |
| Palette.GetColorRamp | index.js:54-58 | for a ramp: percentage `<= 0` gives the first shade, `>= 100` the last shade, and `[0,100)` the shade at the unclamped bucket |
| Palette.ShadeIndexUnclamped | index.js:56-57 | for `0 <= d < 100` the clamp does nothing: the index equals `floor(len*d/100)` |
| Palette.ShadeIndexAtMostZero | index.js:56-57 | `d <= 0` (including `d = 0`) picks index 0 |
| Palette.ShadeIndexAtLeastHundred | index.js:56-57 | `d >= 100` (including `d = 100`) picks index `len-1` |
| Palette.ShadeIndexMonotone | index.js:56-57 | the shade index does not decrease as the percentage grows |
| Palette.ShadeReached | index.js:27-35 | with at most 100 shades (the ramp has ten), every shade is chosen by some percentage in `[0,100)`, and `ceil(100k/len)` is the smallest such percentage |
| Percent.RoundHalfUp | index.js:111 | the result is the integer nearest to `num/den`, with halves rounded up: `2num - den < 2den*r <= 2num + den` |
| Percent.RoundHalfUpUnique | index.js:111 | no other integer meets that interval, so it fully determines the rounding |
| Percent.Percentage | index.js:277-278 | `p = round(100*data/Total)`, stated as `200data - Total < 2Total*p <= 200data + Total` |
| Percent.PercentageBounds | index.js:277-278 | a count of 0 is 0%, a count equal to the total is 100%, a count no larger than the total is at most 100%, and a count no smaller than the total is at least 100% |
| Percent.PercentageAtMostFull | index.js:277-278 | a count no larger than the total gets a percentage of at most 100 |
| Percent.PercentageAtLeastFull | index.js:277-278 | a count no smaller than the total gets a percentage of at least 100, so its colour is the last shade |
| Percent.PercentageMonotone | index.js:277-278 | a larger count never gets a smaller percentage |
| Legend.EntryAt | index.js:110-113 | reference definition of one legend bar: its length is 1; its colour is the fixed colour when entry 0 is a single colour, and one of the ramp's shades when it is a ramp |
| Legend.BuildLegend | index.js:108-114 | the legend has exactly `Total+1` keys, `0..Total`; entry `i` has bar length 1 and colour `getColor(round(100i/Total), 0)` |
| Legend.LegendEnds | index.js:109-113 | legend entry 0 has the first ramp shade and entry `Total` the last ramp shade |
| Legend.LegendShadesMonotone | index.js:109-111 | when entry 0 is a ramp, bar `i` has the shade at index `ShadeIndex(len, round(100i/Total))`, and that index never decreases from bar `i` to bar `j >= i` |
| Countries.RecordFor | index.js:276-280 | the record written for a counted feature: its percentage is `round(100*data/Total)`, its colour is the entry-0 colour of its own percentage, its name is the feature's name, its percentage is at most 100 when the count is at most the total, and its colour is a ramp shade when entry 0 is a ramp |
| Countries.Processed | index.js:248-281 | without a count, or with code `"I T"`, the dictionary is unchanged. Otherwise the keys become the old keys plus `iso_a2`, every other key keeps its record, and the new record has `decalage = round(100*data/Total)`, the entry-0 colour of that percentage and the feature's name |
| Countries.ProcessedConsistent | index.js:276-280 | if every record's colour is `getColor` of its own percentage, that still holds after processing a feature |
| Countries.ProcessedRecordBounds | index.js:276-280 | a country whose count is at most the total gets a percentage of at most 100; its colour is a shade of the ramp |
| Countries.Kept | index.js:181-184 | the source after loading holds exactly the features that have a count and are not `"I T"`, and no more features than the input has; a one-feature input is kept exactly when that feature is counted |
| Countries.KeptAppend | index.js:182-184 | the kept features of `a + b` are those of `a` followed by those of `b`. With the one-feature case this fixes the modelled source: the counted features in input order, one entry per occurrence |
| Countries.ProcessedAll | index.js:181-184 | reference definition of the dictionary after processing the features in order: no old key is lost, and consistent records stay consistent |
| Countries.ProcessedAllKeys | index.js:181-184 | after loading, the dictionary's keys are the keys it had before plus the codes of the kept features |
| Countries.ProcessedAllRecords | index.js:182-184 | after loading, every kept feature's code maps to a record with that country's percentage and the matching colour |
| Countries.ProcessedAllUntouched | index.js:181-184 | the loop never clears the dictionary: an old record whose code no counted feature carries keeps its value |
| Countries.ProcessedAllLast | index.js:181-184 | a code's record after loading is the record written for the last counted feature with that code, including that feature's name |
| Countries.MapState.constructor | index.js:60 | the dictionary and the source start empty; the colour table is the eight-entry table |
| Countries.MapState.ProcessFeature | index.js:248-282 | the new dictionary is `Processed` of the old one. The feature is appended to the source exactly once when counted, and the source is unchanged otherwise. Record consistency is kept |
| Countries.MapState.LoadFeatures | index.js:181-184 | the source is cleared and then holds `Kept(features)`. The dictionary, which is not cleared, is the old one with every feature processed in order |
| Countries.Label | index.js:191-193 | reference definition of one label: the recorded name, else `"Unknown Territory"` for `ZZ`, else the key |
| Countries.ChartLabels | index.js:190-194 | one label per key, in key order: the recorded name if the country has one, else `"Unknown Territory"` for `ZZ`, else the key itself |
| Countries.LabelAfterProcess | index.js:190-194 | after a counted, named feature is processed, its code is labelled with its name; the labels of every other key are unchanged |

## Left out

- Total: the model requires the `Total` key to be present with a positive count. JavaScript behaves as follows in the other cases, and the model does not cover them:
  - `Total` is zero and a country's count is 0: `0/0` is `NaN`, so `decalage` is `NaN` and the colour lookup returns `undefined`.
  - `Total` is zero and a country's count is positive: `100*data/0` is `Infinity`, so `decalage` is `Infinity`. The clamp `Math.min(Math.max(Infinity, 0), len-1)` gives `len-1`, so the colour is the last shade.
  - `Total` is zero, in the legend: the loop runs once, for `i = 0`, and that entry's colour is `undefined`.
  - `Total` is missing: the legend loop `i <= undefined` runs zero times, so the legend is empty, and every country's percentage is `NaN`, so its colour is `undefined`.
- Percent.RoundHalfUp: floating-point division is assumed exact. For counts of realistic size, `100*data/Total` computed in doubles rounds to the same integer.
- Palette.GetColor: non-integer percentages are not modelled, because every caller passes the result of `Math.round`. An index outside the table throws in JavaScript (`colors[i].length` on `undefined`). An empty ramp does not throw: the clamp gives `-1` and the lookup returns `undefined`. The model requires neither, and the table has no empty ramp.
- Ramp contents: the colour-map library (`colormap`) is not part of this model. Its ten shades are an opaque parameter.
- Vector source: the OpenLayers `source` (a `VectorSource`) is modelled as an append-only sequence, with `clear()` as the empty sequence and `addFeature()` as an append. How the library orders its features, and what it does when the same feature is added twice, are not modelled.
- Feature geometry: features carry only their code and name. Geometry and its one-line calls into the geometry library (`splitPolygon`, `polygonize`, `filterInside`) are not modelled, because their behaviour lives in that library.
- `addPoly`, and the multi-polygon handling in `processFeature`, are commented out in the source and rely on `atan2` and floating-point rotation. They are not modelled.
- OpenLayers layer, style, map and view setup; Chart.js configuration, including the chart's bar colours and the legend tick callback; the GeoJSON `fetch`; the socket connection; and the floating-point zoom and font-size computation: all of these are library glue or rendering. They are not modelled.
- `console.log` in `processFeature` is output only and is not modelled.
- server.js (socket listener and database query) is not part of this model. Its row-to-dictionary loop only produces the `Locations` map the model takes as input.
