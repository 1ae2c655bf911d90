# Weather dashboard core: range planning and multi-source merge

This project models the logic of a Streamlit weather dashboard (`app.py`). The dashboard reads two
Open-Meteo providers. The *archive* provider serves past days up to yesterday. The *forecast*
provider serves a look-back window of `forecast_past_days_max` days (92 by default) and the
future. The model covers:

- `Planner`: `_split_ranges`. A requested day range is split into at most two plans
  `(endpoint, start, end)`: an archive part before the forecast window, then a forecast part.
  Days are integers, and `today` is a parameter in place of `date.today()`.
- `Fetcher`: the loop shared by `fetch_hourly` and `fetch_daily`. It asks each plan's provider
  for rows and skips a response that has no `hourly`/`daily` object or no `time` array. Then it
  merges what came back. The provider request is a function from plan to `Option` of rows.
- `Series`: the merge, `pd.concat(pieces).sort_index()` followed by
  `~index.duplicated(keep="last")`. It is modelled as a stable insertion sort by timestamp,
  then dropping every row whose next neighbour has the same timestamp. The reference is
  `Latest`, a last-wins dictionary built by reading the rows in order.
- `Variables`: the label maps `HOURLY_MAP`/`DAILY_MAP` and the order-preserving filter
  `[MAP[v] for v in show_vars if v in MAP]`. Also `_build_param_list`, the inverse map
  `inv_map` and the relabelling `inv_map.get(x, x)`.
- `Location`: `nice_loc_label`.
- `Text` and `Wrappers` are helpers: Python's `str.join`, single-character `str.split`, and
  `Option`.

Timestamps are integers and row values are an opaque type parameter.

When the range starts in the coverage gap between yesterday and `forecast_earliest`, the code
starts the forecast plan at `forecast_earliest`, so the gap days are not requested.
`SplitRanges` states exactly which days are covered. The gap only exists when
`forecast_past_days_max < 0`.

## Model

| member | source | states |
|---|---|---|
| `Planner.SplitRanges` | app.py:25-49 | Ensures `PlansInside` and `PlansCover`, whose conjunction is `Planned`. At most two plans. Each has `start <= end` and lies inside `[startD, endD]`; `startD > endD` gives none. An archive plan ends no later than yesterday and strictly before `today - forecastPastDaysMax`; a forecast plan starts at or after that day. When there are two plans, archive comes first and the ranges are disjoint. A day is covered iff it is in `[startD, endD]` and not strictly between yesterday and the forecast window's first day, so coverage is exact when `forecastPastDaysMax >= 0`. A range starting inside the forecast window gives one forecast plan for the whole range; a range ending before the window and by yesterday gives one archive plan for the whole range |
| `Planner.PartsInside` | app.py:35-47 | The archive part and the forecast part that `SplitRanges` builds, one after the other, satisfy `PlansInside` |
| `Planner.PartsCover` | app.py:35-47 | The same two parts satisfy `PlansCover`: exactly the requested days outside the gap are covered |
| `Planner.CoveredDaysRequested` | app.py:35-47 | Plans inside the range and out of the gap ask for no day outside `[startD, endD]` and none in the gap |
| `Fetcher.FetchSeries` | app.py:54-84 | The loop over plans, skipping responses without a time axis, then the merge. The result is strictly ascending in time. Its timestamp set equals the set of contributed timestamps. Each result row is the contributed row at the last occurrence of its timestamp in plan order. If nothing was contributed the result is empty |
| `Fetcher.FetchRange` | app.py:52-84 | `fetch_hourly`/`fetch_daily` (app.py:87-113 is the same code), planning with the default window of 92 days. Its ghost plans satisfy the whole planner contract `Planned` of `SplitRanges`. The series is strictly ascending, and every row is the last contributed row for its timestamp. An inverted range gives an empty series |
| `Series.ConcatTimestamps` | app.py:81 | `Concat`, the `pd.concat` of the pieces in plan order, holds a timestamp iff some piece holds it |
| `Series.TimestampsAppend` | app.py:81 | The timestamps of two concatenated pieces are the union of theirs |
| `Series.SortByTime` | app.py:81 | The sort output is ascending by timestamp and is a permutation of its input |
| `Series.Insert` | app.py:81 | Inserting into a sorted sequence keeps it sorted and adds exactly the new row |
| `Series.SortStable` | app.py:81 | The sort is stable: for every timestamp, the rows with that timestamp keep their relative order |
| `Series.SortKeepsLatest` | app.py:81 | Sorting does not change which row is last for any timestamp |
| `Series.DedupLast` | app.py:83 | The output has no repeated timestamp and is strictly ascending. Every row in it is a row of the input |
| `Series.DedupKeepsLatest` | app.py:83 | Dropping duplicates with `keep="last"` keeps exactly the last row of each timestamp |
| `Series.Merge` | app.py:81-83 | The merged series is strictly ascending, and its last-wins dictionary equals that of the concatenated pieces |
| `Series.MergeKeepsLastOccurrence` | app.py:81-83 | The merged timestamp set equals the concatenation's. Each merged row is the concatenation's row at the last index that carries its timestamp |
| `Series.LatestIsLastOccurrence` | app.py:83 | The reference dictionary holds a timestamp iff some row has it, with the values of the last such row |
| `Series.LatestIsLastAt` | app.py:83 | The reference dictionary holds a timestamp iff some row has it, with the values of the last row with that timestamp |
| `Series.LatestAppend` | app.py:81 | Reading two concatenated pieces is reading the first, then letting the second overwrite |
| `Series.LatestKeys` | app.py:81-83 | The dictionary's keys are exactly the rows' timestamps |
| `Series.LatestOfStrictlyAscending` | app.py:83 | A series with distinct timestamps is its own dictionary: each row is what the dictionary holds for its timestamp |
| `Series.StrictlyAscendingUnique` | app.py:81-83 | Two strictly ascending series with the same dictionary are equal, so the merged series is determined by the contributed rows |
| `Series.MergeIdempotent` | app.py:81-83 | Merging a series alone, or together with a copy of itself, gives the series back |
| `Series.LaterPieceWins` | app.py:81-83 | For a timestamp in both pieces, the merged value is the later piece's, so forecast rows win over archive rows |
| `Series.AtAppend` | app.py:81 | Concatenation concatenates the per-timestamp subsequences |
| `Series.DropLast` | app.py:83 | In a strictly ascending series, dropping the last row removes exactly its timestamp from the dictionary |
| `Series.LastIsLargest` | app.py:81 | The last row of a strictly ascending series has its largest timestamp |
| `Series.TimestampsEmpty` | app.py:79-80 | A series has no timestamps iff it is empty |
| `Series.LastIndex` | app.py:83 | The last index with a given timestamp: it has that timestamp and no later row does, or it is -1 when no row has it |
| `Variables.ProviderFields` | app.py:205 | There is one field per known selected label, in selection order: the label's image under the map |
| `Variables.KnownLabels` | app.py:205 | The kept labels are selected labels that the map knows; `KnownLabelsComplete` and `KnownLabelsAppend` state that all of them are kept, in order |
| `Variables.KnownLabelsComplete` | app.py:205 | Every selected label that the map knows is kept |
| `Variables.KnownLabelsAppend` | app.py:205 | The filter distributes over concatenation of selections, so the kept labels are in selection order |
| `Variables.ProviderFieldsAppend` | app.py:205 | The filter distributes over concatenation of selections, so selection order is kept |
| `Variables.UnknownLabelDropped` | app.py:212 | A label missing from the map contributes nothing and changes nothing else |
| `Variables.ProviderFieldsAllKnown` | app.py:205 | When every label is known, the fields are the labels' images, one for one |
| `Variables.BuildParamList` | app.py:22-23 | Gives a result iff every selected label is in the mapping; otherwise `KeyError`, here `None` |
| `Variables.Lookups` | app.py:23 | Defined iff every label is known, and then holds the labels' images in order |
| `Variables.BuildParamListRoundTrip` | app.py:22-23 | For a non-empty selection whose field names contain no comma, splitting the comma-joined list gives back the selected labels' field names (an empty selection joins to `""`, which splits into `[""]`) |
| `Variables.UnknownFieldKept` | app.py:228 | `inv_map.get(x, x)` with the corrected inverse: a column that is no field of either map keeps its name |
| `Variables.InverseRoundTrip` | app.py:227 | `Inverse`, the comprehension `{v: k for k, v in ...}`: for an injective map it sends each label's field back to the label |
| `Variables.InverseKeys` | app.py:227 | `Inverse`, the comprehension `{v: k for k, v in ...}`: a field that no listed label maps to is not a key |
| `Variables.MapsCoverLabels` | app.py:167-185 | Both maps have the same seven labels as keys |
| `Variables.HourlyFieldsDistinct` | app.py:167-175 | No two labels share an hourly field name |
| `Variables.DailyFieldsDistinct` | app.py:177-185 | No two labels share a daily field name |
| `Variables.FieldsDisjoint` | app.py:167-185 | No hourly field name is also a daily field name |
| `Variables.InvMapAsWrittenMissesHourly` | app.py:227-228 | The inverse as written leaves the hourly field `temperature_2m` unrelabelled |
| `Variables.InvMapRoundTrip` | app.py:227-228 | The corrected inverse maps every hourly and every daily field back to its label |
| `Variables.RelabelProviderFields` | app.py:204-228 | With the corrected inverse `InvMap` (not the program's `inv_map`, see Findings): requesting the selected variables at either resolution and relabelling the columns gives back the known selected labels, in order |
| `Location.Present` | app.py:118 | Keeps only non-empty parts. The result is empty iff none is given; the first part, when given, comes first, and the last part, when given, comes last; `PresentOne` and `PresentAppend` pin it down to exactly the given parts, in order |
| `Location.PresentOne` | app.py:118 | A single part is kept iff it is present and non-empty |
| `Location.PresentAppend` | app.py:118 | Filtering distributes over concatenation, so no given part is dropped and the order is kept |
| `Location.NiceLocLabel` | app.py:115-124 | The label is empty iff no part is given. It starts with the name when a name is given and ends with the country when a country is given; `NiceLocLabelSegments` gives its full shape for every place |
| `Location.NiceLocLabelSegments` | app.py:115-124 | For every place, the label is `Segments` joined by " · ": the name if given, the given admin areas joined by ", " if either is given, the country if given; no segment is empty |
| `Location.NiceLocLabelFull` | app.py:115-124 | With all parts: `name · admin1, admin2 · country` |
| `Location.NiceLocLabelNoAdmin` | app.py:117-124 | Without admin areas: `name · country`, with no empty segment |
| `Location.NiceLocLabelOneAdmin` | app.py:117-124 | With only `admin2`: `name · admin2 · country`, with no stray comma |
| `Location.NiceLocLabelNoName` | app.py:116-124 | With no name, only `admin1` given and no country, the label is `admin1` alone, with no leading separator |
| `Text.Join` | app.py:23 | Joining no parts gives `""`, and joining one part gives that part |
| `Text.Split` | app.py:23 | The source never splits; `Split` is the inverse of the join at app.py:23 that the round-trip lemmas use. Gives at least one piece, and no piece contains the separator |
| `Text.SplitJoin` | app.py:23 | For a non-empty list whose parts do not contain the one-character separator, splitting the joined string at that separator gives the list back |
| `Text.JoinSplit` | app.py:23 | Joining the pieces of a split with the same character gives back the string |
| `Text.JoinEnds` | app.py:124 | The first part starts the joined string, and the last part ends it |
| `Text.JoinEmpty` | app.py:124 | Joining non-empty parts gives `""` only when there are no parts |

## Findings

| source | as written | input that shows it | evidently intended | confidence | as-written member | corrected member |
|---|---|---|---|---|---|---|
| app.py:227-228 | `inv_map` inverts `{**HOURLY_MAP, **DAILY_MAP}`. Both maps have the same seven keys, so the merged dictionary holds only the daily field names | Hourly view: the column `temperature_2m` is relabelled by `inv_map.get(x, x)` to `temperature_2m`, not to `Temperature (°C)` | Every field of either map is relabelled to its label: invert both maps and combine the inverses | high (not executed) | `Variables.InvMapAsWrittenMissesHourly` | `Variables.InvMapRoundTrip` |

## Left out

- Streamlit UI: sidebar, widgets, metrics, map, charts, table and CSV download (app.py:7, 128-243). These are presentation only.
- `geocode_name` and every `requests.get`, with its timeout and `raise_for_status` (app.py:12-20, 69-71, 100-102). These are network I/O. A response is an input to the model. A transport error aborts the Python fetch, and the model has no such path.
- `st.cache_data` memoisation (app.py:11, 51, 86). It is library caching.
- pandas parsing: `pd.DataFrame`, `pd.to_datetime`, `set_index` and `melt` (app.py:75-77, 105-107, 224). Timestamps are integers. A row's values are opaque, so misaligned arrays and parse failures are not modelled.
- Numeric weather values (floats), the `timezone` parameter and the request's query string (app.py:57-64, 91-98). These are foreign data and I/O.
- `date.today()` (app.py:29). `today` is a parameter instead.
- Series.SortByTime: pandas `sort_index` does not promise a stable sort by default. The model uses a stable sort, because `keep="last"` shows that the later plan is meant to win.
- The dictionary order in the `inv_map` comprehension is modelled by the label list (both maps list the labels in the same order). The inverse of a non-injective map is not modelled further, because the maps are injective.
