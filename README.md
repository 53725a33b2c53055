# Aurora nowcast core, modelled in Dafny

This project models the processing core of a GeoNet aurora nowcaster for New Zealand
(`GeoNetDataProcessor` in `backend/geonet_data.py`), with the network and the clock
turned into parameters. It covers:

- **Static configuration** (`Config`). This is the station registry, the base dB/dt
  thresholds (20 and 50 nT/min) and the five regions with their threshold multipliers.
- **dB/dt computation** (`DbDt`). A parsed table of (timestamp, value) rows becomes the
  series |Δvalue / Δminutes|. The first entry is undefined (pandas' leading NaN). The
  result is the maximum of the defined entries among the last 15, with 0.0 for fewer
  than two rows, for a table without a `value` column, and for an undefined maximum.
  With every reading present (rows carry no NaN values), that last case cannot arise.
- **Regional classification** (`Aurora`). For every region, the thresholds are the base
  thresholds times the region multiplier. The peak is the maximum of 0.0 and the values
  of every station in the registry. The level is 0/1/2 with its status text and colour,
  and the contributing stations are listed in input order.
- **File choice and row windowing** (`KeySelect`, `Fetch`). Listed object keys are kept
  when they contain one of the recent "YYYY-MM" month strings. The survivors are sorted,
  and the last one is the latest file. Its rows are sorted by timestamp and, for windows
  shorter than 24 hours, cut at `now - hours_back` hours.

Modelling choices:

- Numbers are exact `real`s. An undefined (NaN) series entry is `Option.None`.
- Timestamps are seconds, so a time step in minutes is the difference divided by 60.
- `calculate_dbdt` requires that a timestamp column strictly increases (`DbDt.WellFormed`).
  This rules out pandas' division by zero. `Fetch.PrepareFrameWellFormed` shows that any
  table whose timestamps do not repeat meets this requirement once it is sorted and cut.
- The listing call, the download and the CSV parse are parameters:
  - a `KeySelect.Listing` value stands for the listing: keys, no `Contents`, or a raised error;
  - a map from key to parsed `DbDt.Frame` stands for the download and parse;
  - the set of recent month strings and the current time `now` are passed in.

Notable behaviours of the code, which the model keeps:

- **No "no data" state.** With no registry station among the inputs, the peak is 0.0 and
  the region shows level 0 (`Aurora.NoValuesGivesNoActivity`).
- **All stations for every region.** Every region uses all known stations, not the
  region's own stations.
- **Single field value.** dB/dt uses one scalar `value` column, not the norm of three
  field components.
- **No gap tolerance.** No sample pair is skipped because of a data gap.
- **Status text.** The text for level 2 is "Strong Activity Detected".

## Model

| member | source | states |
|---|---|---|
| Config.StationRegistry | backend/geonet_data.py:23-54 | the station registry holds exactly the codes AHAM, APIM, EY2M, EYWM and SMHS, all at southern latitudes |
| Config.RegionTable | backend/geonet_data.py:63-84 | the mapping lists five regions; each display name equals the region name; the multiplier strictly falls from Auckland to Stewart Island; the region names are exactly Auckland, Canterbury, Otago, Southland and Stewart Island |
| Config.RegionNames | backend/geonet_data.py:63-84 | the region-name set contains exactly the names of the configured regions |
| Config.RegionNamesDistinct | backend/geonet_data.py:63-84 | no two configured regions share a name (they are dict keys) |
| Config.EffectiveThresholds | backend/geonet_data.py:251-253 | base × multiplier thresholds: ordered (no-activity < possible) exactly when the multiplier is positive; in ratio 20:50; the bases themselves for multiplier 1 |
| Config.ConfiguredThresholdsOrdered | backend/geonet_data.py:57-84 | every configured multiplier is positive, so every region's no-activity threshold is below its possible threshold |
| Config.ConfiguredThresholdValues | backend/geonet_data.py:57-84 | the base thresholds 20 and 50 with the five multipliers give exactly 40/100, 30/75, 24/60, 20/50 and 16/40 |
| DbDt.MinutesBetween | backend/geonet_data.py:221-226 | the time step in minutes is positive; it is the timestamp difference over 60 s, or one minute when there is no timestamp column |
| DbDt.Rate | backend/geonet_data.py:228-230 | each rate \|Δvalue/Δminutes\| is non-negative |
| DbDt.Series | backend/geonet_data.py:219-230 | the rate series has one entry per row; entry 0 is undefined and entry i is the rate between rows i-1 and i |
| DbDt.Tail | backend/geonet_data.py:233 | `tail(k)` keeps the last min(n, k) entries, in order |
| DbDt.MaxDefined | backend/geonet_data.py:234 | the skip-NaN maximum is undefined exactly when every entry is; otherwise it is one of the entries and bounds every defined entry |
| DbDt.Recent | backend/geonet_data.py:233 | the trailing window has min(n, 15) entries |
| DbDt.CalculateDbdt | backend/geonet_data.py:200-236 | the result is never negative, and is 0.0 for fewer than two rows or no value column |
| DbDt.CalculateDbdtIsMaxOfRecent | backend/geonet_data.py:232-236 | once the guards pass, the maximum of the trailing window is defined: with every reading present, the 0.0 fallback for an all-NaN maximum does not apply |
| DbDt.CalculateDbdtBoundsWindow | backend/geonet_data.py:223-234 | the result is at least the rate of every row from max(1, n-15) to n-1 |
| DbDt.CalculateDbdtAttainedInWindow | backend/geonet_data.py:223-234 | the result equals the rate of some row from max(1, n-15) to n-1 |
| DbDt.CalculateDbdtIsWindowMax | backend/geonet_data.py:223-234 | with at least two rows and a value column, the result is exactly the maximum rate over the last 15 differences; position 0 never contributes |
| DbDt.RateWithoutTimestamps | backend/geonet_data.py:224-226 | with no timestamp column each rate is the plain difference \|v[i] - v[i-1]\| (one-minute interval) |
| DbDt.CalculateDbdtDependsOnTrailingRows | backend/geonet_data.py:232-234 | dropping all but the last 16 rows does not change the result |
| DbDt.TwoSamplesOneMinuteApart | backend/geonet_data.py:221-230 | two samples 60 s apart that differ by 10 nT give exactly 10 nT/min |
| Aurora.StatusText | backend/geonet_data.py:267-278 | the status text is "No Activity", "Possible Aurora" or "Strong Activity Detected" exactly when the level is 0, 1 or 2 |
| Aurora.StatusColor | backend/geonet_data.py:267-278 | the colour is #6b7280, #f59e0b or #dc2626 exactly when the level is 0, 1 or 2 |
| Aurora.ClassifyLevel | backend/geonet_data.py:266-278 | level 0 iff peak < no-activity; 1 iff no-activity ≤ peak < possible; 2 iff peak is at least both thresholds |
| Aurora.KnownStations | backend/geonet_data.py:259-264 | the list holds only registry codes and is no longer than the input |
| Aurora.KnownStationsSnoc | backend/geonet_data.py:258-264 | one more input appends its code to the list exactly when the code is registered |
| Aurora.Peak | backend/geonet_data.py:255-263 | the peak is non-negative and bounds every registered station's value; it is 0.0 or some registered station's value |
| Aurora.PeakSnoc | backend/geonet_data.py:258-262 | one more input raises the peak to its value exactly when its code is registered and the value is greater |
| Aurora.PeakAppend | backend/geonet_data.py:255-262 | the peak of concatenated inputs is the larger of the two peaks |
| Aurora.RegionEntry | backend/geonet_data.py:280-289 | a region's entry carries the registered stations' peak, their codes in input order, the region's display name and thresholds base × multiplier; for a positive multiplier its level, text and colour are those the peak and thresholds determine |
| Aurora.ScanStations | backend/geonet_data.py:256-264 | the station loop ends with the peak and the known-station list of all inputs |
| Aurora.ClassifyRegion | backend/geonet_data.py:250-289 | one region's entry is built from its thresholds, the peak, the level mapping and the station list |
| Aurora.RegionEntryFacts | backend/geonet_data.py:250-289 | a configured region's entry has ordered thresholds and a level, text and colour fixed by its peak; it lists the known stations and bounds all their values |
| Aurora.DetermineAuroraStatus | backend/geonet_data.py:238-291 | there is exactly one entry per configured region; each entry is consistent, lists exactly the known stations in input order, and has a peak at least every known value |
| Aurora.LevelMonotone | backend/geonet_data.py:267-278 | the level never decreases as the peak grows |
| Aurora.UnknownStationIgnored | backend/geonet_data.py:259-260 | an input whose code is not in the registry, at any position, changes neither the peak nor the station list |
| Aurora.KnownStationsAppend | backend/geonet_data.py:257-264 | the station list of concatenated inputs is the concatenation of their lists, so input order is kept |
| Aurora.EntriesFacts | backend/geonet_data.py:250-289 | a status map whose entries are built from regions with positive multipliers has only consistent entries, each listing the registered stations and bounding all their values |
| Aurora.KnownStationsMembership | backend/geonet_data.py:259-264 | a code is listed iff it is in the registry and some input carries it |
| Aurora.CanterburyAtForty | backend/geonet_data.py:250-278 | Canterbury (thresholds 30/75) with a peak of 40 is level 1, "Possible Aurora" |
| Aurora.NoValuesGivesNoActivity | backend/geonet_data.py:256-269 | with no inputs every configured region is level 0 with no contributing stations |
| KeySelect.StrLeIff | backend/geonet_data.py:135 | Python's string `<=`: a ≤ b exactly when a is a prefix of b or a has the smaller code point at the first position where they differ |
| KeySelect.StrLeReflexive | backend/geonet_data.py:135 | the string order used by `sorted` is reflexive |
| KeySelect.StrLeTotal | backend/geonet_data.py:135 | the string order is total |
| KeySelect.StrLeTransitive | backend/geonet_data.py:135 | the string order is transitive |
| KeySelect.StrLeAntisymmetric | backend/geonet_data.py:135 | the string order is antisymmetric |
| KeySelect.SortedHeadsEqual | backend/geonet_data.py:135 | two sorted lists with the same elements start with the same key |
| KeySelect.TailMultiset | backend/geonet_data.py:135 | dropping the first key removes exactly one copy of it |
| KeySelect.InsertKeyBounded | backend/geonet_data.py:135 | a lower bound of the inserted key and of every listed key bounds the result |
| KeySelect.InsertKey | backend/geonet_data.py:135 | inserting a key adds exactly that key |
| KeySelect.InsertKeySorted | backend/geonet_data.py:135 | inserting into a sorted key list keeps it sorted |
| KeySelect.SortKeys | backend/geonet_data.py:135 | sorting is a permutation |
| KeySelect.SortKeysSorted | backend/geonet_data.py:135 | sorting yields a sorted list |
| KeySelect.SortedUnique | backend/geonet_data.py:135 | two sorted lists with the same elements are equal, so the model's sort gives what `sorted` gives |
| KeySelect.ContainsIffOccurs | backend/geonet_data.py:132 | `month in key` (`Contains`) holds iff the month occurs at some position of the key |
| KeySelect.IsRecentIff | backend/geonet_data.py:132 | `any(month in key ...)` (`IsRecent`) holds iff some recent month occurs at some position of the key |
| KeySelect.MatchingKeys | backend/geonet_data.py:130-133 | the filter keeps exactly the listed keys that mention a recent month |
| KeySelect.MatchingKeysCounts | backend/geonet_data.py:130-133 | the filter keeps every copy of a recent key and no copy of any other key |
| KeySelect.GetRecentFilesForStation | backend/geonet_data.py:104-139 | the result is sorted and holds exactly the listed keys that mention a recent month; it is empty without `Contents` or when listing fails |
| KeySelect.LatestFile | backend/geonet_data.py:162-163 | the latest file is absent exactly when the list is empty, else an element of it |
| KeySelect.LatestIsGreatest | backend/geonet_data.py:162-163 | the last key of a sorted list is at least every key of it |
| Fetch.InsertRow | backend/geonet_data.py:185 | inserting a row adds exactly that row |
| Fetch.InsertRowSorted | backend/geonet_data.py:185 | inserting into rows sorted by timestamp keeps them sorted |
| Fetch.InsertRowStrict | backend/geonet_data.py:185 | inserting a row with a new timestamp into strictly increasing rows keeps them strictly increasing |
| Fetch.SortByTimestamp | backend/geonet_data.py:185 | sorting by timestamp is a permutation of the rows |
| Fetch.SortByTimestampSorted | backend/geonet_data.py:185 | sorting yields rows in non-decreasing timestamp order |
| Fetch.SortByTimestampStrict | backend/geonet_data.py:185 | rows with distinct timestamps sort into strictly increasing order |
| Fetch.SortOfSortedIsIdentity | backend/geonet_data.py:185 | rows already in timestamp order are left as they are by the stable sort |
| Fetch.SinceCutoff | backend/geonet_data.py:191 | the filter keeps exactly the rows at or after the cutoff |
| Fetch.SinceCutoffCounts | backend/geonet_data.py:191 | the filter keeps every copy of a row at or after the cutoff and no copy of any other row |
| Fetch.SinceCutoffOfSortedIsSuffix | backend/geonet_data.py:185-191 | on sorted rows the cutoff filter removes only a prefix |
| Fetch.AllAtOrAfterCutoffKept | backend/geonet_data.py:191 | sorted rows starting at or after the cutoff are all kept |
| Fetch.SinceCutoffSorted | backend/geonet_data.py:185-191 | the cutoff filter keeps sorted rows sorted |
| Fetch.SinceCutoffStrict | backend/geonet_data.py:185-191 | the cutoff filter keeps strictly increasing rows strictly increasing |
| Fetch.Cutoff | backend/geonet_data.py:189-190 | for a non-negative window the cutoff is not after `now` |
| Fetch.PrepareFrame | backend/geonet_data.py:183-191 | preparing keeps the column flags and leaves a table without timestamps untouched |
| Fetch.PrepareFrameSortedAndCut | backend/geonet_data.py:183-191 | a prepared table with timestamps is sorted; under 24 hours it holds exactly the downloaded rows at or after the cutoff, each as often as downloaded; otherwise it is a permutation of the downloaded rows |
| Fetch.PrepareFrameIdempotent | backend/geonet_data.py:183-191 | preparing an already prepared table changes nothing |
| Fetch.PrepareFrameWellFormed | backend/geonet_data.py:183-191 | a table whose timestamps do not repeat is, after preparation, a valid input of the dB/dt computation |
| Fetch.RecentFiles | backend/geonet_data.py:130-135 | the recent-file list is sorted and holds exactly the listed keys that mention a recent month |
| Fetch.LatestRecentFileIsGreatest | backend/geonet_data.py:156-163 | the chosen latest file is a listed recent key, and no listed recent key is greater |
| Fetch.FetchMagnetometerData | backend/geonet_data.py:141-198 | data is returned iff a latest recent file exists, can be downloaded and has rows; it is then that file's prepared table |

## Left out

- The S3 client, `list_objects_v2` and `get_object` are not modelled. Neither are gzip
  decompression, UTF-8 decoding, `pd.read_csv` and `pd.to_datetime`. These are foreign
  network and library calls; the model takes the listing and the parsed tables as parameters.
- The listing's `MaxKeys=50` cap is not modelled: the listing parameter can be any length.
- The model does not compute `recent_months` from `datetime.now`, and has no unused
  `recent_cutoff`; the month set and `now` are parameters.
- `generate_status_json` is not modelled: random fallback values, synthetic sin/cos demo
  data, `uuid`, ISO timestamps and millisecond times. These depend on clock, randomness or
  floating-point trigonometry.
- `main`, the writing of `status.json`, directory creation, logging and printing are I/O.
- `round(x, 2)` in the output is not modelled: entries hold the exact peak and thresholds.
  In the code the level uses the unrounded peak while `dbdt_value` shows it rounded. For
  example, Southland with a peak of 19.996 is level 0 but shows 20.0, its own threshold.
- IEEE floats, NaN propagation and infinities are not modelled.
  - A float `20 * 1.2` is exactly 24.0 for these constants, as the exact reals are.
  - Division by a zero time step, which gives inf or NaN in pandas, is excluded by
    requiring strictly increasing timestamps.
- DbDt.CalculateDbdt: does not model pandas' index alignment of `mag_diff / time_diff`.
  The model assumes the default 0..n-1 index, which is what a table without a
  timestamp column has.
- Fetch.SortByTimestamp: pandas' default `sort_values` does not promise an order for
  equal timestamps. The model sorts stably, and `Fetch.FetchMagnetometerData`'s contract
  fixes that stable order. Sortedness and permutation hold for every order pandas may pick;
  the exact order of rows with equal timestamps holds only for the model's choice.
- Fetch.FetchMagnetometerData: comparing timezone-naive timestamps with the aware cutoff
  may raise in pandas, taking the error path. Timestamps here are plain numbers, so that
  exception is not modelled.
- Aurora.DetermineAuroraStatus: the result is a map, so the insertion order of the
  Python dict is not captured. The contents of every entry are captured.
- The unused `station_region` lookup and the `color` strings have no properties beyond
  following the level.
- `backend/test_geonet.py`, `backend/explore_s3_new.py` and `setup.py` are not part of
  this model: they are live-network scripts and packaging.
- `tests/test_geonet_processor.py` targets a processor class that is not in this source.
  Its empty-input and single-row checks agree with `DbDt.CalculateDbdt`'s 0.0 guard.
