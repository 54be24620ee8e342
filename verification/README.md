# Analog temperature search of the weather monitor

This Dafny project models the forecasting core of the lake-shore weather monitor (`phyti1/ds_cde1_wettermonitor`).

The store keeps ten-minute readings from two stations, Tiefenbrunnen and Mythenquai. The forecast takes the last five hours of air temperature and compares them, sample by sample, with the same hours on each day within a week of today in past years. The date of the past window that resembles today most closely is the forecast. Next to that search sits a small classifier. It turns the pressure change over the last five hours into one of four weather icons.

The modules follow the source files:

- `Time` covers `Database.get_time_rounded`, which snaps an instant down to the ten-minute grid. Instants are integer microseconds on a line already normalised to one zone.
- `Frames` holds the shared data shapes:
  - per-station query results;
  - the combined frame, whose rows are tagged with their station;
  - missing readings, written as `None` (a NaN in pandas);
  - the pandas mean, which skips missing values.
- `Database` covers the store layer:
  - `query_all` is a loop concatenating the stations' results;
  - `query_combine` averages the rows at the newest timestamp;
  - `get_data_comparison` is a loop over past years that gathers the ±7-day windows and then sorts them by time.
- `AnalogSearch` is the search that the two forecast classes share:
  - scoring one candidate: 29 samples, where a pair counts only when both timestamps exist, and several stations at one timestamp are averaged;
  - the nested loops that fill the dictionary of positive scores;
  - the `min(..., key=...)` selection.

  It is parameterised by the weighting: recency-weighted `30 - k` in `Prediction.py`, uniform in `Prediciton.py`.
- `Prediction` covers `predict_temp`, which searches years 0 to 7 with recency weights, and `predict_press`.
- `Prediciton` covers `calculate_best_match`, which searches years 1 to `year - 2007` with uniform weights. When no current data exists yet, it calls itself again after an import.

Outcomes that the source signals by raising an exception are modelled as values:

- `Raised(MissingHistory)` is the `AttributeError` on a missing history frame.
- `Raised(NoCandidate)` is the `ValueError` of `min` over an empty dictionary.
- `Raised(RecursionLimit)` is the `RecursionError` of a retry nested deeper than the interpreter allows.
- `NoValidReading` is the `IndexError` of an all-NaN pressure column.

The search is specified by `IsBestMatch`. The forecast date is the key of a candidate in the searched range whose score is a number above zero. No other such candidate scores lower, and every earlier candidate (years, then days ascending) with a score above zero scores strictly higher. `NoneCounts` specifies the opposite outcome: no candidate scores above zero.

## Model

| member | source | states |
|---|---|---|
| Time.RoundDown | lib/Database.py:181-186 | the rounded instant is not later than the input, less than ten minutes earlier, on the ten-minute grid, with minute divisible by ten and zero seconds and microseconds |
| Time.OffsetIsRemainder | lib/Database.py:185 | the amount subtracted (minute mod 10, seconds, microseconds) is exactly the distance to the previous ten-minute mark |
| Time.RoundDownUnique | lib/Database.py:181-186 | any grid instant within the ten minutes ending at `t` is the rounded value, so the rounding is determined |
| Time.RoundDownIdempotent | lib/Database.py:185 | rounding a rounded instant changes nothing |
| Time.RoundDownExample | lib/Database.py:181-186 | 12:07:33 on any day rounds to 12:00:00 |
| Time.RoundDownShift | lib/Prediction.py:28-32 | moving an instant by whole ten-minute steps moves its rounded value by the same amount, so the rounded `now + 7 days` is exactly seven days after the rounded `now` |
| Frames.ColumnIndex | lib/Prediction.py:83 | a column is found exactly when it is among the frame's columns, at a position holding that name |
| Frames.ColumnOfAt | lib/Prediction.py:86-88 | the extracted column holds each row's reading in row order |
| Frames.AtTimeMembers | lib/Prediction.py:53-58 | selecting by timestamp keeps exactly the rows stamped with it |
| Frames.Present | lib/Prediction.py:90 | dropping NaNs leaves nothing exactly when every reading is missing |
| Frames.PresentFrom | lib/Prediction.py:90 | every value left after dropping NaNs is a reading of the column |
| Frames.PresentAppend | lib/Prediction.py:90 | dropping NaNs distributes over concatenation, keeping order |
| Frames.Mean | lib/Database.py:67 | the skipna mean is NaN exactly when every reading is missing |
| Frames.MeanWithin | lib/Database.py:67 | the mean lies within any bounds of the readings it averages |
| Frames.MeanIgnoresMissing | lib/Prediction.py:58 | a missing reading does not move the skipna mean |
| Frames.MeanOfOne | lib/Prediction.py:53-55 | the mean of a single reading is that reading |
| Database.Tag | lib/Database.py:42-43 | tagging keeps one row per sample, in order; row `i` has sample `i`'s time and readings and the measurement's name |
| Database.FlattenLength | lib/Database.py:39-51 | the combined frame (the rows of the frame `query_all` builds) has as many rows as all measurements together |
| Database.FlattenAt | lib/Database.py:41-49 | sample `i` of measurement `j` sits at the position after all earlier measurements' rows, tagged with its measurement |
| Database.FlattenOrigin | lib/Database.py:41-49 | every combined row is some measurement's sample tagged with that measurement |
| Database.QueryAll | lib/Database.py:32-51 | no frame exactly when the query matched no measurement; otherwise the measurements' tagged rows concatenated in result order |
| Database.MaxTime | lib/Database.py:65 | the newest timestamp is one of the rows' and no row is newer |
| Database.Latest | lib/Database.py:65 | the filter keeps exactly the rows stamped with the newest timestamp |
| Database.LatestIsNewest | lib/Database.py:65 | a row is kept exactly when it is in the frame and no row of the frame is newer |
| Database.QueryCombine | lib/Database.py:53-67 | an empty result exactly when there is no frame; otherwise one mean per column |
| Database.CombinedColumn | lib/Database.py:65-67 | a column's mean is NaN exactly when every latest row misses it, and otherwise lies within any bounds of the latest rows' readings |
| Database.CombinedSingleRow | lib/Database.py:65-67 | with one latest row, each mean is that row's reading |
| Database.MaxTimeUnchanged | lib/Database.py:65 | adding older rows on either side leaves the newest timestamp unchanged |
| Database.NoneAtTime | lib/Database.py:65 | rows older than an instant contribute nothing at that instant |
| Database.OlderRowsIgnored | lib/Database.py:64-67 | adding rows older than the newest timestamp, before or after, does not change the combined result |
| Database.MaxTimeIs | lib/Database.py:65 | a timestamp carried by some row and reached by no newer row is the newest timestamp |
| Database.MaxTimeWithout | lib/Database.py:65 | removing one row older than the newest timestamp, at any position, leaves the newest timestamp unchanged |
| Database.AtTimeWithout | lib/Database.py:65 | removing one row with another timestamp leaves the rows at a timestamp unchanged |
| Database.OlderRowIgnored | lib/Database.py:64-67 | removing a single row older than the newest timestamp, wherever it stands in the frame, does not change the combined result |
| Database.YearsBack | lib/Database.py:156 | no past year is searched up to 2007; otherwise the years reach back exactly to 2007 |
| Database.Within | lib/Database.py:169 | a window keeps exactly the samples strictly between its bounds |
| Database.WindowSeries | lib/Database.py:165-171 | every series a window returns is non-empty and lies strictly inside the window |
| Database.FlattenEmpty | lib/Database.py:46-51 | a window result with no series is exactly one with no rows |
| Database.WindowRowsInside | lib/Database.py:158-171 | every row of one year's window is strictly within seven days of that year's date |
| Database.ComparisonInWindows | lib/Database.py:156-175 | every row gathered lies strictly within seven days of one of the past years' dates |
| Database.FlattenHas | lib/Database.py:41-49 | every sample of every series appears in the combined frame, tagged with its series |
| Database.ComparisonSplit | lib/Database.py:156-175 | the gathered rows are the earlier years' rows followed by the last year's window |
| Database.ComparisonHas | lib/Database.py:156-175 | every row of each year's window is among the gathered rows |
| Database.WindowSeriesHas | lib/Database.py:165-171 | a station with samples inside a window yields a series of exactly those samples under its name |
| Database.WindowHas | lib/Database.py:165-171 | a sample strictly inside a window is among the window's rows, tagged with its station |
| Database.ComparisonFromWindow | lib/Database.py:156-175 | a row of the query around the `x`-th past date is gathered |
| Database.ComparisonComplete | lib/Database.py:156-175 | every stored sample strictly within seven days of one of the past years' dates is gathered, tagged with its station |
| Database.Insert | lib/Database.py:177 | inserting into a time-sorted list keeps it sorted and adds exactly that row |
| Database.SortByTime | lib/Database.py:177 | the sorted rows are in ascending time order and a permutation of the input |
| Database.GetDataComparison | lib/Database.py:148-178 | no frame exactly when no window held a row; otherwise the store's columns and all windows' rows, sorted ascending by time |
| AnalogSearch.Weight | lib/Prediction.py:67 | a sample's weight is between 1 and 30; `30 - k` under recency weighting and 1 under uniform weighting |
| AnalogSearch.RecencyFavoursRecent | lib/Prediction.py:67 | recency weights strictly decrease with the sample index and stay at least 2 |
| AnalogSearch.Term | lib/Prediction.py:67 | a sample's contribution is `abs(past - current)` times its weight: never negative, and zero when the two temperatures agree |
| AnalogSearch.Lookup | lib/Prediction.py:51-65 | the definition of one lookup (absent, or the mean of the rows at the timestamp); its properties are the two rows below |
| AnalogSearch.LookupAbsent | lib/Prediction.py:51 | a timestamp counts as absent exactly when no row of the frame carries it |
| AnalogSearch.LookupSingleStation | lib/Prediction.py:53-55 | with one row at a timestamp, its reading is used directly |
| AnalogSearch.Key | lib/Prediction.py:70 | a candidate key for non-negative years and days is not after `now + 7 days` and lies a whole number of days before it |
| AnalogSearch.Pairs | lib/Prediction.py:45-49 | each candidate compares exactly 29 sample pairs |
| AnalogSearch.PairAt | lib/Prediction.py:47-49 | pair `k` is the history reading at the candidate key minus `k` ten-minute steps against the current reading at now minus `k` steps |
| AnalogSearch.Step | lib/Prediction.py:51-67 | one sample makes the score NaN exactly when it already was or the sample has both timestamps with a missing mean; it never lowers a numeric score, and leaves it unchanged when the pair agrees |
| AnalogSearch.Accumulate | lib/Prediction.py:43-67 | the definition of the running score over the samples taken so far; its properties are the rows below |
| AnalogSearch.AccumulateNext | lib/Prediction.py:43-67 | the running score after `k + 1` samples is the score after `k` samples updated by sample `k` |
| AnalogSearch.ScoreNonNegative | lib/Prediction.py:67 | a numeric candidate score is never negative |
| AnalogSearch.AgreementScoresZero | lib/Prediction.py:51-69 | a candidate whose pairs are all absent or equal scores exactly zero |
| AnalogSearch.NaNExactlyWhenPoisoned | lib/Prediction.py:51-67 | a score is NaN exactly when some pair has both timestamps but a missing mean |
| AnalogSearch.KeyInjective | lib/Prediction.py:70 | two candidates with day offsets in 0..13 share a key only if they are the same candidate |
| AnalogSearch.ScoringOfScores | lib/Prediction.py:41-70 | the scoring table of a context gives each candidate's score |
| AnalogSearch.RecordedDaysNext | lib/Prediction.py:42-70 | one more day of the loop appends that day's entry |
| AnalogSearch.RecordedNext | lib/Prediction.py:41-70 | one more year of the loop appends that year's fourteen days |
| AnalogSearch.RecordedEmpty | lib/Prediction.py:41 | an empty year range records nothing |
| AnalogSearch.RecordedDaysExactly | lib/Prediction.py:42-70 | the day loop records exactly the candidates of its days whose score is a number above zero |
| AnalogSearch.RecordedExactly | lib/Prediction.py:41-70 | the dictionary holds exactly the candidates of the range whose score is a number above zero, each under its key |
| AnalogSearch.RecordedDaysOrdered | lib/Prediction.py:42-70 | within a year, entries appear in ascending day order |
| AnalogSearch.RecordedOrdered | lib/Prediction.py:41-70 | the dictionary's insertion order is the enumeration order, years then days ascending |
| AnalogSearch.BestMatchUnique | lib/Prediction.py:72 | at most one date is the best match |
| AnalogSearch.AgreeingCandidateNeverChosen | lib/Prediction.py:69-72 | a candidate with no overlap or a perfect match is never the answer |
| AnalogSearch.AddSample | lib/Prediction.py:51-67 | one sample leaves the score as it is when a timestamp is absent, and otherwise adds its weighted difference, NaN once a mean is missing |
| AnalogSearch.ScoreCandidate | lib/Prediction.py:43-67 | the inner loop computes the candidate's score over all 29 samples |
| AnalogSearch.RecordCandidate | lib/Prediction.py:69-70 | a candidate is added to the dictionary exactly when its score is a number above zero |
| AnalogSearch.SearchYear | lib/Prediction.py:42-70 | the day loop appends that year's recorded candidates in day order |
| AnalogSearch.Search | lib/Prediction.py:41-70 | the year loop builds exactly the dictionary of the whole range, in enumeration order |
| AnalogSearch.FirstMinimal | lib/Prediction.py:72 | the index chosen holds a minimal score, and every earlier entry scores strictly higher |
| AnalogSearch.EmptyRecordMeansNoneCounts | lib/Prediction.py:69-72 | the dictionary is empty exactly when no candidate of the range scores a number above zero |
| AnalogSearch.FirstMinimalIsBestMatch | lib/Prediction.py:72 | the first minimal entry of the dictionary is the best match |
| AnalogSearch.BestMatch | lib/Prediction.py:41-73 | the search raises exactly when no candidate counts, and otherwise returns the best match |
| AnalogSearch.MakeContext | lib/Prediction.py:28-32 | the search compares the given frames through their temperature columns, from the rounded now (on the grid, at most ten minutes before the call) and a date exactly seven days later |
| AnalogSearch.SearchAt | lib/Prediction.py:20-73 | a missing history fails when some year is searched; otherwise the result is the best match or the empty-dictionary error |
| AnalogSearch.AnswersUnique | lib/Prediction.py:41-73 | a search has one answer |
| Prediction.PredictTemp | lib/Prediction.py:13-73 | no forecast exactly when there is no current data; otherwise the answer of the recency-weighted search over years 0 to 7 around the rounded now and now plus seven days |
| Prediction.Icon | lib/Prediction.py:98-109 | the definition of the four icons; the next row proves them distinct |
| Prediction.IconsDistinct | lib/Prediction.py:98-109 | the four icons differ |
| Prediction.Classify | lib/Prediction.py:98-109 | a strong rise above 5 hPa, a rise in (0, 5], a fall in (-5, 0], a strong fall at -5 or below |
| Prediction.ClassifyMonotone | lib/Prediction.py:98-109 | a larger pressure change never gives a worse icon |
| Prediction.FirstOfPresent | lib/Prediction.py:90-92 | the first NaN-free value is the first valid reading in row order |
| Prediction.LastOfPresent | lib/Prediction.py:90-94 | the last NaN-free value is the last valid reading in row order |
| Prediction.PredictPress | lib/Prediction.py:75-109 | the empty string exactly when there is no data or no pressure column; the indexing failure exactly when every pressure reading is missing |
| Prediction.PressTrendFromEnds | lib/Prediction.py:86-109 | otherwise the icon is that of the last valid reading in row order minus the first one; the rows are the stations' series one after the other (lib/Database.py:41-49), so the two readings may come from different stations |
| Prediction.SingleReadingFalls | lib/Prediction.py:92-106 | with one valid reading the difference is zero and the icon is the light-rain one |
| Prediciton.FirstReady | lib/Prediciton.py:12-15 | the first attempt with current data, or none when no attempt has any |
| Prediciton.CalculateBestMatch | lib/Prediciton.py:9-44 | `RecursionError` exactly when none of the attempts the recursion limit allows finds current data and more attempts would follow; pending exactly when no attempt finds current data within that limit; otherwise the answer of the first attempt that does, a uniform-weight search over years 1 to `year - 2007` |
| Prediciton.LaterAttemptsIgnored | lib/Prediciton.py:12-15 | attempts after the first one with current data do not change the result |

## Left out

- The InfluxDB client and `Database.query` (`lib/Database.py:16-30`) are not modelled. The store is the parameter `QueryResult` (the per-station histories). An exception from `client.query` is swallowed into an empty frame, the same as a query that matched nothing. A connection failure in `create_database` (`lib/Database.py:22`, outside the `try`) raises out of every forecast call and is not modelled.
- The zone conversion of the index (`lib/Database.py:44-45`) is not modelled: instants are already normalised.
- The forecast's `now` is the UTC clock value, while `query_all` converts the index to Europe/Berlin local time (`lib/Database.py:44-45`). The model reproduces the source only when `now` is that UTC value placed on the local time line. Then sample 0 reads the reading taken one to two hours before the call, and the newest one to two hours of `get_last_five_hours` are never compared.
- The two `utcnow()` reads of each forecast are not modelled: one `now` parameter stands for both.
- The `strftime` string keys are not modelled. A sample is looked up by its exact instant, and that lookup is the membership test the formatted strings perform.
- Database.GetDataComparison: the calendar arithmetic `date_now.replace(year=...)` is not modelled. The centre of each past year's window is a parameter, one per year offset. The failure of that replacement on 29 February is not modelled either.
- Database.SortByTime: states sortedness and permutation, not the order pandas gives rows with equal timestamps. The in-place `sort_index` is modelled on a value.
- Database.QueryCombine: the `round(1)` of each mean (`lib/Database.py:67`) is not modelled. The means are exact reals.
- The other store queries (`get_last_data`, `get_data_specific_date`, `get_data_year_ago`, `get_last_five_hours`, `lib/Database.py:69-145`) only build query strings around I/O. Their results enter the model as the `history` and `current` frames.
- Prediction.PredictTemp: requires the temperature column in both frames. The source would raise `KeyError` without it, but its queries always select that column.
- Prediciton.CalculateBestMatch: the model takes the finite sequence of attempts the retry makes and answers `Pending` when none of them finds current data. The import between attempts (`sync.import_latest_data`, which returns at once while a synchronisation is running) is outside the model, so each attempt carries the frames it sees. The interpreter's recursion limit is the parameter `depth`, the number of nested calls still allowed; the stack frames the database calls and the import use on top of that are not counted.
- Prediciton.CalculateBestMatch: requires the temperature column only in the frames of the first attempt with current data, the only frames the search reads.
- `Attempt.year` and the `nowYear` of Database.GetDataComparison are free parameters. They are not derived from the instant `now`, because calendar years are not modelled.
- Floating point is not modelled: readings are exact reals. A NaN mean is modelled as a missing mean, and its propagation through the running score is modelled.
- The empty `predict_press` stub of `lib/Prediciton.py:46-50` is not modelled.
- `lib/Frontend.py`, `app.py`, `Main.py`, `lib/Sync.py`, `sync.py` and `internet_check.py` are not part of this model. They hold the user interface, threads, the kiosk browser, the import from the weather service and a connectivity probe.

## Behaviour of the code that a reader may not expect

- `predict_temp` searches years 0 to 7 (lib/Prediction.py:41). This year's candidates find no history, because the comparison data holds only past years.
- The retry on missing current data calls itself with no bound of its own (lib/Prediciton.py:12-15); only the interpreter's recursion limit stops it.
- An empty dictionary makes `min` raise `ValueError` (lib/Prediction.py:72).
- A single valid pressure reading gives a difference of zero and so the light-rain icon, and a column with no valid reading raises `IndexError` (lib/Prediction.py:90-92).
- A perfect match (score zero) is never chosen, exactly like a candidate with no overlap (lib/Prediction.py:69).
