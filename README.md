# Weather forecaster: lag features, chronological split and iterative forecast

This project models the random-forest forecasting core of `analyze_and_forecast.py`.
The script reads a window of hourly weather observations for one city. It turns the
temperature column into a table of 24 lag features, splits that table into a
training head and a held-out tail, fits a regressor on the head, and then forecasts
`forecast_days` steps. Each step feeds the regressor's own previous predictions back
through a 24-slot buffer. The predictions are labelled with hourly timestamps that
start one hour after the last observation.

Modules:

- `Sequences` (`sequences.dfy`): `Reversed` and its index and append lemmas, helpers.
- `LagTable` (`lag_table.dfy`): a pandas column is a sequence of `Cell`s (a value or
  NaN). It models `shift`, the 24 lag columns and `dropna`, then builds the lag table
  as a sequence of `LagRow`s. It also holds the feature matrix, the target column,
  the `int(len(X)*0.8)` split and the seed row `X.iloc[-1]`. `RowsFrom` is an
  independent reference table, and `DropIncompleteRows` proves the table equal to it.
- `Forecaster` (`forecaster.dfy`): the regressor is a function `Predictor` from a
  feature row to a real, and fitting is a function `Fitter` from `(X_train,
  y_train)` to a `Predictor`. The loop is the method `IterativeForecast`. It keeps
  the feature buffer in an `array<real>`. Each step (`Shifted`) allocates the rolled
  copy (`Roll`, like `np.roll`) and then overwrites slot 0. The method is proved
  against the specification function `Run`. `Feed` is a second specification of the
  buffer: the seed updated once per prediction. Its closed form is `Window`: the
  predictions most recent first, then the seed, cut to 24 slots.
- `Pipeline` (`pipeline.dfy`): the forecasting part of `main`. An empty window
  returns before any forecasting. Otherwise the temperature column is forecast and
  the future time index is built. Timestamps are integer seconds, so one hour is 3600.

Where the design text and the code disagree, the model follows the code:

- The forecast is seeded with `X.iloc[-1]`, the lags of the table's last row. These
  are `y[N-2], ..., y[N-25]`, not the most recent 24 readings: the final observation
  `y[N-1]` is not in the seed (`SeedIsLastRowLags`, `SeedIgnoresFinalObservation`,
  `SeedIsNotMostRecentWindow`).
- The design says a window of exactly 25 readings fits on its single lag row. In the
  code, `int(1*0.8)` is 0, so the training head is empty and the fit raises. The
  model returns `Err(EmptyTrainingSet)` for every window of at most 25 readings.
  That covers the empty table too (`RfForecast`).
- The held-out tail is computed but never used.

The cut `int(m*0.8)` is modelled as `(4*m)/5`. The double nearest 0.8 lies slightly
above 4/5, and the product is rounded to the nearest double, so the truncation never
falls below `(4*m)/5`. For any realistic `m` it never reaches the next integer either.

## Model

| member | source | states |
|---|---|---|
| `LagTable.Shift` | analyze_and_forecast.py:38 | `col.shift(k)` has the column's length; its first k cells are NaN and cell t >= k holds `col[t-k]` |
| `LagTable.CompleteIff` | analyze_and_forecast.py:37-39 | row t has no NaN among `lag_1..lag_24` exactly when t >= 24, and then its lags are `col[t-1], ..., col[t-24]` and its target `col[t]` |
| `LagTable.DropIncompleteStep` | analyze_and_forecast.py:39 | `dropna` drops row t when t < 24 and otherwise keeps it in place, as its lags and target, before the rows after it |
| `LagTable.RowsFromCons` | analyze_and_forecast.py:39-41 | the reference table from step s is the row of step s followed by the reference table from step s+1 |
| `LagTable.DropIncompleteRows` | analyze_and_forecast.py:37-39 | the rows `dropna` keeps from frame row t on are the reference rows of steps max(t,24) through N-1, in chronological order |
| `LagTable.TableRows` | analyze_and_forecast.py:36-41 | a series of length N gives N-24 rows when N > 24 and none otherwise; row j has target `y[j+24]` and `lag_{k+1}` equal to `y[j+23-k]`, so every lag precedes its target and feature 0 is the most recent |
| `LagTable.Features` | analyze_and_forecast.py:40 | `X` has one row per table row, and row i is that row's lags |
| `LagTable.Targets` | analyze_and_forecast.py:41 | `y` has one entry per table row, and entry i is that row's target, aligned with `X` |
| `LagTable.SplitPoint` | analyze_and_forecast.py:43 | the cut is the largest integer c with 5c <= 4m |
| `LagTable.SplitPartition` | analyze_and_forecast.py:43-45 | train followed by test is the whole table, unreordered; the test tail has ceil(m/5) rows, it is non-empty once m >= 1, and the train head is non-empty exactly when m >= 2 |
| `LagTable.SplitAligned` | analyze_and_forecast.py:44-45 | slicing `X` and `y` separately gives the features and targets of the same train rows and of the same test rows |
| `LagTable.SeedIsLastRowLags` | analyze_and_forecast.py:49-51 | for N > 24 the seed has 24 slots, slot i holds `y[N-2-i]`, and it is the reversal of `y[N-25..N-1]` |
| `LagTable.SeedIgnoresFinalObservation` | analyze_and_forecast.py:49-51 | replacing the final observation `y[N-1]` by any value leaves the seed unchanged |
| `LagTable.SeedIsNotMostRecentWindow` | analyze_and_forecast.py:49-51 | for the series 0, ..., 0, 1 of length 25 the seed differs from the 24 most recent readings taken most recent first |
| `Forecaster.RollRightAt` | analyze_and_forecast.py:56 | slot i of `np.roll(s, 1)` holds `s[(i-1) mod len]`, so the last element wraps to the front |
| `Forecaster.RollRightPermutes` | analyze_and_forecast.py:56 | a roll is a permutation of the buffer |
| `Forecaster.Advance` | analyze_and_forecast.py:56-57 | one buffer update keeps the length, puts the prediction in slot 0 and moves slot i-1 to slot i, discarding the oldest lag |
| `Forecaster.WindowAt` | analyze_and_forecast.py:52-57 | slot i of the closed-form buffer holds prediction n-1-i while i is below the number n of predictions, and seed slot i-n after that, so the newest prediction sits in slot 0 |
| `Forecaster.AdvanceWindow` | analyze_and_forecast.py:56-57 | one roll-and-insert update with prediction p turns the closed-form buffer of the predictions so far into that of those predictions followed by p |
| `Forecaster.FeedIsWindow` | analyze_and_forecast.py:52-57 | updating the seed once per prediction, oldest first, yields the closed-form buffer of those predictions |
| `Forecaster.Run` | analyze_and_forecast.py:50-57 | after t iterations there are exactly t predictions and the buffer keeps the seed's length |
| `Forecaster.RunFeeds` | analyze_and_forecast.py:52-57 | after t iterations the loop's buffer is the seed updated once by each prediction made so far |
| `Forecaster.RunWindow` | analyze_and_forecast.py:52-57 | after t iterations the buffer is the closed-form window of the predictions made so far |
| `Forecaster.RunStep` | analyze_and_forecast.py:52-57 | one more iteration leaves every earlier prediction where it was |
| `Forecaster.RunPrefix` | analyze_and_forecast.py:52-54 | later iterations only append: the first t1 predictions never change |
| `Forecaster.SelfFeeding` | analyze_and_forecast.py:52-57 | prediction t is the regressor applied to the window built from predictions 0..t-1 and the seed, so later steps consume earlier predictions, not ground truth |
| `Forecaster.Roll` | analyze_and_forecast.py:56 | returns a fresh array holding `np.roll(a, 1)` |
| `Forecaster.Shifted` | analyze_and_forecast.py:56-57 | returns a fresh array holding the rolled buffer with slot 0 overwritten by the prediction, i.e. one buffer update, leaving the input array as it was |
| `Forecaster.IterativeForecast` | analyze_and_forecast.py:49-58 | returns exactly `steps` predictions (none when steps <= 0), equal to `Run`'s, with each prediction made from the window of the earlier ones |
| `Forecaster.RfForecast` | analyze_and_forecast.py:34-58 | fails exactly when the series has at most 25 readings (empty training head); otherwise it returns `steps` predictions from the regressor fitted on the training head, seeded with the last lag row |
| `Pipeline.Temperatures` | analyze_and_forecast.py:114 | the `temperature_c` column has one entry per observation, in window order |
| `Pipeline.FutureIndex` | analyze_and_forecast.py:122 | the index has `forecast_days` entries (none when negative), and entry i is `last + (i+1)` hours |
| `Pipeline.FutureIndexSpacing` | analyze_and_forecast.py:122 | every index entry lies after the last observation, neighbours are exactly one hour apart, and the index is strictly increasing |
| `Pipeline.AnalyzeAndForecast` | analyze_and_forecast.py:104-122 | an empty window stops before forecasting; a window of 1 to 25 observations ends in the fit failure; otherwise the future index and the forecast have equal length `forecast_days`, index i is one hour per step past the last timestamp, and the predictions are those of the regressor fitted on the temperature lag table |

## Left out

- `sarimax_forecast` and the SARIMAX call in `main`: a statsmodels fit whose results are floating-point; its intervals and failure modes are not modelled.
- `RandomForestRegressor` fitting and prediction: a foreign library. Fitting is the parameter `fit`; the only behaviour modelled is that it raises on an empty training set.
- `dropna` also drops rows with NaN in the other columns of the frame (humidity and so on). The model takes the window as complete records, so only the lag columns can be NaN.
- Floating point: temperatures are `real`; pandas and NumPy float64 arithmetic and NaN propagation in values are not modelled.
- `plot_series`, the forecast plot in `main` and `create_pdf_report`: rendering and file-existence checks, pure I/O.
- Argument parsing in `main`; `forecast_days` is a parameter of any integer value.
- `get_last_n_days`, the window provider, is not part of this model; the window is a given sequence of observations. etl_insert.py and fetch_weather.py (HTTP fetch, database inserts, polling loop) are I/O and left out.
- Timestamps are integer seconds; time zones and the pandas datetime index are not modelled.
- `Pipeline.AnalyzeAndForecast`: an exception from SARIMAX after a successful random-forest forecast is not modelled, so the outcome is the random-forest part only.
