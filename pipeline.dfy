/**
 * The forecasting part of `main`: stop on an empty window, run the
 * random-forest forecast on the temperature column, and label the
 * predictions with hourly timestamps after the last observation.
 */
module Pipeline {
  import opened LagTable
  import opened Forecaster

  /** One hour, in seconds: timestamps are modelled as integer seconds. */
  const Hour: int := 3600

  /** One record of the series window, indexed by its timestamp. */
  datatype Observation = Observation(time: int, temperatureC: real, humidity: real)

  /** What the forecasting part of `main` ends with. */
  datatype Outcome =
    | NoData
    | FitFailed(error: FitError)
    | Forecast(futureIdx: seq<int>, rfPreds: seq<real>)

  /** The `temperature_c` column of the window. */
  function Temperatures(window: seq<Observation>): (col: seq<real>)
    ensures |col| == |window|
    ensures forall i :: 0 <= i < |window| ==> col[i] == window[i].temperatureC
  {
    if window == [] then [] else [window[0].temperatureC] + Temperatures(window[1..])
  }

  /**
   * `[last + timedelta(hours=i+1) for i in range(days)]`: one timestamp per
   * forecast step (none for days <= 0), the first one hour after `last`.
   */
  function FutureIndex(last: int, days: int): (idx: seq<int>)
    ensures |idx| == if days < 0 then 0 else days
    ensures forall i :: 0 <= i < |idx| ==> idx[i] == last + (i + 1) * Hour
    decreases days
  {
    if days <= 0 then [] else [last + Hour] + FutureIndex(last + Hour, days - 1)
  }

  /**
   * The index is strictly increasing with one-hour spacing, and every
   * timestamp lies after the last observation.
   */
  lemma FutureIndexSpacing(last: int, days: int)
    ensures forall i :: 0 <= i < |FutureIndex(last, days)| ==> FutureIndex(last, days)[i] > last
    ensures forall i :: 0 < i < |FutureIndex(last, days)| ==>
              FutureIndex(last, days)[i] - FutureIndex(last, days)[i - 1] == Hour
    ensures forall i, j :: 0 <= i < j < |FutureIndex(last, days)| ==>
              FutureIndex(last, days)[i] < FutureIndex(last, days)[j]
  {
  }

  /**
   * The forecasting part of `main`: an empty window exits before any
   * forecasting; otherwise the random-forest predictions come back paired
   * index by index with the future timestamps.
   */
  method AnalyzeAndForecast(window: seq<Observation>, forecastDays: int, fit: Fitter) returns (o: Outcome)
    ensures o == NoData <==> |window| == 0
    ensures o.FitFailed? <==> 0 < |window| <= LagDepth + 1
    ensures o.Forecast? ==>
              && |o.futureIdx| == |o.rfPreds| == (if forecastDays < 0 then 0 else forecastDays)
              && (forall i :: 0 <= i < |o.futureIdx| ==> o.futureIdx[i] == window[|window| - 1].time + (i + 1) * Hour)
    ensures o.Forecast? ==>
              var table := Table(Temperatures(window));
              && |table| > 0 && |Seed(table)| == LagDepth
              && o.rfPreds == Run(Fitted(fit, table), Seed(table), |o.rfPreds|).preds
  {
    if |window| == 0 {
      return NoData;
    }
    var rf := RfForecast(Temperatures(window), forecastDays, fit);
    if rf.Err? {
      return FitFailed(rf.error);
    }
    var idx := FutureIndex(window[|window| - 1].time, forecastDays);
    return Forecast(idx, rf.value);
  }
}
