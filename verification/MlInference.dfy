/** The forecast and interval test of the training service. Library numerics are parameters: the normal
    quantile enters as `z`, the fitted coefficients as fields of `Model`. */
module MlInference {
  import opened Ecdf

  datatype Model = Model(ar: real, ma: real, seasonalAr: real, seasonalMa: real,
                         residualStd: real, period: int, z: real)
  {
    function HalfWidth(): real { z * residualStd }
  }

  datatype Verdict = Verdict(anomaly: bool, forecast: real, lowerCI: real, upperCI: real)

  function EvaluateAnomaly(model: Model, history: seq<real>, value: real): Verdict {
    var n := |history|;
    if n < 2 then
      Verdict(false, value, value, value)
    else
      var last, prev := history[n-1], history[n-2];
      var trend := model.ar * (last - prev) + model.ma * (last - prev);
      var seasonal :=
        if model.period > 0 && n > model.period then
          var back := history[n - model.period - 1];
          model.seasonalAr * (last - back) + model.seasonalMa * (last - back)
        else 0.0;
      var forecast := last + trend + seasonal;
      var lower, upper := forecast - model.HalfWidth(), forecast + model.HalfWidth();
      Verdict(value < lower || value > upper, forecast, lower, upper)
  }

  /** The correction the forecast adds to the newest value. */
  function Correction(model: Model, last: real, prev: real, oldest: real): real {
    (model.ar + model.ma) * (last - prev) + (model.seasonalAr + model.seasonalMa) * (last - oldest)
  }

  lemma CorrectionIs(model: Model, last: real, prev: real, oldest: real, c: real)
    requires c == (model.ar + model.ma) * (last - prev) + (model.seasonalAr + model.seasonalMa) * (last - oldest)
    ensures Correction(model, last, prev, oldest) == c
  {}

  /** The interval lies around the newest value plus the correction. */
  lemma IntervalAroundCorrection(model: Model, history: seq<real>, value: real)
    requires model.period >= 1 && |history| == model.period + 1
    ensures var n, v := |history|, EvaluateAnomaly(model, history, value);
            && v.forecast == history[n-1] + Correction(model, history[n-1], history[n-2], history[0])
            && v.lowerCI == v.forecast - model.HalfWidth() && v.upperCI == v.forecast + model.HalfWidth()
            && (v.anomaly <==> value < v.lowerCI || value > v.upperCI)
  {
    var n := |history|;
    Distribute(model.ar, model.ma, history[n-1] - history[n-2]);
    Distribute(model.seasonalAr, model.seasonalMa, history[n-1] - history[0]);
  }

  /** The test on any history, in plain arithmetic: a value is anomalous exactly if there are two values to
      forecast from and it lies further than h from the newest one corrected by c, where the seasonal part of c
      counts only once a whole period lies behind. */
  lemma AnomalyExactly(model: Model, history: seq<real>, value: real, trend: real, seasonal: real, h: real)
    requires h == model.z * model.residualStd
    requires |history| >= 2 ==> trend == (model.ar + model.ma) * (history[|history|-1] - history[|history|-2])
    requires 0 < model.period < |history| ==>
               seasonal == (model.seasonalAr + model.seasonalMa) * (history[|history|-1] - history[|history|-1-model.period])
    requires !(0 < model.period < |history|) ==> seasonal == 0.0
    ensures EvaluateAnomaly(model, history, value).anomaly <==>
            && |history| >= 2
            && (value - history[|history|-1] - trend - seasonal > h || history[|history|-1] + trend + seasonal - value > h)
  {
    var n := |history|;
    if n >= 2 {
      Distribute(model.ar, model.ma, history[n-1] - history[n-2]);
      if 0 < model.period < n {
        Distribute(model.seasonalAr, model.seasonalMa, history[n-1] - history[n-1-model.period]);
      }
    }
  }

  /** When the tested value is the newest of a history of exactly one period plus one, the test depends
      on two differences only, whatever the sign of the half-width. */
  lemma FiresIffCorrectionLarge(model: Model, history: seq<real>)
    requires model.period >= 1 && |history| == model.period + 1
    ensures var n := |history|;
            EvaluateAnomaly(model, history, history[n-1]).anomaly
            <==> Abs(Correction(model, history[n-1], history[n-2], history[0])) > model.HalfWidth()
  {
    hide EvaluateAnomaly, Correction, Model.HalfWidth;
    IntervalAroundCorrection(model, history, history[|history|-1]);
  }

  /** The correction depends on differences only. */
  lemma CorrectionOfShifted(model: Model, last: real, prev: real, oldest: real, c: real)
    ensures Correction(model, last + c, prev + c, oldest + c) == Correction(model, last, prev, oldest)
  {
    assert (last + c) - (prev + c) == last - prev && (last + c) - (oldest + c) == last - oldest;
  }

  /** Where the value one period back is repeated, only the trend is left; where all are, nothing is. */
  lemma CorrectionOfRepeated(model: Model, last: real, prev: real)
    ensures Correction(model, last, prev, last) == (model.ar + model.ma) * (last - prev)
    ensures Correction(model, last, last, last) == 0.0
  {}

  lemma Distribute(a: real, b: real, x: real)
    ensures (a + b) * x == a * x + b * x
  {}
}
