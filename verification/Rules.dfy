/** Rules of the analyzer: thresholds, scripts, forecasts and Kolmogorov-Smirnov windows.

`Rule` is the object whose sliding window is updated in place; `RuleStep` is the function its
`Evaluate` is proved against. The theorems relate the bounded window to the whole history of accepted
values, and say when windowed rules fire on periodic and constant streams. */
module Rules {
  import opened Wrappers
  import opened Ecdf
  import opened Conditions
  import opened MlInference
  import KsTest
  import opened Text
  import opened Exponential

  datatype RuleType = Threshold | Lua | Ml | Ks

  datatype Metric = Metric(id: int, agentID: string, name: string, value: real, timestamp: int)

  datatype RuleConfig = RuleConfig(
    name: string, metric: string, agentID: string, ruleType: RuleType,
    condition: string, script: string, severity: string,
    seasonalityPeriod: int, referenceWindow: int, significanceLevel: real, minWindowSize: int)

  datatype Anomaly = Anomaly(
    rule: string, metric: string, metricID: int, value: real, condition: string, severity: string,
    timestamp: int, message: string, agentID: string, service: string,
    forecast: real, lowerCI: real, upperCI: real)

  /** What rules call outside the service: the exponential, the script sandbox and the training
      service. A script or service that fails, or does not trigger, answers None. The training service
      sees the metric, so its answers and failures may differ from call to call. */
  datatype Env = Env(
    exp: real -> real,
    lua: (string, Metric) -> Option<string>,
    ml: (string, seq<real>, Metric) -> Option<Verdict>)

  /** A constructed rule: its configuration and, for thresholds, the parsed condition. */
  datatype RuleDef = RuleDef(cfg: RuleConfig, check: Comparison)

  datatype FactoryError = BadCondition(error: ParseError) | NoScript | NoEvaluator

  function RuleFactory(parseFloat: string -> Option<real>, cfg: RuleConfig, hasEvaluator: bool): Result<RuleDef, FactoryError> {
    var unused := Comparison(Eq, 0.0);
    match cfg.ruleType
    case Threshold =>
      (match ParseCondition(parseFloat, cfg.condition)
       case Err(e) => Err(BadCondition(e))
       case Ok(c) => Ok(RuleDef(cfg, c)))
    case Lua => if cfg.script == "" then Err(NoScript) else Ok(RuleDef(cfg, unused))
    case Ml => if !hasEvaluator then Err(NoEvaluator) else Ok(RuleDef(cfg, unused))
    case Ks => Ok(RuleDef(cfg, unused))
  }

  /** Which configurations give a rule, and that the rule keeps its configuration. */
  lemma FactoryAccepts(parseFloat: string -> Option<real>, cfg: RuleConfig, hasEvaluator: bool)
    requires NumberSyntax(parseFloat)
    ensures RuleFactory(parseFloat, cfg, hasEvaluator).Ok? <==>
            && (cfg.ruleType == Threshold ==> exists c :: Denotes(parseFloat, cfg.condition, c))
            && (cfg.ruleType == Lua ==> cfg.script != "") && (cfg.ruleType == Ml ==> hasEvaluator)
    ensures forall def :: RuleFactory(parseFloat, cfg, hasEvaluator) == Ok(def) ==>
              def.cfg == cfg && (cfg.ruleType == Threshold ==> Denotes(parseFloat, cfg.condition, def.check))
  {
    hide ParseCondition, Denotes;
    forall c ensures ParseCondition(parseFloat, cfg.condition) == Ok(c) <==> Denotes(parseFloat, cfg.condition, c) {
      ParseConditionExact(parseFloat, cfg.condition, c);
    }
  }

  /** The window parameters the rule constructors demand. */
  predicate WellConfigured(cfg: RuleConfig) {
    && (cfg.ruleType == Ml ==> cfg.seasonalityPeriod >= 0)
    && (cfg.ruleType == Ks ==> cfg.referenceWindow > 0 && cfg.minWindowSize > 0)
  }

  predicate Windowed(cfg: RuleConfig) {
    cfg.ruleType == Ml || cfg.ruleType == Ks
  }

  function WindowSize(cfg: RuleConfig): int {
    if cfg.ruleType == Ml then cfg.seasonalityPeriod + 1
    else if cfg.referenceWindow + cfg.minWindowSize <= 0 then 1
    else cfg.referenceWindow + cfg.minWindowSize
  }

  /** The identifier under which the analyzer asks the training service for the rule's model. */
  function ModelID(cfg: RuleConfig): string {
    (if cfg.agentID == "" then "*" else cfg.agentID) + "__" + Sanitize(cfg.metric)
  }

  function Sanitize(s: string): (r: string)
    ensures |r| == |s|
  {
    seq(|s|, i requires 0 <= i < |s| => if s[i] == '.' || s[i] == '/' then '_' else s[i])
  }

  /** The checks a rule makes before it looks at the value. A script rule does not compare the name. */
  predicate Accepts(cfg: RuleConfig, m: Metric) {
    && (cfg.agentID != "" ==> m.agentID == cfg.agentID)
    && match cfg.ruleType
       case Threshold => m.name == cfg.metric
       case Lua => true
       case Ml => cfg.metric == "" || m.name == cfg.metric
       case Ks => cfg.metric == "" || m.name == cfg.metric
  }

  function Fired(cfg: RuleConfig, m: Metric, condition: string, message: string): Anomaly {
    Anomaly(cfg.name, m.name, m.id, m.value, condition, cfg.severity, m.timestamp, message,
            m.agentID, m.agentID, 0.0, 0.0, 0.0)
  }

  function Significance(cfg: RuleConfig): real {
    if cfg.significanceLevel == 0.0 then 0.05 else cfg.significanceLevel
  }

  /** The verdict on an accepted metric; for windowed rules `window` is full and ends with its value. */
  function Judge(env: Env, def: RuleDef, window: seq<real>, m: Metric): Option<Anomaly>
    requires WellConfigured(def.cfg)
    requires Windowed(def.cfg) ==> |window| == WindowSize(def.cfg)
  {
    var cfg := def.cfg;
    match cfg.ruleType
    case Threshold =>
      if def.check.Holds(m.value) then Some(Fired(cfg, m, cfg.condition, cfg.condition)) else None
    case Lua =>
      (match env.lua(cfg.script, m)
       case None => None
       case Some(message) => Some(Fired(cfg, m, cfg.script, message).(agentID := "")))
    case Ml =>
      (match env.ml(ModelID(cfg), window, m)
       case None => None
       case Some(v) =>
         if !v.anomaly then None
         else Some(Fired(cfg, m, "ml_anomaly", "").(forecast := v.forecast, lowerCI := v.lowerCI, upperCI := v.upperCI)))
    case Ks =>
      var ref, cur := window[..cfg.referenceWindow], window[cfg.referenceWindow..];
      if |ref| < 2 || |cur| < 2 then None
      else if KsTest.PValue(env.exp, ref, cur) >= Significance(cfg) then None
      else Some(Fired(cfg, m, "ks_test", "KS-test p-value below significance"))
  }

  function LastN<T>(s: seq<T>, n: nat): seq<T> {
    if |s| <= n then s else s[|s| - n..]
  }

  /** One evaluation: the new window and the verdict. */
  function RuleStep(env: Env, def: RuleDef, buf: seq<real>, m: Metric): (seq<real>, Option<Anomaly>)
    requires WellConfigured(def.cfg)
  {
    if !Accepts(def.cfg, m) then (buf, None)
    else if !Windowed(def.cfg) then (buf, Judge(env, def, [], m))
    else
      var next := LastN(buf + [m.value], WindowSize(def.cfg));
      (next, if |next| < WindowSize(def.cfg) then None else Judge(env, def, next, m))
  }

  class Rule {
    const def: RuleDef
    var windowBuf: seq<real>

    constructor (def: RuleDef)
      ensures this.def == def && windowBuf == []
    {
      this.def := def;
      windowBuf := [];
    }

    method Evaluate(env: Env, m: Metric) returns (a: Option<Anomaly>)
      requires WellConfigured(def.cfg)
      modifies this`windowBuf
      ensures (windowBuf, a) == RuleStep(env, def, old(windowBuf), m)
    {
      var cfg := def.cfg;
      if !Accepts(cfg, m) {
        return None;
      }
      match cfg.ruleType {
        case Threshold => a := EvaluateThreshold(env, m);
        case Lua => a := EvaluateLua(env, m);
        case Ml => a := EvaluateMl(env, m);
        case Ks => a := EvaluateKs(env, m);
      }
    }

    method EvaluateThreshold(ghost env: Env, m: Metric) returns (a: Option<Anomaly>)
      requires def.cfg.ruleType == Threshold
      ensures a == Judge(env, def, [], m)
    {
      if def.check.Holds(m.value) {
        return Some(Fired(def.cfg, m, def.cfg.condition, def.cfg.condition));
      }
      return None;
    }

    method EvaluateLua(env: Env, m: Metric) returns (a: Option<Anomaly>)
      requires def.cfg.ruleType == Lua
      ensures a == Judge(env, def, [], m)
    {
      var answer := env.lua(def.cfg.script, m);
      if answer == None {
        return None;
      }
      var fired := Fired(def.cfg, m, def.cfg.script, answer.value);
      return Some(fired.(agentID := ""));
    }

    /** Appends the value and drops the oldest one if the window would exceed its size. */
    method Slide(value: real, size: nat)
      modifies this`windowBuf
      ensures windowBuf == LastN(old(windowBuf) + [value], size)
    {
      windowBuf := windowBuf + [value];
      if |windowBuf| > size {
        windowBuf := windowBuf[|windowBuf| - size..];
      }
    }

    method EvaluateMl(env: Env, m: Metric) returns (a: Option<Anomaly>)
      requires def.cfg.ruleType == Ml && WellConfigured(def.cfg) && Accepts(def.cfg, m)
      modifies this`windowBuf
      ensures (windowBuf, a) == RuleStep(env, def, old(windowBuf), m)
    {
      var windowSize := def.cfg.seasonalityPeriod + 1;
      Slide(m.value, windowSize);
      if |windowBuf| < windowSize {
        return None;
      }
      var result := env.ml(ModelID(def.cfg), windowBuf, m);
      if result == None || !result.value.anomaly {
        return None;
      }
      var v := result.value;
      var fired := Fired(def.cfg, m, "ml_anomaly", "");
      return Some(fired.(forecast := v.forecast, lowerCI := v.lowerCI, upperCI := v.upperCI));
    }

    method EvaluateKs(env: Env, m: Metric) returns (a: Option<Anomaly>)
      requires def.cfg.ruleType == Ks && WellConfigured(def.cfg) && Accepts(def.cfg, m)
      modifies this`windowBuf
      ensures (windowBuf, a) == RuleStep(env, def, old(windowBuf), m)
    {
      var cfg := def.cfg;
      var maxSize := WindowSize(cfg);
      Slide(m.value, maxSize);
      if |windowBuf| < maxSize {
        return None;
      }
      var refStart := |windowBuf| - cfg.referenceWindow - cfg.minWindowSize;
      var ref := windowBuf[refStart..refStart + cfg.referenceWindow];
      var cur := windowBuf[refStart + cfg.referenceWindow..];
      assert ref == windowBuf[..cfg.referenceWindow];
      if |ref| < 2 || |cur| < 2 {
        return None;
      }
      var pValue := KsTest.KsTest(env.exp, ref, cur);
      var sigLevel := cfg.significanceLevel;
      if sigLevel == 0.0 {
        sigLevel := 0.05;
      }
      if pValue >= sigLevel {
        return None;
      }
      return Some(Fired(cfg, m, "ks_test", "KS-test p-value below significance"));
    }
  }

  // ----- runs -----

  /** The values the rule has accepted from a stream, oldest first. */
  function Accepted(cfg: RuleConfig, ms: seq<Metric>): seq<real> {
    if ms == [] then []
    else Accepted(cfg, ms[..|ms|-1]) + (if Accepts(cfg, ms[|ms|-1]) then [ms[|ms|-1].value] else [])
  }

  /** The window after a stream, starting from an empty one. */
  function BufferAfter(env: Env, def: RuleDef, ms: seq<Metric>): seq<real>
    requires WellConfigured(def.cfg)
  {
    if ms == [] then [] else RuleStep(env, def, BufferAfter(env, def, ms[..|ms|-1]), ms[|ms|-1]).0
  }

  /** The verdict on the last metric of a stream. */
  function VerdictOn(env: Env, def: RuleDef, ms: seq<Metric>): Option<Anomaly>
    requires WellConfigured(def.cfg) && ms != []
  {
    RuleStep(env, def, BufferAfter(env, def, ms[..|ms|-1]), ms[|ms|-1]).1
  }

  /** Feeding a stream to a fresh rule object produces these windows and verdicts. */
  method Feed(env: Env, def: RuleDef, ms: seq<Metric>) returns (verdicts: seq<Option<Anomaly>>)
    requires WellConfigured(def.cfg)
    ensures |verdicts| == |ms|
    ensures forall i :: 0 <= i < |ms| ==> verdicts[i] == VerdictOn(env, def, ms[..i + 1])
  {
    var rule := new Rule(def);
    verdicts := [];
    for k := 0 to |ms|
      invariant |verdicts| == k && rule.def == def
      invariant rule.windowBuf == BufferAfter(env, def, ms[..k])
      invariant forall i :: 0 <= i < k ==> verdicts[i] == VerdictOn(env, def, ms[..i + 1])
    {
      assert ms[..k + 1][..|ms[..k + 1]| - 1] == ms[..k];
      var a := rule.Evaluate(env, ms[k]);
      verdicts := verdicts + [a];
    }
  }

  lemma LastNStep<T>(s: seq<T>, x: T, n: nat)
    requires n > 0
    ensures LastN(LastN(s, n) + [x], n) == LastN(s + [x], n)
  {}

  lemma {:induction false} BufferIsHistory(env: Env, def: RuleDef, ms: seq<Metric>)
    requires WellConfigured(def.cfg) && Windowed(def.cfg)
    ensures BufferAfter(env, def, ms) == LastN(Accepted(def.cfg, ms), WindowSize(def.cfg))
  {
    if ms != [] {
      var before, m := ms[..|ms|-1], ms[|ms|-1];
      BufferIsHistory(env, def, before);
      LastNStep(Accepted(def.cfg, before), m.value, WindowSize(def.cfg));
      assert Accepted(def.cfg, before) + [] == Accepted(def.cfg, before);
    }
  }

  /** The bounded window is exactly the last values of the whole accepted history: one more than a forecast
      rule's period, or as many as both windows of a Kolmogorov-Smirnov rule. */
  lemma WindowIsHistory(env: Env, def: RuleDef, ms: seq<Metric>)
    requires WellConfigured(def.cfg) && Windowed(def.cfg)
    ensures var y := Accepted(def.cfg, ms);
            var w := if def.cfg.ruleType == Ml then def.cfg.seasonalityPeriod + 1 else def.cfg.referenceWindow + def.cfg.minWindowSize;
            BufferAfter(env, def, ms) == if |y| <= w then y else y[|y| - w..]
  {
    hide BufferAfter, Accepted;
    BufferIsHistory(env, def, ms);
  }

  lemma NextWindow(env: Env, def: RuleDef, before: seq<Metric>, m: Metric)
    requires WellConfigured(def.cfg) && Windowed(def.cfg) && Accepts(def.cfg, m)
    ensures LastN(BufferAfter(env, def, before) + [m.value], WindowSize(def.cfg))
            == LastN(Accepted(def.cfg, before) + [m.value], WindowSize(def.cfg))
  {
    BufferIsHistory(env, def, before);
    LastNStep(Accepted(def.cfg, before), m.value, WindowSize(def.cfg));
  }

  /** No verdict before the window is full; after that it is a function of the last values only. */
  lemma VerdictFromHistory(env: Env, def: RuleDef, ms: seq<Metric>)
    requires WellConfigured(def.cfg) && Windowed(def.cfg) && ms != []
    ensures var history, w, m := Accepted(def.cfg, ms), WindowSize(def.cfg), ms[|ms|-1];
            VerdictOn(env, def, ms) ==
            if Accepts(def.cfg, m) && |history| >= w then Judge(env, def, history[|history| - w..], m) else None
    ensures WindowSize(def.cfg) == if def.cfg.ruleType == Ml then def.cfg.seasonalityPeriod + 1
                                   else def.cfg.referenceWindow + def.cfg.minWindowSize
  {
    var before, m := ms[..|ms|-1], ms[|ms|-1];
    if Accepts(def.cfg, m) {
      var history, w := Accepted(def.cfg, ms), WindowSize(def.cfg);
      var next := LastN(BufferAfter(env, def, before) + [m.value], w);
      assert next == LastN(history, w) by { NextWindow(env, def, before, m); }
      if |history| >= w {
        assert next == history[|history| - w..];
      }
    }
  }

  // ----- thresholds -----

  /** A threshold rule fires exactly on the metrics of its scope for which the written comparison
      holds. */
  lemma ThresholdMeaning(parseFloat: string -> Option<real>, env: Env, cfg: RuleConfig, def: RuleDef,
                         c: Comparison, buf: seq<real>, m: Metric)
    requires cfg.ruleType == Threshold && NumberSyntax(parseFloat)
    requires Denotes(parseFloat, cfg.condition, c)
    requires RuleFactory(parseFloat, cfg, false) == Ok(def)
    ensures RuleStep(env, def, buf, m).1.Some?
            <==> m.name == cfg.metric && (cfg.agentID == "" || m.agentID == cfg.agentID) && c.Holds(m.value)
  {
    ParseConditionExact(parseFloat, cfg.condition, c);
  }

  /** From the text of the condition to the anomaly: a threshold rule reports a metric of its name and agent
      exactly if its condition, read as text, says so of the value. */
  lemma ThresholdFires(parseFloat: string -> Option<real>, env: Env, cfg: RuleConfig, def: RuleDef, buf: seq<real>, m: Metric)
    requires cfg.ruleType == Threshold && NumberSyntax(parseFloat) && RuleFactory(parseFloat, cfg, false) == Ok(def)
    ensures RuleStep(env, def, buf, m).1 ==
            if m.name == cfg.metric && (cfg.agentID == "" || m.agentID == cfg.agentID) && Says(parseFloat, cfg.condition, m.value)
            then Some(Anomaly(cfg.name, m.name, m.id, m.value, cfg.condition, cfg.severity, m.timestamp, cfg.condition,
                              m.agentID, m.agentID, 0.0, 0.0, 0.0))
            else None
  {
    hide ParseCondition, Says;
    ParsedSays(parseFloat, cfg.condition, def.check, m.value);
  }

  /** Sign by sign: a rule whose condition is written with any white space around `value`, the sign and a
      literal that reads as t is accepted, and compares values with t as the sign says. */
  lemma ThresholdBySign(parseFloat: string -> Option<real>, env: Env, cfg: RuleConfig, buf: seq<real>, m: Metric,
                        sign: string, w0: string, w1: string, w2: string, literal: string, w3: string, t: real)
    requires cfg.ruleType == Threshold && NumberSyntax(parseFloat)
    requires Blank(w0) && Blank(w1) && Blank(w2) && Blank(w3) && Trimmed(literal) && parseFloat(literal) == Some(t)
    requires cfg.condition == w0 + "value" + w1 + sign + w2 + literal + w3
    requires sign in {">", "<", ">=", "<=", "==", "!="}
    requires m.name == cfg.metric && (cfg.agentID == "" || m.agentID == cfg.agentID)
    ensures RuleFactory(parseFloat, cfg, false).Ok?
    ensures var fires := RuleStep(env, RuleFactory(parseFloat, cfg, false).value, buf, m).1.Some?;
            && (sign == ">" ==> (fires <==> m.value > t)) && (sign == "<" ==> (fires <==> m.value < t))
            && (sign == ">=" ==> (fires <==> m.value >= t)) && (sign == "<=" ==> (fires <==> m.value <= t))
            && (sign == "==" ==> (fires <==> m.value == t)) && (sign == "!=" ==> (fires <==> m.value != t))
  {
    var op := if sign == ">" then Gt else if sign == "<" then Lt else if sign == ">=" then Ge else if sign == "<=" then Le
              else if sign == "==" then Eq else Ne;
    assert OpText(op) == sign;
    assert Parts(cfg.condition, sign, w0, w1, w2, literal, w3);
    assert Spelled(parseFloat, cfg.condition, sign, t);
    SpelledIsParsed(parseFloat, cfg.condition, op, t);
    hide ParseCondition, Spelled;
  }

  // ----- Kolmogorov-Smirnov rules on periodic and constant streams -----

  ghost predicate Periodic(y: seq<real>, p: nat) {
    forall i :: 0 <= i && i + p < |y| ==> y[i] == y[i + p]
  }

  lemma {:induction false} PeriodicMultiple(y: seq<real>, p: nat, k: nat, i: nat)
    requires Periodic(y, p) && i + k * p < |y|
    ensures y[i] == y[i + k * p]
  {
    if k > 0 {
      assert i + k * p == i + (k - 1) * p + p;
      PeriodicMultiple(y, p, k - 1, i);
    }
  }

  /** Adjacent windows of k whole periods hold the same values. */
  lemma AdjacentWindowsEqual(y: seq<real>, p: nat, k: nat, w: nat)
    requires Periodic(y, p) && w == k * p && 2 * w <= |y|
    ensures var window := y[|y| - (w + w)..]; window[..w] == window[w..]
  {
    var start := |y| - 2 * w;
    forall j | start <= j < start + w ensures y[j] == y[j + w] {
      PeriodicMultiple(y, p, k, j);
    }
  }

  /** Which values a Kolmogorov-Smirnov rule compares: with a reference window of R and a current window of C
      values, the newest C accepted values against the R before them, once there are so many and each window
      has two. It reports a metric of its name and agent exactly if their p-value is below the level. */
  lemma KsFiresIff(env: Env, def: RuleDef, ms: seq<Metric>)
    requires WellConfigured(def.cfg) && def.cfg.ruleType == Ks && ms != []
    ensures var y, R, C, m := Accepted(def.cfg, ms), def.cfg.referenceWindow, def.cfg.minWindowSize, ms[|ms|-1];
            VerdictOn(env, def, ms).Some? <==>
            && (def.cfg.metric == "" || m.name == def.cfg.metric) && (def.cfg.agentID == "" || m.agentID == def.cfg.agentID)
            && R >= 2 && C >= 2 && |y| >= R + C
            && KsTest.PValue(env.exp, y[|y| - (R + C)..|y| - C], y[|y| - C..])
               < (if def.cfg.significanceLevel == 0.0 then 0.05 else def.cfg.significanceLevel)
    ensures var verdict, m := VerdictOn(env, def, ms), ms[|ms|-1];
            verdict.Some? ==>
              verdict.value == Anomaly(def.cfg.name, m.name, m.id, m.value, "ks_test", def.cfg.severity, m.timestamp,
                                       "KS-test p-value below significance", m.agentID, m.agentID, 0.0, 0.0, 0.0)
  {
    hide RuleStep, VerdictOn, BufferAfter, Accepted, KsTest.PValue;
    VerdictFromHistory(env, def, ms);
    var y, R, C := Accepted(def.cfg, ms), def.cfg.referenceWindow, def.cfg.minWindowSize;
    if |y| >= R + C {
      var window := y[|y| - (R + C)..];
      assert window[..R] == y[|y| - (R + C)..|y| - C];
      assert window[R..] == y[|y| - C..];
    }
  }

  /** A rule comparing two equal windows of whole periods never fires on a periodic stream. */
  lemma KsSilentOnPeriodicStream(env: Env, def: RuleDef, ms: seq<Metric>, p: nat, k: nat)
    requires IsExp(env.exp) && WellConfigured(def.cfg) && def.cfg.ruleType == Ks && ms != []
    requires def.cfg.referenceWindow == def.cfg.minWindowSize == k * p
    requires 0.0 <= def.cfg.significanceLevel <= 1.0
    requires Periodic(Accepted(def.cfg, ms), p)
    ensures VerdictOn(env, def, ms) == None
  {
    hide RuleStep, VerdictOn, BufferAfter, Accepted, Periodic;
    VerdictFromHistory(env, def, ms);
    var y, w := Accepted(def.cfg, ms), def.cfg.referenceWindow;
    if |y| >= w + w {
      AdjacentWindowsEqual(y, p, k, w);
      var window := y[|y| - (w + w)..];
      hide KsTest.Smirnov, KsTest.Statistic;
      KsTest.PValueOfPermutedWindow(env.exp, window[..w], window[w..]);
    }
  }

  /** On a constant stream the rule fires as soon as its window is full if and only if the p-value of
      its two window sizes alone is below the significance level: the values do not matter. */
  lemma KsOnConstantStream(env: Env, def: RuleDef, ms: seq<Metric>, v: real)
    requires WellConfigured(def.cfg) && def.cfg.ruleType == Ks && ms != []
    requires Accepts(def.cfg, ms[|ms|-1])
    requires forall i :: 0 <= i < |Accepted(def.cfg, ms)| ==> Accepted(def.cfg, ms)[i] == v
    ensures var cfg := def.cfg;
            VerdictOn(env, def, ms).Some? <==>
            && |Accepted(cfg, ms)| >= cfg.referenceWindow + cfg.minWindowSize
            && cfg.referenceWindow >= 2 && cfg.minWindowSize >= 2
            && KsTest.Smirnov(env.exp, KsTest.ConstantStatistic(cfg.referenceWindow, cfg.minWindowSize),
                              cfg.referenceWindow, cfg.minWindowSize) < Significance(cfg)
  {
    hide RuleStep, VerdictOn, BufferAfter, Accepted;
    var y, n, m := Accepted(def.cfg, ms), def.cfg.referenceWindow, def.cfg.minWindowSize;
    VerdictFromHistory(env, def, ms);
    if |y| >= n + m {
      var window := y[|y| - (n + m)..];
      assert window[..n] == KsTest.Repeat(v, n);
      assert window[n..] == KsTest.Repeat(v, m);
      if n >= 2 && m >= 2 {
        KsTest.ConstantPValue(env.exp, v, n, m);
      }
    }
  }

  /** The documented example configuration (60 reference values, 30 current ones, level 0.05) fires on
      every constant stream once its window is full. */
  lemma DocumentedKsRuleFiresOnConstantStream(env: Env, def: RuleDef, ms: seq<Metric>, v: real)
    requires IsExp(env.exp) && def.cfg.ruleType == Ks && ms != []
    requires def.cfg.referenceWindow == 60 && def.cfg.minWindowSize == 30 && def.cfg.significanceLevel == 0.05
    requires Accepts(def.cfg, ms[|ms|-1]) && |Accepted(def.cfg, ms)| >= 90
    requires forall i :: 0 <= i < |Accepted(def.cfg, ms)| ==> Accepted(def.cfg, ms)[i] == v
    ensures VerdictOn(env, def, ms).Some?
  {
    KsOnConstantStream(env, def, ms, v);
    KsTest.ConstantPValueExample(env.exp);
  }

  // ----- forecast rules -----

  /** The training service answers every call for the rule's model, fitted with the rule's period. */
  ghost predicate ServedBy(env: Env, cfg: RuleConfig, model: Model) {
    && model.period == cfg.seasonalityPeriod
    && forall history, m :: env.ml(ModelID(cfg), history, m) == Some(EvaluateAnomaly(model, history, m.value))
  }

  lemma AcceptedEndsWithValue(cfg: RuleConfig, ms: seq<Metric>)
    requires ms != [] && Accepts(cfg, ms[|ms|-1])
    ensures var y := Accepted(cfg, ms); y != [] && y[|y|-1] == ms[|ms|-1].value
  {}

  /** The weighted sum of the newest difference and the difference to the value one period earlier
      exceeds the half-width. */
  predicate CorrectionExceeds(model: Model, y: seq<real>, s: nat)
    requires s >= 1
  {
    |y| > s && Abs(Correction(model, y[|y|-1], y[|y|-2], y[|y|-1-s])) > model.HalfWidth()
  }

  /** The verdict on a full window, read off the history it ends. */
  lemma WindowVerdict(env: Env, def: RuleDef, model: Model, y: seq<real>, m: Metric)
    requires def.cfg.ruleType == Ml && def.cfg.seasonalityPeriod >= 1 && ServedBy(env, def.cfg, model)
    requires |y| > def.cfg.seasonalityPeriod && m.value == y[|y|-1]
    ensures Judge(env, def, y[|y| - (def.cfg.seasonalityPeriod + 1)..], m).Some?
            <==> CorrectionExceeds(model, y, def.cfg.seasonalityPeriod)
  {
    var s := def.cfg.seasonalityPeriod;
    var window := y[|y| - (s + 1)..];
    assert window[|window|-1] == y[|y|-1] && window[|window|-2] == y[|y|-2] && window[0] == y[|y|-1-s];
    FiresIffCorrectionLarge(model, window);
  }

  /** Rule and service together raise an anomaly exactly when the correction of the forecast, computed
      from the whole accepted history, exceeds the half-width. */
  lemma MlFiresIff(env: Env, def: RuleDef, model: Model, ms: seq<Metric>)
    requires def.cfg.ruleType == Ml && def.cfg.seasonalityPeriod >= 1 && ServedBy(env, def.cfg, model)
    requires ms != [] && Accepts(def.cfg, ms[|ms|-1])
    ensures VerdictOn(env, def, ms).Some?
            <==> CorrectionExceeds(model, Accepted(def.cfg, ms), def.cfg.seasonalityPeriod)
  {
    hide Judge, VerdictOn, Correction, ServedBy, Accepts;
    var y := Accepted(def.cfg, ms);
    VerdictFromHistory(env, def, ms);
    if |y| > def.cfg.seasonalityPeriod {
      AcceptedEndsWithValue(def.cfg, ms);
      WindowVerdict(env, def, model, y, ms[|ms|-1]);
    }
  }

  /** The same in plain arithmetic: with S the period, the rule reports a metric of its name and agent exactly
      if it has accepted more than S values and the correction c, computed from the newest, the previous and
      the S-th last of them, lies outside the interval of half-width h. */
  lemma MlFiresExactly(env: Env, def: RuleDef, model: Model, ms: seq<Metric>, c: real, h: real)
    requires def.cfg.ruleType == Ml && def.cfg.seasonalityPeriod >= 1 && ServedBy(env, def.cfg, model) && ms != []
    requires h == model.z * model.residualStd
    requires var y, S := Accepted(def.cfg, ms), def.cfg.seasonalityPeriod;
             |y| > S ==> c == (model.ar + model.ma) * (y[|y|-1] - y[|y|-2])
                              + (model.seasonalAr + model.seasonalMa) * (y[|y|-1] - y[|y|-1-S])
    ensures var y, m := Accepted(def.cfg, ms), ms[|ms|-1];
            VerdictOn(env, def, ms).Some? <==>
            && (def.cfg.metric == "" || m.name == def.cfg.metric) && (def.cfg.agentID == "" || m.agentID == def.cfg.agentID)
            && |y| > def.cfg.seasonalityPeriod && (c > h || -c > h)
  {
    hide Judge, VerdictOn, ServedBy, Accepted;
    var y, S := Accepted(def.cfg, ms), def.cfg.seasonalityPeriod;
    if Accepts(def.cfg, ms[|ms|-1]) {
      MlFiresIff(env, def, model, ms);
      if |y| > S {
        CorrectionIs(model, y[|y|-1], y[|y|-2], y[|y|-1-S], c);
      }
    } else {
      VerdictFromHistory(env, def, ms);
    }
  }

  /** What a forecast rule reports: the metric, and the forecast with its interval. */
  lemma MlReport(env: Env, def: RuleDef, model: Model, ms: seq<Metric>, c: real, h: real)
    requires def.cfg.ruleType == Ml && def.cfg.seasonalityPeriod >= 1 && ServedBy(env, def.cfg, model) && ms != []
    requires VerdictOn(env, def, ms).Some? && |Accepted(def.cfg, ms)| > def.cfg.seasonalityPeriod
    requires h == model.z * model.residualStd
    requires var y, S := Accepted(def.cfg, ms), def.cfg.seasonalityPeriod;
             c == (model.ar + model.ma) * (y[|y|-1] - y[|y|-2]) + (model.seasonalAr + model.seasonalMa) * (y[|y|-1] - y[|y|-1-S])
    ensures var y, m := Accepted(def.cfg, ms), ms[|ms|-1];
            VerdictOn(env, def, ms).value
            == Anomaly(def.cfg.name, m.name, m.id, m.value, "ml_anomaly", def.cfg.severity, m.timestamp, "",
                       m.agentID, m.agentID, y[|y|-1] + c, y[|y|-1] + c - h, y[|y|-1] + c + h)
  {
    hide VerdictOn, Accepted, EvaluateAnomaly, Correction;
    VerdictFromHistory(env, def, ms);
    var y, S, m := Accepted(def.cfg, ms), def.cfg.seasonalityPeriod, ms[|ms|-1];
    var window := y[|y| - (S + 1)..];
    assert window[|window|-1] == y[|y|-1] && window[|window|-2] == y[|y|-2] && window[0] == y[|y|-1-S];
    IntervalAroundCorrection(model, window, m.value);
    CorrectionIs(model, y[|y|-1], y[|y|-2], y[|y|-1-S], c);
  }

  ghost predicate Unanswered(env: Env, id: string, m: Metric) {
    forall history :: env.ml(id, history, m) == None
  }

  /** A forecast rule whose service does not answer stays silent. */
  lemma MlSilentWithoutAnswer(env: Env, def: RuleDef, ms: seq<Metric>)
    requires def.cfg.ruleType == Ml && WellConfigured(def.cfg) && ms != []
    requires Unanswered(env, ModelID(def.cfg), ms[|ms|-1])
    ensures VerdictOn(env, def, ms) == None
  {
    VerdictFromHistory(env, def, ms);
  }

  /** A script rule reports exactly the metrics of its agent for which the script triggers, with the script's
      message. */
  lemma ScriptFires(env: Env, def: RuleDef, buf: seq<real>, m: Metric)
    requires def.cfg.ruleType == Lua
    ensures var verdict := RuleStep(env, def, buf, m).1;
            && (verdict.Some? <==> (def.cfg.agentID == "" || m.agentID == def.cfg.agentID) && env.lua(def.cfg.script, m).Some?)
            && (verdict.Some? ==>
                  verdict.value == Anomaly(def.cfg.name, m.name, m.id, m.value, def.cfg.script, def.cfg.severity, m.timestamp,
                                           env.lua(def.cfg.script, m).value, "", m.agentID, 0.0, 0.0, 0.0))
  {}

  lemma CorrectionExceedsShifted(model: Model, y: seq<real>, z: seq<real>, s: nat, c: real)
    requires s >= 1 && |y| == |z| && forall i :: 0 <= i < |y| ==> z[i] == y[i] + c
    ensures CorrectionExceeds(model, y, s) == CorrectionExceeds(model, z, s)
  {
    if |y| > s {
      CorrectionOfShifted(model, y[|y|-1], y[|y|-2], y[|y|-1-s], c);
    }
  }

  /** Shifting every value of a stream by a constant changes no verdict. */
  lemma MlShiftInvariant(env: Env, def: RuleDef, model: Model, ms: seq<Metric>, ns: seq<Metric>, c: real)
    requires def.cfg.ruleType == Ml && def.cfg.seasonalityPeriod >= 1 && ServedBy(env, def.cfg, model)
    requires ms != [] && ns != [] && Accepts(def.cfg, ms[|ms|-1]) && Accepts(def.cfg, ns[|ns|-1])
    requires |Accepted(def.cfg, ms)| == |Accepted(def.cfg, ns)|
    requires forall i :: 0 <= i < |Accepted(def.cfg, ms)| ==>
               Accepted(def.cfg, ns)[i] == Accepted(def.cfg, ms)[i] + c
    ensures VerdictOn(env, def, ms).Some? <==> VerdictOn(env, def, ns).Some?
  {
    MlFiresIff(env, def, model, ms);
    MlFiresIff(env, def, model, ns);
    CorrectionExceedsShifted(model, Accepted(def.cfg, ms), Accepted(def.cfg, ns), def.cfg.seasonalityPeriod, c);
  }

  /** The trend alone exceeds the half-width. */
  predicate TrendExceeds(model: Model, y: seq<real>, s: nat)
    requires s >= 1
  {
    |y| > s && Abs((model.ar + model.ma) * (y[|y|-1] - y[|y|-2])) > model.HalfWidth()
  }

  lemma CorrectionOnPeriodic(model: Model, y: seq<real>, s: nat)
    requires s >= 1 && Periodic(y, s)
    ensures CorrectionExceeds(model, y, s) <==> TrendExceeds(model, y, s)
    ensures Periodic(y, 1) && model.HalfWidth() >= 0.0 ==> !CorrectionExceeds(model, y, s)
  {
    if |y| > s {
      var n := |y|;
      assert y[n-1-s] == y[n-1-s+s];
      CorrectionOfRepeated(model, y[n-1], y[n-2]);
      if Periodic(y, 1) {
        assert y[n-2] == y[n-2+1];
      }
    }
  }

  /** On a stream with the rule's period the seasonal terms vanish, and a constant stream never fires. */
  lemma MlOnPeriodicStream(env: Env, def: RuleDef, model: Model, ms: seq<Metric>)
    requires def.cfg.ruleType == Ml && def.cfg.seasonalityPeriod >= 1 && ServedBy(env, def.cfg, model)
    requires ms != [] && Accepts(def.cfg, ms[|ms|-1])
    requires Periodic(Accepted(def.cfg, ms), def.cfg.seasonalityPeriod)
    ensures VerdictOn(env, def, ms).Some?
            <==> TrendExceeds(model, Accepted(def.cfg, ms), def.cfg.seasonalityPeriod)
    ensures Periodic(Accepted(def.cfg, ms), 1) && model.HalfWidth() >= 0.0 ==> VerdictOn(env, def, ms).None?
  {
    MlFiresIff(env, def, model, ms);
    CorrectionOnPeriodic(model, Accepted(def.cfg, ms), def.cfg.seasonalityPeriod);
  }
}
