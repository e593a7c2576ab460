/** The protocol together with the rule engine: what threshold rules promise about marked metrics. */
module AnalyzerSafety {
  import opened Wrappers
  import opened Rules
  import opened AnalyzerProtocol
  import opened Chunks
  import opened Conditions
  import opened Selection
  import Engine = RuleEngine

  /** Whatever the rules are, an anomaly names the metric it was found in. */
  lemma EngineStamps(env: Env, defs: seq<RuleDef>, bufs: seq<seq<real>>)
    requires |bufs| == |defs|
    ensures Stamping(Engine.FiredBy(env, defs, bufs))
  {
    hide Engine.EngineStep;
    forall m ensures forall x :: x in Engine.FiredBy(env, defs, bufs)(m) ==> x.metricID == m.id {
      Engine.StepStamps(env, defs, bufs, m);
    }
  }

  lemma {:induction false} FlatMembers(fire: Metric -> seq<Anomaly>, ms: seq<Metric>, x: Anomaly)
    ensures x in Flat(fire, ms) <==> exists k :: 0 <= k < |ms| && x in fire(ms[k])
  {
    if ms != [] {
      var before, m := ms[..|ms|-1], ms[|ms|-1];
      FlatMembers(fire, before, x);
      assert Flat(fire, ms) == Flat(fire, before) + fire(m);
      if exists k :: 0 <= k < |ms| && x in fire(ms[k]) {
        var k :| 0 <= k < |ms| && x in fire(ms[k]);
        assert k < |before| ==> x in fire(before[k]);
      }
      if exists k :: 0 <= k < |before| && x in fire(before[k]) {
        var k :| 0 <= k < |before| && x in fire(before[k]);
        assert x in fire(ms[k]);
      }
    }
  }

  lemma SameMultisetFaithful(fire: Metric -> seq<Anomaly>, ms: seq<Metric>, anomalies: seq<Anomaly>)
    requires multiset(anomalies) == multiset(Flat(fire, ms))
    ensures Faithful(fire, ms, anomalies)
  {
    forall x ensures x in anomalies <==> exists k :: 0 <= k < |ms| && x in fire(ms[k]) {
      FlatMembers(fire, ms, x);
      assert x in anomalies <==> x in multiset(anomalies);
      assert x in Flat(fire, ms) <==> x in multiset(Flat(fire, ms));
    }
  }

  /** Whatever the engine may answer for a batch, with rules without windows it is exactly what its metrics
      trigger one by one. */
  lemma BatchIsFaithful(env: Env, defs: seq<RuleDef>, bufs: seq<seq<real>>, ms: seq<Metric>, bufs': seq<seq<real>>, anomalies: seq<Anomaly>)
    requires |bufs| == |defs| && Engine.Stateless(defs) && Engine.BatchEvaluated(env, defs, bufs, ms, bufs', anomalies)
    ensures Faithful(Engine.FiredBy(env, defs, bufs), ms, anomalies)
  {
    hide Faithful, Engine.FiredBy, Engine.BatchEvaluated, Engine.Stateless;
    Engine.BatchFindsAll(env, defs, bufs, ms, bufs', anomalies);
    SameMultisetFaithful(Engine.FiredBy(env, defs, bufs), ms, anomalies);
  }

  /** The steps of analyzers that evaluate what they fetch with the engine. */
  ghost predicate EngineSteps(env: Env, defs: seq<RuleDef>, bufs: seq<seq<real>>, steps: seq<Step>)
    requires |bufs| == |defs|
  {
    forall k :: 0 <= k < |steps| && steps[k].Fetch? ==>
      Engine.BatchEvaluated(env, defs, bufs, steps[k].batch, bufs, steps[k].anomalies)
  }

  lemma EngineStepsFaithful(env: Env, defs: seq<RuleDef>, bufs: seq<seq<real>>, steps: seq<Step>)
    requires |bufs| == |defs| && Engine.Stateless(defs) && EngineSteps(env, defs, bufs, steps)
    ensures FaithfulSteps(Engine.FiredBy(env, defs, bufs), steps)
  {
    hide Faithful, Engine.FiredBy, Engine.BatchEvaluated, Engine.Stateless;
    forall k | 0 <= k < |steps| && steps[k].Fetch?
      ensures Faithful(Engine.FiredBy(env, defs, bufs), steps[k].batch, steps[k].anomalies)
    {
      BatchIsFaithful(env, defs, bufs, steps[k].batch, bufs, steps[k].anomalies);
    }
  }

  /** With rules without windows, in every run of any number of analyzers, with any failures: whatever the
      engine reports for a marked metric is in the log, and the log holds nothing else than what the engine
      reports for metrics of the table. */
  lemma MarkedMetricsAreLogged(env: Env, defs: seq<RuleDef>, bufs: seq<seq<real>>, steps: seq<Step>)
    requires |bufs| == |defs| && Engine.Stateless(defs)
    requires EngineSteps(env, defs, bufs, steps) && Exec(START, steps).Some?
    ensures MarkedAreReported(Engine.FiredBy(env, defs, bufs), Exec(START, steps).value)
    ensures LogIsGrounded(Engine.FiredBy(env, defs, bufs), Exec(START, steps).value)
  {
    hide Exec, Engine.FiredBy, FaithfulSteps, EngineSteps, Stamping, Engine.Stateless, MarkedAreReported, LogIsGrounded;
    EngineStamps(env, defs, bufs);
    EngineStepsFaithful(env, defs, bufs, steps);
    NoMarkedMetricUnreported(Engine.FiredBy(env, defs, bufs), steps);
  }

  /** All rules are threshold rules as the factory builds them from their conditions. */
  ghost predicate ThresholdRules(parseFloat: string -> Option<real>, defs: seq<RuleDef>) {
    && NumberSyntax(parseFloat)
    && forall i :: 0 <= i < |defs| ==>
         defs[i].cfg.ruleType == Threshold && RuleFactory(parseFloat, defs[i].cfg, false) == Ok(defs[i])
  }

  /** The rule names the metric, and its agent if it names one, and its condition says so of the value. */
  ghost predicate Concerns(parseFloat: string -> Option<real>, cfg: RuleConfig, m: Metric) {
    m.name == cfg.metric && (cfg.agentID == "" || m.agentID == cfg.agentID) && Says(parseFloat, cfg.condition, m.value)
  }

  function Alarm(cfg: RuleConfig, m: Metric): Anomaly {
    Anomaly(cfg.name, m.name, m.id, m.value, cfg.condition, cfg.severity, m.timestamp, cfg.condition,
            m.agentID, m.agentID, 0.0, 0.0, 0.0)
  }

  lemma ThresholdReport(parseFloat: string -> Option<real>, env: Env, m: Metric, def: RuleDef, buf: seq<real>)
    requires def.cfg.ruleType == Threshold && NumberSyntax(parseFloat) && RuleFactory(parseFloat, def.cfg, false) == Ok(def)
    requires Concerns(parseFloat, def.cfg, m)
    ensures Engine.Reports(env, m)(def, buf).1 == [Alarm(def.cfg, m)]
  {
    ThresholdFires(parseFloat, env, def.cfg, def, buf, m);
    hide RuleStep, RuleFactory, Says;
    var fired := Alarm(def.cfg, m);
    assert fired.(agentID := m.agentID) == fired;
  }

  /** A threshold rule that concerns the metric is among what the metric triggers. */
  lemma ThresholdTriggers(parseFloat: string -> Option<real>, env: Env, defs: seq<RuleDef>, bufs: seq<seq<real>>, m: Metric, i: nat)
    requires |bufs| == |defs| && ThresholdRules(parseFloat, defs)
    requires i < |defs| && Concerns(parseFloat, defs[i].cfg, m)
    ensures Alarm(defs[i].cfg, m) in Engine.FiredBy(env, defs, bufs)(m)
  {
    hide Engine.EngineStep, Hits, Engine.Reports, Says, RuleFactory, NumberSyntax, Alarm;
    var x := Alarm(defs[i].cfg, m);
    ThresholdReport(parseFloat, env, m, defs[i], bufs[i]);
    HitIncluded(Engine.Reports(env, m), Engine.Meant(m, Engine.Everything), defs, bufs, |defs|, i, x);
    Engine.NoStrayIfUnambiguous(defs, m);
    Engine.EngineHitsAreScanHits(env, defs, bufs, m);
    assert x in Engine.ScanHits(env, defs, bufs, m, Engine.Everything);
    assert x in multiset(Engine.EngineStep(env, defs, bufs, m).1);
  }

  lemma ThresholdsAreStateless(parseFloat: string -> Option<real>, defs: seq<RuleDef>)
    requires ThresholdRules(parseFloat, defs)
    ensures Engine.Stateless(defs)
  {
    hide RuleFactory, NumberSyntax;
  }

  /** The promise to operators: with threshold rules, however many analyzers run and whatever fails, a
      metric is marked analyzed only after the log holds an anomaly for every rule that names the metric and
      its agent, if any, and whose condition says so of its value. */
  lemma MarkedThresholdsAreLogged(parseFloat: string -> Option<real>, env: Env, defs: seq<RuleDef>, bufs: seq<seq<real>>,
                                  steps: seq<Step>, row: nat, i: nat)
    requires |bufs| == |defs| && ThresholdRules(parseFloat, defs)
    requires EngineSteps(env, defs, bufs, steps) && Exec(START, steps).Some?
    requires row < |Exec(START, steps).value.rows| && Exec(START, steps).value.rows[row].analyzedBy.Some?
    requires i < |defs|
    requires var cfg, m := defs[i].cfg, Exec(START, steps).value.rows[row].metric;
             m.name == cfg.metric && (cfg.agentID == "" || m.agentID == cfg.agentID) && Says(parseFloat, cfg.condition, m.value)
    ensures var cfg, s := defs[i].cfg, Exec(START, steps).value;
            var m := s.rows[row].metric;
            Anomaly(cfg.name, m.name, m.id, m.value, cfg.condition, cfg.severity, m.timestamp, cfg.condition,
                    m.agentID, m.agentID, 0.0, 0.0, 0.0) in s.log
  {
    hide Exec, Engine.FiredBy, EngineSteps, Says, ThresholdRules, Engine.Stateless;
    ThresholdsAreStateless(parseFloat, defs);
    MarkedMetricsAreLogged(env, defs, bufs, steps);
    ThresholdTriggers(parseFloat, env, defs, bufs, Exec(START, steps).value.rows[row].metric, i);
  }
}
