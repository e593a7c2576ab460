/** The engine over a whole stream: every rule goes through the stream as if it were alone.

With this the theorems about single rules, which speak of the values a rule has accepted, hold for rules run
by the engine. */
module EngineStreams {
  import opened Wrappers
  import opened Rules
  import opened Selection
  import opened RuleEngine

  /** What the engine passes on of a rule's verdict. */
  function PassedOn(verdict: Anomaly, m: Metric): Anomaly {
    verdict.(agentID := m.agentID)
  }

  /** One evaluation moves the window of a rule meant for the metric as the rule itself would, and no other. */
  lemma EngineMoves(env: Env, defs: seq<RuleDef>, bufs: seq<seq<real>>, m: Metric, i: nat)
    requires |bufs| == |defs| && NoStray(defs, m) && i < |defs| && WellConfigured(defs[i].cfg)
    ensures EngineStep(env, defs, bufs, m).0[i]
            == if Matches(defs[i].cfg, m) then RuleStep(env, defs[i], bufs[i], m).0 else bufs[i]
  {
    EngineAgreesWithScan(env, defs, bufs, m);
    hide EngineStep, RuleStep;
  }

  /** It reports a rule's verdict if the rule is meant for the metric. */
  lemma EngineReports(env: Env, defs: seq<RuleDef>, bufs: seq<seq<real>>, m: Metric, i: nat)
    requires |bufs| == |defs| && NoStray(defs, m) && i < |defs| && WellConfigured(defs[i].cfg) && Matches(defs[i].cfg, m)
    requires RuleStep(env, defs[i], bufs[i], m).1.Some?
    ensures PassedOn(RuleStep(env, defs[i], bufs[i], m).1.value, m) in EngineStep(env, defs, bufs, m).1
  {
    EngineHitsAreScanHits(env, defs, bufs, m);
    hide EngineStep, RuleStep;
    var a := PassedOn(RuleStep(env, defs[i], bufs[i], m).1.value, m);
    HitIncluded(Reports(env, m), Meant(m, Everything), defs, bufs, |defs|, i, a);
    assert a in multiset(ScanHits(env, defs, bufs, m, Everything));
  }

  /** It reports nothing else. */
  lemma EngineReportsOnly(env: Env, defs: seq<RuleDef>, bufs: seq<seq<real>>, m: Metric, a: Anomaly) returns (i: nat)
    requires |bufs| == |defs| && NoStray(defs, m) && AllConfigured(defs) && a in EngineStep(env, defs, bufs, m).1
    ensures i < |defs| && Matches(defs[i].cfg, m)
    ensures RuleStep(env, defs[i], bufs[i], m).1.Some? && a == PassedOn(RuleStep(env, defs[i], bufs[i], m).1.value, m)
  {
    EngineHitsAreScanHits(env, defs, bufs, m);
    hide EngineStep, RuleStep;
    assert a in multiset(ScanHits(env, defs, bufs, m, Everything));
    i := HitOrigin(Reports(env, m), Meant(m, Everything), defs, bufs, |defs|, a);
  }

  /** Rules that compare the metric name themselves, with sound windows. */
  ghost predicate Orderly(defs: seq<RuleDef>) {
    AllConfigured(defs) && forall i :: 0 <= i < |defs| ==> ChecksName(defs[i].cfg)
  }

  /** An orderly rule declines every metric it is not meant for. */
  lemma UnmeantIsDeclined(env: Env, def: RuleDef, buf: seq<real>, m: Metric)
    requires WellConfigured(def.cfg) && ChecksName(def.cfg) && !Matches(def.cfg, m)
    ensures RuleStep(env, def, buf, m) == (buf, None)
  {}

  /** After any stream every window is the one the rule would have had alone. */
  lemma {:induction false} StreamWindows(env: Env, defs: seq<RuleDef>, ms: seq<Metric>, i: nat)
    requires Orderly(defs) && i < |defs|
    ensures EngineRun(env, defs, Emptied(|defs|), ms).0[i] == BufferAfter(env, defs[i], ms)
  {
    hide EngineStep, RuleStep, NoStray;
    if ms != [] {
      var before, m := ms[..|ms|-1], ms[|ms|-1];
      var bufs := EngineRun(env, defs, Emptied(|defs|), before).0;
      StreamWindows(env, defs, before, i);
      NoStrayIfUnambiguous(defs, m);
      EngineMoves(env, defs, bufs, m, i);
      if !Matches(defs[i].cfg, m) {
        UnmeantIsDeclined(env, defs[i], bufs[i], m);
      }
    }
  }

  /** The anomaly is rule i's verdict on metric k of the stream. */
  ghost predicate VerdictAt(env: Env, defs: seq<RuleDef>, ms: seq<Metric>, k: nat, i: nat, a: Anomaly)
    requires AllConfigured(defs)
  {
    && k < |ms| && i < |defs|
    && var verdict := VerdictOn(env, defs[i], ms[..k + 1]);
       verdict.Some? && a == PassedOn(verdict.value, ms[k])
  }

  /** What one more metric adds to the reports. */
  lemma LastReports(env: Env, defs: seq<RuleDef>, ms: seq<Metric>, last: nat, a: Anomaly)
    requires Orderly(defs) && |ms| == last + 1
    ensures a in EngineStep(env, defs, EngineRun(env, defs, Emptied(|defs|), ms[..last]).0, ms[last]).1
            <==> exists i: nat :: VerdictAt(env, defs, ms, last, i, a)
  {
    hide EngineStep, RuleStep, NoStray, BufferAfter;
    var before, m := ms[..last], ms[last];
    var bufs := EngineRun(env, defs, Emptied(|defs|), before).0;
    NoStrayIfUnambiguous(defs, m);
    assert ms[..last + 1] == ms;
    forall i: nat | i < |defs| ensures bufs[i] == BufferAfter(env, defs[i], before) {
      StreamWindows(env, defs, before, i);
    }
    if a in EngineStep(env, defs, bufs, m).1 {
      var i := EngineReportsOnly(env, defs, bufs, m, a);
      assert VerdictAt(env, defs, ms, last, i, a);
    }
    if i: nat :| VerdictAt(env, defs, ms, last, i, a) {
      if !Matches(defs[i].cfg, m) {
        UnmeantIsDeclined(env, defs[i], bufs[i], m);
      }
      EngineReports(env, defs, bufs, m, i);
    }
  }

  lemma EarlierVerdict(env: Env, defs: seq<RuleDef>, ms: seq<Metric>, k: nat, i: nat, a: Anomaly)
    requires AllConfigured(defs) && k + 1 < |ms|
    ensures VerdictAt(env, defs, ms, k, i, a) <==> VerdictAt(env, defs, ms[..|ms|-1], k, i, a)
  {
    hide VerdictOn;
    assert ms[..|ms|-1][..k + 1] == ms[..k + 1];
  }

  /** Evaluated in turn by the engine, rules that compare the metric name report, over any stream, exactly what
      each of them alone would have reported on it. */
  lemma {:induction false} EngineIsEachRuleAlone(env: Env, defs: seq<RuleDef>, ms: seq<Metric>, a: Anomaly)
    requires Orderly(defs)
    ensures a in EngineRun(env, defs, Emptied(|defs|), ms).1
            <==> exists k: nat, i: nat :: VerdictAt(env, defs, ms, k, i, a)
  {
    if ms != [] {
      hide EngineStep, VerdictAt, Orderly;
      var before := ms[..|ms|-1];
      EngineIsEachRuleAlone(env, defs, before, a);
      LastReports(env, defs, ms, |ms| - 1, a);
      forall k: nat, i: nat | k + 1 < |ms| ensures VerdictAt(env, defs, ms, k, i, a) <==> VerdictAt(env, defs, before, k, i, a) {
        EarlierVerdict(env, defs, ms, k, i, a);
      }
      VerdictsInRange(env, defs, before, a);
      VerdictsInRange(env, defs, ms, a);
    }
  }

  lemma VerdictsInRange(env: Env, defs: seq<RuleDef>, ms: seq<Metric>, a: Anomaly)
    requires AllConfigured(defs)
    ensures forall k: nat, i: nat :: VerdictAt(env, defs, ms, k, i, a) ==> k < |ms|
  {}
}
