/** How a forecast rule finds its model: the analyzer and the training service each build the model's id
from the rule, and the two have to agree. */
module ModelLookup {
  import opened Wrappers
  import opened Rules
  import ModelNames

  /** The id under which the training service files the model it trains for a rule. */
  function TrainingID(agentID: string, metric: string): string {
    agentID + "__" + ModelNames.Sanitize(metric)
  }

  lemma SanitizersAgreeIff(metric: string)
    ensures Sanitize(metric) == ModelNames.Sanitize(metric) <==> ':' !in metric
  {
    hide ModelNames.Sanitize;
    ModelNames.SanitizeAt(metric);
    if Sanitize(metric) == ModelNames.Sanitize(metric) {
      forall i | 0 <= i < |metric| ensures metric[i] != ':' {
        assert Sanitize(metric)[i] == ModelNames.Sanitize(metric)[i];
      }
    }
  }

  /** The analyzer asks for the model that was trained for the rule exactly if the rule names an agent and
      its metric has no colon. */
  lemma ModelFoundIff(cfg: RuleConfig)
    ensures ModelID(cfg) == TrainingID(cfg.agentID, cfg.metric) <==> cfg.agentID != "" && ':' !in cfg.metric
  {
    hide ModelNames.Sanitize, Sanitize;
    SanitizersAgreeIff(cfg.metric);
    ModelNames.SanitizeAt(cfg.metric);
    var asked, trained := Sanitize(cfg.metric), ModelNames.Sanitize(cfg.metric);
    if cfg.agentID == "" {
      assert |ModelID(cfg)| == |TrainingID(cfg.agentID, cfg.metric)| + 1;
    } else {
      var n := |cfg.agentID| + 2;
      assert ModelID(cfg)[n..] == asked && TrainingID(cfg.agentID, cfg.metric)[n..] == trained;
    }
  }

  /** The service answers for models trained for one of the rules, and for no others. */
  ghost predicate ServesTrained(env: Env, cfgs: seq<RuleConfig>) {
    forall id, history, m :: env.ml(id, history, m).Some? ==>
      exists i :: 0 <= i < |cfgs| && id == TrainingID(cfgs[i].agentID, cfgs[i].metric)
  }

  lemma WildcardIDUntrained(cfg: RuleConfig, other: RuleConfig)
    requires cfg.agentID == "" && !("*" <= other.agentID)
    ensures ModelID(cfg) != TrainingID(other.agentID, other.metric)
  {
    hide ModelNames.Sanitize, Sanitize;
    assert ModelID(cfg)[0] == '*';
    assert TrainingID(other.agentID, other.metric)[0] == if other.agentID == "" then '_' else other.agentID[0];
  }

  /** So a forecast rule for any agent stays silent on every metric and every window, whatever models the
      service has trained, unless some rule names an agent that starts with the wildcard. */
  lemma AnyAgentForecastRuleIsSilent(env: Env, cfgs: seq<RuleConfig>, def: RuleDef, buf: seq<real>, m: Metric)
    requires WellConfigured(def.cfg) && def.cfg.ruleType == Ml && def.cfg.agentID == ""
    requires ServesTrained(env, cfgs) && forall i :: 0 <= i < |cfgs| ==> !("*" <= cfgs[i].agentID)
    ensures RuleStep(env, def, buf, m).1 == None
  {
    forall i | 0 <= i < |cfgs| ensures ModelID(def.cfg) != TrainingID(cfgs[i].agentID, cfgs[i].metric) {
      WildcardIDUntrained(def.cfg, cfgs[i]);
    }
    hide ModelID, TrainingID;
    assert forall history :: env.ml(ModelID(def.cfg), history, m) == None;
  }
}
