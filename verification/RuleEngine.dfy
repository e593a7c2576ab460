/** The rule engine: a hash index from "agent:metric" to rules, consulted instead of scanning them.

`RuleEngine.Evaluate` runs the rules found under the metric's own key and then those under the wildcard
key. `EngineAgreesWithScan` proves that this is the linear scan over all rules, in which every matching
rule is evaluated once and no other rule is touched. */
module RuleEngine {
  import opened Wrappers
  import opened Rules
  import opened Selection
  import opened Chunks

  function Normalize(agentID: string): string {
    if agentID == "" then "*" else agentID
  }

  function Key(agentID: string, metric: string): string {
    Normalize(agentID) + ":" + metric
  }

  function RuleKey(cfg: RuleConfig): string {
    Key(cfg.agentID, cfg.metric)
  }

  /** The key of the metric's own agent, or the wildcard key. */
  function LookupKey(m: Metric, own: bool): string {
    if own then Key(m.agentID, m.name) else Key("*", m.name)
  }

  function FiledAt(key: string): RuleDef -> bool {
    (def: RuleDef) => RuleKey(def.cfg) == key
  }

  /** Under every key exactly the first n rules filed there, and no key without rules. */
  ghost predicate IndexOf(index: map<string, seq<nat>>, defs: seq<RuleDef>, n: nat)
    requires n <= |defs|
  {
    forall key :: Positions(defs, FiledAt(key), n) == if key in index then index[key] else []
  }

  /** Appends a position to the list under the key. */
  function Filed(index: map<string, seq<nat>>, key: string, i: nat): map<string, seq<nat>> {
    index[key := (if key in index then index[key] else []) + [i]]
  }

  lemma EmptyIndex(defs: seq<RuleDef>)
    ensures IndexOf(map[], defs, 0)
  {}

  /** Filing one more rule at the end of its key's list keeps the index correct. */
  lemma IndexGrows(index: map<string, seq<nat>>, defs: seq<RuleDef>, i: nat)
    requires i < |defs| && IndexOf(index, defs, i)
    ensures IndexOf(Filed(index, RuleKey(defs[i].cfg), i), defs, i + 1)
  {
    var grown := Filed(index, RuleKey(defs[i].cfg), i);
    forall k ensures Positions(defs, FiledAt(k), i + 1) == if k in grown then grown[k] else [] {
      assert Positions(defs, FiledAt(k), i) == if k in index then index[k] else [];
      assert Positions(defs, FiledAt(k), i + 1)
             == Positions(defs, FiledAt(k), i) + (if FiledAt(k)(defs[i]) then [i] else []);
    }
  }

  ghost predicate AllConfigured(defs: seq<RuleDef>) {
    forall i :: 0 <= i < |defs| ==> WellConfigured(defs[i].cfg)
  }

  /** The engine stamps the metric's agent on whatever a rule reports. */
  function Stamped(a: Option<Anomaly>, m: Metric): seq<Anomaly> {
    match a
    case None => []
    case Some(fired) => [fired.(agentID := m.agentID)]
  }

  /** Evaluating one rule on the metric, with its report stamped. */
  function Report(env: Env, m: Metric, def: RuleDef, buf: seq<real>): (seq<real>, seq<Anomaly>) {
    if WellConfigured(def.cfg) then
      var (next, verdict) := RuleStep(env, def, buf, m);
      (next, Stamped(verdict, m))
    else (buf, [])
  }

  function Reports(env: Env, m: Metric): (RuleDef, seq<real>) -> (seq<real>, seq<Anomaly>) {
    (def: RuleDef, buf: seq<real>) => Report(env, m, def, buf)
  }

  /** One engine evaluation: the rules of the metric's own key, then the wildcard rules. */
  function EngineStep(env: Env, defs: seq<RuleDef>, bufs: seq<seq<real>>, m: Metric): (r: (seq<seq<real>>, seq<Anomaly>))
    requires |bufs| == |defs|
    ensures |r.0| == |defs|
  {
    var (own, hits) := RunAll(Reports(env, m), defs, bufs, Positions(defs, FiledAt(LookupKey(m, true)), |defs|));
    if Normalize(m.agentID) == "*" then (own, hits)
    else
      var (all, more) := RunAll(Reports(env, m), defs, own, Positions(defs, FiledAt(LookupKey(m, false)), |defs|));
      (all, hits + more)
  }

  ghost function DefsOf(rules: seq<Rule>): (r: seq<RuleDef>)
    ensures |r| == |rules| && forall i :: 0 <= i < |r| ==> r[i] == rules[i].def
  {
    seq(|rules|, i requires 0 <= i < |rules| => rules[i].def)
  }

  method BuildIndex(rules: seq<Rule>) returns (index: map<string, seq<nat>>)
    ensures IndexOf(index, DefsOf(rules), |rules|)
  {
    hide Positions, Filed, RuleKey, FiledAt;
    ghost var defs := DefsOf(rules);
    index := map[];
    EmptyIndex(defs);
    for i := 0 to |rules|
      invariant IndexOf(index, defs, i)
    {
      IndexGrows(index, defs, i);
      index := Filed(index, RuleKey(rules[i].def.cfg), i);
    }
  }

  class RuleEngine {
    const rules: seq<Rule>
    var index: map<string, seq<nat>>

    ghost function Defs(): seq<RuleDef> {
      DefsOf(rules)
    }

    ghost function Buffers(): (r: seq<seq<real>>)
      reads rules
      ensures |r| == |rules| && forall i :: 0 <= i < |r| ==> r[i] == rules[i].windowBuf
    {
      seq(|rules|, i requires 0 <= i < |rules| reads rules => rules[i].windowBuf)
    }

    /** The factory makes a new object for every configured rule. */
    ghost predicate Valid()
      reads this
    {
      && (forall i, j :: 0 <= i < j < |rules| ==> rules[i] != rules[j])
      && AllConfigured(Defs())
      && IndexOf(index, Defs(), |rules|)
    }

    constructor (rules: seq<Rule>)
      requires forall i, j :: 0 <= i < j < |rules| ==> rules[i] != rules[j]
      requires forall i :: 0 <= i < |rules| ==> WellConfigured(rules[i].def.cfg)
      ensures Valid() && this.rules == rules
    {
      this.rules := rules;
      var built := BuildIndex(rules);
      index := built;
    }

    /** Evaluates the rules at the given positions in order and collects their stamped anomalies. */
    method EvaluateAt(env: Env, at: seq<nat>, m: Metric) returns (anomalies: seq<Anomaly>)
      requires Valid() && forall k :: 0 <= k < |at| ==> at[k] < |rules|
      modifies rules
      ensures (Buffers(), anomalies) == RunAll(Reports(env, m), Defs(), old(Buffers()), at)
    {
      anomalies := [];
      for k := 0 to |at|
        invariant (Buffers(), anomalies) == RunAll(Reports(env, m), Defs(), old(Buffers()), at[..k])
      {
        assert at[..k + 1][..|at[..k + 1]| - 1] == at[..k];
        var i := at[k];
        assert WellConfigured(Defs()[i].cfg);
        ghost var before := Buffers();
        var a := EvaluateOne(env, i, m);
        assert Buffers() == before[i := rules[i].windowBuf];
        anomalies := anomalies + a;
      }
      assert at[..|at|] == at;
    }

    method EvaluateOne(env: Env, i: nat, m: Metric) returns (reported: seq<Anomaly>)
      requires i < |rules| && WellConfigured(rules[i].def.cfg)
      modifies rules[i]
      ensures (rules[i].windowBuf, reported) == Reports(env, m)(rules[i].def, old(rules[i].windowBuf))
    {
      var a := rules[i].Evaluate(env, m);
      if a == None {
        return [];
      }
      var fired := a.value;
      return [fired.(agentID := m.agentID)];
    }

    /** Runs the rules filed under the key, if there are any. */
    method Lookup(env: Env, key: string, m: Metric) returns (anomalies: seq<Anomaly>)
      requires Valid()
      modifies rules
      ensures (Buffers(), anomalies)
              == RunAll(Reports(env, m), Defs(), old(Buffers()), Positions(Defs(), FiledAt(key), |rules|))
    {
      assert Positions(Defs(), FiledAt(key), |rules|) == if key in index then index[key] else [];
      if key in index {
        anomalies := EvaluateAt(env, index[key], m);
      } else {
        anomalies := [];
      }
    }

    method Evaluate(env: Env, m: Metric) returns (anomalies: seq<Anomaly>)
      requires Valid()
      modifies rules
      ensures (Buffers(), anomalies) == EngineStep(env, Defs(), old(Buffers()), m)
    {
      var agentID := m.agentID;
      if agentID == "" {
        agentID := "*";
      }
      assert LookupKey(m, true) == agentID + ":" + m.name;
      anomalies := Lookup(env, agentID + ":" + m.name, m);
      if agentID != "*" {
        assert LookupKey(m, false) == "*:" + m.name;
        var more := Lookup(env, "*:" + m.name, m);
        anomalies := anomalies + more;
      }
    }

    /** Evaluates the metrics one after another. */
    method EvaluateInTurn(env: Env, metrics: seq<Metric>) returns (result: seq<Anomaly>)
      requires Valid()
      modifies rules
      ensures (Buffers(), result) == EngineRun(env, Defs(), old(Buffers()), metrics)
    {
      hide EngineStep, RunAll;
      result := [];
      for k := 0 to |metrics|
        invariant (Buffers(), result) == EngineRun(env, Defs(), old(Buffers()), metrics[..k])
      {
        assert metrics[..k + 1][..|metrics[..k + 1]| - 1] == metrics[..k];
        var fired := Evaluate(env, metrics[k]);
        result := result + fired;
      }
      assert metrics[..|metrics|] == metrics;
    }

    /** Small batches are evaluated in turn. Large ones are cut into chunks that are evaluated separately;
        their results are merged under a lock in whatever order the workers take it, which `order`
        records. Only rules without a window may be evaluated by several workers at once. */
    method EvaluateBatch(env: Env, metrics: seq<Metric>) returns (result: seq<Anomaly>, ghost order: seq<nat>)
      requires Valid()
      requires |metrics| >= PARALLEL_THRESHOLD ==> Stateless(Defs())
      modifies rules
      ensures |metrics| < 500 ==>
                (Buffers(), result) == EngineRun(env, Defs(), old(Buffers()), metrics)
      ensures |metrics| >= 500 ==>
                && Buffers() == old(Buffers())
                && IsOrder(order, NumChunks(|metrics|)) && ChunkIds(order, NumChunks(|metrics|))
                && result == Blocks(FiredBy(env, Defs(), Buffers()), metrics, order)
      ensures BatchEvaluated(env, Defs(), old(Buffers()), metrics, Buffers(), result)
    {
      hide EngineStep, EngineRun, Blocks, IsOrder, FiredBy;
      if |metrics| < PARALLEL_THRESHOLD {
        order := [];
        result := EvaluateInTurn(env, metrics);
      } else {
        result, order := EvaluateChunks(env, metrics);
      }
    }

    method EvaluateChunks(env: Env, metrics: seq<Metric>) returns (result: seq<Anomaly>, ghost order: seq<nat>)
      requires Valid() && Stateless(Defs())
      modifies rules
      ensures Buffers() == old(Buffers())
      ensures IsOrder(order, NumChunks(|metrics|)) && ChunkIds(order, NumChunks(|metrics|))
      ensures result == Blocks(FiredBy(env, Defs(), Buffers()), metrics, order)
    {
      hide EngineStep, EngineRun, RunAll, ChunkAt, MergedOrPending, Flat, FiredBy, NumChunks, Stateless;
      ghost var defs, bufs := Defs(), Buffers();
      ghost var eval := FiredBy(env, defs, bufs);
      var chunks := Split(metrics);
      var pending := Ids(|chunks|);
      NoneMerged(|chunks|);
      result, order := [], [];
      while pending != {}
        invariant Buffers() == bufs
        invariant MergedOrPending(order, pending, |chunks|) && ChunkIds(order, |chunks|)
        invariant result == Blocks(eval, metrics, order)
        decreases pending
      {
        var c :| c in pending;
        MergeOne(order, pending, |chunks|, c);
        var local := EvaluateInTurn(env, chunks[c]);
        StatelessRun(env, defs, bufs, chunks[c]);
        BlocksAppend(eval, metrics, order, c);
        result := result + local;
        order := order + [c];
        pending := pending - {c};
      }
      AllMerged(order, |chunks|);
    }
  }

  const PARALLEL_THRESHOLD: nat := 500

  /** Cuts a batch into consecutive chunks. */
  method Split(metrics: seq<Metric>) returns (chunks: seq<seq<Metric>>)
    ensures |chunks| == NumChunks(|metrics|)
    ensures forall c :: 0 <= c < |chunks| ==> chunks[c] == ChunkAt(metrics, c)
    ensures forall c :: 0 <= c < |chunks| ==>
              200 * c < |metrics| && chunks[c] == metrics[200 * c..if 200 * c + 200 < |metrics| then 200 * c + 200 else |metrics|]
  {
    var n := |metrics|;
    chunks := [];
    var i := 0;
    while i < n
      invariant i == |chunks| * CHUNK_SIZE
      invariant |chunks| <= NumChunks(n)
      invariant forall c :: 0 <= c < |chunks| ==> chunks[c] == ChunkAt(metrics, c)
    {
      var j := Chunks.Min(i + CHUNK_SIZE, n);
      chunks := chunks + [metrics[i..j]];
      i := i + CHUNK_SIZE;
    }
  }

  /** Evaluating a stream of metrics one after another, windows carried along. */
  function EngineRun(env: Env, defs: seq<RuleDef>, bufs: seq<seq<real>>, ms: seq<Metric>): (r: (seq<seq<real>>, seq<Anomaly>))
    requires |bufs| == |defs|
    ensures |r.0| == |defs|
  {
    if ms == [] then (bufs, [])
    else
      var (before, hits) := EngineRun(env, defs, bufs, ms[..|ms|-1]);
      var (after, more) := EngineStep(env, defs, before, ms[|ms|-1]);
      (after, hits + more)
  }

  /** No rule keeps a window. */
  ghost predicate Stateless(defs: seq<RuleDef>) {
    forall i :: 0 <= i < |defs| ==> !Windowed(defs[i].cfg)
  }

  /** What one metric triggers, given the windows. */
  function FiredBy(env: Env, defs: seq<RuleDef>, bufs: seq<seq<real>>): Metric -> seq<Anomaly>
    requires |bufs| == |defs|
  {
    (m: Metric) => EngineStep(env, defs, bufs, m).1
  }

  lemma {:induction false} RunAllStateless(env: Env, defs: seq<RuleDef>, bufs: seq<seq<real>>, at: seq<nat>, m: Metric)
    requires |bufs| == |defs| && Stateless(defs)
    requires forall k :: 0 <= k < |at| ==> at[k] < |defs|
    ensures RunAll(Reports(env, m), defs, bufs, at).0 == bufs
  {
    if at != [] {
      RunAllStateless(env, defs, bufs, at[..|at|-1], m);
      StatelessReport(env, m, defs[at[|at|-1]], bufs[at[|at|-1]]);
      hide Reports;
      var i := at[|at|-1];
      assert bufs[i := bufs[i]] == bufs;
    }
  }

  lemma StatelessReport(env: Env, m: Metric, def: RuleDef, buf: seq<real>)
    requires !Windowed(def.cfg)
    ensures Reports(env, m)(def, buf).0 == buf
  {}

  /** Without windows, evaluating in turn changes nothing and adds up what each metric triggers. */
  lemma {:induction false} StatelessRun(env: Env, defs: seq<RuleDef>, bufs: seq<seq<real>>, ms: seq<Metric>)
    requires |bufs| == |defs| && Stateless(defs)
    ensures EngineRun(env, defs, bufs, ms) == (bufs, Flat(FiredBy(env, defs, bufs), ms))
  {
    if ms != [] {
      var m := ms[|ms|-1];
      StatelessRun(env, defs, bufs, ms[..|ms|-1]);
      RunAllStateless(env, defs, bufs, Positions(defs, FiledAt(LookupKey(m, true)), |defs|), m);
      RunAllStateless(env, defs, bufs, Positions(defs, FiledAt(LookupKey(m, false)), |defs|), m);
      hide RunAll, Positions, Reports;
    }
  }

  /** Both ways of evaluating a batch with rules without windows yield the same anomalies, each as often;
      the parallel one keeps every chunk's anomalies together and in order. */
  lemma BatchAgreesWithSequence(env: Env, defs: seq<RuleDef>, bufs: seq<seq<real>>, metrics: seq<Metric>, order: seq<nat>)
    requires |bufs| == |defs| && Stateless(defs) && IsOrder(order, NumChunks(|metrics|))
    ensures ChunkIds(order, NumChunks(|metrics|))
    ensures multiset(Blocks(FiredBy(env, defs, bufs), metrics, order))
            == multiset(EngineRun(env, defs, bufs, metrics).1)
  {
    hide EngineStep;
    AnyOrderSameResults(FiredBy(env, defs, bufs), metrics, order);
    StatelessRun(env, defs, bufs, metrics);
  }

  /** Evaluating two streams one after the other is evaluating one. */
  lemma {:induction false} RunConcat(env: Env, defs: seq<RuleDef>, bufs: seq<seq<real>>, xs: seq<Metric>, ys: seq<Metric>)
    requires |bufs| == |defs|
    ensures var first := EngineRun(env, defs, bufs, xs);
            var second := EngineRun(env, defs, first.0, ys);
            EngineRun(env, defs, bufs, xs + ys) == (second.0, first.1 + second.1)
  {
    hide EngineStep;
    if ys == [] {
      assert xs + ys == xs;
      assert EngineRun(env, defs, bufs, xs).1 + [] == EngineRun(env, defs, bufs, xs).1;
    } else {
      var before, m := ys[..|ys|-1], ys[|ys|-1];
      assert (xs + ys)[..|xs + ys| - 1] == xs + before;
      RunConcat(env, defs, bufs, xs, before);
      var first := EngineRun(env, defs, bufs, xs);
      var second := EngineRun(env, defs, first.0, before);
      var last := EngineStep(env, defs, second.0, m);
      assert (first.1 + second.1) + last.1 == first.1 + (second.1 + last.1);
    }
  }

  /** The chunks' results, merged in some order. */
  ghost predicate InSomeOrder(env: Env, defs: seq<RuleDef>, bufs: seq<seq<real>>, ms: seq<Metric>, anomalies: seq<Anomaly>)
    requires |bufs| == |defs|
  {
    exists order :: IsOrder(order, NumChunks(|ms|)) && ChunkIds(order, NumChunks(|ms|))
                    && anomalies == Blocks(FiredBy(env, defs, bufs), ms, order)
  }

  /** What the engine may answer for a batch, and the windows it leaves. */
  ghost predicate BatchEvaluated(env: Env, defs: seq<RuleDef>, bufs: seq<seq<real>>, ms: seq<Metric>,
                                 bufs': seq<seq<real>>, anomalies: seq<Anomaly>)
    requires |bufs| == |defs|
  {
    if |ms| < PARALLEL_THRESHOLD then (bufs', anomalies) == EngineRun(env, defs, bufs, ms)
    else bufs' == bufs && InSomeOrder(env, defs, bufs, ms, anomalies)
  }

  /** With rules without windows, every answer the engine may give is what the metrics trigger one by one,
      each as often, and no window moves. */
  lemma BatchFindsAll(env: Env, defs: seq<RuleDef>, bufs: seq<seq<real>>, ms: seq<Metric>, bufs': seq<seq<real>>, anomalies: seq<Anomaly>)
    requires |bufs| == |defs| && Stateless(defs) && BatchEvaluated(env, defs, bufs, ms, bufs', anomalies)
    ensures bufs' == bufs && multiset(anomalies) == multiset(Flat(FiredBy(env, defs, bufs), ms))
  {
    hide EngineStep, Flat, Blocks, IsOrder, Stateless;
    StatelessRun(env, defs, bufs, ms);
    if |ms| >= PARALLEL_THRESHOLD {
      var order :| IsOrder(order, NumChunks(|ms|)) && ChunkIds(order, NumChunks(|ms|))
                   && anomalies == Blocks(FiredBy(env, defs, bufs), ms, order);
      BatchAgreesWithSequence(env, defs, bufs, ms, order);
    }
  }

  // ----- the linear scan -----

  /** A rule is meant for a metric: same name, and same agent unless the rule names none. */
  predicate Matches(cfg: RuleConfig, m: Metric) {
    m.name == cfg.metric && (cfg.agentID == "" || m.agentID == cfg.agentID)
  }

  datatype Scope = Everything | OwnAgent | AnyAgent {
    predicate Has(cfg: RuleConfig) {
      match this
      case Everything => true
      case OwnAgent => cfg.agentID != ""
      case AnyAgent => cfg.agentID == ""
    }
  }

  /** The rules of a scope that are meant for the metric. */
  function Meant(m: Metric, scope: Scope): RuleDef -> bool {
    (def: RuleDef) => Matches(def.cfg, m) && scope.Has(def.cfg)
  }

  /** The linear scan: every rule meant for the metric is evaluated, any other is left as it is. */
  function ScanBuffers(env: Env, defs: seq<RuleDef>, bufs: seq<seq<real>>, m: Metric): seq<seq<real>>
    requires |bufs| == |defs|
  {
    States(Reports(env, m), Meant(m, Everything), defs, bufs)
  }

  /** What the rules of a scope report to the scan, in registration order. */
  function ScanHits(env: Env, defs: seq<RuleDef>, bufs: seq<seq<real>>, m: Metric, scope: Scope): seq<Anomaly>
    requires |bufs| == |defs|
  {
    Hits(Reports(env, m), Meant(m, scope), defs, bufs, |defs|)
  }

  /** The rule compares the metric name itself. */
  predicate ChecksName(cfg: RuleConfig) {
    match cfg.ruleType
    case Threshold => true
    case Lua => false
    case Ml => cfg.metric != ""
    case Ks => cfg.metric != ""
  }

  /** The agent cannot be read as the wildcard followed by part of a metric name. */
  predicate Plain(agentID: string) {
    !("*:" <= agentID)
  }

  predicate FiledUnder(cfg: RuleConfig, m: Metric, own: bool) {
    RuleKey(cfg) == LookupKey(m, own)
  }

  /** The rule is filed under one of the keys that are looked up for the metric. */
  predicate LookedUp(cfg: RuleConfig, m: Metric) {
    FiledUnder(cfg, m, true) || (Normalize(m.agentID) != "*" && FiledUnder(cfg, m, false))
  }

  /** The rule is not meant for the metric, but is looked up for it and does not decline it. */
  predicate Stray(cfg: RuleConfig, m: Metric) {
    WellConfigured(cfg) && LookedUp(cfg, m) && Accepts(cfg, m) && !Matches(cfg, m)
  }

  ghost predicate NoStray(defs: seq<RuleDef>, m: Metric) {
    forall i :: 0 <= i < |defs| ==> !Stray(defs[i].cfg, m)
  }

  // ----- keys -----

  lemma KeySuffix(agent: string, name: string, other: string)
    requires agent + ":" + name == agent + ":" + other
    ensures name == other
  {
    assert (agent + ":" + name)[|agent| + 1..] == name;
    assert (agent + ":" + other)[|agent| + 1..] == other;
  }

  lemma KeyHeads(a: string, b: string, name: string)
    ensures a + ":" + name == b + ":" + name <==> a == b
  {
    if |a| == |b| {
      assert (a + ":" + name)[..|a|] == a && (b + ":" + name)[..|b|] == b;
    } else {
      assert |a + ":" + name| != |b + ":" + name|;
    }
  }

  /** A key that starts with the wildcard belongs to the wildcard or to an agent that is not plain. */
  lemma WildcardPrefix(agent: string, name: string, metric: string)
    requires agent != "" && agent + ":" + name == "*:" + metric
    ensures agent == "*" || !Plain(agent)
  {
    assert (agent + ":" + name)[0] == agent[0] == '*';
    if |agent| > 1 {
      assert (agent + ":" + name)[1] == agent[1] == ':';
      assert agent[..2] == "*:";
    }
  }

  /** A rule that is looked up and does not decline the metric is meant for it. */
  lemma LookedUpMatches(cfg: RuleConfig, m: Metric, own: bool)
    requires ChecksName(cfg) || Plain(m.agentID)
    requires FiledUnder(cfg, m, own) && Accepts(cfg, m)
    ensures Matches(cfg, m)
  {
    if !ChecksName(cfg) {
      var a, b := Normalize(cfg.agentID), if own then Normalize(m.agentID) else "*";
      assert a + ":" + cfg.metric == b + ":" + m.name;
      if a == b {
        KeySuffix(a, cfg.metric, m.name);
      } else if a == "*" {
        assert "*" + ":" + cfg.metric == "*:" + cfg.metric;
        WildcardPrefix(b, m.name, cfg.metric);
      } else {
        assert "*" + ":" + m.name == "*:" + m.name;
        WildcardPrefix(a, cfg.metric, m.name);
      }
    }
  }

  /** A matching rule accepts the metric and is filed under exactly one of the two keys. */
  lemma MatchingIsLookedUp(cfg: RuleConfig, m: Metric)
    requires Matches(cfg, m)
    ensures Accepts(cfg, m)
    ensures Normalize(m.agentID) == "*" ==> FiledUnder(cfg, m, true)
    ensures Normalize(m.agentID) != "*" ==>
              && (FiledUnder(cfg, m, true) <==> cfg.agentID != "")
              && (FiledUnder(cfg, m, false) <==> cfg.agentID == "")
  {
    if Normalize(m.agentID) != "*" {
      var a := Normalize(m.agentID);
      KeyHeads(a, "*", m.name);
    }
  }

  // ----- the theorem -----

  /** The scope of rules a lookup covers. */
  function ScopeOf(m: Metric, own: bool): Scope {
    if Normalize(m.agentID) == "*" then Everything else if own then OwnAgent else AnyAgent
  }

  lemma DeclinedIsUntouched(env: Env, m: Metric, def: RuleDef, buf: seq<real>)
    requires !Accepts(def.cfg, m) || !WellConfigured(def.cfg)
    ensures Reports(env, m)(def, buf) == (buf, [])
  {}

  /** One lookup does to a rule what the scan of the lookup's scope does. */
  lemma LookupCoversScope(env: Env, m: Metric, def: RuleDef, buf: seq<real>, own: bool)
    requires !Stray(def.cfg, m)
    requires own || Normalize(m.agentID) != "*"
    ensures StepIf(Reports(env, m), FiledAt(LookupKey(m, own)), def, buf)
            == StepIf(Reports(env, m), Meant(m, ScopeOf(m, own)), def, buf)
  {
    if Matches(def.cfg, m) {
      MatchingIsLookedUp(def.cfg, m);
    } else if FiledUnder(def.cfg, m, own) {
      DeclinedIsUntouched(env, m, def, buf);
    }
  }

  /** One lookup evaluates exactly the rules of its scope that are meant for the metric. */
  lemma LookupIsScan(env: Env, defs: seq<RuleDef>, bufs: seq<seq<real>>, m: Metric, own: bool)
    requires |bufs| == |defs| && NoStray(defs, m)
    requires own || Normalize(m.agentID) != "*"
    ensures RunAll(Reports(env, m), defs, bufs, Positions(defs, FiledAt(LookupKey(m, own)), |defs|))
            == (States(Reports(env, m), Meant(m, ScopeOf(m, own)), defs, bufs), ScanHits(env, defs, bufs, m, ScopeOf(m, own)))
  {
    var step, filed, meant := Reports(env, m), FiledAt(LookupKey(m, own)), Meant(m, ScopeOf(m, own));
    RunSelected(step, filed, defs, bufs);
    forall i | 0 <= i < |defs| ensures StepIf(step, filed, defs[i], bufs[i]) == StepIf(step, meant, defs[i], bufs[i]) {
      LookupCoversScope(env, m, defs[i], bufs[i], own);
    }
    SameHits(step, filed, bufs, step, meant, bufs, defs, |defs|);
    assert States(step, filed, defs, bufs) == States(step, meant, defs, bufs);
  }

  /** Scanning a rule for its own agent and then for any agent evaluates it as often as one scan does. */
  lemma ScopesDisjoint(env: Env, m: Metric, def: RuleDef, buf: seq<real>)
    ensures var step := Reports(env, m);
            var between := StepIf(step, Meant(m, OwnAgent), def, buf).0;
            && StepIf(step, Meant(m, AnyAgent), def, between).1 == StepIf(step, Meant(m, AnyAgent), def, buf).1
            && StepIf(step, Meant(m, AnyAgent), def, between).0 == StepIf(step, Meant(m, Everything), def, buf).0
  {
    hide Reports;
  }

  /** The indexed evaluation is the linear scan: every rule meant for the metric is evaluated once, on its
      own window, and no other rule changes or reports. The reports of rules naming the agent come first,
      then those of rules for any agent, each in registration order. */
  ghost predicate Agrees(env: Env, defs: seq<RuleDef>, bufs: seq<seq<real>>, m: Metric)
    requires |bufs| == |defs|
  {
    && EngineStep(env, defs, bufs, m).0 == ScanBuffers(env, defs, bufs, m)
    && EngineStep(env, defs, bufs, m).1 ==
       if Normalize(m.agentID) == "*" then ScanHits(env, defs, bufs, m, Everything)
       else ScanHits(env, defs, bufs, m, OwnAgent) + ScanHits(env, defs, bufs, m, AnyAgent)
  }

  /** Without a stray rule they agree on all windows. */
  lemma EngineAgreesWithScan(env: Env, defs: seq<RuleDef>, bufs: seq<seq<real>>, m: Metric)
    requires |bufs| == |defs| && NoStray(defs, m)
    ensures Agrees(env, defs, bufs, m)
  {
    hide Reports, Meant, Positions, RunAll, Hits;
    LookupIsScan(env, defs, bufs, m, true);
    if Normalize(m.agentID) != "*" {
      var step := Reports(env, m);
      var own := States(step, Meant(m, OwnAgent), defs, bufs);
      LookupIsScan(env, defs, own, m, false);
      forall i | 0 <= i < |defs|
        ensures StepIf(step, Meant(m, AnyAgent), defs[i], own[i]).1 == StepIf(step, Meant(m, AnyAgent), defs[i], bufs[i]).1
        ensures StepIf(step, Meant(m, AnyAgent), defs[i], own[i]).0 == StepIf(step, Meant(m, Everything), defs[i], bufs[i]).0
      {
        ScopesDisjoint(env, m, defs[i], bufs[i]);
      }
      SameHits(step, Meant(m, AnyAgent), own, step, Meant(m, AnyAgent), bufs, defs, |defs|);
      assert States(step, Meant(m, AnyAgent), defs, own) == ScanBuffers(env, defs, bufs, m);
    }
  }

  /** Rules that compare the metric name never stray, and for agents that cannot be read as the wildcard
      followed by part of a name no rule does. */
  lemma NoStrayIfUnambiguous(defs: seq<RuleDef>, m: Metric)
    requires Plain(m.agentID) || forall i :: 0 <= i < |defs| ==> ChecksName(defs[i].cfg)
    ensures NoStray(defs, m)
  {
    forall i | 0 <= i < |defs| && LookedUp(defs[i].cfg, m) && Accepts(defs[i].cfg, m) ensures Matches(defs[i].cfg, m) {
      LookedUpMatches(defs[i].cfg, m, FiledUnder(defs[i].cfg, m, true));
    }
  }

  // ----- exactly when index and scan agree -----

  function Emptied(n: nat): (bufs: seq<seq<real>>)
    ensures |bufs| == n && forall i :: 0 <= i < n ==> bufs[i] == []
  {
    seq(n, _ => [])
  }

  /** An environment in which every script triggers. */
  function Triggering(): Env {
    Env((x: real) => 0.0, (script: string, m: Metric) => Some(""), (id: string, history: seq<real>, m: Metric) => None)
  }

  /** The windows after an evaluation, rule by rule. */
  lemma EngineBuffers(env: Env, defs: seq<RuleDef>, bufs: seq<seq<real>>, m: Metric, i: nat)
    requires |bufs| == |defs| && i < |defs|
    ensures var step := Reports(env, m);
            var own := StepIf(step, FiledAt(LookupKey(m, true)), defs[i], bufs[i]).0;
            EngineStep(env, defs, bufs, m).0[i]
            == if Normalize(m.agentID) == "*" then own else StepIf(step, FiledAt(LookupKey(m, false)), defs[i], own).0
  {
    hide Reports, RunAll, Positions, FiledAt, StepIf;
    var step := Reports(env, m);
    RunSelected(step, FiledAt(LookupKey(m, true)), defs, bufs);
    RunSelected(step, FiledAt(LookupKey(m, false)), defs, States(step, FiledAt(LookupKey(m, true)), defs, bufs));
  }

  lemma FiledOnce(cfg: RuleConfig, m: Metric)
    requires Normalize(m.agentID) != "*"
    ensures !(FiledUnder(cfg, m, true) && FiledUnder(cfg, m, false))
  {
    KeyHeads(Normalize(m.agentID), "*", m.name);
  }

  /** A stray rule with a window keeps the value, which the scan does not. */
  lemma StrayWindowMoves(env: Env, defs: seq<RuleDef>, m: Metric, j: nat)
    requires j < |defs| && Stray(defs[j].cfg, m) && Windowed(defs[j].cfg)
    ensures !Agrees(env, defs, Emptied(|defs|), m)
  {
    var bufs := Emptied(|defs|);
    EngineBuffers(env, defs, bufs, m, j);
    StrayReport(env, m, defs[j]);
    if Normalize(m.agentID) != "*" {
      FiledOnce(defs[j].cfg, m);
    }
    hide EngineStep, Reports;
    assert ScanBuffers(env, defs, bufs, m)[j] == [];
  }

  lemma StrayReport(env: Env, m: Metric, def: RuleDef)
    requires Stray(def.cfg, m) && Windowed(def.cfg)
    ensures Reports(env, m)(def, []).0 == [m.value]
  {
    assert [] + [m.value] == [m.value];
  }

  /** The second lookup's selection, empty if the first one was for the wildcard already. */
  function SecondLookup(m: Metric): RuleDef -> bool {
    (def: RuleDef) => Normalize(m.agentID) != "*" && FiledUnder(def.cfg, m, false)
  }

  /** What the two lookups report of a rule, one after the other. */
  function LookupReports(env: Env, m: Metric, def: RuleDef, buf: seq<real>): (seq<Anomaly>, seq<Anomaly>) {
    var first := StepIf(Reports(env, m), FiledAt(LookupKey(m, true)), def, buf);
    (first.1, StepIf(Reports(env, m), SecondLookup(m), def, first.0).1)
  }

  lemma LookupsReportMore(env: Env, m: Metric, def: RuleDef, buf: seq<real>)
    ensures var (own, wild) := LookupReports(env, m, def, buf);
            |own| + |wild| >= |StepIf(Reports(env, m), Meant(m, Everything), def, buf).1|
  {
    hide Reports;
    if Matches(def.cfg, m) {
      MatchingIsLookedUp(def.cfg, m);
    }
  }

  lemma StrayScriptReports(m: Metric, def: RuleDef, buf: seq<real>)
    requires Stray(def.cfg, m) && !Windowed(def.cfg)
    ensures var (own, wild) := LookupReports(Triggering(), m, def, buf);
            |own| + |wild| > |StepIf(Reports(Triggering(), m), Meant(m, Everything), def, buf).1|
  {}

  lemma EngineHitsAreLookups(env: Env, defs: seq<RuleDef>, bufs: seq<seq<real>>, m: Metric)
    requires |bufs| == |defs|
    ensures var step := Reports(env, m);
            var own := States(step, FiledAt(LookupKey(m, true)), defs, bufs);
            |EngineStep(env, defs, bufs, m).1|
            == |Hits(step, FiledAt(LookupKey(m, true)), defs, bufs, |defs|)| + |Hits(step, SecondLookup(m), defs, own, |defs|)|
  {
    hide Reports, RunAll, Positions, FiledUnder;
    var step := Reports(env, m);
    RunSelected(step, FiledAt(LookupKey(m, true)), defs, bufs);
    var own := States(step, FiledAt(LookupKey(m, true)), defs, bufs);
    if Normalize(m.agentID) == "*" {
      NoHits(step, SecondLookup(m), defs, own, |defs|);
    } else {
      RunSelected(step, FiledAt(LookupKey(m, false)), defs, own);
      SecondLookupSame(env, m, defs, own);
    }
  }

  lemma SecondLookupSame(env: Env, m: Metric, defs: seq<RuleDef>, bufs: seq<seq<real>>)
    requires |bufs| == |defs| && Normalize(m.agentID) != "*"
    ensures Hits(Reports(env, m), SecondLookup(m), defs, bufs, |defs|)
            == Hits(Reports(env, m), FiledAt(LookupKey(m, false)), defs, bufs, |defs|)
  {
    hide Reports, Hits;
    SameHits(Reports(env, m), SecondLookup(m), bufs, Reports(env, m), FiledAt(LookupKey(m, false)), bufs, defs, |defs|);
  }

  lemma ScanLength(env: Env, defs: seq<RuleDef>, bufs: seq<seq<real>>, m: Metric)
    requires |bufs| == |defs|
    ensures |ScanHits(env, defs, bufs, m, OwnAgent) + ScanHits(env, defs, bufs, m, AnyAgent)|
            == |ScanHits(env, defs, bufs, m, Everything)|
  {
    hide Hits, Reports;
    SplitHits(Reports(env, m), Meant(m, Everything), Meant(m, OwnAgent), Meant(m, AnyAgent), defs, bufs, |defs|);
    var both := ScanHits(env, defs, bufs, m, OwnAgent) + ScanHits(env, defs, bufs, m, AnyAgent);
    assert |both| == |multiset(both)| == |multiset(ScanHits(env, defs, bufs, m, Everything))|
           == |ScanHits(env, defs, bufs, m, Everything)|;
  }

  /** A stray script rule reports, once its script triggers, what the scan does not. */
  lemma StrayScriptMisfires(defs: seq<RuleDef>, m: Metric, j: nat)
    requires j < |defs| && Stray(defs[j].cfg, m) && !Windowed(defs[j].cfg)
    ensures !Agrees(Triggering(), defs, Emptied(|defs|), m)
  {
    hide EngineStep, Hits, Reports, FiledAt, Meant, SecondLookup, Stray, Triggering;
    var env, bufs := Triggering(), Emptied(|defs|);
    var step, own := Reports(env, m), FiledAt(LookupKey(m, true));
    forall k | 0 <= k < |defs|
      ensures |StepIf(step, own, defs[k], bufs[k]).1| + |StepIf(step, SecondLookup(m), defs[k], States(step, own, defs, bufs)[k]).1|
              >= |StepIf(step, Meant(m, Everything), defs[k], bufs[k]).1|
    {
      LookupsReportMore(env, m, defs[k], bufs[k]);
    }
    StrayScriptReports(m, defs[j], bufs[j]);
    MoreHits(step, own, SecondLookup(m), Meant(m, Everything), defs, bufs, States(step, own, defs, bufs), |defs|, j);
    EngineHitsAreLookups(env, defs, bufs, m);
    ScanLength(env, defs, bufs, m);
  }

  /** Indexed evaluation agrees with the scan in every environment and on all windows if and only if no rule
      strays. Whether one does is read off the configurations, the agent and the name. */
  lemma AgreesIff(defs: seq<RuleDef>, m: Metric)
    ensures (forall env, bufs :: |bufs| == |defs| ==> Agrees(env, defs, bufs, m)) <==> NoStray(defs, m)
  {
    hide Agrees, Stray;
    if NoStray(defs, m) {
      forall env, bufs | |bufs| == |defs| ensures Agrees(env, defs, bufs, m) {
        EngineAgreesWithScan(env, defs, bufs, m);
      }
    } else {
      var j: nat :| j < |defs| && Stray(defs[j].cfg, m);
      if Windowed(defs[j].cfg) {
        StrayWindowMoves(Triggering(), defs, m, j);
      } else {
        StrayScriptMisfires(defs, m, j);
      }
      assert !Agrees(Triggering(), defs, Emptied(|defs|), m);
    }
  }

  /** Taking the agent's own rules first only reorders what the scan reports. */
  lemma EngineHitsAreScanHits(env: Env, defs: seq<RuleDef>, bufs: seq<seq<real>>, m: Metric)
    requires |bufs| == |defs| && NoStray(defs, m)
    ensures multiset(EngineStep(env, defs, bufs, m).1) == multiset(ScanHits(env, defs, bufs, m, Everything))
  {
    EngineAgreesWithScan(env, defs, bufs, m);
    SplitHits(Reports(env, m), Meant(m, Everything), Meant(m, OwnAgent), Meant(m, AnyAgent), defs, bufs, |defs|);
  }

  lemma ReportIsStamped(env: Env, m: Metric, def: RuleDef, buf: seq<real>)
    ensures forall a :: a in Reports(env, m)(def, buf).1 ==>
              a.agentID == m.agentID && a.metric == m.name && a.metricID == m.id && a.rule == def.cfg.name
  {}

  lemma {:induction false} HitStamps(env: Env, m: Metric, p: RuleDef -> bool, defs: seq<RuleDef>, bufs: seq<seq<real>>, n: nat, x: Anomaly)
    requires |bufs| == |defs| && n <= |defs|
    requires x in Hits(Reports(env, m), p, defs, bufs, n)
    ensures x.metricID == m.id
  {
    hide Reports;
    if n > 0 {
      if x in Hits(Reports(env, m), p, defs, bufs, n - 1) {
        HitStamps(env, m, p, defs, bufs, n - 1, x);
      } else {
        ReportIsStamped(env, m, defs[n-1], bufs[n-1]);
      }
    }
  }

  /** What one lookup reports names the metric, whatever rules are filed under the key. */
  lemma LookupStamps(env: Env, defs: seq<RuleDef>, bufs: seq<seq<real>>, m: Metric, key: string)
    requires |bufs| == |defs|
    ensures forall x ::
              x in RunAll(Reports(env, m), defs, bufs, Positions(defs, FiledAt(key), |defs|)).1 ==> x.metricID == m.id
  {
    RunSelected(Reports(env, m), FiledAt(key), defs, bufs);
    forall x | x in Hits(Reports(env, m), FiledAt(key), defs, bufs, |defs|) ensures x.metricID == m.id {
      HitStamps(env, m, FiledAt(key), defs, bufs, |defs|, x);
    }
  }

  /** Whatever the rules are, a report names the metric it was found in. */
  lemma StepStamps(env: Env, defs: seq<RuleDef>, bufs: seq<seq<real>>, m: Metric)
    requires |bufs| == |defs|
    ensures forall x :: x in EngineStep(env, defs, bufs, m).1 ==> x.metricID == m.id
  {
    hide RunAll, Positions, Reports, FiledAt;
    var own := RunAll(Reports(env, m), defs, bufs, Positions(defs, FiledAt(LookupKey(m, true)), |defs|));
    LookupStamps(env, defs, bufs, m, LookupKey(m, true));
    LookupStamps(env, defs, own.0, m, LookupKey(m, false));
  }

  lemma {:induction false} RunStamps(env: Env, defs: seq<RuleDef>, bufs: seq<seq<real>>, ms: seq<Metric>, x: Anomaly)
    requires |bufs| == |defs| && x in EngineRun(env, defs, bufs, ms).1
    ensures exists k :: 0 <= k < |ms| && ms[k].id == x.metricID
  {
    hide EngineStep;
    var before, m := ms[..|ms|-1], ms[|ms|-1];
    StepStamps(env, defs, EngineRun(env, defs, bufs, before).0, m);
    if x in EngineRun(env, defs, bufs, before).1 {
      RunStamps(env, defs, bufs, before, x);
      var k :| 0 <= k < |before| && before[k].id == x.metricID;
      assert ms[k].id == x.metricID;
    }
  }

  /** Every report carries the metric's agent, name and id, and names a rule meant for the metric. */
  lemma EngineHitsAreStamped(env: Env, defs: seq<RuleDef>, bufs: seq<seq<real>>, m: Metric, a: Anomaly)
    requires |bufs| == |defs| && NoStray(defs, m) && a in EngineStep(env, defs, bufs, m).1
    ensures a.agentID == m.agentID && a.metric == m.name && a.metricID == m.id
    ensures exists i :: 0 <= i < |defs| && Matches(defs[i].cfg, m) && a.rule == defs[i].cfg.name
  {
    EngineHitsAreScanHits(env, defs, bufs, m);
    assert a in multiset(ScanHits(env, defs, bufs, m, Everything));
    var i := HitOrigin(Reports(env, m), Meant(m, Everything), defs, bufs, |defs|, a);
    ReportIsStamped(env, m, defs[i], bufs[i]);
  }

  /** For an agent id that begins with the wildcard and a separator the agreement is lost: a script rule
      for any agent, filed under a longer metric name, runs on this metric although it is not meant
      for it. */
  lemma AmbiguousAgentMisfires(env: Env, def: RuleDef, m: Metric)
    requires !Plain(m.agentID)
    requires def.cfg.ruleType == Lua && def.cfg.agentID == "" && def.cfg.metric == m.agentID[2..] + ":" + m.name
    requires env.lua(def.cfg.script, m).Some?
    ensures EngineStep(env, [def], [[]], m).1 != []
    ensures ScanHits(env, [def], [[]], m, Everything) == []
  {
    assert m.agentID == "*:" + m.agentID[2..];
    assert "*" + ":" + (m.agentID[2..] + ":" + m.name) == m.agentID + ":" + m.name;
    assert RuleKey(def.cfg) == LookupKey(m, true);
    assert |def.cfg.metric| > |m.name|;
    RunSelected(Reports(env, m), FiledAt(LookupKey(m, true)), [def], [[]]);
    assert Hits(Reports(env, m), FiledAt(LookupKey(m, true)), [def], [[]], 1)
           == Hits(Reports(env, m), FiledAt(LookupKey(m, true)), [def], [[]], 0) + Reports(env, m)(def, []).1;
    assert Hits(Reports(env, m), Meant(m, Everything), [def], [[]], 1)
           == Hits(Reports(env, m), Meant(m, Everything), [def], [[]], 0);
  }
}
