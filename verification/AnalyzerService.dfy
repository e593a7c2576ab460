/** One poll of one analyzer as the program runs it: fetch, evaluate, split, mark, publish, mark, with an
early return at every failure.

Every poll is shown to be a run of the protocol's steps, so the protocol's safety covers it, and polls
without failures are shown to drain the backlog batch by batch. */
module AnalyzerService {
  import opened Wrappers
  import opened Rules
  import opened AnalyzerProtocol
  import Engine = RuleEngine
  import Chunks

  /** What goes wrong during one poll: `locked` rows are skipped by the fetch; a failing publish has
      written exactly the anomalies at the positions it kept. */
  datatype Faults = Faults(fetchFails: bool, locked: set<int>, normal: CallOutcome,
                           publishKept: Option<set<nat>>, notified: CallOutcome)

  const NO_FAULTS: Faults := Faults(false, {}, Acknowledged, None, Acknowledged)

  /** Puts a metric behind those that are not newer. */
  function InsertByTime(ms: seq<Metric>, m: Metric): seq<Metric> {
    if ms == [] || ms[|ms|-1].timestamp <= m.timestamp then ms + [m]
    else InsertByTime(ms[..|ms|-1], m) + [ms[|ms|-1]]
  }

  predicate Waiting(row: Row, locked: set<int>) {
    row.analyzedBy == None && row.metric.id !in locked
  }

  /** The unanalyzed metrics whose rows are not locked, oldest first; equally old ones in table order. */
  function Unanalyzed(rows: seq<Row>, locked: set<int>): seq<Metric> {
    if rows == [] then []
    else
      var before, row := Unanalyzed(rows[..|rows|-1], locked), rows[|rows|-1];
      if Waiting(row, locked) then InsertByTime(before, row.metric) else before
  }

  function Take(ms: seq<Metric>, limit: nat): seq<Metric> {
    if |ms| <= limit then ms else ms[..limit]
  }

  /** The anomalies at kept positions below n, in order. */
  function Written(anomalies: seq<Anomaly>, kept: set<nat>, n: nat): seq<Anomaly>
    requires n <= |anomalies|
  {
    if n == 0 then [] else Written(anomalies, kept, n - 1) + (if n - 1 in kept then [anomalies[n-1]] else [])
  }

  /** Table and log after the publishing half of a poll whose normal metrics are marked. */
  function AfterNormal(rows: seq<Row>, log: seq<Anomaly>, who: string, batch: seq<Metric>, anomalies: seq<Anomaly>, f: Faults)
    : (seq<Row>, seq<Anomaly>)
  {
    var notify := NotifyIDs(batch, anomalies);
    if notify == [] then (rows, log)
    else
      match f.publishKept
      case Some(kept) => (rows, log + Written(anomalies, kept, |anomalies|))
      case None => (AfterMark(rows, notify, who, f.notified), log + anomalies)
  }

  /** Table and log after a poll that evaluated `batch` to `anomalies`. */
  function AfterJudging(rows: seq<Row>, log: seq<Anomaly>, who: string, batch: seq<Metric>, anomalies: seq<Anomaly>, f: Faults)
    : (seq<Row>, seq<Anomaly>)
  {
    var normal := NormalIDs(batch, anomalies);
    var marked := if normal == [] then rows else AfterMark(rows, normal, who, f.normal);
    if normal != [] && !MarkSucceeds(rows, normal, f.normal) then (marked, log)
    else AfterNormal(marked, log, who, batch, anomalies, f)
  }

  /** The metrics a poll takes. */
  function Batch(rows: seq<Row>, locked: set<int>, limit: nat): seq<Metric> {
    Take(Unanalyzed(rows, locked), limit)
  }

  /** How many rows are unanalyzed and not locked. */
  function WaitingRows(rows: seq<Row>, locked: set<int>): nat {
    if rows == [] then 0
    else
      var row := rows[|rows|-1];
      WaitingRows(rows[..|rows|-1], locked) + (if row.analyzedBy == None && row.metric.id !in locked then 1 else 0)
  }

  /** What the statement promises of its answer: unanalyzed metrics of rows that are not locked, as many as
      there are up to the limit, ordered by time, and none left out that is older than one taken. */
  ghost predicate IsFetch(rows: seq<Row>, locked: set<int>, limit: nat, answer: seq<Metric>) {
    && (forall x :: x in answer ==> Row(x, None) in rows && x.id !in locked)
    && |answer| == (if limit < WaitingRows(rows, locked) then limit else WaitingRows(rows, locked))
    && (forall i, j :: 0 <= i < j < |answer| ==> answer[i].timestamp <= answer[j].timestamp)
    && (forall x, y :: Row(x, None) in rows && x.id !in locked && x !in answer && y in answer ==> y.timestamp <= x.timestamp)
    && (UniqueIds(rows) ==> DistinctIds(answer))
  }

  /** Table and log after a poll, given what the engine finds in its batch. */
  function AfterPoll(rows: seq<Row>, log: seq<Anomaly>, who: string, limit: nat, anomalies: seq<Anomaly>, f: Faults)
    : (seq<Row>, seq<Anomaly>)
  {
    var batch := Batch(rows, f.locked, limit);
    if f.fetchFails || batch == [] then (rows, log)
    else AfterJudging(rows, log, who, batch, anomalies, f)
  }

  class AnalyzerService {
    const engine: Engine.RuleEngine
    const analyzerID: string
    const batchSize: nat
    var rows: seq<Row>
    var log: seq<Anomaly>

    /** Rules with windows are not evaluated in parallel batches. */
    ghost predicate Valid()
      reads engine
    {
      engine.Valid() && (batchSize >= Engine.PARALLEL_THRESHOLD ==> Engine.Stateless(engine.Defs()))
    }

    constructor (engine: Engine.RuleEngine, analyzerID: string, batchSize: nat, rows: seq<Row>, log: seq<Anomaly>)
      requires engine.Valid() && (batchSize >= Engine.PARALLEL_THRESHOLD ==> Engine.Stateless(engine.Defs()))
      ensures Valid() && this.engine == engine && this.analyzerID == analyzerID && this.batchSize == batchSize
      ensures this.rows == rows && this.log == log
    {
      this.engine := engine;
      this.analyzerID := analyzerID;
      this.batchSize := batchSize;
      this.rows := rows;
      this.log := log;
    }

    method FetchUnanalyzed(limit: nat, fails: bool, locked: set<int>) returns (r: Option<seq<Metric>>)
      ensures r == if fails then None else Some(Batch(rows, locked, limit))
      ensures r.Some? ==> IsFetch(rows, locked, limit, r.value)
    {
      BatchIsFetch(rows, locked, limit);
      hide IsFetch;
      if fails {
        return None;
      }
      var metrics := [];
      for i := 0 to |rows|
        invariant metrics == Unanalyzed(rows[..i], locked)
      {
        assert rows[..i + 1][..|rows[..i + 1]| - 1] == rows[..i];
        if Waiting(rows[i], locked) {
          metrics := InsertByTime(metrics, rows[i].metric);
        }
      }
      assert rows[..|rows|] == rows;
      return Some(Take(metrics, limit));
    }

    /** Marks the rows and answers how many there were, if the answer arrives. */
    method MarkAnalyzed(ids: seq<int>, outcome: CallOutcome) returns (affected: Option<nat>)
      modifies this`rows
      ensures rows == if ids == [] then old(rows) else AfterMark(old(rows), ids, analyzerID, outcome)
      ensures affected == if ids == [] then Some(0) else if outcome == Acknowledged then Some(Affected(old(rows), ids)) else None
    {
      if ids == [] {
        return Some(0);
      }
      affected := if outcome == Acknowledged then Some(Affected(rows, ids)) else None;
      if outcome != NotApplied {
        rows := Mark(rows, ids, analyzerID);
      }
    }

    method Produce(anomalies: seq<Anomaly>, kept: Option<set<nat>>) returns (ok: bool)
      modifies this`log
      ensures ok == (kept == None)
      ensures log == old(log) + if kept == None then anomalies else Written(anomalies, kept.value, |anomalies|)
    {
      var start := log;
      for k := 0 to |anomalies|
        invariant log == start + if kept == None then anomalies[..k] else Written(anomalies, kept.value, k)
      {
        if kept == None || k in kept.value {
          log := log + [anomalies[k]];
        }
      }
      return kept == None;
    }

    /** The ids of a batch, split by whether an anomaly names them. */
    method SplitIds(batch: seq<Metric>, anomalies: seq<Anomaly>) returns (normalIDs: seq<int>, notifyIDs: seq<int>)
      ensures normalIDs == NormalIDs(batch, anomalies) && notifyIDs == NotifyIDs(batch, anomalies)
    {
      var anomalyMetricIDs: set<int> := {};
      for k := 0 to |anomalies|
        invariant forall id :: id in anomalyMetricIDs <==> exists j :: 0 <= j < k && anomalies[j].metricID == id
      {
        anomalyMetricIDs := anomalyMetricIDs + {anomalies[k].metricID};
      }
      normalIDs, notifyIDs := [], [];
      for k := 0 to |batch|
        invariant normalIDs == NormalIDs(batch[..k], anomalies) && notifyIDs == NotifyIDs(batch[..k], anomalies)
      {
        assert batch[..k + 1][..|batch[..k + 1]| - 1] == batch[..k];
        if batch[k].id in anomalyMetricIDs {
          notifyIDs := notifyIDs + [batch[k].id];
        } else {
          normalIDs := normalIDs + [batch[k].id];
        }
      }
      assert batch[..|batch|] == batch;
    }

    /** One poll. `anomalies` is what the engine found in the batch, moving its windows. */
    method ProcessMetrics(env: Env, f: Faults) returns (ghost anomalies: seq<Anomaly>)
      requires Valid()
      modifies this`rows, this`log, engine.rules
      ensures Valid() && (rows, log) == AfterPoll(old(rows), old(log), analyzerID, batchSize, anomalies, f)
      ensures var batch := Batch(old(rows), f.locked, batchSize);
              if f.fetchFails || batch == [] then engine.Buffers() == old(engine.Buffers())
              else Engine.BatchEvaluated(env, engine.Defs(), old(engine.Buffers()), batch, engine.Buffers(), anomalies)
    {
      hide Unanalyzed, AfterJudging, Engine.BatchEvaluated, Engine.EngineRun, Engine.FiredBy, Engine.IndexOf,
        Engine.AllConfigured, Engine.Stateless, Chunks.Blocks, Chunks.IsOrder, Chunks.ChunkIds, Chunks.NumChunks;
      anomalies := [];
      var fetched := FetchUnanalyzed(batchSize, f.fetchFails, f.locked);
      if fetched == None || fetched.value == [] {
        return;
      }
      var metrics := fetched.value;
      var found, order := engine.EvaluateBatch(env, metrics);
      anomalies := found;
      MarkAndPublish(metrics, found, f);
    }

    /** The part of a poll after the evaluation. */
    method MarkAndPublish(metrics: seq<Metric>, anomalies: seq<Anomaly>, f: Faults)
      modifies this`rows, this`log
      ensures (rows, log) == AfterJudging(old(rows), old(log), analyzerID, metrics, anomalies, f)
      ensures var normal := NormalIDs(metrics, anomalies);
              normal != [] && (f.normal != Acknowledged || Affected(old(rows), normal) != |normal|) ==> log == old(log)
    {
      hide IdsWhere, Affected, Mark, Written;
      var normalIDs, notifyIDs := SplitIds(metrics, anomalies);
      if |normalIDs| > 0 {
        var affected := MarkAnalyzed(normalIDs, f.normal);
        if affected == None {
          return;
        }
        if affected.value != |normalIDs| {
          return;
        }
      }
      if |notifyIDs| > 0 {
        var ok := Produce(anomalies, f.publishKept);
        if !ok {
          return;
        }
        var affected := MarkAnalyzed(notifyIDs, f.notified);
      }
    }
  }

  // ----- every poll is a run of the protocol -----

  lemma ExecAppend(s: State, steps: seq<Step>, step: Step)
    ensures Exec(s, steps + [step]) == match Exec(s, steps) case None => None case Some(t) => Apply(t, step)
  {
    assert (steps + [step])[..|steps|] == steps;
  }

  lemma ExecNone(s: State)
    ensures Exec(s, []) == Some(s)
  {}

  /** The longer run fetches nothing more. */
  ghost predicate NoNewFetch(steps: seq<Step>, longer: seq<Step>) {
    |steps| <= |longer| && forall k :: 0 <= k < |longer| && longer[k].Fetch? ==> k < |steps| && longer[k] == steps[k]
  }

  ghost predicate SameElsewhere(s: State, t: State, who: string) {
    forall other :: other != who ==> PhaseOf(s, other) == PhaseOf(t, other)
  }

  lemma {:induction false} InsertByTimeMembers(ms: seq<Metric>, m: Metric, x: Metric)
    ensures multiset(InsertByTime(ms, m))[x] == multiset(ms)[x] + (if x == m then 1 else 0)
  {
    if ms != [] && ms[|ms|-1].timestamp > m.timestamp {
      InsertByTimeMembers(ms[..|ms|-1], m, x);
      assert ms == ms[..|ms|-1] + [ms[|ms|-1]];
    }
  }

  predicate TimeOrdered(ms: seq<Metric>) {
    forall i, j :: 0 <= i < j < |ms| ==> ms[i].timestamp <= ms[j].timestamp
  }

  lemma {:induction false} InsertByTimeOrdered(ms: seq<Metric>, m: Metric)
    requires TimeOrdered(ms)
    ensures TimeOrdered(InsertByTime(ms, m))
    ensures var r := InsertByTime(ms, m);
            r[|r|-1].timestamp == if ms == [] || ms[|ms|-1].timestamp <= m.timestamp then m.timestamp else ms[|ms|-1].timestamp
  {
    if ms != [] && ms[|ms|-1].timestamp > m.timestamp {
      InsertByTimeOrdered(ms[..|ms|-1], m);
    }
  }

  /** The oldest metrics come first. */
  lemma {:induction false} UnanalyzedOrdered(rows: seq<Row>, locked: set<int>)
    ensures TimeOrdered(Unanalyzed(rows, locked))
  {
    if rows != [] {
      UnanalyzedOrdered(rows[..|rows|-1], locked);
      if Waiting(rows[|rows|-1], locked) {
        InsertByTimeOrdered(Unanalyzed(rows[..|rows|-1], locked), rows[|rows|-1].metric);
      }
    }
  }

  lemma {:induction false} UnanalyzedMembers(rows: seq<Row>, locked: set<int>, x: Metric)
    ensures x in Unanalyzed(rows, locked) <==> Row(x, None) in rows && x.id !in locked
  {
    if rows != [] {
      var before, row := rows[..|rows|-1], rows[|rows|-1];
      UnanalyzedMembers(before, locked, x);
      InsertByTimeMembers(Unanalyzed(before, locked), row.metric, x);
      assert rows == before + [row];
      assert x in Unanalyzed(rows, locked) <==> x in multiset(Unanalyzed(rows, locked));
      assert x in Unanalyzed(before, locked) <==> x in multiset(Unanalyzed(before, locked));
    }
  }

  lemma UnanalyzedInTable(rows: seq<Row>, locked: set<int>, k: nat)
    requires k < |Unanalyzed(rows, locked)|
    ensures Row(Unanalyzed(rows, locked)[k], None) in rows && Unanalyzed(rows, locked)[k].id !in locked
  {
    UnanalyzedMembers(rows, locked, Unanalyzed(rows, locked)[k]);
  }

  lemma {:induction false} InsertByTimeDistinct(ms: seq<Metric>, m: Metric)
    requires DistinctIds(ms) && forall k :: 0 <= k < |ms| ==> ms[k].id != m.id
    ensures DistinctIds(InsertByTime(ms, m))
  {
    if ms != [] && ms[|ms|-1].timestamp > m.timestamp {
      var before, last := ms[..|ms|-1], ms[|ms|-1];
      InsertByTimeDistinct(before, m);
      forall k | 0 <= k < |InsertByTime(before, m)| ensures InsertByTime(before, m)[k].id != last.id {
        var x := InsertByTime(before, m)[k];
        InsertByTimeMembers(before, m, x);
        assert x in multiset(InsertByTime(before, m));
        assert x in before || x == m;
      }
    }
  }

  lemma {:induction false} UnanalyzedDistinct(rows: seq<Row>, locked: set<int>)
    requires UniqueIds(rows)
    ensures DistinctIds(Unanalyzed(rows, locked))
  {
    if rows != [] {
      var before, row := rows[..|rows|-1], rows[|rows|-1];
      UnanalyzedDistinct(before, locked);
      if Waiting(row, locked) {
        forall k | 0 <= k < |Unanalyzed(before, locked)| ensures Unanalyzed(before, locked)[k].id != row.metric.id {
          UnanalyzedInTable(before, locked, k);
        }
        InsertByTimeDistinct(Unanalyzed(before, locked), row.metric);
      }
    }
  }

  lemma {:induction false} InsertByTimeLength(ms: seq<Metric>, m: Metric)
    ensures |InsertByTime(ms, m)| == |ms| + 1
  {
    if ms != [] && ms[|ms|-1].timestamp > m.timestamp {
      InsertByTimeLength(ms[..|ms|-1], m);
    }
  }

  lemma {:induction false} UnanalyzedLength(rows: seq<Row>, locked: set<int>)
    ensures |Unanalyzed(rows, locked)| == WaitingRows(rows, locked)
  {
    if rows != [] {
      UnanalyzedLength(rows[..|rows|-1], locked);
      InsertByTimeLength(Unanalyzed(rows[..|rows|-1], locked), rows[|rows|-1].metric);
    }
  }

  lemma PrefixHolds(ms: seq<Metric>, n: nat, i: nat)
    requires n <= |ms| && i < |ms|
    ensures i < n ==> ms[i] in ms[..n]
  {
    if i < n {
      assert ms[..n][i] == ms[i];
    }
  }

  /** A poll takes what the statement promises. */
  lemma BatchIsFetch(rows: seq<Row>, locked: set<int>, limit: nat)
    ensures IsFetch(rows, locked, limit, Batch(rows, locked, limit))
  {
    hide Unanalyzed, WaitingRows, UniqueIds;
    var all, answer := Unanalyzed(rows, locked), Batch(rows, locked, limit);
    UnanalyzedLength(rows, locked);
    UnanalyzedOrdered(rows, locked);
    if UniqueIds(rows) {
      UnanalyzedDistinct(rows, locked);
    }
    forall x | x in answer ensures Row(x, None) in rows && x.id !in locked {
      UnanalyzedMembers(rows, locked, x);
    }
    forall x, y | Row(x, None) in rows && x.id !in locked && x !in answer && y in answer ensures y.timestamp <= x.timestamp {
      UnanalyzedMembers(rows, locked, x);
      var i :| 0 <= i < |all| && all[i] == x;
      var j :| 0 <= j < |answer| && answer[j] == y;
      PrefixHolds(all, |answer|, i);
      assert answer == all[..|answer|] && all[j] == y;
    }
  }

  lemma SameElsewhereTransitive(s: State, t: State, u: State, who: string)
    requires SameElsewhere(s, t, who) && SameElsewhere(t, u, who)
    ensures SameElsewhere(s, u, who)
  {}

  /** A run ended by a publishing analyzer: done, then the final marks. */
  lemma NotifiedIsRun(s: State, steps: seq<Step>, who: string, batch: seq<Metric>, anomalies: seq<Anomaly>, outcome: CallOutcome)
    returns (steps': seq<Step>)
    requires Exec(s, steps).Some? && PhaseOf(Exec(s, steps).value, who) == Publishing(batch, anomalies, {})
    ensures Exec(s, steps').Some?
    ensures var t, t' := Exec(s, steps).value, Exec(s, steps').value;
            && PhaseOf(t', who) == Idle && SameElsewhere(t, t', who) && t'.log == t.log
            && t'.rows == AfterMark(t.rows, NotifyIDs(batch, anomalies), who, outcome)
    ensures NoNewFetch(steps, steps')
  {
    hide IdsWhere, Mark, Affected, Exec, NotifyIDs;
    ExecAppend(s, steps, PublishDone(who));
    steps' := steps + [PublishDone(who)];
    ExecAppend(s, steps', MarkNotified(who, outcome));
    steps' := steps' + [MarkNotified(who, outcome)];
  }

  /** The positions still to be written when the kept ones below n have been. */
  function Remaining(total: nat, kept: set<nat>, n: nat): set<nat> {
    set k | k in Chunks.Ids(total) && !(k < n && k in kept)
  }

  /** Writing the kept anomalies one by one. */
  lemma {:induction false} WriteKept(s: State, steps: seq<Step>, who: string, batch: seq<Metric>, anomalies: seq<Anomaly>, kept: set<nat>, n: nat)
    returns (steps': seq<Step>)
    requires n <= |anomalies|
    requires Exec(s, steps).Some? && PhaseOf(Exec(s, steps).value, who) == Publishing(batch, anomalies, Chunks.Ids(|anomalies|))
    ensures Exec(s, steps').Some?
    ensures var t, t' := Exec(s, steps).value, Exec(s, steps').value;
            && t'.rows == t.rows && t'.log == t.log + Written(anomalies, kept, n) && SameElsewhere(t, t', who)
            && PhaseOf(t', who) == Publishing(batch, anomalies, Remaining(|anomalies|, kept, n))
    ensures NoNewFetch(steps, steps')
  {
    hide Exec;
    steps' := steps;
    if n == 0 {
      assert Remaining(|anomalies|, kept, 0) == Chunks.Ids(|anomalies|);
    } else {
      steps' := WriteKept(s, steps, who, batch, anomalies, kept, n - 1);
      var pending, next := Remaining(|anomalies|, kept, n - 1), Remaining(|anomalies|, kept, n);
      if n - 1 in kept {
        ExecAppend(s, steps', PublishOne(who, n - 1));
        steps' := steps' + [PublishOne(who, n - 1)];
        assert next == pending - {n - 1};
      } else {
        assert next == pending;
      }
    }
  }

  lemma {:induction false} WrittenAll(anomalies: seq<Anomaly>, n: nat)
    requires n <= |anomalies|
    ensures Written(anomalies, Chunks.Ids(|anomalies|), n) == anomalies[..n]
  {
    if n > 0 {
      WrittenAll(anomalies, n - 1);
    }
  }

  /** Publishing and the final marks, as steps. */
  lemma PublishIsRun(s: State, steps: seq<Step>, who: string, batch: seq<Metric>, anomalies: seq<Anomaly>, f: Faults)
    returns (steps': seq<Step>)
    requires Exec(s, steps).Some? && PhaseOf(Exec(s, steps).value, who) == NormalMarked(batch, anomalies)
    requires NotifyIDs(batch, anomalies) != []
    ensures Exec(s, steps').Some?
    ensures var t, t' := Exec(s, steps).value, Exec(s, steps').value;
            && PhaseOf(t', who) == Idle && SameElsewhere(t, t', who)
            && (t'.rows, t'.log) ==
               match f.publishKept
               case Some(kept) => (t.rows, t.log + Written(anomalies, kept, |anomalies|))
               case None => (AfterMark(t.rows, NotifyIDs(batch, anomalies), who, f.notified), t.log + anomalies)
    ensures NoNewFetch(steps, steps')
  {
    hide IdsWhere, Mark, Affected, Exec, Written, NotifyIDs, SameElsewhere;
    var t := Exec(s, steps).value;
    steps' := BeginIsRun(s, steps, who, batch, anomalies);
    var begun := Exec(s, steps').value;
    var kept := if f.publishKept.Some? then f.publishKept.value else Chunks.Ids(|anomalies|);
    steps' := WriteKept(s, steps', who, batch, anomalies, kept, |anomalies|);
    var written := Exec(s, steps').value;
    SameElsewhereTransitive(t, begun, written, who);
    if f.publishKept.Some? {
      steps' := GiveUpIsRun(s, steps', who);
    } else {
      WrittenAll(anomalies, |anomalies|);
      assert anomalies[..|anomalies|] == anomalies;
      assert Remaining(|anomalies|, kept, |anomalies|) == {};
      steps' := NotifiedIsRun(s, steps', who, batch, anomalies, f.notified);
    }
    SameElsewhereTransitive(t, written, Exec(s, steps').value, who);
  }

  lemma BeginIsRun(s: State, steps: seq<Step>, who: string, batch: seq<Metric>, anomalies: seq<Anomaly>)
    returns (steps': seq<Step>)
    requires Exec(s, steps).Some? && PhaseOf(Exec(s, steps).value, who) == NormalMarked(batch, anomalies)
    requires NotifyIDs(batch, anomalies) != []
    ensures Exec(s, steps').Some? && NoNewFetch(steps, steps')
    ensures var t, t' := Exec(s, steps).value, Exec(s, steps').value;
            && PhaseOf(t', who) == Publishing(batch, anomalies, Chunks.Ids(|anomalies|))
            && SameElsewhere(t, t', who) && t'.log == t.log && t'.rows == t.rows
  {
    hide IdsWhere, Exec, NotifyIDs;
    ExecAppend(s, steps, BeginPublish(who));
    steps' := steps + [BeginPublish(who)];
  }

  lemma GiveUpIsRun(s: State, steps: seq<Step>, who: string) returns (steps': seq<Step>)
    requires Exec(s, steps).Some?
    ensures Exec(s, steps').Some? && NoNewFetch(steps, steps')
    ensures var t, t' := Exec(s, steps).value, Exec(s, steps').value;
            PhaseOf(t', who) == Idle && SameElsewhere(t, t', who) && t'.log == t.log && t'.rows == t.rows
  {
    hide Exec;
    ExecAppend(s, steps, GiveUp(who));
    steps' := steps + [GiveUp(who)];
  }

  /** Every poll, whatever the engine finds and whatever goes wrong in it, is a run of protocol steps of its
      analyzer. */
  lemma PollIsRun(s: State, who: string, limit: nat, anomalies: seq<Anomaly>, f: Faults) returns (steps: seq<Step>)
    requires PhaseOf(s, who) == Idle && UniqueIds(s.rows)
    ensures Exec(s, steps).Some?
    ensures var t := Exec(s, steps).value;
            && (t.rows, t.log) == AfterPoll(s.rows, s.log, who, limit, anomalies, f)
            && PhaseOf(t, who) == Idle && SameElsewhere(s, t, who)
    ensures forall k :: 0 <= k < |steps| && steps[k].Fetch? ==>
              steps[k].batch == Batch(s.rows, f.locked, limit) && steps[k].anomalies == anomalies
  {
    hide Unanalyzed;
    steps := [];
    var batch := Batch(s.rows, f.locked, limit);
    if !f.fetchFails && batch != [] {
      steps := JudgedPollIsRun(s, who, batch, anomalies, f) by {
        UnanalyzedDistinct(s.rows, f.locked);
        forall k | 0 <= k < |batch| ensures Row(batch[k], None) in s.rows {
          UnanalyzedInTable(s.rows, f.locked, k);
        }
      }
    }
  }

  lemma JudgedPollIsRun(s: State, who: string, batch: seq<Metric>, anomalies: seq<Anomaly>, f: Faults)
    returns (steps: seq<Step>)
    requires PhaseOf(s, who) == Idle && DistinctIds(batch)
    requires forall k :: 0 <= k < |batch| ==> Row(batch[k], None) in s.rows
    ensures Exec(s, steps).Some?
    ensures var t := Exec(s, steps).value;
            && (t.rows, t.log) == AfterJudging(s.rows, s.log, who, batch, anomalies, f)
            && PhaseOf(t, who) == Idle && SameElsewhere(s, t, who)
    ensures forall k :: 0 <= k < |steps| && steps[k].Fetch? ==>
              steps[k].batch == batch && steps[k].anomalies == anomalies
  {
    hide IdsWhere, Mark, Affected, Written, Exec, NormalIDs, NotifyIDs;
    var normal := NormalIDs(batch, anomalies);
    var outcome := if normal == [] then Acknowledged else f.normal;
    ExecNone(s);
    ExecAppend(s, [], Fetch(who, batch, anomalies));
    steps := [] + [Fetch(who, batch, anomalies)];
    ExecAppend(s, steps, MarkNormal(who, outcome));
    NothingToMark(s.rows, who);
    steps := steps + [MarkNormal(who, outcome)];
    if MarkSucceeds(s.rows, normal, outcome) {
      steps := FinishIsRun(s, steps, who, batch, anomalies, f);
    }
  }

  lemma FinishIsRun(s: State, steps: seq<Step>, who: string, batch: seq<Metric>, anomalies: seq<Anomaly>, f: Faults)
    returns (steps': seq<Step>)
    requires Exec(s, steps).Some? && PhaseOf(Exec(s, steps).value, who) == NormalMarked(batch, anomalies)
    ensures Exec(s, steps').Some?
    ensures var t, t' := Exec(s, steps).value, Exec(s, steps').value;
            && PhaseOf(t', who) == Idle && SameElsewhere(t, t', who)
            && (t'.rows, t'.log) == AfterNormal(t.rows, t.log, who, batch, anomalies, f)
    ensures NoNewFetch(steps, steps')
  {
    hide IdsWhere, Mark, Affected, Written, Exec, NotifyIDs;
    if NotifyIDs(batch, anomalies) == [] {
      steps' := GiveUpIsRun(s, steps, who);
    } else {
      steps' := PublishIsRun(s, steps, who, batch, anomalies, f);
    }
  }

  lemma {:induction false} NothingToMark(rows: seq<Row>, who: string)
    ensures Mark(rows, [], who) == rows && Affected(rows, []) == 0
  {
    if rows != [] {
      NothingToMark(rows[..|rows|-1], who);
    }
  }
}
