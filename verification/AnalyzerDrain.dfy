/** Polls without failures: one analyzer alone works through the backlog batch by batch. */
module AnalyzerDrain {
  import opened Wrappers
  import opened Rules
  import opened AnalyzerProtocol
  import opened AnalyzerService
  import opened Chunks
  import Engine = RuleEngine

  /** Anomalies name metrics of the batch they were found in. */
  ghost predicate NamesBatch(batch: seq<Metric>, anomalies: seq<Anomaly>) {
    forall k :: 0 <= k < |anomalies| ==> HasId(batch, anomalies[k].metricID)
  }

  function IdsOf(ms: seq<Metric>): (ids: seq<int>)
    ensures |ids| == |ms| && forall k :: 0 <= k < |ms| ==> ids[k] == ms[k].id
  {
    seq(|ms|, k requires 0 <= k < |ms| => ms[k].id)
  }

  function Backlog(rows: seq<Row>): seq<Metric> {
    Unanalyzed(rows, {})
  }

  /** A poll that nothing disturbs, given what the engine finds in its batch. */
  function Poll(rows: seq<Row>, log: seq<Anomaly>, who: string, limit: nat, anomalies: seq<Anomaly>)
    : (seq<Row>, seq<Anomaly>)
  {
    AfterPoll(rows, log, who, limit, anomalies, NO_FAULTS)
  }

  // ----- marking -----

  lemma MarkTwice(rows: seq<Row>, xs: seq<int>, ys: seq<int>, who: string)
    ensures Mark(Mark(rows, xs, who), ys, who) == Mark(rows, xs + ys, who)
  {}

  lemma MarkSameIds(rows: seq<Row>, xs: seq<int>, ys: seq<int>, who: string)
    requires forall id :: id in xs <==> id in ys
    ensures Mark(rows, xs, who) == Mark(rows, ys, who)
  {}

  /** The metrics of a list whose ids are not among the given ones. */
  function Except(ms: seq<Metric>, ids: seq<int>): seq<Metric> {
    if ms == [] then []
    else Except(ms[..|ms|-1], ids) + (if ms[|ms|-1].id in ids then [] else [ms[|ms|-1]])
  }

  lemma {:induction false} ExceptLast(ms: seq<Metric>, ids: seq<int>)
    requires TimeOrdered(ms)
    ensures var rest := Except(ms, ids); rest != [] ==> ms != [] && rest[|rest|-1].timestamp <= ms[|ms|-1].timestamp
  {
    if ms != [] && ms[|ms|-1].id in ids {
      ExceptLast(ms[..|ms|-1], ids);
    }
  }

  lemma ExceptAppend(ms: seq<Metric>, m: Metric, ids: seq<int>)
    ensures Except(ms + [m], ids) == if m.id in ids then Except(ms, ids) else Except(ms, ids) + [m]
  {
    assert (ms + [m])[..|ms|] == ms;
  }

  lemma InsertBeforeLast(ms: seq<Metric>, last: Metric, m: Metric)
    requires last.timestamp > m.timestamp
    ensures InsertByTime(ms + [last], m) == InsertByTime(ms, m) + [last]
  {
    assert (ms + [last])[..|ms|] == ms;
  }

  lemma InsertAtEnd(ms: seq<Metric>, m: Metric)
    requires ms == [] || ms[|ms|-1].timestamp <= m.timestamp
    ensures InsertByTime(ms, m) == ms + [m]
  {}

  /** Inserting by time and leaving out ids go together. */
  lemma {:induction false} ExceptInsert(ms: seq<Metric>, m: Metric, ids: seq<int>)
    requires TimeOrdered(ms)
    ensures Except(InsertByTime(ms, m), ids) == if m.id in ids then Except(ms, ids) else InsertByTime(Except(ms, ids), m)
  {
    hide Except, InsertByTime;
    if ms == [] || ms[|ms|-1].timestamp <= m.timestamp {
      InsertAtEnd(ms, m);
      ExceptAppend(ms, m, ids);
      ExceptLast(ms, ids);
      InsertAtEnd(Except(ms, ids), m);
    } else {
      var before, last := ms[..|ms|-1], ms[|ms|-1];
      assert ms == before + [last];
      ExceptInsert(before, m, ids);
      InsertBeforeLast(before, last, m);
      ExceptAppend(InsertByTime(before, m), last, ids);
      ExceptAppend(before, last, ids);
      InsertBeforeLast(Except(before, ids), last, m);
    }
  }

  lemma {:induction false} ExceptPrefix(ms: seq<Metric>, ids: seq<int>, b: nat)
    requires b <= |ms|
    requires forall k :: 0 <= k < b ==> ms[k].id in ids
    requires forall k :: b <= k < |ms| ==> ms[k].id !in ids
    ensures Except(ms, ids) == ms[b..]
  {
    if ms != [] {
      var before, last := ms[..|ms|-1], ms[|ms|-1];
      ExceptPrefix(before, ids, if b == |ms| then b - 1 else b);
      if b < |ms| {
        assert ms[b..] == before[b..] + [last];
      }
    }
  }

  /** Marking leaves the backlog without the marked metrics, in order. */
  lemma {:induction false} MarkLeaves(rows: seq<Row>, ids: seq<int>, who: string)
    ensures Backlog(Mark(rows, ids, who)) == Except(Backlog(rows), ids)
  {
    if rows != [] {
      var before, row := rows[..|rows|-1], rows[|rows|-1];
      MarkLeaves(before, ids, who);
      assert Mark(rows, ids, who)[..|rows|-1] == Mark(before, ids, who);
      UnanalyzedOrdered(before, {});
      if Waiting(row, {}) {
        ExceptInsert(Backlog(before), row.metric, ids);
      }
    }
  }

  /** Marking the ids of the first b metrics of the backlog leaves the rest of it, in order. */
  lemma MarkTakesPrefix(rows: seq<Row>, ids: seq<int>, who: string, b: nat)
    requires b <= |Backlog(rows)|
    requires forall k :: 0 <= k < b ==> Backlog(rows)[k].id in ids
    requires forall k :: b <= k < |Backlog(rows)| ==> Backlog(rows)[k].id !in ids
    ensures Backlog(Mark(rows, ids, who)) == Backlog(rows)[b..]
  {
    hide Backlog;
    MarkLeaves(rows, ids, who);
    ExceptPrefix(Backlog(rows), ids, b);
  }

  lemma {:induction false} AffectedOne(rows: seq<Row>, ids: seq<int>, id: int)
    requires UniqueIds(rows) && id !in ids
    ensures Affected(rows, ids + [id]) == Affected(rows, ids) + (if exists i :: 0 <= i < |rows| && rows[i].metric.id == id then 1 else 0)
  {
    if rows != [] {
      var before, last := rows[..|rows|-1], |rows| - 1;
      AffectedOne(before, ids, id);
      if rows[last].metric.id != id && exists i :: 0 <= i < |rows| && rows[i].metric.id == id {
        var i :| 0 <= i < |rows| && rows[i].metric.id == id;
        assert before[i].metric.id == id;
      }
    }
  }

  ghost predicate Distinct(ids: seq<int>) {
    forall i, j :: 0 <= i < j < |ids| ==> ids[i] != ids[j]
  }

  /** Marking distinct ids of the table reports exactly as many rows. */
  lemma {:induction false} AffectedAll(rows: seq<Row>, ids: seq<int>)
    requires UniqueIds(rows) && Distinct(ids)
    requires forall k :: 0 <= k < |ids| ==> exists i :: 0 <= i < |rows| && rows[i].metric.id == ids[k]
    ensures Affected(rows, ids) == |ids|
  {
    if ids == [] {
      NothingToMark(rows, "");
    } else {
      var before, last := ids[..|ids|-1], ids[|ids|-1];
      AffectedAll(rows, before);
      AffectedOne(rows, before, last);
      assert ids == before + [last];
    }
  }

  lemma {:induction false} IdsWhereDistinct(batch: seq<Metric>, anomalies: seq<Anomaly>, reported: bool)
    requires DistinctIds(batch)
    ensures Distinct(IdsWhere(batch, anomalies, reported))
  {
    if batch != [] {
      var before, m := batch[..|batch|-1], batch[|batch|-1];
      IdsWhereDistinct(before, anomalies, reported);
      IdsWhereMembers(before, anomalies, reported, m.id);
    }
  }

  /** The row-count check passes for either half of a batch of table rows. */
  lemma MarkCountMatches(rows: seq<Row>, batch: seq<Metric>, anomalies: seq<Anomaly>, reported: bool)
    requires UniqueIds(rows) && DistinctIds(batch) && InTable(rows, batch)
    ensures Affected(rows, IdsWhere(batch, anomalies, reported)) == |IdsWhere(batch, anomalies, reported)|
  {
    var ids := IdsWhere(batch, anomalies, reported);
    IdsWhereDistinct(batch, anomalies, reported);
    forall k | 0 <= k < |ids| ensures exists i :: 0 <= i < |rows| && rows[i].metric.id == ids[k] {
      IdsWhereMembers(batch, anomalies, reported, ids[k]);
      var j :| 0 <= j < |batch| && batch[j].id == ids[k];
      assert HasMetric(rows, batch[j]);
      var i :| 0 <= i < |rows| && rows[i].metric == batch[j];
    }
    AffectedAll(rows, ids);
  }

  /** The two halves together are the batch. */
  lemma HalvesAreBatch(batch: seq<Metric>, anomalies: seq<Anomaly>, id: int)
    ensures id in NormalIDs(batch, anomalies) + NotifyIDs(batch, anomalies) <==> id in IdsOf(batch)
  {
    IdsWhereMembers(batch, anomalies, true, id);
    IdsWhereMembers(batch, anomalies, false, id);
    if HasId(batch, id) {
      var k :| 0 <= k < |batch| && batch[k].id == id;
      assert IdsOf(batch)[k] == id;
    }
    if id in IdsOf(batch) {
      var k :| 0 <= k < |IdsOf(batch)| && IdsOf(batch)[k] == id;
      assert batch[k].id == id;
    }
  }

  lemma NoNotifyNoAnomaly(batch: seq<Metric>, anomalies: seq<Anomaly>)
    requires NamesBatch(batch, anomalies)
    requires NotifyIDs(batch, anomalies) == []
    ensures anomalies == []
  {
    if anomalies != [] {
      IdsWhereMembers(batch, anomalies, true, anomalies[0].metricID);
      assert Reported(anomalies, anomalies[0].metricID);
    }
  }

  /** A poll that nothing disturbs passes both row-count checks, publishes everything it found and marks
      exactly its batch. */
  lemma JudgedPollSucceeds(rows: seq<Row>, log: seq<Anomaly>, who: string, batch: seq<Metric>, anomalies: seq<Anomaly>)
    requires UniqueIds(rows) && DistinctIds(batch) && InTable(rows, batch)
    requires NamesBatch(batch, anomalies)
    ensures MarkSucceeds(rows, NormalIDs(batch, anomalies), Acknowledged)
    ensures MarkSucceeds(Mark(rows, NormalIDs(batch, anomalies), who), NotifyIDs(batch, anomalies), Acknowledged)
    ensures AfterJudging(rows, log, who, batch, anomalies, NO_FAULTS) == (Mark(rows, IdsOf(batch), who), log + anomalies)
  {
    hide IdsWhere, Affected, Written, UniqueIds, InTable, DistinctIds;
    var normal, notify := NormalIDs(batch, anomalies), NotifyIDs(batch, anomalies);
    var marked := Mark(rows, normal, who);
    MarkCountMatches(rows, batch, anomalies, false);
    StillInTable(rows, normal, who, batch);
    MarkCountMatches(marked, batch, anomalies, true);
    NothingToMark(rows, who);
    MarkTwice(rows, normal, notify, who);
    forall id ensures id in normal + notify <==> id in IdsOf(batch) {
      HalvesAreBatch(batch, anomalies, id);
    }
    MarkSameIds(rows, normal + notify, IdsOf(batch), who);
    if notify == [] {
      NoNotifyNoAnomaly(batch, anomalies);
      assert normal + notify == normal;
      assert log + anomalies == log;
    }
  }

  ghost predicate SomeReported(batch: seq<Metric>, anomalies: seq<Anomaly>) {
    exists k :: 0 <= k < |batch| && Reported(anomalies, batch[k].id)
  }

  ghost predicate AllReported(batch: seq<Metric>, anomalies: seq<Anomaly>) {
    forall k :: 0 <= k < |batch| ==> Reported(anomalies, batch[k].id)
  }

  lemma HalvesEmptyIff(batch: seq<Metric>, anomalies: seq<Anomaly>)
    ensures NormalIDs(batch, anomalies) == [] <==> AllReported(batch, anomalies)
    ensures NotifyIDs(batch, anomalies) == [] <==> !SomeReported(batch, anomalies)
  {
    hide IdsWhere, Reported;
    var normal, notify := NormalIDs(batch, anomalies), NotifyIDs(batch, anomalies);
    forall k | 0 <= k < |batch| ensures batch[k].id in normal <==> !Reported(anomalies, batch[k].id)
                                ensures batch[k].id in notify <==> Reported(anomalies, batch[k].id)
    {
      IdsWhereMembers(batch, anomalies, false, batch[k].id);
      IdsWhereMembers(batch, anomalies, true, batch[k].id);
    }
    if normal != [] {
      IdsWhereMembers(batch, anomalies, false, normal[0]);
    }
    if notify != [] {
      IdsWhereMembers(batch, anomalies, true, notify[0]);
    }
  }

  /** What a poll does whatever fails in it. It marks the rows of its batch that no anomaly names, unless that
      statement is not applied. It publishes only if something was found, and only after the answer that these
      rows are marked, if there are any; it marks the others only after publishing everything. */
  lemma PollOutcome(rows: seq<Row>, log: seq<Anomaly>, who: string, batch: seq<Metric>, anomalies: seq<Anomaly>, f: Faults)
    requires UniqueIds(rows) && DistinctIds(batch) && InTable(rows, batch)
    ensures var (rows', log') := AfterJudging(rows, log, who, batch, anomalies, f);
            var publishes := SomeReported(batch, anomalies) && (f.normal == Acknowledged || AllReported(batch, anomalies));
            && (!publishes ==> log' == log)
            && (publishes && f.publishKept == None ==> log' == log + anomalies)
            && (publishes && f.publishKept.Some? ==> log' == log + Written(anomalies, f.publishKept.value, |anomalies|))
            && |rows'| == |rows|
            && forall i :: 0 <= i < |rows| ==>
                 rows'[i] == if HasId(batch, rows[i].metric.id)
                                && (if Reported(anomalies, rows[i].metric.id)
                                    then publishes && f.publishKept == None && f.notified != NotApplied
                                    else f.normal != NotApplied)
                             then Row(rows[i].metric, Some(who)) else rows[i]
  {
    hide IdsWhere, Affected, Written, UniqueIds, InTable, DistinctIds, HasId, Reported, AllReported, SomeReported;
    HalvesEmptyIff(batch, anomalies);
    MarkCountMatches(rows, batch, anomalies, false);
    forall i | 0 <= i < |rows|
      ensures rows[i].metric.id in NormalIDs(batch, anomalies) <==> HasId(batch, rows[i].metric.id) && !Reported(anomalies, rows[i].metric.id)
      ensures rows[i].metric.id in NotifyIDs(batch, anomalies) <==> HasId(batch, rows[i].metric.id) && Reported(anomalies, rows[i].metric.id)
    {
      IdsWhereMembers(batch, anomalies, false, rows[i].metric.id);
      IdsWhereMembers(batch, anomalies, true, rows[i].metric.id);
    }
  }

  lemma StillInTable(rows: seq<Row>, ids: seq<int>, who: string, batch: seq<Metric>)
    requires UniqueIds(rows) && InTable(rows, batch)
    ensures UniqueIds(Mark(rows, ids, who)) && InTable(Mark(rows, ids, who), batch)
  {
    InTableExtends(rows, [], Mark(rows, ids, who), [], batch);
  }

  lemma TakenBatch(rows: seq<Row>, limit: nat)
    requires UniqueIds(rows)
    ensures var batch := Take(Backlog(rows), limit); DistinctIds(batch) && InTable(rows, batch)
  {
    UnanalyzedDistinct(rows, {});
    var batch := Take(Backlog(rows), limit);
    forall k | 0 <= k < |batch| ensures HasMetric(rows, batch[k]) {
      UnanalyzedInTable(rows, {}, k);
      var i :| 0 <= i < |rows| && rows[i] == Row(batch[k], None);
    }
  }

  /** One undisturbed poll takes the first batch off the backlog, whatever rules find in it. */
  lemma PollTakesBatch(rows: seq<Row>, log: seq<Anomaly>, who: string, limit: nat, anomalies: seq<Anomaly>)
    requires UniqueIds(rows) && NamesBatch(Take(Backlog(rows), limit), anomalies)
    ensures var batch := Take(Backlog(rows), limit);
            && Poll(rows, log, who, limit, anomalies) == (Mark(rows, IdsOf(batch), who), log + anomalies)
            && Backlog(Mark(rows, IdsOf(batch), who)) == Backlog(rows)[|batch|..]
            && UniqueIds(Mark(rows, IdsOf(batch), who))
  {
    hide Unanalyzed, IdsWhere, Affected, Mark, Written, AfterJudging, UniqueIds, InTable, DistinctIds;
    var batch := Take(Backlog(rows), limit);
    TakenBatch(rows, limit);
    if batch == [] {
      NothingToMark(rows, who);
      assert IdsOf(batch) == [];
      NothingFound(anomalies);
      assert log + [] == log;
    } else {
      hide NamesBatch;
      JudgedPollSucceeds(rows, log, who, batch, anomalies);
    }
    StillInTable(rows, IdsOf(batch), who, batch);
    PrefixIds(rows, batch, who);
  }

  lemma NothingFound(anomalies: seq<Anomaly>)
    ensures NamesBatch([], anomalies) ==> anomalies == []
  {
    if anomalies != [] {
      assert !HasId([], anomalies[0].metricID);
    }
  }

  lemma PrefixIds(rows: seq<Row>, batch: seq<Metric>, who: string)
    requires UniqueIds(rows) && batch <= Backlog(rows)
    ensures Backlog(Mark(rows, IdsOf(batch), who)) == Backlog(rows)[|batch|..]
  {
    var all, ids := Backlog(rows), IdsOf(batch);
    UnanalyzedDistinct(rows, {});
    assert batch == all[..|batch|];
    assert forall k :: 0 <= k < |batch| ==> ids[k] == all[k].id;
    forall k | |batch| <= k < |all| ensures all[k].id !in ids {
      forall j | 0 <= j < |ids| ensures ids[j] != all[k].id {
        assert ids[j] == all[j].id;
      }
    }
    MarkTakesPrefix(rows, ids, who, |batch|);
  }

  // ----- many polls -----

  /** Polls one after the other, each with what the engine finds in its batch. */
  function AfterPolls(rows: seq<Row>, log: seq<Anomaly>, who: string, limit: nat, findings: seq<seq<Anomaly>>)
    : (seq<Row>, seq<Anomaly>)
  {
    if findings == [] then (rows, log)
    else
      var (before, published) := AfterPolls(rows, log, who, limit, findings[..|findings|-1]);
      Poll(before, published, who, limit, findings[|findings|-1])
  }

  /** How many metrics k batches cover, of n. */
  function Covered(limit: nat, n: nat, k: nat): (c: nat)
    ensures c <= n
  {
    if k == 0 then 0 else Min(Covered(limit, n, k - 1) + limit, n)
  }

  lemma CoveredGrows(limit: nat, n: nat, k: nat)
    requires k > 0
    ensures Covered(limit, n, k - 1) <= Covered(limit, n, k)
  {}

  lemma {:induction false} CoveredIs(limit: nat, n: nat, k: nat)
    ensures Covered(limit, n, k) == Min(k * limit, n)
  {
    if k > 0 {
      CoveredIs(limit, n, k - 1);
      assert k * limit == (k - 1) * limit + limit;
    }
  }

  /** The metrics the k-th poll takes. */
  function BatchNo(backlog: seq<Metric>, limit: nat, k: nat): seq<Metric>
    requires k > 0
  {
    CoveredGrows(limit, |backlog|, k);
    backlog[Covered(limit, |backlog|, k - 1)..Covered(limit, |backlog|, k)]
  }

  lemma BatchNext(backlog: seq<Metric>, limit: nat, k: nat)
    requires k > 0
    ensures var done, next := Covered(limit, |backlog|, k - 1), Covered(limit, |backlog|, k);
            && backlog[..done] + BatchNo(backlog, limit, k) == backlog[..next]
            && Take(backlog[done..], limit) == BatchNo(backlog, limit, k)
            && 0 <= next - done == |BatchNo(backlog, limit, k)|
            && backlog[done..][next - done..] == backlog[next..]
  {
    CoveredGrows(limit, |backlog|, k);
  }

  function Concat(findings: seq<seq<Anomaly>>): seq<Anomaly> {
    if findings == [] then [] else Concat(findings[..|findings|-1]) + findings[|findings|-1]
  }

  /** Every poll finds anomalies of its own batch only. */
  ghost predicate NameBatches(backlog: seq<Metric>, limit: nat, findings: seq<seq<Anomaly>>) {
    forall k :: 0 <= k < |findings| ==> NamesBatch(BatchNo(backlog, limit, k + 1), findings[k])
  }

  lemma IdsOfConcat(xs: seq<Metric>, ys: seq<Metric>)
    ensures IdsOf(xs + ys) == IdsOf(xs) + IdsOf(ys)
  {}

  /** After k undisturbed polls the first k batches of the backlog, and no other rows, have been marked,
      each once, and exactly what was found in them has been appended to the log. */
  lemma {:induction false} PollsTakeBatches(rows: seq<Row>, log: seq<Anomaly>, who: string, limit: nat, findings: seq<seq<Anomaly>>)
    requires UniqueIds(rows) && NameBatches(Backlog(rows), limit, findings)
    ensures var backlog := Backlog(rows);
            var done := Covered(limit, |backlog|, |findings|);
            var (after, published) := AfterPolls(rows, log, who, limit, findings);
            && after == Mark(rows, IdsOf(backlog[..done]), who)
            && Backlog(after) == backlog[done..]
            && published == log + Concat(findings)
            && UniqueIds(after)
  {
    hide Unanalyzed, Mark, NamesBatch, Poll, UniqueIds, IdsOf, Backlog, BatchNo, Take;
    var backlog, k := Backlog(rows), |findings|;
    if k == 0 {
      NothingToMark(rows, who);
      assert |IdsOf(backlog[..0])| == 0;
    } else {
      var first, last := findings[..k-1], findings[k-1];
      PollsTakeBatches(rows, log, who, limit, first);
      var (before, published) := AfterPolls(rows, log, who, limit, first);
      var done, batch := Covered(limit, |backlog|, k - 1), BatchNo(backlog, limit, k);
      BatchNext(backlog, limit, k);
      PollTakesBatch(before, published, who, limit, last);
      MarkTwice(rows, IdsOf(backlog[..done]), IdsOf(batch), who);
      IdsOfConcat(backlog[..done], batch);
      assert log + Concat(first) + last == log + Concat(findings);
    }
  }

  /** Whatever the rules, with batches of at least one metric the backlog is empty after k polls if and only
      if the k batches reach its length: ceil(n / limit) polls, not one less. */
  lemma DrainedIff(rows: seq<Row>, log: seq<Anomaly>, who: string, limit: nat, findings: seq<seq<Anomaly>>)
    requires UniqueIds(rows) && NameBatches(Backlog(rows), limit, findings)
    ensures Backlog(AfterPolls(rows, log, who, limit, findings).0) == [] <==> |findings| * limit >= |Backlog(rows)|
  {
    PollsTakeBatches(rows, log, who, limit, findings);
    CoveredIs(limit, |Backlog(rows)|, |findings|);
  }

  // ----- draining with the rule engine -----

  /** What the engine finds in the first k batches, its windows carried from batch to batch. */
  function EngineFindings(env: Env, defs: seq<RuleDef>, bufs: seq<seq<real>>, backlog: seq<Metric>, limit: nat, k: nat)
    : (r: (seq<seq<real>>, seq<seq<Anomaly>>))
    requires |bufs| == |defs|
    ensures |r.0| == |defs| && |r.1| == k
  {
    if k == 0 then (bufs, [])
    else
      var (windows, findings) := EngineFindings(env, defs, bufs, backlog, limit, k - 1);
      var (after, found) := Engine.EngineRun(env, defs, windows, BatchNo(backlog, limit, k));
      (after, findings + [found])
  }

  lemma RunNamesBatch(env: Env, defs: seq<RuleDef>, bufs: seq<seq<real>>, batch: seq<Metric>)
    requires |bufs| == |defs|
    ensures NamesBatch(batch, Engine.EngineRun(env, defs, bufs, batch).1)
  {
    hide Engine.EngineRun;
    var found := Engine.EngineRun(env, defs, bufs, batch).1;
    forall k | 0 <= k < |found| ensures HasId(batch, found[k].metricID) {
      Engine.RunStamps(env, defs, bufs, batch, found[k]);
    }
  }

  lemma ConcatNext(findings: seq<seq<Anomaly>>, found: seq<Anomaly>)
    ensures Concat(findings + [found]) == Concat(findings) + found
  {
    assert (findings + [found])[..|findings|] == findings;
  }

  /** Batch by batch the engine finds what one pass over the batches finds, and ends with its windows. */
  lemma {:induction false} FindingsAreOnePass(env: Env, defs: seq<RuleDef>, bufs: seq<seq<real>>, backlog: seq<Metric>, limit: nat, k: nat)
    requires |bufs| == |defs|
    ensures var (windows, findings) := EngineFindings(env, defs, bufs, backlog, limit, k);
            && (windows, Concat(findings)) == Engine.EngineRun(env, defs, bufs, backlog[..Covered(limit, |backlog|, k)])
            && NameBatches(backlog, limit, findings)
  {
    hide Engine.EngineRun, BatchNo, NamesBatch, Engine.EngineStep;
    if k == 0 {
      NothingRun(env, defs, bufs, backlog);
    } else {
      FindingsAreOnePass(env, defs, bufs, backlog, limit, k - 1);
      var (windows, findings) := EngineFindings(env, defs, bufs, backlog, limit, k - 1);
      var batch := BatchNo(backlog, limit, k);
      BatchNext(backlog, limit, k);
      Engine.RunConcat(env, defs, bufs, backlog[..Covered(limit, |backlog|, k - 1)], batch);
      ConcatNext(findings, Engine.EngineRun(env, defs, windows, batch).1);
      RunNamesBatch(env, defs, windows, batch);
    }
  }

  lemma NothingRun(env: Env, defs: seq<RuleDef>, bufs: seq<seq<real>>, backlog: seq<Metric>)
    requires |bufs| == |defs|
    ensures Engine.EngineRun(env, defs, bufs, backlog[..0]) == (bufs, [])
  {}

  /** With any rules, windows or not, k undisturbed polls that evaluate their batches in turn mark and publish
      what one pass of the engine over the first k batches would, and leave its windows; once the batches
      reach the length of the backlog, that is one pass over all of it, oldest metric first. */
  lemma DrainIsOnePass(env: Env, defs: seq<RuleDef>, bufs: seq<seq<real>>, rows: seq<Row>, log: seq<Anomaly>,
                       who: string, limit: nat, k: nat)
    requires |bufs| == |defs| && UniqueIds(rows)
    ensures var backlog := Backlog(rows);
            var (windows, findings) := EngineFindings(env, defs, bufs, backlog, limit, k);
            var (after, published) := AfterPolls(rows, log, who, limit, findings);
            var taken := backlog[..Covered(limit, |backlog|, k)];
            var pass := Engine.EngineRun(env, defs, bufs, taken);
            && after == Mark(rows, IdsOf(taken), who) && published == log + pass.1 && windows == pass.0
            && (Backlog(after) == [] <==> k * limit >= |backlog|) && (k * limit >= |backlog| ==> taken == backlog)
    ensures TimeOrdered(Backlog(rows))
  {
    hide Engine.EngineRun, Mark, AfterPolls, EngineFindings, NameBatches, UniqueIds, Unanalyzed;
    var backlog := Backlog(rows);
    FindingsAreOnePass(env, defs, bufs, backlog, limit, k);
    PollsTakeBatches(rows, log, who, limit, EngineFindings(env, defs, bufs, backlog, limit, k).1);
    CoveredIs(limit, |backlog|, k);
    UnanalyzedOrdered(rows, {});
  }

  /** Every poll got from the engine what it may answer for the poll's batch. */
  ghost predicate Evaluated(env: Env, defs: seq<RuleDef>, bufs: seq<seq<real>>, backlog: seq<Metric>, limit: nat, findings: seq<seq<Anomaly>>)
    requires |bufs| == |defs|
  {
    forall k :: 0 <= k < |findings| ==>
      Engine.BatchEvaluated(env, defs, bufs, BatchNo(backlog, limit, k + 1), bufs, findings[k])
  }

  lemma {:induction false} FlatStamped(env: Env, defs: seq<RuleDef>, bufs: seq<seq<real>>, batch: seq<Metric>, x: Anomaly)
    requires |bufs| == |defs| && x in Flat(Engine.FiredBy(env, defs, bufs), batch)
    ensures HasId(batch, x.metricID)
  {
    hide Engine.EngineStep;
    var before, m := batch[..|batch|-1], batch[|batch|-1];
    Engine.StepStamps(env, defs, bufs, m);
    if x in Flat(Engine.FiredBy(env, defs, bufs), before) {
      FlatStamped(env, defs, bufs, before, x);
      var k :| 0 <= k < |before| && before[k].id == x.metricID;
      assert batch[k].id == x.metricID;
    }
  }

  lemma EvaluationNamesBatch(env: Env, defs: seq<RuleDef>, bufs: seq<seq<real>>, batch: seq<Metric>, anomalies: seq<Anomaly>)
    requires |bufs| == |defs|
    requires multiset(anomalies) == multiset(Flat(Engine.FiredBy(env, defs, bufs), batch))
    ensures NamesBatch(batch, anomalies)
  {
    hide Engine.FiredBy, Flat, HasId;
    var all := Flat(Engine.FiredBy(env, defs, bufs), batch);
    forall k | 0 <= k < |anomalies| ensures HasId(batch, anomalies[k].metricID) {
      assert anomalies[k] in multiset(all);
      FlatStamped(env, defs, bufs, batch, anomalies[k]);
    }
  }

  lemma {:induction false} FindingsAreFlat(env: Env, defs: seq<RuleDef>, bufs: seq<seq<real>>, backlog: seq<Metric>, limit: nat, findings: seq<seq<Anomaly>>)
    requires |bufs| == |defs| && Engine.Stateless(defs) && Evaluated(env, defs, bufs, backlog, limit, findings)
    ensures multiset(Concat(findings))
            == multiset(Flat(Engine.FiredBy(env, defs, bufs), backlog[..Covered(limit, |backlog|, |findings|)]))
    ensures NameBatches(backlog, limit, findings)
  {
    hide Engine.FiredBy, Flat, Engine.BatchEvaluated, BatchNo, NamesBatch, Engine.Stateless;
    var fire, k := Engine.FiredBy(env, defs, bufs), |findings|;
    if k == 0 {
      NothingFired(fire, backlog);
    } else {
      var first := findings[..k-1];
      FindingsAreFlat(env, defs, bufs, backlog, limit, first);
      Engine.BatchFindsAll(env, defs, bufs, BatchNo(backlog, limit, k), bufs, findings[k-1]);
      EvaluationNamesBatch(env, defs, bufs, BatchNo(backlog, limit, k), findings[k-1]);
      BatchNext(backlog, limit, k);
      FlatConcat(fire, backlog[..Covered(limit, |backlog|, k - 1)], BatchNo(backlog, limit, k));
    }
  }

  lemma NothingFired(fire: Metric -> seq<Anomaly>, backlog: seq<Metric>)
    ensures Flat(fire, backlog[..0]) == []
  {}

  /** With rules without windows and batches of any size, evaluated in turn or in parallel, once the backlog is
      drained everything its metrics trigger has been published exactly once. */
  lemma DrainPublishesOnce(env: Env, defs: seq<RuleDef>, bufs: seq<seq<real>>, rows: seq<Row>, log: seq<Anomaly>,
                           who: string, limit: nat, findings: seq<seq<Anomaly>>)
    requires |bufs| == |defs| && Engine.Stateless(defs) && UniqueIds(rows)
    requires Evaluated(env, defs, bufs, Backlog(rows), limit, findings) && |findings| * limit >= |Backlog(rows)|
    ensures multiset(AfterPolls(rows, log, who, limit, findings).1)
            == multiset(log) + multiset(Flat(Engine.FiredBy(env, defs, bufs), Backlog(rows)))
    ensures Backlog(AfterPolls(rows, log, who, limit, findings).0) == []
  {
    hide Engine.FiredBy, Flat, Evaluated, NameBatches, AfterPolls, Mark, Unanalyzed, UniqueIds, Engine.Stateless;
    var backlog := Backlog(rows);
    FindingsAreFlat(env, defs, bufs, backlog, limit, findings);
    PollsTakeBatches(rows, log, who, limit, findings);
    CoveredIs(limit, |backlog|, |findings|);
    assert backlog[..|backlog|] == backlog;
  }
}
