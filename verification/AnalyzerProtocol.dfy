/** The poll, publish and mark protocol of any number of analyzers over one metrics table and one log.

Every call to the database or the broker is a step of its own, steps of different analyzers interleave
freely, and every step may fail or be the last one of its poll. Nothing locks a fetched row once the
fetching statement is over, so two analyzers may work on the same row at the same time. */
module AnalyzerProtocol {
  import opened Wrappers
  import opened Rules
  import Chunks

  datatype Row = Row(metric: Metric, analyzedBy: Option<string>)

  /** UPDATE ... WHERE id = ANY(ids). */
  function Mark(rows: seq<Row>, ids: seq<int>, who: string): (r: seq<Row>)
    ensures |r| == |rows|
    ensures forall i :: 0 <= i < |rows| ==>
              r[i] == if rows[i].metric.id in ids then rows[i].(analyzedBy := Some(who)) else rows[i]
  {
    seq(|rows|, i requires 0 <= i < |rows| =>
      if rows[i].metric.id in ids then rows[i].(analyzedBy := Some(who)) else rows[i])
  }

  /** The number of rows that statement reports as affected. */
  function Affected(rows: seq<Row>, ids: seq<int>): nat {
    if rows == [] then 0
    else Affected(rows[..|rows|-1], ids) + (if rows[|rows|-1].metric.id in ids then 1 else 0)
  }

  predicate Reported(anomalies: seq<Anomaly>, id: int) {
    exists k :: 0 <= k < |anomalies| && anomalies[k].metricID == id
  }

  ghost predicate HasId(batch: seq<Metric>, id: int) {
    exists k :: 0 <= k < |batch| && batch[k].id == id
  }

  /** The ids of the batch that no anomaly names, or those that some anomaly names, in batch order. */
  function IdsWhere(batch: seq<Metric>, anomalies: seq<Anomaly>, reported: bool): seq<int> {
    if batch == [] then []
    else
      var before, m := IdsWhere(batch[..|batch|-1], anomalies, reported), batch[|batch|-1];
      if Reported(anomalies, m.id) == reported then before + [m.id] else before
  }

  lemma {:induction false} IdsWhereMembers(batch: seq<Metric>, anomalies: seq<Anomaly>, reported: bool, id: int)
    ensures id in IdsWhere(batch, anomalies, reported) <==> HasId(batch, id) && Reported(anomalies, id) == reported
  {
    if batch != [] {
      var before, m := batch[..|batch|-1], batch[|batch|-1];
      IdsWhereMembers(before, anomalies, reported, id);
      if HasId(batch, id) && m.id != id {
        var k :| 0 <= k < |batch| && batch[k].id == id;
        assert before[k].id == id;
      }
      if HasId(before, id) {
        var k :| 0 <= k < |before| && before[k].id == id;
        assert batch[k].id == id;
      }
    }
  }

  function NormalIDs(batch: seq<Metric>, anomalies: seq<Anomaly>): seq<int> {
    IdsWhere(batch, anomalies, false)
  }

  function NotifyIDs(batch: seq<Metric>, anomalies: seq<Anomaly>): seq<int> {
    IdsWhere(batch, anomalies, true)
  }

  // ----- the state machine -----

  /** Where an analyzer stands in its current poll; `pending` are the anomalies not yet written. */
  datatype Phase =
    | Idle
    | Judged(batch: seq<Metric>, anomalies: seq<Anomaly>)
    | NormalMarked(batch: seq<Metric>, anomalies: seq<Anomaly>)
    | Publishing(batch: seq<Metric>, anomalies: seq<Anomaly>, pending: set<nat>)
    | Published(batch: seq<Metric>, anomalies: seq<Anomaly>)

  datatype State = State(rows: seq<Row>, log: seq<Anomaly>, phases: map<string, Phase>)

  datatype Step =
    | Ingest(metric: Metric)
    | Fetch(who: string, batch: seq<Metric>, anomalies: seq<Anomaly>)
    | MarkNormal(who: string, outcome: CallOutcome)
    | BeginPublish(who: string)
    | PublishOne(who: string, k: nat)
    | PublishDone(who: string)
    | MarkNotified(who: string, outcome: CallOutcome)
    | GiveUp(who: string)

  function PhaseOf(s: State, who: string): Phase {
    if who in s.phases then s.phases[who] else Idle
  }

  function Enter(s: State, who: string, phase: Phase): State {
    s.(phases := s.phases[who := phase])
  }

  predicate DistinctIds(batch: seq<Metric>) {
    forall i, j :: 0 <= i < j < |batch| ==> batch[i].id != batch[j].id
  }

  function AfterMark(rows: seq<Row>, ids: seq<int>, who: string, outcome: CallOutcome): seq<Row> {
    if outcome == NotApplied then rows else Mark(rows, ids, who)
  }

  predicate MarkSucceeds(rows: seq<Row>, ids: seq<int>, outcome: CallOutcome) {
    outcome == Acknowledged && Affected(rows, ids) == |ids|
  }

  /** The successor state, or None where the step is not possible. Rule evaluation belongs to the fetch
      step; which anomalies it yields is not restricted here. */
  function Apply(s: State, step: Step): Option<State> {
    match step
    case Ingest(m) =>
      if forall i :: 0 <= i < |s.rows| ==> s.rows[i].metric.id != m.id
      then Some(s.(rows := s.rows + [Row(m, None)])) else None
    case Fetch(who, batch, anomalies) =>
      if PhaseOf(s, who) == Idle && DistinctIds(batch) && (forall k :: 0 <= k < |batch| ==> Row(batch[k], None) in s.rows)
      then Some(Enter(s, who, Judged(batch, anomalies))) else None
    case MarkNormal(who, outcome) =>
      (match PhaseOf(s, who)
       case Judged(batch, anomalies) =>
         var ids := NormalIDs(batch, anomalies);
         var next := if MarkSucceeds(s.rows, ids, outcome) then NormalMarked(batch, anomalies) else Idle;
         Some(Enter(s, who, next).(rows := AfterMark(s.rows, ids, who, outcome)))
       case _ => None)
    case BeginPublish(who) =>
      (match PhaseOf(s, who)
       case NormalMarked(batch, anomalies) =>
         if NotifyIDs(batch, anomalies) == [] then None
         else Some(Enter(s, who, Publishing(batch, anomalies, Chunks.Ids(|anomalies|))))
       case _ => None)
    case PublishOne(who, k) =>
      (match PhaseOf(s, who)
       case Publishing(batch, anomalies, pending) =>
         if k in pending && k < |anomalies|
         then Some(Enter(s, who, Publishing(batch, anomalies, pending - {k})).(log := s.log + [anomalies[k]])) else None
       case _ => None)
    case PublishDone(who) =>
      (match PhaseOf(s, who)
       case Publishing(batch, anomalies, pending) =>
         if pending == {} then Some(Enter(s, who, Published(batch, anomalies))) else None
       case _ => None)
    case MarkNotified(who, outcome) =>
      (match PhaseOf(s, who)
       case Published(batch, anomalies) =>
         Some(Enter(s, who, Idle).(rows := AfterMark(s.rows, NotifyIDs(batch, anomalies), who, outcome)))
       case _ => None)
    case GiveUp(who) => Some(Enter(s, who, Idle))
  }

  /** A run: any steps of any analyzers in any order, as long as each is possible. */
  function Exec(s: State, steps: seq<Step>): Option<State> {
    if steps == [] then Some(s)
    else
      match Exec(s, steps[..|steps|-1])
      case None => None
      case Some(t) => Apply(t, steps[|steps|-1])
  }

  const START: State := State([], [], map[])

  // ----- the invariant -----

  ghost predicate UniqueIds(rows: seq<Row>) {
    forall i, j :: 0 <= i < j < |rows| ==> rows[i].metric.id != rows[j].metric.id
  }

  ghost predicate HasMetric(rows: seq<Row>, m: Metric) {
    exists i :: 0 <= i < |rows| && rows[i].metric == m
  }

  ghost predicate InTable(rows: seq<Row>, batch: seq<Metric>) {
    forall k :: 0 <= k < |batch| ==> HasMetric(rows, batch[k])
  }

  /** What is known about a poll in a given phase: it works on rows of the table, and everything it has
      written is in the log. */
  ghost predicate PhaseInv(rows: seq<Row>, log: seq<Anomaly>, phase: Phase) {
    match phase
    case Idle => true
    case Judged(batch, _) => InTable(rows, batch)
    case NormalMarked(batch, _) => InTable(rows, batch)
    case Publishing(batch, anomalies, pending) =>
      InTable(rows, batch) && forall k: nat :: k < |anomalies| && k !in pending ==> anomalies[k] in log
    case Published(batch, anomalies) =>
      InTable(rows, batch) && forall k: nat :: k < |anomalies| ==> anomalies[k] in log
  }

  ghost predicate Inv(s: State) {
    UniqueIds(s.rows) && forall who :: who in s.phases ==> PhaseInv(s.rows, s.log, s.phases[who])
  }

  /** The table only grows and its metrics never change; the log only grows. */
  ghost predicate Extends(rows: seq<Row>, log: seq<Anomaly>, rows': seq<Row>, log': seq<Anomaly>) {
    && |rows| <= |rows'| && log <= log'
    && forall i :: 0 <= i < |rows| ==> rows'[i].metric == rows[i].metric
  }

  lemma StepExtends(s: State, step: Step)
    requires Apply(s, step).Some?
    ensures Extends(s.rows, s.log, Apply(s, step).value.rows, Apply(s, step).value.log)
  {
    hide Affected, IdsWhere;
  }

  lemma InTableExtends(rows: seq<Row>, log: seq<Anomaly>, rows': seq<Row>, log': seq<Anomaly>, batch: seq<Metric>)
    requires Extends(rows, log, rows', log') && InTable(rows, batch)
    ensures InTable(rows', batch)
    ensures forall x :: x in log ==> x in log'
  {
    forall k | 0 <= k < |batch| ensures HasMetric(rows', batch[k]) {
      var i :| 0 <= i < |rows| && rows[i].metric == batch[k];
      assert rows'[i].metric == batch[k];
    }
    assert log == log'[..|log|];
  }

  lemma PhaseInvExtends(rows: seq<Row>, log: seq<Anomaly>, rows': seq<Row>, log': seq<Anomaly>, phase: Phase)
    requires Extends(rows, log, rows', log') && PhaseInv(rows, log, phase)
    ensures PhaseInv(rows', log', phase)
  {
    if !phase.Idle? {
      InTableExtends(rows, log, rows', log', phase.batch);
    }
  }

  /** Every possible step keeps the invariant. */
  lemma StepKeepsInv(s: State, step: Step)
    requires Inv(s) && Apply(s, step).Some?
    ensures Inv(Apply(s, step).value)
  {
    hide Affected, IdsWhere, Mark;
    var t := Apply(s, step).value;
    StepExtends(s, step);
    StepKeepsUniqueIds(s, step);
    forall who | who in t.phases ensures PhaseInv(t.rows, t.log, t.phases[who]) {
      if who in s.phases && t.phases[who] == s.phases[who] {
        PhaseInvExtends(s.rows, s.log, t.rows, t.log, s.phases[who]);
      } else {
        OwnPhaseInv(s, step, who);
      }
    }
  }

  lemma StepKeepsUniqueIds(s: State, step: Step)
    requires UniqueIds(s.rows) && Apply(s, step).Some?
    ensures UniqueIds(Apply(s, step).value.rows)
  {
    hide Affected, IdsWhere;
  }

  lemma OwnPhaseInv(s: State, step: Step, who: string)
    requires Inv(s) && Apply(s, step).Some?
    requires who in Apply(s, step).value.phases
    requires who !in s.phases || Apply(s, step).value.phases[who] != s.phases[who]
    ensures PhaseInv(Apply(s, step).value.rows, Apply(s, step).value.log, Apply(s, step).value.phases[who])
  {
    hide Affected, IdsWhere, Mark;
    var t := Apply(s, step).value;
    StepExtends(s, step);
    match step {
      case Ingest(_) =>
      case Fetch(_, batch, _) =>
        forall k | 0 <= k < |batch| ensures HasMetric(s.rows, batch[k]) {
          var i :| 0 <= i < |s.rows| && s.rows[i] == Row(batch[k], None);
        }
      case GiveUp(_) =>
      case _ =>
        assert who == step.who && who in s.phases;
        PhaseInvExtends(s.rows, s.log, t.rows, t.log, s.phases[who]);
    }
  }

  lemma {:induction false} RunKeepsInv(steps: seq<Step>)
    requires Exec(START, steps).Some?
    ensures Inv(Exec(START, steps).value)
  {
    hide Apply;
    if steps != [] {
      RunKeepsInv(steps[..|steps|-1]);
      StepKeepsInv(Exec(START, steps[..|steps|-1]).value, steps[|steps|-1]);
    }
  }

  // ----- safety for arbitrary rules -----

  predicate IsFetchOf(step: Step, who: string) {
    step.Fetch? && step.who == who
  }

  /** The poll an analyzer is in began with the fetch at f. */
  ghost predicate PollBegan(steps: seq<Step>, f: nat, who: string, batch: seq<Metric>, anomalies: seq<Anomaly>) {
    f < |steps| && steps[f] == Fetch(who, batch, anomalies) && forall j :: f < j < |steps| ==> !IsFetchOf(steps[j], who)
  }

  /** Since then the analyzer has written its k-th anomaly. */
  ghost predicate WrittenSince(steps: seq<Step>, f: nat, who: string, k: nat) {
    exists p :: f < p < |steps| && steps[p] == PublishOne(who, k)
  }

  /** The anomalies of a poll that are not written yet. */
  function Unwritten(phase: Phase): set<nat>
    requires !phase.Idle?
  {
    match phase
    case Judged(_, anomalies) => Chunks.Ids(|anomalies|)
    case NormalMarked(_, anomalies) => Chunks.Ids(|anomalies|)
    case Publishing(_, _, pending) => pending
    case Published(_, _) => {}
  }

  /** A phase is what its own poll has brought about. */
  ghost predicate InPoll(steps: seq<Step>, f: nat, who: string, phase: Phase)
    requires !phase.Idle?
  {
    && PollBegan(steps, f, who, phase.batch, phase.anomalies)
    && forall k: nat :: k < |phase.anomalies| && k !in Unwritten(phase) ==> WrittenSince(steps, f, who, k)
  }

  lemma InPollGrows(steps: seq<Step>, step: Step, f: nat, who: string, phase: Phase)
    requires !phase.Idle? && InPoll(steps, f, who, phase) && !IsFetchOf(step, who)
    ensures InPoll(steps + [step], f, who, phase)
  {
    var all := steps + [step];
    forall k: nat | k < |phase.anomalies| && k !in Unwritten(phase) ensures WrittenSince(all, f, who, k) {
      var p :| f < p < |steps| && steps[p] == PublishOne(who, k);
      assert all[p] == PublishOne(who, k);
    }
  }

  /** How a step of the analyzer itself changes its phase: to none, or within its poll, writing at most the
      anomaly it published. */
  lemma PhaseMoves(s: State, step: Step, who: string)
    requires Apply(s, step).Some? && !IsFetchOf(step, who)
    ensures var before, after := PhaseOf(s, who), PhaseOf(Apply(s, step).value, who);
            after.Idle? ||
            (&& !before.Idle? && after.batch == before.batch && after.anomalies == before.anomalies
             && forall k: nat :: k < |after.anomalies| && k !in Unwritten(after) ==>
                  k !in Unwritten(before) || step == PublishOne(who, k))
  {
    hide Affected, IdsWhere, Mark;
  }

  lemma PollGoesOn(s: State, steps: seq<Step>, step: Step, f: nat, who: string)
    requires Apply(s, step).Some? && !PhaseOf(s, who).Idle? && InPoll(steps, f, who, PhaseOf(s, who))
    requires !IsFetchOf(step, who) && !PhaseOf(Apply(s, step).value, who).Idle?
    ensures InPoll(steps + [step], f, who, PhaseOf(Apply(s, step).value, who))
  {
    hide Apply;
    PhaseMoves(s, step, who);
    InPollGrows(steps, step, f, who, PhaseOf(s, who));
    assert (steps + [step])[|steps|] == step;
  }

  /** In every run each analyzer's phase belongs to its latest poll. */
  lemma {:induction false} RunInPoll(steps: seq<Step>, who: string) returns (f: nat)
    requires Exec(START, steps).Some? && !PhaseOf(Exec(START, steps).value, who).Idle?
    ensures InPoll(steps, f, who, PhaseOf(Exec(START, steps).value, who))
  {
    hide Apply, InPoll;
    assert steps != [];
    var before, step := steps[..|steps|-1], steps[|steps|-1];
    assert steps == before + [step];
    var s := Exec(START, before).value;
    if IsFetchOf(step, who) {
      f := |before|;
      FetchBeginsPoll(s, before, step);
    } else {
      PhaseMoves(s, step, who);
      f := RunInPoll(before, who);
      PollGoesOn(s, before, step, f, who);
    }
  }

  lemma FetchBeginsPoll(s: State, steps: seq<Step>, step: Step)
    requires step.Fetch? && Apply(s, step).Some?
    ensures !PhaseOf(Apply(s, step).value, step.who).Idle?
    ensures InPoll(steps + [step], |steps|, step.who, PhaseOf(Apply(s, step).value, step.who))
  {}

  /** In every run, a step that marks a row belongs to a poll that either found no anomaly for that row or
      found one and has itself, since its fetch, written every anomaly it found. */
  lemma MarkingIsJustified(steps: seq<Step>, step: Step, i: nat) returns (f: nat)
    requires Exec(START, steps).Some? && Apply(Exec(START, steps).value, step).Some?
    requires var s := Exec(START, steps).value;
             i < |s.rows| && Apply(s, step).value.rows[i] != s.rows[i]
    ensures step.MarkNormal? || step.MarkNotified?
    ensures f < |steps| && steps[f].Fetch? && PollBegan(steps, f, step.who, steps[f].batch, steps[f].anomalies)
    ensures var s := Exec(START, steps).value;
            var id, anomalies := s.rows[i].metric.id, steps[f].anomalies;
            if step.MarkNormal? then !Reported(anomalies, id)
            else Reported(anomalies, id) && forall k: nat :: k < |anomalies| ==>
                   anomalies[k] in s.log && WrittenSince(steps, f, step.who, k)
  {
    hide Affected, IdsWhere, Exec, WrittenSince;
    RunKeepsInv(steps);
    var s := Exec(START, steps).value;
    var phase, id := PhaseOf(s, step.who), s.rows[i].metric.id;
    IdsWhereMembers(phase.batch, phase.anomalies, step.MarkNotified?, id);
    f := RunInPoll(steps, step.who);
  }

  // ----- safety for rules that judge each metric on its own -----

  /** The rules' anomalies name the metric they judged. */
  ghost predicate Stamping(fire: Metric -> seq<Anomaly>) {
    forall m, x :: x in fire(m) ==> x.metricID == m.id
  }

  /** The anomalies of a batch are those of its metrics: none missing, none made up. */
  ghost predicate Faithful(fire: Metric -> seq<Anomaly>, batch: seq<Metric>, anomalies: seq<Anomaly>) {
    && (forall k, x :: 0 <= k < |batch| && x in fire(batch[k]) ==> x in anomalies)
    && (forall x :: x in anomalies ==> exists k :: 0 <= k < |batch| && x in fire(batch[k]))
  }

  ghost predicate FaithfulSteps(fire: Metric -> seq<Anomaly>, steps: seq<Step>) {
    forall k :: 0 <= k < |steps| && steps[k].Fetch? ==> Faithful(fire, steps[k].batch, steps[k].anomalies)
  }

  ghost predicate PhasesFaithful(fire: Metric -> seq<Anomaly>, s: State) {
    forall who :: who in s.phases && !s.phases[who].Idle? ==>
      Faithful(fire, s.phases[who].batch, s.phases[who].anomalies)
  }

  /** Everything a marked metric triggers is in the log. */
  ghost predicate MarkedAreReported(fire: Metric -> seq<Anomaly>, s: State) {
    forall i, x :: 0 <= i < |s.rows| && s.rows[i].analyzedBy.Some? && x in fire(s.rows[i].metric) ==> x in s.log
  }

  /** Everything in the log was triggered by a metric of the table. */
  ghost predicate LogIsGrounded(fire: Metric -> seq<Anomaly>, s: State) {
    forall x :: x in s.log ==> exists i :: 0 <= i < |s.rows| && x in fire(s.rows[i].metric)
  }

  lemma StepKeepsFaithful(fire: Metric -> seq<Anomaly>, s: State, step: Step)
    requires PhasesFaithful(fire, s) && Apply(s, step).Some?
    requires step.Fetch? ==> Faithful(fire, step.batch, step.anomalies)
    ensures PhasesFaithful(fire, Apply(s, step).value)
  {
    hide Affected, IdsWhere, Mark, Faithful;
  }

  lemma TriggeredIsReported(fire: Metric -> seq<Anomaly>, batch: seq<Metric>, anomalies: seq<Anomaly>, k: nat, x: Anomaly)
    requires Stamping(fire) && Faithful(fire, batch, anomalies) && k < |batch| && x in fire(batch[k])
    ensures Reported(anomalies, batch[k].id)
  {
    assert x in anomalies;
    var l :| 0 <= l < |anomalies| && anomalies[l] == x;
    assert anomalies[l].metricID == batch[k].id;
  }

  /** A metric that is marked normal triggers nothing. */
  lemma NormalTriggersNothing(fire: Metric -> seq<Anomaly>, rows: seq<Row>, batch: seq<Metric>, anomalies: seq<Anomaly>, i: nat, x: Anomaly)
    requires Stamping(fire) && Faithful(fire, batch, anomalies) && UniqueIds(rows) && InTable(rows, batch)
    requires i < |rows| && rows[i].metric.id in NormalIDs(batch, anomalies)
    ensures x !in fire(rows[i].metric)
  {
    IdsWhereMembers(batch, anomalies, false, rows[i].metric.id);
    var k :| 0 <= k < |batch| && batch[k].id == rows[i].metric.id;
    assert HasMetric(rows, batch[k]);
    var j :| 0 <= j < |rows| && rows[j].metric == batch[k];
    assert i == j;
    if x in fire(batch[k]) {
      TriggeredIsReported(fire, batch, anomalies, k, x);
    }
  }

  /** What a metric of a published batch triggers is in the log. */
  lemma NotifiedIsReported(fire: Metric -> seq<Anomaly>, s: State, batch: seq<Metric>, anomalies: seq<Anomaly>, i: nat, x: Anomaly)
    requires Faithful(fire, batch, anomalies) && UniqueIds(s.rows)
    requires PhaseInv(s.rows, s.log, Published(batch, anomalies))
    requires i < |s.rows| && s.rows[i].metric.id in NotifyIDs(batch, anomalies) && x in fire(s.rows[i].metric)
    ensures x in s.log
  {
    IdsWhereMembers(batch, anomalies, true, s.rows[i].metric.id);
    var k :| 0 <= k < |batch| && batch[k].id == s.rows[i].metric.id;
    assert HasMetric(s.rows, batch[k]);
    var j :| 0 <= j < |s.rows| && s.rows[j].metric == batch[k];
    assert i == j;
    assert x in fire(batch[k]);
    assert x in anomalies;
  }

  lemma StepKeepsReported(fire: Metric -> seq<Anomaly>, s: State, step: Step)
    requires Stamping(fire) && Inv(s) && PhasesFaithful(fire, s) && Apply(s, step).Some?
    requires MarkedAreReported(fire, s)
    ensures MarkedAreReported(fire, Apply(s, step).value)
  {
    hide Affected, IdsWhere, Faithful;
    var t := Apply(s, step).value;
    StepExtends(s, step);
    forall i, x | 0 <= i < |t.rows| && t.rows[i].analyzedBy.Some? && x in fire(t.rows[i].metric) ensures x in t.log {
      if i < |s.rows| && s.rows[i].analyzedBy.None? {
        var phase := PhaseOf(s, step.who);
        if step.MarkNormal? {
          NormalTriggersNothing(fire, s.rows, phase.batch, phase.anomalies, i, x);
        } else {
          NotifiedIsReported(fire, s, phase.batch, phase.anomalies, i, x);
        }
      }
    }
  }

  lemma StepKeepsGrounded(fire: Metric -> seq<Anomaly>, s: State, step: Step)
    requires Inv(s) && PhasesFaithful(fire, s) && Apply(s, step).Some?
    requires LogIsGrounded(fire, s)
    ensures LogIsGrounded(fire, Apply(s, step).value)
  {
    hide Affected, IdsWhere, Mark;
    var t := Apply(s, step).value;
    StepExtends(s, step);
    forall x | x in t.log ensures exists i :: 0 <= i < |t.rows| && x in fire(t.rows[i].metric) {
      if x in s.log {
        var i :| 0 <= i < |s.rows| && x in fire(s.rows[i].metric);
        assert x in fire(t.rows[i].metric);
      } else {
        var phase := PhaseOf(s, step.who);
        assert x in phase.anomalies;
        var k :| 0 <= k < |phase.batch| && x in fire(phase.batch[k]);
        assert HasMetric(s.rows, phase.batch[k]);
        var i :| 0 <= i < |s.rows| && s.rows[i].metric == phase.batch[k];
        assert x in fire(t.rows[i].metric);
      }
    }
  }

  /** For any number of analyzers, in every run with any failures, lost acknowledgements, partial
      publishes and crashes: whatever a marked metric triggers is in the log, and whatever is in the log
      was triggered by a metric of the table. */
  lemma {:induction false} NoMarkedMetricUnreported(fire: Metric -> seq<Anomaly>, steps: seq<Step>)
    requires Stamping(fire) && FaithfulSteps(fire, steps) && Exec(START, steps).Some?
    ensures MarkedAreReported(fire, Exec(START, steps).value)
    ensures LogIsGrounded(fire, Exec(START, steps).value)
    ensures PhasesFaithful(fire, Exec(START, steps).value)
  {
    hide Apply, Faithful, Stamping, MarkedAreReported, LogIsGrounded, PhasesFaithful;
    if steps == [] {
      StartIsSafe(fire);
    } else {
      var before, last := steps[..|steps|-1], steps[|steps|-1];
      NoMarkedMetricUnreported(fire, before);
      RunKeepsInv(before);
      var s := Exec(START, before).value;
      StepKeepsFaithful(fire, s, last);
      StepKeepsReported(fire, s, last);
      StepKeepsGrounded(fire, s, last);
    }
  }

  lemma StartIsSafe(fire: Metric -> seq<Anomaly>)
    ensures MarkedAreReported(fire, START) && LogIsGrounded(fire, START) && PhasesFaithful(fire, START)
  {}
}
