/** What every run of any number of notifier workers keeps, and the one promise that races break: an
escalated or resolved incident can be pushed back by a worker that read it earlier. */
module IncidentRaces {
  import opened Wrappers
  import opened IncidentStore
  import opened IncidentProtocol

  /** In every run: one incident per key, no incident without an event, no resolved incident without a
      resolution time, and no event or comment of a deleted incident. */
  lemma TableSurvivesRaces(steps: seq<Step>)
    requires Exec(START, steps).Some?
    ensures var db := Exec(START, steps).value.db;
            && UniqueKeys(db)
            && (forall id :: id in db.incidents ==> EventsOf(db.events, id) != [])
            && (forall id :: id in db.incidents && db.incidents[id].status == Resolved ==> db.incidents[id].resolvedAt.Some?)
            && (forall e :: e in db.events ==> e.incidentID in db.incidents)
            && (forall c :: c in db.comments ==> c.incidentID in db.incidents)
  {
    hide Exec, HasEvent;
    StartInv();
    RunKeepsInv(START, steps);
    var db := Exec(START, steps).value.db;
    forall id | id in db.incidents ensures EventsOf(db.events, id) != [] {
      HasEventOf(db.events, id);
    }
  }

  lemma {:induction false} HasEventOf(events: seq<Event>, id: string)
    requires HasEvent(events, id)
    ensures EventsOf(events, id) != []
  {
    var k :| 0 <= k < |events| && events[k].incidentID == id;
    if k < |events| - 1 {
      assert events[..|events|-1][k].incidentID == id;
      HasEventOf(events[..|events|-1], id);
    }
  }

  // ----- identity -----

  lemma {:induction false} BornExtends(s: State, steps: seq<Step>)
    requires Exec(s, steps).Some?
    ensures forall id :: id in s.born ==> id in Exec(s, steps).value.born && Exec(s, steps).value.born[id] == s.born[id]
  {
    hide Apply;
    if steps != [] {
      BornExtends(s, steps[..|steps|-1]);
      BornGrows(Exec(s, steps[..|steps|-1]).value, steps[|steps|-1]);
    }
  }

  /** Rule, service, metric, severity and creation time of an incident are the same whenever it is looked
      at, and no later incident takes over its id. */
  lemma IdentityNeverChanges(before: seq<Step>, after: seq<Step>, id: string)
    requires Exec(START, before).Some? && Exec(Exec(START, before).value, after).Some?
    requires var s := Exec(START, before).value; id in s.db.incidents && id in Exec(s, after).value.db.incidents
    ensures var s := Exec(START, before).value;
            IdentityOf(Exec(s, after).value.db.incidents[id]) == IdentityOf(s.db.incidents[id])
  {
    hide Exec, TableInv, Disjoint, TaskInv;
    StartInv();
    RunKeepsInv(START, before);
    var s := Exec(START, before).value;
    RunKeepsInv(s, after);
    BornExtends(s, after);
  }

  // ----- notices -----

  /** A created notice is sent once, and by nobody who could send it again. */
  ghost predicate NoticeInv(s: State) {
    && (forall i, j :: 0 <= i < j < |s.notices| && s.notices[i].NoticeCreated? ==> s.notices[i] != s.notices[j])
    && (forall id :: NoticeCreated(id) in s.notices ==> id in s.born)
    && (forall w :: w in s.tasks && Claim(s.tasks[w]).Some? ==> NoticeCreated(Claim(s.tasks[w]).value) !in s.notices)
  }

  /** Only an announcement sends a notice. */
  lemma NoticesGrow(s: State, step: Step)
    requires Apply(s, step).Some?
    ensures var t := Apply(s, step).value;
            if step.Announce? then
              && step.w in s.tasks && s.tasks[step.w].Announcing? && t.notices == s.notices + [s.tasks[step.w].notice]
              && t.tasks == s.tasks[step.w := Idle] && t.born == s.born
            else t.notices == s.notices
  {
    hide UpdateRow, InsertEvent, InsertComment, InsertBoth, DeleteRow, KeyReserved, HasKey;
  }

  lemma AnnouncementKeepsNotices(s: State, w: int)
    requires Inv(s) && NoticeInv(s) && Apply(s, Announce(w)).Some?
    ensures NoticeInv(Apply(s, Announce(w)).value)
  {
    hide Apply, TableInv, RowsBorn;
    NoticesGrow(s, Announce(w));
    ClaimsAreBorn(s);
    var notice := s.tasks[w].notice;
    if notice.NoticeCreated? {
      assert Claim(s.tasks[w]) == Some(notice.id);
    }
  }

  lemma StepKeepsNotices(s: State, step: Step)
    requires Inv(s) && NoticeInv(s) && Apply(s, step).Some?
    ensures NoticeInv(Apply(s, step).value)
  {
    hide Apply, TableInv, RowsBorn, Disjoint, TaskInv, Inv;
    if step.Announce? {
      AnnouncementKeepsNotices(s, step.w);
    } else {
      NoticesGrow(s, step);
      BornGrows(s, step);
      TaskMoves(s, step);
      InsertClaims(s, step);
    }
  }

  /** In every run, every incident is announced as created at most once. */
  lemma {:induction false} CreatedOnce(steps: seq<Step>)
    requires Exec(START, steps).Some?
    ensures NoticeInv(Exec(START, steps).value)
  {
    hide Apply, Inv;
    if steps != [] {
      hide NoticeInv;
      var before := steps[..|steps|-1];
      CreatedOnce(before);
      StartInv();
      RunKeepsInv(START, before);
      StepKeepsNotices(Exec(START, before).value, steps[|steps|-1]);
    }
  }

  /** What a notice says is so: the incident is stored, and escalated if the notice says that. */
  predicate IsTrue(s: State, notice: Notice) {
    match notice
    case NoticeCreated(id) => id in s.db.incidents
    case NoticeEscalated(id) => id in s.db.incidents && s.db.incidents[id].status == Escalated
  }

  /** The notice was sent, or some worker is about to send it. */
  ghost predicate Decided(s: State, notice: Notice) {
    notice in s.notices || exists w :: w in s.tasks && s.tasks[w] == Announcing(notice)
  }

  ghost predicate OnceTrue(steps: seq<Step>, notice: Notice) {
    exists k :: 0 <= k <= |steps| && Exec(START, steps[..k]).Some? && IsTrue(Exec(START, steps[..k]).value, notice)
  }

  /** A worker decides to send a notice by the step that makes it true. */
  lemma DecisionIsTrue(s: State, step: Step, w: int, notice: Notice)
    requires Inv(s) && Apply(s, step).Some?
    requires w in Apply(s, step).value.tasks && Apply(s, step).value.tasks[w] == Announcing(notice)
    ensures (w in s.tasks && s.tasks[w] == Announcing(notice)) || IsTrue(Apply(s, step).value, notice)
  {
    hide TableInv, RowsBorn, Disjoint, HasKey, KeyReserved, EventsWithout, CommentsWithout;
    if step.Update? && TaskOf(s, step.w).Writing? {
      assert TaskInv(s.db, s.born, s.tasks[step.w]);
    }
  }

  lemma NoticeOrigin(s: State, step: Step, notice: Notice)
    requires Inv(s) && Apply(s, step).Some? && Decided(Apply(s, step).value, notice)
    ensures Decided(s, notice) || IsTrue(Apply(s, step).value, notice)
  {
    hide Apply, Inv, IsTrue;
    var t := Apply(s, step).value;
    NoticesGrow(s, step);
    if notice !in t.notices {
      var w :| w in t.tasks && t.tasks[w] == Announcing(notice);
      DecisionIsTrue(s, step, w, notice);
    }
  }

  /** In every run, whatever is announced was true at some point before: the created incident was committed,
      the escalated one was stored as escalated. */
  lemma {:induction false} AnnouncedWasTrue(steps: seq<Step>, notice: Notice)
    requires Exec(START, steps).Some? && Decided(Exec(START, steps).value, notice)
    ensures OnceTrue(steps, notice)
  {
    hide Apply, Inv, IsTrue;
    if steps != [] {
      var before := steps[..|steps|-1];
      StartInv();
      RunKeepsInv(START, before);
      NoticeOrigin(Exec(START, before).value, steps[|steps|-1], notice);
      if Decided(Exec(START, before).value, notice) {
        AnnouncedWasTrue(before, notice);
        var k :| 0 <= k <= |before| && Exec(START, before[..k]).Some? && IsTrue(Exec(START, before[..k]).value, notice);
        assert steps[..k] == before[..k];
      } else {
        assert steps[..|steps|] == steps;
      }
    }
  }

  // ----- escalation -----

  /** An update of an escalated incident keeps it escalated exactly if it is an escalation, or is not a
      resolution and the worker had read the incident as escalated. */
  lemma EscalationKeptIff(s: State, w: int)
    requires Inv(s) && TaskOf(s, w).Writing?
    requires var id := TaskOf(s, w).id; id in s.db.incidents && s.db.incidents[id].status == Escalated
    ensures var task := TaskOf(s, w);
            Apply(s, Update(w)).value.db.incidents[task.id].status == Escalated
            <==> task.cause.ByEscalation? || (!task.cause.ByResolution? && task.seen == Escalated)
  {
    hide TableInv, RowsBorn, Disjoint;
    assert TaskInv(s.db, s.born, s.tasks[w]);
  }

  /** No step but an update changes the status of an incident that stays. */
  lemma OnlyUpdatesChangeStatus(s: State, step: Step, id: string)
    requires Inv(s) && Apply(s, step).Some? && id in s.db.incidents && step != Delete(id)
    ensures id in Apply(s, step).value.db.incidents
    ensures Apply(s, step).value.db.incidents[id].status != s.db.incidents[id].status
            ==> step.Update? && TaskOf(s, step.w).Writing? && TaskOf(s, step.w).id == id
  {
    hide TableInv, HasKey, KeyReserved, EventsWithout, CommentsWithout;
    if step.Commit? && TaskOf(s, step.w).Ready? {
      assert TaskInv(s.db, s.born, s.tasks[step.w]);
    }
  }

  /** The step neither deletes nor resolves the incident, and if it updates it, its status is still what
      the worker read. */
  ghost predicate Guarded(s: State, step: Step, id: string) {
    && step != Delete(id)
    && (step.Update? && TaskOf(s, step.w).Writing? && TaskOf(s, step.w).id == id && id in s.db.incidents ==>
          TaskOf(s, step.w).seen == s.db.incidents[id].status && !TaskOf(s, step.w).cause.ByResolution?)
  }

  ghost predicate GuardedRun(s: State, steps: seq<Step>, id: string) {
    forall k :: 0 <= k < |steps| && Exec(s, steps[..k]).Some? ==> Guarded(Exec(s, steps[..k]).value, steps[k], id)
  }

  /** As long as nobody updates the incident between another worker's read and its update, an escalated
      incident stays escalated until it is resolved or deleted. */
  lemma {:induction false} EscalationSticks(s: State, steps: seq<Step>, id: string)
    requires Inv(s) && id in s.db.incidents && s.db.incidents[id].status == Escalated
    requires Exec(s, steps).Some? && GuardedRun(s, steps, id)
    ensures id in Exec(s, steps).value.db.incidents && Exec(s, steps).value.db.incidents[id].status == Escalated
  {
    hide Apply, Inv;
    if steps != [] {
      var before, step := steps[..|steps|-1], steps[|steps|-1];
      assert GuardedRun(s, before, id) by {
        forall k | 0 <= k < |before| && Exec(s, before[..k]).Some? ensures Guarded(Exec(s, before[..k]).value, before[k], id) {
          assert before[..k] == steps[..k];
        }
      }
      EscalationSticks(s, before, id);
      RunKeepsInv(s, before);
      var t := Exec(s, before).value;
      assert Guarded(t, step, id);
      OnlyUpdatesChangeStatus(t, step, id);
      if step.Update? && TaskOf(t, step.w).Writing? && TaskOf(t, step.w).id == id {
        EscalationKeptIff(t, step.w);
      }
    }
  }

  predicate StoredAs(s: State, id: string, incident: Incident) {
    id in s.db.incidents && s.db.incidents[id] == incident
  }

  predicate HasStatus(s: State, id: string, status: Status) {
    id in s.db.incidents && s.db.incidents[id].status == status
  }

  /** Without that condition the promise fails, from every reachable incident that is neither escalated nor
      resolved: an anomaly that was read before an escalation and written after it leaves the incident
      updated although the escalation was announced. */
  lemma EscalationLost(s: State, id: string, p: Payload, v: int, w: int, now: int)
    requires Inv(s) && id in s.db.incidents && p.key == s.db.incidents[id].key
    requires s.db.incidents[id].status == Open || s.db.incidents[id].status == Updated
    requires v != w && TaskOf(s, v) == Idle && TaskOf(s, w) == Idle
    ensures var race := [LookupKey(v, p, Some(id), now), ReadToEscalate(w, id, now), Update(w), Announce(w), Update(v)];
            && Exec(s, race[..4]).Some? && HasStatus(Exec(s, race[..4]).value, id, Escalated)
            && Exec(s, race).Some? && HasStatus(Exec(s, race).value, id, Updated)
            && Exec(s, race).value.notices == s.notices + [NoticeEscalated(id)]
  {
    hide Exec, Inv, Apply;
    var race := [LookupKey(v, p, Some(id), now), ReadToEscalate(w, id, now), Update(w), Announce(w), Update(v)];
    ExecNone(s);
    assert race[..0] == [];
    ExecNext(s, race, 0);
    AnomalyReads(s, v, p, id, now);
    ExecNext(s, race, 1);
    EscalationReads(Exec(s, race[..1]).value, w, id, now);
    ExecNext(s, race, 2);
    WriterUpdates(Exec(s, race[..2]).value, w);
    ExecNext(s, race, 3);
    AnnouncerAnnounces(Exec(s, race[..3]).value, w);
    ExecNext(s, race, 4);
    WriterUpdates(Exec(s, race[..4]).value, v);
    assert race[..5] == race;
  }

  // ----- resolution -----

  /** An update of a resolved incident keeps it resolved exactly if it is a resolution, or a comment's
      refresh whose worker had read the incident as resolved. Anomalies and escalations never keep it. */
  lemma ResolutionKeptIff(s: State, w: int)
    requires Inv(s) && TaskOf(s, w).Writing? && HasStatus(s, TaskOf(s, w).id, Resolved)
    ensures var task := TaskOf(s, w);
            HasStatus(Apply(s, Update(w)).value, task.id, Resolved)
            <==> task.cause.ByResolution? || (task.cause.ByComment? && task.seen == Resolved)
  {
    hide TableInv, RowsBorn, Disjoint;
    assert TaskInv(s.db, s.born, s.tasks[w]);
  }

  predicate Updates(s: State, step: Step, id: string) {
    step.Update? && TaskOf(s, step.w).Writing? && TaskOf(s, step.w).id == id && id in s.db.incidents
  }

  /** The step neither deletes the incident nor updates it for an anomaly, and if it updates it, its status
      is still what the worker read. */
  ghost predicate StatusCurrent(s: State, step: Step, id: string) {
    && step != Delete(id)
    && (Updates(s, step, id) ==>
          !TaskOf(s, step.w).cause.ByAnomaly? && TaskOf(s, step.w).seen == s.db.incidents[id].status)
  }

  /** Moreover the worker read the resolution that is stored. */
  ghost predicate RowCurrent(s: State, step: Step, id: string) {
    && StatusCurrent(s, step, id)
    && (Updates(s, step, id) && TaskOf(s, step.w).cause.ByComment? ==>
          && TaskOf(s, step.w).change.resolvedAt == s.db.incidents[id].resolvedAt
          && TaskOf(s, step.w).change.resolution == s.db.incidents[id].resolution)
  }

  /** All steps of a run satisfy a condition on the state they start from. */
  ghost predicate Throughout(s: State, steps: seq<Step>, holds: (State, Step) -> bool) {
    forall k :: 0 <= k < |steps| && Exec(s, steps[..k]).Some? ==> holds(Exec(s, steps[..k]).value, steps[k])
  }

  lemma ThroughoutPrefix(s: State, steps: seq<Step>, holds: (State, Step) -> bool)
    requires steps != [] && Throughout(s, steps, holds) && Exec(s, steps[..|steps|-1]).Some?
    ensures Throughout(s, steps[..|steps|-1], holds)
    ensures holds(Exec(s, steps[..|steps|-1]).value, steps[|steps|-1])
  {
    hide Exec;
    var before := steps[..|steps|-1];
    forall k | 0 <= k < |before| && Exec(s, before[..k]).Some? ensures holds(Exec(s, before[..k]).value, before[k]) {
      assert before[..k] == steps[..k];
    }
  }

  /** Resolved at the given time with the given text. */
  predicate ResolvedAs(s: State, id: string, at: Option<int>, text: string) {
    HasStatus(s, id, Resolved) && s.db.incidents[id].resolvedAt == at && s.db.incidents[id].resolution == text
  }

  lemma StepKeepsResolved(s: State, step: Step, id: string)
    requires Inv(s) && Apply(s, step).Some? && HasStatus(s, id, Resolved) && StatusCurrent(s, step, id)
    ensures HasStatus(Apply(s, step).value, id, Resolved)
  {
    hide Apply, Inv;
    OnlyUpdatesChangeStatus(s, step, id);
    if Updates(s, step, id) {
      NoneBegunOnResolved(s, step.w);
      ResolutionKeptIff(s, step.w);
    }
  }

  lemma NoneBegunOnResolved(s: State, w: int)
    requires Inv(s) && TaskOf(s, w).Writing?
    ensures TaskOf(s, w).seen == Resolved ==> TaskOf(s, w).cause.ByAnomaly? || TaskOf(s, w).cause.ByComment?
  {
    hide TableInv, RowsBorn, Disjoint;
    assert TaskInv(s.db, s.born, s.tasks[w]);
  }

  /** A step leaves the resolution of an incident that stays as it is, unless it updates the incident. */
  lemma OnlyUpdatesChangeResolution(s: State, step: Step, id: string)
    requires Inv(s) && Apply(s, step).Some? && id in s.db.incidents && step != Delete(id)
    ensures id in Apply(s, step).value.db.incidents
    ensures !Updates(s, step, id) ==>
              && Apply(s, step).value.db.incidents[id].resolvedAt == s.db.incidents[id].resolvedAt
              && Apply(s, step).value.db.incidents[id].resolution == s.db.incidents[id].resolution
  {
    hide TableInv, HasKey, KeyReserved, EventsWithout, CommentsWithout;
    if step.Commit? && TaskOf(s, step.w).Ready? {
      assert TaskInv(s.db, s.born, s.tasks[step.w]);
    }
  }

  lemma StepKeepsResolution(s: State, step: Step, id: string, at: Option<int>, text: string)
    requires Inv(s) && Apply(s, step).Some? && ResolvedAs(s, id, at, text) && RowCurrent(s, step, id)
    ensures ResolvedAs(Apply(s, step).value, id, at, text)
  {
    hide Apply, Inv;
    StepKeepsResolved(s, step, id);
    OnlyUpdatesChangeResolution(s, step, id);
    if Updates(s, step, id) {
      NoneBegunOnResolved(s, step.w);
      WriterUpdates(s, step.w);
    }
  }

  /** As long as every update of it is based on its current status, a resolved incident stays resolved until
      an anomaly or a deletion. */
  lemma {:induction false} ResolutionSticks(s: State, steps: seq<Step>, id: string)
    requires Inv(s) && HasStatus(s, id, Resolved) && Exec(s, steps).Some?
    requires Throughout(s, steps, (t: State, step: Step) => StatusCurrent(t, step, id))
    ensures HasStatus(Exec(s, steps).value, id, Resolved)
  {
    hide Apply, Inv, StatusCurrent, HasStatus;
    if steps != [] {
      var before := steps[..|steps|-1];
      ThroughoutPrefix(s, steps, (t: State, step: Step) => StatusCurrent(t, step, id));
      hide Throughout;
      ResolutionSticks(s, before, id);
      RunKeepsInv(s, before);
      StepKeepsResolved(Exec(s, before).value, steps[|steps|-1], id);
    }
  }

  /** As long as every comment's refresh of it is also based on the resolution that is stored, it keeps the
      time and the text of that resolution. */
  lemma {:induction false} ResolutionTextSticks(s: State, steps: seq<Step>, id: string, at: Option<int>, text: string)
    requires Inv(s) && ResolvedAs(s, id, at, text) && Exec(s, steps).Some?
    requires Throughout(s, steps, (t: State, step: Step) => RowCurrent(t, step, id))
    ensures ResolvedAs(Exec(s, steps).value, id, at, text)
  {
    hide Apply, Inv, RowCurrent, ResolvedAs;
    if steps != [] {
      var before := steps[..|steps|-1];
      ThroughoutPrefix(s, steps, (t: State, step: Step) => RowCurrent(t, step, id));
      hide Throughout;
      ResolutionTextSticks(s, before, id, at, text);
      RunKeepsInv(s, before);
      StepKeepsResolution(Exec(s, before).value, steps[|steps|-1], id, at, text);
    }
  }

  /** One worker handles an anomaly of an incident and another request to resolve it. */
  function Reopen(w: int, id: string, p: Payload, now: int): seq<Step> {
    [LookupKey(w, p, Some(id), now), Update(w), AppendEvent(w, now)]
  }

  function ReopenAndResolve(w: int, id: string, p: Payload, text: string, now: int): seq<Step> {
    Reopen(w, id, p, now) + [ReadToResolve(w, id, text, now), Update(w)]
  }

  /** The worker is idle with the incident in the given status, and no other worker has moved. */
  ghost predicate Leaves(s: State, t: State, w: int, id: string, status: Status) {
    HasStatus(t, id, status) && TaskOf(t, w) == Idle && forall v :: v != w ==> TaskOf(t, v) == TaskOf(s, v)
  }

  lemma Reopened(s: State, w: int, id: string, p: Payload, now: int)
    requires HasStatus(s, id, Resolved) && s.db.incidents[id].key == p.key && TaskOf(s, w) == Idle
    ensures Exec(s, Reopen(w, id, p, now)).Some? && Leaves(s, Exec(s, Reopen(w, id, p, now)).value, w, id, Open)
  {
    hide Exec, Apply, EventOf;
    var run := Reopen(w, id, p, now);
    ExecNone(s);
    assert run[..0] == [];
    ExecNext(s, run, 0);
    AnomalyReads(s, w, p, id, now);
    ExecNext(s, run, 1);
    WriterUpdates(Exec(s, run[..1]).value, w);
    ExecNext(s, run, 2);
    AppenderAppends(Exec(s, run[..2]).value, w, now);
    assert run[..3] == run;
  }

  lemma ResolvedAgain(s: State, w: int, id: string, text: string, now: int)
    requires HasStatus(s, id, Open) && TaskOf(s, w) == Idle
    ensures var run := [ReadToResolve(w, id, text, now), Update(w)];
            Exec(s, run).Some? && Leaves(s, Exec(s, run).value, w, id, Resolved) && ResolvedAs(Exec(s, run).value, id, Some(now), text)
  {
    hide Exec, Apply;
    var run := [ReadToResolve(w, id, text, now), Update(w)];
    ExecNone(s);
    assert run[..0] == [];
    ExecNext(s, run, 0);
    ResolutionReads(s, w, id, text, now);
    ExecNext(s, run, 1);
    WriterUpdates(Exec(s, run[..1]).value, w);
    assert run[..2] == run;
  }

  lemma ReopenedAndResolved(s: State, w: int, id: string, p: Payload, text: string, now: int)
    requires HasStatus(s, id, Resolved) && s.db.incidents[id].key == p.key && TaskOf(s, w) == Idle
    ensures Exec(s, ReopenAndResolve(w, id, p, text, now)).Some?
    ensures var t := Exec(s, ReopenAndResolve(w, id, p, text, now)).value;
            Leaves(s, t, w, id, Resolved) && ResolvedAs(t, id, Some(now), text)
  {
    hide Exec, Reopen, ResolvedAs;
    Reopened(s, w, id, p, now);
    ResolvedAgain(Exec(s, Reopen(w, id, p, now)).value, w, id, text, now);
    ExecConcat(s, Reopen(w, id, p, now), [ReadToResolve(w, id, text, now), Update(w)]);
  }

  /** The status alone is not enough for that: a comment that read one resolution and is written after the
      incident was reopened and resolved again finds the status it had read, and puts the old time and text
      back. */
  lemma ResolutionTextLost(s: State, id: string, p: Payload, v: int, w: int, text: string, now: int)
    requires Inv(s) && HasStatus(s, id, Resolved) && p.key == s.db.incidents[id].key
    requires v != w && TaskOf(s, v) == Touching(id) && TaskOf(s, w) == Idle
    ensures var before := [ReadToTouch(v, now)] + ReopenAndResolve(w, id, p, text, now);
            && Exec(s, before).Some? && ResolvedAs(Exec(s, before).value, id, Some(now), text)
            && StatusCurrent(Exec(s, before).value, Update(v), id)
            && Exec(s, before + [Update(v)]).Some?
            && ResolvedAs(Exec(s, before + [Update(v)]).value, id, s.db.incidents[id].resolvedAt, s.db.incidents[id].resolution)
  {
    hide Exec, Inv, Apply, ReopenAndResolve;
    var before := [ReadToTouch(v, now)] + ReopenAndResolve(w, id, p, text, now);
    ExecNone(s);
    ExecAppend(s, [], ReadToTouch(v, now));
    assert [] + [ReadToTouch(v, now)] == [ReadToTouch(v, now)];
    TouchReads(s, v, id, now);
    var read := Exec(s, [ReadToTouch(v, now)]).value;
    ReopenedAndResolved(read, w, id, p, text, now);
    ExecConcat(s, [ReadToTouch(v, now)], ReopenAndResolve(w, id, p, text, now));
    ExecAppend(s, before, Update(v));
    WriterUpdates(Exec(s, before).value, v);
  }

  /** A comment can undo a resolution in the same way, and erases when and how it was resolved. */
  lemma ResolutionLost(s: State, id: string, v: int, w: int, text: string, now: int)
    requires Inv(s) && id in s.db.incidents && s.db.incidents[id].status != Resolved
    requires v != w && TaskOf(s, v) == Touching(id) && TaskOf(s, w) == Idle
    ensures var race := [ReadToTouch(v, now), ReadToResolve(w, id, text, now), Update(w), Update(v)];
            && Exec(s, race[..3]).Some? && StoredAs(Exec(s, race[..3]).value, id, Closed(s.db.incidents[id], text, now))
            && Exec(s, race).Some? && StoredAs(Exec(s, race).value, id, Touched(s.db.incidents[id], now))
  {
    hide Exec, Inv, Apply;
    var race := [ReadToTouch(v, now), ReadToResolve(w, id, text, now), Update(w), Update(v)];
    ExecNone(s);
    assert race[..0] == [];
    ExecNext(s, race, 0);
    TouchReads(s, v, id, now);
    ExecNext(s, race, 1);
    ResolutionReads(Exec(s, race[..1]).value, w, id, text, now);
    ExecNext(s, race, 2);
    WriterUpdates(Exec(s, race[..2]).value, w);
    ExecNext(s, race, 3);
    WriterUpdates(Exec(s, race[..3]).value, v);
    assert race[..4] == race;
  }
}
