/** Every operation of the notifier, with whatever faults, is a run of the interleaving steps of one worker.

So the invariants of all runs hold for the operations too, and an operation with nobody in between is one
of the schedules the races are about. */
module NotifierRuns {
  import opened Wrappers
  import opened IncidentStore
  import opened IncidentProtocol
  import opened NotifierService

  /** The run performs the operation: it leaves its tables and notices, its worker is idle again and no
      other worker has moved. */
  ghost predicate Performs(s: State, steps: seq<Step>, w: int, after: World) {
    && Exec(s, steps).Some?
    && var t := Exec(s, steps).value;
       World(t.db, t.notices) == after && TaskOf(t, w) == Idle && forall v :: v != w ==> TaskOf(t, v) == TaskOf(s, v)
  }

  /** The run has brought its worker to the given task and tables. */
  ghost predicate Reaches(s: State, steps: seq<Step>, w: int, task: Task, db: DB) {
    && Exec(s, steps).Some?
    && var t := Exec(s, steps).value;
       && TaskOf(t, w) == task && t.db == db && t.notices == s.notices
       && forall v :: v != w ==> TaskOf(t, v) == TaskOf(s, v)
  }

  lemma StartsIdle(s: State, w: int)
    requires TaskOf(s, w) == Idle
    ensures Reaches(s, [], w, Idle, s.db)
    ensures Exec(s, []).value == s
  {
    ExecNone(s);
  }

  /** One more step of the worker. */
  lemma Then(s: State, steps: seq<Step>, w: int, task: Task, db: DB, step: Step, task': Task, db': DB) returns (steps': seq<Step>)
    requires Reaches(s, steps, w, task, db)
    requires var t := Exec(s, steps).value;
             Apply(t, step).Some? && Apply(t, step).value == Enter(t, w, task').(db := db', born := Apply(t, step).value.born)
    ensures steps' == steps + [step] && Reaches(s, steps', w, task', db')
    ensures Exec(s, steps') == Apply(Exec(s, steps).value, step)
  {
    hide Exec, Apply;
    ExecAppend(s, steps, step);
    steps' := steps + [step];
  }

  /** A worker that has nothing more to say stops. */
  lemma Stops(s: State, steps: seq<Step>, w: int, task: Task, db: DB) returns (steps': seq<Step>)
    requires Reaches(s, steps, w, task, db)
    ensures Performs(s, steps', w, World(db, s.notices))
  {
    hide Exec, Apply;
    ExecAppend(s, steps, Abort(w));
    AnyoneAborts(Exec(s, steps).value, w);
    steps' := steps + [Abort(w)];
  }

  lemma Announces(s: State, steps: seq<Step>, w: int, notice: Notice, db: DB) returns (steps': seq<Step>)
    requires Reaches(s, steps, w, Announcing(notice), db)
    ensures Performs(s, steps', w, World(db, s.notices + [notice]))
  {
    hide Exec, Apply;
    ExecAppend(s, steps, Announce(w));
    AnnouncerAnnounces(Exec(s, steps).value, w);
    steps' := steps + [Announce(w)];
  }

  /** Writing back a changed row, if the call got through. */
  lemma Writes(s: State, steps: seq<Step>, w: int, task: Task, db: DB, outcome: CallOutcome) returns (steps': seq<Step>)
    requires Reaches(s, steps, w, task, db) && task.Writing? && task.id in db.incidents
    ensures outcome == Acknowledged ==> Reaches(s, steps', w, Follow(task.id, task.cause), UpdateRow(db, task.id, task.change))
    ensures outcome != Acknowledged ==> Performs(s, steps', w, World(Called(outcome, db, UpdateRow(db, task.id, task.change)), s.notices))
  {
    hide Exec, Apply, UpdateRow, Reaches, Performs;
    if outcome == NotApplied {
      steps' := Stops(s, steps, w, task, db);
    } else {
      steps' := WritesBack(s, steps, w, task, db);
      if outcome != Acknowledged {
        steps' := Stops(s, steps', w, Follow(task.id, task.cause), UpdateRow(db, task.id, task.change));
      }
    }
  }

  lemma WritesBack(s: State, steps: seq<Step>, w: int, task: Task, db: DB) returns (steps': seq<Step>)
    requires Reaches(s, steps, w, task, db) && task.Writing? && task.id in db.incidents
    ensures Reaches(s, steps', w, Follow(task.id, task.cause), UpdateRow(db, task.id, task.change))
  {
    hide Exec, Apply, UpdateRow;
    WriterUpdates(Exec(s, steps).value, w);
    steps' := Then(s, steps, w, task, db, Update(w), Follow(task.id, task.cause), UpdateRow(db, task.id, task.change));
  }

  lemma AppendIsRun(s: State, steps: seq<Step>, w: int, id: string, p: Payload, db: DB, now: int, outcome: CallOutcome)
    returns (steps': seq<Step>)
    requires Reaches(s, steps, w, Appending(id, p), db)
    ensures Performs(s, steps', w, World(Called(outcome, db, InsertEvent(db, EventOf(id, p, now))), s.notices))
  {
    hide Exec, Apply, InsertEvent;
    if outcome == NotApplied {
      steps' := Stops(s, steps, w, Appending(id, p), db);
    } else {
      AppenderAppends(Exec(s, steps).value, w, now);
      steps' := Then(s, steps, w, Appending(id, p), db, AppendEvent(w, now), Idle, InsertEvent(db, EventOf(id, p, now)));
    }
  }

  lemma RepeatIsRun(s: State, w: int, id: string, p: Payload, now: int, f: AnomalyFaults) returns (steps: seq<Step>)
    requires TaskOf(s, w) == Idle && id in s.db.incidents && s.db.incidents[id].key == p.key
    ensures Performs(s, steps, w, AfterRepeat(World(s.db, s.notices), id, p, now, f).0)
  {
    hide Exec, Apply, UpdateRow, InsertEvent, EventOf, Reaches, Performs;
    var task := Writing(id, s.db.incidents[id].status, Refreshed(s.db.incidents[id], now), ByAnomaly(p));
    StartsIdle(s, w);
    AnomalyReads(s, w, p, id, now);
    steps := Then(s, [], w, Idle, s.db, LookupKey(w, p, Some(id), now), task, s.db);
    steps := Writes(s, steps, w, task, s.db, f.update);
    if f.update == Acknowledged {
      steps := AppendIsRun(s, steps, w, id, p, UpdateRow(s.db, id, task.change), now, f.append);
    }
  }

  lemma InsertsIsRun(s: State, w: int, p: Payload, uuid: string, now: int) returns (steps: seq<Step>)
    requires TaskOf(s, w) == Idle && uuid !in s.born && !KeyReserved(s, p.key) && !HasKey(s.db, p.key)
    ensures Reaches(s, steps, w, Ready(uuid, NewIncident(p, now), EventOf(uuid, p, now)), s.db)
  {
    hide Exec, Apply, EventOf, HasKey, NewIncident;
    StartsIdle(s, w);
    MissCreates(s, w, p, now);
    steps := Then(s, [], w, Idle, s.db, LookupKey(w, p, None, now), Creating(p), s.db);
    assert !KeyReserved(Exec(s, steps).value, p.key);
    CreatorInserts(Exec(s, steps).value, w, uuid, now);
    steps := Then(s, steps, w, Creating(p), s.db, InsertRow(w, uuid, now), Inserted(uuid, NewIncident(p, now), p), s.db);
    CreatorAddsEvent(Exec(s, steps).value, w, now);
    steps := Then(s, steps, w, Inserted(uuid, NewIncident(p, now), p), s.db, InsertFirstEvent(w, now),
                  Ready(uuid, NewIncident(p, now), EventOf(uuid, p, now)), s.db);
  }

  lemma FirstIsRun(s: State, w: int, p: Payload, uuid: string, now: int, f: AnomalyFaults) returns (steps: seq<Step>)
    requires TaskOf(s, w) == Idle && uuid !in s.born && !KeyReserved(s, p.key) && !HasKey(s.db, p.key)
    ensures Performs(s, steps, w, AfterFirst(World(s.db, s.notices), p, uuid, now, f).0)
  {
    hide Exec, Apply, EventOf, HasKey, InsertBoth, NewIncident, KeyReserved, Reaches, Performs;
    var incident, event := NewIncident(p, now), EventOf(uuid, p, now);
    if f.beginFails || f.createFails || uuid in s.db.incidents || f.eventFails || f.commit == NotApplied {
      StartsIdle(s, w);
      steps := Stops(s, [], w, Idle, s.db);
    } else {
      steps := InsertsIsRun(s, w, p, uuid, now);
      steps := CommitsIsRun(s, steps, w, uuid, incident, event);
      if f.commit == Acknowledged {
        steps := Announces(s, steps, w, NoticeCreated(uuid), InsertBoth(s.db, uuid, incident, event));
      } else {
        steps := Stops(s, steps, w, Announcing(NoticeCreated(uuid)), InsertBoth(s.db, uuid, incident, event));
      }
    }
  }

  lemma CommitsIsRun(s: State, steps: seq<Step>, w: int, id: string, incident: Incident, event: Event) returns (steps': seq<Step>)
    requires Reaches(s, steps, w, Ready(id, incident, event), s.db)
    ensures Reaches(s, steps', w, Announcing(NoticeCreated(id)), InsertBoth(s.db, id, incident, event))
  {
    hide Exec, Apply, InsertBoth;
    CreatorCommits(Exec(s, steps).value, w);
    steps' := Then(s, steps, w, Ready(id, incident, event), s.db, Commit(w), Announcing(NoticeCreated(id)),
                   InsertBoth(s.db, id, incident, event));
  }

  /** Handling an anomaly is a run, in any reachable state where no other transaction holds its key. */
  lemma AnomalyIsRun(s: State, w: int, p: Payload, uuid: string, now: int, f: AnomalyFaults) returns (steps: seq<Step>)
    requires TaskOf(s, w) == Idle && uuid !in s.born && !KeyReserved(s, p.key)
    ensures Performs(s, steps, w, AfterAnomaly(World(s.db, s.notices), p, uuid, now, f).0)
  {
    hide Exec, Apply, Performs, Reaches, HasKey, KeyReserved, AfterRepeat, AfterFirst;
    if f.lookupFails {
      StartsIdle(s, w);
      steps := Stops(s, [], w, Idle, s.db);
    } else if Lookup(s.db, p.key).Some? {
      steps := RepeatIsRun(s, w, Lookup(s.db, p.key).value, p, now, f);
    } else {
      steps := FirstIsRun(s, w, p, uuid, now, f);
    }
  }

  lemma EscalateIsRun(s: State, w: int, id: string, now: int, f: ChangeFaults) returns (steps: seq<Step>)
    requires TaskOf(s, w) == Idle
    ensures Performs(s, steps, w, AfterEscalate(World(s.db, s.notices), id, now, f).0)
  {
    hide Exec, Apply, UpdateRow, Performs, Reaches;
    StartsIdle(s, w);
    if f.readFails || id !in s.db.incidents || s.db.incidents[id].status == Resolved {
      steps := Stops(s, [], w, Idle, s.db);
    } else {
      var task := Writing(id, s.db.incidents[id].status, Raised(s.db.incidents[id], now), ByEscalation);
      EscalationReads(s, w, id, now);
      steps := Then(s, [], w, Idle, s.db, ReadToEscalate(w, id, now), task, s.db);
      steps := Writes(s, steps, w, task, s.db, f.update);
      if f.update == Acknowledged {
        steps := Announces(s, steps, w, NoticeEscalated(id), UpdateRow(s.db, id, task.change));
      }
    }
  }

  lemma ResolveIsRun(s: State, w: int, id: string, text: string, now: int, f: ChangeFaults) returns (steps: seq<Step>)
    requires TaskOf(s, w) == Idle
    ensures Performs(s, steps, w, AfterResolve(World(s.db, s.notices), id, text, now, f).0)
  {
    hide Exec, Apply, UpdateRow, Performs, Reaches;
    StartsIdle(s, w);
    if f.readFails || id !in s.db.incidents || s.db.incidents[id].status == Resolved {
      steps := Stops(s, [], w, Idle, s.db);
    } else {
      var task := Writing(id, s.db.incidents[id].status, Closed(s.db.incidents[id], text, now), ByResolution);
      ResolutionReads(s, w, id, text, now);
      steps := Then(s, [], w, Idle, s.db, ReadToResolve(w, id, text, now), task, s.db);
      steps := Writes(s, steps, w, task, s.db, f.update);
      if f.update == Acknowledged {
        steps := Stops(s, steps, w, Idle, UpdateRow(s.db, id, task.change));
        assert s.notices + [] == s.notices;
      }
      assert s.notices + [] == s.notices;
    }
  }

  /** Storing the comment, if the call got through. */
  lemma CommentIsStored(s: State, w: int, id: string, text: string, now: int) returns (steps: seq<Step>)
    requires TaskOf(s, w) == Idle && id in s.db.incidents
    ensures Reaches(s, steps, w, Touching(id), InsertComment(s.db, Comment(id, text, now)))
  {
    hide Exec, Apply, InsertComment;
    StartsIdle(s, w);
    CommentReads(s, w, id, text);
    steps := Then(s, [], w, Idle, s.db, ReadToComment(w, id, text), Commenting(id, text), s.db);
    CommenterInserts(Exec(s, steps).value, w, now);
    steps := Then(s, steps, w, Commenting(id, text), s.db, InsertCommentRow(w, now), Touching(id),
                  InsertComment(s.db, Comment(id, text, now)));
  }

  lemma TouchIsRead(s: State, steps: seq<Step>, w: int, id: string, db: DB, now: int) returns (steps': seq<Step>)
    requires Reaches(s, steps, w, Touching(id), db) && id in db.incidents
    ensures Reaches(s, steps', w, Writing(id, db.incidents[id].status, Touched(db.incidents[id], now), ByComment), db)
  {
    hide Exec, Apply;
    TouchReads(Exec(s, steps).value, w, id, now);
    steps' := Then(s, steps, w, Touching(id), db, ReadToTouch(w, now),
                   Writing(id, db.incidents[id].status, Touched(db.incidents[id], now), ByComment), db);
  }

  lemma CommentIsRun(s: State, w: int, id: string, text: string, now: int, f: CommentFaults) returns (steps: seq<Step>)
    requires TaskOf(s, w) == Idle
    ensures Performs(s, steps, w, AfterComment(World(s.db, s.notices), id, text, now, f).0)
  {
    hide Exec, Apply, UpdateRow, Performs, Reaches;
    StartsIdle(s, w);
    if f.readFails || id !in s.db.incidents || f.insert == NotApplied {
      steps := Stops(s, [], w, Idle, s.db);
    } else {
      var commented := InsertComment(s.db, Comment(id, text, now));
      steps := CommentIsStored(s, w, id, text, now);
      if f.insert != Acknowledged || f.rereadFails {
        steps := Stops(s, steps, w, Touching(id), commented);
      } else {
        steps := TouchIsRead(s, steps, w, id, commented, now);
        var task := Writing(id, commented.incidents[id].status, Touched(commented.incidents[id], now), ByComment);
        steps := Writes(s, steps, w, task, commented, f.touch);
        if f.touch == Acknowledged {
          steps := Stops(s, steps, w, Idle, UpdateRow(commented, id, task.change));
        }
      }
    }
  }

  lemma DeleteIsRun(s: State, w: int, id: string, outcome: CallOutcome) returns (steps: seq<Step>)
    requires TaskOf(s, w) == Idle
    ensures Performs(s, steps, w, AfterDelete(World(s.db, s.notices), id, outcome))
  {
    hide Exec, DeleteRow;
    ExecNone(s);
    steps := [];
    if outcome != NotApplied {
      ExecAppend(s, [], Delete(id));
      steps := [] + [Delete(id)];
    }
  }
}
