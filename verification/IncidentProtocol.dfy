/** The notifier as many workers run it: every statement is a step of its own, steps of different workers
interleave freely, and any worker may stop between two steps.

A worker that creates an incident holds an open transaction; its rows are not visible to others, but its
key is reserved, since an insert of the same key waits until the transaction is over. A worker that
changes an incident read it earlier and writes the whole of its changed copy back. */
module IncidentProtocol {
  import opened Wrappers
  import opened IncidentStore

  /** Why a worker is about to update a row. */
  datatype Cause = ByAnomaly(payload: Payload) | ByEscalation | ByResolution | ByComment

  datatype Task =
    | Idle
    | Creating(payload: Payload)
    | Inserted(id: string, incident: Incident, payload: Payload)
    | Ready(id: string, incident: Incident, event: Event)
    | Announcing(notice: Notice)
    | Writing(id: string, seen: Status, change: Incident, cause: Cause)
    | Appending(id: string, payload: Payload)
    | Commenting(id: string, text: string)
    | Touching(id: string)

  /** `born` records the identity of every incident ever inserted, whether or not it was committed. */
  datatype State = State(db: DB, notices: seq<Notice>, born: map<string, Identity>, tasks: map<int, Task>)

  datatype Step =
    | LookupKey(w: int, payload: Payload, found: Option<string>, now: int)
    | InsertRow(w: int, id: string, now: int)
    | InsertFirstEvent(w: int, now: int)
    | Commit(w: int)
    | Announce(w: int)
    | ReadToEscalate(w: int, id: string, now: int)
    | ReadToResolve(w: int, id: string, text: string, now: int)
    | ReadToComment(w: int, id: string, text: string)
    | InsertCommentRow(w: int, now: int)
    | ReadToTouch(w: int, now: int)
    | Update(w: int)
    | AppendEvent(w: int, now: int)
    | Delete(id: string)
    | Abort(w: int)

  const START: State := State(EMPTY, [], map[], map[])

  function TaskOf(s: State, w: int): Task {
    if w in s.tasks then s.tasks[w] else Idle
  }

  function Enter(s: State, w: int, t: Task): State {
    s.(tasks := s.tasks[w := t])
  }

  /** The incident a worker alone may commit or announce. */
  function Claim(t: Task): Option<string> {
    match t
    case Inserted(id, _, _) => Some(id)
    case Ready(id, _, _) => Some(id)
    case Announcing(NoticeCreated(id)) => Some(id)
    case _ => None
  }

  /** The key an open transaction has inserted. */
  function Reserved(t: Task): Option<Key> {
    match t
    case Inserted(_, incident, _) => Some(incident.key)
    case Ready(_, incident, _) => Some(incident.key)
    case _ => None
  }

  ghost predicate KeyReserved(s: State, key: Key) {
    exists w :: w in s.tasks && Reserved(s.tasks[w]) == Some(key)
  }

  /** Inserting in a transaction: identifiers are fresh, a reserved key makes the insert wait, a stored key
      makes it fail and the transaction roll back. */
  ghost function AfterInsertRow(s: State, w: int, p: Payload, id: string, now: int): Option<State> {
    if id in s.born || KeyReserved(s, p.key) then None
    else if HasKey(s.db, p.key) then Some(Enter(s, w, Idle))
    else
      var incident := NewIncident(p, now);
      Some(Enter(s, w, Inserted(id, incident, p)).(born := s.born[id := IdentityOf(incident)]))
  }

  function AfterRead(s: State, w: int, id: string, change: Incident, cause: Cause): State
    requires id in s.db.incidents
  {
    Enter(s, w, Writing(id, s.db.incidents[id].status, change, cause))
  }

  /** What follows a successful update. */
  function Follow(id: string, cause: Cause): Task {
    match cause
    case ByAnomaly(p) => Appending(id, p)
    case ByEscalation => Announcing(NoticeEscalated(id))
    case _ => Idle
  }

  ghost function Apply(s: State, step: Step): Option<State> {
    match step
    case LookupKey(w, p, found, now) =>
      if TaskOf(s, w) != Idle then None
      else
        (match found
         case None => if HasKey(s.db, p.key) then None else Some(Enter(s, w, Creating(p)))
         case Some(id) =>
           if id in s.db.incidents && s.db.incidents[id].key == p.key
           then Some(AfterRead(s, w, id, Refreshed(s.db.incidents[id], now), ByAnomaly(p))) else None)
    case InsertRow(w, id, now) =>
      (match TaskOf(s, w) case Creating(p) => AfterInsertRow(s, w, p, id, now) case _ => None)
    case InsertFirstEvent(w, now) =>
      (match TaskOf(s, w)
       case Inserted(id, incident, p) => Some(Enter(s, w, Ready(id, incident, EventOf(id, p, now))))
       case _ => None)
    case Commit(w) =>
      (match TaskOf(s, w)
       case Ready(id, incident, e) =>
         Some(Enter(s, w, Announcing(NoticeCreated(id))).(db := InsertBoth(s.db, id, incident, e)))
       case _ => None)
    case Announce(w) =>
      (match TaskOf(s, w)
       case Announcing(notice) => Some(Enter(s, w, Idle).(notices := s.notices + [notice]))
       case _ => None)
    case ReadToEscalate(w, id, now) =>
      if TaskOf(s, w) != Idle then None
      else if id !in s.db.incidents || s.db.incidents[id].status == Resolved then Some(s)
      else Some(AfterRead(s, w, id, Raised(s.db.incidents[id], now), ByEscalation))
    case ReadToResolve(w, id, text, now) =>
      if TaskOf(s, w) != Idle then None
      else if id !in s.db.incidents || s.db.incidents[id].status == Resolved then Some(s)
      else Some(AfterRead(s, w, id, Closed(s.db.incidents[id], text, now), ByResolution))
    case ReadToComment(w, id, text) =>
      if TaskOf(s, w) != Idle then None
      else if id !in s.db.incidents then Some(s)
      else Some(Enter(s, w, Commenting(id, text)))
    case InsertCommentRow(w, now) =>
      (match TaskOf(s, w)
       case Commenting(id, text) =>
         Some(Enter(s, w, if id in s.db.incidents then Touching(id) else Idle)
              .(db := InsertComment(s.db, Comment(id, text, now))))
       case _ => None)
    case ReadToTouch(w, now) =>
      (match TaskOf(s, w)
       case Touching(id) =>
         if id in s.db.incidents then Some(AfterRead(s, w, id, Touched(s.db.incidents[id], now), ByComment))
         else Some(Enter(s, w, Idle))
       case _ => None)
    case Update(w) =>
      (match TaskOf(s, w)
       case Writing(id, _, change, cause) =>
         Some(Enter(s, w, if id in s.db.incidents then Follow(id, cause) else Idle).(db := UpdateRow(s.db, id, change)))
       case _ => None)
    case AppendEvent(w, now) =>
      (match TaskOf(s, w)
       case Appending(id, p) => Some(Enter(s, w, Idle).(db := InsertEvent(s.db, EventOf(id, p, now))))
       case _ => None)
    case Delete(id) => Some(s.(db := DeleteRow(s.db, id)))
    case Abort(w) => Some(Enter(s, w, Idle))
  }

  /** A run from s: any possible steps in any order. */
  ghost function Exec(s: State, steps: seq<Step>): Option<State> {
    if steps == [] then Some(s)
    else
      match Exec(s, steps[..|steps|-1])
      case None => None
      case Some(t) => Apply(t, steps[|steps|-1])
  }

  // ----- the invariant -----

  /** A pending change carries the status its cause gives to the status that was read; escalations and
      resolutions are not begun on a resolved incident. */
  predicate StatusFits(seen: Status, change: Incident, cause: Cause) {
    && (change.status == Resolved ==> change.resolvedAt.Some?)
    && (cause.ByEscalation? || cause.ByResolution? ==> seen != Resolved)
    && change.status ==
       match cause
       case ByAnomaly(_) => StatusAfterAnomaly(seen)
       case ByEscalation => Escalated
       case ByResolution => Resolved
       case ByComment => seen
  }

  ghost predicate Unborn(db: DB, born: map<string, Identity>, id: string, incident: Incident) {
    && id in born && born[id] == IdentityOf(incident)
    && id !in db.incidents && !HasKey(db, incident.key) && incident.status == Open
  }

  ghost predicate TaskInv(db: DB, born: map<string, Identity>, t: Task) {
    match t
    case Writing(_, seen, change, cause) => StatusFits(seen, change, cause)
    case Inserted(id, incident, _) => Unborn(db, born, id, incident)
    case Ready(id, incident, e) => Unborn(db, born, id, incident) && e.incidentID == id
    case Announcing(NoticeCreated(id)) => id in born
    case _ => true
  }

  ghost predicate RowsBorn(db: DB, born: map<string, Identity>) {
    forall id :: id in db.incidents ==> id in born && born[id] == IdentityOf(db.incidents[id])
  }

  /** Open transactions never hold the same incident or the same key. */
  ghost predicate Disjoint(tasks: map<int, Task>) {
    forall v, w :: v in tasks && w in tasks && v != w ==>
      && (Claim(tasks[v]).Some? ==> Claim(tasks[v]) != Claim(tasks[w]))
      && (Reserved(tasks[v]).Some? ==> Reserved(tasks[v]) != Reserved(tasks[w]))
  }

  ghost predicate Inv(s: State) {
    && TableInv(s.db) && RowsBorn(s.db, s.born) && Disjoint(s.tasks)
    && forall w :: w in s.tasks ==> TaskInv(s.db, s.born, s.tasks[w])
  }

  // ----- one step -----

  /** A stored row was there before with the same identity, or is the one just committed. */
  lemma RowOrigin(s: State, step: Step, id: string)
    requires Apply(s, step).Some? && id in Apply(s, step).value.db.incidents
    ensures var t := Apply(s, step).value;
            || (id in s.db.incidents && IdentityOf(t.db.incidents[id]) == IdentityOf(s.db.incidents[id]))
            || (step.Commit? && TaskOf(s, step.w).Ready? && TaskOf(s, step.w).id == id
                && t.db.incidents[id] == TaskOf(s, step.w).incident)
  {
    hide EventsWithout, CommentsWithout, HasKey, KeyReserved;
  }

  /** Births are never forgotten, and an insert is the only birth. */
  lemma BornGrows(s: State, step: Step)
    requires Apply(s, step).Some?
    ensures var t := Apply(s, step).value;
            || t.born == s.born
            || (step.InsertRow? && step.id !in s.born && TaskOf(t, step.w).Inserted?
                && t.born == s.born[step.id := IdentityOf(TaskOf(t, step.w).incident)])
  {
    hide UpdateRow, InsertEvent, InsertComment, InsertBoth, DeleteRow;
  }

  lemma StepKeepsTable(s: State, step: Step)
    requires Inv(s) && Apply(s, step).Some?
    ensures TableInv(Apply(s, step).value.db)
  {
    hide TableInv, UpdateRow, InsertEvent, InsertComment, InsertBoth, DeleteRow, KeyReserved;
    match step {
      case Commit(w) =>
        var task := TaskOf(s, w);
        InsertBothKeepsTable(s.db, task.id, task.incident, task.event);
      case InsertCommentRow(w, now) => CommentKeepsTable(s.db, Comment(TaskOf(s, w).id, TaskOf(s, w).text, now));
      case Update(w) => UpdateKeepsTable(s.db, TaskOf(s, w).id, TaskOf(s, w).change);
      case AppendEvent(w, now) => EventKeepsTable(s.db, EventOf(TaskOf(s, w).id, TaskOf(s, w).payload, now));
      case Delete(id) => DeleteKeepsTable(s.db, id);
      case _ =>
    }
  }

  lemma StepKeepsRowsBorn(s: State, step: Step)
    requires Inv(s) && Apply(s, step).Some?
    ensures RowsBorn(Apply(s, step).value.db, Apply(s, step).value.born)
  {
    hide Apply, TableInv, HasKey;
    var t := Apply(s, step).value;
    BornGrows(s, step);
    forall id | id in t.db.incidents ensures id in t.born && t.born[id] == IdentityOf(t.db.incidents[id]) {
      RowOrigin(s, step, id);
    }
  }

  /** A worker that commits moves on. */
  lemma CommitMoves(s: State, step: Step)
    requires Apply(s, step).Some?
    ensures step.Commit? ==> step.w in s.tasks && Apply(s, step).value.tasks[step.w] != s.tasks[step.w]
  {
    hide InsertBoth;
  }

  /** A transaction's incident stays unseen by others whatever they do. */
  lemma StaysUnborn(s: State, step: Step, v: int)
    requires Inv(s) && Apply(s, step).Some? && v in s.tasks && Reserved(s.tasks[v]).Some?
    requires v in Apply(s, step).value.tasks && Apply(s, step).value.tasks[v] == s.tasks[v]
    ensures Unborn(Apply(s, step).value.db, Apply(s, step).value.born, s.tasks[v].id, s.tasks[v].incident)
  {
    hide Apply, TableInv;
    var t, task := Apply(s, step).value, s.tasks[v];
    BornGrows(s, step);
    CommitMoves(s, step);
    forall id | id in t.db.incidents ensures id != task.id && t.db.incidents[id].key != task.incident.key {
      RowOrigin(s, step, id);
    }
  }


  /** A step changes no task but its worker's, whose claim and key are its old ones, none, or new. */
  lemma TaskMoves(s: State, step: Step)
    requires Apply(s, step).Some?
    ensures var t := Apply(s, step).value;
            || t.tasks == s.tasks
            || (!step.Delete? && t.tasks == s.tasks[step.w := TaskOf(t, step.w)]
                && (Claim(TaskOf(t, step.w)).Some? ==>
                      Claim(TaskOf(t, step.w)) == if step.InsertRow? then Some(step.id) else Claim(TaskOf(s, step.w)))
                && (Reserved(TaskOf(t, step.w)).Some? ==>
                      if step.InsertRow? then step.id !in s.born && !KeyReserved(s, Reserved(TaskOf(t, step.w)).value)
                      else Reserved(TaskOf(t, step.w)) == Reserved(TaskOf(s, step.w))))
  {
    hide UpdateRow, InsertEvent, InsertComment, InsertBoth, DeleteRow, KeyReserved, HasKey;
  }

  lemma ClaimsAreBorn(s: State)
    requires Inv(s)
    ensures forall w :: w in s.tasks && Claim(s.tasks[w]).Some? ==> Claim(s.tasks[w]).value in s.born
  {}

  lemma StepKeepsDisjoint(s: State, step: Step)
    requires Inv(s) && Apply(s, step).Some?
    ensures Disjoint(Apply(s, step).value.tasks)
  {
    hide Apply, TableInv, HasKey, RowsBorn, TaskInv;
    ClaimsAreBorn(s);
    TaskMoves(s, step);
    InsertClaims(s, step);
  }

  lemma InsertClaims(s: State, step: Step)
    requires Apply(s, step).Some?
    ensures step.InsertRow? && Claim(TaskOf(Apply(s, step).value, step.w)).Some? ==> step.id !in s.born
  {
    hide KeyReserved, HasKey;
  }

  /** Whatever a step leaves its worker with satisfies the invariant. */
  lemma NewTaskInv(s: State, step: Step)
    requires Inv(s) && Apply(s, step).Some? && !step.Delete?
    ensures TaskInv(Apply(s, step).value.db, Apply(s, step).value.born, TaskOf(Apply(s, step).value, step.w))
  {
    hide TableInv, UpdateRow, InsertEvent, InsertComment, InsertBoth, DeleteRow, KeyReserved;
    ReadIsDated(s);
  }

  lemma ReadIsDated(s: State)
    requires TableInv(s.db)
    ensures forall id :: id in s.db.incidents && s.db.incidents[id].status == Resolved ==> s.db.incidents[id].resolvedAt.Some?
  {}

  lemma StepKeepsTasks(s: State, step: Step)
    requires Inv(s) && Apply(s, step).Some?
    ensures forall w :: w in Apply(s, step).value.tasks ==>
              TaskInv(Apply(s, step).value.db, Apply(s, step).value.born, Apply(s, step).value.tasks[w])
  {
    hide Apply, TableInv, HasKey, RowsBorn, Disjoint, KeyReserved;
    var t := Apply(s, step).value;
    TaskMoves(s, step);
    BornGrows(s, step);
    forall w | w in t.tasks ensures TaskInv(t.db, t.born, t.tasks[w]) {
      if !step.Delete? && w == step.w {
        NewTaskInv(s, step);
      } else if Reserved(s.tasks[w]).Some? {
        StaysUnborn(s, step, w);
      }
    }
  }

  /** Every possible step of any worker keeps the invariant. */
  lemma StepKeepsInv(s: State, step: Step)
    requires Inv(s) && Apply(s, step).Some?
    ensures Inv(Apply(s, step).value)
  {
    hide Apply, TableInv, RowsBorn, Disjoint, TaskInv;
    StepKeepsTable(s, step);
    StepKeepsRowsBorn(s, step);
    StepKeepsDisjoint(s, step);
    StepKeepsTasks(s, step);
  }

  lemma StartInv()
    ensures Inv(START)
  {}

  /** Every run of any workers keeps the invariant. */
  lemma {:induction false} RunKeepsInv(s: State, steps: seq<Step>)
    requires Inv(s) && Exec(s, steps).Some?
    ensures Inv(Exec(s, steps).value)
  {
    hide Apply, Inv;
    if steps != [] {
      RunKeepsInv(s, steps[..|steps|-1]);
      StepKeepsInv(Exec(s, steps[..|steps|-1]).value, steps[|steps|-1]);
    }
  }

  lemma ExecNone(s: State)
    ensures Exec(s, []) == Some(s)
  {}

  lemma ExecAppend(s: State, steps: seq<Step>, step: Step)
    requires Exec(s, steps).Some?
    ensures Exec(s, steps + [step]) == Apply(Exec(s, steps).value, step)
  {
    assert (steps + [step])[..|steps|] == steps;
  }

  /** A run read one step at a time. */
  lemma ExecNext(s: State, steps: seq<Step>, k: nat)
    requires k < |steps| && Exec(s, steps[..k]).Some?
    ensures Exec(s, steps[..k + 1]) == Apply(Exec(s, steps[..k]).value, steps[k])
  {
    assert steps[..k + 1] == steps[..k] + [steps[k]];
    ExecAppend(s, steps[..k], steps[k]);
  }

  lemma {:induction false} ExecConcat(s: State, first: seq<Step>, more: seq<Step>)
    requires Exec(s, first).Some?
    ensures Exec(s, first + more) == Exec(Exec(s, first).value, more)
  {
    if more == [] {
      assert first + more == first;
    } else {
      assert (first + more)[..|first + more| - 1] == first + more[..|more|-1];
      ExecConcat(s, first, more[..|more|-1]);
    }
  }

  // ----- single steps -----

  lemma AnomalyReads(s: State, w: int, p: Payload, id: string, now: int)
    requires TaskOf(s, w) == Idle && id in s.db.incidents && s.db.incidents[id].key == p.key
    ensures Apply(s, LookupKey(w, p, Some(id), now))
            == Some(AfterRead(s, w, id, Refreshed(s.db.incidents[id], now), ByAnomaly(p)))
  {}

  lemma EscalationReads(s: State, w: int, id: string, now: int)
    requires TaskOf(s, w) == Idle && id in s.db.incidents && s.db.incidents[id].status != Resolved
    ensures Apply(s, ReadToEscalate(w, id, now)) == Some(AfterRead(s, w, id, Raised(s.db.incidents[id], now), ByEscalation))
  {}

  lemma ResolutionReads(s: State, w: int, id: string, text: string, now: int)
    requires TaskOf(s, w) == Idle && id in s.db.incidents && s.db.incidents[id].status != Resolved
    ensures Apply(s, ReadToResolve(w, id, text, now))
            == Some(AfterRead(s, w, id, Closed(s.db.incidents[id], text, now), ByResolution))
  {}

  lemma TouchReads(s: State, w: int, id: string, now: int)
    requires TaskOf(s, w) == Touching(id) && id in s.db.incidents
    ensures Apply(s, ReadToTouch(w, now)) == Some(AfterRead(s, w, id, Touched(s.db.incidents[id], now), ByComment))
  {}

  lemma WriterUpdates(s: State, w: int)
    requires TaskOf(s, w).Writing? && TaskOf(s, w).id in s.db.incidents
    ensures var task := TaskOf(s, w);
            Apply(s, Update(w)) == Some(Enter(s, w, Follow(task.id, task.cause)).(db := UpdateRow(s.db, task.id, task.change)))
  {}

  lemma AnnouncerAnnounces(s: State, w: int)
    requires TaskOf(s, w).Announcing?
    ensures Apply(s, Announce(w)) == Some(Enter(s, w, Idle).(notices := s.notices + [TaskOf(s, w).notice]))
  {}

  lemma MissCreates(s: State, w: int, p: Payload, now: int)
    requires TaskOf(s, w) == Idle && !HasKey(s.db, p.key)
    ensures Apply(s, LookupKey(w, p, None, now)) == Some(Enter(s, w, Creating(p)))
  {}

  lemma CreatorInserts(s: State, w: int, id: string, now: int)
    requires TaskOf(s, w).Creating? && id !in s.born
    requires var p := TaskOf(s, w).payload; !KeyReserved(s, p.key) && !HasKey(s.db, p.key)
    ensures var incident := NewIncident(TaskOf(s, w).payload, now);
            Apply(s, InsertRow(w, id, now))
            == Some(Enter(s, w, Inserted(id, incident, TaskOf(s, w).payload)).(born := s.born[id := IdentityOf(incident)]))
  {
    hide KeyReserved, HasKey;
  }

  lemma CreatorAddsEvent(s: State, w: int, now: int)
    requires TaskOf(s, w).Inserted?
    ensures var task := TaskOf(s, w);
            Apply(s, InsertFirstEvent(w, now)) == Some(Enter(s, w, Ready(task.id, task.incident, EventOf(task.id, task.payload, now))))
  {}

  lemma CreatorCommits(s: State, w: int)
    requires TaskOf(s, w).Ready?
    ensures var task := TaskOf(s, w);
            Apply(s, Commit(w))
            == Some(Enter(s, w, Announcing(NoticeCreated(task.id))).(db := InsertBoth(s.db, task.id, task.incident, task.event)))
  {
    hide InsertBoth;
  }

  lemma AppenderAppends(s: State, w: int, now: int)
    requires TaskOf(s, w).Appending?
    ensures Apply(s, AppendEvent(w, now))
            == Some(Enter(s, w, Idle).(db := InsertEvent(s.db, EventOf(TaskOf(s, w).id, TaskOf(s, w).payload, now))))
  {
    hide InsertEvent;
  }

  lemma CommentReads(s: State, w: int, id: string, text: string)
    requires TaskOf(s, w) == Idle && id in s.db.incidents
    ensures Apply(s, ReadToComment(w, id, text)) == Some(Enter(s, w, Commenting(id, text)))
  {}

  lemma CommenterInserts(s: State, w: int, now: int)
    requires TaskOf(s, w).Commenting? && TaskOf(s, w).id in s.db.incidents
    ensures var task := TaskOf(s, w);
            Apply(s, InsertCommentRow(w, now))
            == Some(Enter(s, w, Touching(task.id)).(db := InsertComment(s.db, Comment(task.id, task.text, now))))
  {
    hide InsertComment;
  }

  lemma AnyoneAborts(s: State, w: int)
    ensures Apply(s, Abort(w)) == Some(Enter(s, w, Idle))
  {}
}
