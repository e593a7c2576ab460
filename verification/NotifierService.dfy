/** The notifier's operations as the program runs them, over a repository whose every call may fail.

Each operation is specified by what it leaves in the tables and sends as notices, and shown to be a run
of the steps that many workers interleave, so what holds in every run holds for these operations. */
module NotifierService {
  import opened Wrappers
  import opened IncidentStore
  import opened IncidentProtocol

  datatype Error = IncidentNotFound | InvalidStatusTransition | StorageError

  datatype World = World(db: DB, notices: seq<Notice>)

  /** What goes wrong in each database call of an operation. */
  datatype AnomalyFaults = AnomalyFaults(lookupFails: bool, update: CallOutcome, append: CallOutcome,
                                         beginFails: bool, createFails: bool, eventFails: bool, commit: CallOutcome)
  datatype ChangeFaults = ChangeFaults(readFails: bool, update: CallOutcome)
  datatype CommentFaults = CommentFaults(readFails: bool, insert: CallOutcome, rereadFails: bool, touch: CallOutcome)

  function Called(outcome: CallOutcome, before: DB, after: DB): DB {
    if outcome == NotApplied then before else after
  }

  function Answer<T>(outcome: CallOutcome, value: T): Result<T, Error> {
    if outcome == Acknowledged then Ok(value) else Err(StorageError)
  }

  /** An anomaly for a known incident: the row is updated, then the event appended. */
  function AfterRepeat(w: World, id: string, p: Payload, now: int, f: AnomalyFaults): (World, Result<Incident, Error>)
    requires id in w.db.incidents
  {
    var change := Refreshed(w.db.incidents[id], now);
    var updated := Called(f.update, w.db, UpdateRow(w.db, id, change));
    if f.update != Acknowledged then (w.(db := updated), Err(StorageError))
    else (w.(db := Called(f.append, updated, InsertEvent(updated, EventOf(id, p, now)))), Answer(f.append, change))
  }

  /** The first anomaly of its key: incident and event together or not at all, and a notice only for a
      commit that was acknowledged. */
  function AfterFirst(w: World, p: Payload, uuid: string, now: int, f: AnomalyFaults): (World, Result<Incident, Error>) {
    if f.beginFails || f.createFails || uuid in w.db.incidents || f.eventFails then (w, Err(StorageError))
    else
      var committed := Called(f.commit, w.db, InsertBoth(w.db, uuid, NewIncident(p, now), EventOf(uuid, p, now)));
      (World(committed, if f.commit == Acknowledged then w.notices + [NoticeCreated(uuid)] else w.notices),
       Answer(f.commit, NewIncident(p, now)))
  }

  ghost function AfterAnomaly(w: World, p: Payload, uuid: string, now: int, f: AnomalyFaults): (World, Result<Incident, Error>) {
    if f.lookupFails then (w, Err(StorageError))
    else
      match Lookup(w.db, p.key)
      case Some(id) => AfterRepeat(w, id, p, now, f)
      case None => AfterFirst(w, p, uuid, now, f)
  }

  /** A change of status: read, refuse a resolved incident, write back. */
  function AfterChange(w: World, id: string, change: Incident -> Incident, notices: seq<Notice>, f: ChangeFaults)
    : (World, Result<Incident, Error>)
  {
    if f.readFails then (w, Err(StorageError))
    else if id !in w.db.incidents then (w, Err(IncidentNotFound))
    else if w.db.incidents[id].status == Resolved then (w, Err(InvalidStatusTransition))
    else
      var changed := change(w.db.incidents[id]);
      (World(Called(f.update, w.db, UpdateRow(w.db, id, changed)),
             if f.update == Acknowledged then w.notices + notices else w.notices),
       Answer(f.update, changed))
  }

  function AfterEscalate(w: World, id: string, now: int, f: ChangeFaults): (World, Result<Incident, Error>) {
    AfterChange(w, id, (incident: Incident) => Raised(incident, now), [NoticeEscalated(id)], f)
  }

  function AfterResolve(w: World, id: string, text: string, now: int, f: ChangeFaults): (World, Result<Incident, Error>) {
    AfterChange(w, id, (incident: Incident) => Closed(incident, text, now), [], f)
  }

  /** A comment counts once it is stored; the incident's time is then refreshed if that works. */
  function AfterComment(w: World, id: string, text: string, now: int, f: CommentFaults): (World, Result<Comment, Error>) {
    if f.readFails then (w, Err(StorageError))
    else if id !in w.db.incidents then (w, Err(IncidentNotFound))
    else
      var commented := Called(f.insert, w.db, InsertComment(w.db, Comment(id, text, now)));
      if f.insert != Acknowledged then (w.(db := commented), Err(StorageError))
      else
        (w.(db := if f.rereadFails then commented
                  else Called(f.touch, commented, UpdateRow(commented, id, Touched(commented.incidents[id], now)))),
         Ok(Comment(id, text, now)))
  }

  function AfterDelete(w: World, id: string, outcome: CallOutcome): World {
    w.(db := Called(outcome, w.db, DeleteRow(w.db, id)))
  }

  /** The rows an open transaction has inserted. */
  datatype Draft = Draft(id: string, incident: Incident, events: seq<Event>)

  class Repository {
    var db: DB
    var draft: Option<Draft>

    constructor ()
      ensures db == EMPTY && draft == None
    {
      db := EMPTY;
      draft := None;
    }

    method FindByID(id: string, fails: bool) returns (r: Result<Incident, Error>)
      ensures r == if fails then Err(StorageError)
                   else if id in db.incidents then Ok(db.incidents[id]) else Err(IncidentNotFound)
    {
      if fails {
        return Err(StorageError);
      }
      r := if id in db.incidents then Ok(db.incidents[id]) else Err(IncidentNotFound);
    }

    method FindByDedupKey(key: Key, fails: bool) returns (r: Result<(string, Incident), Error>)
      requires UniqueKeys(db)
      ensures r == if fails then Err(StorageError)
                   else match Lookup(db, key) case Some(id) => Ok((id, db.incidents[id])) case None => Err(IncidentNotFound)
    {
      if fails {
        return Err(StorageError);
      }
      if id :| id in db.incidents && db.incidents[id].key == key {
        LookupFinds(db, id);
        return Ok((id, db.incidents[id]));
      }
      return Err(IncidentNotFound);
    }

    method Update(id: string, change: Incident, outcome: CallOutcome) returns (r: Result<(), Error>)
      modifies this`db
      ensures db == if outcome == NotApplied then old(db) else UpdateRow(old(db), id, change)
      ensures r == if outcome != Acknowledged then Err(StorageError)
                   else if id in old(db).incidents then Ok(()) else Err(IncidentNotFound)
    {
      var affected := id in db.incidents;
      if outcome != NotApplied {
        db := UpdateRow(db, id, change);
      }
      if outcome != Acknowledged {
        return Err(StorageError);
      }
      r := if affected then Ok(()) else Err(IncidentNotFound);
    }

    method AddEvent(event: Event, outcome: CallOutcome) returns (ok: bool)
      modifies this`db
      ensures db == if outcome == NotApplied then old(db) else InsertEvent(old(db), event)
      ensures ok == (outcome == Acknowledged && event.incidentID in old(db).incidents)
    {
      ok := outcome == Acknowledged && event.incidentID in db.incidents;
      if outcome != NotApplied {
        db := InsertEvent(db, event);
      }
    }

    method AddComment(comment: Comment, outcome: CallOutcome) returns (ok: bool)
      modifies this`db
      ensures db == if outcome == NotApplied then old(db) else InsertComment(old(db), comment)
      ensures ok == (outcome == Acknowledged && comment.incidentID in old(db).incidents)
    {
      ok := outcome == Acknowledged && comment.incidentID in db.incidents;
      if outcome != NotApplied {
        db := InsertComment(db, comment);
      }
    }

    /** The row is visible to this transaction only; both constraints are checked at once. */
    method CreateInTx(id: string, incident: Incident, fails: bool) returns (ok: bool)
      modifies this`draft
      ensures ok == (!fails && id !in db.incidents && !HasKey(db, incident.key))
      ensures draft == if ok then Some(Draft(id, incident, [])) else old(draft)
    {
      if fails || id in db.incidents {
        return false;
      }
      if other :| other in db.incidents && db.incidents[other].key == incident.key {
        return false;
      }
      draft := Some(Draft(id, incident, []));
      return true;
    }

    method AddEventInTx(event: Event, fails: bool) returns (ok: bool)
      requires draft.Some?
      modifies this`draft
      ensures ok == !fails
      ensures draft == if ok then Some(old(draft).value.(events := old(draft).value.events + [event])) else old(draft)
    {
      if fails {
        return false;
      }
      draft := Some(draft.value.(events := draft.value.events + [event]));
      return true;
    }

    method Rollback()
      modifies this`draft
      ensures draft == None
    {
      draft := None;
    }

    /** Makes the draft visible, all of it at once. */
    method Commit(outcome: CallOutcome) returns (ok: bool)
      requires draft.Some? && |draft.value.events| == 1 && draft.value.events[0].incidentID == draft.value.id
      modifies this
      ensures draft == None && ok == (outcome == Acknowledged)
      ensures var rows := old(draft).value;
              db == if outcome == NotApplied then old(db) else InsertBoth(old(db), rows.id, rows.incident, rows.events[0])
    {
      if outcome != NotApplied {
        db := WithIncident(db, draft.value.id, draft.value.incident).(events := db.events + draft.value.events);
      }
      draft := None;
      return outcome == Acknowledged;
    }

    method Delete(id: string, outcome: CallOutcome) returns (ok: bool)
      modifies this`db
      ensures db == (if outcome == NotApplied then old(db) else DeleteRow(old(db), id)) && ok == (outcome == Acknowledged)
    {
      if outcome != NotApplied {
        db := DeleteRow(db, id);
      }
      return outcome == Acknowledged;
    }
  }

  class NotifierService {
    const repo: Repository
    var notices: seq<Notice>

    ghost predicate Valid()
      reads this, repo
    {
      TableInv(repo.db) && repo.draft == None
    }

    ghost function View(): World
      reads this, repo
    {
      World(repo.db, notices)
    }

    constructor (repo: Repository)
      requires TableInv(repo.db) && repo.draft == None
      ensures Valid() && this.repo == repo && notices == []
    {
      this.repo := repo;
      notices := [];
    }

    method HandleAnomaly(p: Payload, uuid: string, now: int, f: AnomalyFaults) returns (r: Result<Incident, Error>)
      requires Valid()
      modifies this, repo
      ensures Valid() && (View(), r) == AfterAnomaly(old(View()), p, uuid, now, f)
      ensures r.Ok? <==> !f.lookupFails && if old(HasKey(repo.db, p.key)) then f.update == f.append == Acknowledged
                         else !f.beginFails && !f.createFails && uuid !in old(repo.db.incidents) && !f.eventFails && f.commit == Acknowledged
      ensures r.Ok? ==> exists id :: StoredAnomaly(old(View()), View(), id, p, uuid, now, r.value)
      ensures r.Err? ==> r.error == StorageError && notices == old(notices)
    {
      hide TableInv;
      assert UniqueKeys(repo.db) by { TableIsUnique(repo.db); }
      var existing := repo.FindByDedupKey(p.key, f.lookupFails);
      if existing.Err? && existing.error != IncidentNotFound {
        return Err(existing.error);
      }
      if existing.Ok? {
        r := UpdateExisting(existing.value.0, existing.value.1, p, uuid, now, f);
        return;
      }
      r := CreateIncident(p, uuid, now, f);
    }

    /** The branch for a known incident. */
    method UpdateExisting(id: string, existing: Incident, p: Payload, ghost uuid: string, now: int, f: AnomalyFaults) returns (r: Result<Incident, Error>)
      requires Valid() && id in repo.db.incidents && repo.db.incidents[id] == existing && existing.key == p.key
      modifies this, repo
      ensures Valid() && (View(), r) == AfterRepeat(old(View()), id, p, now, f)
      ensures r.Ok? <==> f.update == f.append == Acknowledged
      ensures r.Ok? ==> StoredAnomaly(old(View()), View(), id, p, uuid, now, r.value)
      ensures r.Err? ==> r.error == StorageError && notices == old(notices)
    {
      hide TableInv;
      var change := existing;
      if existing.status == Resolved {
        change := change.(status := Open);
      } else if existing.status != Escalated {
        change := change.(status := Updated);
      }
      change := change.(updatedAt := now);
      UpdateKeepsTable(repo.db, id, change) by { ReadIsDatedRow(repo.db, id); }
      var updated := repo.Update(id, change, f.update);
      if updated.Err? {
        return Err(updated.error);
      }
      EventKeepsTable(repo.db, EventOf(id, p, now));
      var appended := repo.AddEvent(EventOf(id, p, now), f.append);
      if !appended {
        return Err(StorageError);
      }
      return Ok(change);
    }

    /** The branch for an unknown key: incident and first event in one transaction. */
    method CreateIncident(p: Payload, uuid: string, now: int, f: AnomalyFaults) returns (r: Result<Incident, Error>)
      requires Valid() && !HasKey(repo.db, p.key)
      modifies this, repo
      ensures Valid() && (View(), r) == AfterFirst(old(View()), p, uuid, now, f)
      ensures r.Ok? <==> !f.beginFails && !f.createFails && uuid !in old(repo.db.incidents) && !f.eventFails && f.commit == Acknowledged
      ensures r.Ok? ==> StoredAnomaly(old(View()), View(), uuid, p, uuid, now, r.value)
      ensures r.Err? ==> r.error == StorageError && notices == old(notices)
    {
      hide TableInv, HasKey;
      var incident := NewIncident(p, now);
      if f.beginFails {
        return Err(StorageError);
      }
      var created := repo.CreateInTx(uuid, incident, f.createFails);
      if !created {
        repo.Rollback();
        return Err(StorageError);
      }
      var added := repo.AddEventInTx(EventOf(uuid, p, now), f.eventFails);
      if !added {
        repo.Rollback();
        return Err(StorageError);
      }
      InsertBothKeepsTable(repo.db, uuid, incident, EventOf(uuid, p, now));
      var committed := repo.Commit(f.commit);
      if !committed {
        return Err(StorageError);
      }
      notices := notices + [NoticeCreated(uuid)];
      return Ok(incident);
    }

    method Escalate(id: string, now: int, f: ChangeFaults) returns (r: Result<Incident, Error>)
      requires Valid()
      modifies this, repo
      ensures Valid() && (View(), r) == AfterEscalate(old(View()), id, now, f)
      ensures ChangeAnswer(old(View()), View(), id, f, r)
      ensures r.Ok? ==> ChangedRow(old(View()), View(), id, r.value)
                        && r.value == old(repo.db.incidents[id]).(status := Escalated, updatedAt := now)
      ensures notices == if r.Ok? then old(notices) + [NoticeEscalated(id)] else old(notices)
    {
      hide TableInv;
      var found := repo.FindByID(id, f.readFails);
      if found.Err? {
        return Err(found.error);
      }
      var incident := found.value;
      if incident.status == Resolved {
        return Err(InvalidStatusTransition);
      }
      incident := incident.(status := Escalated, updatedAt := now);
      UpdateKeepsTable(repo.db, id, incident);
      var updated := repo.Update(id, incident, f.update);
      if updated.Err? {
        return Err(updated.error);
      }
      notices := notices + [NoticeEscalated(id)];
      return Ok(incident);
    }

    method Resolve(id: string, resolution: string, now: int, f: ChangeFaults) returns (r: Result<Incident, Error>)
      requires Valid()
      modifies this, repo
      ensures Valid() && (View(), r) == AfterResolve(old(View()), id, resolution, now, f)
      ensures ChangeAnswer(old(View()), View(), id, f, r)
      ensures r.Ok? ==> ChangedRow(old(View()), View(), id, r.value)
                        && r.value == old(repo.db.incidents[id]).(status := Resolved, resolvedAt := Some(now),
                                                                  resolution := resolution, updatedAt := now)
      ensures notices == old(notices)
    {
      hide TableInv;
      var found := repo.FindByID(id, f.readFails);
      if found.Err? {
        return Err(found.error);
      }
      var incident := found.value;
      if incident.status == Resolved {
        return Err(InvalidStatusTransition);
      }
      incident := incident.(status := Resolved, resolvedAt := Some(now), resolution := resolution, updatedAt := now);
      UpdateKeepsTable(repo.db, id, incident);
      var updated := repo.Update(id, incident, f.update);
      if updated.Err? {
        return Err(updated.error);
      }
      assert notices + [] == notices;
      return Ok(incident);
    }

    method AddComment(id: string, text: string, now: int, f: CommentFaults) returns (r: Result<Comment, Error>)
      requires Valid()
      modifies this, repo
      ensures Valid() && (View(), r) == AfterComment(old(View()), id, text, now, f)
      ensures r.Ok? <==> !f.readFails && id in old(repo.db.incidents) && f.insert == Acknowledged
      ensures r == Err(IncidentNotFound) <==> !f.readFails && id !in old(repo.db.incidents)
      ensures r.Ok? ==> r.value == Comment(id, text, now) && repo.db.comments == old(repo.db.comments) + [r.value]
      ensures var refreshed := r.Ok? && !f.rereadFails && f.touch != NotApplied;
              repo.db.incidents == if refreshed then old(repo.db.incidents)[id := old(repo.db.incidents[id]).(updatedAt := now)]
                                   else old(repo.db.incidents)
      ensures repo.db.events == old(repo.db.events) && notices == old(notices)
    {
      hide TableInv;
      var found := repo.FindByID(id, f.readFails);
      if found.Err? {
        return Err(found.error);
      }
      CommentKeepsTable(repo.db, Comment(id, text, now));
      var stored := repo.AddComment(Comment(id, text, now), f.insert);
      if !stored {
        return Err(StorageError);
      }
      var again := repo.FindByID(id, f.rereadFails);
      if again.Ok? {
        var incident := again.value.(updatedAt := now);
        UpdateKeepsTable(repo.db, id, incident) by { ReadIsDatedRow(repo.db, id); }
        var _ := repo.Update(id, incident, f.touch);
      }
      return Ok(Comment(id, text, now));
    }

    method Delete(id: string, outcome: CallOutcome) returns (ok: bool)
      requires Valid()
      modifies this, repo
      ensures Valid() && View() == AfterDelete(old(View()), id, outcome) && ok == (outcome == Acknowledged)
      ensures repo.db == (if outcome == NotApplied then old(repo.db) else DeleteRow(old(repo.db), id)) && notices == old(notices)
    {
      hide TableInv, DeleteRow;
      DeleteKeepsTable(repo.db, id);
      ok := repo.Delete(id, outcome);
    }
  }

  /** What a change of status answers: which errors, exactly when, and that a refused change changes nothing. */
  ghost predicate ChangeAnswer(w: World, after: World, id: string, f: ChangeFaults, r: Result<Incident, Error>) {
    && (r == Err(IncidentNotFound) <==> !f.readFails && id !in w.db.incidents)
    && (r == Err(InvalidStatusTransition) <==> !f.readFails && id in w.db.incidents && w.db.incidents[id].status == Resolved)
    && (r.Ok? <==> !f.readFails && id in w.db.incidents && w.db.incidents[id].status != Resolved && f.update == Acknowledged)
    && (r.Err? && r.error != StorageError ==> after == w)
    && (r.Err? && f.update == NotApplied ==> after == w)
  }

  /** The incident now stands as answered, and nothing else in the tables changed. */
  ghost predicate ChangedRow(w: World, after: World, id: string, answer: Incident) {
    && id in w.db.incidents && after.db.incidents == w.db.incidents[id := answer]
    && after.db.events == w.db.events && after.db.comments == w.db.comments
  }

  /** A handled anomaly: its event is appended, dated as it says, and the answer is the row that now stands,
      a new one announced or a known one moved on. */
  ghost predicate StoredAnomaly(w: World, after: World, id: string, p: Payload, uuid: string, now: int, answer: Incident) {
    && after.db.incidents == w.db.incidents[id := answer] && after.db.comments == w.db.comments
    && after.db.events == w.db.events + [Event(id, p, if p.timestamp != 0 then p.timestamp else now, now)]
    && (HasKey(w.db, p.key) ==>
          && id in w.db.incidents && w.db.incidents[id].key == p.key && after.notices == w.notices
          && answer == w.db.incidents[id].(updatedAt := now, status := match w.db.incidents[id].status
                                                                       case Resolved => Open
                                                                       case Escalated => Escalated
                                                                       case _ => Updated))
    && (!HasKey(w.db, p.key) ==>
          && id == uuid && id !in w.db.incidents && after.notices == w.notices + [NoticeCreated(id)]
          && answer == Incident(p.key, p.severity, now, Open, now, None, ""))
  }

  lemma TableIsUnique(db: DB)
    requires TableInv(db)
    ensures UniqueKeys(db)
  {}

  lemma ReadIsDatedRow(db: DB, id: string)
    requires TableInv(db) && id in db.incidents
    ensures db.incidents[id].status == Resolved ==> db.incidents[id].resolvedAt.Some?
  {}
}
