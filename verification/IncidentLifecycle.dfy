/** The life of incidents over whole histories of operations, one after another and without faults: the tables
hold what the history says. */
module IncidentLifecycle {
  import opened Wrappers
  import opened IncidentStore
  import opened NotifierService
  import opened IncidentHistory

  const ANOMALY_OK: AnomalyFaults := AnomalyFaults(false, Acknowledged, Acknowledged, false, false, false, Acknowledged)
  const CHANGE_OK: ChangeFaults := ChangeFaults(false, Acknowledged)
  const COMMENT_OK: CommentFaults := CommentFaults(false, Acknowledged, false, Acknowledged)

  ghost function Do(w: World, op: Op): World {
    match op
    case Anomaly(p, uuid, now) => AfterAnomaly(w, p, uuid, now, ANOMALY_OK).0
    case Escalate(id, now) => AfterEscalate(w, id, now, CHANGE_OK).0
    case Resolve(id, text, now) => AfterResolve(w, id, text, now, CHANGE_OK).0
    case AddComment(id, text, now) => AfterComment(w, id, text, now, COMMENT_OK).0
  }

  ghost function Run(ops: seq<Op>): World {
    if ops == [] then World(EMPTY, []) else Do(Run(ops[..|ops|-1]), ops[|ops|-1])
  }

  // ----- what one operation does -----

  lemma DoKeepsTable(w: World, op: Op)
    requires TableInv(w.db)
    ensures TableInv(Do(w, op).db)
  {
    hide TableInv, UpdateRow, InsertEvent, InsertComment, InsertBoth, HasKey;
    match op {
      case Anomaly(p, uuid, now) =>
        var found := Lookup(w.db, p.key);
        if found.Some? {
          var change := Refreshed(w.db.incidents[found.value], now);
          ReadIsDatedRow(w.db, found.value);
          UpdateKeepsTable(w.db, found.value, change);
          EventKeepsTable(UpdateRow(w.db, found.value, change), EventOf(found.value, p, now));
        } else if uuid !in w.db.incidents {
          InsertBothKeepsTable(w.db, uuid, NewIncident(p, now), EventOf(uuid, p, now));
        }
      case Escalate(id, now) =>
        if id in w.db.incidents {
          UpdateKeepsTable(w.db, id, Raised(w.db.incidents[id], now));
        }
      case Resolve(id, text, now) =>
        if id in w.db.incidents {
          UpdateKeepsTable(w.db, id, Closed(w.db.incidents[id], text, now));
        }
      case AddComment(id, text, now) =>
        if id in w.db.incidents {
          var commented := InsertComment(w.db, Comment(id, text, now));
          CommentKeepsTable(w.db, Comment(id, text, now));
          assert commented.incidents == w.db.incidents by { CommentKeepsRows(w.db, Comment(id, text, now)); }
          ReadIsDatedRow(w.db, id);
          UpdateKeepsTable(commented, id, Touched(commented.incidents[id], now));
        }
    }
  }

  lemma CommentKeepsRows(db: DB, c: Comment)
    ensures InsertComment(db, c).incidents == db.incidents && InsertComment(db, c).events == db.events
  {}

  /** An anomaly of a known key concerns the incident of that key. */
  lemma AnomalyFindsItsIncident(w: World, op: Op, id: string)
    requires UniqueKeys(w.db) && id in w.db.incidents && op.Anomaly?
    ensures AnomalyOf(op, w.db.incidents[id].key) ==>
              Lookup(w.db, op.payload.key) == Some(id) && Do(w, op) == AfterRepeat(w, id, op.payload, op.now, ANOMALY_OK).0
    ensures !AnomalyOf(op, w.db.incidents[id].key) ==> Lookup(w.db, op.payload.key) != Some(id)
  {
    LookupFinds(w.db, id);
  }

  /** How an operation changes an incident that exists. */
  ghost predicate Moves(before: Incident, after: Incident, op: Op, id: string) {
    && IdentityOf(after) == IdentityOf(before)
    && after.status == NextStatus(before.status, op, id, before.key)
    && (after.resolvedAt.Some? <==> before.resolvedAt.Some? || ResolveOf(op, id))
    && after.updatedAt == (if TouchesRow(before, op, id) then op.now else before.updatedAt)
    && (if ResolveOf(op, id) && before.status != Resolved
        then after.resolvedAt == Some(op.now) && after.resolution == op.text
        else after.resolvedAt == before.resolvedAt && after.resolution == before.resolution)
  }

  predicate TouchesRow(incident: Incident, op: Op, id: string) {
    || AnomalyOf(op, incident.key)
    || (op.AddComment? && op.id == id)
    || (incident.status != Resolved && (EscalateOf(op, id) || ResolveOf(op, id)))
  }

  lemma EventKeepsRows(db: DB, e: Event)
    ensures InsertEvent(db, e).incidents == db.incidents
  {}

  lemma AnomalyMovesRow(w: World, op: Op, id: string)
    requires TableInv(w.db) && id in w.db.incidents && op.Anomaly?
    ensures id in Do(w, op).db.incidents && Moves(w.db.incidents[id], Do(w, op).db.incidents[id], op, id)
  {
    hide TableInv, HasKey, InsertEvent, EventOf;
    TableIsUnique(w.db);
    AnomalyFindsItsIncident(w, op, id);
    var found := Lookup(w.db, op.payload.key);
    if found.Some? {
      EventKeepsRows(UpdateRow(w.db, found.value, Refreshed(w.db.incidents[found.value], op.now)), EventOf(found.value, op.payload, op.now));
    } else {
      EventKeepsRows(WithIncident(w.db, op.uuid, NewIncident(op.payload, op.now)), EventOf(op.uuid, op.payload, op.now));
    }
  }

  lemma ChangeMovesRow(w: World, op: Op, id: string)
    requires TableInv(w.db) && id in w.db.incidents && (op.Escalate? || op.Resolve?)
    ensures id in Do(w, op).db.incidents && Moves(w.db.incidents[id], Do(w, op).db.incidents[id], op, id)
  {
    hide TableInv;
    ReadIsDatedRow(w.db, id);
  }

  lemma CommentMovesRow(w: World, op: Op, id: string)
    requires id in w.db.incidents && op.AddComment?
    ensures id in Do(w, op).db.incidents && Moves(w.db.incidents[id], Do(w, op).db.incidents[id], op, id)
    ensures Do(w, op).db.events == w.db.events && Do(w, op).notices == w.notices
  {
    hide InsertComment;
    CommentKeepsRows(w.db, Comment(op.id, op.text, op.now));
  }

  lemma OperationMovesRow(w: World, op: Op, id: string)
    requires TableInv(w.db) && id in w.db.incidents
    ensures id in Do(w, op).db.incidents && Moves(w.db.incidents[id], Do(w, op).db.incidents[id], op, id)
  {
    hide TableInv, Do, Moves;
    if op.Anomaly? {
      AnomalyMovesRow(w, op, id);
    } else if op.AddComment? {
      CommentMovesRow(w, op, id);
    } else {
      ChangeMovesRow(w, op, id);
    }
  }

  lemma AnomalyAddsEvent(w: World, op: Op, id: string)
    requires TableInv(w.db) && id in w.db.incidents && op.Anomaly?
    ensures var key := w.db.incidents[id].key;
            EventsOf(Do(w, op).db.events, id)
            == EventsOf(w.db.events, id) + (if AnomalyOf(op, key) then [EventOf(id, op.payload, op.now)] else [])
    ensures multiset(Do(w, op).notices)[NoticeCreated(id)] == multiset(w.notices)[NoticeCreated(id)]
  {
    hide TableInv, HasKey, EventsOf, EventOf, Refreshed, NewIncident;
    TableIsUnique(w.db);
    AnomalyFindsItsIncident(w, op, id);
    var found := Lookup(w.db, op.payload.key);
    var event := EventOf(if found.Some? then found.value else op.uuid, op.payload, op.now);
    EventsOfAppend(w.db.events, event, id);
    assert event.incidentID == if found.Some? then found.value else op.uuid by { EventNamesIncident(op); }
    assert EventOf(id, op.payload, op.now).incidentID == id by { EventNamesIncident(op); }
  }

  lemma EventNamesIncident(op: Op)
    requires op.Anomaly?
    ensures forall id :: EventOf(id, op.payload, op.now).incidentID == id
  {}

  /** An incident gains an event for every anomaly of its key, and no notice of creation. */
  lemma OperationAddsEvents(w: World, op: Op, id: string)
    requires TableInv(w.db) && id in w.db.incidents
    ensures var key := w.db.incidents[id].key;
            EventsOf(Do(w, op).db.events, id)
            == EventsOf(w.db.events, id) + (if AnomalyOf(op, key) then [EventOf(id, op.payload, op.now)] else [])
    ensures multiset(Do(w, op).notices)[NoticeCreated(id)] == multiset(w.notices)[NoticeCreated(id)]
  {
    hide EventsOf, EventOf;
    if op.Anomaly? {
      AnomalyAddsEvent(w, op, id);
    } else {
      hide TableInv, UpdateRow;
      ChangeKeepsEvents(w, op);
    }
  }

  lemma ChangeKeepsEvents(w: World, op: Op)
    requires !op.Anomaly?
    ensures Do(w, op).db.events == w.db.events
    ensures Do(w, op).notices == w.notices || exists id :: Do(w, op).notices == w.notices + [NoticeEscalated(id)]
  {
    assert w.notices + [] == w.notices;
  }

  /** Only an escalation that finds its incident unresolved announces that it was escalated. */
  lemma OperationAnnounces(w: World, op: Op, id: string)
    ensures multiset(Do(w, op).notices)[NoticeEscalated(id)] == multiset(w.notices)[NoticeEscalated(id)]
            + (if EscalateOf(op, id) && id in w.db.incidents && w.db.incidents[id].status != Resolved then 1 else 0)
  {
    hide HasKey, InsertBoth, InsertEvent, UpdateRow;
    assert w.notices + [] == w.notices;
  }

  /** An incident gains a comment for every comment made on it. */
  lemma OperationAddsComments(w: World, op: Op, id: string)
    requires TableInv(w.db) && id in w.db.incidents
    ensures CommentsOf(Do(w, op).db.comments, id)
            == CommentsOf(w.db.comments, id) + (if op.AddComment? && op.id == id then [Comment(id, op.text, op.now)] else [])
  {
    hide TableInv, HasKey, CommentsOf;
    assert CommentsOf(w.db.comments, id) + [] == CommentsOf(w.db.comments, id);
    if op.AddComment? {
      CommentsOfAppend(w.db.comments, Comment(op.id, op.text, op.now), id);
    }
  }

  /** An incident that was not there before comes from an anomaly that is the first of its key. */
  lemma NewIncidentIsFirst(w: World, op: Op, id: string)
    requires TableInv(w.db) && id !in w.db.incidents && id in Do(w, op).db.incidents
    ensures op.Anomaly? && op.uuid == id && !HasKey(w.db, op.payload.key)
    ensures Do(w, op).db.incidents[id] == NewIncident(op.payload, op.now)
    ensures Do(w, op).db.events == w.db.events + [EventOf(id, op.payload, op.now)]
    ensures Do(w, op).notices == w.notices + [NoticeCreated(id)] && Do(w, op).db.comments == w.db.comments
  {
    hide TableInv, HasKey;
  }

  // ----- whole histories -----

  /** What the tables hold about one incident is what the history says. */
  ghost predicate Tells(ops: seq<Op>, w: World, id: string)
    requires id in w.db.incidents
  {
    var incident := w.db.incidents[id];
    && BornAs(ops, id, incident)
    && incident.status == StatusBy(ops, id, incident.key)
    && (incident.resolvedAt.Some? <==> EverResolved(ops, id, incident.key))
    && UpdatedBy(ops, id, incident.key, incident.updatedAt)
    && ClosedBy(ops, id, incident.key, incident.resolvedAt, incident.resolution)
    && EventsFrom(EventsOf(w.db.events, id), AnomaliesOf(ops, incident.key), id)
    && CommentsFrom(CommentsOf(w.db.comments, id), RemarksOf(ops, id, incident.key), id)
    && multiset(w.notices)[NoticeCreated(id)] == 1
    && multiset(w.notices)[NoticeEscalated(id)] == Escalations(ops, id, incident.key)
  }

  ghost predicate Told(ops: seq<Op>, w: World) {
    && TableInv(w.db)
    && (forall id :: id in w.db.incidents ==> Tells(ops, w, id))
    && (forall key :: Seen(ops, key) ==> HasKey(w.db, key))
    && (forall id :: NoticeCreated(id) in w.notices || NoticeEscalated(id) in w.notices ==> id in w.db.incidents)
  }

  lemma BornIsSeen(ops: seq<Op>, id: string, incident: Incident)
    requires BornAs(ops, id, incident)
    ensures Seen(ops, incident.key) && exists b: nat :: b < |ops| && ops[b].Anomaly? && ops[b].uuid == id
  {}

  /** The row's own status tells whether an operation touches or closes the incident. */
  lemma TouchesAgree(ops: seq<Op>, incident: Incident, op: Op, id: string)
    requires Seen(ops, incident.key) && incident.status == StatusBy(ops, id, incident.key)
    ensures Touches(ops, op, id, incident.key) <==> TouchesRow(incident, op, id)
    ensures Closes(ops, op, id, incident.key) <==> ResolveOf(op, id) && incident.status != Resolved
  {
    hide Seen, ResolvedBy, EscalatedBy, OpenedBy;
  }

  lemma TimesTell(ops: seq<Op>, before: Incident, after: Incident, op: Op, id: string)
    requires Seen(ops, before.key) && before.status == StatusBy(ops, id, before.key) && Moves(before, after, op, id)
    requires before.status == Resolved ==> before.resolvedAt.Some?
    requires before.resolvedAt.Some? <==> EverResolved(ops, id, before.key)
    requires UpdatedBy(ops, id, before.key, before.updatedAt)
    requires ClosedBy(ops, id, before.key, before.resolvedAt, before.resolution)
    ensures UpdatedBy(ops + [op], id, after.key, after.updatedAt)
    ensures ClosedBy(ops + [op], id, after.key, after.resolvedAt, after.resolution)
  {
    hide Seen, EscalatedBy, OpenedBy, EverResolved, UpdatedBy, ClosedBy, Touches, Closes, TouchesRow;
    TouchesAgree(ops, before, op, id);
    UpdatedNext(ops, op, id, before.key, after.updatedAt);
    hide ResolvedBy;
    ClosedNext(ops, op, id, before.key, before.resolvedAt, before.resolution);
  }

  lemma OldIncidentTells(ops: seq<Op>, w: World, op: Op, id: string)
    requires TableInv(w.db) && id in w.db.incidents && Tells(ops, w, id)
    ensures id in Do(w, op).db.incidents && Tells(ops + [op], Do(w, op), id)
  {
    hide TableInv, Do, StatusBy, EverResolved, AnomaliesOf, EventsOf, EventsFrom, BornAs, Seen, EventOf;
    hide UpdatedBy, ClosedBy, RemarksOf, CommentsOf, CommentsFrom, Escalations, Raises, TouchesRow, NextStatus;
    var before := w.db.incidents[id];
    BornIsSeen(ops, id, before);
    OperationMovesRow(w, op, id);
    OperationAddsEvents(w, op, id);
    OperationAddsComments(w, op, id);
    StatusNext(ops, op, id, before.key);
    EverResolvedNext(ops, op, id, before.key);
    ReadIsDatedRow(w.db, id);
    TimesTell(ops, before, Do(w, op).db.incidents[id], op, id);
    BornNext(ops, op, id, before);
    EventsTell(ops, EventsOf(w.db.events, id), op, id, before.key);
    CommentsTell(ops, CommentsOf(w.db.comments, id), op, id, before.key);
    OperationAnnounces(w, op, id);
    RaisesAgree(ops, before, op, id);
    EscalationsNext(ops, op, id, before.key);
  }

  lemma EventsTell(ops: seq<Op>, events: seq<Event>, op: Op, id: string, key: Key)
    requires EventsFrom(events, AnomaliesOf(ops, key), id)
    ensures EventsFrom(events + (if AnomalyOf(op, key) then [EventOf(id, op.payload, op.now)] else []), AnomaliesOf(ops + [op], key), id)
  {
    hide AnomaliesOf;
    AnomaliesNext(ops, op, key);
    assert events + [] == events;
  }

  lemma CommentsTell(ops: seq<Op>, comments: seq<Comment>, op: Op, id: string, key: Key)
    requires CommentsFrom(comments, RemarksOf(ops, id, key), id) && Seen(ops, key)
    ensures CommentsFrom(comments + (if op.AddComment? && op.id == id then [Comment(id, op.text, op.now)] else []),
                         RemarksOf(ops + [op], id, key), id)
  {
    hide RemarksOf, Seen;
    RemarksNext(ops, op, id, key);
    assert comments + [] == comments;
  }

  lemma RaisesAgree(ops: seq<Op>, incident: Incident, op: Op, id: string)
    requires Seen(ops, incident.key) && incident.status == StatusBy(ops, id, incident.key)
    ensures Raises(ops, op, id, incident.key) <==> EscalateOf(op, id) && incident.status != Resolved
  {
    hide Seen, ResolvedBy, EscalatedBy, OpenedBy;
  }

  lemma NewIncidentTells(ops: seq<Op>, w: World, op: Op, id: string)
    requires Told(ops, w) && id !in w.db.incidents && id in Do(w, op).db.incidents
    ensures Tells(ops + [op], Do(w, op), id)
  {
    hide TableInv, Do, StatusBy, EverResolved, Seen, HasKey, Tells, UpdatedBy, EventOf;
    hide AnomaliesOf, RemarksOf, EventsOf, CommentsOf, Escalations, Raises, EventsFrom, CommentsFrom;
    NewIncidentIsFirst(w, op, id);
    var key := op.payload.key;
    StatusAtBirth(ops, op, id, key);
    NothingCounted(ops, id, key);
    NoRecords(w.db, id);
    EventsOfAppend(w.db.events, EventOf(id, op.payload, op.now), id);
    EventNamesIncident(op);
    EventsTell(ops, [], op, id, key) by { NothingRecorded(id); }
    RemarksNext(ops, op, id, key);
    EscalationsNext(ops, op, id, key);
    NothingRaised(ops, op, id, key);
    NothingRecorded(id);
    IsFirstBirth(ops, op);
    assert BornAs(ops + [op], id, NewIncident(op.payload, op.now));
    UpdatedNext(ops, op, id, key, op.now);
    TellsAll(ops + [op], Do(w, op), id);
  }

  lemma NothingRecorded(id: string)
    ensures EventsFrom([], [], id) && CommentsFrom([], [], id)
  {}

  lemma NothingRaised(ops: seq<Op>, op: Op, id: string, key: Key)
    requires !Seen(ops, key)
    ensures !Raises(ops, op, id, key)
  {}

  lemma NoRecords(db: DB, id: string)
    requires TableInv(db) && id !in db.incidents
    ensures EventsOf(db.events, id) == [] && CommentsOf(db.comments, id) == []
  {
    EventsHaveRows(db);
    hide TableInv;
    NoEvents(db.events, id);
    NoComments(db.comments, id);
  }

  lemma EventsHaveRows(db: DB)
    requires TableInv(db)
    ensures forall e :: e in db.events ==> e.incidentID in db.incidents
    ensures forall c :: c in db.comments ==> c.incidentID in db.incidents
  {}

  lemma IsFirstBirth(ops: seq<Op>, op: Op)
    requires op.Anomaly? && !Seen(ops, op.payload.key)
    ensures IsBirth(ops + [op], |ops|, op.payload.key) && (ops + [op])[|ops|] == op
  {
    forall j | 0 <= j < |ops| ensures !AnomalyOf((ops + [op])[j], op.payload.key) {
      assert (ops + [op])[j] == ops[j];
    }
  }

  lemma TellsAll(ops: seq<Op>, w: World, id: string)
    requires id in w.db.incidents
    requires var incident := w.db.incidents[id];
             && BornAs(ops, id, incident)
             && incident.status == StatusBy(ops, id, incident.key)
             && (incident.resolvedAt.Some? <==> EverResolved(ops, id, incident.key))
             && UpdatedBy(ops, id, incident.key, incident.updatedAt)
             && ClosedBy(ops, id, incident.key, incident.resolvedAt, incident.resolution)
             && EventsFrom(EventsOf(w.db.events, id), AnomaliesOf(ops, incident.key), id)
             && CommentsFrom(CommentsOf(w.db.comments, id), RemarksOf(ops, id, incident.key), id)
             && multiset(w.notices)[NoticeCreated(id)] == 1
             && multiset(w.notices)[NoticeEscalated(id)] == Escalations(ops, id, incident.key)
    ensures Tells(ops, w, id)
  {}

  /** Every key that had an anomaly has an incident. */
  lemma SeenKeysHaveIncidents(ops: seq<Op>, w: World, op: Op, key: Key)
    requires Told(ops, w) && FreshIds(ops + [op]) && Seen(ops + [op], key)
    ensures HasKey(Do(w, op).db, key)
  {
    hide TableInv, Do, Seen, Tells;
    SeenNext(ops, op, key);
    if Seen(ops, key) {
      var id :| id in w.db.incidents && w.db.incidents[id].key == key;
      OperationMovesRow(w, op, id);
      assert Do(w, op).db.incidents[id].key == key;
    } else {
      FreshIdUnused(ops, w, op);
      FirstAnomalyInserts(w, op) by { UnseenHasNoIncident(ops, w, key); }
    }
  }

  lemma UnseenHasNoIncident(ops: seq<Op>, w: World, key: Key)
    requires Told(ops, w) && !Seen(ops, key)
    ensures !HasKey(w.db, key)
  {
    hide TableInv, Seen;
    forall id | id in w.db.incidents ensures w.db.incidents[id].key != key {
      BornIsSeen(ops, id, w.db.incidents[id]);
    }
  }

  lemma FreshIdUnused(ops: seq<Op>, w: World, op: Op)
    requires Told(ops, w) && FreshIds(ops + [op]) && op.Anomaly?
    ensures op.uuid !in w.db.incidents
  {
    hide TableInv, Seen;
    forall id | id in w.db.incidents ensures id != op.uuid {
      BornIsSeen(ops, id, w.db.incidents[id]);
      var b: nat :| b < |ops| && ops[b].Anomaly? && ops[b].uuid == id;
      assert (ops + [op])[b] == ops[b] && (ops + [op])[|ops|] == op;
    }
  }

  lemma FirstAnomalyInserts(w: World, op: Op)
    requires op.Anomaly? && op.uuid !in w.db.incidents && !HasKey(w.db, op.payload.key)
    ensures HasKey(Do(w, op).db, op.payload.key)
  {
    var t := Do(w, op);
    assert op.uuid in t.db.incidents && t.db.incidents[op.uuid].key == op.payload.key;
  }

  lemma NoticesHaveIncidents(ops: seq<Op>, w: World, op: Op)
    requires Told(ops, w)
    ensures var t := Do(w, op);
            forall id :: NoticeCreated(id) in t.notices || NoticeEscalated(id) in t.notices ==> id in t.db.incidents
  {
    hide TableInv, HasKey, Tells, Seen, EventOf;
    var t := Do(w, op);
    forall id | NoticeCreated(id) in t.notices || NoticeEscalated(id) in t.notices ensures id in t.db.incidents {
      if id in w.db.incidents {
        OperationMovesRow(w, op, id);
      }
    }
  }

  lemma OperationTold(ops: seq<Op>, w: World, op: Op)
    requires Told(ops, w) && FreshIds(ops + [op])
    ensures Told(ops + [op], Do(w, op))
  {
    hide TableInv, Do, Tells, Seen, HasKey;
    var t := Do(w, op);
    DoKeepsTable(w, op);
    forall id | id in t.db.incidents ensures Tells(ops + [op], t, id) {
      if id in w.db.incidents {
        OldIncidentTells(ops, w, op, id);
      } else {
        NewIncidentTells(ops, w, op, id);
      }
    }
    forall key | Seen(ops + [op], key) ensures HasKey(t.db, key) {
      SeenKeysHaveIncidents(ops, w, op, key);
    }
    NoticesHaveIncidents(ops, w, op);
  }

  /** After any history, the tables and notices are the ones the history tells. */
  lemma {:induction false} HistoryTold(ops: seq<Op>)
    requires FreshIds(ops)
    ensures Told(ops, Run(ops))
  {
    hide Told, Do;
    if ops == [] {
      EmptyTold();
    } else {
      var before, op := ops[..|ops|-1], ops[|ops|-1];
      assert ops == before + [op];
      HistoryTold(before);
      OperationTold(before, Run(before), op);
    }
  }

  lemma EmptyTold()
    ensures Told([], World(EMPTY, []))
  {}

  // ----- what operators are promised -----

  lemma BirthIsUnique(ops: seq<Op>, b: nat, id: string, incident: Incident)
    requires IsBirth(ops, b, incident.key) && BornAs(ops, id, incident)
    ensures ops[b].uuid == id && IdentityOf(incident) == Identity(incident.key, ops[b].payload.severity, ops[b].now)
  {
    var b': nat :| IsBirth(ops, b', incident.key) && ops[b'].uuid == id
                   && IdentityOf(incident) == Identity(incident.key, ops[b'].payload.severity, ops[b'].now);
    assert b' == b;
  }

  /** The first anomaly of a key gives the incident its id, severity and creation time; it holds every
      anomaly of the key and every comment in order of arrival; its status, times and resolution are what
      the history says; its creation is announced once, and every escalation that found it unresolved is. */
  lemma IncidentOfKey(ops: seq<Op>, b: nat, key: Key)
    requires FreshIds(ops) && IsBirth(ops, b, key)
    ensures var w, id := Run(ops), ops[b].uuid;
            && id in w.db.incidents
            && IdentityOf(w.db.incidents[id]) == Identity(key, ops[b].payload.severity, ops[b].now)
            && w.db.incidents[id].status == StatusBy(ops, id, key)
            && (w.db.incidents[id].resolvedAt.Some? <==> EverResolved(ops, id, key))
            && UpdatedBy(ops, id, key, w.db.incidents[id].updatedAt)
            && ClosedBy(ops, id, key, w.db.incidents[id].resolvedAt, w.db.incidents[id].resolution)
            && EventsFrom(EventsOf(w.db.events, id), AnomaliesOf(ops, key), id)
            && CommentsFrom(CommentsOf(w.db.comments, id), RemarksOf(ops, id, key), id)
            && multiset(w.notices)[NoticeCreated(id)] == 1
            && multiset(w.notices)[NoticeEscalated(id)] == Escalations(ops, id, key)
            && (forall other :: other in w.db.incidents && w.db.incidents[other].key == key ==> other == id)
  {
    hide TableInv, Run, StatusBy, EverResolved, BornAs, UpdatedBy, ClosedBy, EventsFrom, CommentsFrom, Escalations;
    HistoryTold(ops);
    var w := Run(ops);
    assert Seen(ops, key);
    var id :| id in w.db.incidents && w.db.incidents[id].key == key;
    assert Tells(ops, w, id);
    BirthIsUnique(ops, b, id, w.db.incidents[id]);
    assert UniqueKeys(w.db) by { TableIsUnique(w.db); }
  }

  /** Incidents exist for exactly the keys that had an anomaly, one for each. */
  lemma IncidentsAreKeys(ops: seq<Op>)
    requires FreshIds(ops)
    ensures UniqueKeys(Run(ops).db)
    ensures forall key :: HasKey(Run(ops).db, key) <==> Seen(ops, key)
  {
    hide TableInv, Run, Seen, HasKey;
    HistoryTold(ops);
    TableIsUnique(Run(ops).db);
    forall key ensures HasKey(Run(ops).db, key) <==> Seen(ops, key) {
      if !Seen(ops, key) {
        UnseenHasNoIncident(ops, Run(ops), key);
      }
    }
  }

  ghost predicate Delivered(ops: seq<Op>, p: Payload) {
    exists a :: 0 <= a < |ops| && ops[a].Anomaly? && ops[a].payload == p
  }

  lemma DeliveredIsSeen(ops: seq<Op>, key: Key)
    ensures Seen(ops, key) <==> exists p :: Delivered(ops, p) && p.key == key
  {
    if Seen(ops, key) {
      var a :| 0 <= a < |ops| && AnomalyOf(ops[a], key);
      assert Delivered(ops, ops[a].payload);
    }
    if exists p :: Delivered(ops, p) && p.key == key {
      var p :| Delivered(ops, p) && p.key == key;
      var a :| 0 <= a < |ops| && ops[a].Anomaly? && ops[a].payload == p;
      assert AnomalyOf(ops[a], key);
    }
  }

  /** Repeated or reordered deliveries, with any other operations in between, leave incidents for the same
      keys. */
  lemma RedeliveryKeepsKeys(ops: seq<Op>, ops': seq<Op>)
    requires FreshIds(ops) && FreshIds(ops')
    requires forall p :: Delivered(ops, p) <==> Delivered(ops', p)
    ensures forall key :: HasKey(Run(ops).db, key) <==> HasKey(Run(ops').db, key)
  {
    hide Run, HasKey, Seen, Delivered;
    IncidentsAreKeys(ops);
    IncidentsAreKeys(ops');
    forall key ensures HasKey(Run(ops).db, key) <==> HasKey(Run(ops').db, key) {
      DeliveredIsSeen(ops, key);
      DeliveredIsSeen(ops', key);
    }
  }

  /** However often it is resolved and reopened, the incident of a key keeps its id. */
  lemma IdIsStable(ops: seq<Op>, more: seq<Op>, id: string)
    requires FreshIds(ops + more) && id in Run(ops).db.incidents
    ensures id in Run(ops + more).db.incidents
    ensures IdentityOf(Run(ops + more).db.incidents[id]) == IdentityOf(Run(ops).db.incidents[id])
  {
    hide TableInv, Run, BornAs, StatusBy, EverResolved, UpdatedBy, ClosedBy, EventsFrom, CommentsFrom, Escalations;
    assert FreshIds(ops) by {
      assert forall i :: 0 <= i < |ops| ==> (ops + more)[i] == ops[i];
    }
    HistoryTold(ops);
    var incident := Run(ops).db.incidents[id];
    assert Tells(ops, Run(ops), id);
    var b := BirthStays(ops, more, id, incident);
    IncidentOfKey(ops + more, b, incident.key);
  }

  lemma BirthStays(ops: seq<Op>, more: seq<Op>, id: string, incident: Incident) returns (b: nat)
    requires BornAs(ops, id, incident)
    ensures IsBirth(ops + more, b, incident.key) && (ops + more)[b].uuid == id
    ensures var op := (ops + more)[b]; IdentityOf(incident) == Identity(incident.key, op.payload.severity, op.now)
  {
    b :| IsBirth(ops, b, incident.key) && ops[b].uuid == id
         && IdentityOf(incident) == Identity(incident.key, ops[b].payload.severity, ops[b].now);
    assert forall i :: 0 <= i < |ops| ==> (ops + more)[i] == ops[i];
  }

  lemma RunNext(ops: seq<Op>, op: Op)
    ensures Run(ops + [op]) == Do(Run(ops), op)
  {
    assert (ops + [op])[..|ops|] == ops;
  }

  /** An escalated incident stays escalated through anomalies, comments and further escalations until it is
      resolved. */
  lemma {:induction false} EscalatedUntilResolved(ops: seq<Op>, more: seq<Op>, id: string)
    requires FreshIds(ops + more) && id in Run(ops).db.incidents && Run(ops).db.incidents[id].status == Escalated
    requires forall k :: 0 <= k < |more| ==> !ResolveOf(more[k], id)
    ensures id in Run(ops + more).db.incidents && Run(ops + more).db.incidents[id].status == Escalated
  {
    hide TableInv, Run, Do, Told;
    if more == [] {
      assert ops + more == ops;
    } else {
      var before, op := more[..|more|-1], more[|more|-1];
      assert ops + more == (ops + before) + [op];
      assert FreshIds(ops + before) by {
        assert forall i :: 0 <= i < |ops + before| ==> (ops + before)[i] == (ops + more)[i];
      }
      EscalatedUntilResolved(ops, before, id);
      HistoryTold(ops + before);
      RunNext(ops + before, op);
      OperationMovesRow(Run(ops + before), op, id) by { ToldTable(ops + before, Run(ops + before)); }
    }
  }

  lemma ToldTable(ops: seq<Op>, w: World)
    requires Told(ops, w)
    ensures TableInv(w.db)
  {}

  /** A resolved incident has a resolution time, but not the other way round: an anomaly after a resolution
      reopens the incident and leaves its resolution time recorded. */
  lemma ReopenedStaysDated(ops: seq<Op>, id: string, text: string, p: Payload, uuid: string, now: int)
    requires FreshIds(ops) && id in Run(ops).db.incidents && p.key == Run(ops).db.incidents[id].key
    ensures var w := Run(ops + [Resolve(id, text, now)] + [Anomaly(p, uuid, now)]);
            id in w.db.incidents && w.db.incidents[id].status == Open && w.db.incidents[id].resolvedAt.Some?
  {
    hide TableInv, Run, Do, Told;
    HistoryTold(ops);
    ToldTable(ops, Run(ops));
    var resolved := Do(Run(ops), Resolve(id, text, now));
    OperationMovesRow(Run(ops), Resolve(id, text, now), id);
    DoKeepsTable(Run(ops), Resolve(id, text, now));
    OperationMovesRow(resolved, Anomaly(p, uuid, now), id);
    RunNext(ops, Resolve(id, text, now));
    RunNext(ops + [Resolve(id, text, now)], Anomaly(p, uuid, now));
  }
}
