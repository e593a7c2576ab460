/** The notifier's tables and the statements that read and change them.

The incidents table is keyed by id and has a unique constraint over rule, service and metric; events and
comments reference an incident and go when it is deleted. */
module IncidentStore {
  import opened Wrappers

  datatype Status = Open | Updated | Escalated | Resolved

  /** The deduplication key. */
  datatype Key = Key(rule: string, service: string, metric: string)

  datatype Payload = Payload(key: Key, severity: string, value: real, message: string, timestamp: int)

  datatype Incident = Incident(key: Key, severity: string, createdAt: int, status: Status, updatedAt: int,
                               resolvedAt: Option<int>, resolution: string)

  datatype Event = Event(incidentID: string, payload: Payload, timestamp: int, createdAt: int)

  datatype Comment = Comment(incidentID: string, text: string, createdAt: int)

  datatype Notice = NoticeCreated(id: string) | NoticeEscalated(id: string)

  datatype DB = DB(incidents: map<string, Incident>, events: seq<Event>, comments: seq<Comment>)

  const EMPTY: DB := DB(map[], [], [])

  /** The fields no statement ever changes. */
  datatype Identity = Identity(key: Key, severity: string, createdAt: int)

  function IdentityOf(incident: Incident): Identity {
    Identity(incident.key, incident.severity, incident.createdAt)
  }

  // ----- reading -----

  ghost predicate HasKey(db: DB, key: Key) {
    exists id :: id in db.incidents && db.incidents[id].key == key
  }

  /** SELECT ... WHERE rule, service and metric match LIMIT 1. */
  ghost function Lookup(db: DB, key: Key): (found: Option<string>)
    ensures found.Some? ==> found.value in db.incidents && db.incidents[found.value].key == key
    ensures found.None? ==> !HasKey(db, key)
  {
    if HasKey(db, key) then
      var id :| id in db.incidents && db.incidents[id].key == key;
      Some(id)
    else None
  }

  /** The unique constraint. */
  ghost predicate UniqueKeys(db: DB) {
    forall a, b :: a in db.incidents && b in db.incidents && a != b ==> db.incidents[a].key != db.incidents[b].key
  }

  /** The events of one incident, oldest first. */
  function EventsOf(events: seq<Event>, id: string): seq<Event> {
    if events == [] then []
    else
      var e := events[|events|-1];
      EventsOf(events[..|events|-1], id) + (if e.incidentID == id then [e] else [])
  }

  lemma EventsOfAppend(events: seq<Event>, e: Event, id: string)
    ensures EventsOf(events + [e], id) == EventsOf(events, id) + (if e.incidentID == id then [e] else [])
  {
    assert (events + [e])[..|events|] == events;
  }

  /** The comments on one incident, oldest first. */
  function CommentsOf(comments: seq<Comment>, id: string): seq<Comment> {
    if comments == [] then []
    else
      var c := comments[|comments|-1];
      CommentsOf(comments[..|comments|-1], id) + (if c.incidentID == id then [c] else [])
  }

  lemma CommentsOfAppend(comments: seq<Comment>, c: Comment, id: string)
    ensures CommentsOf(comments + [c], id) == CommentsOf(comments, id) + (if c.incidentID == id then [c] else [])
  {
    assert (comments + [c])[..|comments|] == comments;
  }

  // ----- writing -----

  function WithIncident(db: DB, id: string, incident: Incident): DB {
    db.(incidents := db.incidents[id := incident])
  }

  /** UPDATE incidents SET status, updated_at, resolved_at, resolution WHERE id: the other columns stay. */
  function UpdateRow(db: DB, id: string, change: Incident): DB {
    if id in db.incidents then
      WithIncident(db, id, db.incidents[id].(status := change.status, updatedAt := change.updatedAt,
                                             resolvedAt := change.resolvedAt, resolution := change.resolution))
    else db
  }

  /** INSERT of an event; the reference must exist. */
  function InsertEvent(db: DB, e: Event): DB {
    if e.incidentID in db.incidents then db.(events := db.events + [e]) else db
  }

  function InsertComment(db: DB, c: Comment): DB {
    if c.incidentID in db.incidents then db.(comments := db.comments + [c]) else db
  }

  /** What a transaction that inserts an incident and its first event leaves behind once committed. */
  function InsertBoth(db: DB, id: string, incident: Incident, e: Event): DB {
    InsertEvent(WithIncident(db, id, incident), e)
  }

  function EventsWithout(events: seq<Event>, id: string): seq<Event> {
    if events == [] then []
    else
      var e := events[|events|-1];
      EventsWithout(events[..|events|-1], id) + (if e.incidentID == id then [] else [e])
  }

  function CommentsWithout(comments: seq<Comment>, id: string): seq<Comment> {
    if comments == [] then []
    else
      var c := comments[|comments|-1];
      CommentsWithout(comments[..|comments|-1], id) + (if c.incidentID == id then [] else [c])
  }

  /** DELETE of an incident, cascading to its events and comments. */
  function DeleteRow(db: DB, id: string): DB {
    if id in db.incidents
    then DB(db.incidents - {id}, EventsWithout(db.events, id), CommentsWithout(db.comments, id))
    else db
  }

  lemma {:induction false} EventsWithoutMembers(events: seq<Event>, id: string, e: Event)
    ensures e in EventsWithout(events, id) <==> e in events && e.incidentID != id
  {
    if events != [] {
      EventsWithoutMembers(events[..|events|-1], id, e);
      assert events == events[..|events|-1] + [events[|events|-1]];
    }
  }

  lemma {:induction false} CommentsWithoutMembers(comments: seq<Comment>, id: string, c: Comment)
    ensures c in CommentsWithout(comments, id) <==> c in comments && c.incidentID != id
  {
    if comments != [] {
      CommentsWithoutMembers(comments[..|comments|-1], id, c);
      assert comments == comments[..|comments|-1] + [comments[|comments|-1]];
    }
  }

  // ----- what operations write -----

  /** A zero timestamp means the event is dated now. */
  function EventOf(id: string, p: Payload, now: int): Event {
    Event(id, p, if p.timestamp == 0 then now else p.timestamp, now)
  }

  function NewIncident(p: Payload, now: int): Incident {
    Incident(p.key, p.severity, now, Open, now, None, "")
  }

  /** The status an operation leaves behind, from the status it read. */
  function StatusAfterAnomaly(seen: Status): Status {
    if seen == Resolved then Open else if seen == Escalated then Escalated else Updated
  }

  /** A resolved incident is reopened, an escalated one stays escalated; its resolution stays recorded. */
  function Refreshed(incident: Incident, now: int): Incident {
    incident.(status := StatusAfterAnomaly(incident.status), updatedAt := now)
  }

  function Raised(incident: Incident, now: int): Incident {
    incident.(status := Escalated, updatedAt := now)
  }

  function Closed(incident: Incident, text: string, now: int): Incident {
    incident.(status := Resolved, resolvedAt := Some(now), resolution := text, updatedAt := now)
  }

  function Touched(incident: Incident, now: int): Incident {
    incident.(updatedAt := now)
  }

  // ----- the table invariant -----

  ghost predicate HasEvent(events: seq<Event>, id: string) {
    exists k :: 0 <= k < |events| && events[k].incidentID == id
  }

  ghost predicate TableInv(db: DB) {
    && UniqueKeys(db)
    && (forall id :: id in db.incidents ==> HasEvent(db.events, id))
    && (forall id :: id in db.incidents && db.incidents[id].status == Resolved ==> db.incidents[id].resolvedAt.Some?)
    && (forall e :: e in db.events ==> e.incidentID in db.incidents)
    && (forall c :: c in db.comments ==> c.incidentID in db.incidents)
  }

  lemma UpdateKeepsTable(db: DB, id: string, change: Incident)
    requires TableInv(db) && (change.status == Resolved ==> change.resolvedAt.Some?)
    ensures TableInv(UpdateRow(db, id, change))
  {
    hide HasEvent;
  }

  lemma EventKeepsTable(db: DB, e: Event)
    requires TableInv(db)
    ensures TableInv(InsertEvent(db, e))
  {
    if e.incidentID in db.incidents {
      forall id | id in db.incidents ensures HasEvent(db.events + [e], id) {
        HasEventGrows(db.events, e, id);
      }
    }
  }

  lemma HasEventGrows(events: seq<Event>, e: Event, id: string)
    requires HasEvent(events, id) || e.incidentID == id
    ensures HasEvent(events + [e], id)
  {
    if HasEvent(events, id) {
      var k :| 0 <= k < |events| && events[k].incidentID == id;
      assert (events + [e])[k].incidentID == id;
    } else {
      assert (events + [e])[|events|].incidentID == id;
    }
  }

  lemma CommentKeepsTable(db: DB, c: Comment)
    requires TableInv(db)
    ensures TableInv(InsertComment(db, c))
  {
    hide HasEvent;
  }

  lemma InsertBothKeepsTable(db: DB, id: string, incident: Incident, e: Event)
    requires TableInv(db) && id !in db.incidents && !HasKey(db, incident.key)
    requires incident.status == Open && e.incidentID == id
    ensures TableInv(InsertBoth(db, id, incident, e))
  {
    var after := InsertBoth(db, id, incident, e);
    forall other | other in after.incidents ensures HasEvent(after.events, other) {
      HasEventGrows(db.events, e, other);
    }
  }

  lemma DeleteKeepsTable(db: DB, id: string)
    requires TableInv(db)
    ensures TableInv(DeleteRow(db, id))
  {
    if id in db.incidents {
      var after := DeleteRow(db, id);
      forall other | other in after.incidents ensures HasEvent(after.events, other) {
        var k :| 0 <= k < |db.events| && db.events[k].incidentID == other;
        EventsWithoutMembers(db.events, id, db.events[k]);
        var k' :| 0 <= k' < |after.events| && after.events[k'] == db.events[k];
      }
      forall e | e in after.events ensures e.incidentID in after.incidents {
        EventsWithoutMembers(db.events, id, e);
      }
      forall c | c in after.comments ensures c.incidentID in after.incidents {
        CommentsWithoutMembers(db.comments, id, c);
      }
    }
  }

  lemma {:induction false} EventsOfWithout(events: seq<Event>, id: string, other: string)
    ensures EventsOf(EventsWithout(events, id), other) == if other == id then [] else EventsOf(events, other)
  {
    if events != [] {
      var before, e := events[..|events|-1], events[|events|-1];
      EventsOfWithout(before, id, other);
      EventsOfAppend(EventsWithout(before, id), e, other);
      assert EventsWithout(before, id) + [] == EventsWithout(before, id);
    }
  }

  lemma {:induction false} CommentsOfWithout(comments: seq<Comment>, id: string, other: string)
    ensures CommentsOf(CommentsWithout(comments, id), other) == if other == id then [] else CommentsOf(comments, other)
  {
    if comments != [] {
      var before, c := comments[..|comments|-1], comments[|comments|-1];
      CommentsOfWithout(before, id, other);
      CommentsOfAppend(CommentsWithout(before, id), c, other);
      assert CommentsWithout(before, id) + [] == CommentsWithout(before, id);
    }
  }

  lemma {:induction false} NoEvents(events: seq<Event>, id: string)
    requires forall e :: e in events ==> e.incidentID != id
    ensures EventsOf(events, id) == []
  {
    if events != [] {
      NoEvents(events[..|events|-1], id);
    }
  }

  lemma {:induction false} NoComments(comments: seq<Comment>, id: string)
    requires forall c :: c in comments ==> c.incidentID != id
    ensures CommentsOf(comments, id) == []
  {
    if comments != [] {
      NoComments(comments[..|comments|-1], id);
    }
  }

  /** A deletion takes the incident with its events and comments, and leaves every other incident with its
      own as they were; deleting an unknown id changes nothing. */
  lemma DeleteRemoves(db: DB, id: string, other: string)
    requires TableInv(db)
    ensures var after := DeleteRow(db, id);
            && after.incidents == db.incidents - {id} && (id !in db.incidents ==> after == db)
            && (forall e :: e in after.events ==> e.incidentID != id)
            && (forall c :: c in after.comments ==> c.incidentID != id)
            && (other != id ==> EventsOf(after.events, other) == EventsOf(db.events, other)
                                && CommentsOf(after.comments, other) == CommentsOf(db.comments, other))
  {
    hide EventsOf, CommentsOf;
    forall e ensures e in EventsWithout(db.events, id) <==> e in db.events && e.incidentID != id {
      EventsWithoutMembers(db.events, id, e);
    }
    forall c ensures c in CommentsWithout(db.comments, id) <==> c in db.comments && c.incidentID != id {
      CommentsWithoutMembers(db.comments, id, c);
    }
    EventsOfWithout(db.events, id, other);
    CommentsOfWithout(db.comments, id, other);
  }

  /** Under the constraint, a lookup finds the row of the key and no other. */
  lemma LookupFinds(db: DB, id: string)
    requires UniqueKeys(db) && id in db.incidents
    ensures Lookup(db, db.incidents[id].key) == Some(id)
  {
    assert HasKey(db, db.incidents[id].key);
  }
}
