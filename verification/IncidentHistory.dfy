/** Histories of operations on incidents and what they say: which anomalies came, and which of an incident's
escalations, resolutions and comments came after which others. Nothing here looks at a table. */
module IncidentHistory {
  import opened Wrappers
  import opened IncidentStore

  datatype Op =
    | Anomaly(payload: Payload, uuid: string, now: int)
    | Escalate(id: string, now: int)
    | Resolve(id: string, text: string, now: int)
    | AddComment(id: string, text: string, now: int)

  /** Generated identifiers do not repeat. */
  ghost predicate FreshIds(ops: seq<Op>) {
    forall i, j :: 0 <= i < j < |ops| && ops[i].Anomaly? && ops[j].Anomaly? ==> ops[i].uuid != ops[j].uuid
  }

  // ----- what a history says -----

  predicate AnomalyOf(op: Op, key: Key) {
    op.Anomaly? && op.payload.key == key
  }

  predicate ResolveOf(op: Op, id: string) {
    op.Resolve? && op.id == id
  }

  predicate EscalateOf(op: Op, id: string) {
    op.Escalate? && op.id == id
  }

  ghost predicate Seen(ops: seq<Op>, key: Key) {
    exists a :: 0 <= a < |ops| && AnomalyOf(ops[a], key)
  }

  /** The anomaly at b is the first of its key. */
  ghost predicate IsBirth(ops: seq<Op>, b: nat, key: Key) {
    b < |ops| && AnomalyOf(ops[b], key) && forall j :: 0 <= j < b ==> !AnomalyOf(ops[j], key)
  }

  ghost predicate BornAs(ops: seq<Op>, id: string, incident: Incident) {
    exists b: nat :: IsBirth(ops, b, incident.key) && ops[b].uuid == id
                     && IdentityOf(incident) == Identity(incident.key, ops[b].payload.severity, ops[b].now)
  }

  /** Some resolution came after the last anomaly. */
  ghost predicate ResolvedBy(ops: seq<Op>, id: string, key: Key) {
    exists r :: 0 <= r < |ops| && ResolveOf(ops[r], id) && forall j :: r < j < |ops| ==> !AnomalyOf(ops[j], key)
  }

  /** Some escalation found the incident unresolved, and no resolution has come since. */
  ghost predicate EscalatedBy(ops: seq<Op>, id: string, key: Key) {
    exists e :: 0 <= e < |ops| && EscalateOf(ops[e], id) && Seen(ops[..e], key) && !ResolvedBy(ops[..e], id, key)
                && forall j :: e < j < |ops| ==> !ResolveOf(ops[j], id)
  }

  /** The anomaly at a is the last one, and it created the incident or found it resolved. */
  ghost predicate OpenedAt(ops: seq<Op>, a: nat, id: string, key: Key) {
    a < |ops| && AnomalyOf(ops[a], key) && (forall j :: a < j < |ops| ==> !AnomalyOf(ops[j], key))
    && (!Seen(ops[..a], key) || ResolvedBy(ops[..a], id, key))
  }

  ghost predicate OpenedBy(ops: seq<Op>, id: string, key: Key) {
    exists a: nat :: OpenedAt(ops, a, id, key)
  }

  /** Some resolution was asked for while the incident existed. */
  ghost predicate EverResolved(ops: seq<Op>, id: string, key: Key) {
    exists r :: 0 <= r < |ops| && ResolveOf(ops[r], id) && Seen(ops[..r], key)
  }

  /** The operation, coming after a history, changes the incident's row. */
  ghost predicate Touches(before: seq<Op>, op: Op, id: string, key: Key) {
    || AnomalyOf(op, key)
    || (Seen(before, key) && op.AddComment? && op.id == id)
    || (Seen(before, key) && !ResolvedBy(before, id, key) && (EscalateOf(op, id) || ResolveOf(op, id)))
  }

  /** The operation is a resolution that finds the incident unresolved. */
  ghost predicate Closes(before: seq<Op>, op: Op, id: string, key: Key) {
    ResolveOf(op, id) && Seen(before, key) && !ResolvedBy(before, id, key)
  }

  ghost predicate LastTouch(ops: seq<Op>, k: nat, id: string, key: Key) {
    k < |ops| && Touches(ops[..k], ops[k], id, key) && forall j :: k < j < |ops| ==> !Touches(ops[..j], ops[j], id, key)
  }

  ghost predicate LastClosing(ops: seq<Op>, k: nat, id: string, key: Key, time: int, text: string) {
    && k < |ops| && Closes(ops[..k], ops[k], id, key) && ops[k].now == time && ops[k].text == text
    && forall j :: k < j < |ops| ==> !Closes(ops[..j], ops[j], id, key)
  }

  /** The row was last changed at the time of the last operation that changes it. */
  ghost predicate UpdatedBy(ops: seq<Op>, id: string, key: Key, time: int) {
    exists k: nat :: LastTouch(ops, k, id, key) && ops[k].now == time
  }

  /** Time and text of the resolution are those of the last operation that closed the incident. */
  ghost predicate ClosedBy(ops: seq<Op>, id: string, key: Key, at: Option<int>, text: string) {
    match at
    case None => text == "" && !EverResolved(ops, id, key)
    case Some(time) => exists k: nat :: LastClosing(ops, k, id, key, time, text)
  }

  /** The comments made on an incident that existed, in order. */
  ghost function RemarksOf(ops: seq<Op>, id: string, key: Key): seq<Op> {
    if ops == [] then []
    else
      var before, op := ops[..|ops|-1], ops[|ops|-1];
      RemarksOf(before, id, key) + (if op.AddComment? && op.id == id && Seen(before, key) then [op] else [])
  }

  predicate CommentFrom(c: Comment, op: Op, id: string) {
    op.AddComment? && c.incidentID == id && c.text == op.text && c.createdAt == op.now
  }

  /** One comment for each remark, in the same order. */
  ghost predicate CommentsFrom(comments: seq<Comment>, remarks: seq<Op>, id: string) {
    |comments| == |remarks| && forall k :: 0 <= k < |comments| ==> CommentFrom(comments[k], remarks[k], id)
  }

  ghost function StatusBy(ops: seq<Op>, id: string, key: Key): Status {
    if ResolvedBy(ops, id, key) then Resolved
    else if EscalatedBy(ops, id, key) then Escalated
    else if OpenedBy(ops, id, key) then Open
    else Updated
  }

  /** The anomalies of a key, in order of arrival. */
  function AnomaliesOf(ops: seq<Op>, key: Key): seq<Op> {
    if ops == [] then []
    else
      var op := ops[|ops|-1];
      AnomaliesOf(ops[..|ops|-1], key) + (if AnomalyOf(op, key) then [op] else [])
  }

  /** The event holds what the anomaly reported, is dated as the anomaly says (when it arrived, if it does not
      say), and was recorded when the anomaly arrived. */
  predicate EventFrom(e: Event, op: Op, id: string) {
    && op.Anomaly? && e.incidentID == id && e.payload == op.payload && e.createdAt == op.now
    && (op.payload.timestamp != 0 ==> e.timestamp == op.payload.timestamp)
    && (op.payload.timestamp == 0 ==> e.timestamp == op.now)
  }

  /** One event for each anomaly, in the same order. */
  ghost predicate EventsFrom(events: seq<Event>, anomalies: seq<Op>, id: string) {
    |events| == |anomalies| && forall k :: 0 <= k < |events| ==> EventFrom(events[k], anomalies[k], id)
  }

  /** The operation is an escalation that finds the incident unresolved. */
  ghost predicate Raises(before: seq<Op>, op: Op, id: string, key: Key) {
    EscalateOf(op, id) && Seen(before, key) && !ResolvedBy(before, id, key)
  }

  /** How many escalations found the incident unresolved. */
  ghost function Escalations(ops: seq<Op>, id: string, key: Key): nat {
    if ops == [] then 0
    else
      var before, op := ops[..|ops|-1], ops[|ops|-1];
      Escalations(before, id, key) + (if Raises(before, op, id, key) then 1 else 0)
  }

  // ----- histories one operation longer -----

  lemma SeenNext(ops: seq<Op>, op: Op, key: Key)
    ensures Seen(ops + [op], key) <==> Seen(ops, key) || AnomalyOf(op, key)
  {
    var all := ops + [op];
    if Seen(ops, key) {
      var a :| 0 <= a < |ops| && AnomalyOf(ops[a], key);
      assert AnomalyOf(all[a], key);
    }
    if AnomalyOf(op, key) {
      assert AnomalyOf(all[|ops|], key);
    }
  }

  lemma ResolvedNext(ops: seq<Op>, op: Op, id: string, key: Key)
    ensures ResolvedBy(ops + [op], id, key) <==> ResolveOf(op, id) || (ResolvedBy(ops, id, key) && !AnomalyOf(op, key))
  {
    var all := ops + [op];
    assert all[|ops|] == op;
    if ResolveOf(op, id) {
      assert ResolveOf(all[|ops|], id);
    } else if ResolvedBy(ops, id, key) && !AnomalyOf(op, key) {
      var r :| 0 <= r < |ops| && ResolveOf(ops[r], id) && forall j :: r < j < |ops| ==> !AnomalyOf(ops[j], key);
      assert ResolveOf(all[r], id);
    }
    if ResolvedBy(all, id, key) && !ResolveOf(op, id) {
      var r :| 0 <= r < |all| && ResolveOf(all[r], id) && forall j :: r < j < |all| ==> !AnomalyOf(all[j], key);
      assert ResolveOf(ops[r], id);
      forall j | r < j < |ops| ensures !AnomalyOf(ops[j], key) {
        assert all[j] == ops[j];
      }
    }
  }

  lemma EscalatedNext(ops: seq<Op>, op: Op, id: string, key: Key)
    ensures EscalatedBy(ops + [op], id, key) <==>
            (EscalateOf(op, id) && Seen(ops, key) && !ResolvedBy(ops, id, key)) || (EscalatedBy(ops, id, key) && !ResolveOf(op, id))
  {
    hide ResolvedBy, Seen;
    var all := ops + [op];
    assert all[|ops|] == op && all[..|ops|] == ops;
    if EscalatedBy(ops, id, key) && !ResolveOf(op, id) {
      var e :| 0 <= e < |ops| && EscalateOf(ops[e], id) && Seen(ops[..e], key) && !ResolvedBy(ops[..e], id, key)
               && forall j :: e < j < |ops| ==> !ResolveOf(ops[j], id);
      assert EscalateOf(all[e], id) && all[..e] == ops[..e];
    }
    if EscalatedBy(all, id, key) {
      var e :| 0 <= e < |all| && EscalateOf(all[e], id) && Seen(all[..e], key) && !ResolvedBy(all[..e], id, key)
               && forall j :: e < j < |all| ==> !ResolveOf(all[j], id);
      if e < |ops| {
        assert EscalateOf(ops[e], id) && all[..e] == ops[..e];
        forall j | e < j < |ops| ensures !ResolveOf(ops[j], id) {
          assert all[j] == ops[j];
        }
      }
    }
  }

  lemma OpenedAtNext(ops: seq<Op>, op: Op, a: nat, id: string, key: Key)
    requires a < |ops|
    ensures OpenedAt(ops + [op], a, id, key) <==> OpenedAt(ops, a, id, key) && !AnomalyOf(op, key)
  {
    hide ResolvedBy, Seen, AnomalyOf;
    var all := ops + [op];
    assert all[|ops|] == op && all[..a] == ops[..a];
    assert forall j :: 0 <= j < |ops| ==> all[j] == ops[j];
  }

  lemma OpenedNext(ops: seq<Op>, op: Op, id: string, key: Key)
    ensures OpenedBy(ops + [op], id, key) <==>
            if AnomalyOf(op, key) then !Seen(ops, key) || ResolvedBy(ops, id, key) else OpenedBy(ops, id, key)
  {
    hide ResolvedBy, Seen, AnomalyOf;
    forall a: nat | a < |ops| ensures OpenedAt(ops + [op], a, id, key) <==> OpenedAt(ops, a, id, key) && !AnomalyOf(op, key) {
      OpenedAtNext(ops, op, a, id, key);
    }
    assert (ops + [op])[|ops|] == op && (ops + [op])[..|ops|] == ops;
    assert OpenedAt(ops + [op], |ops|, id, key)
           <==> AnomalyOf(op, key) && (!Seen(ops, key) || ResolvedBy(ops, id, key));
  }

  lemma EverResolvedNext(ops: seq<Op>, op: Op, id: string, key: Key)
    ensures EverResolved(ops + [op], id, key) <==> EverResolved(ops, id, key) || (ResolveOf(op, id) && Seen(ops, key))
  {
    hide Seen;
    var all := ops + [op];
    assert all[|ops|] == op && all[..|ops|] == ops;
    if EverResolved(ops, id, key) {
      var r :| 0 <= r < |ops| && ResolveOf(ops[r], id) && Seen(ops[..r], key);
      assert ResolveOf(all[r], id) && all[..r] == ops[..r];
    }
    if EverResolved(all, id, key) {
      var r :| 0 <= r < |all| && ResolveOf(all[r], id) && Seen(all[..r], key);
      if r < |ops| {
        assert ResolveOf(ops[r], id) && all[..r] == ops[..r];
      }
    }
  }

  lemma BornNext(ops: seq<Op>, op: Op, id: string, incident: Incident)
    requires BornAs(ops, id, incident)
    ensures forall incident' :: IdentityOf(incident') == IdentityOf(incident) ==> BornAs(ops + [op], id, incident')
  {
    var b: nat :| IsBirth(ops, b, incident.key) && ops[b].uuid == id
                  && IdentityOf(incident) == Identity(incident.key, ops[b].payload.severity, ops[b].now);
    assert IsBirth(ops + [op], b, incident.key) by {
      forall j | 0 <= j < b ensures !AnomalyOf((ops + [op])[j], incident.key) {
        assert (ops + [op])[j] == ops[j];
      }
    }
    assert (ops + [op])[b] == ops[b];
  }

  lemma AnomaliesNext(ops: seq<Op>, op: Op, key: Key)
    ensures AnomaliesOf(ops + [op], key) == AnomaliesOf(ops, key) + (if AnomalyOf(op, key) then [op] else [])
  {
    assert (ops + [op])[..|ops|] == ops;
  }

  lemma EscalationsNext(ops: seq<Op>, op: Op, id: string, key: Key)
    ensures Escalations(ops + [op], id, key) == Escalations(ops, id, key) + (if Raises(ops, op, id, key) then 1 else 0)
  {
    hide Raises;
    assert (ops + [op])[..|ops|] == ops;
  }

  lemma UpdatedNext(ops: seq<Op>, op: Op, id: string, key: Key, time: int)
    requires if Touches(ops, op, id, key) then time == op.now else UpdatedBy(ops, id, key, time)
    ensures UpdatedBy(ops + [op], id, key, time)
  {
    hide Touches;
    var all := ops + [op];
    assert all[|ops|] == op && all[..|ops|] == ops;
    if Touches(ops, op, id, key) {
      assert LastTouch(all, |ops|, id, key);
    } else {
      var k: nat :| LastTouch(ops, k, id, key) && ops[k].now == time;
      forall j: nat | k <= j < |ops| ensures all[..j] == ops[..j] && all[j] == ops[j] {}
      assert LastTouch(all, k, id, key);
    }
  }

  lemma LastClosingNext(ops: seq<Op>, op: Op, k: nat, id: string, key: Key, time: int, text: string)
    requires LastClosing(ops, k, id, key, time, text) && !Closes(ops, op, id, key)
    ensures LastClosing(ops + [op], k, id, key, time, text)
  {
    hide Seen, ResolvedBy;
    var all := ops + [op];
    assert all[|ops|] == op && all[..|ops|] == ops;
    forall j: nat | k <= j < |ops| ensures all[..j] == ops[..j] && all[j] == ops[j] {}
  }

  lemma NewestClosing(ops: seq<Op>, op: Op, id: string, key: Key)
    requires Closes(ops, op, id, key)
    ensures LastClosing(ops + [op], |ops|, id, key, op.now, op.text)
  {
    hide Seen, ResolvedBy;
    assert (ops + [op])[|ops|] == op && (ops + [op])[..|ops|] == ops;
  }

  lemma ClosedNext(ops: seq<Op>, op: Op, id: string, key: Key, at: Option<int>, text: string)
    requires Seen(ops, key) && (ResolvedBy(ops, id, key) ==> EverResolved(ops, id, key))
    requires ClosedBy(ops, id, key, at, text)
    ensures if Closes(ops, op, id, key) then ClosedBy(ops + [op], id, key, Some(op.now), op.text)
            else ClosedBy(ops + [op], id, key, at, text)
  {
    hide Seen, ResolvedBy, EverResolved, LastClosing;
    EverResolvedNext(ops, op, id, key);
    if Closes(ops, op, id, key) {
      NewestClosing(ops, op, id, key);
    } else if at.Some? {
      var k: nat :| LastClosing(ops, k, id, key, at.value, text);
      LastClosingNext(ops, op, k, id, key, at.value, text);
    }
  }

  lemma RemarksNext(ops: seq<Op>, op: Op, id: string, key: Key)
    ensures RemarksOf(ops + [op], id, key)
            == RemarksOf(ops, id, key) + (if op.AddComment? && op.id == id && Seen(ops, key) then [op] else [])
  {
    hide Seen;
    assert (ops + [op])[..|ops|] == ops;
  }

  // ----- facts about histories -----

  lemma ResolvedEarlier(ops: seq<Op>, e: nat, id: string, key: Key)
    requires e < |ops| && EscalateOf(ops[e], id) && forall j :: e < j < |ops| ==> !ResolveOf(ops[j], id)
    requires ResolvedBy(ops, id, key)
    ensures ResolvedBy(ops[..e], id, key)
  {
    var r :| 0 <= r < |ops| && ResolveOf(ops[r], id) && forall j :: r < j < |ops| ==> !AnomalyOf(ops[j], key);
    assert ResolveOf(ops[..e][r], id);
  }

  /** A history cannot have left an incident both resolved and escalated. */
  lemma Exclusive(ops: seq<Op>, id: string, key: Key)
    requires ResolvedBy(ops, id, key)
    ensures !EscalatedBy(ops, id, key)
  {
    forall e: nat | e < |ops| && EscalateOf(ops[e], id) && forall j :: e < j < |ops| ==> !ResolveOf(ops[j], id)
      ensures ResolvedBy(ops[..e], id, key)
    {
      ResolvedEarlier(ops, e, id, key);
    }
  }

  lemma SeenEarlier(ops: seq<Op>, n: nat, key: Key)
    requires n <= |ops|
    ensures Seen(ops[..n], key) ==> Seen(ops, key)
  {
    if Seen(ops[..n], key) {
      var a :| 0 <= a < n && AnomalyOf(ops[..n][a], key);
      assert AnomalyOf(ops[a], key);
    }
  }

  /** Before its first anomaly an incident has no history. */
  lemma NothingBeforeBirth(ops: seq<Op>, id: string, key: Key)
    requires !Seen(ops, key)
    ensures !EscalatedBy(ops, id, key) && !EverResolved(ops, id, key)
  {
    hide Seen;
    forall e: nat | e < |ops| ensures !Seen(ops[..e], key) {
      SeenEarlier(ops, e, key);
    }
  }

  lemma {:induction false} NothingCounted(ops: seq<Op>, id: string, key: Key)
    requires !Seen(ops, key)
    ensures AnomaliesOf(ops, key) == [] && RemarksOf(ops, id, key) == [] && Escalations(ops, id, key) == 0
  {
    hide Seen, ResolvedBy;
    if ops != [] {
      assert ops == ops[..|ops|-1] + [ops[|ops|-1]];
      SeenNext(ops[..|ops|-1], ops[|ops|-1], key);
      NothingCounted(ops[..|ops|-1], id, key);
    }
  }

  /** What one operation makes of the status of an incident that exists. */
  function NextStatus(status: Status, op: Op, id: string, key: Key): Status {
    if AnomalyOf(op, key) then StatusAfterAnomaly(status)
    else if EscalateOf(op, id) then (if status == Resolved then Resolved else Escalated)
    else if ResolveOf(op, id) then Resolved
    else status
  }

  lemma StatusNext(ops: seq<Op>, op: Op, id: string, key: Key)
    requires Seen(ops, key)
    ensures StatusBy(ops + [op], id, key) == NextStatus(StatusBy(ops, id, key), op, id, key)
  {
    hide ResolvedBy, EscalatedBy, OpenedBy, Seen;
    ResolvedNext(ops, op, id, key);
    EscalatedNext(ops, op, id, key);
    OpenedNext(ops, op, id, key);
    if ResolvedBy(ops, id, key) {
      Exclusive(ops, id, key);
    }
  }

  lemma StatusAtBirth(ops: seq<Op>, op: Op, id: string, key: Key)
    requires !Seen(ops, key) && AnomalyOf(op, key)
    ensures StatusBy(ops + [op], id, key) == Open && !EverResolved(ops + [op], id, key)
  {
    hide ResolvedBy, EscalatedBy, OpenedBy, Seen, EverResolved;
    NothingBeforeBirth(ops, id, key);
    ResolvedNext(ops, op, id, key);
    EscalatedNext(ops, op, id, key);
    OpenedNext(ops, op, id, key);
    EverResolvedNext(ops, op, id, key);
  }
}
