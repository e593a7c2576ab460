/** The notifier's consumer: one message is one anomaly, committed only after it was handled.

Together with the queue this bounds what a restart can lose or repeat: a committed anomaly is recorded, a
failed one may have been recorded already and is recorded again when it is delivered again. */
module AnomalyConsumer {
  import opened Wrappers
  import opened IncidentStore
  import opened NotifierService

  /** A fetched message; the payload is absent when it cannot be decoded. */
  datatype Message = Message(offset: int, payload: Option<Payload>)

  class Consumer {
    const svc: NotifierService
    var commits: seq<int>

    constructor (svc: NotifierService)
      ensures this.svc == svc && commits == []
    {
      this.svc := svc;
      commits := [];
    }

    method Process(msg: Message, uuid: string, now: int, f: AnomalyFaults)
      requires svc.Valid()
      modifies this, svc, svc.repo
      ensures svc.Valid()
      ensures msg.payload == None ==> svc.View() == old(svc.View()) && commits == old(commits) + [msg.offset]
      ensures msg.payload.Some? ==>
                var (w, r) := AfterAnomaly(old(svc.View()), msg.payload.value, uuid, now, f);
                svc.View() == w && commits == if r.Ok? then old(commits) + [msg.offset] else old(commits)
    {
      hide AfterAnomaly, TableInv;
      if msg.payload == None {
        commits := commits + [msg.offset];
        return;
      }
      var r := svc.HandleAnomaly(msg.payload.value, uuid, now, f);
      if r.Err? {
        return;
      }
      commits := commits + [msg.offset];
    }
  }

  /** The anomaly was recorded: its event is the newest of the incident of its key, and the only change to
      the events. */
  ghost predicate Recorded(w: World, after: World, p: Payload, now: int) {
    exists id :: id in after.db.incidents && after.db.incidents[id].key == p.key
                 && after.db.events == w.db.events + [Event(id, p, if p.timestamp != 0 then p.timestamp else now, now)]
  }

  lemma RepeatRecorded(w: World, id: string, p: Payload, now: int, f: AnomalyFaults)
    requires id in w.db.incidents && w.db.incidents[id].key == p.key
    ensures var after := AfterRepeat(w, id, p, now, f).0;
            if f.update == Acknowledged && f.append != NotApplied then Recorded(w, after, p, now)
            else after.db.events == w.db.events
  {
    var after := AfterRepeat(w, id, p, now, f).0;
    assert id in after.db.incidents && after.db.incidents[id].key == p.key;
  }

  lemma FirstRecorded(w: World, p: Payload, uuid: string, now: int, f: AnomalyFaults)
    ensures var after := AfterFirst(w, p, uuid, now, f).0;
            if f.beginFails || f.createFails || uuid in w.db.incidents || f.eventFails || f.commit == NotApplied
            then after == w
            else Recorded(w, after, p, now)
  {
    var after := AfterFirst(w, p, uuid, now, f).0;
    assert uuid in after.db.incidents ==> after.db.incidents[uuid].key == p.key || uuid in w.db.incidents;
  }

  /** An anomaly that was handled, and so committed, is recorded; one that failed left the events as they
      were or was recorded with the answer lost, in which case its redelivery records it a second time. */
  lemma HandledIsRecorded(w: World, p: Payload, uuid: string, now: int, f: AnomalyFaults)
    ensures var (after, r) := AfterAnomaly(w, p, uuid, now, f);
            && (r.Ok? ==> Recorded(w, after, p, now))
            && (Recorded(w, after, p, now) || after.db.events == w.db.events)
            && (r.Err? && Recorded(w, after, p, now) ==> f.append == AppliedUnacknowledged || f.commit == AppliedUnacknowledged)
  {
    hide HasKey, Recorded;
    var found := Lookup(w.db, p.key);
    if found.Some? {
      RepeatRecorded(w, found.value, p, now, f);
    } else {
      FirstRecorded(w, p, uuid, now, f);
    }
    RecordedGrows(w, AfterAnomaly(w, p, uuid, now, f).0, p, now);
  }

  lemma RecordedGrows(w: World, after: World, p: Payload, now: int)
    ensures Recorded(w, after, p, now) ==> |after.db.events| == |w.db.events| + 1
  {}
}
