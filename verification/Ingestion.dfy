/** The ingestion consumer: validating a batch, storing it, retrying, and committing the message.

A storage call may fail, or succeed without the answer arriving; the consumer cannot tell the two apart
and tries again. */
module Ingestion {
  import opened Wrappers

  /** A float64 as far as validation looks at it. */
  datatype Value = Finite(x: real) | NotANumber | Infinite

  /** A missing time stamp is the zero time. */
  datatype Metric = Metric(name: string, value: Value, labels: map<string, string>, timestamp: Option<int>, metricType: string)

  datatype Batch = Batch(agentID: string, metrics: seq<Metric>)

  datatype ValidationError =
    | AgentRequired
    | NoMetrics
    | NameRequired(i: nat)
    | TimestampRequired(i: nat)
    | ValueNotFinite(i: nat)

  // ----- validation -----

  function CheckMetric(m: Metric, i: nat): Option<ValidationError> {
    if m.name == "" then Some(NameRequired(i))
    else if m.timestamp == None then Some(TimestampRequired(i))
    else if !m.value.Finite? then Some(ValueNotFinite(i))
    else None
  }

  function CheckFrom(ms: seq<Metric>, i: nat): Option<ValidationError>
    requires i <= |ms|
    decreases |ms| - i
  {
    if i == |ms| then None
    else if CheckMetric(ms[i], i).Some? then CheckMetric(ms[i], i)
    else CheckFrom(ms, i + 1)
  }

  function ValidateBatch(b: Batch): Option<ValidationError> {
    if b.agentID == "" then Some(AgentRequired)
    else if b.metrics == [] then Some(NoMetrics)
    else CheckFrom(b.metrics, 0)
  }

  predicate WellFormed(m: Metric) {
    m.name != "" && m.timestamp.Some? && m.value.Finite?
  }

  predicate Acceptable(b: Batch) {
    b.agentID != "" && b.metrics != [] && forall i :: 0 <= i < |b.metrics| ==> WellFormed(b.metrics[i])
  }

  /** The metric at i is the first that is not well formed. */
  predicate FirstBad(ms: seq<Metric>, i: nat) {
    i < |ms| && !WellFormed(ms[i]) && forall j :: 0 <= j < i ==> WellFormed(ms[j])
  }

  lemma {:induction false} CheckFromExact(ms: seq<Metric>, i: nat)
    requires i <= |ms| && forall j :: 0 <= j < i ==> WellFormed(ms[j])
    ensures CheckFrom(ms, i) == None <==> forall j :: 0 <= j < |ms| ==> WellFormed(ms[j])
    ensures forall e :: CheckFrom(ms, i) == Some(e) ==>
              !e.AgentRequired? && !e.NoMetrics? && FirstBad(ms, e.i) && CheckMetric(ms[e.i], e.i) == Some(e)
    decreases |ms| - i
  {
    if i < |ms| && CheckMetric(ms[i], i) == None {
      CheckFromExact(ms, i + 1);
    }
  }

  /** The metrics before position i are all named, dated and finite. */
  predicate GoodBefore(ms: seq<Metric>, i: nat)
    requires i <= |ms|
  {
    forall j :: 0 <= j < i ==> ms[j].name != "" && ms[j].timestamp.Some? && ms[j].value.Finite?
  }

  /** A batch is accepted exactly if it names an agent, is not empty, and every metric has a name, a time and a
      finite value. Which error is answered is as exact: the first check that fails of the first metric that
      fails one. */
  lemma ValidationExact(b: Batch)
    ensures ValidateBatch(b) == None <==> b.agentID != "" && b.metrics != [] && GoodBefore(b.metrics, |b.metrics|)
    ensures ValidateBatch(b) == None <==> Acceptable(b)
    ensures ValidateBatch(b) == Some(AgentRequired) <==> b.agentID == ""
    ensures ValidateBatch(b) == Some(NoMetrics) <==> b.agentID != "" && b.metrics == []
    ensures forall i: nat :: ValidateBatch(b) == Some(NameRequired(i)) <==>
              b.agentID != "" && i < |b.metrics| && GoodBefore(b.metrics, i) && b.metrics[i].name == ""
    ensures forall i: nat :: ValidateBatch(b) == Some(TimestampRequired(i)) <==>
              b.agentID != "" && i < |b.metrics| && GoodBefore(b.metrics, i) && b.metrics[i].name != "" && b.metrics[i].timestamp == None
    ensures forall i: nat :: ValidateBatch(b) == Some(ValueNotFinite(i)) <==>
              b.agentID != "" && i < |b.metrics| && GoodBefore(b.metrics, i) && b.metrics[i].name != "" && b.metrics[i].timestamp.Some?
              && !b.metrics[i].value.Finite?
  {
    CheckFromExact(b.metrics, 0);
    if b.agentID != "" {
      forall i: nat | i < |b.metrics| && GoodBefore(b.metrics, i) && !WellFormed(b.metrics[i])
        ensures ValidateBatch(b) == CheckMetric(b.metrics[i], i)
      {
        FirstBadUnique(b.metrics, i);
      }
    }
  }

  lemma FirstBadUnique(ms: seq<Metric>, i: nat)
    requires FirstBad(ms, i)
    ensures CheckFrom(ms, 0) == CheckMetric(ms[i], i)
  {
    CheckFromExact(ms, 0);
    var e := CheckFrom(ms, 0).value;
    assert e.i == i;
  }

  // ----- one message -----

  /** A batch as stored. */
  datatype Saved = Saved(batch: Batch, receivedAt: int)

  /** A fetched message; the body is absent when it cannot be decoded. */
  datatype Message = Message(offset: int, body: Option<Batch>)

  datatype HandleResult = Stored | Rejected(error: ValidationError) | StorageFailed

  const MAX_ATTEMPTS := 4

  /** How many attempts are made: up to the first that is acknowledged. */
  function AttemptsFrom(outcomes: seq<CallOutcome>, k: nat): (n: nat)
    requires k <= |outcomes|
    ensures k <= n <= |outcomes|
    decreases |outcomes| - k
  {
    if k == |outcomes| then k
    else if outcomes[k] == Acknowledged then k + 1
    else AttemptsFrom(outcomes, k + 1)
  }

  /** What the first n attempts store. */
  function Copies(b: Batch, times: seq<int>, outcomes: seq<CallOutcome>, n: nat): seq<Saved>
    requires n <= |outcomes| == |times|
  {
    if n == 0 then []
    else Copies(b, times, outcomes, n - 1) + (if outcomes[n-1] == NotApplied then [] else [Saved(b, times[n-1])])
  }

  /** One call to the consumer with what becomes of its storage calls. */
  datatype Call = Call(job: Message, times: seq<int>, outcomes: seq<CallOutcome>)

  predicate ValidCall(c: Call) {
    |c.times| == |c.outcomes| == MAX_ATTEMPTS
  }

  function Attempts(c: Call): nat
    requires ValidCall(c)
  {
    match c.job.body
    case None => 0
    case Some(b) => if ValidateBatch(b).Some? then 1 else AttemptsFrom(c.outcomes, 0)
  }

  function Additions(c: Call): seq<Saved>
    requires ValidCall(c)
  {
    match c.job.body
    case None => []
    case Some(b) => if ValidateBatch(b).Some? then [] else Copies(b, c.times, c.outcomes, AttemptsFrom(c.outcomes, 0))
  }

  /** Some attempt was acknowledged. */
  predicate Succeeds(outcomes: seq<CallOutcome>) {
    exists k :: 0 <= k < |outcomes| && outcomes[k] == Acknowledged
  }

  predicate Commits(c: Call) {
    match c.job.body
    case None => true
    case Some(b) => ValidateBatch(b).Some? || Succeeds(c.outcomes)
  }

  class Storage {
    var saved: seq<Saved>

    constructor ()
      ensures saved == []
    {
      saved := [];
    }

    method Save(b: Batch, receivedAt: int, outcome: CallOutcome) returns (ok: bool)
      modifies this
      ensures ok == (b.metrics == [] || outcome == Acknowledged)
      ensures saved == if b.metrics == [] || outcome == NotApplied then old(saved) else old(saved) + [Saved(b, receivedAt)]
    {
      if b.metrics == [] {
        return true;
      }
      if outcome != NotApplied {
        saved := saved + [Saved(b, receivedAt)];
      }
      return outcome == Acknowledged;
    }
  }

  class IngestionService {
    const storage: Storage

    constructor (storage: Storage)
      ensures this.storage == storage
    {
      this.storage := storage;
    }

    /** Only acceptable batches reach the storage. */
    method HandleBatch(b: Batch, now: int, outcome: CallOutcome) returns (r: HandleResult)
      modifies storage
      ensures r.Rejected? <==> !Acceptable(b)
      ensures r.Rejected? ==> ValidateBatch(b) == Some(r.error)
      ensures r.Stored? <==> Acceptable(b) && outcome == Acknowledged
      ensures storage.saved == old(storage.saved)
                               + if Acceptable(b) && outcome != NotApplied then [Saved(b, now)] else []
    {
      ValidationExact(b);
      var err := ValidateBatch(b);
      if err.Some? {
        return Rejected(err.value);
      }
      var ok := storage.Save(b, now, outcome);
      if !ok {
        return StorageFailed;
      }
      return Stored;
    }
  }

  class KafkaConsumer {
    const service: IngestionService
    var commits: seq<int>

    constructor (service: IngestionService)
      ensures this.service == service && commits == []
    {
      this.service := service;
      commits := [];
    }

    method Process(c: Call) returns (attempts: nat)
      requires ValidCall(c)
      modifies this, service.storage
      ensures attempts == Attempts(c)
      ensures service.storage.saved == old(service.storage.saved) + Additions(c)
      ensures commits == if Commits(c) then old(commits) + [c.job.offset] else old(commits)
    {
      attempts := 0;
      if c.job.body == None {
        commits := commits + [c.job.offset];
        return;
      }
      var batch := c.job.body.value;
      ValidationExact(batch);
      var commitNow := false;
      while attempts < MAX_ATTEMPTS && !commitNow
        invariant attempts <= MAX_ATTEMPTS && commits == old(commits)
        invariant commitNow ==> attempts > 0 && (Acceptable(batch) ==> c.outcomes[attempts - 1] == Acknowledged)
        invariant !Acceptable(batch) ==> attempts == if commitNow then 1 else 0
        invariant forall k :: 0 <= k < attempts - (if commitNow then 1 else 0) ==> c.outcomes[k] != Acknowledged
        invariant service.storage.saved == old(service.storage.saved)
                                           + if Acceptable(batch) then Copies(batch, c.times, c.outcomes, attempts) else []
      {
        var r := service.HandleBatch(batch, c.times[attempts], c.outcomes[attempts]);
        commitNow := !r.StorageFailed?;
        attempts := attempts + 1;
        assert old(service.storage.saved) + Copies(batch, c.times, c.outcomes, attempts)
               == old(service.storage.saved) + Copies(batch, c.times, c.outcomes, attempts - 1)
                  + (if c.outcomes[attempts-1] == NotApplied then [] else [Saved(batch, c.times[attempts-1])]);
      }
      if Acceptable(batch) {
        AttemptsReached(c.outcomes, 0, attempts);
      }
      if commitNow {
        commits := commits + [c.job.offset];
      }
    }
  }

  /** The loop stops where the attempts are counted to. */
  lemma {:induction false} AttemptsReached(outcomes: seq<CallOutcome>, k: nat, n: nat)
    requires k <= n <= |outcomes|
    requires n == |outcomes| || (n > k && outcomes[n-1] == Acknowledged)
    requires forall j :: k <= j < n - 1 ==> outcomes[j] != Acknowledged
    ensures AttemptsFrom(outcomes, k) == n
    decreases n - k
  {
    if k < n && outcomes[k] != Acknowledged {
      AttemptsReached(outcomes, k + 1, n);
    }
  }

  // ----- what the consumer guarantees -----

  lemma {:induction false} AttemptsFromExact(outcomes: seq<CallOutcome>, k: nat)
    requires k <= |outcomes|
    ensures var n := AttemptsFrom(outcomes, k);
            && (forall j :: k <= j < n - 1 ==> outcomes[j] != Acknowledged)
            && (n < |outcomes| ==> n > k && outcomes[n-1] == Acknowledged)
            && ((exists j :: k <= j < |outcomes| && outcomes[j] == Acknowledged) <==> n > k && outcomes[n-1] == Acknowledged)
    decreases |outcomes| - k
  {
    if k < |outcomes| && outcomes[k] != Acknowledged {
      AttemptsFromExact(outcomes, k + 1);
    }
  }

  lemma {:induction false} CopiesAreOf(b: Batch, times: seq<int>, outcomes: seq<CallOutcome>, n: nat)
    requires n <= |outcomes| == |times|
    ensures |Copies(b, times, outcomes, n)| <= n
    ensures Copies(b, times, outcomes, n) == [] <==> forall k :: 0 <= k < n ==> outcomes[k] == NotApplied
  {
    if n > 0 {
      CopiesAreOf(b, times, outcomes, n - 1);
    }
  }

  lemma {:induction false} CopiesMembers(b: Batch, times: seq<int>, outcomes: seq<CallOutcome>, n: nat)
    requires n <= |outcomes| == |times|
    ensures forall x :: x in Copies(b, times, outcomes, n) ==>
              x.batch == b && exists k :: 0 <= k < n && outcomes[k] != NotApplied && times[k] == x.receivedAt
    ensures forall k :: 0 <= k < n && outcomes[k] != NotApplied ==> Saved(b, times[k]) in Copies(b, times, outcomes, n)
  {
    if n > 0 {
      CopiesMembers(b, times, outcomes, n - 1);
    }
  }

  /** One call makes at most four attempts, and all four unless the message is malformed or unacceptable or an
      attempt is acknowledged; only its last one can be. It stores an acceptable batch once for every attempt
      that is applied, dated with the attempt, and nothing else. It commits exactly a message that is malformed,
      unacceptable or whose storing was acknowledged, in which case the batch is stored. */
  lemma ProcessGuarantees(c: Call)
    requires ValidCall(c)
    ensures Attempts(c) <= 4 && (!Commits(c) ==> Attempts(c) == 4)
    ensures if c.job.body == None then Attempts(c) == 0 else !Acceptable(c.job.body.value) ==> Attempts(c) == 1
    ensures forall k :: 0 <= k < Attempts(c) - 1 ==> c.outcomes[k] != Acknowledged
    ensures forall x :: x in Additions(c) ==> c.job.body == Some(x.batch) && Acceptable(x.batch)
    ensures forall x :: x in Additions(c) ==>
              exists k :: 0 <= k < Attempts(c) && c.outcomes[k] != NotApplied && c.times[k] == x.receivedAt
    ensures c.job.body.Some? && Acceptable(c.job.body.value) ==>
              forall k :: 0 <= k < Attempts(c) && c.outcomes[k] != NotApplied ==> Saved(c.job.body.value, c.times[k]) in Additions(c)
    ensures |Additions(c)| <= Attempts(c)
    ensures Commits(c) <==>
            c.job.body == None || !Acceptable(c.job.body.value)
            || (Attempts(c) > 0 && c.outcomes[Attempts(c)-1] == Acknowledged)
    ensures Commits(c) && c.job.body.Some? && Acceptable(c.job.body.value) ==> Additions(c) != []
  {
    if c.job.body.Some? {
      ValidationExact(c.job.body.value);
      AttemptsFromExact(c.outcomes, 0);
      CopiesAreOf(c.job.body.value, c.times, c.outcomes, AttemptsFrom(c.outcomes, 0));
      CopiesMembers(c.job.body.value, c.times, c.outcomes, AttemptsFrom(c.outcomes, 0));
    }
  }

  /** Some attempt before the n-th stored the batch. */
  predicate AppliedBefore(outcomes: seq<CallOutcome>, n: nat)
    requires n <= |outcomes|
  {
    exists k :: 0 <= k < n && outcomes[k] != NotApplied
  }

  /** Some attempt before the n-th was applied without an answer. */
  predicate LostBefore(outcomes: seq<CallOutcome>, n: nat)
    requires n <= |outcomes|
  {
    exists j :: 0 <= j < n && outcomes[j] == AppliedUnacknowledged
  }

  lemma {:induction false} CopiesTwice(b: Batch, times: seq<int>, outcomes: seq<CallOutcome>, n: nat)
    requires n <= |outcomes| == |times|
    ensures |Copies(b, times, outcomes, n)| > 1 <==>
            exists k :: 0 <= k < n && outcomes[k] != NotApplied && AppliedBefore(outcomes, k)
  {
    if n > 0 {
      CopiesTwice(b, times, outcomes, n - 1);
      CopiesAreOf(b, times, outcomes, n - 1);
    }
  }

  /** The consumer stores an acceptable batch again exactly if one of its attempts was applied with the
      answer lost and a later attempt, which it makes for that reason, is applied too. */
  lemma StoredTwiceIff(c: Call)
    requires ValidCall(c)
    ensures |Additions(c)| > 1 <==>
            && c.job.body.Some? && Acceptable(c.job.body.value)
            && exists k :: 0 <= k < Attempts(c) && c.outcomes[k] != NotApplied && LostBefore(c.outcomes, k)
  {
    if c.job.body.Some? {
      var b, n := c.job.body.value, AttemptsFrom(c.outcomes, 0);
      ValidationExact(b);
      CopiesTwice(b, c.times, c.outcomes, n);
      AttemptsFromExact(c.outcomes, 0);
      forall k | 0 <= k < n ensures AppliedBefore(c.outcomes, k) <==> LostBefore(c.outcomes, k) {
        assert forall j :: 0 <= j < k ==> c.outcomes[j] != Acknowledged;
      }
    }
  }

  /** An acceptable batch whose attempts all fail without effect is not stored, and not committed; one that
      is stored exactly once is stored by the only attempt that has an effect: an acknowledged one after
      attempts without effect, or one with a lost answer before and after attempts without effect. */
  lemma StoredOnceIff(c: Call)
    requires ValidCall(c) && c.job.body.Some? && Acceptable(c.job.body.value)
    ensures |Additions(c)| == 1 <==>
            exists k :: 0 <= k < Attempts(c) && c.outcomes[k] != NotApplied
                        && forall j :: 0 <= j < Attempts(c) && j != k ==> c.outcomes[j] == NotApplied
    ensures |Additions(c)| == 0 <==> forall k :: 0 <= k < 4 ==> c.outcomes[k] == NotApplied
  {
    var b, n := c.job.body.value, AttemptsFrom(c.outcomes, 0);
    ValidationExact(b);
    AttemptsFromExact(c.outcomes, 0);
    CopiesTwice(b, c.times, c.outcomes, n);
    CopiesAreOf(b, c.times, c.outcomes, n);
    if |Additions(c)| == 1 {
      var k :| 0 <= k < n && c.outcomes[k] != NotApplied;
      forall j | 0 <= j < n && j != k ensures c.outcomes[j] == NotApplied {
        assert !AppliedBefore(c.outcomes, k);
        assert j > k ==> AppliedBefore(c.outcomes, j);
      }
    }
  }

  /** Storage and commits after any sequence of calls. */
  function Consume(calls: seq<Call>): (seq<Saved>, seq<int>)
    requires forall i :: 0 <= i < |calls| ==> ValidCall(calls[i])
  {
    if calls == [] then ([], [])
    else
      var (saved, commits) := Consume(calls[..|calls|-1]);
      var c := calls[|calls|-1];
      (saved + Additions(c), if Commits(c) then commits + [c.job.offset] else commits)
  }

  /** In every run, whatever is stored is acceptable and was received, every commit is of a message that is
      malformed, unacceptable or stored, and a message none of whose calls commits is not committed. */
  lemma {:induction false} RunGuarantees(calls: seq<Call>)
    requires forall i :: 0 <= i < |calls| ==> ValidCall(calls[i])
    ensures forall x :: x in Consume(calls).0 ==>
              Acceptable(x.batch) && exists i :: 0 <= i < |calls| && calls[i].job.body == Some(x.batch)
    ensures forall offset :: offset in Consume(calls).1 <==>
              exists i :: 0 <= i < |calls| && calls[i].job.offset == offset && Commits(calls[i])
    ensures forall i :: 0 <= i < |calls| && Commits(calls[i]) && calls[i].job.body.Some? && Acceptable(calls[i].job.body.value) ==>
              exists x :: x in Consume(calls).0 && x.batch == calls[i].job.body.value
  {
    if calls != [] {
      hide Commits, Additions, Acceptable;
      var before, c := calls[..|calls|-1], calls[|calls|-1];
      RunGuarantees(before);
      ProcessGuarantees(c);
      forall x | x in Consume(calls).0
        ensures Acceptable(x.batch) && exists i :: 0 <= i < |calls| && calls[i].job.body == Some(x.batch)
      {
        if x in Consume(before).0 {
          var i :| 0 <= i < |before| && before[i].job.body == Some(x.batch);
          assert calls[i].job.body == Some(x.batch);
        }
      }
      forall offset ensures offset in Consume(calls).1 <==>
                            exists i :: 0 <= i < |calls| && calls[i].job.offset == offset && Commits(calls[i])
      {
        if offset in Consume(before).1 {
          var i :| 0 <= i < |before| && before[i].job.offset == offset && Commits(before[i]);
          assert calls[i].job.offset == offset;
        }
        if exists i :: 0 <= i < |calls| && calls[i].job.offset == offset && Commits(calls[i]) {
          var i :| 0 <= i < |calls| && calls[i].job.offset == offset && Commits(calls[i]);
          assert i < |before| ==> before[i].job.offset == offset && Commits(before[i]);
        }
      }
      forall i | 0 <= i < |calls| && Commits(calls[i]) && calls[i].job.body.Some? && Acceptable(calls[i].job.body.value)
        ensures exists x :: x in Consume(calls).0 && x.batch == calls[i].job.body.value
      {
        if i < |before| {
          assert Commits(before[i]);
          var x :| x in Consume(before).0 && x.batch == before[i].job.body.value;
          assert x in Consume(calls).0;
        } else {
          assert Additions(c)[0] in Additions(c);
          assert Additions(c)[0] in Consume(calls).0;
        }
      }
    }
  }
}
