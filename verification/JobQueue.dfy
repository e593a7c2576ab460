/** The bounded queue between the one goroutine that fetches from the broker and the workers.

When the queue is full the producer drops the oldest waiting message and sends again. Workers take
messages between any two of the producer's steps. Messages are numbered in the order of their fetching. */
module JobQueue {
  import opened Wrappers

  /** Where the producer stands: fetching, before the first attempt to send, after it failed, or before the
      send that would block on a full queue. */
  datatype Producer = Fetching | Trying(m: nat) | Dropping(m: nat) | Sending(m: nat)

  /** How a message left the queue. */
  datatype Departure = TakenBy(w: int) | DroppedFor(m: nat)

  /** `departures[i]` tells how message i left; `inFlight` holds what each busy worker processes; a finished
      message was committed, or its handling failed. */
  datatype State = State(capacity: nat, queue: seq<nat>, fetched: nat, producer: Producer, departures: seq<Departure>,
                         inFlight: map<int, nat>, finished: seq<nat>, commits: seq<nat>, failed: seq<nat>)

  datatype Step = Fetch | TrySend | DropOldest | Send | Take(w: int) | Finish(w: int, commit: bool)

  function Start(capacity: nat): State {
    State(capacity, [], 0, Fetching, [], map[], [], [], [])
  }

  function Apply(s: State, step: Step): Option<State> {
    match step
    case Fetch =>
      if s.producer == Fetching then Some(s.(fetched := s.fetched + 1, producer := Trying(s.fetched))) else None
    case TrySend =>
      if !s.producer.Trying? then None
      else if |s.queue| < s.capacity then Some(s.(queue := s.queue + [s.producer.m], producer := Fetching))
      else Some(s.(producer := Dropping(s.producer.m)))
    case DropOldest =>
      if !s.producer.Dropping? then None
      else if s.queue == [] then Some(s.(producer := Sending(s.producer.m)))
      else Some(s.(queue := s.queue[1..], producer := Sending(s.producer.m),
                   departures := s.departures + [DroppedFor(s.producer.m)]))
    case Send =>
      if s.producer.Sending? && |s.queue| < s.capacity
      then Some(s.(queue := s.queue + [s.producer.m], producer := Fetching)) else None
    case Take(w) =>
      if w !in s.inFlight && s.queue != []
      then Some(s.(queue := s.queue[1..], departures := s.departures + [TakenBy(w)], inFlight := s.inFlight[w := s.queue[0]]))
      else None
    case Finish(w, commit) =>
      if w in s.inFlight
      then Some(s.(inFlight := s.inFlight - {w}, finished := s.finished + [s.inFlight[w]],
                   commits := if commit then s.commits + [s.inFlight[w]] else s.commits,
                   failed := if commit then s.failed else s.failed + [s.inFlight[w]]))
      else None
  }

  function Exec(s: State, steps: seq<Step>): Option<State> {
    if steps == [] then Some(s)
    else
      match Exec(s, steps[..|steps|-1])
      case None => None
      case Some(t) => Apply(t, steps[|steps|-1])
  }

  /** How many messages the producer holds that are not in the queue yet. */
  function InHand(p: Producer): nat {
    if p == Fetching then 0 else 1
  }

  // ----- the invariant -----

  /** The queue holds consecutive messages: all that were sent and have not left. */
  ghost predicate QueueInv(s: State) {
    && (forall i :: 0 <= i < |s.queue| ==> s.queue[i] == |s.departures| + i)
    && s.fetched == |s.departures| + |s.queue| + InHand(s.producer)
    && (s.producer != Fetching ==> s.producer.m == s.fetched - 1)
    && |s.queue| <= s.capacity && (s.producer.Sending? ==> |s.queue| < s.capacity)
  }

  /** The first message whose fetch has not dropped anything yet. */
  function Undropped(s: State): nat {
    if s.producer.Trying? || s.producer.Dropping? then s.producer.m else s.fetched
  }

  /** Drops are made for messages in increasing order, each for one that was at most a queue's length
      behind. */
  ghost predicate DropInv(s: State) {
    && (forall i :: 0 <= i < |s.departures| && s.departures[i].DroppedFor? ==>
          i < s.departures[i].m <= i + s.capacity && s.departures[i].m < Undropped(s))
    && (forall i, j :: 0 <= i < j < |s.departures| && s.departures[i].DroppedFor? && s.departures[j].DroppedFor? ==>
          s.departures[i].m < s.departures[j].m)
  }

  ghost predicate Taken(s: State, m: nat) {
    m < |s.departures| && s.departures[m].TakenBy?
  }

  ghost predicate FlightInv(s: State) {
    && (forall w :: w in s.inFlight ==> Taken(s, s.inFlight[w]) && s.departures[s.inFlight[w]].w == w && s.inFlight[w] !in s.finished)
    && (forall i :: 0 <= i < |s.finished| ==> Taken(s, s.finished[i]))
    && (forall i, j :: 0 <= i < j < |s.finished| ==> s.finished[i] != s.finished[j])
    && (forall m: nat :: Taken(s, m) ==>
          m in s.finished || (s.departures[m].w in s.inFlight && s.inFlight[s.departures[m].w] == m))
    && (forall m :: m in s.finished <==> m in s.commits || m in s.failed)
    && (forall m :: m in s.commits ==> m !in s.failed)
  }

  function Drops(departures: seq<Departure>): nat {
    if departures == [] then 0
    else Drops(departures[..|departures|-1]) + (if departures[|departures|-1].DroppedFor? then 1 else 0)
  }

  ghost predicate Conserved(s: State) {
    s.fetched == |s.queue| + InHand(s.producer) + |s.inFlight.Keys| + Drops(s.departures) + |s.finished|
  }

  ghost predicate Inv(s: State) {
    QueueInv(s) && DropInv(s) && FlightInv(s) && Conserved(s)
  }

  lemma StartInv(capacity: nat)
    ensures Inv(Start(capacity))
  {}

  lemma DropsNext(departures: seq<Departure>, d: Departure)
    ensures Drops(departures + [d]) == Drops(departures) + (if d.DroppedFor? then 1 else 0)
  {
    assert (departures + [d])[..|departures|] == departures;
  }

  lemma StepKeepsQueue(s: State, step: Step)
    requires s.capacity > 0 && QueueInv(s) && Apply(s, step).Some?
    ensures QueueInv(Apply(s, step).value)
  {}

  lemma DropKeepsDrops(s: State)
    requires QueueInv(s) && DropInv(s) && Apply(s, DropOldest).Some?
    ensures DropInv(Apply(s, DropOldest).value)
  {}

  lemma TakeKeepsDrops(s: State, w: int)
    requires DropInv(s) && Apply(s, Take(w)).Some?
    ensures DropInv(Apply(s, Take(w)).value)
  {}

  lemma StepKeepsDrops(s: State, step: Step)
    requires QueueInv(s) && DropInv(s) && Apply(s, step).Some?
    ensures DropInv(Apply(s, step).value)
  {
    if step == DropOldest {
      DropKeepsDrops(s);
    } else if step.Take? {
      TakeKeepsDrops(s, step.w);
    } else {
      hide QueueInv;
    }
  }

  lemma StepKeepsFlights(s: State, step: Step)
    requires QueueInv(s) && FlightInv(s) && Apply(s, step).Some?
    ensures FlightInv(Apply(s, step).value)
  {
    hide QueueInv;
    match step {
      case Take(w) => TakeKeepsFlights(s, w);
      case Finish(w, commit) => FinishKeepsFlights(s, w, commit);
      case _ =>
    }
  }

  lemma TakeKeepsFlights(s: State, w: int)
    requires QueueInv(s) && FlightInv(s) && Apply(s, Take(w)).Some?
    ensures FlightInv(Apply(s, Take(w)).value)
  {}

  lemma FinishKeepsFlights(s: State, w: int, commit: bool)
    requires FlightInv(s) && Apply(s, Finish(w, commit)).Some?
    ensures FlightInv(Apply(s, Finish(w, commit)).value)
  {}

  lemma TakeConserves(s: State, w: int)
    requires Conserved(s) && Apply(s, Take(w)).Some?
    ensures Conserved(Apply(s, Take(w)).value)
  {
    hide Drops;
    DropsNext(s.departures, TakenBy(w));
    KeysGrow(s.inFlight, w, s.queue[0]);
  }

  lemma FinishConserves(s: State, w: int, commit: bool)
    requires Conserved(s) && Apply(s, Finish(w, commit)).Some?
    ensures Conserved(Apply(s, Finish(w, commit)).value)
  {
    hide Drops;
    KeysShrink(s.inFlight, w);
  }

  lemma ProducerConserves(s: State, step: Step)
    requires Conserved(s) && Apply(s, step).Some? && !step.Take? && !step.Finish?
    ensures Conserved(Apply(s, step).value)
  {
    hide Drops;
    if step == DropOldest {
      DropsNext(s.departures, DroppedFor(s.producer.m));
    }
  }

  lemma StepConserves(s: State, step: Step)
    requires Conserved(s) && Apply(s, step).Some?
    ensures Conserved(Apply(s, step).value)
  {
    hide Conserved, Apply;
    match step {
      case Take(w) => TakeConserves(s, w);
      case Finish(w, commit) => FinishConserves(s, w, commit);
      case _ => ProducerConserves(s, step);
    }
  }

  lemma KeysGrow(flights: map<int, nat>, w: int, m: nat)
    requires w !in flights
    ensures |flights[w := m].Keys| == |flights.Keys| + 1
  {
    assert flights[w := m].Keys == flights.Keys + {w};
  }

  lemma KeysShrink(flights: map<int, nat>, w: int)
    requires w in flights
    ensures |flights.Keys| == |(flights - {w}).Keys| + 1
  {
    assert (flights - {w}).Keys == flights.Keys - {w};
  }

  lemma StepKeepsInv(s: State, step: Step)
    requires s.capacity > 0 && Inv(s) && Apply(s, step).Some?
    ensures Inv(Apply(s, step).value) && Apply(s, step).value.capacity == s.capacity
  {
    hide QueueInv, DropInv, FlightInv, Conserved;
    StepKeepsQueue(s, step);
    StepKeepsDrops(s, step);
    StepKeepsFlights(s, step);
    StepConserves(s, step);
  }

  lemma {:induction false} RunKeepsInv(capacity: nat, steps: seq<Step>)
    requires capacity > 0 && Exec(Start(capacity), steps).Some?
    ensures Inv(Exec(Start(capacity), steps).value) && Exec(Start(capacity), steps).value.capacity == capacity
  {
    hide Apply, Inv;
    if steps == [] {
      StartInv(capacity);
    } else {
      RunKeepsInv(capacity, steps[..|steps|-1]);
      StepKeepsInv(Exec(Start(capacity), steps[..|steps|-1]).value, steps[|steps|-1]);
    }
  }

  // ----- what every run guarantees -----

  /** The queue never exceeds its capacity and holds consecutive messages in the order of their fetching;
      the send after the drop never has to wait; and every fetched message is queued, in the producer's
      hand, in flight, dropped or finished, in numbers that add up. */
  lemma QueueNeverBlocks(capacity: nat, steps: seq<Step>)
    requires capacity > 0 && Exec(Start(capacity), steps).Some?
    ensures var s := Exec(Start(capacity), steps).value;
            && |s.queue| <= capacity
            && (forall i :: 0 <= i < |s.queue| ==> s.queue[i] == |s.departures| + i)
            && (s.producer.Sending? ==> Apply(s, Send).Some?)
            && s.fetched == |s.queue| + InHand(s.producer) + |s.inFlight.Keys| + Drops(s.departures) + |s.finished|
  {
    hide Exec, Drops, DropInv, FlightInv;
    RunKeepsInv(capacity, steps);
  }

  /** A dropped message had waited longest and was at most a queue's length behind the one it was dropped
      for. */
  lemma DropWithinReach(capacity: nat, steps: seq<Step>, i: nat)
    requires capacity > 0 && Exec(Start(capacity), steps).Some?
    requires var s := Exec(Start(capacity), steps).value; i < |s.departures| && s.departures[i].DroppedFor?
    ensures var s := Exec(Start(capacity), steps).value;
            i < s.departures[i].m <= i + capacity && s.departures[i].m < s.fetched
  {
    hide Exec, FlightInv, Conserved;
    RunKeepsInv(capacity, steps);
  }

  /** Every fetch drops at most one message: later drops are made for later fetches. */
  lemma OneDropPerFetch(capacity: nat, steps: seq<Step>, i: nat, j: nat)
    requires capacity > 0 && Exec(Start(capacity), steps).Some?
    requires var s := Exec(Start(capacity), steps).value;
             i < j < |s.departures| && s.departures[i].DroppedFor? && s.departures[j].DroppedFor?
    ensures var s := Exec(Start(capacity), steps).value; s.departures[i].m < s.departures[j].m
  {
    hide Exec, FlightInv, Conserved;
    RunKeepsInv(capacity, steps);
  }

  /** A message whose offset is committed was taken by a worker and processed once; no dropped message is
      ever committed. */
  lemma CommittedWasProcessed(capacity: nat, steps: seq<Step>, m: nat)
    requires capacity > 0 && Exec(Start(capacity), steps).Some? && m in Exec(Start(capacity), steps).value.commits
    ensures var s := Exec(Start(capacity), steps).value;
            m < |s.departures| && s.departures[m].TakenBy? && multiset(s.finished)[m] == 1
  {
    hide Exec, QueueInv, DropInv, Conserved;
    RunKeepsInv(capacity, steps);
    DistinctOnce(Exec(Start(capacity), steps).value.finished, m);
  }

  lemma {:induction false} DistinctOnce(ms: seq<nat>, m: nat)
    requires m in ms && forall i, j :: 0 <= i < j < |ms| ==> ms[i] != ms[j]
    ensures multiset(ms)[m] == 1
  {
    var before := ms[..|ms|-1];
    assert ms == before + [ms[|ms|-1]];
    if m in before {
      DistinctOnce(before, m);
    }
  }

  // ----- what the queue does not guarantee -----

  lemma ExecAppend(s: State, steps: seq<Step>, step: Step)
    requires Exec(s, steps).Some?
    ensures Exec(s, steps + [step]) == Apply(Exec(s, steps).value, step)
  {
    assert (steps + [step])[..|steps|] == steps;
  }

  /** Without workers the queue fills up. */
  lemma {:induction false} FillUp(capacity: nat, n: nat) returns (steps: seq<Step>)
    requires n <= capacity
    ensures Exec(Start(capacity), steps).Some?
    ensures var s := Exec(Start(capacity), steps).value;
            && s == Start(capacity).(queue := s.queue, fetched := n)
            && |s.queue| == n && forall i :: 0 <= i < n ==> s.queue[i] == i
  {
    hide Exec;
    steps := [];
    if n == 0 {
      ExecNone(Start(capacity));
    } else {
      steps := FillUp(capacity, n - 1);
      ExecAppend(Start(capacity), steps, Fetch);
      ExecAppend(Start(capacity), steps + [Fetch], TrySend);
      steps := steps + [Fetch] + [TrySend];
    }
  }

  lemma ExecNone(s: State)
    ensures Exec(s, []) == Some(s)
  {}

  /** Whatever the capacity, the offset of a later message can be committed while an earlier one was
      dropped; a restart from that offset never sees the dropped one again. */
  lemma CommitPassesDropped(capacity: nat, w: int) returns (steps: seq<Step>)
    requires capacity > 0
    ensures Exec(Start(capacity), steps).Some?
    ensures var s := Exec(Start(capacity), steps).value;
            s.departures == [DroppedFor(capacity), TakenBy(w)] && s.commits == [1]
  {
    hide Exec;
    steps := FillUp(capacity, capacity);
    ExecAppend(Start(capacity), steps, Fetch);
    steps := steps + [Fetch];
    ExecAppend(Start(capacity), steps, TrySend);
    steps := steps + [TrySend];
    ExecAppend(Start(capacity), steps, DropOldest);
    steps := steps + [DropOldest];
    ExecAppend(Start(capacity), steps, Send);
    steps := steps + [Send];
    ExecAppend(Start(capacity), steps, Take(w));
    steps := steps + [Take(w)];
    ExecAppend(Start(capacity), steps, Finish(w, true));
    steps := steps + [Finish(w, true)];
  }

  lemma {:induction false} ExecConcat(s: State, first: seq<Step>, more: seq<Step>)
    requires Exec(s, first).Some?
    ensures Exec(s, first + more) == Exec(Exec(s, first).value, more)
  {
    if more == [] {
      assert first + more == first;
    } else {
      assert (first + more)[..|first + more| - 1] == first + more[..|more|-1];
      ExecConcat(s, first, more[..|more|-1]);
    }
  }

  lemma ExecTwo(s: State, first: Step, second: Step)
    requires Apply(s, first).Some?
    ensures Exec(s, [first, second]) == Apply(Apply(s, first).value, second)
  {
    hide Apply;
    assert [first, second][..1] == [first] && [first][..0] == [];
    assert Exec(s, [first]) == Apply(s, first);
  }

  lemma FetchedAndSent(s: State)
    requires s.capacity > 0 && s.queue == [] && s.producer == Fetching
    ensures Exec(s, [Fetch, TrySend]) == Some(s.(fetched := s.fetched + 1, queue := [s.fetched]))
  {
    hide Exec;
    ExecTwo(s, Fetch, TrySend);
    assert [] + [s.fetched] == [s.fetched];
  }

  lemma TakenAndFinished(s: State, w: int, commit: bool)
    requires |s.queue| == 1 && w !in s.inFlight
    ensures Exec(s, [Take(w), Finish(w, commit)])
            == Some(s.(queue := [], departures := s.departures + [TakenBy(w)], finished := s.finished + [s.queue[0]],
                       commits := if commit then s.commits + [s.queue[0]] else s.commits,
                       failed := if commit then s.failed else s.failed + [s.queue[0]]))
  {
    hide Exec;
    ExecTwo(s, Take(w), Finish(w, commit));
    assert s.queue[1..] == [];
    assert s.inFlight[w := s.queue[0]] - {w} == s.inFlight;
  }

  /** One message fetched, sent, taken and finished before anything else happens. */
  function HandleOne(w: int, commit: bool): seq<Step> {
    [Fetch, TrySend] + [Take(w), Finish(w, commit)]
  }

  lemma OneHandled(s: State, w: int, commit: bool)
    requires s.capacity > 0 && s.queue == [] && s.producer == Fetching && w !in s.inFlight
    ensures Exec(s, HandleOne(w, commit))
            == Some(s.(fetched := s.fetched + 1, departures := s.departures + [TakenBy(w)], finished := s.finished + [s.fetched],
                       commits := if commit then s.commits + [s.fetched] else s.commits,
                       failed := if commit then s.failed else s.failed + [s.fetched]))
  {
    hide Exec, Apply;
    FetchedAndSent(s);
    TakenAndFinished(Exec(s, [Fetch, TrySend]).value, w, commit);
    ExecConcat(s, [Fetch, TrySend], [Take(w), Finish(w, commit)]);
  }

  /** The same happens without any drop: a message whose handling failed is passed by the next one. */
  lemma CommitPassesFailed(capacity: nat, w: int)
    requires capacity > 0
    ensures var run := HandleOne(w, false) + HandleOne(w, true);
            && Exec(Start(capacity), run).Some?
            && var s := Exec(Start(capacity), run).value;
               Drops(s.departures) == 0 && s.inFlight == map[] && s.failed == [0] && s.commits == [1]
  {
    hide Exec, HandleOne;
    OneHandled(Start(capacity), w, false);
    OneHandled(Exec(Start(capacity), HandleOne(w, false)).value, w, true);
    ExecConcat(Start(capacity), HandleOne(w, false), HandleOne(w, true));
    DropsNext([], TakenBy(w));
    DropsNext([] + [TakenBy(w)], TakenBy(w));
  }

  /** Nor does anything have to fail: a worker still busy with a message is passed by a faster one. */
  lemma CommitPassesInFlight(capacity: nat, v: int, w: int)
    requires capacity > 0 && v != w
    ensures var run := [Fetch, TrySend] + [Take(v)] + HandleOne(w, true);
            && Exec(Start(capacity), run).Some?
            && var s := Exec(Start(capacity), run).value;
               s.departures == [TakenBy(v), TakenBy(w)] && s.inFlight == map[v := 0] && s.failed == [] && s.commits == [1]
  {
    hide Exec, HandleOne;
    var s := Start(capacity);
    FetchedAndSent(s);
    ExecAppend(s, [Fetch, TrySend], Take(v));
    OneHandled(Exec(s, [Fetch, TrySend] + [Take(v)]).value, w, true);
    ExecConcat(s, [Fetch, TrySend] + [Take(v)], HandleOne(w, true));
  }

  ghost predicate BeingHandled(s: State, i: nat) {
    exists w :: w in s.inFlight && s.inFlight[w] == i
  }

  /** A message that has left the queue is committed exactly if it was not dropped, is not being handled and
      its handling has not failed. */
  lemma CommittedIff(s: State, i: nat)
    requires FlightInv(s) && i < |s.departures|
    ensures i in s.commits <==> !s.departures[i].DroppedFor? && !BeingHandled(s, i) && i !in s.failed
  {
    if i in s.commits {
      assert i in s.finished;
      assert Taken(s, i);
    }
    if s.departures[i].TakenBy? {
      assert Taken(s, i);
    }
  }

  /** When is a restart from a committed offset safe? In every run, all messages below a committed one are
      committed themselves if and only if none of them was dropped, none is still being handled, and the
      handling of none has failed. */
  lemma AtLeastOnceIff(capacity: nat, steps: seq<Step>, m: nat)
    requires capacity > 0 && Exec(Start(capacity), steps).Some? && m in Exec(Start(capacity), steps).value.commits
    ensures var s := Exec(Start(capacity), steps).value;
            && m < |s.departures|
            && ((forall i: nat :: i < m ==> i in s.commits)
                <==> forall i: nat :: i < m ==>
                       !s.departures[i].DroppedFor? && !BeingHandled(s, i) && i !in s.failed)
  {
    hide Exec, QueueInv, DropInv, Conserved;
    RunKeepsInv(capacity, steps);
    var s := Exec(Start(capacity), steps).value;
    assert Taken(s, m);
    forall i: nat | i < m
      ensures i in s.commits <==> !s.departures[i].DroppedFor? && !BeingHandled(s, i) && i !in s.failed
    {
      CommittedIff(s, i);
    }
  }

  /** Steps of workers only. */
  predicate ByWorkers(steps: seq<Step>) {
    forall i :: 0 <= i < |steps| ==> steps[i].Take? || steps[i].Finish?
  }

  lemma WorkerStep(s: State, step: Step)
    requires Apply(s, step).Some? && (step.Take? || step.Finish?)
    ensures var t := Apply(s, step).value;
            && t.producer == s.producer && t.capacity == s.capacity
            && |t.queue| == |s.queue| - (if step.Take? then 1 else 0)
  {}

  lemma {:induction false} WorkersShrink(s: State, steps: seq<Step>)
    requires Exec(s, steps).Some? && ByWorkers(steps)
    ensures var t := Exec(s, steps).value;
            && t.producer == s.producer && t.capacity == s.capacity && |t.queue| <= |s.queue|
            && (|t.queue| == |s.queue| <==> forall i :: 0 <= i < |steps| ==> !steps[i].Take?)
  {
    hide Apply;
    if steps != [] {
      var before, last := steps[..|steps|-1], steps[|steps|-1];
      assert steps == before + [last];
      WorkersShrink(s, before);
      WorkerStep(Exec(s, before).value, last);
      if forall i :: 0 <= i < |steps| ==> !steps[i].Take? {
        assert forall i :: 0 <= i < |before| ==> !steps[i].Take?;
      } else if !last.Take? {
        var i :| 0 <= i < |steps| && steps[i].Take?;
        assert before[i].Take?;
      }
    }
  }

  /** After a failed attempt to send and whatever the workers do next, the drop frees a slot that is needed
      exactly if none of them took a message; otherwise the queue has room already and a message is lost all
      the same. */
  lemma DropWasNeededIff(s: State, between: seq<Step>)
    requires s.producer.Dropping? && |s.queue| == s.capacity && ByWorkers(between)
    requires Exec(s, between).Some? && Exec(s, between).value.queue != []
    ensures var t := Exec(s, between).value;
            && Apply(t, DropOldest).Some?
            && Apply(t, DropOldest).value.departures == t.departures + [DroppedFor(s.producer.m)]
            && (|t.queue| == t.capacity <==> forall i :: 0 <= i < |between| ==> !between[i].Take?)
  {
    hide Exec;
    WorkersShrink(s, between);
  }

  // ----- one message, when no worker interferes -----

  function Newest(queue: seq<nat>, n: nat): seq<nat> {
    if |queue| <= n then queue else queue[|queue| - n..]
  }

  class Jobs {
    const capacity: nat
    var queue: seq<nat>

    constructor (capacity: int)
      ensures this.capacity == (if capacity <= 0 then 256 else capacity) && queue == []
    {
      this.capacity := if capacity <= 0 then 256 else capacity;
      queue := [];
    }

    /** A send that does not wait. */
    method TrySend(m: nat) returns (sent: bool)
      modifies this`queue
      ensures sent == (|old(queue)| < capacity)
      ensures queue == if sent then old(queue) + [m] else old(queue)
    {
      sent := |queue| < capacity;
      if sent {
        queue := queue + [m];
      }
    }

    /** A receive that does not wait. */
    method TryReceive() returns (m: Option<nat>)
      modifies this`queue
      ensures m == if old(queue) == [] then None else Some(old(queue)[0])
      ensures queue == if old(queue) == [] then [] else old(queue)[1..]
    {
      if queue == [] {
        return None;
      }
      m := Some(queue[0]);
      queue := queue[1..];
    }

    /** Afterwards the queue holds the newest messages, in order. */
    method Enqueue(m: nat)
      requires 0 < capacity && |queue| <= capacity
      modifies this`queue
      ensures queue == Newest(old(queue) + [m], capacity)
      ensures queue == (if |old(queue)| < capacity then old(queue) else old(queue)[1..]) + [m]
    {
      var sent := TrySend(m);
      if !sent {
        var _ := TryReceive();
        var fits := TrySend(m);
        assert fits;
      }
    }
  }

  /** The producer's steps without interference leave the same queue. */
  lemma EnqueueIsRun(s: State) returns (steps: seq<Step>)
    requires 0 < s.capacity && Inv(s) && s.producer == Fetching
    ensures Exec(s, steps).Some? && Exec(s, steps).value.producer == Fetching
    ensures Exec(s, steps).value.queue == Newest(s.queue + [s.fetched], s.capacity)
  {
    hide Exec, FlightInv, DropInv, Conserved;
    ExecNone(s);
    ExecAppend(s, [], Fetch);
    steps := [] + [Fetch];
    ExecAppend(s, steps, TrySend);
    steps := steps + [TrySend];
    if |s.queue| == s.capacity {
      ExecAppend(s, steps, DropOldest);
      steps := steps + [DropOldest];
      ExecAppend(s, steps, Send);
      steps := steps + [Send];
    }
  }
}
