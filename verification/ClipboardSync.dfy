/** The sync barrier of one clipboard connection. Threads share the connection, one
  * serial counter and one `synced` maximum; taking a serial and queueing its sync
  * request are two steps, so serials can be queued out of order and a waiter can be
  * released by another thread's answer. The compositor handles requests in order and
  * its events arrive in order (Wayland core protocol, wl_display.sync request).
  */
module ClipboardSync {
  import opened Options

  type Contents = seq<(string, seq<bv8>)>

  datatype Request = SetSelection(contents: Contents) | Sync(serial: nat) | Other

  datatype Event = Selection | PrimarySelection | Done(serial: nat) | Finished

  /** The state the event handlers update under the mutex. */
  datatype Watch = Watch(generation: nat, primaryGeneration: nat, synced: nat, ended: bool)

  function Handle(watch: Watch, event: Event): Watch {
    match event
    case Selection => watch.(generation := watch.generation + 1)
    case PrimarySelection => watch.(primaryGeneration := watch.primaryGeneration + 1)
    case Done(serial) => watch.(synced := if watch.synced < serial then serial else watch.synced)
    case Finished => watch.(ended := true)
  }

  /** A thread inside `sync` remembers its serial; `mark` is how many requests were
    * queued when it took the serial.
    */
  datatype Phase = Running | Numbered(serial: nat, mark: nat) | Waiting(serial: nat, mark: nat)

  /** `queue` is every request ever queued, of which the compositor handled the first
    * `processed`; `sent` is every event it sent, of which the first `dispatched` were
    * handled. `answered[i]` is how many events were sent once request i was handled.
    */
  datatype Connection = Connection(
    queue: seq<Request>,
    processed: nat,
    answered: seq<nat>,
    sent: seq<Event>,
    dispatched: nat,
    nextSync: nat,
    watch: Watch,
    threads: map<nat, Phase>)

  datatype Step =
    | Queue(thread: nat, request: Request)
    | Number(thread: nat)
    | QueueSync(thread: nat)
    | Process
    | Elsewhere(event: Event)
    | Dispatch
    | Release(thread: nat)
    | TimeOut(thread: nat)

  function PhaseOf(c: Connection, thread: nat): Phase {
    if thread in c.threads then c.threads[thread] else Running
  }

  function Answers(request: Request): seq<Event> {
    match request
    case SetSelection(_) => [Selection]
    case Sync(serial) => [Done(serial)]
    case Other => []
  }

  function Next(c: Connection, step: Step): Option<Connection> {
    match step
    case Queue(thread, request) =>
      if PhaseOf(c, thread) != Running || request.Sync? then None
      else Some(c.(queue := c.queue + [request]))
    case Number(thread) =>
      if PhaseOf(c, thread) != Running then None
      else Some(c.(nextSync := c.nextSync + 1, threads := c.threads[thread := Numbered(c.nextSync + 1, |c.queue|)]))
    case QueueSync(thread) =>
      var phase := PhaseOf(c, thread);
      if !phase.Numbered? then None
      else Some(c.(queue := c.queue + [Sync(phase.serial)],
                   threads := c.threads[thread := Waiting(phase.serial, phase.mark)]))
    case Process =>
      if |c.queue| <= c.processed then None
      else
        var sent := c.sent + Answers(c.queue[c.processed]);
        Some(c.(processed := c.processed + 1, sent := sent, answered := c.answered + [|sent|]))
    case Elsewhere(event) =>
      if event.Done? then None else Some(c.(sent := c.sent + [event]))
    case Dispatch =>
      if |c.sent| <= c.dispatched then None
      else Some(c.(dispatched := c.dispatched + 1, watch := Handle(c.watch, c.sent[c.dispatched])))
    case Release(thread) =>
      var phase := PhaseOf(c, thread);
      if !phase.Waiting? || c.watch.synced < phase.serial then None
      else Some(c.(threads := c.threads[thread := Running]))
    case TimeOut(thread) =>
      if !PhaseOf(c, thread).Waiting? then None else Some(c.(threads := c.threads[thread := Running]))
  }

  /** The connection as `spawn` leaves it: two round trips are over, serials go on from 2. */
  const OPENED: Connection :=
    Connection([Sync(1), Sync(2)], 2, [1, 2], [Done(1), Done(2)], 2, 2, Watch(0, 0, 2, false), map[])

  /** How often an event is among some. */
  function Count(event: Event, events: seq<Event>): nat {
    if events == [] then 0
    else Count(event, events[..|events| - 1]) + if events[|events| - 1] == event then 1 else 0
  }

  ghost predicate AnsweredInOrder(c: Connection) {
    && c.processed <= |c.queue| && |c.answered| == c.processed && c.dispatched <= |c.sent|
    && (forall i, j :: 0 <= i <= j < c.processed ==> c.answered[i] <= c.answered[j])
    && (forall i :: 0 <= i < c.processed ==> c.answered[i] <= |c.sent|)
  }

  /** Every answer belongs to a sync request that was handled just then. */
  ghost predicate AnswersAreReal(c: Connection)
    requires AnsweredInOrder(c)
  {
    forall e :: 0 <= e < |c.sent| && c.sent[e].Done? ==> AnswerTo(c, e)
  }

  ghost predicate AnswerTo(c: Connection, e: nat)
    requires AnsweredInOrder(c) && e < |c.sent|
  {
    exists p ::
      0 <= p < c.processed && c.queue[p].Sync? && c.sent[e] == Done(c.queue[p].serial) && c.answered[p] == e + 1
  }

  ghost predicate WatchIsCurrent(c: Connection)
    requires c.dispatched <= |c.sent|
  {
    && c.watch.generation == Count(Selection, c.sent[..c.dispatched])
    && c.watch.primaryGeneration == Count(PrimarySelection, c.sent[..c.dispatched])
    && (c.watch.ended <==> Count(Finished, c.sent[..c.dispatched]) > 0)
    && (exists e :: 0 <= e < c.dispatched && c.sent[e] == Done(c.watch.synced))
    && (forall e :: 0 <= e < c.dispatched && c.sent[e].Done? ==> c.sent[e].serial <= c.watch.synced)
  }

  /** No serial in use has not been taken, and no mark is ahead of the queue. */
  ghost predicate SerialsAreTaken(c: Connection) {
    && (forall p :: 0 <= p < |c.queue| && c.queue[p].Sync? ==> c.queue[p].serial <= c.nextSync)
    && (forall t :: t in c.threads && c.threads[t] != Running ==>
          c.threads[t].mark <= |c.queue| && c.threads[t].serial <= c.nextSync)
  }

  /** A sync request with a thread's serial or a larger one was queued after everything
    * that was queued when the thread took its serial.
    */
  ghost predicate MarksHold(c: Connection) {
    && SerialsAreTaken(c)
    && (forall t, p :: t in c.threads && c.threads[t] != Running && 0 <= p < c.threads[t].mark && p < |c.queue| ==>
          c.queue[p].Sync? ==> c.queue[p].serial < c.threads[t].serial)
  }

  /** Every sync request that was handled has its answer among the events, and every waiting
    * thread its sync request in the queue.
    */
  ghost predicate NoneIsForgotten(c: Connection)
    requires AnsweredInOrder(c)
  {
    && (forall p :: 0 <= p < c.processed && c.queue[p].Sync? ==> Done(c.queue[p].serial) in c.sent)
    && (forall t :: t in c.threads && c.threads[t].Waiting? ==> Sync(c.threads[t].serial) in c.queue)
  }

  ghost predicate Inv(c: Connection) {
    AnsweredInOrder(c) && AnswersAreReal(c) && WatchIsCurrent(c) && MarksHold(c) && NoneIsForgotten(c)
  }

  lemma OpenedInv()
    ensures Inv(OPENED)
  {
    var c := OPENED;
    assert c.queue[0].Sync? && c.sent[0] == Done(c.queue[0].serial) && c.answered[0] == 1;
    assert c.queue[1].Sync? && c.sent[1] == Done(c.queue[1].serial) && c.answered[1] == 2;
    assert AnswerTo(c, 0) && AnswerTo(c, 1);
    assert c.sent[..2] == [Done(1), Done(2)];
    assert [Done(1), Done(2)][..1] == [Done(1)];
    assert c.sent[1] == Done(c.watch.synced);
  }

  lemma AnswersStayInOrder(c: Connection, step: Step)
    requires AnsweredInOrder(c) && Next(c, step).Some?
    ensures AnsweredInOrder(Next(c, step).value)
  {
  }

  lemma AnswersStayReal(c: Connection, step: Step)
    requires AnsweredInOrder(c) && AnswersAreReal(c) && Next(c, step).Some?
    ensures AnsweredInOrder(Next(c, step).value) && AnswersAreReal(Next(c, step).value)
  {
    var d := Next(c, step).value;
    AnswersStayInOrder(c, step);
    forall e | 0 <= e < |d.sent| && d.sent[e].Done?
      ensures AnswerTo(d, e)
    {
      if e < |c.sent| {
        assert AnswerTo(c, e);
        var p :|
          0 <= p < c.processed && c.queue[p].Sync? && c.sent[e] == Done(c.queue[p].serial) && c.answered[p] == e + 1;
        assert d.queue[p] == c.queue[p] && d.answered[p] == c.answered[p];
      } else {
        assert step.Process?;
        assert d.queue[c.processed].Sync? && d.answered[c.processed] == e + 1;
      }
    }
  }

  lemma WatchStaysCurrent(c: Connection, step: Step)
    requires AnsweredInOrder(c) && WatchIsCurrent(c) && Next(c, step).Some?
    ensures Next(c, step).value.dispatched <= |Next(c, step).value.sent| && WatchIsCurrent(Next(c, step).value)
  {
    var d := Next(c, step).value;
    var e :| 0 <= e < c.dispatched && c.sent[e] == Done(c.watch.synced);
    assert d.sent[e] == c.sent[e];
    assert d.sent[..c.dispatched] == c.sent[..c.dispatched];
    if step.Dispatch? {
      assert d.sent[..d.dispatched][..c.dispatched] == c.sent[..c.dispatched];
      assert d.sent[c.dispatched] == c.sent[c.dispatched];
    }
    forall e | 0 <= e < d.dispatched && d.sent[e].Done?
      ensures d.sent[e].serial <= d.watch.synced
    {
      assert d.sent[e] == c.sent[e];
    }
  }

  lemma SerialsStayTaken(c: Connection, step: Step)
    requires SerialsAreTaken(c) && Next(c, step).Some?
    ensures SerialsAreTaken(Next(c, step).value)
  {
  }

  lemma MarksStay(c: Connection, step: Step)
    requires MarksHold(c) && Next(c, step).Some?
    ensures MarksHold(Next(c, step).value)
  {
    var d := Next(c, step).value;
    SerialsStayTaken(c, step);
    forall t, p |
      && t in d.threads && d.threads[t] != Running
      && 0 <= p < d.threads[t].mark && p < |d.queue| && d.queue[p].Sync?
      ensures d.queue[p].serial < d.threads[t].serial
    {
      if step != Number(t) {
        assert t in c.threads && c.threads[t] != Running && d.threads[t].mark == c.threads[t].mark;
      }
      assert d.queue[p] == c.queue[p];
    }
  }

  lemma NoneGetsForgotten(c: Connection, step: Step)
    requires AnsweredInOrder(c) && NoneIsForgotten(c)
    requires Next(c, step).Some? && AnsweredInOrder(Next(c, step).value)
    ensures NoneIsForgotten(Next(c, step).value)
  {
    var d := Next(c, step).value;
    forall p | 0 <= p < d.processed && d.queue[p].Sync?
      ensures Done(d.queue[p].serial) in d.sent
    {
      if p == c.processed {
        assert d.sent[|c.sent|] == Done(d.queue[p].serial);
      } else {
        assert d.queue[p] == c.queue[p];
      }
    }
    forall t | t in d.threads && d.threads[t].Waiting?
      ensures Sync(d.threads[t].serial) in d.queue
    {
      if step == QueueSync(t) {
        assert d.queue[|c.queue|] == Sync(d.threads[t].serial);
      }
    }
  }

  lemma StepKeepsInv(c: Connection, step: Step)
    requires Inv(c) && Next(c, step).Some?
    ensures Inv(Next(c, step).value)
  {
    AnswersStayReal(c, step);
    WatchStaysCurrent(c, step);
    MarksStay(c, step);
    NoneGetsForgotten(c, step);
  }

  /** The first `mark` requests are handled and the events they caused dispatched. */
  ghost predicate HandledUpTo(c: Connection, mark: nat) {
    mark <= c.processed <= |c.answered| && forall i :: 0 <= i < mark ==> c.answered[i] <= c.dispatched
  }

  ghost predicate Grows(a: Connection, b: Connection) {
    && a.queue <= b.queue && a.processed <= b.processed && a.answered <= b.answered
    && a.dispatched <= b.dispatched && a.sent <= b.sent
    && a.nextSync <= b.nextSync && a.watch.synced <= b.watch.synced && a.watch.generation <= b.watch.generation
  }

  lemma StepGrows(c: Connection, step: Step)
    requires Next(c, step).Some?
    ensures Grows(c, Next(c, step).value)
  {
  }

  lemma GrowsOver(a: Connection, b: Connection, c: Connection)
    requires Grows(a, b) && Grows(b, c)
    ensures Grows(a, c)
  {
  }

  /** The barrier: a thread that may leave `sync` has every request queued before it
    * took its serial handled, and every event those requests caused dispatched, whoever's
    * answer released it.
    */
  lemma Barrier(c: Connection, thread: nat)
    requires Inv(c) && PhaseOf(c, thread).Waiting? && PhaseOf(c, thread).serial <= c.watch.synced
    ensures HandledUpTo(c, PhaseOf(c, thread).mark)
  {
    var phase := PhaseOf(c, thread);
    var e :| 0 <= e < c.dispatched && c.sent[e] == Done(c.watch.synced);
    assert AnswerTo(c, e);
    var p :|
      0 <= p < c.processed && c.queue[p].Sync? && c.sent[e] == Done(c.queue[p].serial) && c.answered[p] == e + 1;
    assert thread in c.threads && c.threads[thread] != Running;
    assert phase.mark <= p;
  }

  function Execute(c: Connection, steps: seq<Step>): Option<Connection> {
    if steps == [] then Some(c)
    else
      var before := Execute(c, steps[..|steps| - 1]);
      if before.None? then None else Next(before.value, steps[|steps| - 1])
  }

  lemma {:induction false} RunKeepsInv(c: Connection, steps: seq<Step>)
    requires Inv(c) && Execute(c, steps).Some?
    ensures Inv(Execute(c, steps).value)
  {
    if steps != [] {
      RunKeepsInv(c, steps[..|steps| - 1]);
      StepKeepsInv(Execute(c, steps[..|steps| - 1]).value, steps[|steps| - 1]);
    }
  }

  /** Over whole runs: take any run of the connection, then any thread's next `sync` with
    * any other steps in between. When it returns, the requests queued before it are handled.
    */
  lemma SyncWaitsForEarlierRequests(first: seq<Step>, thread: nat, during: seq<Step>)
    requires Execute(OPENED, first).Some?
    requires var c := Execute(OPENED, first).value;
      Next(c, Number(thread)).Some? && Execute(Next(c, Number(thread)).value, during).Some?
    requires forall i :: 0 <= i < |during| ==> during[i] != Release(thread) && during[i] != TimeOut(thread)
    requires var c := Execute(OPENED, first).value;
      Next(Execute(Next(c, Number(thread)).value, during).value, Release(thread)).Some?
    ensures var c := Execute(OPENED, first).value;
      var end := Execute(Next(c, Number(thread)).value, during).value;
      c.queue <= end.queue && |c.queue| <= end.processed
  {
    var c := Execute(OPENED, first).value;
    var numbered := Next(c, Number(thread)).value;
    var end := Execute(numbered, during).value;
    InvAfter(first, Number(thread), during);
    MarkStays(numbered, during, thread);
    Barrier(end, thread);
  }

  lemma InvAfter(first: seq<Step>, step: Step, during: seq<Step>)
    requires Execute(OPENED, first).Some? && Next(Execute(OPENED, first).value, step).Some?
    requires Execute(Next(Execute(OPENED, first).value, step).value, during).Some?
    ensures Inv(Execute(Next(Execute(OPENED, first).value, step).value, during).value)
  {
    var c := Execute(OPENED, first).value;
    OpenedInv();
    RunKeepsInv(OPENED, first);
    StepKeepsInv(c, step);
    RunKeepsInv(Next(c, step).value, during);
  }

  lemma {:induction false} MarkStays(c: Connection, steps: seq<Step>, thread: nat)
    requires PhaseOf(c, thread) != Running && Execute(c, steps).Some?
    requires forall i :: 0 <= i < |steps| ==> steps[i] != Release(thread) && steps[i] != TimeOut(thread)
    ensures var phase := PhaseOf(Execute(c, steps).value, thread);
      phase != Running && phase.mark == PhaseOf(c, thread).mark && phase.serial == PhaseOf(c, thread).serial
    ensures c.queue <= Execute(c, steps).value.queue
  {
    if steps != [] {
      MarkStays(c, steps[..|steps| - 1], thread);
      assert steps[|steps| - 1] != Release(thread) && steps[|steps| - 1] != TimeOut(thread);
    }
  }

  // ----- every event counts

  lemma {:induction false} CountAppends(event: Event, a: seq<Event>, b: seq<Event>)
    ensures Count(event, a + b) == Count(event, a) + Count(event, b)
  {
    if b == [] {
      assert a + b == a;
    } else {
      CountAppends(event, a, b[..|b| - 1]);
      assert (a + b)[..|a + b| - 1] == a + b[..|b| - 1];
    }
  }

  lemma {:induction false} RunGrows(c: Connection, steps: seq<Step>)
    requires Execute(c, steps).Some?
    ensures Grows(c, Execute(c, steps).value)
  {
    if steps != [] {
      var n := |steps| - 1;
      var before := Execute(c, steps[..n]).value;
      RunGrows(c, steps[..n]);
      StepGrows(before, steps[n]);
      GrowsOver(c, before, Execute(c, steps).value);
    }
  }

  /** What other clients select is counted, once, when the event is dispatched, whatever steps
    * come in between.
    */
  lemma SelectionElsewhereIsCounted(c: Connection, steps: seq<Step>)
    requires Reached(c) && Execute(c.(sent := c.sent + [Selection]), steps).Some?
    ensures Next(c, Elsewhere(Selection)) == Some(c.(sent := c.sent + [Selection]))
    ensures var end := Execute(c.(sent := c.sent + [Selection]), steps).value;
      |c.sent| < end.dispatched ==> CountsElsewhere(c.sent, end)
  {
    WatchAfter(c, Elsewhere(Selection), steps);
    RunGrows(c.(sent := c.sent + [Selection]), steps);
    var end := Execute(c.(sent := c.sent + [Selection]), steps).value;
    if |c.sent| < end.dispatched {
      CountsSelection(c.sent, end);
    }
  }

  /** The selection after the events `before` is one of those counted. */
  ghost predicate CountsElsewhere(before: seq<Event>, end: Connection) {
    && |before| < end.dispatched <= |end.sent|
    && end.watch.generation ==
         Count(Selection, before) + 1 + Count(Selection, end.sent[|before| + 1..end.dispatched])
  }

  lemma CountsSelection(before: seq<Event>, end: Connection)
    requires |before| < end.dispatched <= |end.sent| && before + [Selection] <= end.sent && WatchIsCurrent(end)
    ensures CountsElsewhere(before, end)
  {
    CountsOneMore(before, end.sent[..end.dispatched]);
    assert end.sent[..end.dispatched][|before| + 1..] == end.sent[|before| + 1..end.dispatched];
  }

  lemma WatchAfter(c: Connection, step: Step, steps: seq<Step>)
    requires Reached(c) && Next(c, step).Some? && Execute(Next(c, step).value, steps).Some?
    ensures var end := Execute(Next(c, step).value, steps).value; end.dispatched <= |end.sent| && WatchIsCurrent(end)
  {
    ReachedInv(c);
    StepKeepsInv(c, step);
    RunKeepsInv(Next(c, step).value, steps);
  }

  lemma CountsOneMore(before: seq<Event>, events: seq<Event>)
    requires before + [Selection] <= events
    ensures Count(Selection, events) == Count(Selection, before) + 1 + Count(Selection, events[|before| + 1..])
  {
    var one := before + [Selection];
    assert events == one + events[|before| + 1..] && one[..|before|] == before;
    CountAppends(Selection, one, events[|before| + 1..]);
  }

  // ----- waiting ends

  /** Nothing is left to handle on either side. */
  predicate Drained(c: Connection) {
    |c.queue| <= c.processed && |c.sent| <= c.dispatched
  }

  lemma DrainedReleases(c: Connection, thread: nat)
    requires Inv(c) && Drained(c) && PhaseOf(c, thread).Waiting?
    ensures Next(c, Release(thread)).Some?
  {
    var serial := PhaseOf(c, thread).serial;
    var p :| 0 <= p < |c.queue| && c.queue[p] == Sync(serial);
    assert Done(serial) in c.sent;
  }

  lemma {:induction false} ExecuteFirst(c: Connection, step: Step, rest: seq<Step>)
    requires Next(c, step).Some?
    ensures Execute(c, [step] + rest) == Execute(Next(c, step).value, rest)
  {
    var steps := [step] + rest;
    if rest == [] {
      assert steps[..0] == [];
    } else {
      var n := |rest| - 1;
      assert steps[..|steps| - 1] == [step] + rest[..n];
      ExecuteFirst(c, step, rest[..n]);
    }
  }

  /** The compositor and the dispatch thread alone can always finish what is queued. */
  lemma {:induction false} Drains(c: Connection) returns (steps: seq<Step>)
    ensures forall step :: step in steps ==> step == Process || step == Dispatch
    ensures Execute(c, steps).Some? && Drained(Execute(c, steps).value)
    ensures Execute(c, steps).value.threads == c.threads
    decreases |c.queue| - c.processed, |c.sent| - c.dispatched
  {
    if Drained(c) {
      return [];
    }
    var step := if c.processed < |c.queue| then Process else Dispatch;
    var rest := Drains(Next(c, step).value);
    ExecuteFirst(c, step, rest);
    return [step] + rest;
  }

  /** A wait can always end: whatever has happened, once the compositor has handled what is
    * queued and its events are dispatched, every waiting thread may leave `sync`, without a
    * time-out and without any other thread.
    */
  lemma WaitersCanReturn(run: seq<Step>, thread: nat) returns (steps: seq<Step>)
    requires Execute(OPENED, run).Some? && PhaseOf(Execute(OPENED, run).value, thread).Waiting?
    ensures forall step :: step in steps ==> step == Process || step == Dispatch
    ensures Execute(Execute(OPENED, run).value, steps).Some?
    ensures Next(Execute(Execute(OPENED, run).value, steps).value, Release(thread)).Some?
  {
    var c := Execute(OPENED, run).value;
    OpenedInv();
    RunKeepsInv(OPENED, run);
    steps := Drains(c);
    RunKeepsInv(c, steps);
    DrainedReleases(Execute(c, steps).value, thread);
  }

  // ----- reachable states

  ghost predicate Reached(c: Connection) {
    exists run :: Execute(OPENED, run) == Some(c)
  }

  lemma OpenedIsReached()
    ensures Reached(OPENED)
  {
    assert Execute(OPENED, []) == Some(OPENED);
  }

  lemma StepReaches(c: Connection, step: Step)
    requires Reached(c) && Next(c, step).Some?
    ensures Reached(Next(c, step).value)
  {
    var run :| Execute(OPENED, run) == Some(c);
    assert (run + [step])[..|run|] == run;
    assert Execute(OPENED, run + [step]) == Next(c, step);
  }

  lemma ReachedInv(c: Connection)
    requires Reached(c)
    ensures Inv(c)
  {
    var run :| Execute(OPENED, run) == Some(c);
    OpenedInv();
    RunKeepsInv(OPENED, run);
  }

  lemma ReachedBarrier(c: Connection, thread: nat)
    requires Reached(c) && PhaseOf(c, thread).Waiting? && PhaseOf(c, thread).serial <= c.watch.synced
    ensures HandledUpTo(c, PhaseOf(c, thread).mark)
  {
    ReachedInv(c);
    Barrier(c, thread);
  }

  lemma ReachedWatch(c: Connection)
    requires Reached(c)
    ensures c.dispatched <= |c.sent| && WatchIsCurrent(c)
  {
    ReachedInv(c);
  }

  lemma StaysHandled(b: Connection, c: Connection, mark: nat)
    requires Grows(b, c) && Reached(c)
    ensures HandledUpTo(b, mark) ==> HandledUpTo(c, mark)
  {
    ReachedInv(c);
    if HandledUpTo(b, mark) {
      assert forall i :: 0 <= i < mark ==> c.answered[i] == b.answered[i];
    }
  }

  /** One clipboard as its threads use it: their statements are steps of the connection,
    * and other threads, the compositor and the dispatch thread step in between.
    */
  class Clipboard {
    var c: Connection

    constructor ()
      ensures c == OPENED && Reached(c)
    {
      c := OPENED;
      new;
      OpenedIsReached();
    }

    /** Any number of steps that are not this thread's own. */
    method Interleave(thread: nat)
      requires Reached(c)
      modifies this
      ensures Reached(c) && PhaseOf(c, thread) == PhaseOf(old(c), thread) && Grows(old(c), c)
    {
      var steps: nat := *;
      while steps > 0
        invariant Reached(c) && PhaseOf(c, thread) == PhaseOf(old(c), thread) && Grows(old(c), c)
      {
        var step: Step := *;
        if !Own(step, thread) && Next(c, step).Some? {
          StepReaches(c, step);
          StepGrows(c, step);
          OthersKeepPhase(c, step, thread);
          GrowsOver(old(c), c, Next(c, step).value);
          c := Next(c, step).value;
        }
        steps := steps - 1;
      }
    }

    /** A step of this thread itself. */
    method Take(step: Step)
      requires Reached(c) && Next(c, step).Some?
      modifies this
      ensures Some(c) == Next(old(c), step) && Reached(c) && Grows(old(c), c)
    {
      StepReaches(c, step);
      StepGrows(c, step);
      c := Next(c, step).value;
    }

    /** Poll the watch until it reaches `serial`, the connection ends or the time is over. */
    method WaitUntilSynced(thread: nat, serial: nat) returns (reached: bool)
      requires Reached(c)
      modifies this
      ensures Reached(c) && PhaseOf(c, thread) == PhaseOf(old(c), thread) && Grows(old(c), c)
      ensures reached <==> serial <= c.watch.synced
    {
      reached := serial <= c.watch.synced;
      var polls: nat := *;
      while polls > 0 && !reached && !c.watch.ended
        invariant Reached(c) && PhaseOf(c, thread) == PhaseOf(old(c), thread) && Grows(old(c), c)
        invariant reached <==> serial <= c.watch.synced
      {
        ghost var before := c;
        Interleave(thread);
        GrowsOver(old(c), before, c);
        reached := serial <= c.watch.synced;
        polls := polls - 1;
      }
    }

    /** Take a serial and queue a sync request with it; others may step in between. */
    method Request(thread: nat) returns (serial: nat)
      requires Reached(c) && PhaseOf(c, thread) == Running
      modifies this
      ensures Reached(c) && PhaseOf(c, thread) == Waiting(serial, |old(c.queue)|) && Grows(old(c), c)
      ensures serial == old(c.nextSync) + 1
    {
      Take(Number(thread));
      ghost var numbered := c;
      serial := PhaseOf(c, thread).serial;
      Interleave(thread);
      GrowsOver(old(c), numbered, c);
      ghost var before := c;
      Take(QueueSync(thread));
      GrowsOver(old(c), before, c);
    }

    /** The barrier as a thread calls it. False is the time-out: at the last look the watch
      * had not reached the thread's serial.
      */
    method SyncUp(thread: nat) returns (answered: bool, ghost serial: nat)
      requires Reached(c) && PhaseOf(c, thread) == Running
      modifies this
      ensures Reached(c) && PhaseOf(c, thread) == Running && Grows(old(c), c)
      ensures answered ==> HandledUpTo(c, |old(c.queue)|)
      ensures serial == old(c.nextSync) + 1 && (answered <==> serial <= c.watch.synced)
    {
      var number := Request(thread);
      serial := number;
      ghost var requested := c;
      answered := WaitUntilSynced(thread, number);
      GrowsOver(old(c), requested, c);
      ghost var waited := c;
      Leave(thread, answered);
      GrowsOver(old(c), waited, c);
    }

    /** Return from the wait, answered or not. */
    method Leave(thread: nat, answered: bool)
      requires Reached(c) && PhaseOf(c, thread).Waiting?
      requires answered ==> PhaseOf(c, thread).serial <= c.watch.synced
      modifies this
      ensures Reached(c) && PhaseOf(c, thread) == Running && Grows(old(c), c) && c.watch == old(c.watch)
      ensures answered ==> HandledUpTo(c, PhaseOf(old(c), thread).mark)
    {
      ghost var mark := PhaseOf(c, thread).mark;
      if answered {
        ReachedBarrier(c, thread);
      }
      ghost var waited := c;
      Take(if answered then Release(thread) else TimeOut(thread));
      StaysHandled(waited, c, mark);
    }

    /** Request the selection, then the barrier: true only after the request was handled. */
    method Write(thread: nat, contents: Contents) returns (applied: bool, ghost serial: nat)
      requires Reached(c) && PhaseOf(c, thread) == Running
      modifies this
      ensures Reached(c) && PhaseOf(c, thread) == Running && Grows(old(c), c)
      ensures applied ==> exists p ::
        |old(c.queue)| <= p < |c.queue| && c.queue[p] == SetSelection(contents) && HandledUpTo(c, p + 1)
      ensures old(c.nextSync) < serial && (applied <==> serial <= c.watch.synced)
    {
      Interleave(thread);
      ghost var c1 := c;
      ghost var p := |c.queue|;
      Take(Queue(thread, SetSelection(contents)));
      GrowsOver(old(c), c1, c);
      ghost var c2 := c;
      applied, serial := SyncUp(thread);
      GrowsOver(old(c), c2, c);
      assert c.queue[p] == SetSelection(contents);
    }

    /** The generation counts every selection change an earlier request caused. */
    method Generation(thread: nat) returns (generation: Option<nat>, ghost serial: nat, ghost looked: Connection)
      requires Reached(c) && PhaseOf(c, thread) == Running
      modifies this
      ensures Reached(c) && PhaseOf(c, thread) == Running && Grows(old(c), c)
      ensures generation.Some? ==>
        && c.dispatched <= |c.sent| && generation.value == Count(Selection, c.sent[..c.dispatched])
        && HandledUpTo(c, |old(c.queue)|)
      ensures serial == old(c.nextSync) + 1 && Grows(old(c), looked) && Grows(looked, c)
      ensures generation.Some? <==> serial <= looked.watch.synced
    {
      var answered;
      answered, serial := SyncUp(thread);
      looked := c;
      Interleave(thread);
      GrowsOver(old(c), looked, c);
      StaysHandled(looked, c, |old(c.queue)|);
      ReachedWatch(c);
      generation := if answered then Some(c.watch.generation) else None;
    }
  }

  lemma OthersKeepPhase(c: Connection, step: Step, thread: nat)
    requires Next(c, step).Some? && !Own(step, thread)
    ensures PhaseOf(Next(c, step).value, thread) == PhaseOf(c, thread)
  {
  }

  /** A thread's own steps only queue requests and move itself: nothing else can be meant by
    * steps that leave it alone.
    */
  lemma OwnStepsAreItsOwn(c: Connection, step: Step, thread: nat)
    requires Next(c, step).Some? && Own(step, thread)
    ensures var after := Next(c, step).value;
      && after.processed == c.processed && after.sent == c.sent && after.dispatched == c.dispatched
      && after.watch == c.watch && c.queue <= after.queue
      && (forall t :: t != thread ==> PhaseOf(after, t) == PhaseOf(c, t))
      && (after.queue == c.queue ==> PhaseOf(after, thread) != PhaseOf(c, thread))
    ensures forall t :: t != thread ==> !Own(step, t)
  {
  }

  predicate Own(step: Step, thread: nat) {
    match step
    case Queue(t, _) => t == thread
    case Number(t) => t == thread
    case QueueSync(t) => t == thread
    case Release(t) => t == thread
    case TimeOut(t) => t == thread
    case _ => false
  }
}
