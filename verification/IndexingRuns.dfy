/**
 Properties of whole runs of the refresh worker and its tool handlers: what a
 waiting handler is told, what never happens to a job row, how many claims a queue
 can cause and how far apart retries are.
 */
module IndexingRuns {
  import opened Options
  import opened RefreshQueue
  import opened RetryDelay
  import opened IndexingSystem
  import C = Coordinator

  /** `states[i + 1]` is reached from `states[i]` by `steps[i]`. */
  ghost predicate IsTrace(states: seq<State>, steps: seq<Step>) {
    && |states| == |steps| + 1
    && forall i :: 0 <= i < |steps| ==> Enabled(states[i], steps[i]) && states[i + 1] == Apply(states[i], steps[i])
  }

  ghost predicate IsRun(states: seq<State>, steps: seq<Step>) {
    IsTrace(states, steps) && Init(states[0])
  }

  lemma {:induction false} TraceKeepsInv(states: seq<State>, steps: seq<Step>, i: nat)
    requires IsTrace(states, steps) && Inv(states[0]) && i < |states|
    ensures Inv(states[i])
  {
    if i > 0 {
      TraceKeepsInv(states, steps, i - 1);
      StepKeepsInv(states[i - 1], steps[i - 1]);
    }
  }

  /** In every interleaving: at most one active row per key, attempts within the
      bounds of each status, and channels, worker and handlers in agreement. */
  lemma RunKeepsInv(states: seq<State>, steps: seq<Step>, i: nat)
    requires IsRun(states, steps) && i < |states|
    ensures Inv(states[i])
  {
    InitInv(states[0]);
    TraceKeepsInv(states, steps, i);
  }

  // ---------------------------------------------------------------- job rows

  predicate RowEvolves(job: Job, job': Job) {
    && job'.crateName == job.crateName && job'.scope == job.scope && job'.priority == job.priority
    && job.attempts <= job'.attempts
    && (Terminal(job) ==> job' == job)
  }

  /** Rows are only added, keep their identity, count attempts upwards, and never
      change again once finished or failed. */
  ghost predicate Evolves(t: Table, t': Table) {
    |t| <= |t'| && forall i :: 0 <= i < |t| ==> RowEvolves(t[i], t'[i])
  }

  lemma StepEvolves(s: State, step: Step)
    requires Inv(s) && Enabled(s, step)
    ensures Evolves(s.table, Apply(s, step).table)
    ensures s.log <= Apply(s, step).log && s.now <= Apply(s, step).now
  {
  }

  lemma EvolvesFurther(t: Table, t': Table, t'': Table)
    requires Evolves(t, t') && Evolves(t', t'')
    ensures Evolves(t, t'')
  {
    forall i | 0 <= i < |t| ensures RowEvolves(t[i], t''[i]) {
      assert RowEvolves(t[i], t'[i]) && RowEvolves(t'[i], t''[i]);
    }
  }

  lemma {:induction false} SettledJobsNeverChange(states: seq<State>, steps: seq<Step>, i: nat, j: nat)
    requires IsTrace(states, steps) && Inv(states[0]) && i <= j < |states|
    ensures Evolves(states[i].table, states[j].table)
    ensures states[i].log <= states[j].log && states[i].now <= states[j].now
  {
    if i < j {
      SettledJobsNeverChange(states, steps, i, j - 1);
      TraceKeepsInv(states, steps, j - 1);
      StepEvolves(states[j - 1], steps[j - 1]);
      EvolvesFurther(states[i].table, states[j - 1].table, states[j].table);
    }
  }

  // ---------------------------------------------------------------- waiting

  /** The subscription with which a handler waits or has waited. */
  function SubscriptionOf(handler: Handler): Option<Subscription> {
    match handler
    case Waiting(_, sub, _) => Some(sub)
    case Woken(_, sub, _) => Some(sub)
    case Done(_, via, _) => via
    case _ => None
  }

  lemma {:induction false} SubscriptionIsKept(states: seq<State>, steps: seq<Step>, h: int, i: nat, j: nat)
    requires IsTrace(states, steps) && i <= j < |states|
    requires h in states[i].handlers && SubscriptionOf(states[i].handlers[h]).Some?
    ensures h in states[j].handlers
    ensures states[j].handlers[h].jobId == states[i].handlers[h].jobId
    ensures SubscriptionOf(states[j].handlers[h]) == SubscriptionOf(states[i].handlers[h])
  {
    if i < j {
      SubscriptionIsKept(states, steps, h, i, j - 1);
    }
  }

  /** A handler that subscribes while its job's channel is registered ends its wait
      in one of two ways, whatever else runs in between: its own timeout, or exactly
      the outcome of the first signal that the worker gives for that job after the
      subscription. It never receives `Pending` and never finds the channel closed. */
  lemma SubscriberReceivesTheFirstSignal(states: seq<State>, steps: seq<Step>, i: nat, j: nat, h: int)
    requires IsRun(states, steps) && i < j < |states|
    requires steps[i] == HandlerSubscribe(h) && states[i].handlers[h].jobId in states[i].hub.waiters
    requires h in states[j].handlers && states[j].handlers[h].Done?
    ensures var id, result := states[i].handlers[h].jobId, states[j].handlers[h].result;
            var first := FirstSignal(states[j].log, |states[i].log|, id);
            || result == TimedOut
            || (result.Received? && first == Some(result.outcome) && result.outcome != C.Pending)
  {
    RunKeepsInv(states, steps, i);
    RunKeepsInv(states, steps, j);
    SubscriptionIsKept(states, steps, h, i + 1, j);
    var sub := states[j].handlers[h].via.value;
    assert sub.since == |states[i].log|;
    assert HandlerOk(states[j].hub, states[j].worker, states[j].log, h, states[j].handlers[h]);
    assert C.ChannelOk(states[j].hub, HeldBy(states[j].worker), sub.channel);
  }

  /** Everyone who receives something through one channel receives the same. */
  lemma OneChannelOneOutcome(states: seq<State>, steps: seq<Step>, i: nat, g: int, h: int)
    requires IsRun(states, steps) && i < |states|
    requires g in states[i].handlers && h in states[i].handlers
    requires states[i].handlers[g].Done? && states[i].handlers[h].Done?
    requires states[i].handlers[g].via.Some? && states[i].handlers[h].via.Some?
    requires states[i].handlers[g].via.value.channel == states[i].handlers[h].via.value.channel
    requires states[i].handlers[g].result.Received? && states[i].handlers[h].result.Received?
    ensures states[i].handlers[g].result == states[i].handlers[h].result
  {
    RunKeepsInv(states, steps, i);
    var s := states[i];
    assert HandlerOk(s.hub, s.worker, s.log, g, s.handlers[g]);
    assert HandlerOk(s.hub, s.worker, s.log, h, s.handlers[h]);
  }

  /** In every reachable state, what a finished wait reports is justified: a failure
      was signalled for that very job with that very message; a completion received
      through a subscription means that the row is finished; waiting never ends with
      `Pending` or with a closed channel. */
  lemma ReportsAreJustified(states: seq<State>, steps: seq<Step>, i: nat, h: int)
    requires IsRun(states, steps) && i < |states|
    requires h in states[i].handlers && states[i].handlers[h].Done?
    ensures var id, result := states[i].handlers[h].jobId, states[i].handlers[h].result;
            && result != ChannelClosed && result != Received(C.Pending)
            && (result.Received? && result.outcome.Failed? ==> Signal(id, result.outcome) in states[i].log)
            && (result == Received(C.Completed) && states[i].handlers[h].via.Some? ==>
                  0 <= id < |states[i].table| && states[i].table[id].status == Finished)
  {
    RunKeepsInv(states, steps, i);
    var s := states[i];
    var handler := s.handlers[h];
    assert HandlerOk(s.hub, s.worker, s.log, h, handler);
    if handler.via.Some? && handler.result.Received? {
      var sub := handler.via.value;
      assert C.ChannelOk(s.hub, HeldBy(s.worker), sub.channel);
      var k := FirstSignalIsFirst(s.log, sub.since, handler.jobId);
      assert OutcomeOk(s.table, s.log[k].jobId, s.log[k].outcome);
    }
  }

  /** A signal is never lost on a waiting handler: once the worker has finished
      giving it, the handler can stop waiting, and then it receives that outcome. */
  lemma SignalledHandlerCanProceed(s: State, h: int)
    requires Inv(s) && h in s.handlers && s.handlers[h].Waiting?
    requires var first := FirstSignal(s.log, s.handlers[h].sub.since, s.handlers[h].jobId);
             first.Some? && !(s.worker.Holding? && s.worker.job == s.handlers[h].jobId)
    ensures Enabled(s, HandlerChanged(h))
    ensures var woken := Apply(s, HandlerChanged(h));
            && Enabled(woken, HandlerBorrow(h))
            && Apply(woken, HandlerBorrow(h)).handlers[h]
               == Done(s.handlers[h].jobId, Some(s.handlers[h].sub),
                       Received(FirstSignal(s.log, s.handlers[h].sub.since, s.handlers[h].jobId).value))
  {
    var handler := s.handlers[h];
    assert HandlerOk(s.hub, s.worker, s.log, h, handler);
    assert C.ChannelOk(s.hub, HeldBy(s.worker), handler.sub.channel);
  }

  /** A signal for the job can still come: the job has not settled, or the worker is
      about to signal it. */
  predicate SignalToCome(s: State, id: int) {
    (0 <= id < |s.table| && Active(s.table[id])) || (s.worker.Signalling? && s.worker.job == id)
  }

  /** The handler waits on the channel that is registered for its job. */
  ghost predicate WaitsRegistered(s: State, h: int, id: int, sub: Subscription) {
    && h in s.handlers && s.handlers[h].Waiting? && s.handlers[h].jobId == id && s.handlers[h].sub == sub
    && id in s.hub.waiters && s.hub.waiters[id] == sub.channel
    && 0 <= id < |s.table|
  }

  /** Handler `h` waits, or has timed out waiting, on the registered channel of a job
      that has settled. */
  ghost predicate WaitsInVain(s: State, h: int, id: int, sub: Subscription) {
    && h in s.handlers && (s.handlers[h].Waiting? ==> s.handlers[h].jobId == id && s.handlers[h].sub == sub)
    && (s.handlers[h].Waiting? || s.handlers[h] == Done(id, Some(sub), TimedOut))
    && id in s.hub.waiters && s.hub.waiters[id] == sub.channel
    && 0 <= id < |s.table| && !SignalToCome(s, id)
  }

  lemma StepLeavesWaiting(s: State, step: Step, h: int, id: int, sub: Subscription)
    requires Inv(s) && Enabled(s, step) && WaitsInVain(s, h, id, sub)
    ensures !SignalToCome(Apply(s, step), id)
    ensures id in Apply(s, step).hub.waiters && Apply(s, step).hub.waiters[id] == sub.channel
  {
    StepEvolves(s, step);
  }

  lemma HandlerKeepsWaiting(s: State, step: Step, h: int, id: int, sub: Subscription)
    requires Inv(s) && Enabled(s, step) && WaitsInVain(s, h, id, sub)
    ensures h in Apply(s, step).handlers
    ensures Apply(s, step).handlers[h] == s.handlers[h] || Apply(s, step).handlers[h] == Done(id, Some(sub), TimedOut)
  {
    assert C.ChannelOk(s.hub, HeldBy(s.worker), sub.channel);
    assert HandlerOk(s.hub, s.worker, s.log, h, s.handlers[h]);
  }

  /** A handler that registers its waiter after the job has settled is told nothing:
      however the run goes on, it waits until its own timeout. */
  lemma {:induction false} LateWaiterOnlyTimesOut(states: seq<State>, steps: seq<Step>, i: nat, j: nat, h: int)
    requires IsTrace(states, steps) && Inv(states[0]) && i <= j < |states|
    requires h in states[i].handlers && states[i].handlers[h].Waiting?
    requires WaitsInVain(states[i], h, states[i].handlers[h].jobId, states[i].handlers[h].sub)
    ensures WaitsInVain(states[j], h, states[i].handlers[h].jobId, states[i].handlers[h].sub)
    ensures states[j].handlers[h] == states[i].handlers[h]
         || states[j].handlers[h] == Done(states[i].handlers[h].jobId, Some(states[i].handlers[h].sub), TimedOut)
  {
    if i < j {
      var id, sub := states[i].handlers[h].jobId, states[i].handlers[h].sub;
      LateWaiterOnlyTimesOut(states, steps, i, j - 1, h);
      TraceKeepsInv(states, steps, j - 1);
      StepLeavesWaiting(states[j - 1], steps[j - 1], h, id, sub);
      HandlerKeepsWaiting(states[j - 1], steps[j - 1], h, id, sub);
      StepEvolves(states[j - 1], steps[j - 1]);
    }
  }

  lemma Extend(states: seq<State>, steps: seq<Step>, step: Step) returns (states': seq<State>, steps': seq<Step>)
    requires IsRun(states, steps) && Enabled(states[|steps|], step)
    ensures IsRun(states', steps') && |steps'| == |steps| + 1
    ensures states'[|steps'|] == Apply(states[|steps|], step)
  {
    states', steps' := states + [Apply(states[|steps|], step)], steps + [step];
  }

  /** A handler enqueues a job in an empty queue and registers its waiter. */
  lemma EnqueueAndRegister(crateName: string, scope: string) returns (states: seq<State>, steps: seq<Step>)
    ensures IsRun(states, steps)
    ensures states[|steps|] == State(0, [NewJob(crateName, scope, PRIORITY_ON_DEMAND, 0)],
              C.Hub(map[0 := 0], [C.Channel(0, C.Pending, 0, false, {})]), Idle, map[7 := Ready(0)], [])
  {
    states, steps := [State(0, [], C.Hub(map[], []), Idle, map[], [])], [];
    states, steps := Extend(states, steps, HandlerEnqueue(7, crateName, scope));
    assert states[|steps|].table == [NewJob(crateName, scope, PRIORITY_ON_DEMAND, 0)];
    states, steps := Extend(states, steps, HandlerRegister(7));
  }

  /** The worker runs that job, which fails. */
  lemma FailOnce(crateName: string, scope: string, nanos: int, message: string)
    returns (states: seq<State>, steps: seq<Step>)
    ensures IsRun(states, steps)
    ensures var s := states[|steps|];
            && s.worker == Signalling(0, C.Failed(message)) && s.handlers == map[7 := Ready(0)]
            && s.hub == C.Hub(map[0 := 0], [C.Channel(0, C.Pending, 0, false, {})])
            && s.table != [] && s.table[0].status == Pending && s.table[0].lastError == Some(message)
  {
    states, steps := EnqueueAndRegister(crateName, scope);
    assert Runnable(states[|steps|].table[0], 0);
    states, steps := Extend(states, steps, Claim);
    states, steps := Extend(states, steps, Execute(Failure(message)));
    assert states[|steps|].table[0].attempts == 1;
    states, steps := Extend(states, steps, Mark(nanos));
  }

  /** The other side of that gap. A handler has enqueued and registered, but the job
      fails before it subscribes: it finds no waiter and reports completion. A
      completion tells that the job finished only when it came through a
      subscription. */
  lemma UnregisteredWaitIsOptimistic(crateName: string, scope: string, nanos: int, message: string)
    returns (states: seq<State>, steps: seq<Step>)
    ensures IsRun(states, steps)
    ensures var s := states[|steps|];
            && s.handlers == map[7 := Done(0, None, Received(C.Completed))]
            && s.table != [] && s.table[0].status == Pending && s.table[0].lastError == Some(message)
  {
    states, steps := FailOnce(crateName, scope, nanos, message);
    states, steps := Extend(states, steps, TakeSender);
    states, steps := Extend(states, steps, Send);
    states, steps := Extend(states, steps, DropSender);
    states, steps := Extend(states, steps, HandlerSubscribe(7));
  }

  // ---------------------------------------------------------------- bounded work

  /** Work that the worker still owes the queue: the enrichment jobs of a crate job
      that has just finished. */
  function Credit(s: State): int {
    match s.worker
    case Signalling(job, outcome) => OwedAfter(s.table, job, outcome)
    case Holding(job, outcome, _) => OwedAfter(s.table, job, outcome)
    case Releasing(job, outcome, _) => OwedAfter(s.table, job, outcome)
    case Enriching(_, next) => MAX_ATTEMPTS * (2 - next)
    case _ => 0
  }

  function OwedAfter(t: Table, job: nat, outcome: C.Outcome): int {
    if job < |t| && outcome == C.Completed && SyncsACrate(t[job].scope) then 2 * MAX_ATTEMPTS else 0
  }

  function Potential(s: State): int {
    Work(s.table) + Credit(s)
  }

  /** What a step of somebody other than the worker may add to the queue. */
  function Demand(step: Step): int {
    match step
    case OutsideEnqueue(crateName, scope, priority) => Weight(NewJob(crateName, scope, priority, 0))
    case HandlerEnqueue(_, crateName, scope) => Weight(NewJob(crateName, scope, 0, 0))
    case _ => 0
  }

  lemma EnqueuedWork(t: Table, crateName: string, scope: string, priority: int, now: int)
    ensures var t' := RefreshQueue.Enqueued(t, crateName, scope, priority, now).0;
            && Work(t') <= Work(t) + Weight(NewJob(crateName, scope, priority, 0))
            && forall i :: 0 <= i < |t| ==> t'[i] == t[i]
  {
    WorkOfAppend(t, NewJob(crateName, scope, priority, now));
  }

  lemma ClaimSpendsPotential(s: State)
    requires Inv(s) && Enabled(s, Claim)
    ensures Potential(Apply(s, Claim)) + 1 == Potential(s)
  {
    var job := NextRunnable(s.table, s.now).value;
    WorkOfUpdate(s.table, job, Claimed(s.table, job, s.now)[job]);
  }

  lemma FailedAttemptWork(t: Table, i: nat, delay: int, message: string, now: int)
    requires QueueInv(t) && i < |t| && t[i].status == Running
    ensures Work(FailedAttempt(t, i, delay, message, now)) <= Work(t)
  {
    WorkOfUpdate(t, i, FailedAttempt(t, i, delay, message, now)[i]);
  }

  lemma MarkSpendsNothing(s: State, nanos: int)
    requires Inv(s) && Enabled(s, Mark(nanos))
    ensures Potential(Apply(s, Mark(nanos))) <= Potential(s)
  {
    var job := s.worker.job;
    match s.worker.result {
      case Success =>
        WorkOfUpdate(s.table, job, MarkedFinished(s.table, job, s.now)[job]);
      case Failure(message) =>
        FailedAttemptWork(s.table, job, DelaySeconds(job, s.table[job].attempts, nanos), message, s.now);
    }
  }

  lemma EnrichSpendsNothing(s: State)
    requires Inv(s) && Enabled(s, Enrich)
    ensures Potential(Apply(s, Enrich)) <= Potential(s)
  {
    EnqueuedWork(s.table, s.table[s.worker.job].crateName, EnrichmentScope(s.worker.next),
                 PRIORITY_PROACTIVE_ENRICH, s.now);
  }

  /** Every claim uses up one unit of potential; nothing that the worker does later,
      enrichment included, gives it back. */
  lemma StepSpendsPotential(s: State, step: Step)
    requires Inv(s) && Enabled(s, step)
    ensures Potential(Apply(s, step)) + (if step.Claim? then 1 else 0) <= Potential(s) + Demand(step)
  {
    match step {
      case Claim => ClaimSpendsPotential(s);
      case Mark(nanos) => MarkSpendsNothing(s, nanos);
      case Enrich => EnrichSpendsNothing(s);
      case OutsideEnqueue(crateName, scope, priority) =>
        EnqueuedWork(s.table, crateName, scope, priority, s.now);
        WorkerIsUnmoved(s, Apply(s, step));
      case HandlerEnqueue(_, crateName, scope) =>
        EnqueuedWork(s.table, crateName, scope, PRIORITY_ON_DEMAND, s.now);
        WorkerIsUnmoved(s, Apply(s, step));
      case Tick(_) =>
      case Execute(_) =>
      case TakeSender =>
      case Send =>
      case DropSender =>
      case _ => assert Apply(s, step).worker == s.worker && Apply(s, step).table == s.table;
    }
  }

  lemma WorkerIsUnmoved(s: State, s': State)
    requires Inv(s) && s'.worker == s.worker && Evolves(s.table, s'.table)
    ensures Credit(s') == Credit(s)
  {
  }

  function Claims(steps: seq<Step>): nat {
    if steps == [] then 0 else Claims(steps[..|steps| - 1]) + if steps[|steps| - 1].Claim? then 1 else 0
  }

  function TotalDemand(steps: seq<Step>): int {
    if steps == [] then 0 else TotalDemand(steps[..|steps| - 1]) + Demand(steps[|steps| - 1])
  }

  /** In every run the number of claims is bounded by the work in the queue at the
      start plus what others enqueue on the way; without others, the worker stops
      claiming. The work is at most three claims for a row, and nine for one that
      syncs a crate. */
  lemma {:induction false} ClaimsAreBounded(states: seq<State>, steps: seq<Step>)
    requires IsTrace(states, steps) && Inv(states[0])
    ensures Claims(steps) + Potential(states[|steps|]) <= Potential(states[0]) + TotalDemand(steps)
    ensures Potential(states[|steps|]) >= 0
    ensures states[0].worker.Idle? ==> Claims(steps) <= Work(states[0].table) + TotalDemand(steps)
  {
    var n := |steps|;
    if n > 0 {
      ClaimsAreBounded(states[..n], steps[..n - 1]);
      TraceKeepsInv(states, steps, n - 1);
      StepSpendsPotential(states[n - 1], steps[n - 1]);
    }
    TraceKeepsInv(states, steps, n);
    PotentialIsNatural(states[n]);
  }

  lemma PotentialIsNatural(s: State)
    requires Inv(s)
    ensures Potential(s) >= 0
  {
    WorkIsNatural(s.table);
  }

  /** The worker does not stop while a job can run: an idle worker can claim whenever
      a pending job's time has come. */
  lemma IdleWorkerClaimsWhatIsDue(s: State, i: nat)
    requires i < |s.table| && s.worker.Idle? && Runnable(s.table[i], s.now)
    ensures Enabled(s, Claim) && IsNext(s.table, NextRunnable(s.table, s.now).value, s.now)
  {
    var next := NextRunnable(s.table, s.now);
  }

  // ---------------------------------------------------------------- retries

  predicate ClaimsJob(s: State, step: Step, job: nat) {
    step.Claim? && NextRunnable(s.table, s.now) == Some(job)
  }

  lemma PendingRowStep(s: State, step: Step, job: nat)
    requires Inv(s) && Enabled(s, step) && !ClaimsJob(s, step, job)
    requires job < |s.table| && s.table[job].status == Pending
    ensures job < |Apply(s, step).table| && Apply(s, step).table[job] == s.table[job]
  {
    match step {
      case Mark(_) => assert job != s.worker.job;
      case _ =>
    }
  }

  /** A pending row stays as it is until it is claimed. */
  lemma {:induction false} PendingRowWaits(states: seq<State>, steps: seq<Step>, job: nat, i: nat, j: nat)
    requires IsTrace(states, steps) && Inv(states[0]) && i <= j < |states|
    requires job < |states[i].table| && states[i].table[job].status == Pending
    requires forall k :: i <= k < j ==> !ClaimsJob(states[k], steps[k], job)
    ensures job < |states[j].table| && states[j].table[job] == states[i].table[job]
  {
    if i < j {
      PendingRowWaits(states, steps, job, i, j - 1);
      TraceKeepsInv(states, steps, j - 1);
      PendingRowStep(states[j - 1], steps[j - 1], job);
    }
  }

  ghost predicate FailsForNow(s: State, step: Step, job: nat) {
    && step.Mark? && s.worker.Executed? && s.worker.job == job && s.worker.result.Failure?
    && job < |s.table| && 1 <= s.table[job].attempts < MAX_ATTEMPTS
  }

  /** After a failed attempt that is to be retried, the next claim of the job comes
      no sooner than the least delay of that attempt: 5 seconds after the first
      failure and 9 after the second. */
  lemma RetriesAreSpaced(states: seq<State>, steps: seq<Step>, job: nat, i: nat, j: nat)
    requires IsRun(states, steps) && i < j < |steps|
    requires FailsForNow(states[i], steps[i], job) && ClaimsJob(states[j], steps[j], job)
    requires forall k :: i < k < j ==> !ClaimsJob(states[k], steps[k], job)
    ensures states[j].now >= states[i].now + LeastDelay(states[i].table[job].attempts - 1)
    ensures LeastDelay(states[i].table[job].attempts - 1) == if states[i].table[job].attempts == 1 then 5 else 9
  {
    InitInv(states[0]);
    TraceKeepsInv(states, steps, i);
    var attempts := states[i].table[job].attempts;
    DelayIsNearBackoff(job, attempts, steps[i].nanos);
    PendingRowWaits(states, steps, job, i + 1, j);
  }

  /** And 11 seconds after such a failure the job, if not claimed yet, is due. */
  lemma RetryIsSoonDue(states: seq<State>, steps: seq<Step>, job: nat, i: nat, j: nat)
    requires IsRun(states, steps) && i < |steps| && i < j < |states|
    requires FailsForNow(states[i], steps[i], job)
    requires forall k :: i < k < j ==> !ClaimsJob(states[k], steps[k], job)
    requires states[j].now >= states[i].now + 11
    ensures job < |states[j].table| && Runnable(states[j].table[job], states[j].now)
  {
    InitInv(states[0]);
    TraceKeepsInv(states, steps, i);
    var attempts := states[i].table[job].attempts;
    DelayIsNearBackoff(job, attempts, steps[i].nanos);
    PendingRowWaits(states, steps, job, i + 1, j);
  }
}
