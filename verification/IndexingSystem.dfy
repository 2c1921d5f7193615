/**
 The refresh worker and any number of tool handlers, interleaved step by step over
 the job table and the coordinator's channels.

 Each statement that the database executes, each access to the waiters map and each
 send or receive on a channel is one step. The worker runs one job at a time. Steps
 of the outside world, such as other tasks that enqueue jobs and the passing of
 time, may come in between at any point.
 */
module IndexingSystem {
  import opened Options
  import opened RefreshQueue
  import opened RetryDelay
  import C = Coordinator

  datatype JobResult = Success | Failure(message: string)

  /** Where the worker is in its loop. */
  datatype Worker =
    | Idle
    | Executing(job: nat)
    | Executed(job: nat, result: JobResult)
    | Signalling(job: nat, outcome: C.Outcome)
    | Holding(job: nat, outcome: C.Outcome, channel: nat)
    | Releasing(job: nat, outcome: C.Outcome, channel: nat)
    | Enriching(job: nat, next: nat)

  datatype WaitResult = Received(outcome: C.Outcome) | TimedOut | ChannelClosed

  /** A subscription: the channel, and how many signals had been given before it. */
  datatype Subscription = Subscription(channel: nat, since: nat)

  /** Where a tool handler is in enqueueing a job and waiting for it. */
  datatype Handler =
    | Enqueued(jobId: int)
    | Ready(jobId: int)
    | Waiting(jobId: int, sub: Subscription, seen: nat)
    | Woken(jobId: int, sub: Subscription, seen: nat)
    | Done(jobId: int, via: Option<Subscription>, result: WaitResult)

  /** One call of the worker to signal an outcome. */
  datatype Signal = Signal(jobId: int, outcome: C.Outcome)

  /** `log` records the signals given so far; the program itself keeps no such list. */
  datatype State = State(now: int, table: Table, hub: C.Hub, worker: Worker, handlers: map<int, Handler>,
                         log: seq<Signal>)

  datatype Step =
    | Tick(elapsed: nat)
    | OutsideEnqueue(crateName: string, scope: string, priority: int)
    | Claim
    | Execute(result: JobResult)
    | Mark(nanos: int)
    | TakeSender
    | Send
    | DropSender
    | Enrich
    | HandlerEnqueue(h: int, crateName: string, scope: string)
    | HandlerRegister(h: int)
    | HandlerAdopt(h: int, jobId: int)
    | HandlerSubscribe(h: int)
    | HandlerChanged(h: int)
    | HandlerBorrow(h: int)
    | HandlerTimeout(h: int)

  const PRIORITY_ON_DEMAND := 1
  const PRIORITY_PROACTIVE_ENRICH := 75

  /** The scopes that the worker knows how to run; any other fails. */
  predicate Supported(scope: string) {
    SyncsACrate(scope) || scope == "security" || scope == "docs" || scope == "local_cache" || scope == "rustdoc_json"
  }

  function EnrichmentScope(next: nat): string {
    if next == 0 then "local_cache" else "rustdoc_json"
  }

  function AfterSignal(t: Table, job: nat, outcome: C.Outcome): Worker
    requires job < |t|
  {
    if outcome == C.Completed && SyncsACrate(t[job].scope) then Enriching(job, 0) else Idle
  }

  // ---------------------------------------------------------------- steps

  predicate Enabled(s: State, step: Step) {
    match step
    case Tick(_) => true
    case OutsideEnqueue(_, _, _) => true
    case Claim => s.worker.Idle? && NextRunnable(s.table, s.now).Some?
    case Execute(result) =>
      s.worker.Executing? && s.worker.job < |s.table| && (result.Success? ==> Supported(s.table[s.worker.job].scope))
    case Mark(_) => s.worker.Executed? && s.worker.job < |s.table|
    case TakeSender => s.worker.Signalling? && s.worker.job < |s.table|
    case Send => s.worker.Holding? && s.worker.channel < |s.hub.channels|
    case DropSender => s.worker.Releasing? && s.worker.channel < |s.hub.channels| && s.worker.job < |s.table|
    case Enrich => s.worker.Enriching? && s.worker.job < |s.table|
    case HandlerEnqueue(h, _, _) => h !in s.handlers
    case HandlerRegister(h) => h in s.handlers && s.handlers[h].Enqueued?
    case HandlerAdopt(h, _) => h !in s.handlers
    case HandlerSubscribe(h) =>
      h in s.handlers && s.handlers[h].Ready?
      && (s.handlers[h].jobId in s.hub.waiters ==> s.hub.waiters[s.handlers[h].jobId] < |s.hub.channels|)
    case HandlerChanged(h) =>
      h in s.handlers && s.handlers[h].Waiting? && s.handlers[h].sub.channel < |s.hub.channels|
      && C.ChangedResolves(s.hub.channels[s.handlers[h].sub.channel], s.handlers[h].seen)
    case HandlerBorrow(h) =>
      h in s.handlers && s.handlers[h].Woken? && s.handlers[h].sub.channel < |s.hub.channels|
    case HandlerTimeout(h) =>
      h in s.handlers && s.handlers[h].Waiting? && s.handlers[h].sub.channel < |s.hub.channels|
  }

  function Marked(s: State, nanos: int): State
    requires s.worker.Executed? && s.worker.job < |s.table|
  {
    var job := s.worker.job;
    match s.worker.result
    case Success =>
      s.(table := MarkedFinished(s.table, job, s.now), worker := Signalling(job, C.Completed))
    case Failure(message) =>
      s.(table := FailedAttempt(s.table, job, DelaySeconds(job, s.table[job].attempts, nanos), message, s.now),
         worker := Signalling(job, C.Failed(message)))
  }

  /** The map access of a signal: the sender is taken out, if there is one. */
  function SenderTaken(s: State): State
    requires s.worker.Signalling? && s.worker.job < |s.table|
  {
    var job, outcome := s.worker.job, s.worker.outcome;
    s.(hub := C.SenderTaken(s.hub, job),
       log := s.log + [Signal(job, outcome)],
       worker := if job in s.hub.waiters then Holding(job, outcome, s.hub.waiters[job])
                 else AfterSignal(s.table, job, outcome))
  }

  /** Waiting ends: the receiver is dropped. */
  function Finish(s: State, h: int, result: WaitResult): State
    requires h in s.handlers && (s.handlers[h].Waiting? || s.handlers[h].Woken?)
    requires s.handlers[h].sub.channel < |s.hub.channels|
  {
    var handler := s.handlers[h];
    s.(hub := C.Unsubscribed(s.hub, handler.sub.channel, h),
       handlers := s.handlers[h := Done(handler.jobId, Some(handler.sub), result)])
  }

  /** Without a registered waiter the job is taken to have completed. */
  function Subscribed(s: State, h: int): State
    requires Enabled(s, HandlerSubscribe(h))
  {
    var id := s.handlers[h].jobId;
    if id in s.hub.waiters then
      var c := s.hub.waiters[id];
      s.(hub := C.Subscribed(s.hub, c, h),
         handlers := s.handlers[h := Waiting(id, Subscription(c, |s.log|), s.hub.channels[c].version)])
    else
      s.(handlers := s.handlers[h := Done(id, None, Received(C.Completed))])
  }

  function Apply(s: State, step: Step): State
    requires Enabled(s, step)
  {
    match step
    case Tick(elapsed) => s.(now := s.now + elapsed)
    case OutsideEnqueue(crateName, scope, priority) =>
      s.(table := RefreshQueue.Enqueued(s.table, crateName, scope, priority, s.now).0)
    case Claim =>
      var job := NextRunnable(s.table, s.now).value;
      s.(table := Claimed(s.table, job, s.now), worker := Executing(job))
    case Execute(result) => s.(worker := Executed(s.worker.job, result))
    case Mark(nanos) => Marked(s, nanos)
    case TakeSender => SenderTaken(s)
    case Send =>
      s.(hub := C.Sent(s.hub, s.worker.channel, s.worker.outcome),
         worker := Releasing(s.worker.job, s.worker.outcome, s.worker.channel))
    case DropSender =>
      s.(hub := C.SenderDropped(s.hub, s.worker.channel),
         worker := AfterSignal(s.table, s.worker.job, s.worker.outcome))
    case Enrich =>
      var job := s.worker.job;
      s.(table := RefreshQueue.Enqueued(s.table, s.table[job].crateName, EnrichmentScope(s.worker.next),
                                        PRIORITY_PROACTIVE_ENRICH, s.now).0,
         worker := if s.worker.next == 0 then Enriching(job, 1) else Idle)
    case HandlerEnqueue(h, crateName, scope) =>
      var (table, jobId) := RefreshQueue.Enqueued(s.table, crateName, scope, PRIORITY_ON_DEMAND, s.now);
      s.(table := table, handlers := s.handlers[h := Enqueued(jobId)])
    case HandlerRegister(h) =>
      var id := s.handlers[h].jobId;
      s.(hub := C.Registered(s.hub, id), handlers := s.handlers[h := Ready(id)])
    case HandlerAdopt(h, jobId) => s.(handlers := s.handlers[h := Ready(jobId)])
    case HandlerSubscribe(h) => Subscribed(s, h)
    case HandlerChanged(h) =>
      var handler := s.handlers[h];
      var version := s.hub.channels[handler.sub.channel].version;
      if version != handler.seen then
        s.(handlers := s.handlers[h := Woken(handler.jobId, handler.sub, version)])
      else Finish(s, h, ChannelClosed)
    case HandlerBorrow(h) =>
      var handler := s.handlers[h];
      var outcome := s.hub.channels[handler.sub.channel].value;
      if outcome != C.Pending then Finish(s, h, Received(outcome))
      else s.(handlers := s.handlers[h := Waiting(handler.jobId, handler.sub, handler.seen)])
    case HandlerTimeout(h) => Finish(s, h, TimedOut)
  }

  // ---------------------------------------------------------------- signals

  /** The first signal for a job among those given at or after position `since`. */
  function FirstSignal(log: seq<Signal>, since: nat, id: int): Option<C.Outcome> {
    if |log| <= since then None
    else
      var last := |log| - 1;
      match FirstSignal(log[..last], since, id)
      case Some(o) => Some(o)
      case None => if log[last].jobId == id then Some(log[last].outcome) else None
  }

  lemma FirstSignalOfAppend(log: seq<Signal>, since: nat, id: int, e: Signal)
    requires since <= |log|
    ensures FirstSignal(log + [e], since, id)
         == match FirstSignal(log, since, id)
            case Some(o) => Some(o)
            case None => if e.jobId == id then Some(e.outcome) else None
  {
    assert (log + [e])[..|log|] == log;
  }

  lemma {:induction false} FirstSignalIsFirst(log: seq<Signal>, since: nat, id: int) returns (k: nat)
    ensures FirstSignal(log, since, id).Some? ==>
              since <= k < |log| && log[k] == Signal(id, FirstSignal(log, since, id).value)
    ensures forall j :: since <= j < |log| && (FirstSignal(log, since, id).Some? ==> j < k) ==> log[j].jobId != id
  {
    k := 0;
    if |log| > since {
      var rest := log[..|log| - 1];
      k := FirstSignalIsFirst(rest, since, id);
      assert forall j :: 0 <= j < |rest| ==> rest[j] == log[j];
      if FirstSignal(rest, since, id).None? && log[|log| - 1].jobId == id {
        k := |log| - 1;
      }
    }
  }

  // ---------------------------------------------------------------- invariant

  function HeldBy(w: Worker): C.Held {
    match w
    case Holding(_, outcome, c) => C.Taken(c, outcome)
    case Releasing(_, outcome, c) => C.Released(c, outcome)
    case _ => C.Nothing
  }

  predicate Runs(w: Worker, i: int) {
    (w.Executing? || w.Executed?) && w.job == i
  }

  predicate OutcomeOk(t: Table, job: int, outcome: C.Outcome) {
    && 0 <= job < |t|
    && outcome != C.Pending
    && (outcome == C.Completed ==> t[job].status == Finished)
  }

  /** Exactly the job that the worker is on is running, and what the worker is about
      to tell others matches what it has recorded. */
  ghost predicate WorkerInv(t: Table, w: Worker, hub: C.Hub) {
    && (!w.Idle? ==> w.job < |t|)
    && (forall i :: 0 <= i < |t| ==> (t[i].status == Running <==> Runs(w, i)))
    && (w.Executed? && w.result.Success? ==> Supported(t[w.job].scope))
    && (w.Signalling? || w.Holding? || w.Releasing? ==> OutcomeOk(t, w.job, w.outcome))
    && (w.Holding? || w.Releasing? ==> w.channel < |hub.channels| && hub.channels[w.channel].jobId == w.job)
    && (w.Enriching? ==> w.next < 2 && t[w.job].status == Finished && SyncsACrate(t[w.job].scope))
  }

  ghost predicate LogInv(t: Table, log: seq<Signal>) {
    forall k :: 0 <= k < |log| ==> OutcomeOk(t, log[k].jobId, log[k].outcome)
  }

  ghost predicate OnlySupportedFinish(t: Table) {
    forall i :: 0 <= i < |t| && t[i].status == Finished ==> Supported(t[i].scope)
  }

  /** What a receiver will be, or has been, told: nothing while its channel is still
      registered, and afterwards the first signal given since it subscribed. */
  predicate TellsFirstSignal(hub: C.Hub, w: Worker, log: seq<Signal>, id: int, sub: Subscription)
    requires sub.channel < |hub.channels|
  {
    var told := FirstSignal(log, sub.since, id);
    if C.InMap(hub, sub.channel) then told == None
    else if w.Holding? && w.channel == sub.channel then told == Some(w.outcome)
    else hub.channels[sub.channel].version == 1 && told == Some(hub.channels[sub.channel].value)
  }

  predicate SubscriptionOk(hub: C.Hub, log: seq<Signal>, id: int, sub: Subscription) {
    sub.channel < |hub.channels| && hub.channels[sub.channel].jobId == id && sub.since <= |log|
  }

  /** A finished wait: timed out, or received the first signal since subscribing. */
  predicate ResultOk(hub: C.Hub, log: seq<Signal>, id: int, sub: Subscription, result: WaitResult)
    requires sub.channel < |hub.channels|
  {
    match result
    case TimedOut => true
    case ChannelClosed => false
    case Received(outcome) =>
      && !C.InMap(hub, sub.channel)
      && hub.channels[sub.channel].version == 1 && hub.channels[sub.channel].value == outcome
      && FirstSignal(log, sub.since, id) == Some(outcome)
  }

  predicate HandlerOk(hub: C.Hub, w: Worker, log: seq<Signal>, h: int, handler: Handler) {
    match handler
    case Enqueued(_) => true
    case Ready(_) => true
    case Waiting(id, sub, seen) =>
      && SubscriptionOk(hub, log, id, sub) && h in hub.channels[sub.channel].receivers
      && seen == 0 && TellsFirstSignal(hub, w, log, id, sub)
    case Woken(id, sub, seen) =>
      && SubscriptionOk(hub, log, id, sub) && h in hub.channels[sub.channel].receivers
      && hub.channels[sub.channel].version == 1 && TellsFirstSignal(hub, w, log, id, sub)
    case Done(id, None, result) => result == Received(C.Completed)
    case Done(id, Some(sub), result) => SubscriptionOk(hub, log, id, sub) && ResultOk(hub, log, id, sub, result)
  }

  ghost predicate HandlersInv(s: State) {
    forall h :: h in s.handlers ==> HandlerOk(s.hub, s.worker, s.log, h, s.handlers[h])
  }

  ghost predicate Inv(s: State) {
    && QueueInv(s.table)
    && OnlySupportedFinish(s.table)
    && C.HubInv(s.hub, HeldBy(s.worker))
    && WorkerInv(s.table, s.worker, s.hub)
    && LogInv(s.table, s.log)
    && HandlersInv(s)
  }

  /** The process starts with whatever jobs the database holds, none of them running. */
  ghost predicate Init(s: State) {
    && QueueInv(s.table)
    && OnlySupportedFinish(s.table)
    && (forall i :: 0 <= i < |s.table| ==> s.table[i].status != Running)
    && s.hub == C.Hub(map[], [])
    && s.worker == Idle
    && s.handlers == map[]
    && s.log == []
  }

  lemma InitInv(s: State)
    requires Init(s)
    ensures Inv(s)
  {
  }

  // ---------------------------------------------------------------- steps keep it

  lemma EnqueueKeepsTable(t: Table, crateName: string, scope: string, priority: int, now: int, w: Worker,
                          hub: C.Hub, log: seq<Signal>)
    requires QueueInv(t) && OnlySupportedFinish(t) && WorkerInv(t, w, hub) && LogInv(t, log)
    ensures var t' := RefreshQueue.Enqueued(t, crateName, scope, priority, now).0;
            QueueInv(t') && OnlySupportedFinish(t') && WorkerInv(t', w, hub) && LogInv(t', log)
  {
    EnqueueKeepsInv(t, crateName, scope, priority, now);
  }

  lemma ClaimKeepsInv(s: State)
    requires Inv(s) && Enabled(s, Claim)
    ensures Inv(Apply(s, Claim))
  {
    var job := NextRunnable(s.table, s.now).value;
    UpdateKeepsInv(s.table, job, Claimed(s.table, job, s.now)[job]);
    WorkerStepKeepsHandlers(s, Apply(s, Claim));
  }

  lemma MarkKeepsInv(s: State, nanos: int)
    requires Inv(s) && Enabled(s, Mark(nanos))
    ensures Inv(Apply(s, Mark(nanos)))
  {
    var s' := Apply(s, Mark(nanos));
    UpdateKeepsInv(s.table, s.worker.job, s'.table[s.worker.job]);
    WorkerStepKeepsHandlers(s, s');
  }

  /** Steps that touch neither channels nor signals leave every handler as it was. */
  lemma WorkerStepKeepsHandlers(s: State, s': State)
    requires HandlersInv(s) && s'.hub == s.hub && s'.log == s.log && s'.handlers == s.handlers
    requires !s.worker.Holding? && !s'.worker.Holding?
    ensures HandlersInv(s')
  {
    forall h | h in s'.handlers ensures HandlerOk(s'.hub, s'.worker, s'.log, h, s'.handlers[h]) {
      assert HandlerOk(s.hub, s.worker, s.log, h, s.handlers[h]);
    }
  }

  lemma TakeSenderKeepsInv(s: State)
    requires Inv(s) && Enabled(s, TakeSender)
    ensures Inv(Apply(s, TakeSender))
  {
    var s' := Apply(s, TakeSender);
    var job, outcome := s.worker.job, s.worker.outcome;
    C.TakeKeepsInv(s.hub, job, outcome);
    forall h | h in s'.handlers ensures HandlerOk(s'.hub, s'.worker, s'.log, h, s'.handlers[h]) {
      var handler := s.handlers[h];
      assert HandlerOk(s.hub, s.worker, s.log, h, handler);
      if handler.Waiting? || handler.Woken? {
        FirstSignalOfAppend(s.log, handler.sub.since, handler.jobId, Signal(job, outcome));
        assert C.ChannelOk(s.hub, C.Nothing, handler.sub.channel);
      } else if handler.Done? && handler.via.Some? {
        FirstSignalOfAppend(s.log, handler.via.value.since, handler.jobId, Signal(job, outcome));
      }
    }
  }

  lemma SendKeepsInv(s: State)
    requires Inv(s) && Enabled(s, Send)
    ensures Inv(Apply(s, Send))
  {
    var s' := Apply(s, Send);
    C.SendKeepsInv(s.hub, s.worker.channel, s.worker.outcome);
    forall h | h in s'.handlers ensures HandlerOk(s'.hub, s'.worker, s'.log, h, s'.handlers[h]) {
      assert HandlerOk(s.hub, s.worker, s.log, h, s.handlers[h]);
      assert C.ChannelOk(s.hub, HeldBy(s.worker), s.worker.channel);
    }
  }

  lemma DropSenderKeepsInv(s: State)
    requires Inv(s) && Enabled(s, DropSender)
    ensures Inv(Apply(s, DropSender))
  {
    var s' := Apply(s, DropSender);
    C.DropKeepsInv(s.hub, s.worker.channel, s.worker.outcome);
    forall h | h in s'.handlers ensures HandlerOk(s'.hub, s'.worker, s'.log, h, s'.handlers[h]) {
      assert HandlerOk(s.hub, s.worker, s.log, h, s.handlers[h]);
    }
  }

  lemma TableStepKeepsInv(s: State, step: Step)
    requires Inv(s) && Enabled(s, step)
    requires step.Tick? || step.OutsideEnqueue? || step.Execute? || step.Enrich?
    ensures Inv(Apply(s, step))
  {
    var s' := Apply(s, step);
    match step {
      case Tick(_) =>
        assert HandlersInv(s');
      case OutsideEnqueue(crateName, scope, priority) =>
        EnqueueKeepsTable(s.table, crateName, scope, priority, s.now, s.worker, s.hub, s.log);
        assert HandlersInv(s');
      case Execute(_) =>
        WorkerStepKeepsHandlers(s, s');
      case Enrich =>
        EnqueueKeepsTable(s.table, s.table[s.worker.job].crateName, EnrichmentScope(s.worker.next),
                          PRIORITY_PROACTIVE_ENRICH, s.now, s.worker, s.hub, s.log);
        WorkerStepKeepsHandlers(s, s');
    }
  }

  lemma HandlerStepKeepsInv(s: State, step: Step)
    requires Inv(s) && Enabled(s, step)
    requires step.HandlerEnqueue? || step.HandlerRegister? || step.HandlerAdopt?
    ensures Inv(Apply(s, step))
  {
    var s' := Apply(s, step);
    match step {
      case HandlerEnqueue(h, crateName, scope) =>
        EnqueueKeepsTable(s.table, crateName, scope, PRIORITY_ON_DEMAND, s.now, s.worker, s.hub, s.log);
      case HandlerRegister(h) =>
        C.RegisterKeepsInv(s.hub, HeldBy(s.worker), s.handlers[h].jobId);
      case HandlerAdopt(h, _) =>
    }
    forall x | x in s'.handlers ensures HandlerOk(s'.hub, s'.worker, s'.log, x, s'.handlers[x]) {
      if x in s.handlers {
        assert HandlerOk(s.hub, s.worker, s.log, x, s.handlers[x]);
      }
    }
  }

  lemma SubscribeKeepsInv(s: State, h: int)
    requires Inv(s) && Enabled(s, HandlerSubscribe(h))
    ensures Inv(Subscribed(s, h))
  {
    var s', id := Subscribed(s, h), s.handlers[h].jobId;
    if id in s.hub.waiters {
      C.SubscribeKeepsInv(s.hub, HeldBy(s.worker), id, h);
      assert C.ChannelOk(s.hub, HeldBy(s.worker), s.hub.waiters[id]);
    }
    forall x | x in s'.handlers ensures HandlerOk(s'.hub, s'.worker, s'.log, x, s'.handlers[x]) {
      assert HandlerOk(s.hub, s.worker, s.log, x, s.handlers[x]);
    }
  }

  lemma FinishKeepsInv(s: State, h: int, result: WaitResult)
    requires Inv(s) && h in s.handlers && (s.handlers[h].Waiting? || s.handlers[h].Woken?)
    requires s.handlers[h].sub.channel < |s.hub.channels|
    requires ResultOk(s.hub, s.log, s.handlers[h].jobId, s.handlers[h].sub, result)
    ensures Inv(Finish(s, h, result))
  {
    var s' := Finish(s, h, result);
    C.UnsubscribeKeepsInv(s.hub, HeldBy(s.worker), s.handlers[h].sub.channel, h);
    assert HandlerOk(s.hub, s.worker, s.log, h, s.handlers[h]);
    forall x | x in s'.handlers ensures HandlerOk(s'.hub, s'.worker, s'.log, x, s'.handlers[x]) {
      assert HandlerOk(s.hub, s.worker, s.log, x, s.handlers[x]);
    }
  }

  /** A waiting handler wakes only for a value that has been sent. */
  lemma WaitingSeesTheValue(s: State, h: int)
    requires Inv(s) && h in s.handlers && (s.handlers[h].Waiting? || s.handlers[h].Woken?)
    ensures var c := s.handlers[h].sub.channel;
            && c < |s.hub.channels|
            && var channel := s.hub.channels[c];
               (channel.closed || channel.version > 0 ==>
                  channel.version == 1 && !C.InMap(s.hub, c) && channel.value != C.Pending
                  && FirstSignal(s.log, s.handlers[h].sub.since, s.handlers[h].jobId) == Some(channel.value))
  {
    assert HandlerOk(s.hub, s.worker, s.log, h, s.handlers[h]);
    assert C.ChannelOk(s.hub, HeldBy(s.worker), s.handlers[h].sub.channel);
  }

  lemma ReceiveStepKeepsInv(s: State, step: Step)
    requires Inv(s) && Enabled(s, step)
    requires step.HandlerChanged? || step.HandlerBorrow? || step.HandlerTimeout?
    ensures Inv(Apply(s, step))
  {
    var h := step.h;
    var handler := s.handlers[h];
    assert HandlerOk(s.hub, s.worker, s.log, h, handler);
    WaitingSeesTheValue(s, h);
    match step {
      case HandlerChanged(_) =>
        var s' := Apply(s, step);
        forall x | x in s'.handlers ensures HandlerOk(s'.hub, s'.worker, s'.log, x, s'.handlers[x]) {
          assert HandlerOk(s.hub, s.worker, s.log, x, s.handlers[x]);
        }
      case HandlerBorrow(_) =>
        FinishKeepsInv(s, h, Received(s.hub.channels[handler.sub.channel].value));
      case HandlerTimeout(_) =>
        FinishKeepsInv(s, h, TimedOut);
    }
  }

  lemma StepKeepsInv(s: State, step: Step)
    requires Inv(s) && Enabled(s, step)
    ensures Inv(Apply(s, step))
  {
    match step {
      case Claim => ClaimKeepsInv(s);
      case Mark(nanos) => MarkKeepsInv(s, nanos);
      case TakeSender => TakeSenderKeepsInv(s);
      case Send => SendKeepsInv(s);
      case DropSender => DropSenderKeepsInv(s);
      case HandlerEnqueue(_, _, _) => HandlerStepKeepsInv(s, step);
      case HandlerRegister(_) => HandlerStepKeepsInv(s, step);
      case HandlerAdopt(_, _) => HandlerStepKeepsInv(s, step);
      case HandlerSubscribe(h) => SubscribeKeepsInv(s, h);
      case HandlerChanged(_) => ReceiveStepKeepsInv(s, step);
      case HandlerBorrow(_) => ReceiveStepKeepsInv(s, step);
      case HandlerTimeout(_) => ReceiveStepKeepsInv(s, step);
      case _ => TableStepKeepsInv(s, step);
    }
  }
}
