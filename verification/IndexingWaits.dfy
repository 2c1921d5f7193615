/**
 Exactly when a completion that a tool handler reports is true, and exactly when a
 waiting handler can still be told anything.
 */
module IndexingWaits {
  import opened Options
  import opened RefreshQueue
  import opened RetryDelay
  import opened IndexingSystem
  import opened IndexingRuns
  import C = Coordinator

  ghost predicate Finishes(t: Table, id: int) {
    0 <= id < |t| && t[id].status == Finished
  }

  // ---------------------------------------------------------------- truthful completions

  /** A continuation of `s` that begins with the subscribing step of handler `h` and in
      whose state `j` the handler has reported completion. */
  ghost predicate ReportsCompletion(s: State, h: int, states: seq<State>, steps: seq<Step>, j: nat) {
    && IsTrace(states, steps) && j < |states| && |steps| > 0
    && states[0] == s && steps[0] == HandlerSubscribe(h)
    && h in states[j].handlers && states[j].handlers[h].Done?
    && states[j].handlers[h].result == Received(C.Completed)
  }

  lemma CompletionThroughSubscription(s: State, h: int, states: seq<State>, steps: seq<Step>, j: nat)
    requires Inv(s) && ReportsCompletion(s, h, states, steps, j) && s.handlers[h].jobId in s.hub.waiters
    ensures Finishes(states[j].table, s.handlers[h].jobId)
  {
    TraceKeepsInv(states, steps, j);
    assert states[1] == Subscribed(s, h);
    assert j > 0;
    SubscriptionIsKept(states, steps, h, 1, j);
    var s' := states[j];
    var sub := s'.handlers[h].via.value;
    assert HandlerOk(s'.hub, s'.worker, s'.log, h, s'.handlers[h]);
    var k := FirstSignalIsFirst(s'.log, sub.since, s.handlers[h].jobId);
    assert OutcomeOk(s'.table, s'.log[k].jobId, s'.log[k].outcome);
  }

  /** When a handler is about to look for its waiter: every completion that it may then
      report, however the run goes on, is true if and only if the waiter is there or
      the job has finished already. */
  lemma CompletionIsTruthfulExactlyWhen(s: State, h: int)
    requires Inv(s) && Enabled(s, HandlerSubscribe(h))
    ensures (forall states: seq<State>, steps: seq<Step>, j: nat :: ReportsCompletion(s, h, states, steps, j) ==>
               Finishes(states[j].table, s.handlers[h].jobId))
       <==> s.handlers[h].jobId in s.hub.waiters || Finishes(s.table, s.handlers[h].jobId)
  {
    var id := s.handlers[h].jobId;
    if id in s.hub.waiters || Finishes(s.table, id) {
      forall states: seq<State>, steps: seq<Step>, j: nat | ReportsCompletion(s, h, states, steps, j) ensures Finishes(states[j].table, id) {
        if id in s.hub.waiters {
          CompletionThroughSubscription(s, h, states, steps, j);
        } else {
          SettledJobsNeverChange(states, steps, 0, j);
          assert RowEvolves(s.table[id], states[j].table[id]);
        }
      }
    } else {
      var states, steps := [s, Apply(s, HandlerSubscribe(h))], [HandlerSubscribe(h)];
      assert ReportsCompletion(s, h, states, steps, 1);
      assert states[1].table == s.table;
    }
  }

  // ---------------------------------------------------------------- a wait in vain

  /** A handler has enqueued a job, and the worker runs it before the handler goes on. */
  lemma FinishUnnoticed(crateName: string, scope: string) returns (states: seq<State>, steps: seq<Step>)
    requires Supported(scope)
    ensures IsRun(states, steps)
    ensures var s := states[|steps|];
            && s.worker == Signalling(0, C.Completed) && s.handlers == map[7 := Enqueued(0)]
            && s.hub == C.Hub(map[], []) && s.table != [] && s.table[0].status == Finished && s.table[0].scope == scope
  {
    states, steps := [State(0, [], C.Hub(map[], []), Idle, map[], [])], [];
    states, steps := Extend(states, steps, HandlerEnqueue(7, crateName, scope));
    assert states[|steps|].table == [NewJob(crateName, scope, PRIORITY_ON_DEMAND, 0)];
    assert Runnable(states[|steps|].table[0], 0);
    states, steps := Extend(states, steps, Claim);
    states, steps := Extend(states, steps, Execute(Success));
    states, steps := Extend(states, steps, Mark(0));
  }

  /** A job finishes before its handler registers: the handler then waits on a channel
      on which nothing can come. */
  lemma LateRegistrationWaitsInVain(crateName: string, scope: string) returns (states: seq<State>, steps: seq<Step>)
    requires Supported(scope)
    ensures IsRun(states, steps) && 7 in states[|steps|].handlers && states[|steps|].handlers[7].Waiting?
    ensures var s := states[|steps|]; WaitsInVain(s, 7, s.handlers[7].jobId, s.handlers[7].sub)
  {
    states, steps := FinishUnnoticed(crateName, scope);
    states, steps := Extend(states, steps, TakeSender);
    ghost var after := states[|steps|];
    assert after.hub == C.Hub(map[], []) && !after.worker.Signalling?;
    states, steps := Extend(states, steps, HandlerRegister(7));
    assert states[|steps|].hub.waiters == map[0 := 0];
    states, steps := Extend(states, steps, HandlerSubscribe(7));
  }

  // ---------------------------------------------------------------- reaching a signal

  /** Steps that the worker still has to take before it is idle. */
  function Rank(w: Worker): nat {
    match w
    case Executing(_) => 7
    case Executed(_, _) => 6
    case Signalling(_, _) => 5
    case Holding(_, _, _) => 4
    case Releasing(_, _, _) => 3
    case Enriching(_, next) => if next == 0 then 2 else 1
    case Idle => 0
  }

  function TimeToDue(s: State, id: int): nat
    requires 0 <= id < |s.table|
  {
    if s.table[id].requestedAt > s.now then s.table[id].requestedAt - s.now else 0
  }

  /** A step that brings the worker closer to signalling job `id`: it goes on with what
      it does, which fails, or waits until the job is due, or claims. */
  function Forward(s: State, id: int): Step
    requires 0 <= id < |s.table|
  {
    match s.worker
    case Idle => if TimeToDue(s, id) > 0 then Tick(TimeToDue(s, id)) else Claim
    case Executing(_) => Execute(Failure("failed"))
    case Executed(_, _) => Mark(0)
    case Signalling(_, _) => TakeSender
    case Holding(_, _, _) => Send
    case Releasing(_, _, _) => DropSender
    case Enriching(_, _) => Enrich
  }

  lemma ForwardIsEnabled(s: State, id: int)
    requires Inv(s) && 0 <= id < |s.table| && Active(s.table[id])
    ensures Enabled(s, Forward(s, id))
  {
    if s.worker.Idle? && TimeToDue(s, id) == 0 {
      assert Runnable(s.table[id], s.now);
      IdleWorkerClaimsWhatIsDue(s, id);
    }
  }

  /** Going forward leaves the job to be signalled and the handler waiting. */
  lemma ForwardKeepsWaiting(s: State, h: int, id: int, sub: Subscription)
    requires Inv(s) && WaitsRegistered(s, h, id, sub) && Active(s.table[id])
    requires !(s.worker.Signalling? && s.worker.job == id) && Enabled(s, Forward(s, id))
    ensures WaitsRegistered(Apply(s, Forward(s, id)), h, id, sub)
    ensures SignalToCome(Apply(s, Forward(s, id)), id)
  {
    StepEvolves(s, Forward(s, id));
  }

  lemma ForwardIsProgress(s: State, id: int)
    requires Inv(s) && 0 <= id < |s.table| && Active(s.table[id]) && Enabled(s, Forward(s, id))
    ensures var s' := Apply(s, Forward(s, id));
            && Potential(s') <= Potential(s) && id < |s'.table|
            && (Potential(s') < Potential(s) || Rank(s'.worker) < Rank(s.worker)
                || (s'.worker == s.worker == Idle && TimeToDue(s', id) < TimeToDue(s, id)))
  {
    StepSpendsPotential(s, Forward(s, id));
    StepEvolves(s, Forward(s, id));
  }

  lemma PrependStep(s: State, step: Step, states: seq<State>, steps: seq<Step>)
    requires IsTrace(states, steps) && Enabled(s, step) && states[0] == Apply(s, step)
    ensures IsTrace([s] + states, [step] + steps)
  {
    var states', steps' := [s] + states, [step] + steps;
    forall i | 0 <= i < |steps'| ensures Enabled(states'[i], steps'[i]) && states'[i + 1] == Apply(states'[i], steps'[i]) {
      if i > 0 {
        assert states'[i] == states[i - 1] && steps'[i] == steps[i - 1] && states'[i + 1] == states[i];
      }
    }
  }

  lemma ExtendTrace(states: seq<State>, steps: seq<Step>, step: Step) returns (states': seq<State>, steps': seq<Step>)
    requires IsTrace(states, steps) && Enabled(states[|steps|], step)
    ensures IsTrace(states', steps') && states'[0] == states[0]
    ensures states'[|steps'|] == Apply(states[|steps|], step)
  {
    states', steps' := states + [Apply(states[|steps|], step)], steps + [step];
  }

  /** While the job has not settled the worker can get to signalling it, however much
      other work comes first. */
  lemma {:induction false} SignalIsReached(s: State, h: int, id: int, sub: Subscription)
    returns (states: seq<State>, steps: seq<Step>)
    requires Inv(s) && WaitsRegistered(s, h, id, sub) && SignalToCome(s, id)
    ensures IsTrace(states, steps) && states[0] == s
    ensures var last := states[|steps|];
            WaitsRegistered(last, h, id, sub) && last.worker.Signalling? && last.worker.job == id
    decreases Potential(s), Rank(s.worker), TimeToDue(s, id)
  {
    if s.worker.Signalling? && s.worker.job == id {
      return [s], [];
    }
    ForwardIsEnabled(s, id);
    ForwardKeepsWaiting(s, h, id, sub);
    ForwardIsProgress(s, id);
    PotentialIsNatural(s);
    var s' := Apply(s, Forward(s, id));
    StepKeepsInv(s, Forward(s, id));
    states, steps := SignalIsReached(s', h, id, sub);
    PrependStep(s, Forward(s, id), states, steps);
    states, steps := [s] + states, [Forward(s, id)] + steps;
  }

  // ---------------------------------------------------------------- being told

  /** A continuation of `s` at the end of which the handler has received an outcome. */
  ghost predicate ToldBy(s: State, h: int, states: seq<State>, steps: seq<Step>) {
    && IsTrace(states, steps) && states[0] == s
    && h in states[|steps|].handlers && states[|steps|].handlers[h].Done? && states[|steps|].handlers[h].result.Received?
  }

  ghost predicate CanBeTold(s: State, h: int) {
    exists states: seq<State>, steps: seq<Step> :: ToldBy(s, h, states, steps)
  }

  /** A handler whose channel holds a value receives it. */
  lemma ValueIsReceived(states: seq<State>, steps: seq<Step>, h: int)
    returns (states': seq<State>, steps': seq<Step>)
    requires IsTrace(states, steps)
    requires var s := states[|steps|];
             && h in s.handlers && s.handlers[h].Waiting? && s.handlers[h].sub.channel < |s.hub.channels|
             && s.handlers[h].seen == 0
             && var channel := s.hub.channels[s.handlers[h].sub.channel]; channel.version == 1 && channel.value != C.Pending
    ensures ToldBy(states[0], h, states', steps')
  {
    states', steps' := ExtendTrace(states, steps, HandlerChanged(h));
    states', steps' := ExtendTrace(states', steps', HandlerBorrow(h));
  }

  /** A waiting handler whose sender the worker has taken can be told. */
  lemma HeldSignalIsReceived(states: seq<State>, steps: seq<Step>, h: int)
    returns (states': seq<State>, steps': seq<Step>)
    requires IsTrace(states, steps) && Inv(states[|steps|])
    requires var s := states[|steps|];
             && h in s.handlers && s.handlers[h].Waiting?
             && s.worker.Holding? && s.worker.channel == s.handlers[h].sub.channel
    ensures ToldBy(states[0], h, states', steps')
  {
    var s := states[|steps|];
    assert HandlerOk(s.hub, s.worker, s.log, h, s.handlers[h]);
    assert C.ChannelOk(s.hub, HeldBy(s.worker), s.worker.channel);
    states', steps' := ExtendTrace(states, steps, Send);
    states', steps' := ValueIsReceived(states', steps', h);
  }

  /** A handler that waits on the registered channel of its job can still be told
      something if and only if the job has not settled or is about to be signalled. */
  lemma RegisteredWaiterIsToldExactlyWhen(s: State, h: int, id: int, sub: Subscription)
    requires Inv(s) && WaitsRegistered(s, h, id, sub)
    ensures CanBeTold(s, h) <==> SignalToCome(s, id)
  {
    if SignalToCome(s, id) {
      var states, steps := SignalIsReached(s, h, id, sub);
      TraceKeepsInv(states, steps, |steps|);
      var taken := Apply(states[|steps|], TakeSender);
      StepKeepsInv(states[|steps|], TakeSender);
      states, steps := ExtendTrace(states, steps, TakeSender);
      assert taken.worker.Holding? && taken.worker.channel == sub.channel;
      states, steps := HeldSignalIsReceived(states, steps, h);
    }
    forall states: seq<State>, steps: seq<Step> | ToldBy(s, h, states, steps) ensures SignalToCome(s, id) {
      if !SignalToCome(s, id) {
        LateWaiterOnlyTimesOut(states, steps, 0, |steps|, h);
      }
    }
  }

  /** A waiting handler whose channel is no longer registered can always be told. */
  lemma SignalledWaiterIsTold(s: State, h: int)
    requires Inv(s) && h in s.handlers && s.handlers[h].Waiting?
    requires s.handlers[h].sub.channel < |s.hub.channels| && !C.InMap(s.hub, s.handlers[h].sub.channel)
    ensures CanBeTold(s, h)
  {
    assert HandlerOk(s.hub, s.worker, s.log, h, s.handlers[h]);
    assert C.ChannelOk(s.hub, HeldBy(s.worker), s.handlers[h].sub.channel);
    assert IsTrace([s], []);
    var states: seq<State>, steps: seq<Step>;
    if s.worker.Holding? && s.worker.channel == s.handlers[h].sub.channel {
      states, steps := HeldSignalIsReceived([s], [], h);
    } else {
      states, steps := ValueIsReceived([s], [], h);
    }
  }

  /** Jobs with a registered channel, and jobs that a handler is about to register, have
      rows. */
  ghost predicate RowsForWaiters(s: State) {
    && (forall id :: id in s.hub.waiters ==> 0 <= id < |s.table|)
    && (forall h :: h in s.handlers && s.handlers[h].Enqueued? ==> 0 <= s.handlers[h].jobId < |s.table|)
  }

  lemma StepKeepsRowsForWaiters(s: State, step: Step)
    requires Inv(s) && RowsForWaiters(s) && Enabled(s, step)
    ensures RowsForWaiters(Apply(s, step))
  {
    StepEvolves(s, step);
  }

  lemma {:induction false} RunKeepsRowsForWaiters(states: seq<State>, steps: seq<Step>, i: nat)
    requires IsRun(states, steps) && i < |states|
    ensures RowsForWaiters(states[i])
  {
    if i > 0 {
      RunKeepsRowsForWaiters(states, steps, i - 1);
      RunKeepsInv(states, steps, i - 1);
      StepKeepsRowsForWaiters(states[i - 1], steps[i - 1]);
    }
  }

  /** In every reachable state: a waiting handler can still be told something if and only
      if its channel has been taken up already, or its job has not settled, or the worker
      is about to signal it. All others wait until they time out. */
  lemma WaiterIsToldExactlyWhen(states: seq<State>, steps: seq<Step>, i: nat, h: int)
    requires IsRun(states, steps) && i < |states| && h in states[i].handlers && states[i].handlers[h].Waiting?
    ensures states[i].handlers[h].sub.channel < |states[i].hub.channels|
    ensures CanBeTold(states[i], h) <==>
              !C.InMap(states[i].hub, states[i].handlers[h].sub.channel)
              || SignalToCome(states[i], states[i].handlers[h].jobId)
  {
    var s := states[i];
    RunKeepsInv(states, steps, i);
    RunKeepsRowsForWaiters(states, steps, i);
    assert HandlerOk(s.hub, s.worker, s.log, h, s.handlers[h]);
    if C.InMap(s.hub, s.handlers[h].sub.channel) {
      RegisteredWaiterIsToldExactlyWhen(s, h, s.handlers[h].jobId, s.handlers[h].sub);
    } else {
      SignalledWaiterIsTold(s, h);
    }
  }
}
