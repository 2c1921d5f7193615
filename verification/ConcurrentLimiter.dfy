/**
 Any number of tasks acquiring from one rate limiter at once. Each lock operation,
 clock reading and sleep is a step of its own. A task keeps the burst lock while it
 sleeps for the burst gate, but gives up the window lock while it sleeps for the
 window.
 */
module ConcurrentLimiter {
  import opened Options
  import opened RateLimiter

  datatype Task =
    | AtBurst
    | InBurst
    | BurstSleep(until: int)
    | BurstReady
    | AtWindow
    | InWindow
    | Inspected
    | WindowSleep(until: int)
    | Woken
    | InWindowAgain
    | Recording
    | Done

  datatype State = State(now: int, nextAllowedAt: int, timestamps: seq<int>, burstOwner: Option<int>,
                         windowOwner: Option<int>, tasks: map<int, Task>, passes: seq<int>, grants: seq<int>)

  datatype Step =
    | Tick(elapsed: nat)
    | Spawn(id: int)
    | LockBurst(id: int)
    | ReadBurst(id: int)
    | WakeBurst(id: int)
    | PassBurst(id: int)
    | LockWindow(id: int)
    | EvictOld(id: int)
    | DecideWindow(id: int)
    | WakeWindow(id: int)
    | RelockWindow(id: int)
    | EvictAgain(id: int)
    | Record(id: int)

  predicate Is(s: State, id: int, task: Task) {
    id in s.tasks && s.tasks[id] == task
  }

  predicate Enabled(c: Config, s: State, step: Step) {
    match step
    case Tick(_) => true
    case Spawn(id) => id !in s.tasks
    case LockBurst(id) => Is(s, id, AtBurst) && s.burstOwner.None?
    case ReadBurst(id) => Is(s, id, InBurst)
    case WakeBurst(id) => id in s.tasks && s.tasks[id].BurstSleep? && s.now >= s.tasks[id].until
    case PassBurst(id) => Is(s, id, BurstReady)
    case LockWindow(id) => Is(s, id, AtWindow) && s.windowOwner.None?
    case EvictOld(id) => Is(s, id, InWindow)
    case DecideWindow(id) => Is(s, id, Inspected)
    case WakeWindow(id) => id in s.tasks && s.tasks[id].WindowSleep? && s.now >= s.tasks[id].until
    case RelockWindow(id) => Is(s, id, Woken) && s.windowOwner.None?
    case EvictAgain(id) => Is(s, id, InWindowAgain)
    case Record(id) => Is(s, id, Recording)
  }

  function Move(s: State, id: int, task: Task): State {
    s.(tasks := s.tasks[id := task])
  }

  function Apply(c: Config, s: State, step: Step): State
    requires Enabled(c, s, step)
  {
    match step
    case Tick(elapsed) => s.(now := s.now + elapsed)
    case Spawn(id) => Move(s, id, AtBurst)
    case LockBurst(id) => Move(s, id, InBurst).(burstOwner := Some(id))
    case ReadBurst(id) => Move(s, id, if s.nextAllowedAt > s.now then BurstSleep(s.nextAllowedAt) else BurstReady)
    case WakeBurst(id) => Move(s, id, BurstReady)
    case PassBurst(id) =>
      Move(s, id, if c.windowMax > 0 then AtWindow else Done)
      .(nextAllowedAt := s.now + c.burstInterval, burstOwner := None, passes := s.passes + [s.now])
    case LockWindow(id) => Move(s, id, InWindow).(windowOwner := Some(id))
    case EvictOld(id) => Move(s, id, Inspected).(timestamps := Evict(s.timestamps, s.now - c.windowDuration))
    case DecideWindow(id) =>
      if MustWait(c, s.timestamps, s.now) then
        Move(s, id, WindowSleep(s.timestamps[0] + c.windowDuration)).(windowOwner := None)
      else Move(s, id, Recording)
    case WakeWindow(id) => Move(s, id, Woken)
    case RelockWindow(id) => Move(s, id, InWindowAgain).(windowOwner := Some(id))
    case EvictAgain(id) => Move(s, id, Recording).(timestamps := Evict(s.timestamps, s.now - c.windowDuration))
    case Record(id) =>
      Move(s, id, Done)
      .(timestamps := s.timestamps + [s.now], windowOwner := None, grants := s.grants + [s.now])
  }

  predicate HoldsBurst(task: Task) {
    task.InBurst? || task.BurstSleep? || task.BurstReady?
  }

  predicate HoldsWindow(task: Task) {
    task.InWindow? || task.Inspected? || task.InWindowAgain? || task.Recording?
  }

  ghost predicate Init(s: State) {
    && s.nextAllowedAt <= s.now && s.timestamps == [] && s.burstOwner == None && s.windowOwner == None
    && s.tasks == map[] && s.passes == [] && s.grants == []
  }

  ghost predicate IsRun(c: Config, states: seq<State>, steps: seq<Step>) {
    && |states| == |steps| + 1
    && Init(states[0])
    && forall i :: 0 <= i < |steps| ==> Enabled(c, states[i], steps[i]) && states[i + 1] == Apply(c, states[i], steps[i])
  }

  /** What a deque has to satisfy while it is being inspected: everything that has
      left it is older than the window now. */
  ghost predicate Suffix(c: Config, q: seq<int>, grants: seq<int>, now: int) {
    && Sorted(grants) && NotBefore(grants, now)
    && |q| <= |grants| && q == grants[|grants| - |q|..]
    && forall i :: 0 <= i < |grants| - |q| ==> grants[i] + c.windowDuration < now
  }

  /** The burst gate keeps its promise under every interleaving. */
  lemma {:induction false} BurstPassesAreSpaced(c: Config, states: seq<State>, steps: seq<Step>, i: nat)
    requires IsRun(c, states, steps) && i < |states|
    ensures BurstInv(c, states[i])
    ensures forall k :: 0 < k < |states[i].passes| ==>
              states[i].passes[k] >= states[i].passes[k - 1] + c.burstInterval
  {
    if i > 0 {
      BurstPassesAreSpaced(c, states, steps, i - 1);
      StepKeepsBurst(c, states[i - 1], steps[i - 1]);
    }
  }

  /** Whoever is in the burst gate owns its lock, and sleeps until its turn. */
  predicate InTurn(owner: Option<int>, next: int, now: int, id: int, task: Task) {
    && (HoldsBurst(task) ==> owner == Some(id))
    && (task.BurstReady? ==> next <= now)
    && (task.BurstSleep? ==> task.until == next)
  }

  ghost predicate BurstInv(c: Config, s: State) {
    && (forall id :: id in s.tasks ==> InTurn(s.burstOwner, s.nextAllowedAt, s.now, id, s.tasks[id]))
    && PassesInv(c.burstInterval, s.passes, s.nextAllowedAt)
  }

  lemma StepKeepsBurst(c: Config, s: State, step: Step)
    requires BurstInv(c, s) && Enabled(c, s, step)
    ensures BurstInv(c, Apply(c, s, step))
  {
  }

  ghost predicate OwnerInv(s: State) {
    forall id :: id in s.tasks && HoldsWindow(s.tasks[id]) ==> s.windowOwner == Some(id)
  }

  /** So does the deque: it stays a sorted suffix of the grants, and no grant that is
      still within the window is missing from it. */
  ghost predicate WindowStateInv(c: Config, s: State) {
    OwnerInv(s) && Suffix(c, s.timestamps, s.grants, s.now)
  }

  lemma StepKeepsOwner(c: Config, s: State, step: Step)
    requires OwnerInv(s) && Enabled(c, s, step)
    ensures OwnerInv(Apply(c, s, step))
  {
  }

  lemma StepKeepsWindowState(c: Config, s: State, step: Step)
    requires WindowStateInv(c, s) && Enabled(c, s, step)
    ensures WindowStateInv(c, Apply(c, s, step))
  {
    StepKeepsOwner(c, s, step);
    match step {
      case EvictOld(_) => EvictionKeepsSuffix(c, s);
      case EvictAgain(_) => EvictionKeepsSuffix(c, s);
      case Record(_) => RecordKeepsSuffix(c, s);
      case Tick(elapsed) => TimeKeepsSuffix(c, s.timestamps, s.grants, s.now, s.now + elapsed);
      case _ => assert Apply(c, s, step).timestamps == s.timestamps && Apply(c, s, step).grants == s.grants;
    }
  }

  lemma TimeKeepsSuffix(c: Config, q: seq<int>, grants: seq<int>, now: int, later: int)
    requires Suffix(c, q, grants, now) && now <= later
    ensures Suffix(c, q, grants, later)
  {
  }

  lemma EvictionKeepsSuffix(c: Config, s: State)
    requires Suffix(c, s.timestamps, s.grants, s.now)
    ensures Suffix(c, Evict(s.timestamps, s.now - c.windowDuration), s.grants, s.now)
  {
    EvictionFromHistory(c, s.timestamps, s.grants, s.now);
  }

  lemma RecordKeepsSuffix(c: Config, s: State)
    requires Suffix(c, s.timestamps, s.grants, s.now)
    ensures Suffix(c, s.timestamps + [s.now], s.grants + [s.now], s.now)
  {
    var grants' := s.grants + [s.now];
    assert grants'[|s.grants| - |s.timestamps|..] == s.timestamps + [s.now];
  }

  lemma {:induction false} DequeHoldsTheWindow(c: Config, states: seq<State>, steps: seq<Step>, i: nat)
    requires IsRun(c, states, steps) && i < |states|
    ensures WindowStateInv(c, states[i])
    ensures forall k :: 0 <= k < |states[i].grants| && states[i].grants[k] + c.windowDuration >= states[i].now ==>
              states[i].grants[k] in states[i].timestamps
  {
    if i > 0 {
      DequeHoldsTheWindow(c, states, steps, i - 1);
      StepKeepsWindowState(c, states[i - 1], steps[i - 1]);
    }
    NothingMissing(c, states[i].timestamps, states[i].grants, states[i].now);
  }

  lemma NothingMissing(c: Config, q: seq<int>, grants: seq<int>, now: int)
    requires Suffix(c, q, grants, now)
    ensures forall k :: 0 <= k < |grants| && grants[k] + c.windowDuration >= now ==> grants[k] in q
  {
    SuffixElements(grants, |q|);
    forall k | 0 <= k < |grants| && grants[k] + c.windowDuration >= now ensures grants[k] in q {
      assert k >= |grants| - |q| && grants[k] == q[k - (|grants| - |q|)];
    }
  }

  // ---------------------------------------------------------------- when tasks wait

  /** A task that inspects the window and decides at one instant sleeps if and only if at
      least `windowMax` grants are still in the window and the oldest of them has not
      reached its deadline; it sleeps until exactly that deadline. Otherwise it goes on to
      record, and nobody else can come in between. */
  lemma TaskSleepsExactlyWhenFull(c: Config, s: State, id: int)
    requires c.windowMax > 0 && WindowStateInv(c, s) && Is(s, id, InWindow)
    ensures Enabled(c, Apply(c, s, EvictOld(id)), DecideWindow(id))
    ensures var decided := Apply(c, Apply(c, s, EvictOld(id)), DecideWindow(id));
            var within := StillInWindow(c, s.grants, s.now);
            && decided.timestamps == within
            && decided.tasks[id] == (if |within| >= c.windowMax && within[0] + c.windowDuration > s.now
                                     then WindowSleep(within[0] + c.windowDuration) else Recording)
            && decided.windowOwner == (if decided.tasks[id].Recording? then Some(id) else None)
  {
    EvictionLeavesTheWindow(c, s.timestamps, s.grants, s.now);
  }

  /** At the burst gate a task sleeps if and only if the interval since the last pass is
      not over; it sleeps until exactly its end. */
  lemma TaskWaitsForTheInterval(c: Config, s: State, id: int)
    requires BurstInv(c, s) && Is(s, id, InBurst) && s.passes != []
    ensures var due := s.passes[|s.passes| - 1] + c.burstInterval;
            Apply(c, s, ReadBurst(id)).tasks[id] == if due > s.now then BurstSleep(due) else BurstReady
  {
  }

  // ---------------------------------------------------------------- the window bound

  lemma Extend(c: Config, states: seq<State>, steps: seq<Step>, step: Step)
    returns (states': seq<State>, steps': seq<Step>)
    requires IsRun(c, states, steps) && Enabled(c, states[|steps|], step)
    ensures IsRun(c, states', steps') && states'[|steps'|] == Apply(c, states[|steps|], step)
  {
    states', steps' := states + [Apply(c, states[|steps|], step)], steps + [step];
  }

  /** A task goes through the burst gate and locks the window, undisturbed. */
  lemma ReachWindow(c: Config, states: seq<State>, steps: seq<Step>, id: int)
    returns (states': seq<State>, steps': seq<Step>)
    requires IsRun(c, states, steps) && c.burstInterval == 0 && c.windowMax > 0
    requires var s := states[|steps|];
             id !in s.tasks && s.burstOwner.None? && s.windowOwner.None? && s.nextAllowedAt <= s.now
    ensures IsRun(c, states', steps')
    ensures var s, s' := states[|steps|], states'[|steps'|];
            s' == Move(s, id, Inspected).(nextAllowedAt := s.now, passes := s.passes + [s.now], windowOwner := Some(id),
                                          timestamps := Evict(s.timestamps, s.now - c.windowDuration))
  {
    states', steps' := Extend(c, states, steps, Spawn(id));
    states', steps' := Extend(c, states', steps', LockBurst(id));
    states', steps' := Extend(c, states', steps', ReadBurst(id));
    states', steps' := Extend(c, states', steps', PassBurst(id));
    states', steps' := Extend(c, states', steps', LockWindow(id));
    states', steps' := Extend(c, states', steps', EvictOld(id));
    var s := states[|steps|];
    assert states'[|steps'|].tasks == s.tasks[id := Inspected];
  }

  /** A task that has slept for the window records its request, undisturbed. */
  lemma WakeAndRecord(c: Config, states: seq<State>, steps: seq<Step>, id: int)
    returns (states': seq<State>, steps': seq<Step>)
    requires IsRun(c, states, steps)
    requires var s := states[|steps|];
             id in s.tasks && s.tasks[id].WindowSleep? && s.tasks[id].until <= s.now && s.windowOwner.None?
    ensures IsRun(c, states', steps')
    ensures var s, s' := states[|steps|], states'[|steps'|];
            s' == Move(s, id, Done).(timestamps := Evict(s.timestamps, s.now - c.windowDuration) + [s.now],
                                     grants := s.grants + [s.now])
  {
    states', steps' := Extend(c, states, steps, WakeWindow(id));
    states', steps' := Extend(c, states', steps', RelockWindow(id));
    states', steps' := Extend(c, states', steps', EvictAgain(id));
    states', steps' := Extend(c, states', steps', Record(id));
    var s := states[|steps|];
    assert states'[|steps'|].tasks == s.tasks[id := Done];
  }

  /** One request has been granted, and two tasks sleep until it leaves the window. */
  lemma TwoTasksSleep() returns (states: seq<State>, steps: seq<Step>)
    ensures IsRun(ONE_PER_TEN, states, steps)
    ensures var s := states[|steps|];
            && s.now == 1 && s.timestamps == [0] && s.grants == [0] && s.windowOwner == None
            && s.tasks == map[1 := Done, 2 := WindowSleep(10), 3 := WindowSleep(10)]
  {
    var c := ONE_PER_TEN;
    states, steps := [State(0, 0, [], None, None, map[], [], [])], [];
    states, steps := ReachWindow(c, states, steps, 1);
    states, steps := Extend(c, states, steps, DecideWindow(1));
    states, steps := Extend(c, states, steps, Record(1));
    assert states[|steps|].timestamps == [0] && states[|steps|].grants == [0];
    states, steps := Extend(c, states, steps, Tick(1));
    states, steps := ReachWindow(c, states, steps, 2);
    assert states[|steps|].timestamps == [0];
    states, steps := Extend(c, states, steps, DecideWindow(2));
    states, steps := ReachWindow(c, states, steps, 3);
    assert states[|steps|].timestamps == [0];
    states, steps := Extend(c, states, steps, DecideWindow(3));
  }

  /** The window bound does not survive concurrency. With one request per 10 units,
      two tasks find the window full, sleep for the same entry, and are both granted
      when it expires, because the window is not inspected again. */
  lemma ConcurrentTasksOverrunTheWindow() returns (states: seq<State>, steps: seq<Step>)
    ensures IsRun(ONE_PER_TEN, states, steps)
    ensures states[|steps|].grants == [0, 11, 11] && !Spaced(ONE_PER_TEN, states[|steps|].grants)
  {
    var c := ONE_PER_TEN;
    states, steps := TwoTasksSleep();
    states, steps := Extend(c, states, steps, Tick(10));
    states, steps := WakeAndRecord(c, states, steps, 2);
    states, steps := WakeAndRecord(c, states, steps, 3);
    var grants := states[|steps|].grants;
    assert grants == [0, 11, 11];
    assert grants[1 + 1] < grants[1] + 10;
  }

  // ---------------------------------------------------------------- when the bound holds

  /** What a second inspection would establish: there is room in the deque, or the entry
      that would make one too many has expired. */
  predicate Room(c: Config, q: seq<int>, now: int)
    requires c.windowMax > 0
  {
    |q| < c.windowMax || q[|q| - c.windowMax] + c.windowDuration <= now
  }

  /** Whatever has happened before, a grant at `now` respects the window if and only if
      a second inspection would find room. */
  lemma GrantRespectsWindowExactlyWhenRoom(c: Config, q: seq<int>, grants: seq<int>, now: int)
    requires c.windowMax > 0 && Suffix(c, q, grants, now)
    ensures RespectsWindow(c, grants, now) <==> Room(c, q, now)
  {
    SuffixElements(grants, |q|);
    if |grants| >= c.windowMax && |q| >= c.windowMax {
      assert grants[|grants| - c.windowMax] == q[|q| - c.windowMax];
    }
  }

  lemma SpacedOneMore(c: Config, grants: seq<int>, grant: int)
    requires c.windowMax > 0
    ensures Spaced(c, grants + [grant]) <==> Spaced(c, grants) && RespectsWindow(c, grants, grant)
  {
    var grants' := grants + [grant];
    if Spaced(c, grants') {
      forall k | 0 <= k < |grants| - c.windowMax ensures grants[k + c.windowMax] >= grants[k] + c.windowDuration {
        assert grants'[k + c.windowMax] >= grants'[k] + c.windowDuration;
      }
      if |grants| >= c.windowMax {
        var k := |grants| - c.windowMax;
        assert grants'[k + c.windowMax] >= grants'[k] + c.windowDuration;
      }
    }
    if Spaced(c, grants) && RespectsWindow(c, grants, grant) {
      forall k | 0 <= k < |grants'| - c.windowMax ensures grants'[k + c.windowMax] >= grants'[k] + c.windowDuration {
        if k + c.windowMax < |grants| {
          assert grants[k + c.windowMax] >= grants[k] + c.windowDuration;
        }
      }
    }
  }

  /** The step does not record a request for which there is no room. */
  predicate RecordsWithRoom(c: Config, s: State, step: Step)
    requires c.windowMax > 0
  {
    step.Record? ==> Room(c, s.timestamps, s.now)
  }

  lemma StepKeepsSpacingExactlyWhenRoom(c: Config, s: State, step: Step)
    requires c.windowMax > 0 && WindowStateInv(c, s) && Enabled(c, s, step)
    ensures Spaced(c, Apply(c, s, step).grants) <==> Spaced(c, s.grants) && RecordsWithRoom(c, s, step)
  {
    if step.Record? {
      GrantRespectsWindowExactlyWhenRoom(c, s.timestamps, s.grants, s.now);
      SpacedOneMore(c, s.grants, s.now);
    }
  }

  /** In every interleaving the window bound holds if and only if every request was
      recorded in a state where a second inspection would have found room. */
  lemma {:induction false} BoundHoldsExactlyWhenRoom(c: Config, states: seq<State>, steps: seq<Step>, n: nat)
    requires c.windowMax > 0 && IsRun(c, states, steps) && n < |states|
    ensures Spaced(c, states[n].grants) <==> forall i :: 0 <= i < n ==> RecordsWithRoom(c, states[i], steps[i])
  {
    if n > 0 {
      BoundHoldsExactlyWhenRoom(c, states, steps, n - 1);
      DequeHoldsTheWindow(c, states, steps, n - 1);
      StepKeepsSpacingExactlyWhenRoom(c, states[n - 1], steps[n - 1]);
    }
  }

  // ---------------------------------------------------------------- runs that keep it

  /** The clock has moved since the last grant when a task inspects the window, and a
      task records only while no other is between going to sleep for the window and
      taking its lock again. */
  ghost predicate Undisturbed(s: State, step: Step) {
    match step
    case EvictOld(_) => s.grants != [] ==> s.grants[|s.grants| - 1] < s.now
    case Record(id) => forall other :: other in s.tasks && other != id ==>
                         !s.tasks[other].WindowSleep? && !s.tasks[other].Woken?
    case _ => true
  }

  /** What a task can rely on in its window gate: not too much is left after its
      inspection; from its deadline on, and after its sleep, a grant is in order. */
  ghost predicate Promised(c: Config, s: State, task: Task)
    requires c.windowMax > 0
  {
    match task
    case Inspected => |s.timestamps| <= c.windowMax
    case WindowSleep(until) => RespectsWindow(c, s.grants, until)
    case Woken => RespectsWindow(c, s.grants, s.now)
    case InWindowAgain => RespectsWindow(c, s.grants, s.now)
    case Recording => RespectsWindow(c, s.grants, s.now)
    case _ => true
  }

  ghost predicate SpacingInv(c: Config, s: State)
    requires c.windowMax > 0
  {
    && WindowStateInv(c, s) && Spaced(c, s.grants)
    && forall id :: id in s.tasks ==> Promised(c, s, s.tasks[id])
  }

  /** On a spaced history an inspection after the last grant leaves at most the maximum. */
  lemma InspectionLeavesFew(c: Config, q: seq<int>, grants: seq<int>, now: int)
    requires c.windowMax > 0 && Suffix(c, q, grants, now) && Spaced(c, grants)
    requires grants != [] ==> grants[|grants| - 1] < now
    ensures |Evict(q, now - c.windowDuration)| <= c.windowMax
  {
    EvictionFromHistory(c, q, grants, now);
    var k := |grants| - 1 - c.windowMax;
    assert k >= 0 ==> grants[k + c.windowMax] >= grants[k] + c.windowDuration;
  }

  /** The deadline for which a task goes to sleep is when a grant is in order. */
  lemma DeadlineIsInOrder(c: Config, q: seq<int>, grants: seq<int>, now: int)
    requires c.windowMax > 0 && Suffix(c, q, grants, now) && |q| <= c.windowMax
    ensures if MustWait(c, q, now) then RespectsWindow(c, grants, q[0] + c.windowDuration)
            else RespectsWindow(c, grants, now)
  {
    GrantRespectsWindowExactlyWhenRoom(c, q, grants, now);
    SuffixElements(grants, |q|);
    if MustWait(c, q, now) {
      assert q[0] == grants[|grants| - c.windowMax];
    }
  }

  /** The task that takes the step, if there is one. */
  function Mover(step: Step): Option<int> {
    match step
    case Tick(_) => None
    case Spawn(id) => Some(id)
    case LockBurst(id) => Some(id)
    case ReadBurst(id) => Some(id)
    case WakeBurst(id) => Some(id)
    case PassBurst(id) => Some(id)
    case LockWindow(id) => Some(id)
    case EvictOld(id) => Some(id)
    case DecideWindow(id) => Some(id)
    case WakeWindow(id) => Some(id)
    case RelockWindow(id) => Some(id)
    case EvictAgain(id) => Some(id)
    case Record(id) => Some(id)
  }

  lemma EvictShrinks(q: seq<int>, cutoff: int)
    ensures |Evict(q, cutoff)| <= |q|
  {
  }

  lemma OthersKeepPromises(c: Config, s: State, step: Step, id: int)
    requires c.windowMax > 0 && SpacingInv(c, s) && Enabled(c, s, step) && Undisturbed(s, step)
    requires id in s.tasks && Mover(step) != Some(id)
    ensures var s' := Apply(c, s, step); id in s'.tasks && s'.tasks[id] == s.tasks[id] && Promised(c, s', s.tasks[id])
  {
    assert Promised(c, s, s.tasks[id]);
    if step.EvictOld? || step.EvictAgain? {
      EvictShrinks(s.timestamps, s.now - c.windowDuration);
    }
  }

  lemma InspectorKeepsPromise(c: Config, s: State, step: Step)
    requires c.windowMax > 0 && SpacingInv(c, s) && Enabled(c, s, step) && Undisturbed(s, step)
    requires step.EvictOld? || step.DecideWindow?
    ensures Promised(c, Apply(c, s, step), Apply(c, s, step).tasks[step.id])
  {
    if step.EvictOld? {
      InspectionLeavesFew(c, s.timestamps, s.grants, s.now);
    } else {
      assert Promised(c, s, s.tasks[step.id]);
      DeadlineIsInOrder(c, s.timestamps, s.grants, s.now);
    }
  }

  lemma MoverKeepsPromise(c: Config, s: State, step: Step, id: int)
    requires c.windowMax > 0 && SpacingInv(c, s) && Enabled(c, s, step) && Undisturbed(s, step)
    requires Mover(step) == Some(id)
    ensures var s' := Apply(c, s, step); id in s'.tasks && Promised(c, s', s'.tasks[id])
  {
    if step.EvictOld? || step.DecideWindow? {
      InspectorKeepsPromise(c, s, step);
    } else {
      assert id in s.tasks ==> Promised(c, s, s.tasks[id]);
    }
  }

  lemma StepKeepsPromises(c: Config, s: State, step: Step)
    requires c.windowMax > 0 && SpacingInv(c, s) && Enabled(c, s, step) && Undisturbed(s, step)
    ensures forall id :: id in Apply(c, s, step).tasks ==>
              Promised(c, Apply(c, s, step), Apply(c, s, step).tasks[id])
  {
    var s' := Apply(c, s, step);
    forall id | id in s'.tasks ensures Promised(c, s', s'.tasks[id]) {
      if Mover(step) == Some(id) {
        MoverKeepsPromise(c, s, step, id);
      } else {
        OthersKeepPromises(c, s, step, id);
      }
    }
  }

  lemma StepKeepsSpacing(c: Config, s: State, step: Step)
    requires c.windowMax > 0 && SpacingInv(c, s) && Enabled(c, s, step) && Undisturbed(s, step)
    ensures SpacingInv(c, Apply(c, s, step))
  {
    StepKeepsPromises(c, s, step);
    StepKeepsWindowState(c, s, step);
    if step.Record? {
      assert Promised(c, s, s.tasks[step.id]);
      SpacedOneMore(c, s.grants, s.now);
    }
  }

  /** In every run of any number of tasks on a moving clock, in which nobody records while
      another sleeps for the window, the window bound holds throughout. */
  lemma {:induction false} UndisturbedRunsKeepTheBound(c: Config, states: seq<State>, steps: seq<Step>, n: nat)
    requires c.windowMax > 0 && IsRun(c, states, steps) && n < |states|
    requires forall i :: 0 <= i < n ==> Undisturbed(states[i], steps[i])
    ensures SpacingInv(c, states[n]) && Spaced(c, states[n].grants)
  {
    if n > 0 {
      UndisturbedRunsKeepTheBound(c, states, steps, n - 1);
      assert Enabled(c, states[n - 1], steps[n - 1]) && Undisturbed(states[n - 1], steps[n - 1]);
      StepKeepsSpacing(c, states[n - 1], steps[n - 1]);
    }
  }
}
