/** The worker's loop over the job table and the coordinator, one job at a time. */
module RefreshWorker {
  import opened Options
  import opened RefreshQueue
  import opened RetryDelay
  import opened IndexingSystem
  import C = Coordinator

  ghost predicate HasActive(t: Table, crateName: string, scope: string) {
    exists i :: 0 <= i < |t| && Active(t[i]) && HasKey(t[i], crateName, scope)
  }

  /** Rows other than `i` are as before, and rows added at the end are pending. */
  ghost predicate OthersKept(t: Table, t': Table, i: nat) {
    && |t| <= |t'|
    && (forall k :: 0 <= k < |t| && k != i ==> t'[k] == t[k])
    && (forall k :: |t| <= k < |t'| ==> t'[k].status == Pending)
  }

  /** Rows are as before, and rows added at the end are pending. */
  ghost predicate Extends(t: Table, t': Table) {
    && |t| <= |t'|
    && (forall k :: 0 <= k < |t| ==> t'[k] == t[k])
    && (forall k :: |t| <= k < |t'| ==> t'[k].status == Pending)
  }

  /** Rows added at the end are enrichment jobs of this crate. */
  ghost predicate OnlyEnrichmentAdded(t: Table, t': Table, crateName: string, now: int) {
    forall k :: |t| <= k < |t'| ==>
      t'[k] == NewJob(crateName, "local_cache", 75, now) || t'[k] == NewJob(crateName, "rustdoc_json", 75, now)
  }

  ghost predicate EnrichmentQueued(t: Table, crateName: string) {
    HasActive(t, crateName, "local_cache") && HasActive(t, crateName, "rustdoc_json")
  }

  /** What everyone who watches the job's channel is told: the waiter is gone, its channel
      is closed with the outcome as its one new value, and no other channel is touched. */
  ghost predicate Told(waiters: map<int, nat>, channels: seq<C.Channel>, waiters': map<int, nat>,
                       channels': seq<C.Channel>, id: int, outcome: C.Outcome)
  {
    && waiters' == waiters - {id} && |channels'| == |channels|
    && (forall c :: 0 <= c < |channels| && !(id in waiters && waiters[id] == c) ==> channels'[c] == channels[c])
    && (id in waiters ==>
          && waiters[id] < |channels|
          && channels'[waiters[id]].closed && channels'[waiters[id]].receivers == channels[waiters[id]].receivers
          && (channels[waiters[id]].receivers != {} ==>
                channels'[waiters[id]].value == outcome
                && channels'[waiters[id]].version == channels[waiters[id]].version + 1))
  }

  function UnsupportedScope(job: Job): string {
    "unsupported refresh scope '" + job.scope + "' for crate '" + job.crateName + "'"
  }

  /** The scopes of the jobs that can be run. */
  ghost predicate KnownScope(scope: string) {
    scope in {"crate", "crate_deep_refresh", "all", "security", "docs", "local_cache", "rustdoc_json"}
  }

  /** The row that a turn leaves behind, for the claimed job and how its body went. */
  ghost predicate Recorded(job: Job, row: Job, result: JobResult) {
    && row.crateName == job.crateName && row.scope == job.scope && row.priority == job.priority
    && row.attempts == job.attempts && row.startedAt == job.startedAt
    && match result
       case Success => row.status == Finished && row.lastError == None
       case Failure(message) =>
         && row.status == (if job.attempts >= 3 then RefreshQueue.Failed else RefreshQueue.Pending)
         && row.lastError == Some(message)
  }

  function OutcomeOf(result: JobResult): C.Outcome {
    match result
    case Success => C.Completed
    case Failure(message) => C.Failed(message)
  }

  lemma ActiveStays(t: Table, t': Table, crateName: string, scope: string)
    requires HasActive(t, crateName, scope) && Extends(t, t')
    ensures HasActive(t', crateName, scope)
  {
    var i :| 0 <= i < |t| && Active(t[i]) && HasKey(t[i], crateName, scope);
    assert t'[i] == t[i];
  }

  lemma EnqueuedIsWork(t: Table, job: Job)
    requires job.status == Pending && job.attempts == 0 && !SyncsACrate(job.scope)
    ensures Extends(t, t) && Extends(t, t + [job]) && Work(t + [job]) == Work(t) + MAX_ATTEMPTS
  {
    WorkOfAppend(t, job);
  }

  /** What one turn of the loop has done to the queue: it has claimed the job that was
      next at `now`, as `job`, and recorded at `later` that its body went `result`. */
  ghost predicate TurnTaken(before: Table, after: Table, i: nat, now: int, later: int, nanos: int, job: Job,
                            result: JobResult)
  {
    && IsNext(before, i, now) && OthersKept(before, after, i)
    && job == before[i].(status := RefreshQueue.Running, attempts := before[i].attempts + 1, startedAt := Some(now),
                         finishedAt := None, lastError := None)
    && Recorded(job, after[i], result)
    && (if after[i].status == RefreshQueue.Pending
        then after[i].requestedAt == later + DelaySeconds(i, job.attempts, nanos) && after[i].finishedAt == None
        else after[i].requestedAt == job.requestedAt && after[i].finishedAt == Some(later))
    && Followed(before, after, later, job, result)
  }

  /** Jobs that are queued because of a turn: the enrichment of a crate that was synced,
      and nothing otherwise. */
  ghost predicate Followed(before: Table, after: Table, now: int, job: Job, result: JobResult) {
    if result.Success? && job.scope in {"crate", "crate_deep_refresh", "all"} then
      EnrichmentQueued(after, job.crateName) && OnlyEnrichmentAdded(before, after, job.crateName, now)
    else |after| == |before|
  }

  /** The row as it is when its body has gone `result`. */
  function RowAfter(job: Job, result: JobResult, i: nat, later: int, nanos: int): Job {
    match result
    case Success => job.(status := RefreshQueue.Finished, finishedAt := Some(later), lastError := None)
    case Failure(message) =>
      if job.attempts >= 3 then
        job.(status := RefreshQueue.Failed, finishedAt := Some(later), lastError := Some(message))
      else
        job.(status := RefreshQueue.Pending, finishedAt := None, lastError := Some(message),
             requestedAt := later + DelaySeconds(i, job.attempts, nanos))
  }

  lemma TurnIsTaken(before: Table, running: Table, after: Table, i: nat, now: int, later: int, nanos: int,
                    result: JobResult)
    requires IsNext(before, i, now) && running == Claimed(before, i, now) && OthersKept(running, after, i)
    requires after[i] == RowAfter(running[i], result, i, later, nanos)
    requires Followed(running, after, later, running[i], result)
    ensures TurnTaken(before, after, i, now, later, nanos, running[i], result)
  {
  }

  class Worker {
    const jobs: RefreshJobs
    const coordinator: C.IndexingCoordinator

    ghost predicate Valid()
      reads this, jobs, coordinator
    {
      QueueInv(jobs.rows) && coordinator.Valid()
    }

    constructor (jobs: RefreshJobs, coordinator: C.IndexingCoordinator)
      ensures this.jobs == jobs && this.coordinator == coordinator
    {
      this.jobs, this.coordinator := jobs, coordinator;
    }

    /** One turn of the loop: claims the next due job, runs it, records the result,
        signals it, and enqueues enrichment after a crate has been synced. `run` is
        the body of the job, as it is claimed. A supported job's row and its watchers are
        told what `run` returned; any other job fails. A turn that claims a job leaves
        less work in the queue, new jobs included. */
    method ProcessNext(now: int, later: int, nanos: int, run: Job -> JobResult)
      returns (claimed: Option<nat>, ghost job: Job)
      requires Valid()
      modifies jobs, coordinator
      ensures Valid()
      ensures claimed.None? ==> jobs.rows == old(jobs.rows) && coordinator.View() == old(coordinator.View())
      ensures claimed.None? ==> forall i :: 0 <= i < |jobs.rows| ==> !Runnable(jobs.rows[i], now)
      ensures claimed.Some? ==>
                var result := if KnownScope(job.scope) then run(job) else Failure(UnsupportedScope(job));
                && TurnTaken(old(jobs.rows), jobs.rows, claimed.value, now, later, nanos, job, result)
                && Told(old(coordinator.waiters), old(coordinator.channels), coordinator.waiters, coordinator.channels,
                        claimed.value, OutcomeOf(result))
      ensures claimed.Some? ==> Work(jobs.rows) < old(Work(jobs.rows))
    {
      claimed := jobs.ClaimNext(now);
      if claimed.None? {
        job := NewJob("", "", 0, 0);
        return;
      }
      var i := claimed.value;
      var row := jobs.rows[i];
      job := row;
      ghost var running := jobs.rows;
      assert Supported(row.scope) <==> KnownScope(row.scope);
      var result := if Supported(row.scope) then run(row) else Failure(UnsupportedScope(row));
      match result {
        case Success =>
          RecordSuccess(i, later);
        case Failure(message) =>
          RecordFailure(i, message, nanos, later);
      }
      TurnIsTaken(old(jobs.rows), running, jobs.rows, i, now, later, nanos, result);
    }

    method RecordFailure(i: nat, message: string, nanos: int, now: int)
      requires Valid() && i < |jobs.rows| && jobs.rows[i].status == RefreshQueue.Running
      modifies jobs, coordinator
      ensures Valid() && OthersKept(old(jobs.rows), jobs.rows, i)
      ensures jobs.rows[i] == RowAfter(old(jobs.rows)[i], Failure(message), i, now, nanos)
      ensures |jobs.rows| == |old(jobs.rows)|
      ensures Told(old(coordinator.waiters), old(coordinator.channels), coordinator.waiters, coordinator.channels, i,
                   C.Failed(message))
      ensures Work(jobs.rows) <= old(Work(jobs.rows))
    {
      var delay := DelaySeconds(i, jobs.rows[i].attempts, nanos);
      jobs.MarkFailedOrRequeued(i, jobs.rows[i].attempts >= MAX_ATTEMPTS, delay, message, now);
      coordinator.SignalCompletion(i, C.Failed(message));
    }

    method RecordSuccess(i: nat, now: int)
      requires Valid() && i < |jobs.rows| && jobs.rows[i].status == RefreshQueue.Running
      modifies jobs, coordinator
      ensures Valid() && OthersKept(old(jobs.rows), jobs.rows, i)
      ensures jobs.rows[i] == old(jobs.rows)[i].(status := RefreshQueue.Finished, finishedAt := Some(now), lastError := None)
      ensures Followed(old(jobs.rows), jobs.rows, now, jobs.rows[i], Success)
      ensures Told(old(coordinator.waiters), old(coordinator.channels), coordinator.waiters, coordinator.channels, i,
                   C.Completed)
      ensures Work(jobs.rows) <= old(Work(jobs.rows))
    {
      jobs.MarkFinished(i, now);
      coordinator.SignalCompletion(i, C.Completed);
      if SyncsACrate(jobs.rows[i].scope) {
        EnqueueEnrichment(jobs.rows[i].crateName, now);
      }
    }

    method EnqueueOne(crateName: string, scope: string, now: int)
      requires QueueInv(jobs.rows) && !SyncsACrate(scope)
      modifies jobs
      ensures QueueInv(jobs.rows) && Extends(old(jobs.rows), jobs.rows)
      ensures HasActive(jobs.rows, crateName, scope)
      ensures jobs.rows == old(jobs.rows) || jobs.rows == old(jobs.rows) + [NewJob(crateName, scope, 75, now)]
      ensures Work(jobs.rows) <= old(Work(jobs.rows)) + MAX_ATTEMPTS
    {
      EnqueuedIsWork(jobs.rows, NewJob(crateName, scope, PRIORITY_PROACTIVE_ENRICH, now));
      var id, isNew := jobs.EnqueueOrGet(crateName, scope, PRIORITY_PROACTIVE_ENRICH, now);
    }

    /** Enqueues the two enrichment jobs of a crate unless they are queued already. */
    method EnqueueEnrichment(crateName: string, now: int)
      requires QueueInv(jobs.rows)
      modifies jobs
      ensures QueueInv(jobs.rows) && Extends(old(jobs.rows), jobs.rows)
      ensures EnrichmentQueued(jobs.rows, crateName) && OnlyEnrichmentAdded(old(jobs.rows), jobs.rows, crateName, now)
      ensures Work(jobs.rows) <= old(Work(jobs.rows)) + 2 * MAX_ATTEMPTS
    {
      for next := 0 to 2
        invariant QueueInv(jobs.rows) && Extends(old(jobs.rows), jobs.rows)
        invariant OnlyEnrichmentAdded(old(jobs.rows), jobs.rows, crateName, now)
        invariant next > 0 ==> HasActive(jobs.rows, crateName, EnrichmentScope(0))
        invariant next > 1 ==> HasActive(jobs.rows, crateName, EnrichmentScope(1))
        invariant Work(jobs.rows) <= old(Work(jobs.rows)) + next * MAX_ATTEMPTS
      {
        ghost var before := jobs.rows;
        EnqueueOne(crateName, EnrichmentScope(next), now);
        if next == 1 {
          ActiveStays(before, jobs.rows, crateName, EnrichmentScope(0));
        }
      }
    }

    /** With nobody else enqueueing, the loop drains the queue after at most as many
        claims as there was work in it, however the jobs turn out. `run(n, job)` is the
        outcome of the n-th claim; `turns` lists the claims. What had settled before
        stays as it was; every other row ends as its last claim went, and all its earlier
        claims have failed. */
    method Drain(start: int, nanos: nat -> int, run: (nat, Job) -> JobResult)
      returns (claims: nat, ghost turns: seq<Turn>)
      requires Valid() && forall i :: 0 <= i < |jobs.rows| ==> jobs.rows[i].status != RefreshQueue.Running
      modifies jobs, coordinator
      ensures Valid()
      ensures forall i :: 0 <= i < |jobs.rows| ==> Terminal(jobs.rows[i])
      ensures claims == |turns| && claims <= old(Work(jobs.rows)) && |old(jobs.rows)| <= |jobs.rows|
      ensures forall i :: 0 <= i < |jobs.rows| ==> RowFollows(old(jobs.rows), jobs.rows, turns, run, i)
      ensures forall n :: 0 <= n < |turns| ==> TurnFollows(turns, run, n)
    {
      claims := 0;
      turns := [];
      var now := start;
      WorkIsNatural(jobs.rows);
      while exists i :: 0 <= i < |jobs.rows| && jobs.rows[i].status == RefreshQueue.Pending
        invariant Valid() && forall i :: 0 <= i < |jobs.rows| ==> jobs.rows[i].status != RefreshQueue.Running
        invariant 0 <= Work(jobs.rows) && claims <= old(Work(jobs.rows)) - Work(jobs.rows)
        invariant claims == |turns| && Follows(old(jobs.rows), jobs.rows, turns, run)
        decreases Work(jobs.rows), if Latest(jobs.rows) > now then Latest(jobs.rows) - now else 0
      {
        var n := claims;
        ghost var before := jobs.rows;
        var claimed;
        ghost var job;
        claimed, job := ProcessNext(now, now, nanos(n), job => run(n, job));
        match claimed {
          case None =>
            var i :| 0 <= i < |jobs.rows| && jobs.rows[i].status == RefreshQueue.Pending;
            LatestIsLast(jobs.rows, i);
            now := now + 2;
          case Some(id) =>
            FollowsFurther(old(jobs.rows), before, jobs.rows, turns, run, Turn(id, job));
            turns := turns + [Turn(id, job)];
            claims := claims + 1;
        }
        WorkIsNatural(jobs.rows);
      }
    }
  }

  // ---------------------------------------------------------------- whole drains

  /** A claim: the row's id and the row as it was claimed. */
  datatype Turn = Turn(id: nat, job: Job)

  /** How the n-th claim goes. */
  ghost function ResultOf(turns: seq<Turn>, run: (nat, Job) -> JobResult, n: nat): JobResult
    requires n < |turns|
  {
    if KnownScope(turns[n].job.scope) then run(n, turns[n].job) else Failure(UnsupportedScope(turns[n].job))
  }

  ghost predicate LastTurn(turns: seq<Turn>, id: nat, n: nat) {
    n < |turns| && turns[n].id == id && forall m :: n < m < |turns| ==> turns[m].id != id
  }

  /** A claimed row is as its last claim went; a row that was never claimed is unchanged,
      or new and pending. */
  ghost predicate RowFollows(before: Table, t: Table, turns: seq<Turn>, run: (nat, Job) -> JobResult, i: nat)
    requires i < |t|
  {
    && (forall n :: 0 <= n < |turns| && LastTurn(turns, i, n) ==> Recorded(turns[n].job, t[i], ResultOf(turns, run, n)))
    && ((forall n :: 0 <= n < |turns| ==> turns[n].id != i) ==>
          if i < |before| then t[i] == before[i] else t[i].status == RefreshQueue.Pending)
  }

  /** A claim that is followed by another one of the same row has failed. */
  ghost predicate TurnFollows(turns: seq<Turn>, run: (nat, Job) -> JobResult, n: nat)
    requires n < |turns|
  {
    !LastTurn(turns, turns[n].id, n) ==> ResultOf(turns, run, n).Failure?
  }

  ghost predicate Follows(before: Table, t: Table, turns: seq<Turn>, run: (nat, Job) -> JobResult) {
    && |before| <= |t|
    && (forall n :: 0 <= n < |turns| ==> turns[n].id < |t|)
    && (forall i :: 0 <= i < |t| ==> RowFollows(before, t, turns, run, i))
    && (forall n :: 0 <= n < |turns| ==> TurnFollows(turns, run, n))
  }

  /** One more claim of a pending row, recorded as it went. */
  lemma FollowsFurther(before: Table, t: Table, t': Table, turns: seq<Turn>, run: (nat, Job) -> JobResult, turn: Turn)
    requires Follows(before, t, turns, run) && OthersKept(t, t', turn.id) && turn.id < |t|
    requires t[turn.id].status == RefreshQueue.Pending
    requires Recorded(turn.job, t'[turn.id], ResultOf(turns + [turn], run, |turns|))
    ensures Follows(before, t', turns + [turn], run)
  {
    var turns', n := turns + [turn], |turns|;
    assert forall m :: 0 <= m < n ==> turns'[m] == turns[m] && ResultOf(turns', run, m) == ResultOf(turns, run, m);
    forall i | 0 <= i < |t'| ensures RowFollows(before, t', turns', run, i) {
      OneRowFurther(before, t, t', turns, run, turn, i);
    }
    forall m | 0 <= m < |turns'| ensures TurnFollows(turns', run, m) {
      if m < n {
        assert TurnFollows(turns, run, m) && RowFollows(before, t, turns, run, turn.id);
        assert LastTurn(turns, turns[m].id, m) && turns[m].id != turn.id ==> LastTurn(turns', turns[m].id, m);
      }
    }
  }

  lemma OneRowFurther(before: Table, t: Table, t': Table, turns: seq<Turn>, run: (nat, Job) -> JobResult, turn: Turn,
                      i: nat)
    requires Follows(before, t, turns, run) && OthersKept(t, t', turn.id) && turn.id < |t| && i < |t'|
    requires Recorded(turn.job, t'[turn.id], ResultOf(turns + [turn], run, |turns|))
    ensures RowFollows(before, t', turns + [turn], run, i)
  {
    var turns', n := turns + [turn], |turns|;
    assert turns'[n] == turn;
    assert forall m :: 0 <= m < n ==> turns'[m] == turns[m] && ResultOf(turns', run, m) == ResultOf(turns, run, m);
    if i != turn.id {
      forall m | 0 <= m < |turns'| && LastTurn(turns', i, m)
        ensures Recorded(turns'[m].job, t'[i], ResultOf(turns', run, m))
      {
        assert m < n && i < |t|;
        assert LastTurn(turns, i, m) by {
          assert forall k :: m < k < n ==> turns'[k].id != i;
        }
        assert RowFollows(before, t, turns, run, i);
      }
      assert i < |t| ==> RowFollows(before, t, turns, run, i);
    }
  }

  function Latest(t: Table): int {
    if t == [] then 0
    else
      var rest := Latest(t[..|t| - 1]);
      if t[|t| - 1].requestedAt > rest then t[|t| - 1].requestedAt else rest
  }

  lemma {:induction false} LatestIsLast(t: Table, i: nat)
    requires i < |t|
    ensures t[i].requestedAt <= Latest(t)
  {
    if i < |t| - 1 {
      LatestIsLast(t[..|t| - 1], i);
    }
  }
}
