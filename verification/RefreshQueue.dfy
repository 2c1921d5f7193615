/**
 The durable job queue: the rows of `refresh_jobs` and the statements that change
 them. Row `i` has id `i`; rows are never deleted. Every statement is atomic.
 */
module RefreshQueue {
  import opened Options
  import opened Text

  const MAX_ATTEMPTS := 3

  datatype Status = Pending | Running | Finished | Failed

  datatype Job = Job(crateName: string, scope: string, priority: int, status: Status, attempts: int,
                     requestedAt: int, startedAt: Option<int>, finishedAt: Option<int>, lastError: Option<string>)

  type Table = seq<Job>

  predicate Active(job: Job) {
    job.status == Pending || job.status == Running
  }

  predicate Terminal(job: Job) {
    !Active(job)
  }

  /** Crate names are compared without regard to case. */
  predicate HasKey(job: Job, crateName: string, scope: string) {
    Lower(job.crateName) == Lower(crateName) && job.scope == scope
  }

  /** The same letter, or the same letter in the other case. */
  predicate SameLetter(a: char, b: char) {
    || a == b
    || ('A' <= a <= 'Z' && b as int == a as int + 32)
    || ('A' <= b <= 'Z' && a as int == b as int + 32)
  }

  /** Keys agree in the scope, and in the crate name up to the case of its letters. */
  lemma KeysIgnoreCase(job: Job, crateName: string, scope: string)
    ensures HasKey(job, crateName, scope) <==>
              && job.scope == scope && |job.crateName| == |crateName|
              && forall i :: 0 <= i < |crateName| ==> SameLetter(job.crateName[i], crateName[i])
  {
    var a, b := Lower(job.crateName), Lower(crateName);
    assert |a| == |job.crateName| && |b| == |crateName|;
    forall i | 0 <= i < |a| && i < |b| ensures a[i] == b[i] <==> SameLetter(job.crateName[i], crateName[i]) {
    }
  }

  // ---------------------------------------------------------------- statements

  /** The active row of a key with the least id. */
  function FindActive(t: Table, crateName: string, scope: string): (r: Option<nat>)
    ensures r.Some? ==> r.value < |t| && Active(t[r.value]) && HasKey(t[r.value], crateName, scope)
    ensures r.Some? ==> forall i :: 0 <= i < r.value ==> !(Active(t[i]) && HasKey(t[i], crateName, scope))
    ensures r.None? ==> forall i :: 0 <= i < |t| ==> !(Active(t[i]) && HasKey(t[i], crateName, scope))
  {
    if t == [] then None
    else
      var last := |t| - 1;
      match FindActive(t[..last], crateName, scope)
      case Some(i) => Some(i)
      case None => if Active(t[last]) && HasKey(t[last], crateName, scope) then Some(last) else None
  }

  function NewJob(crateName: string, scope: string, priority: int, now: int): Job {
    Job(crateName, scope, priority, Pending, 0, now, None, None, None)
  }

  function Enqueued(t: Table, crateName: string, scope: string, priority: int, now: int): (Table, nat) {
    match FindActive(t, crateName, scope)
    case Some(i) => (t, i)
    case None => (t + [NewJob(crateName, scope, priority, now)], |t|)
  }

  predicate Runnable(job: Job, now: int) {
    job.status == Pending && job.requestedAt <= now
  }

  /** Claim order: priority, attempts, requested_at, id. */
  predicate ClaimedBefore(t: Table, i: nat, j: nat)
    requires i < |t| && j < |t|
  {
    var a, b := t[i], t[j];
    if a.priority != b.priority then a.priority < b.priority
    else if a.attempts != b.attempts then a.attempts < b.attempts
    else if a.requestedAt != b.requestedAt then a.requestedAt < b.requestedAt
    else i < j
  }

  predicate IsNext(t: Table, i: nat, now: int) {
    && i < |t|
    && Runnable(t[i], now)
    && forall j :: 0 <= j < |t| && Runnable(t[j], now) && j != i ==> ClaimedBefore(t, i, j)
  }

  /** The row that the next claim takes: the least runnable one in claim order. */
  function NextRunnable(t: Table, now: int): (r: Option<nat>)
    ensures r.Some? ==> IsNext(t, r.value, now)
    ensures r.None? ==> forall i :: 0 <= i < |t| ==> !Runnable(t[i], now)
  {
    if t == [] then None
    else
      var last := |t| - 1;
      var before := t[..last];
      match NextRunnable(before, now)
      case None => if Runnable(t[last], now) then Some(last) else None
      case Some(i) =>
        assert before[i] == t[i] && forall j :: 0 <= j < last ==> before[j] == t[j];
        assert forall j :: 0 <= j < last && Runnable(t[j], now) && j != i ==> ClaimedBefore(before, i, j);
        if Runnable(t[last], now) && ClaimedBefore(t, last, i) then Some(last) else Some(i)
  }

  /** Row `i` is at least as urgent as row `j`: a lower priority number; at equal priority
      fewer attempts; at equal attempts requested earlier; at equal times a lower id. */
  ghost predicate ComesNoLater(t: Table, i: nat, j: nat)
    requires i < |t| && j < |t|
  {
    && t[i].priority <= t[j].priority
    && (t[i].priority == t[j].priority ==> t[i].attempts <= t[j].attempts)
    && (t[i].priority == t[j].priority && t[i].attempts == t[j].attempts ==> t[i].requestedAt <= t[j].requestedAt)
    && (t[i].priority == t[j].priority && t[i].attempts == t[j].attempts && t[i].requestedAt == t[j].requestedAt ==> i <= j)
  }

  /** The next row comes no later than any other that can run. */
  lemma NextComesFirst(t: Table, i: nat, now: int)
    requires IsNext(t, i, now)
    ensures forall j :: 0 <= j < |t| && Runnable(t[j], now) ==> ComesNoLater(t, i, j)
  {
    forall j | 0 <= j < |t| && Runnable(t[j], now) ensures ComesNoLater(t, i, j) {
      assert j != i ==> ClaimedBefore(t, i, j);
    }
  }

  function Claimed(t: Table, i: nat, now: int): Table
    requires i < |t|
  {
    t[i := t[i].(status := Running, startedAt := Some(now), finishedAt := None, attempts := t[i].attempts + 1,
                 lastError := None)]
  }

  function MarkedFinished(t: Table, i: nat, now: int): Table
    requires i < |t|
  {
    t[i := t[i].(status := Finished, finishedAt := Some(now), lastError := None)]
  }

  function MarkedFailedOrRequeued(t: Table, i: nat, terminal: bool, delay: int, message: string, now: int): Table
    requires i < |t|
  {
    if terminal then
      t[i := t[i].(status := Failed, finishedAt := Some(now), lastError := Some(message))]
    else
      t[i := t[i].(status := Pending, requestedAt := now + delay, finishedAt := None, lastError := Some(message))]
  }

  /** What the worker records for a failed attempt. */
  function FailedAttempt(t: Table, i: nat, delay: int, message: string, now: int): Table
    requires i < |t|
  {
    MarkedFailedOrRequeued(t, i, t[i].attempts >= MAX_ATTEMPTS, delay, message, now)
  }

  // ---------------------------------------------------------------- invariant

  predicate RowOk(job: Job) {
    && (job.status == Pending ==> 0 <= job.attempts < MAX_ATTEMPTS)
    && (job.status == Running || job.status == Finished ==> 1 <= job.attempts <= MAX_ATTEMPTS)
    && (job.status == Failed ==> job.attempts == MAX_ATTEMPTS)
    && (job.startedAt.Some? <==> job.attempts > 0)
    && (job.finishedAt.Some? <==> Terminal(job))
    && (job.lastError.Some? <==> job.status == Failed || (job.status == Pending && job.attempts > 0))
  }

  ghost predicate UniqueActive(t: Table) {
    forall i, j :: 0 <= i < j < |t| && Active(t[i]) && Active(t[j]) ==> !HasKey(t[i], t[j].crateName, t[j].scope)
  }

  /** Every row is in a state that the attempt counter allows, and at most one
      pending or running row exists for each lower-cased crate and scope. */
  ghost predicate QueueInv(t: Table) {
    (forall i :: 0 <= i < |t| ==> RowOk(t[i])) && UniqueActive(t)
  }

  lemma EnqueueKeepsInv(t: Table, crateName: string, scope: string, priority: int, now: int)
    requires QueueInv(t)
    ensures QueueInv(Enqueued(t, crateName, scope, priority, now).0)
  {
  }

  /** A row update that changes neither the key nor activates a settled row keeps
      keys unique. */
  lemma UpdateKeepsInv(t: Table, i: nat, job: Job)
    requires QueueInv(t) && i < |t| && RowOk(job)
    requires job.crateName == t[i].crateName && job.scope == t[i].scope
    requires Active(job) ==> Active(t[i])
    ensures QueueInv(t[i := job])
  {
  }

  // ---------------------------------------------------------------- remaining work

  /** A successful job of one of these scopes enqueues two enrichment jobs. */
  predicate SyncsACrate(scope: string) {
    scope == "crate" || scope == "crate_deep_refresh" || scope == "all"
  }

  /** Claims that a row can still cause: its remaining attempts, and three for each
      enrichment job that its success may add. */
  function Weight(job: Job): int {
    if Terminal(job) then 0 else MAX_ATTEMPTS - job.attempts + if SyncsACrate(job.scope) then 2 * MAX_ATTEMPTS else 0
  }

  function Work(t: Table): int {
    if t == [] then 0 else Work(t[..|t| - 1]) + Weight(t[|t| - 1])
  }

  lemma {:induction false} WorkOfUpdate(t: Table, i: nat, job: Job)
    requires i < |t|
    ensures Work(t[i := job]) == Work(t) - Weight(t[i]) + Weight(job)
  {
    var last := |t| - 1;
    if i < last {
      WorkOfUpdate(t[..last], i, job);
      assert t[i := job][..last] == t[..last][i := job];
    } else {
      assert t[i := job][..last] == t[..last];
    }
  }

  lemma WorkOfAppend(t: Table, job: Job)
    ensures Work(t + [job]) == Work(t) + Weight(job)
  {
    assert (t + [job])[..|t|] == t;
  }

  lemma {:induction false} WorkIsNatural(t: Table)
    requires forall i :: 0 <= i < |t| ==> RowOk(t[i])
    ensures Work(t) >= 0
    ensures forall i :: 0 <= i < |t| ==> Weight(t[i]) <= Work(t)
  {
    if t != [] {
      WorkIsNatural(t[..|t| - 1]);
      assert forall i :: 0 <= i < |t| - 1 ==> t[..|t| - 1][i] == t[i];
    }
  }

  // ---------------------------------------------------------------- the table

  class RefreshJobs {
    var rows: Table

    constructor ()
      ensures rows == []
    {
      rows := [];
    }

    method EnqueueOrGet(crateName: string, scope: string, priority: int, now: int)
      returns (jobId: nat, isNew: bool)
      requires QueueInv(rows)
      modifies this
      ensures QueueInv(rows)
      ensures rows == if isNew then old(rows) + [NewJob(crateName, scope, priority, now)] else old(rows)
      ensures (rows, jobId) == Enqueued(old(rows), crateName, scope, priority, now)
      ensures jobId < |rows| && Active(rows[jobId]) && HasKey(rows[jobId], crateName, scope)
      ensures isNew ==>
                && jobId == |old(rows)| && Runnable(rows[jobId], now) && rows[jobId].attempts == 0
                && rows[jobId].crateName == crateName && rows[jobId].scope == scope && rows[jobId].priority == priority
      ensures forall i :: 0 <= i < |rows| && Active(rows[i]) && HasKey(rows[i], crateName, scope) ==> i == jobId
    {
      EnqueueKeepsInv(rows, crateName, scope, priority, now);
      match FindActive(rows, crateName, scope) {
        case Some(existing) =>
          return existing, false;
        case None =>
          rows := rows + [NewJob(crateName, scope, priority, now)];
          return |rows| - 1, true;
      }
    }

    method ClaimNext(now: int) returns (claimed: Option<nat>)
      requires QueueInv(rows)
      modifies this
      ensures QueueInv(rows)
      ensures claimed.None? ==> rows == old(rows) && forall i :: 0 <= i < |rows| ==> !Runnable(rows[i], now)
      ensures claimed.Some? ==> IsNext(old(rows), claimed.value, now) && rows == Claimed(old(rows), claimed.value, now)
      ensures claimed.Some? ==> forall j :: 0 <= j < |rows| && Runnable(old(rows)[j], now) ==>
                ComesNoLater(old(rows), claimed.value, j)
      ensures claimed.Some? ==>
                && rows[claimed.value].status == Running && rows[claimed.value].startedAt == Some(now)
                && rows[claimed.value].attempts == old(rows)[claimed.value].attempts + 1
                && forall j :: 0 <= j < |rows| && j != claimed.value ==> rows[j] == old(rows)[j]
      ensures claimed.Some? ==> Work(rows) == old(Work(rows)) - 1
    {
      claimed := NextRunnable(rows, now);
      match claimed {
        case None =>
        case Some(i) =>
          NextComesFirst(rows, i, now);
          WorkOfUpdate(rows, i, Claimed(rows, i, now)[i]);
          rows := Claimed(rows, i, now);
      }
    }

    method MarkFinished(jobId: nat, now: int)
      requires QueueInv(rows) && jobId < |rows| && rows[jobId].status == Running
      modifies this
      ensures QueueInv(rows) && rows == MarkedFinished(old(rows), jobId, now)
      ensures rows[jobId].status == Finished && rows[jobId].finishedAt == Some(now) && rows[jobId].lastError == None
      ensures Work(rows) == old(Work(rows)) - old(Weight(rows[jobId]))
    {
      WorkOfUpdate(rows, jobId, MarkedFinished(rows, jobId, now)[jobId]);
      rows := MarkedFinished(rows, jobId, now);
    }

    method MarkFailedOrRequeued(jobId: nat, terminal: bool, delay: int, message: string, now: int)
      requires QueueInv(rows) && jobId < |rows| && rows[jobId].status == Running
      requires terminal == (rows[jobId].attempts >= MAX_ATTEMPTS)
      modifies this
      ensures QueueInv(rows) && rows == FailedAttempt(old(rows), jobId, delay, message, now)
      ensures rows[jobId].lastError == Some(message)
      ensures if terminal then rows[jobId].status == Failed && rows[jobId].finishedAt == Some(now)
              else rows[jobId].status == Pending && rows[jobId].requestedAt == now + delay
      ensures Work(rows) <= old(Work(rows))
    {
      var t := MarkedFailedOrRequeued(rows, jobId, terminal, delay, message, now);
      WorkOfUpdate(rows, jobId, t[jobId]);
      rows := t;
    }
  }
}
