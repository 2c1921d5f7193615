/**
 The two-tier limiter of outbound requests. Time is an integer; each reading of the
 clock that an acquisition takes is given as a parameter.
 */
module RateLimiter {
  datatype Config = Config(burstInterval: nat, windowMax: nat, windowDuration: nat)

  /** The clock as one acquisition reads it, in order: on entering the burst gate, on
      passing it, on entering the window gate, when the window is found full, after
      sleeping for it, and when the request is recorded. A reading that the
      acquisition does not need is just some instant in between. */
  datatype Reads = Reads(enter: int, pass: int, window: int, full: int, wake: int, grant: int)

  /** Drops entries from the front while they are older than `cutoff`. */
  function Evict(q: seq<int>, cutoff: int): seq<int> {
    if q != [] && q[0] < cutoff then Evict(q[1..], cutoff) else q
  }

  predicate MustWait(c: Config, q: seq<int>, now: int) {
    |q| >= c.windowMax > 0 && q[0] + c.windowDuration > now
  }

  /** The deque when the request is about to be recorded. */
  function Admitted(c: Config, q: seq<int>, r: Reads): seq<int> {
    var inWindow := Evict(q, r.window - c.windowDuration);
    if MustWait(c, inWindow, r.full) then Evict(inWindow, r.wake - c.windowDuration) else inWindow
  }

  /** Readings that the clock and the sleeps allow: they never go back, and a sleep
      lasts at least until its deadline. */
  predicate Admissible(c: Config, next: int, q: seq<int>, r: Reads) {
    && r.enter <= r.pass <= r.window <= r.full <= r.wake <= r.grant
    && next <= r.pass
    && (c.windowMax > 0 ==>
          var inWindow := Evict(q, r.window - c.windowDuration);
          MustWait(c, inWindow, r.full) ==> r.wake >= inWindow[0] + c.windowDuration)
  }

  // ---------------------------------------------------------------- histories

  predicate Sorted(s: seq<int>) {
    forall i, j :: 0 <= i < j < |s| ==> s[i] <= s[j]
  }

  /** The deque is a suffix of the grants so far, and everything that has left it is
      older than the window. */
  ghost predicate DequeInv(c: Config, q: seq<int>, grants: seq<int>) {
    && Sorted(grants)
    && |q| <= |grants| && q == grants[|grants| - |q|..]
    && forall i :: 0 <= i < |grants| - |q| ==> grants[i] + c.windowDuration < grants[|grants| - 1]
  }

  /** No more than `windowMax` grants lie within any window. */
  ghost predicate Spaced(c: Config, grants: seq<int>) {
    forall k :: 0 <= k < |grants| - c.windowMax ==> grants[k + c.windowMax] >= grants[k] + c.windowDuration
  }

  /** The deque exceeds the maximum by at most one entry, which has then expired. */
  ghost predicate WindowInv(c: Config, q: seq<int>, grants: seq<int>) {
    && DequeInv(c, q, grants)
    && Spaced(c, grants)
    && (|q| <= c.windowMax
        || (|q| == c.windowMax + 1 && q[0] + c.windowDuration <= grants[|grants| - 1]))
  }

  lemma {:induction false} EvictsAPrefix(q: seq<int>, cutoff: int)
    requires Sorted(q)
    ensures |Evict(q, cutoff)| <= |q| && Evict(q, cutoff) == q[|q| - |Evict(q, cutoff)|..]
    ensures forall i :: 0 <= i < |q| - |Evict(q, cutoff)| ==> q[i] < cutoff
    ensures forall i :: |q| - |Evict(q, cutoff)| <= i < |q| ==> q[i] >= cutoff
  {
    if q != [] && q[0] < cutoff {
      EvictsAPrefix(q[1..], cutoff);
    }
  }

  lemma EvictedFromSuffix(c: Config, q: seq<int>, grants: seq<int>, now: int, i: nat)
    requires Sorted(q) && |q| <= |grants| && q == grants[|grants| - |q|..] && |grants| - |q| <= i < |grants|
    ensures if i < |grants| - |Evict(q, now - c.windowDuration)| then grants[i] + c.windowDuration < now
            else grants[i] + c.windowDuration >= now
  {
    EvictedOrKept(q, now - c.windowDuration, i - (|grants| - |q|));
  }

  /** What remains after an eviction is again a suffix of the history, and what has
      left is older than the window at the time of the eviction. */
  lemma EvictionFromHistory(c: Config, q: seq<int>, grants: seq<int>, now: int)
    requires Sorted(grants) && |q| <= |grants| && q == grants[|grants| - |q|..]
    requires grants != [] ==> grants[|grants| - 1] <= now
    requires forall i :: 0 <= i < |grants| - |q| ==> grants[i] + c.windowDuration < now
    ensures var q' := Evict(q, now - c.windowDuration);
            && |q'| <= |q| && q' == grants[|grants| - |q'|..]
            && (forall i :: 0 <= i < |grants| - |q'| ==> grants[i] + c.windowDuration < now)
            && (forall i :: |grants| - |q'| <= i < |grants| ==> grants[i] + c.windowDuration >= now)
  {
    SuffixIsSorted(grants, |grants| - |q|);
    EvictKeepsASuffix(q, now - c.windowDuration);
    var left := |Evict(q, now - c.windowDuration)|;
    SuffixOfSuffix(grants, |q|, left);
    forall i | |grants| - |q| <= i < |grants|
      ensures if i < |grants| - left then grants[i] + c.windowDuration < now else grants[i] + c.windowDuration >= now
    {
      EvictedFromSuffix(c, q, grants, now, i);
    }
  }

  lemma EvictKeepsASuffix(q: seq<int>, cutoff: int)
    requires Sorted(q)
    ensures |Evict(q, cutoff)| <= |q| && Evict(q, cutoff) == q[|q| - |Evict(q, cutoff)|..]
  {
    EvictsAPrefix(q, cutoff);
  }

  lemma EvictedOrKept(q: seq<int>, cutoff: int, i: nat)
    requires Sorted(q) && i < |q|
    ensures if i < |q| - |Evict(q, cutoff)| then q[i] < cutoff else q[i] >= cutoff
  {
    EvictsAPrefix(q, cutoff);
  }

  lemma SuffixOfSuffix(s: seq<int>, n: nat, m: nat)
    requires m <= n <= |s|
    ensures s[|s| - n..][n - m..] == s[|s| - m..]
  {
  }

  lemma SuffixElements(s: seq<int>, n: nat)
    requires n <= |s|
    ensures forall i :: |s| - n <= i < |s| ==> s[i] == s[|s| - n..][i - (|s| - n)]
  {
  }

  lemma SuffixIsSorted(s: seq<int>, from: nat)
    requires Sorted(s) && from <= |s|
    ensures Sorted(s[from..])
  {
  }

  ghost predicate NotBefore(grants: seq<int>, now: int) {
    grants != [] ==> grants[|grants| - 1] <= now
  }

  /** The clock has moved since the last grant when the window is inspected. */
  ghost predicate MovedOn(grants: seq<int>, r: Reads) {
    grants != [] ==> grants[|grants| - 1] < r.window
  }

  lemma AdmittedFromHistory(c: Config, next: int, q: seq<int>, grants: seq<int>, r: Reads)
    requires c.windowMax > 0 && DequeInv(c, q, grants) && Admissible(c, next, q, r) && NotBefore(grants, r.window)
    ensures var inWindow, left := Evict(q, r.window - c.windowDuration), Admitted(c, q, r);
            && |left| <= |inWindow| <= |q|
            && inWindow == grants[|grants| - |inWindow|..] && left == grants[|grants| - |left|..]
            && (forall i :: 0 <= i < |grants| - |left| ==> grants[i] + c.windowDuration < r.grant)
  {
    EvictionFromHistory(c, q, grants, r.window);
    var inWindow := Evict(q, r.window - c.windowDuration);
    if MustWait(c, inWindow, r.full) {
      EvictionFromHistory(c, inWindow, grants, r.wake);
    }
  }

  /** Whatever the readings: the deque stays a sorted suffix of the history that
      holds every grant still within the window. */
  lemma AcquireKeepsDeque(c: Config, next: int, q: seq<int>, grants: seq<int>, r: Reads)
    requires c.windowMax > 0 && DequeInv(c, q, grants) && Admissible(c, next, q, r) && NotBefore(grants, r.window)
    ensures DequeInv(c, Admitted(c, q, r) + [r.grant], grants + [r.grant])
  {
    AdmittedFromHistory(c, next, q, grants, r);
    var left, grants' := Admitted(c, q, r), grants + [r.grant];
    assert grants'[|grants'| - 1] == r.grant && forall i :: 0 <= i < |grants| ==> grants'[i] == grants[i];
    assert left + [r.grant] == grants'[|grants'| - (|left| + 1)..];
  }

  /** If the clock has moved since the last grant when the window is inspected, the
      new grant is a full window after the one `windowMax` places back, and the deque
      stays bounded. */
  lemma AcquireKeepsWindow(c: Config, next: int, q: seq<int>, grants: seq<int>, r: Reads)
    requires c.windowMax > 0 && WindowInv(c, q, grants) && Admissible(c, next, q, r) && MovedOn(grants, r)
    ensures WindowInv(c, Admitted(c, q, r) + [r.grant], grants + [r.grant])
  {
    AcquireKeepsDeque(c, next, q, grants, r);
    AdmittedFromHistory(c, next, q, grants, r);
    EvictionFromHistory(c, q, grants, r.window);
    var inWindow, left := Evict(q, r.window - c.windowDuration), Admitted(c, q, r);
    assert |inWindow| <= c.windowMax;
    SafeReadingsAreSpaced(c, next, q, grants, r);
    var grants' := grants + [r.grant];
    forall k | 0 <= k < |grants'| - c.windowMax
      ensures grants'[k + c.windowMax] >= grants'[k] + c.windowDuration
    {
      if k + c.windowMax < |grants| {
        assert grants[k + c.windowMax] >= grants[k] + c.windowDuration;
      }
    }
  }

  // ---------------------------------------------------------------- when it holds

  /** The next grant respects the window against the one `windowMax` places back. */
  ghost predicate RespectsWindow(c: Config, grants: seq<int>, grant: int)
    requires c.windowMax > 0
  {
    |grants| >= c.windowMax ==> grant >= grants[|grants| - c.windowMax] + c.windowDuration
  }

  /** After evicting at `now`, at most `windowMax` entries are left, or the surplus
      ones are all as old as the front. */
  predicate Safe(c: Config, q: seq<int>, now: int)
    requires c.windowMax > 0
  {
    var inWindow := Evict(q, now - c.windowDuration);
    |inWindow| <= c.windowMax || inWindow[|inWindow| - c.windowMax] == inWindow[0]
  }

  lemma SafeReadingsAreSpaced(c: Config, next: int, q: seq<int>, grants: seq<int>, r: Reads)
    requires c.windowMax > 0 && DequeInv(c, q, grants) && Admissible(c, next, q, r) && NotBefore(grants, r.window)
    requires Safe(c, q, r.window)
    ensures RespectsWindow(c, grants, r.grant)
  {
    EvictionFromHistory(c, q, grants, r.window);
    var inWindow := Evict(q, r.window - c.windowDuration);
    if |grants| >= c.windowMax {
      var k := |grants| - c.windowMax;
      if k >= |grants| - |inWindow| {
        assert grants[k] == inWindow[|inWindow| - c.windowMax] == inWindow[0];
      }
    }
  }

  /** Readings that break the bound when the deque is not safe: the clock stands still,
      or just reaches the deadline of the front. */
  lemma UnsafeReadings(c: Config, next: int, q: seq<int>, grants: seq<int>, now: int) returns (r: Reads)
    requires c.windowMax > 0 && DequeInv(c, q, grants) && NotBefore(grants, now) && next <= now
    requires !Safe(c, q, now)
    ensures r.window == now && Admissible(c, next, q, r) && !RespectsWindow(c, grants, r.grant)
  {
    EvictionFromHistory(c, q, grants, now);
    var inWindow := Evict(q, now - c.windowDuration);
    var deadline := inWindow[0] + c.windowDuration;
    assert inWindow[0] == grants[|grants| - |inWindow|];
    var end := if deadline > now then deadline else now;
    r := Reads(now, now, now, now, end, end);
    assert grants[|grants| - c.windowMax] == inWindow[|inWindow| - c.windowMax];
  }

  /** Exactly when an acquisition is sure to respect the window, whatever the clock
      does after the window is inspected at `now`. */
  lemma WindowHoldsExactlyWhenSafe(c: Config, next: int, q: seq<int>, grants: seq<int>, now: int)
    requires c.windowMax > 0 && DequeInv(c, q, grants) && NotBefore(grants, now) && next <= now
    ensures (forall r: Reads :: r.window == now && Admissible(c, next, q, r) ==> RespectsWindow(c, grants, r.grant))
       <==> Safe(c, q, now)
  {
    if Safe(c, q, now) {
      forall r: Reads | r.window == now && Admissible(c, next, q, r) ensures RespectsWindow(c, grants, r.grant) {
        SafeReadingsAreSpaced(c, next, q, grants, r);
      }
    } else {
      var r := UnsafeReadings(c, next, q, grants, now);
    }
  }

  lemma AcquireKeepsBoth(c: Config, next: int, q: seq<int>, grants: seq<int>, r: Reads)
    requires c.windowMax > 0 && DequeInv(c, q, grants) && Admissible(c, next, q, r) && NotBefore(grants, r.window)
    ensures DequeInv(c, Admitted(c, q, r) + [r.grant], grants + [r.grant])
    ensures WindowInv(c, q, grants) && MovedOn(grants, r) ==>
              WindowInv(c, Admitted(c, q, r) + [r.grant], grants + [r.grant])
  {
    AcquireKeepsDeque(c, next, q, grants, r);
    if WindowInv(c, q, grants) && MovedOn(grants, r) {
      AcquireKeepsWindow(c, next, q, grants, r);
    }
  }

  // ---------------------------------------------------------------- when it waits

  /** The grants that are still within the window at `now`, oldest first. */
  function StillInWindow(c: Config, grants: seq<int>, now: int): seq<int> {
    if grants == [] then []
    else
      var last := grants[|grants| - 1];
      StillInWindow(c, grants[..|grants| - 1], now) + if last + c.windowDuration >= now then [last] else []
  }

  /** On a sorted history these are a suffix: exactly what an eviction leaves. */
  lemma {:induction false} StillInWindowIsSuffix(c: Config, grants: seq<int>, now: int, n: nat)
    requires n <= |grants|
    requires forall i :: 0 <= i < |grants| - n ==> grants[i] + c.windowDuration < now
    requires forall i :: |grants| - n <= i < |grants| ==> grants[i] + c.windowDuration >= now
    ensures StillInWindow(c, grants, now) == grants[|grants| - n..]
  {
    if grants != [] {
      var last := |grants| - 1;
      assert n > 0 ==> grants[last] + c.windowDuration >= now;
      StillInWindowIsSuffix(c, grants[..last], now, if n > 0 then n - 1 else 0);
      assert n > 0 ==> grants[..last][last - (n - 1)..] + [grants[last]] == grants[|grants| - n..];
    }
  }

  lemma EvictionLeavesTheWindow(c: Config, q: seq<int>, grants: seq<int>, now: int)
    requires Sorted(grants) && |q| <= |grants| && q == grants[|grants| - |q|..]
    requires grants != [] ==> grants[|grants| - 1] <= now
    requires forall i :: 0 <= i < |grants| - |q| ==> grants[i] + c.windowDuration < now
    ensures Evict(q, now - c.windowDuration) == StillInWindow(c, grants, now)
  {
    EvictionFromHistory(c, q, grants, now);
    StillInWindowIsSuffix(c, grants, now, |Evict(q, now - c.windowDuration)|);
  }

  /** An acquisition that takes no time at all, as one does that need not sleep, is
      possible if and only if fewer than `windowMax` grants are still in the window or the
      oldest of them has just reached its deadline. It leaves in the deque exactly the
      grants that are still in the window, and its own. */
  lemma GoesAheadExactlyWhenThereIsRoom(c: Config, next: int, q: seq<int>, grants: seq<int>, now: int)
    requires c.windowMax > 0 && DequeInv(c, q, grants) && NotBefore(grants, now) && next <= now
    ensures var within := StillInWindow(c, grants, now);
            && (Admissible(c, next, q, At(now)) <==>
                  |within| < c.windowMax || within[0] + c.windowDuration <= now)
            && (Admissible(c, next, q, At(now)) ==> Admitted(c, q, At(now)) + [now] == within + [now])
  {
    EvictionLeavesTheWindow(c, q, grants, now);
    assert |Evict(q, now - c.windowDuration)| == 0 ==> 0 < c.windowMax;
  }

  /** An acquisition that finds the window full sleeps until the deadline of the oldest
      grant in it, and no acquisition that finds room sleeps at all: however long it then
      takes, the deque is not evicted a second time. */
  lemma SleepsExactlyUntilTheDeadline(c: Config, next: int, q: seq<int>, grants: seq<int>, r: Reads)
    requires c.windowMax > 0 && DequeInv(c, q, grants) && NotBefore(grants, r.window) && Admissible(c, next, q, r)
    ensures var within := StillInWindow(c, grants, r.window);
            if |within| >= c.windowMax && within[0] + c.windowDuration > r.full then
              r.wake >= within[0] + c.windowDuration && Admitted(c, q, r) == StillInWindow(c, grants, r.wake)
            else Admitted(c, q, r) == within
  {
    EvictionLeavesTheWindow(c, q, grants, r.window);
    var inWindow := Evict(q, r.window - c.windowDuration);
    assert inWindow == StillInWindow(c, grants, r.window);
    if MustWait(c, inWindow, r.full) {
      EvictionFromHistory(c, q, grants, r.window);
      EvictionLeavesTheWindow(c, inWindow, grants, r.wake);
    }
  }

  // ---------------------------------------------------------------- the limiter

  class OutboundRateLimiter {
    const config: Config
    var nextAllowedAt: int
    var windowTimestamps: seq<int>
    ghost var passes: seq<int>
    ghost var grants: seq<int>

    ghost predicate Valid()
      reads this
    {
      && PassesInv(config.burstInterval, passes, nextAllowedAt)
      && (if config.windowMax > 0 then DequeInv(config, windowTimestamps, grants) else windowTimestamps == [])
    }

    constructor (config: Config, now: int)
      ensures Valid() && this.config == config && nextAllowedAt == now
      ensures windowTimestamps == [] && passes == [] && grants == []
    {
      this.config := config;
      nextAllowedAt, windowTimestamps := now, [];
      passes, grants := [], [];
    }

    /** Waits for both tiers and records the request. */
    method Acquire(r: Reads)
      requires Valid() && Admissible(config, nextAllowedAt, windowTimestamps, r)
      requires NotBefore(grants, r.enter)
      modifies this
      ensures Valid()
      ensures passes == old(passes) + [r.pass] && nextAllowedAt == r.pass + config.burstInterval
      ensures config.windowMax > 0 ==> grants == old(grants) + [r.grant]
      ensures config.windowMax > 0 ==> windowTimestamps == Admitted(config, old(windowTimestamps), r) + [r.grant]
      ensures config.windowMax == 0 ==> grants == old(grants) && windowTimestamps == []
      ensures config.windowMax > 0 && old(WindowInv(config, windowTimestamps, grants) && MovedOn(grants, r)) ==>
                WindowInv(config, windowTimestamps, grants)
    {
      ghost var next := nextAllowedAt;
      PassBurstGate(r);
      if config.windowMax > 0 {
        AcquireKeepsBoth(config, next, windowTimestamps, grants, r);
        EnterWindow(r);
        windowTimestamps := windowTimestamps + [r.grant];
        grants := grants + [r.grant];
      }
    }

    method PassBurstGate(r: Reads)
      requires PassesInv(config.burstInterval, passes, nextAllowedAt) && nextAllowedAt <= r.pass
      modifies this`nextAllowedAt, this`passes
      ensures PassesInv(config.burstInterval, passes, nextAllowedAt)
      ensures passes == old(passes) + [r.pass] && nextAllowedAt == r.pass + config.burstInterval
    {
      nextAllowedAt := r.pass + config.burstInterval;
      passes := passes + [r.pass];
    }

    /** Evicts expired entries and, if the window is full, does so again after
        sleeping until the oldest entry expires. */
    method EnterWindow(r: Reads)
      requires config.windowMax > 0
      modifies this`windowTimestamps
      ensures windowTimestamps == Admitted(config, old(windowTimestamps), r)
    {
      EvictBefore(r.window - config.windowDuration);
      if |windowTimestamps| >= config.windowMax {
        var waitUntil := windowTimestamps[0] + config.windowDuration;
        if waitUntil > r.full {
          EvictBefore(r.wake - config.windowDuration);
        }
      }
    }

    method EvictBefore(cutoff: int)
      modifies this`windowTimestamps
      ensures windowTimestamps == Evict(old(windowTimestamps), cutoff)
    {
      while windowTimestamps != [] && windowTimestamps[0] < cutoff
        invariant Evict(windowTimestamps, cutoff) == Evict(old(windowTimestamps), cutoff)
        decreases |windowTimestamps|
      {
        windowTimestamps := windowTimestamps[1..];
      }
    }
  }

  // ---------------------------------------------------------------- whole histories

  /** Passes of the burst gate: each at least the interval after the one before. */
  ghost predicate PassesInv(interval: nat, passes: seq<int>, next: int) {
    && (forall i :: 0 < i < |passes| ==> passes[i] >= passes[i - 1] + interval)
    && (passes != [] ==> next == passes[|passes| - 1] + interval)
  }

  /** The deque and the grants after a sequence of acquisitions, one at a time. */
  function After(c: Config, calls: seq<Reads>): (seq<int>, seq<int>) {
    if calls == [] then ([], [])
    else
      var (q, grants) := After(c, calls[..|calls| - 1]);
      var r := calls[|calls| - 1];
      (Admitted(c, q, r) + [r.grant], grants + [r.grant])
  }

  ghost predicate Possible(c: Config, q: seq<int>, r: Reads) {
    exists next :: Admissible(c, next, q, r)
  }

  ghost predicate Sequential(c: Config, calls: seq<Reads>) {
    forall i :: 0 <= i < |calls| ==> Possible(c, After(c, calls[..i]).0, calls[i])
  }

  /** The clock moves between the end of a call and the next one's look at the window. */
  ghost predicate ClockMoves(calls: seq<Reads>) {
    forall i :: 0 < i < |calls| ==> calls[i - 1].grant < calls[i].window
  }

  lemma AfterOneMore(c: Config, calls: seq<Reads>, r: Reads)
    ensures After(c, calls + [r])
         == (Admitted(c, After(c, calls).0, r) + [r.grant], After(c, calls).1 + [r.grant])
  {
    assert (calls + [r])[..|calls|] == calls;
  }

  lemma {:induction false} GrantsOf(c: Config, calls: seq<Reads>)
    ensures |After(c, calls).1| == |calls|
    ensures forall i :: 0 <= i < |calls| ==> After(c, calls).1[i] == calls[i].grant
  {
    if calls != [] {
      GrantsOf(c, calls[..|calls| - 1]);
    }
  }

  /** One acquirer at a time on a clock that moves between calls: in the whole history,
      grant k + windowMax comes at least a window after grant k. */
  lemma {:induction false} WindowBoundHolds(c: Config, calls: seq<Reads>)
    requires c.windowMax > 0 && Sequential(c, calls) && ClockMoves(calls)
    ensures WindowInv(c, After(c, calls).0, After(c, calls).1)
    ensures forall k :: 0 <= k < |calls| - c.windowMax ==>
              calls[k + c.windowMax].grant >= calls[k].grant + c.windowDuration
  {
    if calls != [] {
      var n := |calls| - 1;
      SequentialPrefix(c, calls, n);
      WindowBoundHolds(c, calls[..n]);
      OneMoreCall(c, calls);
    }
    SpacedCalls(c, calls);
  }

  lemma SequentialPrefix(c: Config, calls: seq<Reads>, n: nat)
    requires Sequential(c, calls) && ClockMoves(calls) && n <= |calls|
    ensures Sequential(c, calls[..n]) && ClockMoves(calls[..n])
  {
    forall i | 0 <= i < n ensures Possible(c, After(c, calls[..n][..i]).0, calls[..n][i]) {
      assert calls[..n][..i] == calls[..i];
    }
  }

  lemma OneMoreCall(c: Config, calls: seq<Reads>)
    requires c.windowMax > 0 && calls != [] && Sequential(c, calls) && ClockMoves(calls)
    requires var before := After(c, calls[..|calls| - 1]); WindowInv(c, before.0, before.1)
    ensures WindowInv(c, After(c, calls).0, After(c, calls).1)
  {
    var n := |calls| - 1;
    var (q, grants) := After(c, calls[..n]);
    GrantsOf(c, calls[..n]);
    assert Possible(c, q, calls[n]);
    var next :| Admissible(c, next, q, calls[n]);
    AcquireKeepsWindow(c, next, q, grants, calls[n]);
  }

  lemma SpacedCalls(c: Config, calls: seq<Reads>)
    requires c.windowMax > 0 && Spaced(c, After(c, calls).1)
    ensures forall k :: 0 <= k < |calls| - c.windowMax ==>
              calls[k + c.windowMax].grant >= calls[k].grant + c.windowDuration
  {
    GrantsOf(c, calls);
    var grants := After(c, calls).1;
    forall k | 0 <= k < |calls| - c.windowMax ensures calls[k + c.windowMax].grant >= calls[k].grant + c.windowDuration {
      assert grants[k + c.windowMax] >= grants[k] + c.windowDuration;
    }
  }

  const ONE_PER_TEN := Config(0, 1, 10)

  function At(t: int): Reads {
    Reads(t, t, t, t, t, t)
  }

  lemma StandingHistory()
    ensures After(ONE_PER_TEN, [At(0)]).0 == After(ONE_PER_TEN, [At(0)]).1 == [0]
    ensures After(ONE_PER_TEN, [At(0), At(10)]).0 == After(ONE_PER_TEN, [At(0), At(10)]).1 == [0, 10]
  {
    AfterOneMore(ONE_PER_TEN, [], At(0));
    assert [] + [At(0)] == [At(0)];
    AfterOneMore(ONE_PER_TEN, [At(0)], At(10));
    assert [At(0)] + [At(10)] == [At(0), At(10)];
    assert !MustWait(ONE_PER_TEN, [0], 10) && Evict([0], 0) == [0];
  }

  /** On a clock that can stand still between two calls the bound fails: with one
      request per 10 units, two are granted at the same instant. */
  lemma StandingClockBreaksTheBound()
    ensures var calls := [At(0), At(10), At(10)];
            && Sequential(ONE_PER_TEN, calls)
            && After(ONE_PER_TEN, calls).1 == [0, 10, 10]
            && !Spaced(ONE_PER_TEN, After(ONE_PER_TEN, calls).1)
  {
    var calls := [At(0), At(10), At(10)];
    StandingHistory();
    AfterOneMore(ONE_PER_TEN, [At(0), At(10)], At(10));
    assert [At(0), At(10)] + [At(10)] == calls;
    assert !MustWait(ONE_PER_TEN, [0, 10], 10) && Evict([0, 10], 0) == [0, 10];
    var grants := After(ONE_PER_TEN, calls).1;
    assert grants == [0, 10, 10];
    assert grants[1 + 1] < grants[1] + 10;
    assert Admissible(ONE_PER_TEN, 0, [], At(0)) && Admissible(ONE_PER_TEN, 0, [0], At(10))
        && Admissible(ONE_PER_TEN, 0, [0, 10], At(10));
    forall i | 0 <= i < 3 ensures Possible(ONE_PER_TEN, After(ONE_PER_TEN, calls[..i]).0, calls[i]) {
      assert calls[..0] == [] && calls[..1] == [At(0)] && calls[..2] == [At(0), At(10)];
    }
  }
}
