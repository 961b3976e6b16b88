/**
 The sliding window of the enrichment metrics: a pruned and capped queue of time stamps that
 must agree with the full log of recorded runs. Time is a real number of seconds and never
 runs backwards; counters have 64 bits.
 */
module RunWindow {
  const RING_CAPACITY: nat := 10_000
  const WINDOW: real := 300.0
  const WORD: nat := 0x1_0000_0000_0000_0000

  ghost predicate Sorted(log: seq<real>) {
    forall i, j :: 0 <= i < j < |log| ==> log[i] <= log[j]
  }

  /** How many logged times are not before `cutoff`. */
  function CountFrom(log: seq<real>, cutoff: real): nat {
    if log == [] then 0
    else CountFrom(log[..|log| - 1], cutoff) + if log[|log| - 1] >= cutoff then 1 else 0
  }

  function Min(a: nat, b: nat): nat {
    if a < b then a else b
  }

  /** What the window must report at `now`: the runs of the last five minutes, up to the capacity. */
  function RecentRuns(log: seq<real>, now: real): nat {
    Min(RING_CAPACITY, CountFrom(log, now - WINDOW))
  }

  lemma {:induction false} CountBySplit(log: seq<real>, k: nat, cutoff: real)
    requires k <= |log|
    requires forall i :: 0 <= i < k ==> log[i] < cutoff
    requires forall i :: k <= i < |log| ==> log[i] >= cutoff
    ensures CountFrom(log, cutoff) == |log| - k
  {
    if log != [] {
      var front := log[..|log| - 1];
      CountBySplit(front, if k < |log| then k else |front|, cutoff);
    }
  }

  /** The queue holds the log from `dropped` on; what was dropped is too old, or beyond the capacity. */
  ghost predicate IsWindow(log: seq<real>, queue: seq<real>, dropped: nat, clock: real) {
    && Sorted(log) && (forall i :: 0 <= i < |log| ==> log[i] <= clock)
    && dropped <= |log| && queue == log[dropped..]
    && forall i :: 0 <= i < dropped ==> log[i] < clock - WINDOW || |log| - i > RING_CAPACITY
  }

  /** Once the queue is pruned, its length is what the whole log calls for. */
  lemma {:induction false} WindowCounts(log: seq<real>, queue: seq<real>, dropped: nat, now: real)
    requires IsWindow(log, queue, dropped, now) && |queue| <= RING_CAPACITY
    requires queue != [] ==> queue[0] >= now - WINDOW
    ensures |queue| == RecentRuns(log, now)
  {
    var k := FirstFrom(log, now - WINDOW);
    CountBySplit(log, k, now - WINDOW);
    assert dropped < |log| ==> queue[0] == log[dropped];
    assert k < dropped ==> log[dropped - 1] >= now - WINDOW && |log| - (dropped - 1) > RING_CAPACITY;
  }

  lemma {:induction false} FirstFrom(log: seq<real>, cutoff: real) returns (k: nat)
    requires Sorted(log)
    ensures k <= |log|
    ensures forall i :: 0 <= i < k ==> log[i] < cutoff
    ensures forall i :: k <= i < |log| ==> log[i] >= cutoff
  {
    k := 0;
    while k < |log| && log[k] < cutoff
      invariant k <= |log| && forall i :: 0 <= i < k ==> log[i] < cutoff
    {
      k := k + 1;
    }
  }

  /** If exactly the log from `k` on lies within the last 300 seconds, its length is reported, up to 10000. */
  lemma {:induction false} FiveMinutes(log: seq<real>, k: nat, now: real)
    requires k <= |log|
    requires forall i :: 0 <= i < k ==> now - log[i] > 300.0
    requires forall i :: k <= i < |log| ==> now - log[i] <= 300.0
    ensures RecentRuns(log, now) == if |log| - k <= 10000 then |log| - k else 10000
  {
    CountBySplit(log, k, now - 300.0);
  }

  lemma {:induction false} CounterWraps(n: nat)
    ensures (n % WORD + 1) % WORD == (n + 1) % WORD
  {
  }

  class EnrichmentMetrics {
    var totalSuccess: nat
    var totalFailure: nat
    var runTimestamps: seq<real>
    ghost var successes: nat
    ghost var failures: nat
    ghost var log: seq<real>
    ghost var dropped: nat
    ghost var clock: real

    ghost predicate Valid()
      reads this
    {
      && IsWindow(log, runTimestamps, dropped, clock) && |runTimestamps| <= RING_CAPACITY
      && totalSuccess == successes % 0x1_0000_0000_0000_0000 && totalFailure == failures % 0x1_0000_0000_0000_0000
      && |log| == successes + failures
    }

    constructor (now: real)
      ensures Valid() && log == [] && clock == now && successes == failures == 0
    {
      totalSuccess, totalFailure := 0, 0;
      runTimestamps := [];
      successes, failures, log, dropped, clock := 0, 0, [], 0, now;
    }

    /** Drop entries from the front while they are older than five minutes. */
    method PruneOld(now: real)
      requires IsWindow(log, runTimestamps, dropped, now)
      modifies this`runTimestamps, this`dropped
      ensures IsWindow(log, runTimestamps, dropped, now) && |runTimestamps| <= |old(runTimestamps)|
      ensures runTimestamps != [] ==> runTimestamps[0] >= now - WINDOW
    {
      var cutoff := now - WINDOW;
      while runTimestamps != [] && runTimestamps[0] < cutoff
        invariant IsWindow(log, runTimestamps, dropped, now)
        invariant |runTimestamps| <= |old(runTimestamps)|
        decreases |runTimestamps|
      {
        runTimestamps := runTimestamps[1..];
        dropped := dropped + 1;
      }
    }

    method Cap()
      requires IsWindow(log, runTimestamps, dropped, clock)
      modifies this`runTimestamps, this`dropped
      ensures IsWindow(log, runTimestamps, dropped, clock) && |runTimestamps| <= RING_CAPACITY
    {
      while |runTimestamps| > RING_CAPACITY
        invariant IsWindow(log, runTimestamps, dropped, clock)
      {
        runTimestamps := runTimestamps[1..];
        dropped := dropped + 1;
      }
    }

    /** Push the time of one run, prune against a second clock reading, then cap. */
    method Push(pushed: real, pruned: real)
      requires IsWindow(log, runTimestamps, dropped, clock) && clock <= pushed <= pruned
      modifies this`runTimestamps, this`dropped, this`log, this`clock
      ensures IsWindow(log, runTimestamps, dropped, clock) && |runTimestamps| <= RING_CAPACITY
      ensures log == old(log) + [pushed] && clock == pruned
    {
      runTimestamps := runTimestamps + [pushed];
      log := log + [pushed];
      clock := pruned;
      PruneOld(pruned);
      Cap();
    }

    method RecordSuccess(pushed: real, pruned: real)
      requires Valid() && clock <= pushed <= pruned
      modifies this
      ensures Valid() && log == old(log) + [pushed] && clock == pruned
      ensures successes == old(successes) + 1 && failures == old(failures)
    {
      hide IsWindow;
      CounterWraps(successes);
      totalSuccess := (totalSuccess + 1) % WORD;
      successes := successes + 1;
      Push(pushed, pruned);
    }

    method RecordFailure(pushed: real, pruned: real)
      requires Valid() && clock <= pushed <= pruned
      modifies this
      ensures Valid() && log == old(log) + [pushed] && clock == pruned
      ensures failures == old(failures) + 1 && successes == old(successes)
    {
      hide IsWindow;
      CounterWraps(failures);
      totalFailure := (totalFailure + 1) % WORD;
      failures := failures + 1;
      Push(pushed, pruned);
    }

    /** The pruned queue reports what the whole log says, however it was pruned before. */
    method RecentRuns5Min(now: real) returns (r: nat)
      requires Valid() && clock <= now
      modifies this
      ensures Valid() && log == old(log) && clock == now
      ensures r == RecentRuns(log, now)
      ensures successes == old(successes) && failures == old(failures)
    {
      clock := now;
      PruneOld(now);
      WindowCounts(log, runTimestamps, dropped, now);
      r := |runTimestamps|;
    }
  }
}
