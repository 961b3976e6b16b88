/**
 The gateway's two-level rate limiter: a token bucket per client, kept in a map of bounded size
 from which an arbitrary entry is evicted when it is full, and one global bucket behind it.
 */
module TwoLevelLimiter {
  import opened Wrappers
  import opened TokenBucket

  datatype Settings = Settings(client: Limits, global: Limits, maxClients: nat) {
    ghost predicate Valid() {
      client.refillRate >= 0.0 && global.refillRate >= 0.0 && client.maxTokens >= 0.0 && global.maxTokens >= 0.0
    }
  }

  const GATEWAY := Settings(Limits(100.0, 20.0), Limits(500.0, 100.0), 1000)

  /** A request, with the client that was evicted to make room before it, if any. */
  datatype Request = Request(client: string, time: real, evicted: Option<string>)

  datatype Gate = Gate(buckets: map<string, Bucket>, global: Bucket)

  predicate IsFull(g: Gate, maxClients: nat) {
    |g.buckets| >= maxClients && g.buckets.Keys != {}
  }

  /** Something is evicted exactly when the map is full, and it can be anything in the map. */
  predicate LegalEviction(settings: Settings, g: Gate, evicted: Option<string>) {
    if IsFull(g, settings.maxClients) then evicted.Some? && evicted.value in g.buckets else evicted.None?
  }

  function Evict(g: Gate, evicted: Option<string>): map<string, Bucket> {
    if evicted.Some? then g.buckets - {evicted.value} else g.buckets
  }

  /** The bucket that a request is charged to. */
  function BucketFor(settings: Settings, g: Gate, r: Request): Bucket {
    var buckets := Evict(g, r.evicted);
    if r.client in buckets then buckets[r.client] else Fresh(settings.client, r.time)
  }

  predicate PassesClient(settings: Settings, g: Gate, r: Request) {
    Admits(settings.client, BucketFor(settings, g, r), r.time)
  }

  predicate Accepts(settings: Settings, g: Gate, r: Request) {
    PassesClient(settings, g, r) && Admits(settings.global, g.global, r.time)
  }

  function Serve(settings: Settings, g: Gate, r: Request): Gate {
    Gate(Evict(g, r.evicted)[r.client := Consume(settings.client, BucketFor(settings, g, r), r.time)],
         if PassesClient(settings, g, r) then Consume(settings.global, g.global, r.time) else g.global)
  }

  function Replay(settings: Settings, start: real, log: seq<Request>): Gate {
    if log == [] then Gate(map[], Fresh(settings.global, start))
    else Serve(settings, Replay(settings, start, log[..|log| - 1]), log[|log| - 1])
  }

  ghost predicate IsLog(settings: Settings, start: real, log: seq<Request>) {
    && (forall j :: 0 <= j < |log| ==> start <= log[j].time)
    && (forall i, j :: 0 <= i < j < |log| ==> log[i].time <= log[j].time)
    && (forall j :: 0 <= j < |log| ==> LegalEviction(settings, Replay(settings, start, log[..j]), log[j].evicted))
  }

  predicate Passed(settings: Settings, start: real, log: seq<Request>, j: nat)
    requires j < |log|
  {
    PassesClient(settings, Replay(settings, start, log[..j]), log[j])
  }

  predicate Accepted(settings: Settings, start: real, log: seq<Request>, j: nat)
    requires j < |log|
  {
    Accepts(settings, Replay(settings, start, log[..j]), log[j])
  }

  // ---- The calls that each bucket has seen ----------------------------------------------

  /** The times at which the global bucket was charged. */
  function GlobalCalls(settings: Settings, start: real, log: seq<Request>): seq<real> {
    if log == [] then [] else
      var front := log[..|log| - 1];
      GlobalCalls(settings, start, front)
      + if PassesClient(settings, Replay(settings, start, front), log[|log| - 1]) then [log[|log| - 1].time] else []
  }

  /** The times at which the bucket that `c` now has was charged; none if `c` has no bucket. */
  function ClientCalls(log: seq<Request>, c: string): seq<real> {
    if log == [] then [] else
      var r := log[|log| - 1];
      var before := if r.evicted == Some(c) then [] else ClientCalls(log[..|log| - 1], c);
      if r.client == c then before + [r.time] else before
  }

  function BucketOf(limits: Limits, calls: seq<real>): Bucket
    requires calls != []
  {
    AfterCalls(limits, calls[0], calls)
  }

  /** The bucket of `c`, if it has one, is what its own calls make of it. */
  ghost predicate ReflectsClient(settings: Settings, g: Gate, log: seq<Request>, c: string) {
    && (c in g.buckets <==> ClientCalls(log, c) != [])
    && (c in g.buckets ==> g.buckets[c] == BucketOf(settings.client, ClientCalls(log, c)))
  }

  /** Every bucket is what its own calls make of it: nothing else is ever charged to it. */
  lemma {:induction false} BucketsReflectCalls(settings: Settings, start: real, log: seq<Request>, c: string)
    ensures var g := Replay(settings, start, log);
            && g.global == AfterCalls(settings.global, start, GlobalCalls(settings, start, log))
            && ReflectsClient(settings, g, log, c)
  {
    hide Consume, Admits, AfterCalls, BucketOf;
    if log == [] {
      assert AfterCalls(settings.global, start, []) == Fresh(settings.global, start) by {
        NoCalls(settings.global, start);
      }
    } else {
      var front, r := log[..|log| - 1], log[|log| - 1];
      BucketsReflectCalls(settings, start, front, c);
      BucketsReflectCalls(settings, start, front, r.client);
      GlobalCallsAppend(settings.global, start, GlobalCalls(settings, start, front), r.time);
      var before := if r.evicted == Some(r.client) then [] else ClientCalls(front, r.client);
      ClientCallsAppend(settings.client, before, r.time);
      assert GlobalCalls(settings, start, front) + [] == GlobalCalls(settings, start, front);
    }
  }

  lemma {:induction false} NoCalls(limits: Limits, start: real)
    ensures AfterCalls(limits, start, []) == Fresh(limits, start)
  {
  }

  lemma {:induction false} GlobalCallsAppend(limits: Limits, start: real, calls: seq<real>, now: real)
    ensures AfterCalls(limits, start, calls + [now]) == Consume(limits, AfterCalls(limits, start, calls), now)
  {
    assert (calls + [now])[..|calls|] == calls;
  }

  lemma {:induction false} ClientCallsAppend(limits: Limits, calls: seq<real>, now: real)
    ensures BucketOf(limits, calls + [now]) ==
            Consume(limits, if calls == [] then Fresh(limits, now) else BucketOf(limits, calls), now)
  {
    hide Consume;
    GlobalCallsAppend(limits, (calls + [now])[0], calls, now);
    if calls == [] {
      NoCalls(limits, now);
    } else {
      assert (calls + [now])[0] == calls[0];
    }
  }

  /** The map never holds more than `maxClients` buckets, or one if that number is zero. */
  lemma {:induction false} MapIsBounded(settings: Settings, start: real, log: seq<Request>)
    requires IsLog(settings, start, log)
    ensures |Replay(settings, start, log).buckets| <= if settings.maxClients == 0 then 1 else settings.maxClients
  {
    if log != [] {
      var front, r := log[..|log| - 1], log[|log| - 1];
      FrontIsLog(settings, start, log);
      MapIsBounded(settings, start, front);
      var g := Replay(settings, start, front);
      EvictionSize(g.buckets, r.evicted, r.client, Consume(settings.client, BucketFor(settings, g, r), r.time));
      assert LegalEviction(settings, Replay(settings, start, log[..|front|]), log[|front|].evicted);
    }
  }

  lemma {:induction false} EvictionSize(m: map<string, Bucket>, evicted: Option<string>, k: string, b: Bucket)
    ensures evicted.Some? && evicted.value in m ==> |(m - {evicted.value})[k := b]| <= |m|
    ensures |m[k := b]| <= |m| + 1
  {
    InsertionSize(m, k, b);
    if evicted.Some? && evicted.value in m {
      var n := m - {evicted.value};
      assert n.Keys == m.Keys - {evicted.value} && |n.Keys| == |m.Keys| - 1 && |n| == |n.Keys| && |m| == |m.Keys|;
      InsertionSize(n, k, b);
    }
  }

  lemma {:induction false} InsertionSize(m: map<string, Bucket>, k: string, b: Bucket)
    ensures |m[k := b]| <= |m| + 1
  {
    assert m[k := b].Keys == m.Keys + {k};
    assert |m[k := b].Keys| <= |m.Keys| + 1 && |m[k := b]| == |m[k := b].Keys| && |m| == |m.Keys|;
  }

  lemma {:induction false} FrontIsLog(settings: Settings, start: real, log: seq<Request>)
    requires IsLog(settings, start, log) && log != []
    ensures IsLog(settings, start, log[..|log| - 1])
  {
    hide Replay, LegalEviction;
    var front := log[..|log| - 1];
    assert forall j :: 0 <= j < |front| ==> front[..j] == log[..j];
  }

  // ---- Windows --------------------------------------------------------------------------

  /** Requests i, ..., k - 1 as seen by one bucket whose calls before request j are `calls(j)`. */
  ghost predicate Follows(times: seq<real>, calls: nat -> seq<real>, i: nat, k: nat) {
    && i <= k <= |times|
    && forall j: nat :: i <= j < k ==> calls(j + 1) == calls(j) || calls(j + 1) == calls(j) + [times[j]]
  }

  /** How many of the calls charged during requests i, ..., k - 1 the bucket admitted. */
  ghost function Grants(limits: Limits, created: real, times: seq<real>, calls: nat -> seq<real>, i: nat, k: nat): nat
    requires i <= k <= |times|
    decreases k
  {
    if i == k then 0 else
      Grants(limits, created, times, calls, i, k - 1)
      + if calls(k) != calls(k - 1) && Admits(limits, AfterCalls(limits, created, calls(k - 1)), times[k - 1]) then 1
        else 0
  }

  lemma {:induction false} CountIgnoresLaterCalls(
      limits: Limits, start: real, times: seq<real>, x: real, j: nat, k: nat)
    requires j <= k <= |times|
    ensures AdmittedCount(limits, start, times + [x], j, k) == AdmittedCount(limits, start, times, j, k)
    decreases k
  {
    if j < k {
      CountIgnoresLaterCalls(limits, start, times, x, j, k - 1);
      assert (times + [x])[..k - 1] == times[..k - 1];
    }
  }

  lemma {:induction false} GrantsAreAdmissions(
      limits: Limits, created: real, times: seq<real>, calls: nat -> seq<real>, i: nat, k: nat)
    requires Follows(times, calls, i, k)
    ensures |calls(i)| <= |calls(k)|
    ensures Grants(limits, created, times, calls, i, k) ==
        AdmittedCount(limits, created, calls(k), |calls(i)|, |calls(k)|)
    decreases k
  {
    hide Admits, AfterCalls;
    if i < k {
      var p: nat := k - 1;
      GrantsAreAdmissions(limits, created, times, calls, i, p);
      assert calls(p + 1) == calls(p) || calls(p + 1) == calls(p) + [times[p]];
      if calls(k) != calls(p) {
        CountIgnoresLaterCalls(limits, created, calls(p), times[p], |calls(i)|, |calls(p)|);
        assert calls(k)[..|calls(p)|] == calls(p);
      }
    }
  }

  /** The calls charged during a window carry times of that window. */
  lemma {:induction false} ChargedInWindow(
      times: seq<real>, calls: nat -> seq<real>, i: nat, k: nat, m: nat) returns (j: nat)
    requires Follows(times, calls, i, k) && |calls(i)| <= m < |calls(k)|
    ensures i <= j < k && calls(k)[m] == times[j]
    decreases k
  {
    var p: nat := k - 1;
    assert i < k;
    assert calls(p + 1) == calls(p) || calls(p + 1) == calls(p) + [times[p]];
    if m < |calls(p)| {
      j := ChargedInWindow(times, calls, i, p, m);
    } else {
      j := p;
    }
  }

  /** In any window of `span` seconds a bucket admits at most its capacity and what it gains. */
  lemma {:induction false} GrantsBound(
      limits: Limits, created: real, times: seq<real>, calls: nat -> seq<real>, i: nat, k: nat, span: real)
    requires Follows(times, calls, i, k) && Monotone(created, calls(k))
    requires limits.refillRate >= 0.0 && limits.maxTokens >= 0.0 && span >= 0.0
    requires forall j, l :: i <= j <= l < k ==> times[l] - times[j] <= span && times[j] - times[l] <= span
    ensures Grants(limits, created, times, calls, i, k) as real <= limits.maxTokens + Gain(limits, 0.0, span)
  {
    GrantsAreAdmissions(limits, created, times, calls, i, k);
    var j, n := |calls(i)|, |calls(k)|;
    if j < n {
      var a := ChargedInWindow(times, calls, i, k, j);
      var b := ChargedInWindow(times, calls, i, k, n - 1);
      assert times[b] - times[a] <= span by {
        if b < a {
          assert times[a] - times[b] <= span && times[b] - times[a] <= span;
        }
      }
    }
    WindowBound(limits, created, calls(k), j, n, span);
  }

  function Times(log: seq<Request>): (ts: seq<real>)
    ensures |ts| == |log| && forall j :: 0 <= j < |ts| ==> ts[j] == log[j].time
  {
    seq(|log|, j requires 0 <= j < |log| => log[j].time)
  }

  /** How many of the requests i, ..., k - 1 were accepted. */
  function AcceptedCount(settings: Settings, start: real, log: seq<Request>, i: nat, k: nat): nat
    requires i <= k <= |log|
    decreases k
  {
    if i == k then 0 else
      AcceptedCount(settings, start, log, i, k - 1) + if Accepted(settings, start, log, k - 1) then 1 else 0
  }

  /** How many of the requests i, ..., k - 1 of client `c` passed the per-client level. */
  function PassedCount(settings: Settings, start: real, log: seq<Request>, c: string, i: nat, k: nat): nat
    requires i <= k <= |log|
    decreases k
  {
    if i == k then 0 else
      PassedCount(settings, start, log, c, i, k - 1)
      + if log[k - 1].client == c && Passed(settings, start, log, k - 1) then 1 else 0
  }

  ghost function GlobalHistory(settings: Settings, start: real, log: seq<Request>): nat -> seq<real> {
    (j: nat) => GlobalCalls(settings, start, log[..if j <= |log| then j else |log|])
  }

  /**
   The calls of the bucket of `c` during a window from request `i` on, in which nothing but the
   first request may evict it.
   */
  ghost function ClientHistory(log: seq<Request>, c: string, i: nat): nat -> seq<real> {
    (j: nat) =>
      if j > i then ClientCalls(log[..if j <= |log| then j else |log|], c)
      else if i < |log| && log[i].evicted != Some(c) then ClientCalls(log[..i], c)
      else []
  }

  lemma {:induction false} GlobalCallsMonotone(settings: Settings, start: real, log: seq<Request>)
    requires IsLog(settings, start, log)
    ensures Monotone(start, GlobalCalls(settings, start, log))
    ensures log != [] ==> forall m :: 0 <= m < |GlobalCalls(settings, start, log)| ==>
              GlobalCalls(settings, start, log)[m] <= log[|log| - 1].time
  {
    hide PassesClient, Replay;
    if log != [] {
      FrontIsLog(settings, start, log);
      GlobalCallsMonotone(settings, start, log[..|log| - 1]);
      assert |log| > 1 ==> log[..|log| - 1][|log| - 2] == log[|log| - 2];
    }
  }

  lemma {:induction false} ClientCallsMonotone(settings: Settings, start: real, log: seq<Request>, c: string)
    requires IsLog(settings, start, log)
    ensures var calls := ClientCalls(log, c);
            && (calls != [] ==> Monotone(calls[0], calls))
            && (log != [] ==> forall m :: 0 <= m < |calls| ==> calls[m] <= log[|log| - 1].time)
  {
    hide Replay, LegalEviction;
    if log != [] {
      FrontIsLog(settings, start, log);
      ClientCallsMonotone(settings, start, log[..|log| - 1], c);
      assert |log| > 1 ==> log[..|log| - 1][|log| - 2] == log[|log| - 2];
    }
  }

  lemma {:induction false} PrefixIsLog(settings: Settings, start: real, log: seq<Request>, k: nat)
    requires IsLog(settings, start, log) && k <= |log|
    ensures IsLog(settings, start, log[..k])
  {
    assert forall j :: 0 <= j < k ==> log[..k][..j] == log[..j];
  }

  lemma {:induction false} GlobalHistoryStep(settings: Settings, start: real, log: seq<Request>, j: nat)
    requires j < |log|
    ensures GlobalHistory(settings, start, log)(j) == GlobalCalls(settings, start, log[..j])
    ensures GlobalHistory(settings, start, log)(j + 1) ==
            GlobalHistory(settings, start, log)(j) + if Passed(settings, start, log, j) then [log[j].time] else []
  {
    hide PassesClient, Replay;
    var now := log[..j + 1];
    assert now[..|now| - 1] == log[..j] && now[|now| - 1] == log[j];
    var i: nat := j + 1;
    assert GlobalHistory(settings, start, log)(i) == GlobalCalls(settings, start, now);
  }

  lemma {:induction false} ClientHistoryStep(log: seq<Request>, c: string, i: nat, j: nat)
    requires i <= j < |log| && (i < j ==> log[j].evicted != Some(c))
    ensures ClientHistory(log, c, i)(j) == if log[j].evicted == Some(c) then [] else ClientCalls(log[..j], c)
    ensures ClientHistory(log, c, i)(j + 1) ==
            ClientHistory(log, c, i)(j) + if log[j].client == c then [log[j].time] else []
  {
    var now := log[..j + 1];
    assert now[..|now| - 1] == log[..j] && now[|now| - 1] == log[j];
    var n: nat := j + 1;
    assert ClientHistory(log, c, i)(n) == ClientCalls(now, c);
  }

  lemma {:induction false} AcceptedAreGrants(settings: Settings, start: real, log: seq<Request>, i: nat, k: nat)
    requires i <= k <= |log|
    ensures Follows(Times(log), GlobalHistory(settings, start, log), i, k)
    ensures AcceptedCount(settings, start, log, i, k) ==
            Grants(settings.global, start, Times(log), GlobalHistory(settings, start, log), i, k)
    decreases k
  {
    hide Admits, PassesClient, GlobalHistory, Replay, AfterCalls;
    forall j: nat | i <= j < k
      ensures var h := GlobalHistory(settings, start, log); h(j + 1) == h(j) || h(j + 1) == h(j) + [Times(log)[j]]
    {
      GlobalHistoryStep(settings, start, log, j);
    }
    if i < k {
      AcceptedAreGrants(settings, start, log, i, k - 1);
      GlobalHistoryStep(settings, start, log, k - 1);
      BucketsReflectCalls(settings, start, log[..k - 1], log[k - 1].client);
    }
  }

  /** Any window of `span` seconds accepts at most what the global bucket holds and gains. */
  lemma {:induction false} GlobalWindowBound(
      settings: Settings, start: real, log: seq<Request>, i: nat, k: nat, span: real)
    requires settings.Valid() && IsLog(settings, start, log) && i <= k <= |log| && span >= 0.0
    requires i < k ==> log[k - 1].time - log[i].time <= span
    ensures AcceptedCount(settings, start, log, i, k) as real <=
        settings.global.maxTokens + Gain(settings.global, 0.0, span)
  {
    hide Gain, Replay;
    AcceptedAreGrants(settings, start, log, i, k);
    PrefixIsLog(settings, start, log, k);
    GlobalCallsMonotone(settings, start, log[..k]);
    WithinSpan(settings, start, log, i, k, span);
    GrantsBound(settings.global, start, Times(log), GlobalHistory(settings, start, log), i, k, span);
  }

  lemma {:induction false} WithinSpan(settings: Settings, start: real, log: seq<Request>, i: nat, k: nat, span: real)
    requires IsLog(settings, start, log) && i <= k <= |log| && span >= 0.0
    requires i < k ==> log[k - 1].time - log[i].time <= span
    ensures forall j, l :: i <= j <= l < k ==>
              Times(log)[l] - Times(log)[j] <= span && Times(log)[j] - Times(log)[l] <= span
  {
    hide Replay, LegalEviction;
    forall j, l | i <= j <= l < k
      ensures Times(log)[l] - Times(log)[j] <= span && Times(log)[j] - Times(log)[l] <= span
    {
      assert log[i].time <= log[j].time <= log[l].time <= log[k - 1].time;
    }
  }

  /** Request `j` of `c` passes exactly if it is one more call that the bucket admits. */
  lemma {:induction false} PassedIsGrant(
      settings: Settings, start: real, log: seq<Request>, c: string, created: real, i: nat, j: nat)
    requires i <= j < |log| && (i < j ==> log[j].evicted != Some(c))
    requires var calls := ClientHistory(log, c, i)(j + 1); calls != [] ==> created == calls[0]
    ensures var h := ClientHistory(log, c, i);
            log[j].client == c && Passed(settings, start, log, j) <==>
            h(j + 1) != h(j) && Admits(settings.client, AfterCalls(settings.client, created, h(j)), log[j].time)
  {
    hide Admits, ClientHistory, Replay, AfterCalls, Consume, ClientCalls;
    ClientHistoryStep(log, c, i, j);
    BucketsReflectCalls(settings, start, log[..j], c);
    NoCalls(settings.client, created);
  }

  lemma {:induction false} ClientFollows(log: seq<Request>, c: string, i: nat, k: nat)
    requires i <= k <= |log| && forall j :: i < j < k ==> log[j].evicted != Some(c)
    ensures Follows(Times(log), ClientHistory(log, c, i), i, k)
  {
    hide ClientHistory, ClientCalls;
    forall j: nat | i <= j < k
      ensures var h := ClientHistory(log, c, i); h(j + 1) == h(j) || h(j + 1) == h(j) + [Times(log)[j]]
    {
      ClientHistoryStep(log, c, i, j);
    }
  }

  lemma {:induction false} PassedAreGrants(
      settings: Settings, start: real, log: seq<Request>, c: string, created: real, i: nat, k: nat)
    requires i <= k <= |log|
    requires forall j :: i < j < k ==> log[j].evicted != Some(c)
    requires var calls := ClientHistory(log, c, i)(k); calls != [] ==> created == calls[0]
    ensures Follows(Times(log), ClientHistory(log, c, i), i, k)
    ensures PassedCount(settings, start, log, c, i, k) ==
            Grants(settings.client, created, Times(log), ClientHistory(log, c, i), i, k)
    decreases k
  {
    hide Admits, ClientHistory, Replay, AfterCalls, Passed, Follows;
    ClientFollows(log, c, i, k);
    if i < k {
      var p := k - 1;
      ClientHistoryStep(log, c, i, p);
      PassedAreGrants(settings, start, log, c, created, i, p);
      PassedIsGrant(settings, start, log, c, created, i, p);
    }
  }

  lemma {:induction false} HistoryMonotone(
      settings: Settings, start: real, log: seq<Request>, c: string, i: nat, k: nat)
    requires IsLog(settings, start, log) && i <= k <= |log|
    ensures var calls := ClientHistory(log, c, i)(k);
            Monotone(if calls != [] then calls[0] else start, calls)
  {
    hide IsLog;
    PrefixIsLog(settings, start, log, k);
    ClientCallsMonotone(settings, start, log[..k], c);
  }

  /**
   A client whose bucket is not evicted during a window of `span` seconds, but for the first
   request of it, passes the per-client level at most as often as its bucket allows, whatever
   the other clients do.
   */
  lemma {:induction false} ClientWindowBound(
      settings: Settings, start: real, log: seq<Request>, c: string, i: nat, k: nat, span: real)
    requires settings.Valid() && IsLog(settings, start, log) && i <= k <= |log| && span >= 0.0
    requires i < k ==> log[k - 1].time - log[i].time <= span
    requires forall j :: i < j < k ==> log[j].evicted != Some(c)
    ensures PassedCount(settings, start, log, c, i, k) as real <=
        settings.client.maxTokens + Gain(settings.client, 0.0, span)
  {
    hide Gain, Replay;
    var calls := ClientHistory(log, c, i)(k);
    var created := if calls != [] then calls[0] else start;
    PassedAreGrants(settings, start, log, c, created, i, k);
    HistoryMonotone(settings, start, log, c, i, k);
    WithinSpan(settings, start, log, i, k, span);
    GrantsBound(settings.client, created, Times(log), ClientHistory(log, c, i), i, k, span);
  }

  /** How often the bucket of `c` was evicted by the requests i, ..., k - 1. */
  function EvictionCount(log: seq<Request>, c: string, i: nat, k: nat): nat
    requires i <= k <= |log|
    decreases k
  {
    if i == k then 0 else EvictionCount(log, c, i, k - 1) + if log[k - 1].evicted == Some(c) then 1 else 0
  }

  lemma {:induction false} CountsSplit(
      settings: Settings, start: real, log: seq<Request>, c: string, i: nat, j: nat, k: nat)
    requires i <= j <= k <= |log|
    ensures PassedCount(settings, start, log, c, i, k) ==
            PassedCount(settings, start, log, c, i, j) + PassedCount(settings, start, log, c, j, k)
    ensures EvictionCount(log, c, i, k) == EvictionCount(log, c, i, j) + EvictionCount(log, c, j, k)
    decreases k
  {
    hide Passed;
    if j < k {
      CountsSplit(settings, start, log, c, i, j, k - 1);
    }
  }

  /** The last eviction of `c` after request `i`, or `i` if there is none. */
  lemma {:induction false} LastEviction(log: seq<Request>, c: string, i: nat, k: nat) returns (j: nat)
    requires i < k <= |log|
    ensures i <= j < k && (j == i || log[j].evicted == Some(c))
    ensures forall l :: j < l < k ==> log[l].evicted != Some(c)
    decreases k
  {
    j := k - 1;
    if j > i && log[j].evicted != Some(c) {
      j := LastEviction(log, c, i, j);
    }
  }

  /** What `n` full buckets hold. */
  function FullBuckets(limits: Limits, n: nat): real {
    n as real * limits.maxTokens
  }

  lemma {:induction false} MoreBuckets(limits: Limits, a: nat, b: nat)
    requires limits.maxTokens >= 0.0 && a <= b
    ensures FullBuckets(limits, a) + limits.maxTokens <= FullBuckets(limits, 1 + b)
  {
    assert FullBuckets(limits, 1 + b) - FullBuckets(limits, a) - limits.maxTokens == (b - a) as real * limits.maxTokens;
  }

  /** Every eviction during the window gives a client at most one full bucket more. */
  lemma {:induction false} ClientWindowBoundWithEvictions(
      settings: Settings, start: real, log: seq<Request>, c: string, i: nat, k: nat, span: real)
    requires settings.Valid() && IsLog(settings, start, log) && i <= k <= |log| && span >= 0.0
    requires i < k ==> log[k - 1].time - log[i].time <= span
    ensures PassedCount(settings, start, log, c, i, k) as real <=
            FullBuckets(settings.client, 1 + EvictionCount(log, c, i, k)) + Gain(settings.client, 0.0, span)
    decreases k - i
  {
    hide Gain, IsLog, PassedCount, EvictionCount, FullBuckets;
    var limits, e := settings.client, EvictionCount(log, c, i, k);
    var j := i;
    if i < k {
      j := LastEviction(log, c, i, k);
    }
    if j == i {
      ClientWindowBound(settings, start, log, c, i, k, span);
      MoreBuckets(limits, 0, e);
      assert FullBuckets(limits, 0) == 0.0 by { NoBuckets(limits); }
    } else {
      LogIsOrdered(settings, start, log, i, j, k);
      var late := log[k - 1].time - log[j].time;
      ClientWindowBoundWithEvictions(settings, start, log, c, i, j, span - late);
      ClientWindowBound(settings, start, log, c, j, k, late);
      CountsSplit(settings, start, log, c, i, j, k);
      EvictedAt(log, c, j, k);
      GainAdds(limits, 0.0, span - late, span);
      GainShift(limits, span - late, span);
      MoreBuckets(limits, 1 + EvictionCount(log, c, i, j), e);
    }
  }

  lemma {:induction false} NoBuckets(limits: Limits)
    ensures FullBuckets(limits, 0) == 0.0
  {
  }

  lemma {:induction false} EvictedAt(log: seq<Request>, c: string, j: nat, k: nat)
    requires j < k <= |log| && log[j].evicted == Some(c)
    ensures EvictionCount(log, c, j, k) >= 1
    decreases k
  {
    if j < k - 1 {
      EvictedAt(log, c, j, k - 1);
    }
  }

  lemma {:induction false} LogIsOrdered(settings: Settings, start: real, log: seq<Request>, i: nat, j: nat, k: nat)
    requires IsLog(settings, start, log) && i < j < k <= |log|
    ensures log[i].time <= log[j - 1].time <= log[j].time <= log[k - 1].time
  {
    hide Replay, LegalEviction;
  }

  /** The bounds with the gateway's numbers. */
  lemma {:induction false} GatewayBounds(start: real, log: seq<Request>, c: string, i: nat, k: nat, span: real)
    requires IsLog(GATEWAY, start, log) && i <= k <= |log| && span >= 0.0
    requires i < k ==> log[k - 1].time - log[i].time <= span
    ensures AcceptedCount(GATEWAY, start, log, i, k) as real <= 500.0 + 100.0 * span
    ensures (forall j :: i < j < k ==> log[j].evicted != Some(c)) ==>
            PassedCount(GATEWAY, start, log, c, i, k) as real <= 100.0 + 20.0 * span
    ensures |Replay(GATEWAY, start, log).buckets| <= 1000
  {
    hide Replay, IsLog;
    GlobalWindowBound(GATEWAY, start, log, i, k, span);
    assert Gain(GATEWAY.global, 0.0, span) == 100.0 * span && Gain(GATEWAY.client, 0.0, span) == 20.0 * span;
    if forall j :: i < j < k ==> log[j].evicted != Some(c) {
      ClientWindowBound(GATEWAY, start, log, c, i, k, span);
    }
    MapIsBounded(GATEWAY, start, log);
  }

  /** The calls that the bucket charged by request `k` has seen, this one included. */
  function ClientCallsThrough(log: seq<Request>, k: nat): (calls: seq<real>)
    requires k < |log|
    ensures calls != []
  {
    (if log[k].evicted == Some(log[k].client) then [] else ClientCalls(log[..k], log[k].client)) + [log[k].time]
  }

  lemma {:induction false} ExactPassing(settings: Settings, start: real, log: seq<Request>, k: nat)
    requires settings.Valid() && IsLog(settings, start, log) && k < |log|
    ensures var calls := ClientCallsThrough(log, k);
            Passed(settings, start, log, k) <==> FitsEveryWindow(settings.client, calls[0], calls, |calls| - 1)
  {
    hide FitsEveryWindow, Level, Replay, AfterCalls, IsLog;
    var r, before := log[k], log[..k];
    BucketsReflectCalls(settings, start, before, r.client);
    var calls := ClientCallsThrough(log, k);
    var earlier := if r.evicted == Some(r.client) then [] else ClientCalls(before, r.client);
    assert calls[..|calls| - 1] == earlier;
    NoCalls(settings.client, r.time);
    CallIsMonotone(settings, start, log, k);
    ExactAdmission(settings.client, calls[0], calls, |calls| - 1);
  }

  /** A request is accepted exactly when it fits every window of both of its buckets. */
  lemma {:induction false} ExactAcceptance(settings: Settings, start: real, log: seq<Request>, k: nat)
    requires settings.Valid() && IsLog(settings, start, log) && k < |log|
    ensures var client := ClientCallsThrough(log, k);
            var global := GlobalCalls(settings, start, log[..k]) + [log[k].time];
            Accepted(settings, start, log, k) <==>
            && FitsEveryWindow(settings.client, client[0], client, |client| - 1)
            && FitsEveryWindow(settings.global, start, global, |global| - 1)
  {
    hide FitsEveryWindow, Level, Replay, AfterCalls, IsLog, PassesClient;
    ExactPassing(settings, start, log, k);
    BucketsReflectCalls(settings, start, log[..k], log[k].client);
    var global := GlobalCalls(settings, start, log[..k]) + [log[k].time];
    assert global[..|global| - 1] == GlobalCalls(settings, start, log[..k]);
    CallIsMonotone(settings, start, log, k);
    ExactAdmission(settings.global, start, global, |global| - 1);
  }

  lemma {:induction false} CallIsMonotone(settings: Settings, start: real, log: seq<Request>, k: nat)
    requires IsLog(settings, start, log) && k < |log|
    ensures var client := ClientCallsThrough(log, k);
            Monotone(client[0], client) && Monotone(start, GlobalCalls(settings, start, log[..k]) + [log[k].time])
  {
    hide Replay, LegalEviction;
    PrefixIsLog(settings, start, log, k);
    ClientCallsMonotone(settings, start, log[..k], log[k].client);
    GlobalCallsMonotone(settings, start, log[..k]);
    assert k > 0 ==> log[..k][k - 1].time <= log[k].time;
  }

  // ---- Fewer clients than the map holds ---------------------------------------------------

  function ClientsOf(log: seq<Request>): set<string> {
    set j | 0 <= j < |log| :: log[j].client
  }

  lemma {:induction false} ClientsAppend(log: seq<Request>)
    requires log != []
    ensures ClientsOf(log) == ClientsOf(log[..|log| - 1]) + {log[|log| - 1].client}
  {
    var front := log[..|log| - 1];
    assert forall j :: 0 <= j < |front| ==> front[j] == log[j];
    assert log[|log| - 1].client in ClientsOf(log);
    forall c | c in ClientsOf(front) ensures c in ClientsOf(log) {
      var j :| 0 <= j < |front| && front[j].client == c;
      assert log[j].client == c;
    }
    forall c | c in ClientsOf(log) && c != log[|log| - 1].client ensures c in ClientsOf(front) {
      var j :| 0 <= j < |log| && log[j].client == c;
      assert front[j].client == c;
    }
  }

  lemma {:induction false} BucketsAreOfClients(settings: Settings, start: real, log: seq<Request>)
    ensures Replay(settings, start, log).buckets.Keys <= ClientsOf(log)
  {
    hide Consume, PassesClient, BucketFor, ClientsOf;
    if log != [] {
      ClientsAppend(log);
      BucketsAreOfClients(settings, start, log[..|log| - 1]);
    }
  }

  /** While fewer clients have been seen than the map holds, nothing is evicted. */
  lemma {:induction false} NothingEvictedBelowLimit(settings: Settings, start: real, log: seq<Request>, k: nat)
    requires IsLog(settings, start, log) && k < |log| && |ClientsOf(log[..k])| < settings.maxClients
    ensures log[k].evicted == None
  {
    hide Replay, ClientsOf;
    BucketsAreOfClients(settings, start, log[..k]);
    var buckets := Replay(settings, start, log[..k]).buckets;
    SubsetSize(buckets.Keys, ClientsOf(log[..k]));
    assert |buckets| == |buckets.Keys|;
  }

  lemma {:induction false} SubsetSize<T>(a: set<T>, b: set<T>)
    requires a <= b
    ensures |a| <= |b|
  {
    assert b == a + (b - a);
  }

  lemma {:induction false} FewerClientsBefore(log: seq<Request>, j: nat, k: nat)
    requires j <= k <= |log|
    ensures |ClientsOf(log[..j])| <= |ClientsOf(log[..k])|
  {
    var a, b := log[..j], log[..k];
    forall c | c in ClientsOf(a) ensures c in ClientsOf(b) {
      var i :| 0 <= i < |a| && a[i].client == c;
      assert b[i].client == c;
    }
    SubsetSize(ClientsOf(a), ClientsOf(b));
  }

  lemma {:induction false} NothingEvictedBefore(settings: Settings, start: real, log: seq<Request>, k: nat)
    requires IsLog(settings, start, log) && k <= |log| && |ClientsOf(log[..k])| < settings.maxClients
    ensures forall j :: 0 <= j < k ==> log[j].evicted == None
  {
    hide IsLog, ClientsOf;
    forall j | 0 <= j < k ensures log[j].evicted == None {
      FewerClientsBefore(log, j, k);
      NothingEvictedBelowLimit(settings, start, log, j);
    }
  }

  /** With fewer clients than the map holds, each is bounded by its one bucket in every window. */
  lemma {:induction false} ClientWindowBoundFewClients(
      settings: Settings, start: real, log: seq<Request>, c: string, i: nat, k: nat, span: real)
    requires settings.Valid() && IsLog(settings, start, log) && i <= k <= |log| && span >= 0.0
    requires i < k ==> log[k - 1].time - log[i].time <= span
    requires |ClientsOf(log[..k])| < settings.maxClients
    ensures PassedCount(settings, start, log, c, i, k) as real <=
        settings.client.maxTokens + Gain(settings.client, 0.0, span)
  {
    hide IsLog, ClientsOf, Gain, PassedCount;
    NothingEvictedBefore(settings, start, log, k);
    ClientWindowBound(settings, start, log, c, i, k, span);
  }

  /** The times of all requests of `c`. */
  function RequestTimes(log: seq<Request>, c: string): seq<real> {
    if log == [] then [] else
      RequestTimes(log[..|log| - 1], c) + if log[|log| - 1].client == c then [log[|log| - 1].time] else []
  }

  lemma {:induction false} EveryRequestIsCharged(log: seq<Request>, c: string)
    requires forall j :: 0 <= j < |log| ==> log[j].evicted == None
    ensures ClientCalls(log, c) == RequestTimes(log, c)
  {
    if log != [] {
      var front := log[..|log| - 1];
      assert forall j :: 0 <= j < |front| ==> front[j] == log[j];
      EveryRequestIsCharged(front, c);
    }
  }

  /** Then a request passes the client level exactly if it fits every window of all its client's requests. */
  lemma {:induction false} PassingBelowLimit(settings: Settings, start: real, log: seq<Request>, k: nat)
    requires settings.Valid() && IsLog(settings, start, log) && k < |log|
    requires |ClientsOf(log[..k])| < settings.maxClients
    ensures var times := RequestTimes(log[..k], log[k].client) + [log[k].time];
            Passed(settings, start, log, k) <==> FitsEveryWindow(settings.client, times[0], times, |times| - 1)
  {
    hide IsLog, ClientsOf, FitsEveryWindow, Passed;
    NothingEvictedBefore(settings, start, log, k);
    NothingEvictedBelowLimit(settings, start, log, k);
    assert forall j :: 0 <= j < k ==> log[..k][j] == log[j];
    EveryRequestIsCharged(log[..k], log[k].client);
    ExactPassing(settings, start, log, k);
  }

  // ---- Bursts -----------------------------------------------------------------------------

  ghost predicate AllAt(log: seq<Request>, t: real) {
    forall j :: 0 <= j < |log| ==> log[j].time == t
  }

  lemma {:induction false} RequestTimesAt(log: seq<Request>, c: string, t: real)
    requires AllAt(log, t)
    ensures AtOnce(RequestTimes(log, c), t)
  {
    if log != [] {
      RequestTimesAt(log[..|log| - 1], c, t);
    }
  }

  /** Of the requests that the clients make at one time, the first 100 of each client pass its level. */
  lemma {:induction false} ClientBurst(start: real, log: seq<Request>, t: real, k: nat)
    requires IsLog(GATEWAY, start, log) && AllAt(log, t) && k < |log| && |ClientsOf(log[..k])| < 1000
    ensures Passed(GATEWAY, start, log, k) <==> |RequestTimes(log[..k], log[k].client)| < 100
  {
    hide IsLog, ClientsOf, FitsEveryWindow, Passed, Admitted;
    PassingBelowLimit(GATEWAY, start, log, k);
    var times := RequestTimes(log[..k], log[k].client) + [log[k].time];
    RequestTimesAt(log[..k], log[k].client, t);
    AllMonotone(times, t);
    ExactAdmission(GATEWAY.client, times[0], times, |times| - 1);
    BurstAdmission(GATEWAY.client, times[0], times, t, 100, |times| - 1);
  }

  lemma {:induction false} AllMonotone(times: seq<real>, t: real)
    requires AtOnce(times, t)
    ensures Monotone(t, times)
  {
  }

  /** 100 requests of one client at time `t`, and one more `d` seconds later, which passes after 1/20 second. */
  lemma {:induction false} ClientRefill(start: real, log: seq<Request>, t: real, d: real)
    requires IsLog(GATEWAY, start, log) && |log| == 101 && AllAt(log[..100], t) && log[100].time == t + d
    requires forall j :: 0 <= j < 101 ==> log[j].client == log[100].client
    ensures d >= 0.0 && (Passed(GATEWAY, start, log, 100) <==> d >= 0.05)
  {
    hide ClientsOf, FitsEveryWindow, Passed, Admitted, Replay, LegalEviction;
    var c := log[100].client;
    OneClient(log[..100], c);
    PassingBelowLimit(GATEWAY, start, log, 100);
    AllRequests(log[..100], c);
    var times := RequestTimes(log[..100], c) + [log[100].time];
    RequestTimesAt(log[..100], c, t);
    assert times[..100] == RequestTimes(log[..100], c);
    assert log[..100][99] == log[99] && log[99].time <= log[100].time;
    BurstThenOne(times, t, d);
    ExactAdmission(GATEWAY.client, t, times, 100);
    RefillAfterBurst(GATEWAY.client, t, times, t, 100, d);
  }

  lemma {:induction false} BurstThenOne(times: seq<real>, t: real, d: real)
    requires |times| == 101 && AtOnce(times[..100], t) && times[100] == t + d && d >= 0.0
    ensures Monotone(t, times) && times[0] == t
  {
    assert forall k :: 0 <= k < 100 ==> times[k] == times[..100][k];
  }

  lemma {:induction false} OneClient(log: seq<Request>, c: string)
    requires forall j :: 0 <= j < |log| ==> log[j].client == c
    ensures |ClientsOf(log)| <= 1
  {
    SubsetSize(ClientsOf(log), {c});
  }

  lemma {:induction false} AllRequests(log: seq<Request>, c: string)
    requires forall j :: 0 <= j < |log| ==> log[j].client == c
    ensures |RequestTimes(log, c)| == |log|
  {
    if log != [] {
      var front := log[..|log| - 1];
      assert forall j :: 0 <= j < |front| ==> front[j] == log[j];
      AllRequests(front, c);
    }
  }

  lemma {:induction false} AllReachGlobal(start: real, log: seq<Request>, t: real)
    requires AllAt(log, t) && forall j :: 0 <= j < |log| ==> Passed(GATEWAY, start, log, j)
    ensures |GlobalCalls(GATEWAY, start, log)| == |log| && AtOnce(GlobalCalls(GATEWAY, start, log), t)
  {
    hide PassesClient, Replay;
    if log != [] {
      var front, n := log[..|log| - 1], |log| - 1;
      assert Passed(GATEWAY, start, log, n) && log[..n] == front;
      forall j | 0 <= j < |front| ensures Passed(GATEWAY, start, front, j) {
        assert Passed(GATEWAY, start, log, j) && front[..j] == log[..j];
      }
      AllReachGlobal(start, front, t);
    }
  }

  /** Of the requests at one time that pass their clients' level, the gateway accepts exactly the first 500. */
  lemma {:induction false} GatewayBurst(start: real, log: seq<Request>, t: real, k: nat)
    requires IsLog(GATEWAY, start, log) && AllAt(log, t) && k < |log|
    requires forall j :: 0 <= j <= k ==> Passed(GATEWAY, start, log, j)
    ensures Accepted(GATEWAY, start, log, k) <==> k < 500
  {
    hide FitsEveryWindow, Admitted, PassesClient, Replay;
    var before := log[..k];
    assert Passed(GATEWAY, start, log, k);
    forall j | 0 <= j < k ensures Passed(GATEWAY, start, before, j) {
      assert Passed(GATEWAY, start, log, j) && before[..j] == log[..j];
    }
    AllReachGlobal(start, before, t);
    BucketsReflectCalls(GATEWAY, start, before, log[k].client);
    var calls := GlobalCalls(GATEWAY, start, before) + [t];
    assert calls[..k] == GlobalCalls(GATEWAY, start, before);
    BurstAdmission(GATEWAY.global, start, calls, t, 500, k);
    AdmittedIs(GATEWAY.global, start, calls, k);
  }

  lemma {:induction false} AdmittedIs(limits: Limits, start: real, times: seq<real>, k: nat)
    requires k < |times|
    ensures Admitted(limits, start, times, k) <==> Admits(limits, AfterCalls(limits, start, times[..k]), times[k])
  {
  }

  // ---- The objects ----------------------------------------------------------------------

  class PerClientRateLimiter {
    var buckets: map<string, Bucket>
    const limits: Limits
    const maxClients: nat

    constructor (limits: Limits, maxClients: nat)
      ensures buckets == map[] && this.limits == limits && this.maxClients == maxClients
    {
      buckets := map[];
      this.limits := limits;
      this.maxClients := maxClients;
    }

    /** Make room if the map is full, then charge the client's bucket, creating it if needed. */
    method TryConsume(client: string, now: real) returns (admitted: bool, ghost evicted: Option<string>)
      modifies this
      ensures var settings, before := Settings(limits, limits, maxClients), Gate(old(buckets), Fresh(limits, now));
              var r := Request(client, now, evicted);
              && LegalEviction(settings, before, evicted)
              && admitted == PassesClient(settings, before, r)
              && buckets == Serve(settings, before, r).buckets
    {
      evicted := None;
      if |buckets| >= maxClients && buckets.Keys != {} {
        var victim :| victim in buckets;
        evicted := Some(victim);
        buckets := buckets - {victim};
      }
      var bucket := if client in buckets then buckets[client] else Fresh(limits, now);
      admitted := Admits(limits, bucket, now);
      buckets := buckets[client := Consume(limits, bucket, now)];
    }
  }

  class BastionGateway {
    const perClient: PerClientRateLimiter
    const limiter: RateLimiter
    ghost const settings: Settings
    ghost const start: real
    ghost var log: seq<Request>

    ghost predicate Valid()
      reads this, perClient, limiter
    {
      && settings.Valid() && IsLog(settings, start, log)
      && perClient.limits == settings.client && perClient.maxClients == settings.maxClients
      && limiter.Valid() && limiter.limits == settings.global && limiter.created == start
      && perClient.buckets == Replay(settings, start, log).buckets
      && limiter.calls == GlobalCalls(settings, start, log)
    }

    constructor (settings: Settings, now: real)
      requires settings.Valid()
      ensures Valid() && this.settings == settings && start == now && log == []
      ensures fresh(perClient) && fresh(limiter)
    {
      perClient := new PerClientRateLimiter(settings.client, settings.maxClients);
      limiter := new RateLimiter(settings.global.maxTokens, settings.global.refillRate, now);
      this.settings := settings;
      start := now;
      log := [];
    }

    /**
     Charge the client's bucket and, only if that passes, the global one. The request is
     accepted exactly when it fits every window of both.
     */
    method CheckRateLimit(client: string, now: real) returns (accepted: bool)
      requires Valid() && start <= now && (log != [] ==> log[|log| - 1].time <= now)
      modifies this, perClient, limiter
      ensures Valid() && |log| == |old(log)| + 1 && log[..|old(log)|] == old(log)
      ensures log[|old(log)|].client == client && log[|old(log)|].time == now
      ensures var own := ClientCallsThrough(log, |old(log)|);
              var all := GlobalCalls(settings, start, old(log)) + [now];
              accepted <==>
              && FitsEveryWindow(settings.client, own[0], own, |own| - 1)
              && FitsEveryWindow(settings.global, start, all, |all| - 1)
    {
      hide IsLog, FitsEveryWindow, Monotone, AfterCalls;
      ghost var before := Replay(settings, start, log);
      ghost var all := GlobalCalls(settings, start, log) + [now];
      assert limiter.lastRefill <= now by { GlobalClock(settings, start, log, limiter, now); }
      var passed, evicted := perClient.TryConsume(client, now);
      ghost var r := Request(client, now, evicted);
      LogAppend(settings, start, log, r);
      accepted := false;
      if passed {
        accepted := limiter.TryConsume(now);
      }
      ghost var n := |log|;
      log := log + [r];
      assert log[..n] == old(log) && log[n] == r;
      ExactPassing(settings, start, log, n);
    }
  }

  lemma {:induction false} IsLogAppend(settings: Settings, start: real, log: seq<Request>, r: Request)
    requires IsLog(settings, start, log) && start <= r.time && (log != [] ==> log[|log| - 1].time <= r.time)
    requires LegalEviction(settings, Replay(settings, start, log), r.evicted)
    ensures IsLog(settings, start, log + [r])
  {
    hide LegalEviction, Replay;
    var all := log + [r];
    assert all[..|log|] == log;
    assert forall j :: 0 <= j < |log| ==> all[..j] == log[..j] && all[j] == log[j];
  }

  lemma {:induction false} LogAppend(settings: Settings, start: real, log: seq<Request>, r: Request)
    requires IsLog(settings, start, log) && start <= r.time && (log != [] ==> log[|log| - 1].time <= r.time)
    requires LegalEviction(settings, Replay(settings, start, log), r.evicted)
    ensures IsLog(settings, start, log + [r])
    ensures Replay(settings, start, log + [r]) == Serve(settings, Replay(settings, start, log), r)
    ensures GlobalCalls(settings, start, log + [r]) ==
            GlobalCalls(settings, start, log) + if PassesClient(settings, Replay(settings, start, log), r)
              then [r.time] else []
  {
    hide LegalEviction, Serve, PassesClient, IsLog;
    IsLogAppend(settings, start, log, r);
    assert (log + [r])[..|log|] == log;
  }

  lemma {:induction false} GlobalClock(
      settings: Settings, start: real, log: seq<Request>, limiter: RateLimiter, now: real)
    requires IsLog(settings, start, log) && start <= now && (log != [] ==> log[|log| - 1].time <= now)
    requires limiter.Valid() && limiter.created == start && limiter.calls == GlobalCalls(settings, start, log)
    ensures limiter.lastRefill <= now
  {
    GlobalCallsMonotone(settings, start, log);
  }
}
