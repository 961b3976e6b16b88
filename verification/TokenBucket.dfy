/**
 The token bucket that guards each worker and, with other numbers, each client of the gateway
 and the gateway as a whole. Tokens and time are real numbers.
 */
module TokenBucket {
  datatype Bucket = Bucket(tokens: real, lastRefill: real)

  datatype Limits = Limits(maxTokens: real, refillRate: real)

  function Fresh(limits: Limits, now: real): Bucket {
    Bucket(limits.maxTokens, now)
  }

  /** The tokens gained between two times. */
  function Gain(limits: Limits, from: real, to: real): real {
    (to - from) * limits.refillRate
  }

  lemma {:induction false} GainAdds(limits: Limits, a: real, b: real, c: real)
    ensures Gain(limits, a, b) + Gain(limits, b, c) == Gain(limits, a, c)
    ensures Gain(limits, a, a) == 0.0
  {
  }

  lemma {:induction false} GainGrows(limits: Limits, a: real, b: real, c: real)
    requires limits.refillRate >= 0.0 && a <= b
    ensures Gain(limits, a, b) >= 0.0 && Gain(limits, c, a) <= Gain(limits, c, b)
  {
  }

  function Level(limits: Limits, b: Bucket, now: real): real {
    var refilled := b.tokens + Gain(limits, b.lastRefill, now);
    if refilled < limits.maxTokens then refilled else limits.maxTokens
  }

  predicate Admits(limits: Limits, b: Bucket, now: real) {
    Level(limits, b, now) >= 1.0
  }

  function Consume(limits: Limits, b: Bucket, now: real): Bucket {
    Bucket(if Admits(limits, b, now) then Level(limits, b, now) - 1.0 else Level(limits, b, now), now)
  }

  /** The bucket created at `start` after calls at the given times. */
  function AfterCalls(limits: Limits, start: real, times: seq<real>): Bucket {
    if times == [] then Fresh(limits, start)
    else Consume(limits, AfterCalls(limits, start, times[..|times| - 1]), times[|times| - 1])
  }

  /** Whether the `k`-th call was admitted. */
  predicate Admitted(limits: Limits, start: real, times: seq<real>, k: nat)
    requires k < |times|
  {
    Admits(limits, AfterCalls(limits, start, times[..k]), times[k])
  }

  /** How many of the calls j, ..., k - 1 were admitted. */
  function AdmittedCount(limits: Limits, start: real, times: seq<real>, j: nat, k: nat): nat
    requires j <= k <= |times|
    decreases k
  {
    if j == k then 0
    else AdmittedCount(limits, start, times, j, k - 1) + if Admitted(limits, start, times, k - 1) then 1 else 0
  }

  /** A clock that never runs backwards. */
  ghost predicate Monotone(start: real, times: seq<real>) {
    && (forall k :: 0 <= k < |times| ==> start <= times[k])
    && (forall j, k :: 0 <= j < k < |times| ==> times[j] <= times[k])
  }

  /**
   The sliding-window rule for call `k`: for every earlier call j, and for k itself, the
   admitted calls from j on, plus this one, fit what the bucket holds and refills since j.
   */
  ghost predicate FitsEveryWindow(limits: Limits, start: real, times: seq<real>, k: nat)
    requires k < |times|
  {
    forall j :: 0 <= j <= k ==>
      AdmittedCount(limits, start, times, j, k) as real + 1.0 <= limits.maxTokens + Gain(limits, times[j], times[k])
  }

  lemma {:induction false} PrefixState(limits: Limits, start: real, times: seq<real>, k: nat)
    requires 0 < k <= |times|
    ensures AfterCalls(limits, start, times[..k]) ==
        Consume(limits, AfterCalls(limits, start, times[..k - 1]), times[k - 1])
  {
    assert times[..k][..k - 1] == times[..k - 1];
  }

  /** What the window from call `j` still allows at call `k`. */
  ghost function Allowance(limits: Limits, start: real, times: seq<real>, j: nat, k: nat): real
    requires j <= k < |times|
  {
    limits.maxTokens + Gain(limits, times[j], times[k]) - AdmittedCount(limits, start, times, j, k) as real
  }

  lemma {:induction false} AllowanceStep(limits: Limits, start: real, times: seq<real>, j: nat, k: nat)
    requires j < k < |times|
    ensures Allowance(limits, start, times, j, k) ==
            Allowance(limits, start, times, j, k - 1) + Gain(limits, times[k - 1], times[k])
            - if Admitted(limits, start, times, k - 1) then 1.0 else 0.0
  {
    hide Gain, Admitted;
    GainAdds(limits, times[j], times[k - 1], times[k]);
  }

  /** The level found by call `k` is the least of the windows' remaining allowances. */
  lemma {:induction false} LevelIsLeastAllowance(limits: Limits, start: real, times: seq<real>, k: nat, x: real)
    requires Monotone(start, times) && limits.refillRate >= 0.0 && k < |times|
    ensures Level(limits, AfterCalls(limits, start, times[..k]), times[k]) >= x <==>
            forall j :: 0 <= j <= k ==> Allowance(limits, start, times, j, k) >= x
  {
    hide Gain, Monotone;
    GainAdds(limits, times[k], times[k], times[k]);
    assert Allowance(limits, start, times, k, k) == limits.maxTokens;
    if k == 0 {
      assert times[..0] == [];
      GainFromStart(limits, start, times);
    } else {
      PrefixState(limits, start, times, k);
      var change := Gain(limits, times[k - 1], times[k]) - if Admitted(limits, start, times, k - 1) then 1.0 else 0.0;
      LevelIsLeastAllowance(limits, start, times, k - 1, x - change);
      forall j | 0 <= j < k
        ensures Allowance(limits, start, times, j, k) == Allowance(limits, start, times, j, k - 1) + change
      {
        AllowanceStep(limits, start, times, j, k);
      }
      var least := forall j :: 0 <= j <= k ==> Allowance(limits, start, times, j, k) >= x;
      var i := k - 1;
      var leastBefore := forall j :: 0 <= j <= i ==> Allowance(limits, start, times, j, i) >= x - change;
      assert least ==> leastBefore by {
        if least {
          forall j | 0 <= j <= i ensures Allowance(limits, start, times, j, i) >= x - change {
            assert Allowance(limits, start, times, j, k) >= x;
          }
        }
      }
    }
  }

  lemma {:induction false} GainFromStart(limits: Limits, start: real, times: seq<real>)
    requires Monotone(start, times) && limits.refillRate >= 0.0 && times != []
    ensures Gain(limits, start, times[0]) >= 0.0
  {
    GainGrows(limits, start, times[0], start);
  }

  /** A call is admitted if and only if every window that ends with it has room for it. */
  lemma {:induction false} ExactAdmission(limits: Limits, start: real, times: seq<real>, k: nat)
    requires Monotone(start, times) && limits.refillRate >= 0.0 && k < |times|
    ensures Admitted(limits, start, times, k) <==> FitsEveryWindow(limits, start, times, k)
  {
    hide Gain, Monotone, AfterCalls, AdmittedCount, Level;
    LevelIsLeastAllowance(limits, start, times, k, 1.0);
    assert FitsEveryWindow(limits, start, times, k) ==> forall j :: 0 <= j <= k ==>
        Allowance(limits, start, times, j, k) >= 1.0;
    assert (forall j :: 0 <= j <= k ==> Allowance(limits, start, times, j, k) >= 1.0) ==>
        FitsEveryWindow(limits, start, times, k) by {
      if forall j :: 0 <= j <= k ==> Allowance(limits, start, times, j, k) >= 1.0 {
        forall j | 0 <= j <= k
          ensures AdmittedCount(limits, start, times, j, k) as real + 1.0 <=
              limits.maxTokens + Gain(limits, times[j], times[k])
        {
          assert Allowance(limits, start, times, j, k) >= 1.0;
        }
      }
    }
  }

  /** The calls j, ..., k - 1, made within `span`, include no more admitted ones than the bucket allows. */
  lemma {:induction false} WindowBound(limits: Limits, start: real, times: seq<real>, j: nat, k: nat, span: real)
    requires Monotone(start, times) && limits.refillRate >= 0.0 && limits.maxTokens >= 0.0
    requires j <= k <= |times| && span >= 0.0
    requires j < k ==> times[k - 1] - times[j] <= span
    ensures AdmittedCount(limits, start, times, j, k) as real <= limits.maxTokens + Gain(limits, 0.0, span)
    decreases k
  {
    hide Gain, Admitted;
    GainGrows(limits, 0.0, span, 0.0);
    if j < k {
      if Admitted(limits, start, times, k - 1) {
        ExactAdmission(limits, start, times, k - 1);
        GainShift(limits, times[j], times[k - 1]);
        GainGrows(limits, times[k - 1] - times[j], span, 0.0);
      } else {
        WindowBound(limits, start, times, j, k - 1, span);
      }
    }
  }

  lemma {:induction false} GainShift(limits: Limits, a: real, b: real)
    ensures Gain(limits, a, b) == Gain(limits, 0.0, b - a)
  {
  }

  // ---- Bursts ---------------------------------------------------------------------------

  ghost predicate AtOnce(times: seq<real>, t: real) {
    forall k :: 0 <= k < |times| ==> times[k] == t
  }

  lemma {:induction false} BurstLevel(limits: Limits, start: real, times: seq<real>, t: real, n: nat)
    requires limits.maxTokens == n as real && limits.refillRate >= 0.0 && start <= t && AtOnce(times, t)
    ensures Level(limits, AfterCalls(limits, start, times), t) ==
            if |times| < n then (n - |times|) as real else 0.0
  {
    GainGrows(limits, start, t, start);
    GainAdds(limits, start, start, start);
    GainAdds(limits, t, t, t);
    if times != [] {
      hide Gain;
      BurstLevel(limits, start, times[..|times| - 1], t, n);
    }
  }

  /** Of the calls made at one time, a full bucket of `n` tokens admits exactly the first `n`. */
  lemma {:induction false} BurstAdmission(limits: Limits, start: real, times: seq<real>, t: real, n: nat, k: nat)
    requires limits.maxTokens == n as real && limits.refillRate >= 0.0 && start <= t && AtOnce(times, t)
    requires k < |times|
    ensures Admitted(limits, start, times, k) <==> k < n
  {
    hide Level, AfterCalls;
    BurstLevel(limits, start, times[..k], t, n);
  }

  /** A bucket emptied by `n` calls at time `t` admits a call `d` seconds later exactly if it has gained a token. */
  lemma {:induction false} RefillAfterBurst(limits: Limits, start: real, times: seq<real>, t: real, n: nat, d: real)
    requires limits.maxTokens == n as real && limits.refillRate >= 0.0 && start <= t && d >= 0.0 && n > 0
    requires |times| == n + 1 && AtOnce(times[..n], t) && times[n] == t + d
    ensures Admitted(limits, start, times, n) <==> d * limits.refillRate >= 1.0
  {
    BurstLevel(limits, start, times[..n], t, n);
    LastCallAt(limits, start, times[..n], t);
    GainAdds(limits, t, t, t);
    var b := AfterCalls(limits, start, times[..n]);
    assert Level(limits, b, t) == 0.0 && b.tokens == 0.0;
    assert Gain(limits, t, t + d) == d * limits.refillRate;
  }

  lemma {:induction false} LastCallAt(limits: Limits, start: real, times: seq<real>, t: real)
    requires times != [] && times[|times| - 1] == t
    ensures AfterCalls(limits, start, times).lastRefill == t
  {
  }

  /** A worker takes 20 commands at once, and then one every tenth of a second. */
  lemma {:induction false} WorkerBurst(start: real, times: seq<real>, t: real, k: nat)
    requires start <= t && AtOnce(times, t) && k < |times|
    ensures Admitted(WORKER_LIMITS, start, times, k) <==> k < 20
  {
    BurstAdmission(WORKER_LIMITS, start, times, t, 20, k);
  }

  lemma {:induction false} WorkerRefill(start: real, times: seq<real>, t: real, d: real)
    requires start <= t && d >= 0.0 && |times| == 21 && AtOnce(times[..20], t) && times[20] == t + d
    ensures Admitted(WORKER_LIMITS, start, times, 20) <==> d >= 0.1
  {
    RefillAfterBurst(WORKER_LIMITS, start, times, t, 20, d);
  }

  // ---- Denied calls leave no trace ----------------------------------------------------

  /** The elements of `xs` whose flag is set. */
  function Kept<T>(xs: seq<T>, keep: seq<bool>): seq<T>
    requires |xs| == |keep|
  {
    if xs == [] then [] else
      Kept(xs[..|xs| - 1], keep[..|keep| - 1]) + if keep[|keep| - 1] then [xs[|xs| - 1]] else []
  }

  function Decisions(limits: Limits, start: real, times: seq<real>): (ds: seq<bool>)
    ensures |ds| == |times|
  {
    if times == [] then [] else
      Decisions(limits, start, times[..|times| - 1])
      + [Admits(limits, AfterCalls(limits, start, times[..|times| - 1]), times[|times| - 1])]
  }

  lemma {:induction false} DecisionsAreAdmissions(limits: Limits, start: real, times: seq<real>, k: nat)
    requires k < |times|
    ensures Decisions(limits, start, times)[k] == Admitted(limits, start, times, k)
  {
    if k < |times| - 1 {
      DecisionsAreAdmissions(limits, start, times[..|times| - 1], k);
      assert times[..|times| - 1][..k] == times[..k];
    }
  }

  /** The two buckets hold the same level at any time from `now` on. */
  ghost predicate SameLevelFrom(limits: Limits, a: Bucket, b: Bucket, now: real) {
    forall t: real :: t >= now ==> Level(limits, a, t) == Level(limits, b, t)
  }

  /** Refilling early is the same as refilling late. */
  lemma {:induction false} RefillTwice(limits: Limits, b: Bucket, now: real)
    requires limits.refillRate >= 0.0
    ensures SameLevelFrom(limits, b, Bucket(Level(limits, b, now), now), now)
  {
    hide Gain;
    forall t: real | t >= now ensures Level(limits, b, t) == Level(limits, Bucket(Level(limits, b, now), now), t) {
      GainAdds(limits, b.lastRefill, now, t);
      GainGrows(limits, now, t, now);
    }
  }

  lemma {:induction false} DecisionsAppend(limits: Limits, start: real, times: seq<real>, now: real)
    ensures Decisions(limits, start, times + [now]) ==
            Decisions(limits, start, times) + [Admits(limits, AfterCalls(limits, start, times), now)]
    ensures AfterCalls(limits, start, times + [now]) == Consume(limits, AfterCalls(limits, start, times), now)
  {
    assert (times + [now])[..|times|] == times;
  }

  lemma {:induction false} KeptAppend<T>(xs: seq<T>, x: T, keep: seq<bool>, k: bool)
    requires |xs| == |keep|
    ensures Kept(xs + [x], keep + [k]) == Kept(xs, keep) + if k then [x] else []
  {
    assert (xs + [x])[..|xs|] == xs && (keep + [k])[..|keep|] == keep;
  }

  /** One more call at `now`, kept or denied, after two buckets of the same level. */
  lemma {:induction false} NextCall(limits: Limits, a: Bucket, b: Bucket, last: real, now: real, keep: bool)
    requires limits.refillRate >= 0.0 && last <= now && SameLevelFrom(limits, a, b, last)
    requires Admits(limits, a, now) ==> keep
    ensures Admits(limits, a, now) == Admits(limits, b, now)
    ensures SameLevelFrom(limits, Consume(limits, a, now), if keep then Consume(limits, b, now) else b, now)
  {
    hide Level, Gain;
    assert Level(limits, a, now) == Level(limits, b, now);
    if !keep {
      RefillTwice(limits, a, now);
      assert Consume(limits, a, now) == Bucket(Level(limits, a, now), now);
      forall t: real | t >= now ensures Level(limits, Consume(limits, a, now), t) == Level(limits, b, t) {
        assert Level(limits, a, t) == Level(limits, b, t);
      }
    }
  }

  /** The kept calls of `times` get the decisions they got in `times`. */
  ghost predicate NoTrace(limits: Limits, start: real, times: seq<real>, keep: seq<bool>) {
    && |keep| == |times|
    && Decisions(limits, start, Kept(times, keep)) == Kept(Decisions(limits, start, times), keep)
    && SameLevelFrom(limits, AfterCalls(limits, start, times), AfterCalls(limits, start, Kept(times, keep)),
                     if times == [] then start else times[|times| - 1])
  }

  lemma {:induction false} NoTraceAppend(
      limits: Limits, start: real, front: seq<real>, now: real, keep: seq<bool>, last: bool)
    requires |keep| == |front| && limits.refillRate >= 0.0
    requires NoTrace(limits, start, front, keep)
    requires (if front == [] then start else front[|front| - 1]) <= now
    requires Admits(limits, AfterCalls(limits, start, front), now) ==> last
    ensures NoTrace(limits, start, front + [now], keep + [last])
  {
    hide SameLevelFrom, Admits, Consume, Decisions, AfterCalls, Kept;
    var kept, ds := Kept(front, keep), Decisions(limits, start, front);
    var a, b := AfterCalls(limits, start, front), AfterCalls(limits, start, kept);
    NextCall(limits, a, b, if front == [] then start else front[|front| - 1], now, last);
    DecisionsAppend(limits, start, front, now);
    DecisionsAppend(limits, start, kept, now);
    KeptAppend(front, now, keep, last);
    KeptAppend(ds, Admits(limits, a, now), keep, last);
    assert kept + [] == kept && Kept(ds, keep) + [] == Kept(ds, keep);
  }

  /** Every admitted call is kept. */
  ghost predicate KeepsAdmitted(limits: Limits, start: real, times: seq<real>, keep: seq<bool>) {
    |keep| == |times| && forall k :: 0 <= k < |times| && Decisions(limits, start, times)[k] ==> keep[k]
  }

  lemma {:induction false} KeepsAdmittedFront(
      limits: Limits, start: real, front: seq<real>, now: real, keep: seq<bool>, last: bool)
    requires |keep| == |front| && KeepsAdmitted(limits, start, front + [now], keep + [last])
    ensures KeepsAdmitted(limits, start, front, keep)
    ensures Admits(limits, AfterCalls(limits, start, front), now) ==> last
  {
    hide Admits, AfterCalls;
    DecisionsAppend(limits, start, front, now);
    var ds := Decisions(limits, start, front + [now]);
    assert forall k :: 0 <= k < |front| ==>
      Decisions(limits, start, front)[k] == ds[k] && (keep + [last])[k] == keep[k];
    assert ds[|front|] ==> (keep + [last])[|front|];
  }

  lemma {:induction false} MonotoneFront(start: real, front: seq<real>, now: real)
    requires Monotone(start, front + [now])
    ensures Monotone(start, front)
    ensures (if front == [] then start else front[|front| - 1]) <= now
  {
    assert forall k :: 0 <= k < |front| ==> (front + [now])[k] == front[k];
    assert (front + [now])[|front|] == now;
  }

  lemma {:induction false} KeepingLeavesNoTrace(limits: Limits, start: real, times: seq<real>, keep: seq<bool>)
    requires Monotone(start, times) && limits.refillRate >= 0.0 && KeepsAdmitted(limits, start, times, keep)
    ensures NoTrace(limits, start, times, keep)
  {
    if times == [] {
      assert Kept(times, keep) == [];
    } else {
      hide NoTrace, Admits, AfterCalls, Monotone, KeepsAdmitted;
      var front, now := times[..|times| - 1], times[|times| - 1];
      assert |keep| == |times| by { KeptLength(limits, start, times, keep); }
      var keepFront, last := keep[..|front|], keep[|front|];
      assert times == front + [now] && keep == keepFront + [last];
      MonotoneFront(start, front, now);
      KeepsAdmittedFront(limits, start, front, now, keepFront, last);
      KeepingLeavesNoTrace(limits, start, front, keepFront);
      NoTraceAppend(limits, start, front, now, keepFront, last);
    }
  }

  lemma {:induction false} KeptLength(limits: Limits, start: real, times: seq<real>, keep: seq<bool>)
    requires KeepsAdmitted(limits, start, times, keep)
    ensures |keep| == |times|
  {
  }

  /** The position of call `k` among the kept calls. */
  function Rank(keep: seq<bool>, k: nat): nat
    requires k <= |keep|
  {
    if k == 0 then 0 else Rank(keep, k - 1) + if keep[k - 1] then 1 else 0
  }

  lemma {:induction false} RankOfPrefix(keep: seq<bool>, n: nat, k: nat)
    requires k <= n <= |keep|
    ensures Rank(keep[..n], k) == Rank(keep, k)
  {
    if k > 0 {
      RankOfPrefix(keep, n, k - 1);
    }
  }

  lemma {:induction false} KeptAt<T>(xs: seq<T>, keep: seq<bool>, k: nat)
    requires |xs| == |keep| && k < |xs|
    ensures |Kept(xs, keep)| == Rank(keep, |keep|)
    ensures keep[k] ==> Rank(keep, k) < |Kept(xs, keep)| && Kept(xs, keep)[Rank(keep, k)] == xs[k]
  {
    var n := |xs| - 1;
    RankOfPrefix(keep, n, n);
    RankOfPrefix(keep, n, k);
    if n == 0 {
      assert Kept(xs[..0], keep[..0]) == [];
    } else if k < n {
      KeptAt(xs[..n], keep[..n], k);
    } else {
      KeptAt(xs[..n], keep[..n], 0);
    }
  }

  /**
   Deleting any denied calls from a trace changes no decision of the remaining calls: each is
   admitted among the kept calls exactly if it was admitted before.
   */
  lemma {:induction false} DeniedCallsLeaveNoTrace(
      limits: Limits, start: real, times: seq<real>, keep: seq<bool>, k: nat)
    requires Monotone(start, times) && limits.refillRate >= 0.0
    requires |keep| == |times| && forall j: nat :: j < |times| && Admitted(limits, start, times, j) ==> keep[j]
    requires k < |times| && keep[k]
    ensures var kept := Kept(times, keep);
            && Rank(keep, k) < |kept| && kept[Rank(keep, k)] == times[k]
            && (Admitted(limits, start, kept, Rank(keep, k)) <==> Admitted(limits, start, times, k))
  {
    hide Admitted, Decisions, Kept, Rank, Monotone, SameLevelFrom, AfterCalls;
    forall j: nat | j < |times| ensures Decisions(limits, start, times)[j] == Admitted(limits, start, times, j) {
      DecisionsAreAdmissions(limits, start, times, j);
    }
    KeepingLeavesNoTrace(limits, start, times, keep);
    KeptAt(times, keep, k);
    KeptAt(Decisions(limits, start, times), keep, k);
    DecisionsAreAdmissions(limits, start, Kept(times, keep), Rank(keep, k));
  }

  // ---- The object ---------------------------------------------------------------------

  /** `TokenBucket` of the registry and `RateLimiter` of the server; the clock is a parameter. */
  class RateLimiter {
    var tokens: real
    const limits: Limits
    var lastRefill: real
    ghost const created: real
    ghost var calls: seq<real>

    /** The fields are those of a bucket that has seen exactly `calls`. */
    ghost predicate Valid()
      reads this
    {
      && limits.refillRate >= 0.0
      && Monotone(created, calls)
      && Bucket(tokens, lastRefill) == AfterCalls(limits, created, calls)
    }

    constructor (maxTokens: real, refillRate: real, now: real)
      requires refillRate >= 0.0
      ensures Valid() && limits == Limits(maxTokens, refillRate) && created == now && calls == []
    {
      tokens := maxTokens;
      limits := Limits(maxTokens, refillRate);
      lastRefill := now;
      created := now;
      calls := [];
    }

    method TryConsume(now: real) returns (admitted: bool)
      requires Valid() && lastRefill <= now
      modifies this
      ensures Valid() && calls == old(calls) + [now] && lastRefill == now
      ensures admitted <==> FitsEveryWindow(limits, created, calls, |old(calls)|)
    {
      hide Gain, FitsEveryWindow;
      ghost var before := Bucket(tokens, lastRefill);
      LastRefill(limits, created, calls);
      var gained := Gain(limits, lastRefill, now);
      tokens := if tokens + gained < limits.maxTokens then tokens + gained else limits.maxTokens;
      lastRefill := now;
      if tokens >= 1.0 {
        tokens := tokens - 1.0;
        admitted := true;
      } else {
        admitted := false;
      }
      ghost var n := |calls|;
      assert (calls + [now])[..n] == calls;
      calls := calls + [now];
      assert Bucket(tokens, lastRefill) == Consume(limits, before, now);
      ExactAdmission(limits, created, calls, n);
    }
  }

  lemma {:induction false} LastRefill(limits: Limits, start: real, times: seq<real>)
    requires Monotone(start, times)
    ensures var last := AfterCalls(limits, start, times).lastRefill;
            start <= last && forall k :: 0 <= k < |times| ==> times[k] <= last
  {
  }

  /** A worker's limiter holds 20 tokens and gains 10 a second. */
  const WORKER_LIMITS := Limits(20.0, 10.0)

  /** Within one registration, a window of `span` seconds admits at most 20 + 10 * span commands. */
  lemma {:induction false} WorkerWindowBound(start: real, times: seq<real>, j: nat, k: nat, span: real)
    requires Monotone(start, times) && j <= k <= |times| && span >= 0.0
    requires j < k ==> times[k - 1] - times[j] <= span
    ensures AdmittedCount(WORKER_LIMITS, start, times, j, k) as real <= 20.0 + 10.0 * span
  {
    WindowBound(WORKER_LIMITS, start, times, j, k, span);
    assert Gain(WORKER_LIMITS, 0.0, span) == 10.0 * span;
  }
}
