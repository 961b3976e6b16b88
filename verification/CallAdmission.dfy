/**
 The gates in front of one worker connection: a call first asks the circuit breaker, then the
 token bucket, and its outcome is reported back to the breaker only.
 */
module CallAdmission {
  import opened Wrappers
  import CircuitBreaker
  import TokenBucket
  import Protocol

  datatype Verdict = Admitted | CircuitOpen | RateLimited

  class WorkerSession {
    const breaker: CircuitBreaker.WorkerHandle
    const limiter: TokenBucket.RateLimiter

    ghost predicate Valid()
      reads this, breaker, limiter
    {
      breaker.Valid() && limiter.Valid() && limiter.limits == TokenBucket.WORKER_LIMITS
    }

    constructor (now: real)
      ensures Valid() && fresh(breaker) && fresh(limiter) && breaker.events == [] && limiter.calls == []
      ensures limiter.created == limiter.lastRefill == now
    {
      breaker := new CircuitBreaker.WorkerHandle();
      limiter := new TokenBucket.RateLimiter(20.0, 10.0, now);
      new;
      assert limiter.lastRefill == now;
    }

    /**
     Refused by the circuit exactly while an opening cools down, and then at no cost in tokens;
     otherwise admitted exactly if it fits every window of the bucket. The breaker is only read.
     */
    method Admit(seen: real, now: real) returns (verdict: Verdict)
      requires Valid() && limiter.lastRefill <= now
      modifies limiter
      ensures Valid()
      ensures verdict == CircuitOpen <==> CircuitBreaker.CoolingDown(breaker.events, |breaker.events|, seen)
      ensures verdict == CircuitOpen ==> limiter.calls == old(limiter.calls)
      ensures verdict != CircuitOpen ==>
                && limiter.calls == old(limiter.calls) + [now]
                && (verdict == Admitted <==>
                    TokenBucket.FitsEveryWindow(limiter.limits, limiter.created, limiter.calls, |old(limiter.calls)|))
    {
      hide TokenBucket.FitsEveryWindow, CircuitBreaker.CoolingDown;
      var open := breaker.IsCircuitOpen(seen);
      if open {
        return CircuitOpen;
      }
      var passed := limiter.TryConsume(now);
      verdict := if passed then Admitted else RateLimited;
    }

    /** Any collected answer, an error of the command included, counts as a success of the worker. */
    method Conclude(result: Protocol.Result, now: real, later: real)
      requires Valid() && now <= later
      modifies breaker
      ensures Valid()
      ensures breaker.events == old(breaker.events) +
                match result
                case Success(_) => [CircuitBreaker.Success]
                case Rejected => []
                case _ => [CircuitBreaker.Failure(now, later)]
      ensures result.Success? ==> breaker.circuitOpenUntil == None
    {
      match result {
        case Success(_) => breaker.RecordSuccess();
        case Disconnected => breaker.RecordFailure(now, later);
        case Timeout => breaker.RecordFailure(now, later);
        case Rejected =>
      }
    }
  }
}
