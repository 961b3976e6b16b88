/**
 The circuit breaker that guards one worker connection: a failure counter of 32 bits and an
 optional deadline. Each method is one atomic step. The specification speaks only about the
 history of successes and failures, never about the two fields.
 */
module CircuitBreaker {
  import opened Wrappers

  const WORD: nat := 0x1_0000_0000
  const COOL_DOWN: real := 30.0
  const THRESHOLD: nat := 3

  /** A failure reads the clock when it looks at the state and again when it sets a deadline. */
  datatype Event = Success | Failure(seen: real, stamped: real)

  datatype CircuitState = Closed | HalfOpen | Open

  /** Within one failure the clock does not run backwards. */
  ghost predicate Clocked(events: seq<Event>) {
    forall k :: 0 <= k < |events| && events[k].Failure? ==> events[k].seen <= events[k].stamped
  }

  // ---- The rule, in terms of the history ------------------------------------------------

  /** The failures since the last success, among the first `k` events. */
  function Streak(events: seq<Event>, k: nat): nat
    requires k <= |events|
  {
    if k == 0 || events[k - 1].Success? then 0 else 1 + Streak(events, k - 1)
  }

  ghost predicate SameStreak(events: seq<Event>, j: nat, k: nat)
    requires j <= k <= |events|
  {
    forall i :: j <= i < k ==> events[i].Failure?
  }

  /** An opening of the current streak lies less than 30 seconds before `t`. */
  ghost predicate CoolingDown(events: seq<Event>, k: nat, t: real)
    requires k <= |events|
    decreases k, 0
  {
    exists j :: 0 <= j < k && SameStreak(events, j, k) && Opens(events, j) && t < events[j].stamped + COOL_DOWN
  }

  /** A failure opens the circuit if it is the third in a row or later, and no opening is cooling down. */
  ghost predicate Opens(events: seq<Event>, k: nat)
    requires k < |events|
    decreases k, 1
  {
    events[k].Failure? && Streak(events, k + 1) >= THRESHOLD && !CoolingDown(events, k, events[k].seen)
  }

  ghost function StateAt(events: seq<Event>, k: nat, t: real): CircuitState
    requires k <= |events|
  {
    if Streak(events, k) < THRESHOLD then Closed
    else if CoolingDown(events, k, t) then Open
    else HalfOpen
  }

  // ---- The fields -----------------------------------------------------------------------

  datatype Breaker = Breaker(failures: nat, openUntil: Option<real>)

  function StateOf(b: Breaker, now: real): CircuitState {
    if b.openUntil.None? then Closed else if now < b.openUntil.value then Open else HalfOpen
  }

  function Step(b: Breaker, e: Event): Breaker {
    match e
    case Success => Breaker(0, None)
    case Failure(seen, stamped) =>
      var failures := (b.failures + 1) % WORD;
      match StateOf(b, seen)
      case HalfOpen => Breaker(failures, Some(stamped + COOL_DOWN))
      case Closed => Breaker(failures, if failures >= THRESHOLD then Some(stamped + COOL_DOWN) else None)
      case Open => Breaker(failures, b.openUntil)
  }

  function After(events: seq<Event>, k: nat): Breaker
    requires k <= |events|
  {
    if k == 0 then Breaker(0, None) else Step(After(events, k - 1), events[k - 1])
  }

  lemma {:induction false} CoolingDownStep(events: seq<Event>, k: nat, t: real)
    requires k < |events|
    ensures CoolingDown(events, k + 1, t) <==>
            events[k].Failure? && (CoolingDown(events, k, t) || (Opens(events, k) && t < events[k].stamped + COOL_DOWN))
  {
    hide Streak;
    if CoolingDown(events, k + 1, t) {
      var j :| 0 <= j < k + 1 && SameStreak(events, j, k + 1) && Opens(events, j) && t < events[j].stamped + COOL_DOWN;
      assert events[k].Failure?;
      assert j < k ==> SameStreak(events, j, k);
    }
    if events[k].Failure? && CoolingDown(events, k, t) {
      var j :| 0 <= j < k && SameStreak(events, j, k) && Opens(events, j) && t < events[j].stamped + COOL_DOWN;
      assert SameStreak(events, j, k + 1);
    }
    if events[k].Failure? && Opens(events, k) && t < events[k].stamped + COOL_DOWN {
      assert SameStreak(events, k, k + 1);
    }
  }

  /**
   The two fields implement the rule: the counter is the streak modulo 2^32, a deadline is set
   exactly from the third failure in a row on, and it is in the future exactly while an opening
   of the streak is cooling down.
   */
  lemma {:induction false} FieldsFollowHistory(events: seq<Event>, k: nat, t: real)
    requires Clocked(events) && k <= |events|
    ensures After(events, k).failures == Streak(events, k) % WORD
    ensures After(events, k).openUntil.Some? <==> Streak(events, k) >= THRESHOLD
    ensures StateOf(After(events, k), t) == StateAt(events, k, t)
    ensures CoolingDown(events, k, t) ==> Streak(events, k) >= THRESHOLD
  {
    hide Opens, CoolingDown, Streak, Step;
    if k == 0 {
      NothingAtStart(events, t);
    } else {
      var e := events[k - 1];
      FieldsFollowHistory(events, k - 1, t);
      CoolingDownStep(events, k - 1, t);
      StreakStep(events, k - 1);
      if e.Failure? {
        FieldsFollowHistory(events, k - 1, e.seen);
        OpensRule(events, k - 1);
        FailureStep(After(events, k - 1), e.seen, e.stamped, Streak(events, k - 1));
      } else {
        assert Step(After(events, k - 1), e) == Breaker(0, None) by { SuccessStep(After(events, k - 1)); }
      }
    }
  }

  lemma {:induction false} SuccessStep(b: Breaker)
    ensures Step(b, Success) == Breaker(0, None)
  {
  }

  lemma {:induction false} FailureStep(b: Breaker, seen: real, stamped: real, streak: nat)
    requires b.failures == streak % WORD && (b.openUntil.Some? <==> streak >= THRESHOLD)
    ensures Step(b, Failure(seen, stamped)) ==
            Breaker((streak + 1) % WORD,
                    if streak + 1 >= THRESHOLD && StateOf(b, seen) != Open
                    then Some(stamped + COOL_DOWN) else b.openUntil)
  {
    assert (streak % WORD + 1) % WORD == (streak + 1) % WORD;
  }

  lemma {:induction false} StreakStep(events: seq<Event>, k: nat)
    requires k < |events|
    ensures Streak(events, k + 1) == if events[k].Failure? then Streak(events, k) + 1 else 0
  {
  }

  /** A failure sets the deadline exactly when it opens the circuit, to 30 seconds after it. */
  lemma {:induction false} OpeningSetsDeadline(events: seq<Event>, k: nat)
    requires Clocked(events) && k < |events| && events[k].Failure?
    ensures After(events, k + 1).openUntil ==
            if Opens(events, k) then Some(events[k].stamped + COOL_DOWN) else After(events, k).openUntil
  {
    hide Opens, CoolingDown, Streak, Step;
    var e := events[k];
    FieldsFollowHistory(events, k, e.seen);
    StreakStep(events, k);
    OpensRule(events, k);
    FailureStep(After(events, k), e.seen, e.stamped, Streak(events, k));
  }

  lemma {:induction false} NothingAtStart(events: seq<Event>, t: real)
    ensures !CoolingDown(events, 0, t) && Streak(events, 0) == 0
  {
  }

  lemma {:induction false} OpensRule(events: seq<Event>, k: nat)
    requires k < |events|
    ensures Opens(events, k) <==>
            events[k].Failure? && Streak(events, k + 1) >= THRESHOLD && !CoolingDown(events, k, events[k].seen)
  {
  }

  /** No command is admitted within 30 seconds of an opening, unless a success came in between. */
  lemma {:induction false} OpeningHolds(events: seq<Event>, j: nat, k: nat, t: real)
    requires Clocked(events) && j < k <= |events|
    requires Opens(events, j) && SameStreak(events, j, k) && t < events[j].stamped + COOL_DOWN
    ensures StateOf(After(events, k), t) == Open
  {
    FieldsFollowHistory(events, k, t);
    assert CoolingDown(events, k, t);
  }

  lemma {:induction false} StreakGrows(events: seq<Event>, j: nat, k: nat)
    requires j <= k <= |events| && SameStreak(events, j, k)
    ensures Streak(events, k) == Streak(events, j) + (k - j)
    decreases k
  {
    if j < k {
      assert events[k - 1].Failure?;
      StreakGrows(events, j, k - 1);
    }
  }

  /** Once tripped, the circuit stays tripped until a success; a success always closes it. */
  lemma {:induction false} OnlySuccessCloses(events: seq<Event>, j: nat, k: nat, t: real)
    requires Clocked(events) && j <= k <= |events| && After(events, j).openUntil.Some?
    ensures SameStreak(events, j, k) ==> StateOf(After(events, k), t) != Closed
    ensures k > 0 && events[k - 1].Success? ==> StateOf(After(events, k), t) == Closed
  {
    hide CoolingDown;
    FieldsFollowHistory(events, j, t);
    FieldsFollowHistory(events, k, t);
    if SameStreak(events, j, k) {
      StreakGrows(events, j, k);
    }
  }

  /** Failures reported while the circuit is open never move its deadline. */
  lemma {:induction false} DeadlineStandsWhileOpen(events: seq<Event>, j: nat, k: nat)
    requires j <= k <= |events| && SameStreak(events, j, k)
    requires After(events, j).openUntil.Some?
    requires forall i :: j <= i < k ==> events[i].seen < After(events, j).openUntil.value
    ensures After(events, k).openUntil == After(events, j).openUntil
    decreases k
  {
    if j < k {
      DeadlineStandsWhileOpen(events, j, k - 1);
      assert events[k - 1].seen < After(events, j).openUntil.value;
    }
  }

  /** How many of the events j, ..., k - 1 opened the circuit. */
  ghost function Openings(events: seq<Event>, j: nat, k: nat): nat
    requires j <= k <= |events|
    decreases k
  {
    if j == k then 0 else Openings(events, j, k - 1) + if Opens(events, k - 1) then 1 else 0
  }

  ghost predicate ClockAdvances(events: seq<Event>) {
    && Clocked(events)
    && forall i, k :: 0 <= i < k < |events| && events[i].Failure? && events[k].Failure? ==>
      events[i].stamped <= events[k].seen
  }

  /** A streak of failures opens the circuit at most once every 30 seconds. */
  lemma {:induction false} OpeningsAreSpaced(events: seq<Event>, j: nat, k: nat)
    requires ClockAdvances(events) && j < k <= |events| && SameStreak(events, j, k)
    ensures Openings(events, j, k) as real * COOL_DOWN <= events[k - 1].seen - events[j].seen + COOL_DOWN
  {
    hide Opens;
    if Openings(events, j, k) > 0 {
      var l := LastOpening(events, j, k);
      assert events[l].seen <= events[l].stamped && (l < k - 1 ==> events[l].stamped <= events[k - 1].seen);
    } else if j < k - 1 {
      assert events[j].seen <= events[j].stamped <= events[k - 1].seen;
    }
  }

  lemma {:induction false} LastOpening(events: seq<Event>, j: nat, k: nat) returns (l: nat)
    requires ClockAdvances(events) && j < k <= |events| && SameStreak(events, j, k)
    requires Openings(events, j, k) > 0
    ensures j <= l < k && Opens(events, l)
    ensures Openings(events, j, k) as real * COOL_DOWN <= events[l].seen - events[j].seen + COOL_DOWN
    decreases k
  {
    hide Opens;
    l := k - 1;
    if !Opens(events, l) {
      l := LastOpening(events, j, l);
    } else if Openings(events, j, l) > 0 {
      var before := LastOpening(events, j, l);
      NextOpening(events, before, l);
      assert events[before].seen <= events[before].stamped;
      assert Openings(events, j, k) == Openings(events, j, l) + 1;
    } else if j < l {
      assert events[j].seen <= events[j].stamped <= events[l].seen;
    }
  }

  lemma {:induction false} NextOpening(events: seq<Event>, j: nat, k: nat)
    requires j < k < |events| && Opens(events, j) && Opens(events, k) && SameStreak(events, j, k)
    ensures events[j].stamped + COOL_DOWN <= events[k].seen
  {
  }

  // ---- In numbers -----------------------------------------------------------------------

  /** Events j, ..., k - 1 are all the failures since the last success. */
  ghost predicate IsStreak(events: seq<Event>, j: nat, k: nat) {
    j <= k <= |events| && SameStreak(events, j, k) && (j == 0 || events[j - 1].Success?)
  }

  lemma {:induction false} StreakLength(events: seq<Event>, j: nat, k: nat)
    requires IsStreak(events, j, k)
    ensures Streak(events, k) == k - j
  {
    StreakGrows(events, j, k);
  }

  /**
   Fewer than three failures in a row leave the circuit closed, the third opens it for 30 seconds,
   and it does not close again without a success. The counter has 32 bits.
   */
  lemma {:induction false} ThirdFailureOpens(events: seq<Event>, j: nat, k: nat, t: real)
    requires Clocked(events) && IsStreak(events, j, k)
    ensures k - j < 3 ==> StateOf(After(events, k), t) == Closed
    ensures k - j == 3 ==> StateOf(After(events, k), t) == if t < events[k - 1].stamped + 30.0 then Open else HalfOpen
    ensures k - j > 3 ==> StateOf(After(events, k), t) != Closed
    ensures After(events, k).failures == (k - j) % 0x1_0000_0000
  {
    hide Opens, CoolingDown, Streak, Step;
    StreakLength(events, j, k);
    FieldsFollowHistory(events, k, t);
    if k - j == 3 {
      var p := k - 1;
      assert IsStreak(events, j, p);
      StreakLength(events, j, p);
      FieldsFollowHistory(events, p, events[p].seen);
      OpensRule(events, p);
      OpeningSetsDeadline(events, p);
    }
  }

  /** A failure while the circuit is half-open opens it for another 30 seconds; one while it is open does nothing. */
  lemma {:induction false} ProbeReopens(b: Breaker, seen: real, stamped: real, t: real)
    requires b.openUntil.Some?
    ensures b.openUntil.value <= seen ==>
              (StateOf(Step(b, Failure(seen, stamped)), t) == Open <==> t < stamped + 30.0)
    ensures seen < b.openUntil.value ==> Step(b, Failure(seen, stamped)).openUntil == b.openUntil
  {
  }

  // ---- The object -----------------------------------------------------------------------

  class WorkerHandle {
    var consecutiveFailures: nat
    var circuitOpenUntil: Option<real>
    ghost var events: seq<Event>

    ghost predicate Valid()
      reads this
    {
      && Clocked(events)
      && After(events, |events|) == Breaker(consecutiveFailures, circuitOpenUntil)
    }

    constructor ()
      ensures Valid() && events == []
    {
      consecutiveFailures, circuitOpenUntil := 0, None;
      events := [];
    }

    method GetCircuitState(now: real) returns (state: CircuitState)
      requires Valid()
      ensures state == StateAt(events, |events|, now)
    {
      FieldsFollowHistory(events, |events|, now);
      if circuitOpenUntil.Some? {
        return if now < circuitOpenUntil.value then Open else HalfOpen;
      }
      state := Closed;
    }

    /** The test made before a command is sent: refused exactly while an opening cools down. */
    method IsCircuitOpen(now: real) returns (open: bool)
      requires Valid()
      ensures open <==> CoolingDown(events, |events|, now)
    {
      FieldsFollowHistory(events, |events|, now);
      var state := GetCircuitState(now);
      open := state == Open;
    }

    method RecordSuccess()
      requires Valid()
      modifies this
      ensures Valid() && events == old(events) + [Success]
      ensures consecutiveFailures == 0 && circuitOpenUntil == None
    {
      AfterAppend(events, Success);
      events := events + [Success];
      consecutiveFailures := 0;
      circuitOpenUntil := None;
    }

    method RecordFailure(now: real, later: real)
      requires Valid() && now <= later
      modifies this
      ensures Valid() && events == old(events) + [Failure(now, later)]
      ensures consecutiveFailures == Streak(events, |events|) % WORD
      ensures circuitOpenUntil ==
              if Opens(events, |old(events)|) then Some(later + COOL_DOWN) else old(circuitOpenUntil)
    {
      hide Opens, CoolingDown, Streak, Step;
      var state := GetCircuitState(now);
      ghost var n := |events|;
      FieldsFollowHistory(events, n, now);
      FailureStep(After(events, n), now, later, Streak(events, n));
      AfterAppend(events, Failure(now, later));
      AfterPrefix(events, Failure(now, later), n);
      events := events + [Failure(now, later)];
      FieldsFollowHistory(events, n + 1, now);
      OpeningSetsDeadline(events, n);
      var failures := (consecutiveFailures + 1) % WORD;
      consecutiveFailures := failures;
      match state {
        case HalfOpen =>
          circuitOpenUntil := Some(later + COOL_DOWN);
        case Closed =>
          if failures >= THRESHOLD {
            circuitOpenUntil := Some(later + COOL_DOWN);
          }
        case Open =>
      }
    }
  }

  lemma {:induction false} AfterPrefix(events: seq<Event>, e: Event, k: nat)
    requires k <= |events|
    ensures After(events + [e], k) == After(events, k)
  {
    if k > 0 {
      AfterPrefix(events, e, k - 1);
    }
  }

  lemma {:induction false} AfterAppend(events: seq<Event>, e: Event)
    ensures After(events + [e], |events| + 1) == Step(After(events, |events|), e)
  {
    AfterPrefix(events, e, |events|);
  }
}
