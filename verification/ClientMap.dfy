/**
 The map of client buckets under concurrent requests. Each request looks at the size of the map,
 evicts an arbitrary entry if that was too large, and inserts its client; between these steps
 other requests take theirs. An entry that is about to be evicted is locked until it is removed.
 */
module ClientMap {
  import opened Wrappers

  type Client = nat

  /** Requests in flight are before the eviction or before the insertion. */
  datatype State = State(keys: set<Client>, evicting: multiset<Client>, inserting: multiset<Client>) {
    function InFlight(): nat { |evicting| + |inserting| }
  }

  datatype Action =
    | Look(c: Client)
    | Evict(c: Client, victim: Option<Client>)
    | Insert(c: Client)

  const START := State({}, multiset{}, multiset{})

  /** At most `width` requests are in flight at a time. */
  predicate Enabled(width: nat, s: State, a: Action) {
    match a
    case Look(_) => s.InFlight() < width
    case Evict(c, victim) => c in s.evicting && if victim.Some? then victim.value in s.keys else s.keys == {}
    case Insert(c) => c in s.inserting
  }

  function Apply(maxClients: nat, s: State, a: Action): State {
    match a
    case Look(c) =>
      if |s.keys| >= maxClients then s.(evicting := s.evicting + multiset{c})
      else s.(inserting := s.inserting + multiset{c})
    case Evict(c, victim) =>
      State(if victim.Some? then s.keys - {victim.value} else s.keys,
            s.evicting - multiset{c}, s.inserting + multiset{c})
    case Insert(c) => s.(keys := s.keys + {c}, inserting := s.inserting - multiset{c})
  }

  function After(maxClients: nat, width: nat, trace: seq<Action>): Option<State> {
    if trace == [] then Some(START) else
      var before := After(maxClients, width, trace[..|trace| - 1]);
      var a := trace[|trace| - 1];
      if before.Some? && Enabled(width, before.value, a) then Some(Apply(maxClients, before.value, a)) else None
  }

  /** The limit of `width` requests at a time. */
  function Limit(maxClients: nat, width: nat): int {
    (if maxClients == 0 then 1 else maxClients) + width - 1
  }

  lemma {:induction false} StepBound(maxClients: nat, width: nat, s: State, a: Action)
    requires Enabled(width, s, a) && s.InFlight() <= width && |s.keys| + |s.inserting| <= Limit(maxClients, width)
    ensures var t := Apply(maxClients, s, a);
            t.InFlight() <= width && |t.keys| + |t.inserting| <= Limit(maxClients, width)
  {
  }

  /** In every interleaving of at most `width` requests at a time the map stays within the limit. */
  lemma {:induction false} ConcurrentBound(maxClients: nat, width: nat, trace: seq<Action>)
    requires width >= 1 && After(maxClients, width, trace).Some?
    ensures var s := After(maxClients, width, trace).value;
            s.InFlight() <= width && |s.keys| + |s.inserting| <= Limit(maxClients, width)
  {
    hide Limit, Apply, Enabled;
    if trace == [] {
      assert Limit(maxClients, width) >= 0 by { LimitIsPositive(maxClients, width); }
    } else {
      var front := trace[..|trace| - 1];
      ConcurrentBound(maxClients, width, front);
      StepBound(maxClients, width, After(maxClients, width, front).value, trace[|trace| - 1]);
    }
  }

  lemma {:induction false} LimitIsPositive(maxClients: nat, width: nat)
    requires width >= 1
    ensures Limit(maxClients, width) >= 1
  {
  }

  /** How many requests have begun, less those that have ended. */
  function Unfinished(trace: seq<Action>): int {
    if trace == [] then 0 else
      Unfinished(trace[..|trace| - 1]) +
      match trace[|trace| - 1]
      case Look(_) => 1
      case Evict(_, _) => 0
      case Insert(_) => -1
  }

  /** No request is lost: every one that has begun is in flight until it has inserted its client. */
  lemma {:induction false} RequestsAreConserved(maxClients: nat, width: nat, trace: seq<Action>)
    requires After(maxClients, width, trace).Some?
    ensures After(maxClients, width, trace).value.InFlight() == Unfinished(trace)
  {
    if trace != [] {
      RequestsAreConserved(maxClients, width, trace[..|trace| - 1]);
    }
  }

  /** A request in flight can always go on, whatever the other requests have evicted. */
  lemma {:induction false} RequestsGoOn(width: nat, s: State, c: Client) returns (a: Action)
    requires c in s.evicting || c in s.inserting
    ensures !a.Look? && a.c == c && Enabled(width, s, a)
  {
    if c in s.inserting {
      a := Insert(c);
    } else if s.keys == {} {
      a := Evict(c, None);
    } else {
      var victim :| victim in s.keys;
      a := Evict(c, Some(victim));
    }
  }

  /** Anything in the map can be the entry that is evicted. */
  lemma {:induction false} AnyEntryCanGo(maxClients: nat, width: nat, s: State, c: Client, victim: Client)
    requires c in s.evicting && victim in s.keys
    ensures Enabled(width, s, Evict(c, Some(victim)))
    ensures Apply(maxClients, s, Evict(c, Some(victim))).keys == s.keys - {victim}
  {
  }

  // ---- The limit is reached ---------------------------------------------------------------

  lemma {:induction false} AfterAppend(maxClients: nat, width: nat, trace: seq<Action>, a: Action)
    requires After(maxClients, width, trace).Some? && Enabled(width, After(maxClients, width, trace).value, a)
    ensures After(maxClients, width, trace + [a]) == Some(Apply(maxClients, After(maxClients, width, trace).value, a))
  {
    assert (trace + [a])[..|trace|] == trace;
  }

  /** Clients m to n - 1. */
  function Clients(m: nat, n: nat): (s: set<Client>)
    ensures forall c: nat :: c in s <==> m <= c < n
    ensures m <= n ==> |s| == n - m
    decreases n
  {
    if n <= m then {} else Clients(m, n - 1) + {n - 1}
  }

  lemma {:induction false} MoreClients(m: nat, n: nat)
    requires m <= n
    ensures Clients(m, n + 1) == Clients(m, n) + {n}
    ensures multiset(Clients(m, n + 1)) == multiset(Clients(m, n)) + multiset{n}
  {
  }

  lemma {:induction false} FewerClients(m: nat, n: nat)
    requires m < n
    ensures Clients(m, n) == {m} + Clients(m + 1, n)
    ensures multiset(Clients(m, n)) - multiset{m} == multiset(Clients(m + 1, n))
  {
  }

  /** Clients 0 to i - 1 are in the map, and requests of the next `j` clients wait to insert. */
  function Row(i: nat, j: nat): State {
    State(Clients(0, i), multiset{}, multiset(Clients(i, i + j)))
  }

  lemma {:induction false} RowLook(maxClients: nat, width: nat, i: nat, j: nat)
    requires i < maxClients && j < width
    ensures Enabled(width, Row(i, j), Look(i + j))
    ensures Apply(maxClients, Row(i, j), Look(i + j)) == Row(i, j + 1)
  {
    hide Clients;
    MoreClients(i, i + j);
  }

  lemma {:induction false} RowInsert(maxClients: nat, width: nat, i: nat, j: nat)
    requires j > 0
    ensures Enabled(width, Row(i, j), Insert(i))
    ensures Apply(maxClients, Row(i, j), Insert(i)) == Row(i + 1, j - 1)
  {
    hide Clients;
    MoreClients(0, i);
    FewerClients(i, i + j);
  }

  /** One request after the other fills the map, but for one place; then `j` new clients look. */
  lemma {:induction false} AllLook(maxClients: nat, width: nat, i: nat, j: nat) returns (trace: seq<Action>)
    requires i < maxClients && 1 <= width && j <= width
    ensures After(maxClients, width, trace) == Some(Row(i, j))
    decreases i, j
  {
    hide After, Row, Apply, Enabled;
    if j > 0 {
      trace := AllLook(maxClients, width, i, j - 1);
      RowLook(maxClients, width, i, j - 1);
      AfterAppend(maxClients, width, trace, Look(i + j - 1));
      trace := trace + [Look(i + j - 1)];
    } else if i > 0 {
      trace := AllLook(maxClients, width, i - 1, 1);
      RowInsert(maxClients, width, i - 1, 1);
      AfterAppend(maxClients, width, trace, Insert(i - 1));
      trace := trace + [Insert(i - 1)];
    } else {
      trace := [];
      NothingDone(maxClients, width);
    }
  }

  lemma {:induction false} NothingDone(maxClients: nat, width: nat)
    ensures After(maxClients, width, []) == Some(Row(0, 0))
  {
    assert |multiset(Clients(0, 0))| == 0;
    assert Row(0, 0) == START;
  }

  /** With no place at all, every request finds the map full, and nothing to evict. */
  lemma {:induction false} AllEvict(width: nat, looked: nat, evicted: nat) returns (trace: seq<Action>)
    requires evicted <= looked <= width
    ensures After(0, width, trace) ==
            Some(State({}, multiset(Clients(evicted, looked)), multiset(Clients(0, evicted))))
    decreases evicted, looked
  {
    hide After;
    if evicted > 0 {
      trace := AllEvict(width, looked, evicted - 1);
      FewerClients(evicted - 1, looked);
      MoreClients(0, evicted - 1);
      AfterAppend(0, width, trace, Evict(evicted - 1, None));
      trace := trace + [Evict(evicted - 1, None)];
    } else if looked > 0 {
      trace := AllEvict(width, looked - 1, 0);
      MoreClients(0, looked - 1);
      LookWhenFull(width, looked - 1);
      AfterAppend(0, width, trace, Look(looked - 1));
      trace := trace + [Look(looked - 1)];
    } else {
      trace := [];
      NothingDone(0, width);
      NoClients();
    }
  }

  lemma {:induction false} NoClients()
    ensures Clients(0, 0) == {} && multiset(Clients(0, 0)) == multiset{}
  {
    assert |multiset(Clients(0, 0))| == 0;
  }

  lemma {:induction false} LookWhenFull(width: nat, n: nat)
    requires n < width
    ensures var s := State({}, multiset(Clients(0, n)), multiset(Clients(0, 0)));
            Enabled(width, s, Look(n)) && Apply(0, s, Look(n)) == s.(evicting := s.evicting + multiset{n})
  {
    NoClients();
  }

  /** All `width` requests wait to insert, with the map as full as they could find it. */
  lemma {:induction false} AllWait(maxClients: nat, width: nat) returns (trace: seq<Action>)
    requires width >= 1
    ensures After(maxClients, width, trace) == Some(Row(if maxClients == 0 then 0 else maxClients - 1, width))
  {
    hide After;
    if maxClients == 0 {
      trace := AllEvict(width, width, width);
      assert |multiset(Clients(width, width))| == 0;
      NoClients();
    } else {
      trace := AllLook(maxClients, width, maxClients - 1, width);
    }
  }

  lemma {:induction false} AllInsert(maxClients: nat, width: nat, i: nat, j: nat) returns (trace: seq<Action>)
    requires 1 <= width && i + j == Limit(maxClients, width) && j <= width
    ensures After(maxClients, width, trace) == Some(Row(i, j))
    decreases i
  {
    hide After, Row, Apply, Enabled;
    if j == width {
      trace := AllWait(maxClients, width);
    } else {
      trace := AllInsert(maxClients, width, i - 1, j + 1);
      RowInsert(maxClients, width, i - 1, j + 1);
      AfterAppend(maxClients, width, trace, Insert(i - 1));
      trace := trace + [Insert(i - 1)];
    }
  }

  /** The limit is exact: some run of `width` requests at a time fills the map up to it. */
  lemma {:induction false} LimitIsReached(maxClients: nat, width: nat) returns (trace: seq<Action>)
    requires width >= 1
    ensures After(maxClients, width, trace).Some?
    ensures |After(maxClients, width, trace).value.keys| == (if maxClients == 0 then width else maxClients + width - 1)
  {
    hide After;
    trace := AllInsert(maxClients, width, Limit(maxClients, width), 0);
  }
}
