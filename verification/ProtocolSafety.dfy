/**
 What every reachable state of the command protocol satisfies. The replies of a command are
 conserved: read off in order, they are what its caller has collected, then what its channel
 buffers, then what the worker's stream still carries, then what its task has yet to emit.
 */
module ProtocolSafety {
  import opened Wrappers
  import opened WorkerMessages
  import opened Protocol

  /** The messages that carry the given replies of command `c`. */
  function Tag(c: CommandId, ps: seq<Payload>): (ms: seq<Message>)
    ensures |ms| == |ps| && forall i :: 0 <= i < |ms| ==> ms[i] == Message(c, ps[i])
  {
    seq(|ps|, i requires 0 <= i < |ps| => Message(c, ps[i]))
  }

  function Only(ms: seq<Message>, c: CommandId): seq<Message> {
    if ms == [] then [] else
      Only(ms[..|ms| - 1], c) + if ms[|ms| - 1].id == c then [ms[|ms| - 1]] else []
  }

  lemma {:induction false} OnlyAppend(ms: seq<Message>, m: Message, c: CommandId)
    ensures Only(ms + [m], c) == Only(ms, c) + if m.id == c then [m] else []
  {
    assert (ms + [m])[..|ms|] == ms;
  }

  lemma {:induction false} OnlyHead(ms: seq<Message>, c: CommandId)
    requires ms != []
    ensures Only(ms, c) == (if ms[0].id == c then [ms[0]] else []) + Only(ms[1..], c)
  {
    if |ms| == 1 {
      assert ms[..0] == [] && ms[1..] == [];
    } else {
      var front := ms[..|ms| - 1];
      OnlyHead(front, c);
      assert front[1..] == ms[1..][..|ms| - 2] && front[0] == ms[0];
    }
  }

  lemma {:induction false} OnlyPrefix(ms: seq<Message>, k: nat, c: CommandId)
    requires k <= |ms|
    ensures Only(ms[..k], c) <= Only(ms, c)
  {
    if k == |ms| {
      assert ms[..k] == ms;
    } else {
      OnlyPrefix(ms[..|ms| - 1], k, c);
      assert ms[..|ms| - 1][..k] == ms[..k];
    }
  }

  function Left(cfg: Config, t: Task, c: CommandId): seq<Payload> {
    match t
    case NotSpawned => cfg.replies(c)
    case Spawned => cfg.replies(c)
    case Running(left) => left
    case Finished => []
  }

  function Payloads(ms: seq<Message>): (ps: seq<Payload>)
    ensures |ps| == |ms| && forall i :: 0 <= i < |ps| ==> ps[i] == ms[i].payload
  {
    seq(|ms|, i requires 0 <= i < |ms| => ms[i].payload)
  }

  /** While its caller listens: collected, buffered, carried and left are consecutive slices. */
  ghost predicate Conserved(
    all: seq<Message>, collected: seq<Message>, buffered: seq<Message>, carried: seq<Message>, left: nat, up: bool)
  {
    var a := |collected|;
    var b := a + |buffered|;
    var e := b + |carried|;
    && e + left <= |all|
    && (up ==> e + left == |all|)
    && collected == all[..a] && buffered == all[a..b] && carried == all[b..e]
  }

  ghost predicate CallInv(cfg: Config, s: State, c: CommandId)
    requires cfg.Valid() && s.Shaped(cfg) && c < cfg.n
  {
    var all := Tag(c, cfg.replies(c));
    var w := s.workers[cfg.workerOf(c)];
    var left := Left(cfg, s.tasks[c], c);
    && |left| <= |all| && left == cfg.replies(c)[|all| - |left|..]
    && (c in s.pending <==> s.calls[c].InFlight())
    && (c in w.commands ==> s.tasks[c].NotSpawned? && !s.calls[c].Idle? && !s.calls[c].Registered?)
    && match s.calls[c]
       case Idle => s.tasks[c].NotSpawned? && Only(w.out, c) == []
       case Registered => s.tasks[c].NotSpawned? && Only(w.out, c) == [] && s.pending[c] == []
       case Waiting(ms) =>
         && Conserved(all, ms, s.pending[c], Only(w.out, c), |left|, w.up)
         && NoTerminal(Payloads(ms))
         && (w.up && s.tasks[c].NotSpawned? ==> c in w.commands)
       case Answered(ms) => ms <= all && IsComplete(Payloads(ms))
       case Expired(ms) => ms <= all && NoTerminal(Payloads(ms))
       case Done(Success(ms)) => ms <= all && IsComplete(Payloads(ms))
       case Done(_) => true
  }

  /** A worker's stream carries only replies to its own commands. */
  ghost predicate OutInv(cfg: Config, w: WorkerKey, out: seq<Message>) {
    forall k :: 0 <= k < |out| ==> out[k].id < cfg.n ==> cfg.workerOf(out[k].id) == w
  }

  /** A worker's queue holds its own commands, each at most once. */
  ghost predicate QueueInv(cfg: Config, w: WorkerKey, commands: seq<CommandId>) {
    && (forall k :: 0 <= k < |commands| ==> commands[k] < cfg.n && cfg.workerOf(commands[k]) == w)
    && (forall j, k :: 0 <= j < k < |commands| ==> commands[j] != commands[k])
  }

  ghost predicate StreamInv(cfg: Config, s: State, w: WorkerKey)
    requires s.Shaped(cfg) && w < cfg.workerCount
  {
    && OutInv(cfg, w, s.workers[w].out)
    && QueueInv(cfg, w, s.workers[w].commands)
    && s.workers[w].permits + RunningCount(cfg, s.tasks, w, cfg.n) == MAX_CONCURRENT_COMMANDS
  }

  /** How many of the first `k` commands run on worker `w`, each holding one permit. */
  function RunningCount(cfg: Config, tasks: seq<Task>, w: WorkerKey, k: nat): nat
    requires k <= |tasks|
  {
    if k == 0 then 0 else
      RunningCount(cfg, tasks, w, k - 1) + if tasks[k - 1].Running? && cfg.workerOf(k - 1) == w then 1 else 0
  }

  lemma {:induction false} RunningCountUpdate(
      cfg: Config, tasks: seq<Task>, w: WorkerKey, k: nat, c: CommandId, t: Task)
    requires k <= |tasks| && c < |tasks|
    ensures RunningCount(cfg, tasks[c := t], w, k) ==
            RunningCount(cfg, tasks, w, k)
            + (if c < k && t.Running? && cfg.workerOf(c) == w then 1 else 0)
            - (if c < k && tasks[c].Running? && cfg.workerOf(c) == w then 1 else 0)
  {
    if k > 0 {
      RunningCountUpdate(cfg, tasks, w, k - 1, c, t);
    }
  }

  ghost predicate Inv(cfg: Config, s: State)
    requires cfg.Valid() && s.Shaped(cfg)
  {
    && (forall c: CommandId :: c < cfg.n ==> CallInv(cfg, s, c))
    && (forall w: WorkerKey :: w < cfg.workerCount ==> StreamInv(cfg, s, w))
    && (forall c :: c in s.pending ==> c < cfg.n)
  }

  lemma {:induction false} NothingRuns(cfg: Config, tasks: seq<Task>, w: WorkerKey, k: nat)
    requires k <= |tasks| && forall i :: 0 <= i < |tasks| && cfg.workerOf(i) == w ==> !tasks[i].Running?
    ensures RunningCount(cfg, tasks, w, k) == 0
  {
    if k > 0 {
      NothingRuns(cfg, tasks, w, k - 1);
    }
  }

  lemma {:induction false} InitInv(cfg: Config)
    requires cfg.Valid()
    ensures Inv(cfg, Init(cfg))
  {
    var s := Init(cfg);
    forall c: CommandId | c < cfg.n ensures CallInv(cfg, s, c) {
      assert s.calls[c] == Idle && s.tasks[c] == NotSpawned;
    }
    forall w: WorkerKey | w < cfg.workerCount ensures StreamInv(cfg, s, w) {
      NothingRuns(cfg, s.tasks, w, cfg.n);
    }
  }

  // ---- Each action preserves what concerns a command ----------------------------------

  /** Nothing that concerns `c` has changed, except that its worker may have gone down. */
  ghost predicate Untouched(cfg: Config, s: State, t: State, c: CommandId)
    requires cfg.Valid() && s.Shaped(cfg) && t.Shaped(cfg) && c < cfg.n
  {
    var x, y := s.workers[cfg.workerOf(c)], t.workers[cfg.workerOf(c)];
    && s.calls[c] == t.calls[c] && s.tasks[c] == t.tasks[c]
    && (c in s.pending <==> c in t.pending) && (c in s.pending ==> s.pending[c] == t.pending[c])
    && Only(x.out, c) == Only(y.out, c) && (c in x.commands <==> c in y.commands) && x.up == y.up
  }

  lemma {:induction false} UntouchedInv(cfg: Config, s: State, t: State, c: CommandId)
    requires cfg.Valid() && s.Shaped(cfg) && t.Shaped(cfg) && c < cfg.n
    requires CallInv(cfg, s, c) && Untouched(cfg, s, t, c)
    ensures CallInv(cfg, t, c)
  {
  }

  /** The command that an action is about, if there is one. */
  function Subject(s: State, a: Action): Option<CommandId> {
    match a
    case Receive(w) => if w < |s.workers| && s.workers[w].commands != [] then Some(s.workers[w].commands[0]) else None
    case Route(w) => if w < |s.workers| && s.workers[w].out != [] then Some(s.workers[w].out[0].id) else None
    case Heartbeat(_, _) => None
    case Disconnect(_, _) => None
    case _ => Some(a.c)
  }

  lemma {:induction false} OthersUntouched(cfg: Config, s: State, a: Action, c: CommandId)
    requires cfg.Valid() && s.Shaped(cfg) && Inv(cfg, s) && Enabled(cfg, s, a) && !a.Disconnect?
    requires c < cfg.n && Subject(s, a) != Some(c)
    ensures Untouched(cfg, s, Apply(cfg, s, a), c)
  {
    hide Inv, Only;
    match a {
      case Emit(d) =>
        var x := s.workers[cfg.workerOf(d)];
        OnlyAppend(x.out, Message(d, s.tasks[d].left[0]), c);
      case Route(w) =>
        OnlyHead(s.workers[w].out, c);
      case Heartbeat(w, id) =>
        OnlyAppend(s.workers[w].out, Message(id, Pong), c);
      case Receive(w) =>
        assert forall d :: d != s.workers[w].commands[0] ==>
                 (d in s.workers[w].commands <==> d in s.workers[w].commands[1..]) by {
          assert s.workers[w].commands == [s.workers[w].commands[0]] + s.workers[w].commands[1..];
        }
      case _ =>
    }
  }

  lemma {:induction false} ConservedEmit(
    all: seq<Message>, collected: seq<Message>, buffered: seq<Message>, carried: seq<Message>, left: nat)
    requires Conserved(all, collected, buffered, carried, left, true) && left > 0
    ensures Conserved(all, collected, buffered, carried + [all[|all| - left]], left - 1, true)
  {
    Shift(all, |collected| + |buffered|, |collected| + |buffered| + |carried|);
  }

  lemma {:induction false} ConservedRoute(
    all: seq<Message>, collected: seq<Message>, buffered: seq<Message>, carried: seq<Message>, left: nat, up: bool)
    requires Conserved(all, collected, buffered, carried, left, up) && carried != []
    ensures Conserved(all, collected, buffered + [carried[0]], carried[1..], left, up)
  {
    var a, b := |collected|, |collected| + |buffered|;
    Shift(all, a, b);
    assert all[b + 1..b + |carried|] == all[b..b + |carried|][1..];
  }

  lemma {:induction false} ConservedCollect(
    all: seq<Message>, collected: seq<Message>, buffered: seq<Message>, carried: seq<Message>, left: nat, up: bool)
    requires Conserved(all, collected, buffered, carried, left, up) && buffered != []
    ensures Conserved(all, collected + [buffered[0]], buffered[1..], carried, left, up)
  {
    var a := |collected|;
    Shift(all, 0, a);
    assert all[a + 1..a + |buffered|] == all[a..a + |buffered|][1..];
  }

  lemma {:induction false} Shift(all: seq<Message>, i: nat, j: nat)
    requires i <= j < |all|
    ensures all[i..j + 1] == all[i..j] + [all[j]]
  {
  }

  lemma {:induction false} LeftShrinks(cfg: Config, c: CommandId, left: seq<Payload>)
    requires left != [] && |left| <= |cfg.replies(c)| && left == cfg.replies(c)[|cfg.replies(c)| - |left|..]
    ensures left[1..] == cfg.replies(c)[|cfg.replies(c)| - (|left| - 1)..]
    ensures Message(c, left[0]) == Tag(c, cfg.replies(c))[|cfg.replies(c)| - |left|]
  {
  }

  lemma {:induction false} EmitInv(cfg: Config, s: State, c: CommandId)
    requires cfg.Valid() && s.Shaped(cfg) && c < cfg.n && CallInv(cfg, s, c) && Enabled(cfg, s, Emit(c))
    ensures CallInv(cfg, Apply(cfg, s, Emit(c)), c)
  {
    hide Only, Conserved, IsComplete, NoTerminal, Tag, Payloads;
    var w := cfg.workerOf(c);
    var left := s.tasks[c].left;
    var all := Tag(c, cfg.replies(c));
    OnlyAppend(s.workers[w].out, Message(c, left[0]), c);
    LeftShrinks(cfg, c, left);
    if s.calls[c].Waiting? {
      ConservedEmit(all, s.calls[c].messages, s.pending[c], Only(s.workers[w].out, c), |left|);
    }
  }

  lemma {:induction false} RouteInv(cfg: Config, s: State, w: WorkerKey, c: CommandId)
    requires cfg.Valid() && s.Shaped(cfg) && c < cfg.n && CallInv(cfg, s, c)
    requires Enabled(cfg, s, Route(w)) && s.workers[w].out[0].id == c && cfg.workerOf(c) == w
    ensures CallInv(cfg, Apply(cfg, s, Route(w)), c)
  {
    hide Only, Conserved, IsComplete, NoTerminal;
    var all := Tag(c, cfg.replies(c));
    OnlyHead(s.workers[w].out, c);
    assert ([s.workers[w].out[0]] + Only(s.workers[w].out[1..], c))[1..] == Only(s.workers[w].out[1..], c);
    if s.calls[c].Waiting? {
      ConservedRoute(all, s.calls[c].messages, s.pending[c], Only(s.workers[w].out, c), |Left(cfg, s.tasks[c], c)|,
        s.workers[w].up);
    }
  }

  lemma {:induction false} CollectInv(cfg: Config, s: State, c: CommandId)
    requires cfg.Valid() && s.Shaped(cfg) && c < cfg.n && CallInv(cfg, s, c) && Enabled(cfg, s, Collect(c))
    ensures CallInv(cfg, Apply(cfg, s, Collect(c)), c)
  {
    hide Only;
    var all := Tag(c, cfg.replies(c));
    var ms := s.calls[c].messages;
    var m := s.pending[c][0];
    var w := s.workers[cfg.workerOf(c)];
    ConservedCollect(all, ms, s.pending[c], Only(w.out, c), |Left(cfg, s.tasks[c], c)|, w.up);
    assert ms + [m] == all[..|ms| + 1];
  }

  /** The commands on a worker's queue after the first one is received. */
  lemma {:induction false} ReceivedOnce(x: seq<CommandId>)
    requires x != [] && forall j, k :: 0 <= j < k < |x| ==> x[j] != x[k]
    ensures x[0] !in x[1..]
  {
  }

  lemma {:induction false} ReceiveInv(cfg: Config, s: State, w: WorkerKey, c: CommandId)
    requires cfg.Valid() && s.Shaped(cfg) && Enabled(cfg, s, Receive(w)) && c < cfg.n && CallInv(cfg, s, c)
    requires StreamInv(cfg, s, w) && w == cfg.workerOf(c) && s.workers[w].commands[0] == c
    ensures CallInv(cfg, Apply(cfg, s, Receive(w)), c)
  {
    hide Only, IsComplete, NoTerminal, Conserved;
    ReceivedOnce(s.workers[w].commands);
    assert s.tasks[c].NotSpawned? by { assert c in s.workers[w].commands; }
  }

  lemma {:induction false} TaskInv(cfg: Config, s: State, a: Action, c: CommandId)
    requires cfg.Valid() && s.Shaped(cfg) && Enabled(cfg, s, a) && c < cfg.n && CallInv(cfg, s, c)
    requires a == Acquire(c) || a == Finish(c)
    ensures CallInv(cfg, Apply(cfg, s, a), c)
  {
    hide Only, IsComplete, NoTerminal, Conserved;
  }

  lemma {:induction false} NothingYet(all: seq<Message>)
    ensures Conserved(all, [], [], [], |all|, true)
  {
    assert all[..0] == all[0..0] == [];
  }

  lemma {:induction false} SendInv(cfg: Config, s: State, c: CommandId)
    requires cfg.Valid() && s.Shaped(cfg) && c < cfg.n && Enabled(cfg, s, Send(c)) && CallInv(cfg, s, c)
    ensures CallInv(cfg, Apply(cfg, s, Send(c)), c)
  {
    hide Only, IsComplete, Conserved;
    assert Conserved(Tag(c, cfg.replies(c)), [], [], [], |cfg.replies(c)|, true) by {
      NothingYet(Tag(c, cfg.replies(c)));
    }
  }

  lemma {:induction false} ExpireInv(cfg: Config, s: State, c: CommandId)
    requires cfg.Valid() && s.Shaped(cfg) && c < cfg.n && Enabled(cfg, s, Expire(c)) && CallInv(cfg, s, c)
    ensures CallInv(cfg, Apply(cfg, s, Expire(c)), c)
  {
    hide Only, IsComplete, NoTerminal;
    assert s.calls[c].messages <= Tag(c, cfg.replies(c));
  }

  lemma {:induction false} AdmitInv(cfg: Config, s: State, a: Action, c: CommandId)
    requires cfg.Valid() && s.Shaped(cfg) && c < cfg.n && Enabled(cfg, s, a) && CallInv(cfg, s, c)
    requires a == Reject(c) || a == Register(c)
    ensures CallInv(cfg, Apply(cfg, s, a), c)
  {
    hide Only, IsComplete, NoTerminal, Conserved;
  }

  lemma {:induction false} EndInv(cfg: Config, s: State, a: Action, c: CommandId)
    requires cfg.Valid() && s.Shaped(cfg) && c < cfg.n && Enabled(cfg, s, a) && CallInv(cfg, s, c)
    requires a == SendFails(c) || a == Cleanup(c)
    ensures CallInv(cfg, Apply(cfg, s, a), c)
  {
    hide Only, IsComplete, NoTerminal, Conserved;
  }

  /** Every action keeps the invariant of the command it is about. */
  lemma {:induction false} SubjectInv(cfg: Config, s: State, a: Action, c: CommandId)
    requires cfg.Valid() && s.Shaped(cfg) && Enabled(cfg, s, a) && Inv(cfg, s)
    requires c < cfg.n && Subject(s, a) == Some(c)
    ensures CallInv(cfg, Apply(cfg, s, a), c)
  {
    hide Inv, CallInv, Apply;
    var v := cfg.workerOf(c);
    InvAt(cfg, s, c, v);
    match a {
      case Emit(_) => EmitInv(cfg, s, c);
      case Collect(_) => CollectInv(cfg, s, c);
      case Route(w) =>
        InvAt(cfg, s, c, w);
        RouteInv(cfg, s, w, c);
      case Receive(w) =>
        InvAt(cfg, s, c, w);
        ReceiveInv(cfg, s, w, c);
      case Acquire(_) => TaskInv(cfg, s, a, c);
      case Finish(_) => TaskInv(cfg, s, a, c);
      case Send(_) => SendInv(cfg, s, c);
      case Expire(_) => ExpireInv(cfg, s, c);
      case Reject(_) => AdmitInv(cfg, s, a, c);
      case Register(_) => AdmitInv(cfg, s, a, c);
      case _ => EndInv(cfg, s, a, c);
    }
  }

  lemma {:induction false} InvAt(cfg: Config, s: State, c: CommandId, w: WorkerKey)
    requires cfg.Valid() && s.Shaped(cfg) && Inv(cfg, s) && c < cfg.n && w < cfg.workerCount
    ensures CallInv(cfg, s, c) && StreamInv(cfg, s, w)
  {
  }

  lemma {:induction false} DisconnectInv(cfg: Config, s: State, w: WorkerKey, kept: nat, c: CommandId)
    requires cfg.Valid() && s.Shaped(cfg) && Enabled(cfg, s, Disconnect(w, kept))
    requires c < cfg.n && CallInv(cfg, s, c)
    ensures CallInv(cfg, Apply(cfg, s, Disconnect(w, kept)), c)
  {
    hide Only;
    OnlyPrefix(s.workers[w].out, kept, c);
    var after := Only(s.workers[w].out[..kept], c);
    assert after == Only(s.workers[w].out, c)[..|after|];
  }

  /** Permits and running tasks are exchanged one for one. */
  lemma {:induction false} PermitStep(cfg: Config, s: State, a: Action, w: WorkerKey)
    requires cfg.Valid() && s.Shaped(cfg) && Enabled(cfg, s, a) && w < cfg.workerCount
    requires a.Receive? ==> s.tasks[s.workers[a.w].commands[0]].NotSpawned?
    ensures var t := Apply(cfg, s, a);
            t.workers[w].permits + RunningCount(cfg, t.tasks, w, cfg.n) ==
            s.workers[w].permits + RunningCount(cfg, s.tasks, w, cfg.n)
  {
    hide RunningCount;
    match a {
      case Acquire(c) => RunningCountUpdate(cfg, s.tasks, w, cfg.n, c, Running(cfg.replies(c)));
      case Emit(c) => RunningCountUpdate(cfg, s.tasks, w, cfg.n, c, Running(s.tasks[c].left[1..]));
      case Finish(c) => RunningCountUpdate(cfg, s.tasks, w, cfg.n, c, Finished);
      case Receive(v) => RunningCountUpdate(cfg, s.tasks, w, cfg.n, s.workers[v].commands[0], Spawned);
      case _ =>
    }
  }

  lemma {:induction false} OutStep(cfg: Config, s: State, a: Action, w: WorkerKey)
    requires cfg.Valid() && s.Shaped(cfg) && Enabled(cfg, s, a) && w < cfg.workerCount
    requires OutInv(cfg, w, s.workers[w].out)
    ensures OutInv(cfg, w, Apply(cfg, s, a).workers[w].out)
  {
  }

  lemma {:induction false} QueueStep(cfg: Config, s: State, a: Action, w: WorkerKey)
    requires cfg.Valid() && s.Shaped(cfg) && Enabled(cfg, s, a) && w < cfg.workerCount
    requires QueueInv(cfg, w, s.workers[w].commands)
    requires a.Send? ==> a.c !in s.workers[cfg.workerOf(a.c)].commands
    ensures QueueInv(cfg, w, Apply(cfg, s, a).workers[w].commands)
  {
  }

  lemma {:induction false} StreamStep(cfg: Config, s: State, a: Action, w: WorkerKey)
    requires cfg.Valid() && s.Shaped(cfg) && Enabled(cfg, s, a) && Inv(cfg, s) && w < cfg.workerCount
    ensures StreamInv(cfg, Apply(cfg, s, a), w)
  {
    hide Only, CallInv, RunningCount, OutInv, Apply;
    match a {
      case Receive(v) =>
        assert StreamInv(cfg, s, v);
        CommandNotSpawned(cfg, s, s.workers[v].commands[0]);
      case Send(c) => RegisteredNotSent(cfg, s, c);
      case _ =>
    }
    assert StreamInv(cfg, s, w);
    PermitStep(cfg, s, a, w);
    OutStep(cfg, s, a, w);
    QueueStep(cfg, s, a, w);
  }

  lemma {:induction false} CommandNotSpawned(cfg: Config, s: State, c: CommandId)
    requires cfg.Valid() && s.Shaped(cfg) && Inv(cfg, s) && c < cfg.n && c in s.workers[cfg.workerOf(c)].commands
    ensures s.tasks[c].NotSpawned?
  {
    assert CallInv(cfg, s, c);
  }

  lemma {:induction false} RegisteredNotSent(cfg: Config, s: State, c: CommandId)
    requires cfg.Valid() && s.Shaped(cfg) && Inv(cfg, s) && c < cfg.n && s.calls[c].Registered?
    ensures c !in s.workers[cfg.workerOf(c)].commands
  {
    assert CallInv(cfg, s, c);
  }

  lemma {:induction false} StepInv(cfg: Config, s: State, a: Action)
    requires cfg.Valid() && s.Shaped(cfg) && Inv(cfg, s) && Enabled(cfg, s, a)
    ensures Inv(cfg, Apply(cfg, s, a))
  {
    hide Only, CallInv, StreamInv, Untouched, Apply, Enabled, Subject;
    var t := Apply(cfg, s, a);
    forall c: CommandId | c < cfg.n ensures CallInv(cfg, t, c) {
      if a.Disconnect? {
        DisconnectInv(cfg, s, a.w, a.kept, c);
      } else if Subject(s, a) == Some(c) {
        SubjectInv(cfg, s, a, c);
      } else {
        OthersUntouched(cfg, s, a, c);
        UntouchedInv(cfg, s, t, c);
      }
    }
    forall w: WorkerKey | w < cfg.workerCount ensures StreamInv(cfg, t, w) {
      StreamStep(cfg, s, a, w);
    }
    PendingDomain(cfg, s, a);
  }

  lemma {:induction false} PendingDomain(cfg: Config, s: State, a: Action)
    requires cfg.Valid() && s.Shaped(cfg) && Enabled(cfg, s, a) && forall c :: c in s.pending ==> c < cfg.n
    ensures forall c :: c in Apply(cfg, s, a).pending ==> c < cfg.n
  {
  }

  /** The invariant holds after every run. */
  lemma {:induction false} RunInv(cfg: Config, trace: seq<Action>)
    requires cfg.Valid() && After(cfg, trace).Some?
    ensures Inv(cfg, After(cfg, trace).value)
  {
    hide Inv, Apply, Enabled;
    if trace == [] {
      InitInv(cfg);
    } else {
      RunInv(cfg, trace[..|trace| - 1]);
      StepInv(cfg, After(cfg, trace[..|trace| - 1]).value, trace[|trace| - 1]);
    }
  }

  // ---- What callers get -------------------------------------------------------------

  /** In every run, the registered channels are exactly those of the calls in flight. */
  lemma {:induction false} PendingIsInFlight(cfg: Config, trace: seq<Action>)
    requires cfg.Valid() && After(cfg, trace).Some?
    ensures var s := After(cfg, trace).value;
            s.pending.Keys == set c: CommandId | c < cfg.n && s.calls[c].InFlight()
  {
    hide After, Only, IsComplete, NoTerminal, Conserved;
    RunInv(cfg, trace);
    var s := After(cfg, trace).value;
    forall c: CommandId ensures c in s.pending <==> c < cfg.n && s.calls[c].InFlight() {
      if c < cfg.n {
        assert CallInv(cfg, s, c);
      }
    }
  }

  /**
   In every run, a call that succeeds has exactly its own command's replies, in order, up to
   the first terminal one; a command whose replies hold no terminal message never succeeds.
   */
  lemma {:induction false} CallersGetTheirOwn(cfg: Config, trace: seq<Action>, c: CommandId)
    requires cfg.Valid() && After(cfg, trace).Some? && c < cfg.n
    requires After(cfg, trace).value.calls[c].Done? && After(cfg, trace).value.calls[c].result.Success?
    ensures After(cfg, trace).value.calls[c].result.messages == Tag(c, UpToTerminal(cfg.replies(c)))
    ensures !NoTerminal(cfg.replies(c))
  {
    hide After, Only;
    RunInv(cfg, trace);
    var s := After(cfg, trace).value;
    assert CallInv(cfg, s, c);
    var ms := s.calls[c].result.messages;
    var all := Tag(c, cfg.replies(c));
    assert forall i :: 0 <= i < |ms| ==> ms[i] == all[i];
    assert Payloads(ms) == cfg.replies(c)[..|ms|];
    CompletePrefix(cfg.replies(c), |ms|);
  }

  /** At any moment, what a waiting or timed-out caller holds is a prefix of its own replies. */
  lemma {:induction false} CollectedIsPrefix(cfg: Config, trace: seq<Action>, c: CommandId)
    requires cfg.Valid() && After(cfg, trace).Some? && c < cfg.n
    requires var call := After(cfg, trace).value.calls[c]; call.Waiting? || call.Expired?
    ensures var ms := After(cfg, trace).value.calls[c].messages;
            ms <= Tag(c, cfg.replies(c)) && NoTerminal(Payloads(ms))
  {
    hide After, Only;
    RunInv(cfg, trace);
    assert CallInv(cfg, After(cfg, trace).value, c);
  }

  /** No worker ever runs more than four commands at a time. */
  lemma {:induction false} ConcurrencyBound(cfg: Config, trace: seq<Action>, w: WorkerKey)
    requires cfg.Valid() && After(cfg, trace).Some? && w < cfg.workerCount
    ensures RunningCount(cfg, After(cfg, trace).value.tasks, w, cfg.n) <= MAX_CONCURRENT_COMMANDS
  {
    hide After;
    RunInv(cfg, trace);
    assert StreamInv(cfg, After(cfg, trace).value, w);
  }
}
