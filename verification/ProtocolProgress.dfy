/**
 Progress of the command protocol: every action but a heartbeat uses up a finite budget, and
 no interleaving of full channels and busy workers blocks a listening caller for good. So a run
 without timeouts, rejections and disconnections ends with every caller answered.

 A reader that waits for room in a channel keeps its lock on one part of the channel map
 meanwhile, and holds up every caller who registers or removes a channel in that part. These
 locks block nobody for good either, as long as a thread is left for the caller who makes room.
 */
module ProtocolProgress {
  import opened Wrappers
  import opened WorkerMessages
  import opened Protocol
  import opened ProtocolSafety

  // ---- The budget -------------------------------------------------------------------

  function CallWeight(call: Call): nat {
    match call
    case Idle => 5
    case Registered => 4
    case Waiting(_) => 3
    case Answered(_) => 2
    case Expired(_) => 2
    case Done(_) => 0
  }

  function TaskWeight(cfg: Config, t: Task, c: CommandId): nat {
    match t
    case NotSpawned => 3 + 3 * |cfg.replies(c)|
    case Spawned => 2 + 3 * |cfg.replies(c)|
    case Running(left) => 1 + 3 * |left|
    case Finished => 0
  }

  function CommandWeight(cfg: Config, s: State, c: CommandId): nat
    requires c < |s.calls| && c < |s.tasks|
  {
    CallWeight(s.calls[c]) + TaskWeight(cfg, s.tasks[c], c) + if c in s.pending then |s.pending[c]| else 0
  }

  function WorkerWeight(x: Worker): nat {
    2 * |x.out| + if x.up then 1 else 0
  }

  function CommandSum(cfg: Config, s: State, k: nat): nat
    requires k <= |s.calls| && k <= |s.tasks|
  {
    if k == 0 then 0 else CommandSum(cfg, s, k - 1) + CommandWeight(cfg, s, k - 1)
  }

  function WorkerSum(s: State, k: nat): nat
    requires k <= |s.workers|
  {
    if k == 0 then 0 else WorkerSum(s, k - 1) + WorkerWeight(s.workers[k - 1])
  }

  function Budget(cfg: Config, s: State): nat
    requires s.Shaped(cfg)
  {
    CommandSum(cfg, s, cfg.n) + WorkerSum(s, cfg.workerCount)
  }

  lemma {:induction false} CommandSumChange(cfg: Config, s: State, t: State, k: nat, c: CommandId)
    requires s.Shaped(cfg) && t.Shaped(cfg) && k <= cfg.n && c < cfg.n
    requires forall d :: 0 <= d < cfg.n && d != c ==> CommandWeight(cfg, s, d) == CommandWeight(cfg, t, d)
    ensures CommandSum(cfg, t, k) ==
            CommandSum(cfg, s, k) + if c < k then CommandWeight(cfg, t, c) - CommandWeight(cfg, s, c) else 0
  {
    hide CommandWeight;
    if k > 0 {
      CommandSumChange(cfg, s, t, k - 1, c);
    }
  }

  lemma {:induction false} WorkerSumChange(s: State, t: State, k: nat, w: WorkerKey)
    requires |s.workers| == |t.workers| && k <= |s.workers| && w < |s.workers|
    requires forall v :: 0 <= v < |s.workers| && v != w ==> s.workers[v] == t.workers[v]
    ensures WorkerSum(t, k) ==
            WorkerSum(s, k) + if w < k then WorkerWeight(t.workers[w]) - WorkerWeight(s.workers[w]) else 0
  {
    if k > 0 {
      WorkerSumChange(s, t, k - 1, w);
    }
  }

  lemma {:induction false} SameCommandSum(cfg: Config, s: State, t: State, k: nat)
    requires s.Shaped(cfg) && t.Shaped(cfg) && k <= cfg.n
    requires s.calls == t.calls && s.tasks == t.tasks && s.pending == t.pending
    ensures CommandSum(cfg, t, k) == CommandSum(cfg, s, k)
  {
    if k > 0 {
      SameCommandSum(cfg, s, t, k - 1);
    }
  }

  /** The change of budget when an action touches at most command `c` and worker `w`. */
  lemma {:induction false} BudgetChange(cfg: Config, s: State, t: State, c: CommandId, w: WorkerKey)
    requires s.Shaped(cfg) && t.Shaped(cfg) && c < cfg.n && w < cfg.workerCount
    requires forall d :: 0 <= d < cfg.n && d != c ==> CommandWeight(cfg, s, d) == CommandWeight(cfg, t, d)
    requires forall v :: 0 <= v < cfg.workerCount && v != w ==> s.workers[v] == t.workers[v]
    ensures Budget(cfg, t) - Budget(cfg, s) ==
            (CommandWeight(cfg, t, c) - CommandWeight(cfg, s, c))
            + (WorkerWeight(t.workers[w]) - WorkerWeight(s.workers[w]))
  {
    CommandSumChange(cfg, s, t, cfg.n, c);
    WorkerSumChange(s, t, cfg.workerCount, w);
  }

  lemma {:induction false} CallerSpends(cfg: Config, s: State, a: Action, c: CommandId)
    requires cfg.Valid() && s.Shaped(cfg) && Enabled(cfg, s, a) && c < cfg.n
    requires s.calls[c].InFlight() <==> c in s.pending
    requires || a == Reject(c) || a == Register(c) || a == Send(c) || a == SendFails(c)
             || a == Expire(c) || a == Cleanup(c) || a == Collect(c)
    ensures Budget(cfg, Apply(cfg, s, a)) < Budget(cfg, s)
  {
    hide CommandSum, WorkerSum, Budget, TaskWeight;
    BudgetChange(cfg, s, Apply(cfg, s, a), c, cfg.workerOf(c));
  }

  lemma {:induction false} TaskSpends(cfg: Config, s: State, a: Action, c: CommandId)
    requires cfg.Valid() && s.Shaped(cfg) && Enabled(cfg, s, a) && c < cfg.n
    requires a == Acquire(c) || a == Emit(c) || a == Finish(c) ||
             (a == Receive(cfg.workerOf(c)) && s.workers[a.w].commands[0] == c && s.tasks[c].NotSpawned?)
    ensures Budget(cfg, Apply(cfg, s, a)) < Budget(cfg, s)
  {
    hide CommandSum, WorkerSum, Budget, CallWeight;
    BudgetChange(cfg, s, Apply(cfg, s, a), c, cfg.workerOf(c));
  }

  lemma {:induction false} RouteSpends(cfg: Config, s: State, w: WorkerKey)
    requires cfg.Valid() && s.Shaped(cfg) && Enabled(cfg, s, Route(w))
    ensures Budget(cfg, Apply(cfg, s, Route(w))) < Budget(cfg, s)
  {
    hide CommandSum, WorkerSum, CallWeight, TaskWeight;
    var t := Apply(cfg, s, Route(w));
    var c := s.workers[w].out[0].id;
    if c < cfg.n {
      BudgetChange(cfg, s, t, c, w);
    } else {
      SameCommandSum(cfg, s, t, cfg.n);
      WorkerSumChange(s, t, cfg.workerCount, w);
    }
  }

  lemma {:induction false} WorkerSpends(cfg: Config, s: State, a: Action, w: WorkerKey)
    requires cfg.Valid() && s.Shaped(cfg) && Enabled(cfg, s, a) && (a.Heartbeat? || a.Disconnect?) && a.w == w
    ensures Budget(cfg, Apply(cfg, s, a)) + (if a.Heartbeat? then 0 else 3) <= Budget(cfg, s) + 2
  {
    hide CommandSum, WorkerSum;
    var t := Apply(cfg, s, a);
    SameCommandSum(cfg, s, t, cfg.n);
    WorkerSumChange(s, t, cfg.workerCount, w);
  }

  lemma {:induction false} StepSpends(cfg: Config, s: State, a: Action)
    requires cfg.Valid() && s.Shaped(cfg) && Inv(cfg, s) && Enabled(cfg, s, a)
    ensures Budget(cfg, Apply(cfg, s, a)) + 1 <= Budget(cfg, s) + if a.Heartbeat? then 3 else 0
  {
    hide Budget, Apply, Inv, CallInv;
    match a {
      case Route(w) => RouteSpends(cfg, s, w);
      case Heartbeat(w, _) => WorkerSpends(cfg, s, a, w);
      case Disconnect(w, _) => WorkerSpends(cfg, s, a, w);
      case Receive(w) =>
        var c := s.workers[w].commands[0];
        InvAt(cfg, s, c, w);
        CommandNotSpawned(cfg, s, c);
        TaskSpends(cfg, s, a, c);
      case Acquire(c) => TaskSpends(cfg, s, a, c);
      case Emit(c) => TaskSpends(cfg, s, a, c);
      case Finish(c) => TaskSpends(cfg, s, a, c);
      case _ =>
        PendingIffInFlight(cfg, s, a.c);
        CallerSpends(cfg, s, a, a.c);
    }
  }

  lemma {:induction false} PendingIffInFlight(cfg: Config, s: State, c: CommandId)
    requires cfg.Valid() && s.Shaped(cfg) && Inv(cfg, s) && c < cfg.n
    ensures s.calls[c].InFlight() <==> c in s.pending
  {
    assert CallInv(cfg, s, c);
  }

  function Heartbeats(trace: seq<Action>): nat {
    if trace == [] then 0 else
      Heartbeats(trace[..|trace| - 1]) + if trace[|trace| - 1].Heartbeat? then 1 else 0
  }

  /** A run is no longer than its initial budget and three steps per heartbeat. */
  lemma {:induction false} RunsAreBounded(cfg: Config, trace: seq<Action>)
    requires cfg.Valid() && After(cfg, trace).Some?
    ensures |trace| + Budget(cfg, After(cfg, trace).value) <= Budget(cfg, Init(cfg)) + 3 * Heartbeats(trace)
  {
    hide Budget, Apply, Enabled, Inv;
    if trace != [] {
      var front := trace[..|trace| - 1];
      RunsAreBounded(cfg, front);
      RunInv(cfg, front);
      StepSpends(cfg, After(cfg, front).value, trace[|trace| - 1]);
    }
  }

  // ---- No deadlock ------------------------------------------------------------------

  /** Only heartbeats, timeouts and disconnections could still happen. */
  ghost predicate Stuck(cfg: Config, s: State)
    requires cfg.Valid() && s.Shaped(cfg)
  {
    forall a: Action :: Enabled(cfg, s, a) ==> a.Heartbeat? || a.Expire? || a.Disconnect?
  }

  /** Some reader waits for room in a channel of the same part of the map. */
  ghost predicate Locked(s: State, part: CommandId -> nat, c: CommandId) {
    exists w :: 0 <= w < |s.workers| && s.workers[w].out != [] &&
      Blocked(s, s.workers[w].out[0].id) && part(s.workers[w].out[0].id) == part(c)
  }

  /** Enabled, and not held up by the lock on the part of the map that the step writes. */
  ghost predicate Possible(cfg: Config, s: State, part: CommandId -> nat, a: Action)
    requires cfg.Valid() && s.Shaped(cfg)
  {
    Enabled(cfg, s, a) && (a.Register? || a.SendFails? || a.Cleanup? ==> !Locked(s, part, a.c))
  }

  /** The same as `Stuck`, when steps can also wait for locks. */
  ghost predicate StuckOnLocks(cfg: Config, s: State, part: CommandId -> nat)
    requires cfg.Valid() && s.Shaped(cfg)
  {
    forall a: Action :: Possible(cfg, s, part, a) ==> a.Heartbeat? || a.Expire? || a.Disconnect?
  }

  /** Whoever holds a lock waits for a caller who can go on, so no state is stuck because of locks. */
  lemma {:induction false} LocksDoNotBlock(cfg: Config, s: State, part: CommandId -> nat)
    requires cfg.Valid() && s.Shaped(cfg) && Inv(cfg, s) && StuckOnLocks(cfg, s, part)
    ensures Stuck(cfg, s)
  {
    hide Inv, Enabled, Blocked;
    forall c ensures !Blocked(s, c) {
      HolderCanGoOn(cfg, s, c);
      assert Possible(cfg, s, part, Collect(c)) <==> Enabled(cfg, s, Collect(c));
    }
    forall a: Action | Enabled(cfg, s, a) ensures a.Heartbeat? || a.Expire? || a.Disconnect? {
      assert Possible(cfg, s, part, a);
    }
  }

  lemma {:induction false} HolderCanGoOn(cfg: Config, s: State, c: CommandId)
    requires cfg.Valid() && s.Shaped(cfg) && Inv(cfg, s)
    ensures Blocked(s, c) ==> Enabled(cfg, s, Collect(c))
  {
    hide Inv;
    if c < cfg.n {
      ChannelOf(cfg, s, c);
    }
  }

  /** The part of a command's invariant that concerns its response channel. */
  lemma {:induction false} ChannelOf(cfg: Config, s: State, c: CommandId)
    requires cfg.Valid() && s.Shaped(cfg) && Inv(cfg, s) && c < cfg.n
    ensures c in s.pending <==> s.calls[c].InFlight()
    ensures s.calls[c].Registered? ==> s.pending[c] == []
  {
    hide Only, Conserved, NoTerminal, IsComplete, Tag, Left;
    assert CallInv(cfg, s, c);
  }

  lemma {:induction false} BuffersEmpty(cfg: Config, s: State, c: CommandId)
    requires cfg.Valid() && s.Shaped(cfg) && Inv(cfg, s) && Stuck(cfg, s) && c < cfg.n
    ensures s.calls[c].Done? || (s.calls[c].Waiting? && c in s.pending && s.pending[c] == []) ||
            (s.calls[c].Registered? && c in s.pending && s.pending[c] == [] && s.workers[cfg.workerOf(c)].up)
  {
    hide Inv;
    ChannelOf(cfg, s, c);
    assert !Enabled(cfg, s, Register(c)) && !Enabled(cfg, s, SendFails(c));
    assert !Enabled(cfg, s, Collect(c)) && !Enabled(cfg, s, Cleanup(c));
  }

  /** Nothing is left on the stream or the queue of a stuck worker. */
  lemma {:induction false} StreamEmpty(cfg: Config, s: State, w: WorkerKey)
    requires cfg.Valid() && s.Shaped(cfg) && Inv(cfg, s) && Stuck(cfg, s) && w < cfg.workerCount
    ensures s.workers[w].out == [] && (s.workers[w].up ==> s.workers[w].commands == [])
  {
    hide Inv, CallInv;
    assert StreamInv(cfg, s, w) by { assert Inv(cfg, s); UseStreamInv(cfg, s, w); }
    assert !Enabled(cfg, s, Route(w)) && !Enabled(cfg, s, Receive(w));
    if s.workers[w].out != [] {
      var c := s.workers[w].out[0].id;
      assert Blocked(s, c);
      BuffersEmpty(cfg, s, c);
    }
  }

  lemma {:induction false} UseStreamInv(cfg: Config, s: State, w: WorkerKey)
    requires cfg.Valid() && s.Shaped(cfg) && Inv(cfg, s) && w < cfg.workerCount
    ensures StreamInv(cfg, s, w)
  {
  }

  lemma {:induction false} NoTaskRuns(cfg: Config, s: State, w: WorkerKey)
    requires cfg.Valid() && s.Shaped(cfg) && Inv(cfg, s) && Stuck(cfg, s) && w < cfg.workerCount && s.workers[w].up
    ensures forall c :: 0 <= c < cfg.n && cfg.workerOf(c) == w ==> !s.tasks[c].Running? && !s.tasks[c].Spawned?
  {
    hide Inv;
    StreamEmpty(cfg, s, w);
    forall c | 0 <= c < cfg.n && cfg.workerOf(c) == w ensures !s.tasks[c].Running? {
      assert !Enabled(cfg, s, Emit(c)) && !Enabled(cfg, s, Finish(c));
    }
    NothingRuns(cfg, s.tasks, w, cfg.n);
    UseStreamInv(cfg, s, w);
    forall c | 0 <= c < cfg.n && cfg.workerOf(c) == w ensures !s.tasks[c].Spawned? {
      assert !Enabled(cfg, s, Acquire(c));
    }
  }

  /** In a stuck state a call is over, unless its worker is down or its replies never end. */
  lemma {:induction false} StuckMeansOver(cfg: Config, s: State, part: CommandId -> nat, c: CommandId)
    requires cfg.Valid() && s.Shaped(cfg) && Inv(cfg, s) && StuckOnLocks(cfg, s, part) && c < cfg.n
    ensures s.calls[c].Done? ||
            (s.calls[c].Waiting? && !s.workers[cfg.workerOf(c)].up) ||
            (s.calls[c] == Waiting(Tag(c, cfg.replies(c))) && NoTerminal(cfg.replies(c)))
  {
    hide Inv, StuckOnLocks;
    var w := cfg.workerOf(c);
    LocksDoNotBlock(cfg, s, part);
    BuffersEmpty(cfg, s, c);
    StreamEmpty(cfg, s, w);
    assert !Enabled(cfg, s, Send(c));
    assert CallInv(cfg, s, c) by { InvAt(cfg, s, c, w); }
    if s.calls[c].Waiting? && s.workers[w].up {
      NoTaskRuns(cfg, s, w);
      var all := Tag(c, cfg.replies(c));
      var ms := s.calls[c].messages;
      assert ms == all[..|all|] == all;
      assert forall i :: 0 <= i < |all| ==> Payloads(ms)[i] == cfg.replies(c)[i];
    }
  }

  // ---- Every caller is answered -----------------------------------------------------

  ghost predicate Undisturbed(trace: seq<Action>) {
    forall i :: 0 <= i < |trace| ==> !trace[i].Reject? && !trace[i].Expire? && !trace[i].Disconnect?
  }

  lemma {:induction false} UndisturbedState(cfg: Config, trace: seq<Action>)
    requires cfg.Valid() && After(cfg, trace).Some? && Undisturbed(trace)
    ensures var s := After(cfg, trace).value;
            && (forall w :: 0 <= w < cfg.workerCount ==> s.workers[w].up)
            && (forall c :: 0 <= c < cfg.n ==>
                  !s.calls[c].Expired? && (s.calls[c].Done? ==> s.calls[c].result.Success?))
  {
    if trace != [] {
      UndisturbedState(cfg, trace[..|trace| - 1]);
    }
  }

  /**
   An undisturbed run that cannot go on, be it for want of a lock, has answered every caller
   with exactly the replies of its own command, if those contain a terminal message.
   */
  lemma {:induction false} EveryCallerAnswered(
      cfg: Config, trace: seq<Action>, part: CommandId -> nat, c: CommandId)
    requires cfg.Valid() && After(cfg, trace).Some? && Undisturbed(trace) && c < cfg.n
    requires StuckOnLocks(cfg, After(cfg, trace).value, part)
    requires !NoTerminal(cfg.replies(c))
    ensures After(cfg, trace).value.calls[c] == Done(Success(Tag(c, UpToTerminal(cfg.replies(c)))))
  {
    hide After, Inv, StuckOnLocks, NoTerminal;
    RunInv(cfg, trace);
    UndisturbedState(cfg, trace);
    StuckMeansOver(cfg, After(cfg, trace).value, part, c);
    CallersGetTheirOwn(cfg, trace, c);
  }

  /** These messages, and no others, end a collected call. */
  predicate EndsCall(p: Payload) {
    p.Exit? || p.Error? || p.FileList? || (p.FileChunk? && p.isLast)
  }

  /**
   At the end of an undisturbed run a call has an answer exactly if its command replies with an
   exit, an error, a file list or a last file chunk; otherwise it goes on waiting.
   */
  lemma {:induction false} AnsweredIff(cfg: Config, trace: seq<Action>, part: CommandId -> nat, c: CommandId)
    requires cfg.Valid() && After(cfg, trace).Some? && Undisturbed(trace) && c < cfg.n
    requires StuckOnLocks(cfg, After(cfg, trace).value, part)
    ensures var call, ps := After(cfg, trace).value.calls[c], cfg.replies(c);
            if exists i :: 0 <= i < |ps| && EndsCall(ps[i]) then call.Done? && call.result.Success?
            else call == Waiting(Tag(c, ps))
  {
    hide After, Inv, StuckOnLocks;
    var s, ps := After(cfg, trace).value, cfg.replies(c);
    assert forall i :: 0 <= i < |ps| ==> (IsTerminal(ps[i]) <==> EndsCall(ps[i]));
    RunInv(cfg, trace);
    UndisturbedState(cfg, trace);
    StuckMeansOver(cfg, s, part, c);
    if exists i :: 0 <= i < |ps| && EndsCall(ps[i]) {
      EveryCallerAnswered(cfg, trace, part, c);
    } else if s.calls[c].Done? {
      CallersGetTheirOwn(cfg, trace, c);
    }
  }
}
