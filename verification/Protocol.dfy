/**
 The command protocol between the gateway and its workers, as a state machine.

 The gateway side of a call registers a response channel under the command id, sends the
 command, collects messages until a terminal one or a timeout, and removes the channel.
 The worker side takes commands off its stream, runs each one in a task that first needs a
 permit, and emits the task's replies on one shared stream. A reader per worker routes each
 message by its command id. Commands have distinct ids, 0 to n - 1.
 */
module Protocol {
  import opened Wrappers
  import opened WorkerMessages

  type CommandId = nat
  type WorkerKey = nat

  const CHANNEL_CAPACITY := 16
  const STREAM_CAPACITY := 256
  const MAX_CONCURRENT_COMMANDS := 4

  datatype Message = Message(id: CommandId, payload: Payload)

  /** Which worker serves a command, and what its task replies there. */
  datatype Config = Config(
    n: nat, workerCount: nat, workerOf: CommandId -> WorkerKey, replies: CommandId -> seq<Payload>) {
    ghost predicate Valid() {
      forall c: CommandId :: c < n ==> workerOf(c) < workerCount
    }
  }

  datatype Result =
    | Success(messages: seq<Message>)
    | Disconnected
    | Timeout
    | Rejected

  /** The gateway's side of one call to `collect_responses`. */
  datatype Call =
    | Idle
    | Registered
    | Waiting(messages: seq<Message>)
    | Answered(messages: seq<Message>)
    | Expired(messages: seq<Message>)
    | Done(result: Result)
  {
    /** The receiving end of the response channel still exists. */
    predicate Listening() { Registered? || Waiting? }

    predicate InFlight() { Listening() || Answered? || Expired? }
  }

  /** The worker's side of one command. */
  datatype Task = NotSpawned | Spawned | Running(left: seq<Payload>) | Finished

  datatype Worker = Worker(up: bool, commands: seq<CommandId>, out: seq<Message>, permits: nat)

  datatype State = State(
    calls: seq<Call>,
    pending: map<CommandId, seq<Message>>,
    tasks: seq<Task>,
    workers: seq<Worker>)
  {
    predicate Shaped(cfg: Config) {
      |calls| == cfg.n && |tasks| == cfg.n && |workers| == cfg.workerCount
    }
  }

  datatype Action =
    | Reject(c: CommandId)
    | Register(c: CommandId)
    | Send(c: CommandId)
    | SendFails(c: CommandId)
    | Receive(w: WorkerKey)
    | Acquire(c: CommandId)
    | Emit(c: CommandId)
    | Finish(c: CommandId)
    | Route(w: WorkerKey)
    | Collect(c: CommandId)
    | Expire(c: CommandId)
    | Cleanup(c: CommandId)
    | Heartbeat(w: WorkerKey, id: CommandId)
    | Disconnect(w: WorkerKey, kept: nat)

  function Init(cfg: Config): State {
    State(seq(cfg.n, _ => Idle), map[], seq(cfg.n, _ => NotSpawned),
          seq(cfg.workerCount, _ => Worker(true, [], [], MAX_CONCURRENT_COMMANDS)))
  }

  ghost predicate Enabled(cfg: Config, s: State, a: Action)
    requires cfg.Valid() && s.Shaped(cfg)
  {
    match a
    case Reject(c) => c < cfg.n && s.calls[c].Idle?
    case Register(c) => c < cfg.n && s.calls[c].Idle?
    case Send(c) =>
      c < cfg.n && s.calls[c].Registered? && s.workers[cfg.workerOf(c)].up &&
      |s.workers[cfg.workerOf(c)].commands| < STREAM_CAPACITY
    case SendFails(c) => c < cfg.n && s.calls[c].Registered? && !s.workers[cfg.workerOf(c)].up
    case Receive(w) =>
      w < cfg.workerCount && s.workers[w].up && s.workers[w].commands != [] && s.workers[w].commands[0] < cfg.n
    case Acquire(c) =>
      c < cfg.n && s.tasks[c].Spawned? && s.workers[cfg.workerOf(c)].up && s.workers[cfg.workerOf(c)].permits > 0
    case Emit(c) =>
      c < cfg.n && s.tasks[c].Running? && s.tasks[c].left != [] && s.workers[cfg.workerOf(c)].up &&
      |s.workers[cfg.workerOf(c)].out| < STREAM_CAPACITY
    case Finish(c) => c < cfg.n && s.tasks[c].Running? && s.tasks[c].left == [] && s.workers[cfg.workerOf(c)].up
    case Route(w) => w < cfg.workerCount && s.workers[w].out != [] && !Blocked(s, s.workers[w].out[0].id)
    case Collect(c) => c < cfg.n && s.calls[c].Waiting? && c in s.pending && s.pending[c] != []
    case Expire(c) => c < cfg.n && s.calls[c].Waiting?
    case Cleanup(c) => c < cfg.n && (s.calls[c].Answered? || s.calls[c].Expired?)
    case Heartbeat(w, id) =>
      w < cfg.workerCount && id >= cfg.n && s.workers[w].up && |s.workers[w].out| < STREAM_CAPACITY
    case Disconnect(w, kept) => w < cfg.workerCount && s.workers[w].up && kept <= |s.workers[w].out|
  }

  /** The reader waits while the channel is full and somebody still receives from it. */
  predicate Blocked(s: State, id: CommandId) {
    id < |s.calls| && s.calls[id].Listening() && id in s.pending && |s.pending[id]| >= CHANNEL_CAPACITY
  }

  /** The response channels after the reader has handled `m`. */
  function Deliver(s: State, m: Message): map<CommandId, seq<Message>> {
    if m.id in s.pending && m.id < |s.calls| && s.calls[m.id].Listening()
    then s.pending[m.id := s.pending[m.id] + [m]]
    else s.pending
  }

  function SetWorker(s: State, w: WorkerKey, x: Worker): State
    requires w < |s.workers|
  {
    s.(workers := s.workers[w := x])
  }

  ghost function Apply(cfg: Config, s: State, a: Action): (t: State)
    requires cfg.Valid() && s.Shaped(cfg) && Enabled(cfg, s, a)
    ensures t.Shaped(cfg)
  {
    match a
    case Reject(c) => s.(calls := s.calls[c := Done(Rejected)])
    case Register(c) => s.(calls := s.calls[c := Registered], pending := s.pending[c := []])
    case Send(c) =>
      var w := cfg.workerOf(c);
      SetWorker(s.(calls := s.calls[c := Waiting([])]), w,
                s.workers[w].(commands := s.workers[w].commands + [c]))
    case SendFails(c) => s.(calls := s.calls[c := Done(Disconnected)], pending := s.pending - {c})
    case Receive(w) =>
      SetWorker(s.(tasks := s.tasks[s.workers[w].commands[0] := Spawned]), w,
                s.workers[w].(commands := s.workers[w].commands[1..]))
    case Acquire(c) =>
      var w := cfg.workerOf(c);
      SetWorker(s.(tasks := s.tasks[c := Running(cfg.replies(c))]), w,
                s.workers[w].(permits := s.workers[w].permits - 1))
    case Emit(c) =>
      var w := cfg.workerOf(c);
      SetWorker(s.(tasks := s.tasks[c := Running(s.tasks[c].left[1..])]), w,
                s.workers[w].(out := s.workers[w].out + [Message(c, s.tasks[c].left[0])]))
    case Finish(c) =>
      var w := cfg.workerOf(c);
      SetWorker(s.(tasks := s.tasks[c := Finished]), w, s.workers[w].(permits := s.workers[w].permits + 1))
    case Route(w) =>
      SetWorker(s.(pending := Deliver(s, s.workers[w].out[0])), w, s.workers[w].(out := s.workers[w].out[1..]))
    case Collect(c) =>
      var m := s.pending[c][0];
      var messages := s.calls[c].messages + [m];
      s.(pending := s.pending[c := s.pending[c][1..]],
         calls := s.calls[c := if IsTerminal(m.payload) then Answered(messages) else Waiting(messages)])
    case Expire(c) => s.(calls := s.calls[c := Expired(s.calls[c].messages)])
    case Cleanup(c) =>
      s.(calls := s.calls[c := Done(if s.calls[c].Answered? then Success(s.calls[c].messages) else Timeout)],
         pending := s.pending - {c})
    case Heartbeat(w, id) => SetWorker(s, w, s.workers[w].(out := s.workers[w].out + [Message(id, Pong)]))
    case Disconnect(w, kept) =>
      SetWorker(s, w, s.workers[w].(up := false, commands := [], out := s.workers[w].out[..kept]))
  }

  /** The state after the actions of `trace`, if each of them was enabled. */
  ghost function After(cfg: Config, trace: seq<Action>): (s: Option<State>)
    requires cfg.Valid()
    ensures s.Some? ==> s.value.Shaped(cfg)
  {
    if trace == [] then Some(Init(cfg)) else
      var before := After(cfg, trace[..|trace| - 1]);
      var a := trace[|trace| - 1];
      if before.Some? && Enabled(cfg, before.value, a) then Some(Apply(cfg, before.value, a)) else None
  }
}
