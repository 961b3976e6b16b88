/**
 How a call ends, and who waits for whom, in every run of the command protocol: the result tells
 what happened to the call, buffers stay within their sizes, and a step is held up exactly by a
 full buffer or by four running tasks.
 */
module ProtocolOutcomes {
  import opened Wrappers
  import opened WorkerMessages
  import opened Protocol
  import opened ProtocolSafety

  // ---- Results --------------------------------------------------------------------------

  /** The state of call `c` after these steps. */
  ghost predicate TellsHistory(call: Call, trace: seq<Action>, c: CommandId) {
    && (call == Done(Rejected) <==> Reject(c) in trace)
    && (call == Done(Disconnected) <==> SendFails(c) in trace)
    && (call == Done(Timeout) <==> Expire(c) in trace && Cleanup(c) in trace)
    && (call.Done? && call.result.Success? <==> Expire(c) !in trace && Cleanup(c) in trace)
    && (call.Expired? <==> Expire(c) in trace && Cleanup(c) !in trace)
    && (call.Idle? <==> Reject(c) !in trace && Register(c) !in trace)
    && (call.Registered? <==> Register(c) in trace && Send(c) !in trace && SendFails(c) !in trace)
    && (Cleanup(c) in trace || Expire(c) in trace ==> Send(c) in trace)
    && (Send(c) in trace || SendFails(c) in trace ==> Register(c) in trace)
    && !(Reject(c) in trace && Register(c) in trace) && !(Send(c) in trace && SendFails(c) in trace)
  }

  /** In every run the result of a call says which steps it took: refused, cut off, timed out or answered. */
  lemma {:induction false} ResultTellsHistory(cfg: Config, trace: seq<Action>, c: CommandId)
    requires cfg.Valid() && After(cfg, trace).Some? && c < cfg.n
    ensures TellsHistory(After(cfg, trace).value.calls[c], trace, c)
  {
    if trace != [] {
      hide TellsHistory;
      var front, a := trace[..|trace| - 1], trace[|trace| - 1];
      ResultTellsHistory(cfg, front, c);
      assert trace == front + [a];
      NextTellsHistory(cfg, After(cfg, front).value, front, a, c);
    }
  }

  lemma {:induction false} NextTellsHistory(cfg: Config, s: State, front: seq<Action>, a: Action, c: CommandId)
    requires cfg.Valid() && s.Shaped(cfg) && c < cfg.n && Enabled(cfg, s, a) && TellsHistory(s.calls[c], front, c)
    ensures TellsHistory(Apply(cfg, s, a).calls[c], front + [a], c)
  {
  }

  // ---- Waiting --------------------------------------------------------------------------

  ghost predicate Bounded(s: State) {
    && (forall c :: c in s.pending ==> |s.pending[c]| <= 16)
    && (forall w :: 0 <= w < |s.workers| ==> |s.workers[w].out| <= 256 && |s.workers[w].commands| <= 256)
  }

  lemma {:induction false} StepBounded(cfg: Config, s: State, a: Action)
    requires cfg.Valid() && s.Shaped(cfg) && Enabled(cfg, s, a) && Bounded(s)
    requires forall c :: c in s.pending ==> c < cfg.n
    ensures Bounded(Apply(cfg, s, a))
  {
  }

  /** In every run a response channel holds at most 16 messages, and a stream to or from a worker at most 256. */
  lemma {:induction false} BuffersAreBounded(cfg: Config, trace: seq<Action>)
    requires cfg.Valid() && After(cfg, trace).Some?
    ensures Bounded(After(cfg, trace).value)
  {
    if trace != [] {
      hide Bounded, Apply, Enabled, CallInv, StreamInv;
      var front := trace[..|trace| - 1];
      BuffersAreBounded(cfg, front);
      RunInv(cfg, front);
      StepBounded(cfg, After(cfg, front).value, trace[|trace| - 1]);
    } else {
      StartBounded(cfg);
    }
  }

  lemma {:induction false} StartBounded(cfg: Config)
    requires cfg.Valid()
    ensures Bounded(Init(cfg))
  {
  }

  /**
   What holds up each step, in every reachable state: sending waits for room among 256 commands,
   a reply for room among 256 messages, a task for one of four to finish, and the reader for room
   among 16 messages of a caller who still listens.
   */
  lemma {:induction false} WhoWaits(cfg: Config, trace: seq<Action>, c: CommandId)
    requires cfg.Valid() && After(cfg, trace).Some? && c < cfg.n
    ensures var s := After(cfg, trace).value;
            var w := cfg.workerOf(c);
            var x := s.workers[w];
            && (x.up && s.calls[c].Registered? ==> (Enabled(cfg, s, Send(c)) <==> |x.commands| != 256))
            && (x.up && s.tasks[c].Spawned? ==> (Enabled(cfg, s, Acquire(c)) <==>
              RunningCount(cfg, s.tasks, w, cfg.n) != 4))
            && (x.up && s.tasks[c].Running? && s.tasks[c].left != [] ==> (Enabled(cfg, s, Emit(c)) <==> |x.out| != 256))
            && (x.out != [] && x.out[0].id == c ==>
                (Enabled(cfg, s, Route(w)) <==> !(s.calls[c].Listening() && c in s.pending && |s.pending[c]| == 16)))
  {
    hide After, CallInv;
    RunInv(cfg, trace);
    BuffersAreBounded(cfg, trace);
    var s := After(cfg, trace).value;
    assert StreamInv(cfg, s, cfg.workerOf(c));
    ListeningHasChannel(cfg, s, c);
  }

  lemma {:induction false} ListeningHasChannel(cfg: Config, s: State, c: CommandId)
    requires cfg.Valid() && s.Shaped(cfg) && Inv(cfg, s) && c < cfg.n
    ensures s.calls[c].Listening() ==> c in s.pending
  {
    hide Only, Conserved, NoTerminal, IsComplete, Tag, Left;
    assert CallInv(cfg, s, c);
  }

  /** A worker that is down starts, runs and finishes nothing, and sends no more than it has sent. */
  lemma {:induction false} DownWorkersStop(cfg: Config, trace: seq<Action>, a: Action, w: WorkerKey)
    requires cfg.Valid() && After(cfg, trace).Some? && w < cfg.workerCount
    requires !After(cfg, trace).value.workers[w].up && Enabled(cfg, After(cfg, trace).value, a)
    ensures var s := After(cfg, trace).value;
            var t := Apply(cfg, s, a);
            && (if a == Route(w) then t.workers[w].out == s.workers[w].out[1..] else t.workers[w] == s.workers[w])
            && forall c :: 0 <= c < cfg.n && cfg.workerOf(c) == w ==> t.tasks[c] == s.tasks[c]
  {
    hide After, CallInv;
    RunInv(cfg, trace);
    if a.Receive? {
      assert StreamInv(cfg, After(cfg, trace).value, a.w);
    }
  }

  /** A lost connection keeps the first messages of the stream, whichever they are, and loses the rest and the queue. */
  lemma {:induction false} DisconnectionLosesTheRest(cfg: Config, s: State, w: WorkerKey, kept: nat)
    requires cfg.Valid() && s.Shaped(cfg) && w < cfg.workerCount
    ensures Enabled(cfg, s, Disconnect(w, kept)) <==> s.workers[w].up && kept <= |s.workers[w].out|
    ensures Enabled(cfg, s, Disconnect(w, kept)) ==>
              var t := Apply(cfg, s, Disconnect(w, kept));
              && t.calls == s.calls && t.tasks == s.tasks && t.pending == s.pending
              && t.workers[w] == Worker(false, [], s.workers[w].out[..kept], s.workers[w].permits)
              && forall v :: 0 <= v < cfg.workerCount && v != w ==> t.workers[v] == s.workers[v]
  {
  }
}
