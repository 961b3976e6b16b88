/**
 Running a command: what the worker's task replies, how the gateway folds the collected
 replies into a result, and how the streaming variant forwards and folds them instead.
 */
module RunCommand {
  import opened Wrappers
  import opened Utf8
  import opened WorkerMessages
  import opened Protocol
  import opened ProtocolSafety

  /** What `execute_command` returned on the worker. */
  datatype Outcome = Ran(stdout: seq<Byte>, stderr: seq<Byte>, exitCode: I32) | Failed(error: string)

  /** The messages the worker's task sends for one Run command. */
  function RunReplies(o: Outcome, durationMs: nat): seq<Payload> {
    [Ack] +
    match o
    case Ran(stdout, stderr, exitCode) =>
      (if stdout != [] then [Stdout(stdout)] else [])
      + (if stderr != [] then [Stderr(stderr)] else [])
      + [Exit(exitCode, durationMs, false)]
    case Failed(error) => [Error(error)]
  }

  datatype CommandResult = CommandResult(
    exitCode: I32, stdout: seq<Byte>, stderr: seq<Byte>, durationMs: int, timedOut: bool)

  datatype RunResult = Ok(value: CommandResult) | Err(error: string)

  // ---- Specification of the fold ---------------------------------------------------

  function StdoutOf(ps: seq<Payload>): seq<Byte> {
    if ps == [] then [] else
      var last := ps[|ps| - 1];
      StdoutOf(ps[..|ps| - 1]) + if last.Stdout? then last.data else []
  }

  function StderrOf(ps: seq<Payload>): seq<Byte> {
    if ps == [] then [] else
      var last := ps[|ps| - 1];
      StderrOf(ps[..|ps| - 1]) + if last.Stderr? then last.data else []
  }

  /** The last Exit message, or the values the gateway starts from. */
  function ExitOf(ps: seq<Payload>): Payload
    ensures ExitOf(ps).Exit?
  {
    if ps == [] then Exit(-1, 0, false)
    else if ps[|ps| - 1].Exit? then ps[|ps| - 1]
    else ExitOf(ps[..|ps| - 1])
  }

  /** `r` is the first error among `ps`, or else everything that was written and the last exit. */
  ghost predicate IsResultOf(ps: seq<Payload>, r: RunResult) {
    match r
    case Err(error) => exists i :: 0 <= i < |ps| && ps[i] == Error(error) && forall j :: 0 <= j < i ==> !ps[j].Error?
    case Ok(value) =>
      && (forall i :: 0 <= i < |ps| ==> !ps[i].Error?)
      && value.stdout == StdoutOf(ps) && value.stderr == StderrOf(ps)
      && Exit(value.exitCode, value.durationMs, value.timedOut) == ExitOf(ps)
  }

  /** The gateway's fold in `route_run_command`. */
  method AggregateRun(responses: seq<Payload>) returns (r: RunResult)
    ensures IsResultOf(responses, r)
  {
    var stdout: seq<Byte> := [];
    var stderr: seq<Byte> := [];
    var exitCode: I32 := -1;
    var durationMs: int := 0;
    var timedOut := false;
    for i := 0 to |responses|
      invariant forall j :: 0 <= j < i ==> !responses[j].Error?
      invariant stdout == StdoutOf(responses[..i]) && stderr == StderrOf(responses[..i])
      invariant Exit(exitCode, durationMs, timedOut) == ExitOf(responses[..i])
    {
      assert responses[..i + 1][..i] == responses[..i];
      match responses[i] {
        case Stdout(data) => stdout := stdout + data;
        case Stderr(data) => stderr := stderr + data;
        case Exit(code, duration, expired) =>
          exitCode := code;
          durationMs := duration;
          timedOut := expired;
        case Error(error) => return Err(error);
        case _ =>
      }
    }
    assert responses[..|responses|] == responses;
    r := Ok(CommandResult(exitCode, stdout, stderr, durationMs, timedOut));
  }

  /** A message sequence has one result only. */
  lemma {:induction false} ResultIsUnique(ps: seq<Payload>, r1: RunResult, r2: RunResult)
    requires IsResultOf(ps, r1) && IsResultOf(ps, r2)
    ensures r1 == r2
  {
  }

  // ---- The worker's replies determine the caller's result --------------------------

  function Expected(o: Outcome, durationMs: nat): RunResult {
    match o
    case Ran(stdout, stderr, exitCode) => Ok(CommandResult(exitCode, stdout, stderr, durationMs, false))
    case Failed(error) => Err(error)
  }

  lemma {:induction false} RunRepliesComplete(o: Outcome, durationMs: nat)
    ensures IsComplete(RunReplies(o, durationMs))
  {
  }

  lemma {:induction false} AppendPayload(ps: seq<Payload>, p: Payload)
    ensures StdoutOf(ps + [p]) == StdoutOf(ps) + if p.Stdout? then p.data else []
    ensures StderrOf(ps + [p]) == StderrOf(ps) + if p.Stderr? then p.data else []
    ensures ExitOf(ps + [p]) == if p.Exit? then p else ExitOf(ps)
  {
    assert (ps + [p])[..|ps|] == ps;
  }

  lemma {:induction false} NoOutput()
    ensures StdoutOf([]) == [] && StderrOf([]) == [] && ExitOf([]) == Exit(-1, 0, false)
  {
  }

  lemma {:induction false} RunRepliesResult(o: Outcome, durationMs: nat)
    ensures IsResultOf(RunReplies(o, durationMs), Expected(o, durationMs))
  {
    match o {
      case Failed(error) => assert RunReplies(o, durationMs)[1] == Error(error);
      case Ran(stdout, stderr, exitCode) =>
        hide StdoutOf, StderrOf, ExitOf;
        NoOutput();
        var acked := [] + [Ack];
        var written := if stdout != [] then acked + [Stdout(stdout)] else acked;
        var both := if stderr != [] then written + [Stderr(stderr)] else written;
        var exit: Payload := Exit(exitCode, durationMs, false);
        assert RunReplies(o, durationMs) == both + [exit];
        AppendPayload([], Ack);
        AppendPayload(acked, Stdout(stdout));
        AppendPayload(written, Stderr(stderr));
        AppendPayload(both, exit);
    }
  }

  /**
   End to end: in every run, whatever the other commands do, a Run call that succeeds gives its
   caller exactly the output and exit code, or the error, of its own command.
   */
  lemma {:induction false} RunEndToEnd(
      cfg: Config, trace: seq<Action>, c: CommandId, o: Outcome, durationMs: nat, r: RunResult)
    requires cfg.Valid() && After(cfg, trace).Some? && c < cfg.n
    requires cfg.replies(c) == RunReplies(o, durationMs)
    requires var call := After(cfg, trace).value.calls[c];
             call.Done? && call.result.Success? && IsResultOf(Payloads(call.result.messages), r)
    ensures r == Expected(o, durationMs)
  {
    hide After, RunReplies, IsResultOf, IsComplete;
    CallersGetTheirOwn(cfg, trace, c);
    RunRepliesComplete(o, durationMs);
    CompleteIsWhole(cfg.replies(c));
    var ms := After(cfg, trace).value.calls[c].result.messages;
    assert Payloads(ms) == cfg.replies(c);
    RunRepliesResult(o, durationMs);
    ResultIsUnique(cfg.replies(c), r, Expected(o, durationMs));
  }

  // ---- Streaming --------------------------------------------------------------------

  datatype ChunkType = StdoutChunk | StderrChunk | ExitCodeChunk

  /** One item of a command stream: a chunk, or the error that ends the stream. */
  datatype StreamItem = Chunk(kind: ChunkType, bytes: seq<Byte>) | StreamError(error: string)

  /** The little-endian bytes of a 32-bit integer in two's complement. */
  function ToLittleEndian(x: I32): (bytes: seq<Byte>)
    ensures |bytes| == 4
  {
    var u: nat := if x < 0 then x + 0x1_0000_0000 else x;
    var h := u / 0x100;
    var k := h / 0x100;
    [u % 0x100, h % 0x100, k % 0x100, k / 0x100]
  }

  function FromLittleEndian(bytes: seq<Byte>): I32
    requires |bytes| >= 4
  {
    var u: int := bytes[0] as int + 0x100 * (bytes[1] as int + 0x100 * (bytes[2] as int + 0x100 * bytes[3] as int));
    if u >= 0x8000_0000 then u - 0x1_0000_0000 else u
  }

  lemma {:induction false} LittleEndianRoundTrip(x: I32)
    ensures FromLittleEndian(ToLittleEndian(x)) == x
  {
  }

  /** The forwarding task of `route_run_command_stream`. */
  method ForwardStream(received: seq<Payload>) returns (items: seq<StreamItem>)
    ensures items == Forwarded(received)
  {
    items := [];
    for i := 0 to |received|
      invariant items + Forwarded(received[i..]) == Forwarded(received)
    {
      assert received[i..][1..] == received[i + 1..];
      match received[i] {
        case Stdout(data) => items := items + [Chunk(StdoutChunk, data)];
        case Stderr(data) => items := items + [Chunk(StderrChunk, data)];
        case Exit(code, _, _) => return items + [Chunk(ExitCodeChunk, ToLittleEndian(code))];
        case Error(error) => return items + [StreamError(error)];
        case _ =>
      }
    }
  }

  function Forwarded(ps: seq<Payload>): seq<StreamItem> {
    if ps == [] then [] else
      match ps[0]
      case Stdout(data) => [Chunk(StdoutChunk, data)] + Forwarded(ps[1..])
      case Stderr(data) => [Chunk(StderrChunk, data)] + Forwarded(ps[1..])
      case Exit(code, _, _) => [Chunk(ExitCodeChunk, ToLittleEndian(code))]
      case Error(error) => [StreamError(error)]
      case _ => Forwarded(ps[1..])
  }

  function Joined(parts: seq<seq<Byte>>): seq<Byte> {
    if parts == [] then [] else Joined(parts[..|parts| - 1]) + parts[|parts| - 1]
  }

  datatype StreamResult = StreamResult(exitCode: I32, stdout: seq<Byte>, stderr: seq<Byte>)

  /**
   The fold of `sandbox_run_stream`. Each chunk is decoded on its own by `decode`, which
   stands for Rust's lossy UTF-8 decoding; `describe` is the text shown for a stream error.
   */
  method FoldStream(items: seq<StreamItem>, decode: seq<Byte> -> seq<Byte>, describe: string -> seq<Byte>)
    returns (r: StreamResult)
    ensures r == Folded(items, decode, describe)
  {
    var stdoutParts: seq<seq<Byte>> := [];
    var stderrParts: seq<seq<Byte>> := [];
    var exitCode: I32 := -1;
    for i := 0 to |items|
      invariant StreamResult(exitCode, Joined(stdoutParts), Joined(stderrParts)) == Folded(items[..i], decode, describe)
    {
      assert items[..i + 1][..i] == items[..i];
      match items[i] {
        case Chunk(StdoutChunk, bytes) =>
          assert (stdoutParts + [decode(bytes)])[..|stdoutParts|] == stdoutParts;
          stdoutParts := stdoutParts + [decode(bytes)];
        case Chunk(StderrChunk, bytes) =>
          assert (stderrParts + [decode(bytes)])[..|stderrParts|] == stderrParts;
          stderrParts := stderrParts + [decode(bytes)];
        case Chunk(ExitCodeChunk, bytes) =>
          if |bytes| >= 4 {
            exitCode := FromLittleEndian(bytes[..4]);
          }
        case StreamError(error) =>
          assert (stderrParts + [describe(error)])[..|stderrParts|] == stderrParts;
          stderrParts := stderrParts + [describe(error)];
      }
    }
    assert items[..|items|] == items;
    r := StreamResult(exitCode, Joined(stdoutParts), Joined(stderrParts));
  }

  function Folded(items: seq<StreamItem>, decode: seq<Byte> -> seq<Byte>, describe: string -> seq<Byte>): StreamResult {
    if items == [] then StreamResult(-1, [], []) else
      var r := Folded(items[..|items| - 1], decode, describe);
      match items[|items| - 1]
      case Chunk(StdoutChunk, bytes) => r.(stdout := r.stdout + decode(bytes))
      case Chunk(StderrChunk, bytes) => r.(stderr := r.stderr + decode(bytes))
      case Chunk(ExitCodeChunk, bytes) => if |bytes| >= 4 then r.(exitCode := FromLittleEndian(bytes[..4])) else r
      case StreamError(error) => r.(stderr := r.stderr + describe(error))
  }

  lemma {:induction false} FoldedAppend(
    items: seq<StreamItem>, x: StreamItem, decode: seq<Byte> -> seq<Byte>, describe: string -> seq<Byte>)
    ensures Folded(items + [x], decode, describe) ==
            var r := Folded(items, decode, describe);
            match x
            case Chunk(StdoutChunk, bytes) => r.(stdout := r.stdout + decode(bytes))
            case Chunk(StderrChunk, bytes) => r.(stderr := r.stderr + decode(bytes))
            case Chunk(ExitCodeChunk, bytes) => if |bytes| >= 4 then r.(exitCode := FromLittleEndian(bytes[..4])) else r
            case StreamError(error) => r.(stderr := r.stderr + describe(error))
  {
    assert (items + [x])[..|items|] == items;
  }

  /** Forwarding output without an end adds a chunk per output message. */
  lemma {:induction false} ForwardedAppend(ps: seq<Payload>, p: Payload)
    requires forall i :: 0 <= i < |ps| ==> !ps[i].Exit? && !ps[i].Error?
    ensures Forwarded(ps + [p]) == Forwarded(ps) + Forwarded([p])
  {
    if ps == [] {
      assert [] + [p] == [p];
    } else {
      ForwardedAppend(ps[1..], p);
      assert (ps + [p])[1..] == ps[1..] + [p];
    }
  }

  function DecodedStdout(ps: seq<Payload>, decode: seq<Byte> -> seq<Byte>): seq<Byte> {
    if ps == [] then [] else
      var last := ps[|ps| - 1];
      DecodedStdout(ps[..|ps| - 1], decode) + if last.Stdout? then decode(last.data) else []
  }

  function DecodedStderr(ps: seq<Payload>, decode: seq<Byte> -> seq<Byte>): seq<Byte> {
    if ps == [] then [] else
      var last := ps[|ps| - 1];
      DecodedStderr(ps[..|ps| - 1], decode) + if last.Stderr? then decode(last.data) else []
  }

  /** Output without an end: the stream carries every chunk, decoded on its own, in order. */
  lemma {:induction false} OutputFolds(ps: seq<Payload>, decode: seq<Byte> -> seq<Byte>, describe: string -> seq<Byte>)
    requires forall i :: 0 <= i < |ps| ==> !ps[i].Exit? && !ps[i].Error?
    ensures Folded(Forwarded(ps), decode, describe) ==
            StreamResult(-1, DecodedStdout(ps, decode), DecodedStderr(ps, decode))
  {
    if ps != [] {
      var front, last := ps[..|ps| - 1], ps[|ps| - 1];
      OutputFolds(front, decode, describe);
      ForwardedAppend(front, last);
      assert front + [last] == ps;
      if last.Stdout? {
        FoldedAppend(Forwarded(front), Chunk(StdoutChunk, last.data), decode, describe);
      } else if last.Stderr? {
        FoldedAppend(Forwarded(front), Chunk(StderrChunk, last.data), decode, describe);
      } else {
        assert Forwarded(front) + Forwarded([last]) == Forwarded(front);
      }
    }
  }

  lemma {:induction false} StreamedExit(
    ps: seq<Payload>, exit: Payload, decode: seq<Byte> -> seq<Byte>, describe: string -> seq<Byte>)
    requires forall i :: 0 <= i < |ps| ==> !ps[i].Exit? && !ps[i].Error?
    requires exit.Exit?
    ensures Folded(Forwarded(ps + [exit]), decode, describe) ==
            StreamResult(exit.exitCode, DecodedStdout(ps, decode), DecodedStderr(ps, decode))
  {
    hide ToLittleEndian, FromLittleEndian, DecodedStdout, DecodedStderr;
    OutputFolds(ps, decode, describe);
    ForwardedAppend(ps, exit);
    var bytes := ToLittleEndian(exit.exitCode);
    FoldedAppend(Forwarded(ps), Chunk(ExitCodeChunk, bytes), decode, describe);
    assert bytes[..4] == bytes;
    LittleEndianRoundTrip(exit.exitCode);
  }

  lemma {:induction false} CollectedExit(ps: seq<Payload>, exit: Payload, r: RunResult)
    requires forall i :: 0 <= i < |ps| ==> !ps[i].Exit? && !ps[i].Error?
    requires exit.Exit? && IsResultOf(ps + [exit], r)
    ensures r == Ok(CommandResult(exit.exitCode, StdoutOf(ps), StderrOf(ps), exit.durationMs, exit.timedOut))
  {
    AppendPayload(ps, exit);
    assert forall i :: 0 <= i < |ps + [exit]| ==> !(ps + [exit])[i].Error?;
  }

  /**
   On every output sequence that ends in an Exit message, whatever its bytes and however they
   are decoded, streaming reports the collected exit code, and each output as the decoded
   chunks in order where collecting reports the chunks themselves.
   */
  lemma {:induction false} StreamingAgrees(
    ps: seq<Payload>, exit: Payload, r: RunResult, decode: seq<Byte> -> seq<Byte>, describe: string -> seq<Byte>)
    requires forall i :: 0 <= i < |ps| ==> !ps[i].Exit? && !ps[i].Error?
    requires exit.Exit? && IsResultOf(ps + [exit], r)
    ensures r.Ok? && r.value.stdout == StdoutOf(ps) && r.value.stderr == StderrOf(ps)
    ensures Folded(Forwarded(ps + [exit]), decode, describe) ==
            StreamResult(r.value.exitCode, DecodedStdout(ps, decode), DecodedStderr(ps, decode))
  {
    hide Folded, Forwarded, IsResultOf;
    StreamedExit(ps, exit, decode, describe);
    CollectedExit(ps, exit, r);
  }

  /**
   What is known of lossy decoding: it keeps well-formed text and nothing else, because its
   result is text, and it never shortens, because what it replaces is at most three bytes
   long and the replacement character has three.
   */
  ghost predicate IsLossy(decode: seq<Byte> -> seq<Byte>) {
    forall s: seq<Byte> :: |decode(s)| >= |s| && (decode(s) == s <==> WellFormed(s))
  }

  ghost predicate StdoutIsText(ps: seq<Payload>) {
    forall i :: 0 <= i < |ps| && ps[i].Stdout? ==> WellFormed(ps[i].data)
  }

  ghost predicate StderrIsText(ps: seq<Payload>) {
    forall i :: 0 <= i < |ps| && ps[i].Stderr? ==> WellFormed(ps[i].data)
  }

  /** Decoding changes an output exactly when it changes some chunk of it. */
  lemma {:induction false} DecodingIsExact(ps: seq<Payload>, decode: seq<Byte> -> seq<Byte>)
    requires IsLossy(decode)
    ensures |DecodedStdout(ps, decode)| >= |StdoutOf(ps)| && |DecodedStderr(ps, decode)| >= |StderrOf(ps)|
    ensures DecodedStdout(ps, decode) == StdoutOf(ps) <==> StdoutIsText(ps)
    ensures DecodedStderr(ps, decode) == StderrOf(ps) <==> StderrIsText(ps)
  {
    if ps != [] {
      hide WellFormed, StdoutOf, StderrOf, DecodedStdout, DecodedStderr, StdoutIsText, StderrIsText;
      var front, last := ps[..|ps| - 1], ps[|ps| - 1];
      DecodingIsExact(front, decode);
      assert front + [last] == ps;
      TextAppend(front, last);
      AppendPayload(front, last);
      DecodedAppend(front, last, decode);
      assert StdoutOf(front) + [] == StdoutOf(front) && StderrOf(front) + [] == StderrOf(front);
      if last.Stdout? {
        SameParts(DecodedStdout(front, decode), decode(last.data), StdoutOf(front), last.data);
      } else if last.Stderr? {
        SameParts(DecodedStderr(front, decode), decode(last.data), StderrOf(front), last.data);
      }
    }
  }

  lemma {:induction false} DecodedAppend(ps: seq<Payload>, p: Payload, decode: seq<Byte> -> seq<Byte>)
    ensures DecodedStdout(ps + [p], decode) ==
            if p.Stdout? then DecodedStdout(ps, decode) + decode(p.data) else DecodedStdout(ps, decode)
    ensures DecodedStderr(ps + [p], decode) ==
            if p.Stderr? then DecodedStderr(ps, decode) + decode(p.data) else DecodedStderr(ps, decode)
  {
    assert (ps + [p])[..|ps|] == ps;
  }

  lemma {:induction false} TextAppend(ps: seq<Payload>, p: Payload)
    ensures StdoutIsText(ps + [p]) <==> StdoutIsText(ps) && (p.Stdout? ==> WellFormed(p.data))
    ensures StderrIsText(ps + [p]) <==> StderrIsText(ps) && (p.Stderr? ==> WellFormed(p.data))
  {
    hide WellFormed;
    var all := ps + [p];
    assert all[|ps|] == p && forall i :: 0 <= i < |ps| ==> all[i] == ps[i];
  }

  /** Two concatenations of parts of which none is shorter are equal only part by part. */
  lemma {:induction false} SameParts(a1: seq<Byte>, b1: seq<Byte>, a2: seq<Byte>, b2: seq<Byte>)
    requires |a1| >= |a2| && |b1| >= |b2|
    ensures |a1 + b1| >= |a2 + b2|
    ensures a1 + b1 == a2 + b2 <==> a1 == a2 && b1 == b2
  {
    if a1 + b1 == a2 + b2 {
      assert (a1 + b1)[..|a1|] == a1 && (a2 + b2)[..|a1|] == a2;
      assert (a1 + b1)[|a1|..] == b1 && (a2 + b2)[|a1|..] == b2;
    }
  }

  /** Streaming and collecting give the same bytes of an output exactly when each of its chunks is text on its own. */
  lemma {:induction false} StreamingAgreesIff(
    ps: seq<Payload>, exit: Payload, r: RunResult, decode: seq<Byte> -> seq<Byte>, describe: string -> seq<Byte>)
    requires forall i :: 0 <= i < |ps| ==> !ps[i].Exit? && !ps[i].Error?
    requires exit.Exit? && IsResultOf(ps + [exit], r) && IsLossy(decode)
    ensures r.Ok?
    ensures var streamed := Folded(Forwarded(ps + [exit]), decode, describe);
            && streamed.exitCode == r.value.exitCode
            && (streamed.stdout == r.value.stdout <==> StdoutIsText(ps))
            && (streamed.stderr == r.value.stderr <==> StderrIsText(ps))
  {
    hide Folded, Forwarded, IsResultOf, StdoutIsText, StderrIsText, IsLossy;
    StreamingAgrees(ps, exit, r, decode, describe);
    DecodingIsExact(ps, decode);
  }

  /** A character whose two bytes arrive in two chunks is collected, but not streamed. */
  lemma {:induction false} SplitCharacterIsLost(
      r: RunResult, decode: seq<Byte> -> seq<Byte>, describe: string -> seq<Byte>)
    requires IsLossy(decode)
    requires IsResultOf([Stdout([0xC3]), Stdout([0xA9]), Exit(0, 0, false)], r)
    ensures r.Ok? && r.value.stdout == [0xC3, 0xA9] && WellFormed(r.value.stdout)
    ensures var items := Forwarded([Stdout([0xC3]), Stdout([0xA9]), Exit(0, 0, false)]);
            Folded(items, decode, describe).stdout != r.value.stdout
  {
    hide Folded, Forwarded, IsResultOf, StdoutOf, WellFormed, IsLossy;
    var ps: seq<Payload>, exit: Payload := [Stdout([0xC3]), Stdout([0xA9])], Exit(0, 0, false);
    assert ps + [exit] == [Stdout([0xC3]), Stdout([0xA9]), Exit(0, 0, false)];
    TwoHalves();
    assert ps[0] == Stdout([0xC3]);
    StreamingAgreesIff(ps, exit, r, decode, describe);
    StreamingAgrees(ps, exit, r, decode, describe);
    AppendPayload([], ps[0]);
    AppendPayload([ps[0]], ps[1]);
    assert ps == [ps[0]] + [ps[1]] && [ps[0]] == [] + [ps[0]];
    assert StdoutOf([]) == [] by { NoOutput(); }
  }

  lemma {:induction false} TwoHalves()
    ensures !WellFormed([0xC3]) && WellFormed([0xC3, 0xA9])
  {
    assert [0xC3, 0xA9][..2] == [0xC3, 0xA9] && [0xC3, 0xA9][2..] == [];
  }

  /**
   On a sequence that ends in an Error message the two differ in form: collecting reports the
   error, streaming reports exit code -1 and appends the error's description to stderr.
   */
  lemma {:induction false} StreamingOnError(
    ps: seq<Payload>, error: string, decode: seq<Byte> -> seq<Byte>, describe: string -> seq<Byte>)
    requires forall i :: 0 <= i < |ps| ==> !ps[i].Exit? && !ps[i].Error?
    ensures IsResultOf(ps + [Error(error)], Err(error))
    ensures Folded(Forwarded(ps + [Error(error)]), decode, describe) ==
            StreamResult(-1, DecodedStdout(ps, decode), DecodedStderr(ps, decode) + describe(error))
  {
    hide DecodedStdout, DecodedStderr;
    OutputFolds(ps, decode, describe);
    ForwardedAppend(ps, Error(error));
    FoldedAppend(Forwarded(ps), StreamError(error), decode, describe);
    assert (ps + [Error(error)])[|ps|] == Error(error);
  }
}
