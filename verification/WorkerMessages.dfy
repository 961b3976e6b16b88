/** The messages a worker sends back, and which of them end a collected command. */
module WorkerMessages {
  import opened Utf8

  type I32 = x: int | -0x8000_0000 <= x < 0x8000_0000

  datatype FileEntry = FileEntry(path: string, isDirectory: bool, size: int)

  datatype Payload =
    | Ack
    | Stdout(data: seq<Byte>)
    | Stderr(data: seq<Byte>)
    | Exit(exitCode: I32, durationMs: int, timedOut: bool)
    | Error(error: string)
    | FileList(entries: seq<FileEntry>)
    | FileChunk(content: seq<Byte>, offset: int, isLast: bool, chunkIndex: int, totalChunks: int)
    | Pong

  /** The collector stops at the first of these. */
  predicate IsTerminal(p: Payload) {
    match p
    case Exit(_, _, _) => true
    case Error(_) => true
    case FileList(_) => true
    case FileChunk(_, _, isLast, _, _) => isLast
    case _ => false
  }

  ghost predicate NoTerminal(ps: seq<Payload>) {
    forall i :: 0 <= i < |ps| ==> !IsTerminal(ps[i])
  }

  /** A non-empty sequence whose last message, and no other, is terminal. */
  ghost predicate IsComplete(ps: seq<Payload>) {
    ps != [] && forall i :: 0 <= i < |ps| ==> (IsTerminal(ps[i]) <==> i == |ps| - 1)
  }

  /** The collector's receive loop, over everything its channel will ever deliver. */
  method CollectUntilTerminal(received: seq<Payload>) returns (messages: seq<Payload>, complete: bool)
    ensures messages == UpToTerminal(received)
    ensures complete <==> !NoTerminal(received)
  {
    messages := [];
    for i := 0 to |received|
      invariant messages == received[..i] && NoTerminal(received[..i])
    {
      messages := messages + [received[i]];
      if IsTerminal(received[i]) {
        assert messages == received[..i + 1];
        assert forall k :: 0 <= k < i ==> received[..i + 1][k] == received[..i][k];
        CompletePrefix(received, i + 1);
        return messages, true;
      }
    }
    assert received[..|received|] == received;
    NeverComplete(received);
    complete := false;
  }

  /** The messages up to and including the first terminal one. */
  function UpToTerminal(ps: seq<Payload>): (r: seq<Payload>) {
    if ps == [] || IsTerminal(ps[0]) then ps[..if ps == [] then 0 else 1] else [ps[0]] + UpToTerminal(ps[1..])
  }

  /** A complete prefix can only be the one up to the first terminal message. */
  lemma {:induction false} CompletePrefix(ps: seq<Payload>, n: nat)
    requires n <= |ps| && IsComplete(ps[..n])
    ensures UpToTerminal(ps) == ps[..n] && !NoTerminal(ps)
  {
    assert ps[..n][n - 1] == ps[n - 1] && ps[..n][0] == ps[0];
    if n > 1 {
      var rest := ps[1..];
      var head := rest[..n - 1];
      assert forall i :: 0 <= i < |head| ==> head[i] == ps[..n][i + 1];
      CompletePrefix(rest, n - 1);
      assert [ps[0]] + rest[..n - 1] == ps[..n];
    }
  }

  lemma {:induction false} NeverComplete(ps: seq<Payload>)
    requires NoTerminal(ps)
    ensures UpToTerminal(ps) == ps
  {
    if ps != [] {
      NeverComplete(ps[1..]);
    }
  }

  /** A complete sequence is its own prefix up to the terminal message. */
  lemma {:induction false} CompleteIsWhole(ps: seq<Payload>)
    requires IsComplete(ps)
    ensures UpToTerminal(ps) == ps
  {
    assert ps[..|ps|] == ps;
    CompletePrefix(ps, |ps|);
  }
}
