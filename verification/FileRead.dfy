/**
 Reading a file: the worker's chunked read of whatever lengths the operating system returns,
 and the gateway's fold of the collected chunks. The size is taken before the file is opened,
 so it may differ from the length of the content that is then read.
 */
module FileRead {
  import opened Utf8
  import opened WorkerMessages
  import opened Protocol
  import opened ProtocolSafety
  import opened SafePaths

  const CHUNK_SIZE: nat := 4 * 1024 * 1024

  /** How a Rust `usize` or counter ends up in an `i32` field. */
  function AsI32(x: nat): I32 {
    var low := x % 0x1_0000_0000;
    if low < 0x8000_0000 then low else low - 0x1_0000_0000
  }

  function DivCeil(a: nat, b: nat): (q: nat)
    requires b > 0
    ensures (q as int - 1) * b < a <= q * b || (a == 0 && q == 0)
  {
    (a + b - 1) / b
  }

  /** What the worker finds at the path. */
  datatype Source =
    | Refused(error: string)
    | NoMetadata(error: string)
    | CannotOpen(error: string)
    | Opened(fileSize: nat, content: seq<Byte>)

  // ---- What a run of reads sends ----------------------------------------------------------

  /** The bytes carried by the file chunks among `ps`. */
  function ContentOf(ps: seq<Payload>): seq<Byte> {
    if ps == [] then [] else
      var last := ps[|ps| - 1];
      ContentOf(ps[..|ps| - 1]) + if last.FileChunk? then last.content else []
  }

  /** `p` is the chunk with number `i` of a file, starting at `offset`. */
  ghost predicate IsChunk(fileSize: nat, offset: nat, i: nat, p: Payload) {
    && p.FileChunk? && 1 <= |p.content| <= CHUNK_SIZE
    && p.offset == offset && p.chunkIndex == AsI32(i) && p.totalChunks == AsI32(DivCeil(fileSize, CHUNK_SIZE))
    && (p.isLast <==> offset + |p.content| >= fileSize)
  }

  /** `ps` are consecutive chunks, from the start of a file. */
  ghost predicate AreChunks(fileSize: nat, ps: seq<Payload>) {
    forall i :: 0 <= i < |ps| ==> IsChunk(fileSize, |ContentOf(ps[..i])|, i, ps[i])
  }

  /** Everything was read, or the chunks of a proper prefix of the file are followed by an error. */
  ghost predicate IsReadOf(fileSize: nat, content: seq<Byte>, ps: seq<Payload>) {
    || (AreChunks(fileSize, ps) && ContentOf(ps) == content)
    || (&& ps != [] && ps[|ps| - 1].Error? && AreChunks(fileSize, ps[..|ps| - 1])
        && ContentOf(ps[..|ps| - 1]) <= content)
  }

  lemma {:induction false} ContentAppend(ps: seq<Payload>, p: Payload)
    ensures ContentOf(ps + [p]) == ContentOf(ps) + if p.FileChunk? then p.content else []
  {
    assert (ps + [p])[..|ps|] == ps;
  }

  lemma {:induction false} ChunksAppend(fileSize: nat, ps: seq<Payload>, p: Payload)
    requires AreChunks(fileSize, ps) && IsChunk(fileSize, |ContentOf(ps)|, |ps|, p)
    ensures AreChunks(fileSize, ps + [p])
  {
    hide IsChunk;
    var all := ps + [p];
    forall i | 0 <= i < |all| ensures IsChunk(fileSize, |ContentOf(all[..i])|, i, all[i]) {
      if i < |ps| {
        assert all[..i] == ps[..i];
      } else {
        assert all[..i] == ps;
      }
    }
  }

  lemma {:induction false} NothingRead(fileSize: nat)
    ensures AreChunks(fileSize, []) && ContentOf([]) == []
  {
  }

  /** The read loop: each read returns at least one byte and at most a buffer, or fails. */
  method ReadChunks(fileSize: nat, content: seq<Byte>) returns (sent: seq<Payload>)
    ensures IsReadOf(fileSize, content, sent)
  {
    hide AsI32, DivCeil, AreChunks, ContentOf;
    sent := [];
    NothingRead(fileSize);
    var totalChunks := DivCeil(fileSize, CHUNK_SIZE);
    var chunkIndex, offset := 0, 0;
    while true
      invariant 0 <= offset <= |content| && chunkIndex == |sent|
      invariant AreChunks(fileSize, sent) && ContentOf(sent) == content[..offset]
      decreases |content| - offset
    {
      var failed: bool := *;
      if failed {
        var error: string := *;
        assert (sent + [Error(error)])[..chunkIndex] == sent;
        sent := sent + [Error(error)];
        return;
      }
      if offset == |content| {
        break;
      }
      var n: int :| 1 <= n <= CHUNK_SIZE && n <= |content| - offset;
      var isLast := offset + n >= fileSize;
      var chunk := FileChunk(content[offset..offset + n], offset, isLast, AsI32(chunkIndex), AsI32(totalChunks));
      ChunksAppend(fileSize, sent, chunk);
      ContentAppend(sent, chunk);
      assert content[..offset] + content[offset..offset + n] == content[..offset + n];
      sent := sent + [chunk];
      offset := offset + n;
      chunkIndex := chunkIndex + 1;
    }
    assert content[..offset] == content;
  }

  /** The replies of one read command. */
  method HandleRead(resolve: string -> string, found: map<string, Source>, path: string) returns (sent: seq<Payload>)
    ensures var source := SourceAt(resolve, found, path);
            && (source.Opened? ==> IsReadOf(source.fileSize, source.content, sent))
            && (!source.Opened? ==> sent == [Error(source.error)])
  {
    var safePath := ValidatePath(resolve, found.Keys, path);
    if safePath.None? {
      return [Error("permission")];
    }
    var source := found[safePath.value];
    match source {
      case Opened(fileSize, content) => sent := ReadChunks(fileSize, content);
      case _ => sent := [Error(source.error)];
    }
  }

  // ---- The gateway's fold -----------------------------------------------------------------

  datatype ReadResult = Content(bytes: seq<Byte>) | Failed(error: string)

  ghost predicate IsReadResultOf(ps: seq<Payload>, r: ReadResult) {
    match r
    case Failed(error) => exists i :: 0 <= i < |ps| && ps[i] == Error(error) && forall j :: 0 <= j < i ==> !ps[j].Error?
    case Content(bytes) => (forall i :: 0 <= i < |ps| ==> !ps[i].Error?) && bytes == ContentOf(ps)
  }

  method AggregateRead(responses: seq<Payload>) returns (r: ReadResult)
    ensures IsReadResultOf(responses, r)
  {
    var content: seq<Byte> := [];
    for i := 0 to |responses|
      invariant forall j :: 0 <= j < i ==> !responses[j].Error?
      invariant content == ContentOf(responses[..i])
    {
      assert responses[..i + 1][..i] == responses[..i];
      match responses[i] {
        case FileChunk(bytes, _, _, _, _) => content := content + bytes;
        case Error(error) => return Failed(error);
        case _ =>
      }
    }
    assert responses[..|responses|] == responses;
    r := Content(content);
  }

  // ---- Which reads come to an end ---------------------------------------------------------

  lemma {:induction false} PrefixContent(ps: seq<Payload>, k: nat)
    requires k < |ps|
    ensures ContentOf(ps[..k + 1]) == ContentOf(ps[..k]) + if ps[k].FileChunk? then ps[k].content else []
  {
    assert ps[..k + 1][..k] == ps[..k];
  }

  lemma {:induction false} ContentGrows(ps: seq<Payload>, j: nat, k: nat)
    requires j <= k <= |ps|
    ensures ContentOf(ps[..j]) <= ContentOf(ps[..k])
    decreases k
  {
    if j < k {
      ContentGrows(ps, j, k - 1);
      PrefixContent(ps, k - 1);
    }
  }

  /** A chunk is terminal exactly when it reaches the size taken at the start. */
  lemma {:induction false} TerminalAt(fileSize: nat, ps: seq<Payload>, i: nat)
    requires AreChunks(fileSize, ps) && i < |ps|
    ensures IsTerminal(ps[i]) <==> |ContentOf(ps[..i + 1])| >= fileSize
    ensures |ContentOf(ps[..i + 1])| == |ContentOf(ps[..i])| + |ps[i].content|
    ensures ps[i].FileChunk? && 1 <= |ps[i].content| <= CHUNK_SIZE
  {
    hide AsI32, DivCeil, ContentOf;
    assert IsChunk(fileSize, |ContentOf(ps[..i])|, i, ps[i]);
    PrefixContent(ps, i);
  }

  /** Chunks contain a terminal one exactly when there is content and it reaches the size. */
  lemma {:induction false} ChunksTerminate(fileSize: nat, ps: seq<Payload>)
    requires AreChunks(fileSize, ps)
    ensures NoTerminal(ps) <==> ContentOf(ps) == [] || |ContentOf(ps)| < fileSize
  {
    hide AreChunks, IsTerminal;
    var n := |ps|;
    assert ps[..n] == ps;
    if n > 0 {
      TerminalAt(fileSize, ps, n - 1);
      assert ps[..n - 1 + 1] == ps;
      forall i | 0 <= i < n && IsTerminal(ps[i]) ensures IsTerminal(ps[n - 1]) {
        TerminalAt(fileSize, ps, i);
        ContentGrows(ps, i + 1, n);
      }
    }
  }

  /**
   A read that meets no error completes exactly when the file is not empty and at least as
   long as the size taken at the start; a failed read always completes.
   */
  lemma {:induction false} ReadCompletes(fileSize: nat, content: seq<Byte>, ps: seq<Payload>)
    requires IsReadOf(fileSize, content, ps)
    ensures !NoTerminal(ps) <==>
            (ps != [] && ps[|ps| - 1].Error?) || (content != [] && fileSize <= |content|)
  {
    hide AreChunks, ContentOf;
    if AreChunks(fileSize, ps) {
      ChunksTerminate(fileSize, ps);
      NoErrorChunks(fileSize, ps);
    }
  }

  lemma {:induction false} NoErrorChunks(fileSize: nat, ps: seq<Payload>)
    requires AreChunks(fileSize, ps)
    ensures forall i :: 0 <= i < |ps| ==> ps[i].FileChunk?
  {
    hide ContentOf, AsI32, DivCeil;
    forall i | 0 <= i < |ps| ensures ps[i].FileChunk? {
      assert IsChunk(fileSize, |ContentOf(ps[..i])|, i, ps[i]);
    }
  }

  // ---- The round trip ---------------------------------------------------------------------

  /** An unchanged, non-empty file: the last chunk, and no other, is marked last. */
  lemma {:induction false} OnlyFinalChunkIsLast(content: seq<Byte>, ps: seq<Payload>)
    requires content != [] && AreChunks(|content|, ps) && ContentOf(ps) == content
    ensures IsComplete(ps)
  {
    hide AreChunks, IsTerminal;
    var n := |ps|;
    assert ps[..n] == ps;
    forall i | 0 <= i < n ensures IsTerminal(ps[i]) <==> i == n - 1 {
      TerminalAt(|content|, ps, i);
      if i < n - 1 {
        ContentGrows(ps, i + 1, n - 1);
        TerminalAt(|content|, ps, n - 1);
        assert ps[..n - 1 + 1] == ps;
      }
    }
  }

  /** The caller of an error-free read of an unchanged, non-empty file gets exactly its content. */
  lemma {:induction false} ReadRoundTrip(content: seq<Byte>, ps: seq<Payload>, r: ReadResult)
    requires content != [] && AreChunks(|content|, ps) && ContentOf(ps) == content
    requires IsReadResultOf(UpToTerminal(ps), r)
    ensures r == Content(content)
  {
    hide AreChunks, ContentOf, IsComplete;
    OnlyFinalChunkIsLast(content, ps);
    CompleteIsWhole(ps);
    NoErrorChunks(|content|, ps);
  }

  /** Whatever the size said, a read that returns content returns a prefix of the file that reaches it. */
  lemma {:induction false} ReadReturnsPrefix(fileSize: nat, content: seq<Byte>, ps: seq<Payload>, r: ReadResult)
    requires IsReadOf(fileSize, content, ps) && !NoTerminal(ps)
    requires IsReadResultOf(UpToTerminal(ps), r) && r.Content?
    ensures r.bytes <= content && fileSize <= |r.bytes| && r.bytes != []
  {
    hide AreChunks, ContentOf, IsTerminal;
    var k := FirstTerminal(ps);
    var chunks := if AreChunks(fileSize, ps) then ps else ps[..|ps| - 1];
    if AreChunks(fileSize, ps) {
      NoErrorChunks(fileSize, ps);
    }
    assert !UpToTerminal(ps)[k].Error?;
    assert k < |chunks|;
    assert chunks[..|chunks|] == chunks;
    TerminalAt(fileSize, chunks, k);
    ContentGrows(chunks, k + 1, |chunks|);
    assert chunks[..k + 1] == ps[..k + 1];
    assert ContentOf(chunks) <= content;
  }

  lemma {:induction false} FirstTerminal(ps: seq<Payload>) returns (k: nat)
    requires !NoTerminal(ps)
    ensures k < |ps| && IsTerminal(ps[k]) && UpToTerminal(ps) == ps[..k + 1]
  {
    hide IsTerminal;
    if IsTerminal(ps[0]) {
      k := 0;
    } else {
      assert !NoTerminal(ps[1..]) by {
        var i :| 0 <= i < |ps| && IsTerminal(ps[i]);
        assert ps[1..][i - 1] == ps[i];
      }
      var j := FirstTerminal(ps[1..]);
      k := j + 1;
      assert [ps[0]] + ps[1..][..j + 1] == ps[..k + 1];
    }
  }

  // ---- How many chunks --------------------------------------------------------------------

  lemma {:induction false} LengthBound(fileSize: nat, ps: seq<Payload>, k: nat)
    requires AreChunks(fileSize, ps) && k <= |ps|
    ensures |ContentOf(ps[..k])| <= k * CHUNK_SIZE
    ensures (forall i :: 0 <= i < k ==> |ps[i].content| == CHUNK_SIZE) ==> |ContentOf(ps[..k])| == k * CHUNK_SIZE
  {
    hide AreChunks;
    if k > 0 {
      LengthBound(fileSize, ps, k - 1);
      TerminalAt(fileSize, ps, k - 1);
    }
  }

  /** The ceiling is the least number of chunks, reached when only the last read is short. */
  lemma {:induction false} ChunkCount(content: seq<Byte>, ps: seq<Payload>)
    requires content != [] && AreChunks(|content|, ps) && ContentOf(ps) == content
    ensures |ps| >= DivCeil(|content|, CHUNK_SIZE)
    ensures (forall i :: 0 <= i < |ps| - 1 ==> |ps[i].content| == CHUNK_SIZE) ==> |ps| == DivCeil(|content|, CHUNK_SIZE)
  {
    hide AreChunks;
    var n := |ps|;
    assert ps[..n] == ps;
    LengthBound(|content|, ps, n);
    LengthBound(|content|, ps, n - 1);
    TerminalAt(|content|, ps, n - 1);
    assert ps[..n - 1 + 1] == ps;
    CeilingIsLeast(|content|, n);
  }

  lemma {:induction false} CeilingIsLeast(a: nat, q: nat)
    requires a > 0
    ensures a <= q * CHUNK_SIZE ==> q >= DivCeil(a, CHUNK_SIZE)
    ensures a > (q - 1) * CHUNK_SIZE ==> q <= DivCeil(a, CHUNK_SIZE)
  {
  }

  /**
   An error-free read of a file that is not empty numbers its chunks 0, 1, 2 and so on, and each
   announces the least number of chunks of 4 MiB that hold the file. Beyond 2^31 chunks the
   numbers wrap around at 32 bits.
   */
  lemma {:induction false} ChunksAreNumbered(content: seq<Byte>, ps: seq<Payload>, i: nat)
    requires content != [] && AreChunks(|content|, ps) && ContentOf(ps) == content && i < |ps|
    ensures ps[i].FileChunk? && (ps[i].chunkIndex - i) % 0x1_0000_0000 == 0
    ensures -0x8000_0000 <= ps[i].chunkIndex < 0x8000_0000
    ensures |ps| <= 0x7FFF_FFFF ==>
              && ps[i].chunkIndex == i
              && (ps[i].totalChunks - 1) * 4194304 < |content| <= ps[i].totalChunks * 4194304
  {
    hide ContentOf, DivCeil;
    assert IsChunk(|content|, |ContentOf(ps[..i])|, i, ps[i]);
    ChunkCount(content, ps);
    WrapsAround(i);
    WrapsAround(DivCeil(|content|, CHUNK_SIZE));
  }

  lemma {:induction false} WrapsAround(x: nat)
    ensures (AsI32(x) - x) % 0x1_0000_0000 == 0
    ensures x < 0x8000_0000 ==> AsI32(x) == x
  {
  }

  // ---- Only what the path check accepts -----------------------------------------------------

  /** What a read of `path` finds, when `found` says what is at each canonical name that exists. */
  function SourceAt(resolve: string -> string, found: map<string, Source>, path: string): Source {
    match ValidatePath(resolve, found.Keys, path)
    case None => Refused("permission")
    case Some(name) => found[name]
  }

  /**
   A read of a relative path, or of anything outside the sandbox, finds nothing but an error;
   every other path is looked up where it leads.
   */
  lemma {:induction false} ReadsAreConfined(resolve: string -> string, found: map<string, Source>, path: string)
    ensures SourceAt(resolve, found, path) ==
            if "/" <= path && resolve(path) in found && InSandbox(resolve(path)) then found[resolve(path)]
            else Refused("permission")
  {
    hide ValidatePath, InSandbox;
    AcceptedIff(resolve, found.Keys, path);
  }

  // ---- In the protocol --------------------------------------------------------------------

  /**
   In every run, whatever the other commands do, an error-free read of an unchanged file gives
   its caller the file's content; and if the file is empty the call never succeeds at all.
   */
  lemma {:induction false} ReadEndToEnd(
      cfg: Config, trace: seq<Action>, c: CommandId, content: seq<Byte>, r: ReadResult)
    requires cfg.Valid() && After(cfg, trace).Some? && c < cfg.n
    requires AreChunks(|content|, cfg.replies(c)) && ContentOf(cfg.replies(c)) == content
    requires var call := After(cfg, trace).value.calls[c];
             call.Done? && call.result.Success? && IsReadResultOf(Payloads(call.result.messages), r)
    ensures content != [] && r == Content(content)
  {
    hide AreChunks, ContentOf, After;
    CallersGetTheirOwn(cfg, trace, c);
    ChunksTerminate(|content|, cfg.replies(c));
    var ms := After(cfg, trace).value.calls[c].result.messages;
    assert Payloads(ms) == UpToTerminal(cfg.replies(c));
    ReadRoundTrip(content, cfg.replies(c), r);
  }
}
