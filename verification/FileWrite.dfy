/**
 Writing files on a worker: whole files, files accumulated from chunks under the command id,
 and appended chunks. Symbolic links are resolved by a fixed function; a path resolves only if
 its file exists.
 */
module FileWrite {
  import opened Utf8
  import opened Wrappers
  import opened WorkerMessages
  import opened Protocol
  import opened ProtocolSafety
  import opened SafePaths

  type Bytes = seq<Byte>

  datatype Request = Request(id: string, path: string, chunkIndex: I32, totalChunks: I32, content: Bytes)

  /** What the operating system does with an accepted write: all of it, nothing, or the first bytes. */
  datatype Fault = NoFault | CannotOpen(error: string) | Interrupted(written: nat, error: string)

  datatype Disk = Disk(files: map<string, Bytes>, pending: map<string, Bytes>)

  // ---- One request ------------------------------------------------------------------------

  function Prefix(b: Bytes, n: nat): Bytes {
    b[..if n < |b| then n else |b|]
  }

  /** The file `p` after `data` was written over it, or after the bytes of `keep`. */
  function Store(files: map<string, Bytes>, p: string, keep: Bytes, data: Bytes, fault: Fault): map<string, Bytes> {
    match fault
    case NoFault => files[p := keep + data]
    case CannotOpen(_) => files
    case Interrupted(written, _) => files[p := keep + Prefix(data, written)]
  }

  function ReplyTo(fault: Fault): Payload {
    if fault.NoFault? then Ack else Error(fault.error)
  }

  function PendingOf(d: Disk, id: string): Bytes {
    if id in d.pending then d.pending[id] else []
  }

  /** The 32-bit successor: the largest index wraps around. */
  function Successor(i: I32): I32 {
    if i == 0x7FFF_FFFF then -0x8000_0000 else i + 1
  }

  function Handle(resolve: string -> string, d: Disk, r: Request, fault: Fault): Disk {
    match ValidatePath(resolve, d.files.Keys, r.path)
    case None => d
    case Some(p) =>
      if r.totalChunks == 1 then
        d.(files := Store(d.files, p, [], r.content, fault))
      else if r.totalChunks > 1 then
        if Successor(r.chunkIndex) == r.totalChunks then
          Disk(Store(d.files, p, [], PendingOf(d, r.id) + r.content, fault), d.pending - {r.id})
        else
          d.(pending := d.pending[r.id := PendingOf(d, r.id) + r.content])
      else
        d.(files := Store(d.files, p, if p in d.files then d.files[p] else [], r.content, fault))
  }

  /** The answer to a request; a chunk that is only accumulated is always acknowledged. */
  function Reply(resolve: string -> string, d: Disk, r: Request, fault: Fault): Payload {
    if ValidatePath(resolve, d.files.Keys, r.path).None? then Error("permission")
    else if r.totalChunks > 1 && Successor(r.chunkIndex) != r.totalChunks then Ack
    else ReplyTo(fault)
  }

  /** The state of a worker's disk, and the request handler that updates it. */
  class WorkerFiles {
    var files: map<string, Bytes>
    var pendingWrites: map<string, Bytes>
    const resolve: string -> string

    constructor (files: map<string, Bytes>, resolve: string -> string)
      ensures Contents() == Disk(files, map[]) && this.resolve == resolve
    {
      this.files, this.pendingWrites, this.resolve := files, map[], resolve;
    }

    function Contents(): Disk
      reads this
    {
      Disk(files, pendingWrites)
    }

    method WriteFile(p: string, data: Bytes, fault: Fault)
      modifies this`files
      ensures files == Store(old(files), p, [], data, fault)
    {
      match fault {
        case NoFault => files := files[p := data]; assert data == [] + data;
        case CannotOpen(_) =>
        case Interrupted(written, _) => files := files[p := Prefix(data, written)];
          assert Prefix(data, written) == [] + Prefix(data, written);
      }
    }

    method HandleWrite(r: Request, fault: Fault) returns (reply: Payload)
      modifies this
      ensures Contents() == Handle(resolve, old(Contents()), r, fault)
      ensures reply == Reply(resolve, old(Contents()), r, fault)
    {
      var safePath := ValidatePath(resolve, files.Keys, r.path);
      if safePath.None? {
        return Error("permission");
      }
      if r.totalChunks == 1 {
        WriteFile(safePath.value, r.content, fault);
        reply := ReplyTo(fault);
      } else if r.totalChunks > 1 {
        var accumulated := (if r.id in pendingWrites then pendingWrites[r.id] else []) + r.content;
        if Successor(r.chunkIndex) == r.totalChunks {
          pendingWrites := pendingWrites - {r.id};
          WriteFile(safePath.value, accumulated, fault);
          reply := ReplyTo(fault);
        } else {
          pendingWrites := pendingWrites[r.id := accumulated];
          reply := Ack;
        }
      } else {
        var existing := if safePath.value in files then files[safePath.value] else [];
        match fault {
          case NoFault => files := files[safePath.value := existing + r.content];
          case CannotOpen(_) =>
          case Interrupted(written, _) => files := files[safePath.value := existing + Prefix(r.content, written)];
        }
        reply := ReplyTo(fault);
      }
    }
  }

  // ---- Absent files -----------------------------------------------------------------------

  /**
   A write to a file that does not exist is refused in every mode and changes nothing; no write
   ever creates a file.
   */
  lemma {:induction false} AbsentFilesStayAbsent(resolve: string -> string, d: Disk, r: Request, fault: Fault)
    ensures Handle(resolve, d, r, fault).files.Keys == d.files.Keys
    ensures resolve(r.path) !in d.files ==> Handle(resolve, d, r, fault) == d
  {
  }

  /**
   Whatever the outcome of the write call, a request touches only its own file and its own
   pending entry; the file is left alone or holds a prefix of what was intended; and the last
   chunk of an accepted request leaves no pending entry.
   */
  lemma {:induction false} FailuresAreContained(resolve: string -> string, d: Disk, r: Request, fault: Fault)
    ensures var after, intended := Handle(resolve, d, r, fault), Handle(resolve, d, r, NoFault);
            && (forall q :: q in d.files && q != resolve(r.path) ==> q in after.files && after.files[q] == d.files[q])
            && (forall id :: id != r.id ==> (id in after.pending <==> id in d.pending))
            && (forall id :: id != r.id && id in d.pending && id in after.pending ==>
              after.pending[id] == d.pending[id])
            && (forall q :: q in d.files && q in after.files && q in intended.files ==>
                  after.files[q] == d.files[q] || after.files[q] <= intended.files[q])
            && after.pending == intended.pending
            && (ValidatePath(resolve, d.files.Keys, r.path).Some?
                && r.totalChunks > 1 && Successor(r.chunkIndex) == r.totalChunks ==>
                  r.id !in after.pending)
  {
    hide IsAllowed;
    var p := resolve(r.path);
    if fault.Interrupted? && p in d.files {
      var data := if r.totalChunks > 1 then PendingOf(d, r.id) + r.content else r.content;
      var keep := if r.totalChunks >= 1 then [] else d.files[p];
      PrefixOfStore(keep, data, fault.written);
    }
  }

  lemma {:induction false} PrefixOfStore(keep: Bytes, data: Bytes, n: nat)
    ensures keep + Prefix(data, n) <= keep + data
  {
    assert data == Prefix(data, n) + data[|Prefix(data, n)|..];
  }

  /** The request writes to its file at once, and is not a chunk that is only accumulated. */
  predicate WritesNow(r: Request) {
    r.totalChunks > 1 ==> Successor(r.chunkIndex) == r.totalChunks
  }

  /**
   What a fault leaves: a failed write is reported; a file that cannot be opened keeps its content,
   and a write that stops after `n` bytes leaves exactly these, after the old content if appending.
   */
  lemma {:induction false} WhatAFaultLeaves(resolve: string -> string, d: Disk, r: Request, n: nat, error: string)
    requires ValidatePath(resolve, d.files.Keys, r.path).Some? && WritesNow(r)
    ensures Reply(resolve, d, r, CannotOpen(error)) == Reply(resolve, d, r, Interrupted(n, error)) == Error(error)
    ensures Handle(resolve, d, r, CannotOpen(error)).files == d.files
    ensures var p := resolve(r.path);
            var data := if r.totalChunks > 1 then PendingOf(d, r.id) + r.content else r.content;
            var after := Handle(resolve, d, r, Interrupted(n, error)).files;
            n <= |data| ==> p in after && after[p] == (if r.totalChunks >= 1 then [] else d.files[p]) + data[..n]
  {
    hide IsAllowed;
  }

  // ---- Nothing outside the sandbox ----------------------------------------------------------

  /** What the check of the path accepts. */
  ghost predicate IsWritable(resolve: string -> string, d: Disk, path: string) {
    "/" <= path && resolve(path) in d.files && InSandbox(resolve(path))
  }

  /**
   A request is refused exactly if its path is relative, or leads to no file or to one outside the
   sandbox; then it is answered by an error and changes neither files nor pending chunks.
   */
  lemma {:induction false} RefusedIff(resolve: string -> string, d: Disk, r: Request, fault: Fault)
    ensures !IsWritable(resolve, d, r.path) ==>
              Reply(resolve, d, r, fault).Error? && Handle(resolve, d, r, fault) == d
    ensures Reply(resolve, d, r, NoFault) == Ack <==> IsWritable(resolve, d, r.path)
    ensures IsWritable(resolve, d, r.path) && r.totalChunks == 1 ==>
              Handle(resolve, d, r, NoFault) == d.(files := d.files[resolve(r.path) := r.content])
  {
    hide ValidatePath, InSandbox;
    AcceptedIff(resolve, d.files.Keys, r.path);
    assert [] + r.content == r.content;
  }

  /** In every run, with any faults, files outside the sandbox keep their content. */
  lemma {:induction false} FilesOutsideStay(
      resolve: string -> string, d: Disk, run: seq<(Request, Fault)>, p: string)
    requires p in d.files && !InSandbox(p)
    ensures p in After(resolve, d, run).files && After(resolve, d, run).files[p] == d.files[p]
  {
    hide Handle, InSandbox;
    if run != [] {
      var front, last := run[..|run| - 1], run[|run| - 1];
      FilesOutsideStay(resolve, d, front, p);
      var before := After(resolve, d, front);
      if resolve(last.0.path) == p {
        RefusedIff(resolve, before, last.0, last.1);
      } else {
        FailuresAreContained(resolve, before, last.0, last.1);
      }
    }
  }

  // ---- Any interleaving of uploads ----------------------------------------------------------

  function Concat(chunks: seq<Bytes>): Bytes {
    if chunks == [] then [] else Concat(chunks[..|chunks| - 1]) + chunks[|chunks| - 1]
  }

  /** The disk after a run of requests, each with the outcome of its write call. */
  function After(resolve: string -> string, d: Disk, run: seq<(Request, Fault)>): Disk {
    if run == [] then d else
      var last := run[|run| - 1];
      Handle(resolve, After(resolve, d, run[..|run| - 1]), last.0, last.1)
  }

  /** The requests of one command id, in order. */
  function Mine(run: seq<(Request, Fault)>, id: string): seq<(Request, Fault)> {
    if run == [] then [] else
      Mine(run[..|run| - 1], id) + if run[|run| - 1].0.id == id then [run[|run| - 1]] else []
  }

  /** Every command id writes to one path, and different ids write to different files. */
  ghost predicate Separate(resolve: string -> string, paths: map<string, string>, run: seq<(Request, Fault)>) {
    && (forall k :: 0 <= k < |run| ==> run[k].0.id in paths && run[k].0.path == paths[run[k].0.id])
    && (forall id1, id2 :: id1 in paths && id2 in paths && id1 != id2 ==> resolve(paths[id1]) != resolve(paths[id2]))
  }

  /** Both disks hold the same file `p` and the same pending chunks of `id`. */
  predicate SameUpload(d1: Disk, d2: Disk, id: string, p: string) {
    && (p in d1.files <==> p in d2.files) && (p in d1.files ==> d1.files[p] == d2.files[p])
    && (id in d1.pending <==> id in d2.pending) && (id in d1.pending ==> d1.pending[id] == d2.pending[id])
  }

  lemma {:induction false} OwnStep(resolve: string -> string, d1: Disk, d2: Disk, r: Request, fault: Fault)
    requires SameUpload(d1, d2, r.id, resolve(r.path))
    ensures SameUpload(Handle(resolve, d1, r, fault), Handle(resolve, d2, r, fault), r.id, resolve(r.path))
  {
    hide IsAllowed;
  }

  lemma {:induction false} OthersStep(
      resolve: string -> string, d: Disk, r: Request, fault: Fault, id: string, p: string)
    requires r.id != id && resolve(r.path) != p
    ensures SameUpload(Handle(resolve, d, r, fault), d, id, p)
  {
    hide IsAllowed;
  }

  /**
   In every interleaving of uploads to different files, whatever the order of the chunks, and
   whichever requests are refused or fail, each upload goes as if it were alone: its file and
   its pending chunks are what its own requests make of them.
   */
  lemma {:induction false} UploadsDoNotInterfere(
      resolve: string -> string, paths: map<string, string>, d: Disk, run: seq<(Request, Fault)>, id: string)
    requires Separate(resolve, paths, run) && id in paths
    ensures SameUpload(After(resolve, d, run), After(resolve, d, Mine(run, id)), id, resolve(paths[id]))
  {
    hide Handle, SameUpload;
    var p := resolve(paths[id]);
    if run == [] {
      assert SameUpload(d, d, id, p) by { SameAsItself(d, id, p); }
    } else {
      var front, last := run[..|run| - 1], run[|run| - 1];
      assert forall k :: 0 <= k < |front| ==> front[k] == run[k];
      assert last.0.id in paths && last.0.path == paths[last.0.id];
      UploadsDoNotInterfere(resolve, paths, d, front, id);
      var before, own := After(resolve, d, front), After(resolve, d, Mine(front, id));
      if last.0.id == id {
        assert Mine(run, id)[..|Mine(front, id)|] == Mine(front, id);
        OwnStep(resolve, before, own, last.0, last.1);
      } else {
        assert Mine(run, id) == Mine(front, id);
        OthersStep(resolve, before, last.0, last.1, id, p);
        SameThrough(Handle(resolve, before, last.0, last.1), before, own, id, p);
      }
    }
  }

  lemma {:induction false} SameAsItself(d: Disk, id: string, p: string)
    ensures SameUpload(d, d, id, p)
  {
  }

  lemma {:induction false} SameThrough(d1: Disk, d2: Disk, d3: Disk, id: string, p: string)
    requires SameUpload(d1, d2, id, p) && SameUpload(d2, d3, id, p)
    ensures SameUpload(d1, d3, id, p)
  {
  }

  lemma {:induction false} FilesStay(resolve: string -> string, d: Disk, run: seq<(Request, Fault)>)
    ensures After(resolve, d, run).files.Keys == d.files.Keys
  {
    hide Handle;
    if run != [] {
      var last := run[|run| - 1];
      FilesStay(resolve, d, run[..|run| - 1]);
      AbsentFilesStayAbsent(resolve, After(resolve, d, run[..|run| - 1]), last.0, last.1);
    }
  }

  /** Files that no request goes to keep their content. */
  lemma {:induction false} OtherFilesUnchanged(
      resolve: string -> string, d: Disk, run: seq<(Request, Fault)>, p: string)
    requires p in d.files && forall k :: 0 <= k < |run| ==> resolve(run[k].0.path) != p
    ensures p in After(resolve, d, run).files && After(resolve, d, run).files[p] == d.files[p]
  {
    hide Handle;
    if run != [] {
      var front, last := run[..|run| - 1], run[|run| - 1];
      OtherFilesUnchanged(resolve, d, front, p);
      FailuresAreContained(resolve, After(resolve, d, front), last.0, last.1);
      assert forall k :: 0 <= k < |front| ==> front[k] == run[k];
    }
  }

  /** After an accepted final chunk no pending entry of its id remains, whatever failed before or then. */
  lemma {:induction false} FinalChunkClears(
      resolve: string -> string, paths: map<string, string>, d: Disk, run: seq<(Request, Fault)>, id: string)
    requires Separate(resolve, paths, run) && id in paths && Mine(run, id) != []
    requires var r := Mine(run, id)[|Mine(run, id)| - 1].0;
             && ValidatePath(resolve, d.files.Keys, r.path).Some?
             && r.totalChunks > 1 && Successor(r.chunkIndex) == r.totalChunks
    ensures id !in After(resolve, d, run).pending
  {
    hide Handle;
    UploadsDoNotInterfere(resolve, paths, d, run, id);
    var mine := Mine(run, id);
    var last := mine[|mine| - 1];
    FilesStay(resolve, d, mine[..|mine| - 1]);
    MineHasId(run, id);
    FailuresAreContained(resolve, After(resolve, d, mine[..|mine| - 1]), last.0, last.1);
  }

  lemma {:induction false} MineHasId(run: seq<(Request, Fault)>, id: string)
    ensures forall k :: 0 <= k < |Mine(run, id)| ==> Mine(run, id)[k].0.id == id
  {
    if run != [] {
      MineHasId(run[..|run| - 1], id);
    }
  }

  // ---- One upload ---------------------------------------------------------------------------

  /** One file to be written under one command id, chunk by chunk. */
  datatype Upload = Upload(path: string, totalChunks: I32, chunks: seq<Bytes>) {
    predicate Valid() {
      totalChunks >= 1 ==> |chunks| == totalChunks as int
    }
  }

  predicate Delivers(r: Request, u: Upload, j: nat) {
    && j < |u.chunks| && r.path == u.path && r.totalChunks == u.totalChunks && r.content == u.chunks[j]
    && (u.totalChunks > 1 ==> r.chunkIndex as int == j)
  }

  /** `own` are the first chunks of `u`, in order, without a failure. */
  ghost predicate InOrder(u: Upload, own: seq<(Request, Fault)>, id: string) {
    forall k :: 0 <= k < |own| ==> own[k].0.id == id && own[k].1.NoFault? && Delivers(own[k].0, u, k)
  }

  /** The file of `u`, once `m` of its chunks have been handled. */
  function FileAfter(u: Upload, initial: Bytes, m: nat): Bytes
    requires m <= |u.chunks|
  {
    if u.totalChunks <= 0 then initial + Concat(u.chunks[..m])
    else if m < |u.chunks| then initial
    else Concat(u.chunks)
  }

  /** What `m` of its chunks have made of the upload. */
  predicate UploadState(u: Upload, p: string, initial: Bytes, d: Disk, id: string, m: nat) {
    && m <= |u.chunks| && p in d.files && d.files[p] == FileAfter(u, initial, m)
    && (id in d.pending <==> u.totalChunks > 1 && 0 < m < |u.chunks|)
    && (id in d.pending ==> d.pending[id] == Concat(u.chunks[..m]))
  }

  lemma {:induction false} ConcatAppend(chunks: seq<Bytes>, m: nat)
    requires m < |chunks|
    ensures Concat(chunks[..m + 1]) == Concat(chunks[..m]) + chunks[m]
  {
    assert chunks[..m + 1][..m] == chunks[..m];
  }

  lemma {:induction false} NoChunks()
    ensures Concat([]) == []
  {
  }

  /** Handling the next chunk of an upload takes it to its next state. */
  lemma {:induction false} NextChunk(
      resolve: string -> string, u: Upload, initial: Bytes, d: Disk, r: Request, m: nat)
    requires u.Valid() && ValidatePath(resolve, d.files.Keys, u.path).Some?
    requires UploadState(u, resolve(u.path), initial, d, r.id, m) && Delivers(r, u, m)
    ensures UploadState(u, resolve(u.path), initial, Handle(resolve, d, r, NoFault), r.id, m + 1)
  {
    hide Concat, IsAllowed;
    ConcatAppend(u.chunks, m);
    assert Concat(u.chunks[..0]) == [] by { NoChunks(); }
    assert u.chunks[..|u.chunks|] == u.chunks;
  }

  lemma {:induction false} OwnChunks(
      resolve: string -> string, u: Upload, d: Disk, own: seq<(Request, Fault)>, id: string)
    requires u.Valid() && id !in d.pending && ValidatePath(resolve, d.files.Keys, u.path).Some? && InOrder(u, own, id)
    ensures UploadState(u, resolve(u.path), d.files[resolve(u.path)], After(resolve, d, own), id, |own|)
  {
    hide Handle, UploadState, Delivers;
    if own == [] {
      NoChunkYet(u, resolve(u.path), d, id);
    } else {
      var front, last := own[..|own| - 1], own[|own| - 1];
      assert forall k :: 0 <= k < |front| ==> front[k] == own[k];
      OwnChunks(resolve, u, d, front, id);
      FilesStay(resolve, d, front);
      NextChunk(resolve, u, d.files[resolve(u.path)], After(resolve, d, front), last.0, |front|);
    }
  }

  lemma {:induction false} NoChunkYet(u: Upload, p: string, d: Disk, id: string)
    requires p in d.files && id !in d.pending && u.Valid()
    ensures UploadState(u, p, d.files[p], d, id, 0)
  {
  }

  /**
   In every interleaving, whatever happens to the other uploads, the file of an upload whose own
   chunks arrive in order and are written is at every moment what these chunks make of it; a
   finished upload has left the concatenation of its chunks, after the old content if
   appending, and no pending entry.
   */
  lemma {:induction false} UploadArrives(
      resolve: string -> string, paths: map<string, string>, d: Disk, run: seq<(Request, Fault)>, id: string, u: Upload)
    requires Separate(resolve, paths, run) && id in paths && paths[id] == u.path
    requires u.Valid() && id !in d.pending && ValidatePath(resolve, d.files.Keys, u.path).Some?
    requires InOrder(u, Mine(run, id), id)
    ensures UploadState(u, resolve(u.path), d.files[resolve(u.path)], After(resolve, d, run), id, |Mine(run, id)|)
  {
    hide After, Separate;
    UploadsDoNotInterfere(resolve, paths, d, run, id);
    OwnChunks(resolve, u, d, Mine(run, id), id);
  }

  /** The requests that deliver `chunks` in order. */
  function Numbered(id: string, path: string, total: I32, chunks: seq<Bytes>): (run: seq<(Request, Fault)>)
    requires |chunks| < 0x8000_0000
    ensures |run| == |chunks|
    ensures forall k :: 0 <= k < |run| ==> run[k] == (Request(id, path, k as I32, total, chunks[k]), NoFault)
  {
    seq(|chunks|, k requires 0 <= k < |chunks| => (Request(id, path, k as I32, total, chunks[k]), NoFault))
  }

  /**
   Written whole, in chunks or by appending, the file ends the same exactly if it was empty before;
   no chunk is left over.
   */
  lemma {:induction false} ModesAgree(
      resolve: string -> string, d: Disk, id: string, path: string, chunks: seq<Bytes>, total: I32)
    requires id !in d.pending && ValidatePath(resolve, d.files.Keys, path).Some?
    requires |chunks| == total as int && total > 1
    ensures var p := resolve(path);
            var whole := After(resolve, d, [(Request(id, path, 0, 1, Concat(chunks)), NoFault)]);
            var chunked := After(resolve, d, Numbered(id, path, total, chunks));
            var appended := After(resolve, d, Numbered(id, path, -1, chunks));
            && p in whole.files && p in chunked.files && p in appended.files
            && id !in whole.pending && id !in chunked.pending && id !in appended.pending
            && whole.files[p] == chunked.files[p] == Concat(chunks)
            && (appended.files[p] == whole.files[p] <==> d.files[p] == [])
  {
    hide Concat, After, IsAllowed;
    var p, all := resolve(path), Concat(chunks);
    var initial := d.files[p];
    OwnChunks(resolve, Upload(path, 1, [all]), d, [(Request(id, path, 0, 1, all), NoFault)], id);
    OwnChunks(resolve, Upload(path, total, chunks), d, Numbered(id, path, total, chunks), id);
    OwnChunks(resolve, Upload(path, -1, chunks), d, Numbered(id, path, -1, chunks), id);
    OneChunk(all);
    assert chunks[..|chunks|] == chunks;
    if initial == [] {
      assert initial + all == all;
    } else {
      assert |initial + all| > |all|;
    }
  }

  lemma {:induction false} OneChunk(b: Bytes)
    ensures Concat([b]) == b
  {
    assert [b][..0] == [] && Concat([]) == [];
  }

  /** Out of order, two chunks lose the first one: the file holds the second, and the first stays pending. */
  lemma {:induction false} LastChunkFirst(
      resolve: string -> string, d: Disk, id: string, path: string, first: Bytes, second: Bytes)
    requires id !in d.pending && ValidatePath(resolve, d.files.Keys, path).Some?
    ensures var run := [(Request(id, path, 1, 2, second), NoFault), (Request(id, path, 0, 2, first), NoFault)];
            var after := After(resolve, d, run);
            && resolve(path) in after.files && after.files[resolve(path)] == second
            && id in after.pending && after.pending[id] == first
  {
    hide IsAllowed;
    var r1, r2 := Request(id, path, 1, 2, second), Request(id, path, 0, 2, first);
    var run := [(r1, NoFault), (r2, NoFault)];
    assert run[..1] == [(r1, NoFault)] && run[..1][..0] == [];
    var d1 := Handle(resolve, d, r1, NoFault);
    assert After(resolve, d, run[..1]) == d1;
    assert [] + second == second && [] + first == first && [] + ([] + second) == second;
    assert After(resolve, d, run) == Handle(resolve, d1, r2, NoFault);
  }

  // ---- In the protocol ----------------------------------------------------------------------

  datatype WriteResult = Written | Failed(error: string)

  /** The gateway's check of the collected messages: the first error, if there is one. */
  method AggregateWrite(responses: seq<Payload>) returns (r: WriteResult)
    ensures r.Written? <==> forall i :: 0 <= i < |responses| ==> !responses[i].Error?
    ensures r.Failed? ==> exists i :: 0 <= i < |responses| && responses[i] == Error(r.error)
                                      && forall j :: 0 <= j < i ==> !responses[j].Error?
  {
    for i := 0 to |responses|
      invariant forall j :: 0 <= j < i ==> !responses[j].Error?
    {
      if responses[i].Error? {
        return Failed(responses[i].error);
      }
    }
    r := Written;
  }

  /**
   A write is answered by an acknowledgement or an error. The collector does not stop at an
   acknowledgement, so in no run does a caller collect anything but the error: every write that
   took effect ends in a timeout, a rejection or a disconnection.
   */
  lemma {:induction false} WriteCallsNeverSucceed(cfg: Config, trace: seq<Action>, c: CommandId, reply: Payload)
    requires cfg.Valid() && Protocol.After(cfg, trace).Some? && c < cfg.n
    requires cfg.replies(c) == [reply] && (reply == Ack || reply.Error?)
    requires var call := Protocol.After(cfg, trace).value.calls[c]; call.Done? && call.result.Success?
    ensures reply.Error? && Payloads(Protocol.After(cfg, trace).value.calls[c].result.messages) == [reply]
  {
    hide Protocol.After;
    CallersGetTheirOwn(cfg, trace, c);
    assert Payloads(Protocol.After(cfg, trace).value.calls[c].result.messages) == UpToTerminal(cfg.replies(c));
  }
}
