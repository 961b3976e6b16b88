/**
 Listing a directory: the worker's single answer, the gateway's search of the collected messages
 for it, and the two together in the protocol.
 */
module ListFiles {
  import opened Wrappers
  import opened WorkerMessages
  import opened Protocol
  import opened ProtocolSafety
  import opened ProtocolProgress
  import opened SafePaths

  /** What the worker finds in a directory. */
  datatype Listing = Entries(entries: seq<FileEntry>) | Unreadable(error: string)

  datatype ListResult = Listed(entries: seq<FileEntry>) | Failed(error: string)

  /** The one message that answers a list command. */
  method HandleList(resolve: string -> string, found: map<string, Listing>, directory: string)
    returns (sent: seq<Payload>)
    ensures if "/" <= directory && resolve(directory) in found && InSandbox(resolve(directory))
            then sent == [ListReply(found[resolve(directory)])]
            else sent == [Error("permission")]
  {
    hide InSandbox, ValidatePath;
    AcceptedIff(resolve, found.Keys, directory);
    var safeDir := ValidatePath(resolve, found.Keys, directory);
    if safeDir.None? {
      return [Error("permission")];
    }
    match found[safeDir.value] {
      case Entries(entries) => sent := [FileList(entries)];
      case Unreadable(error) => sent := [Error(error)];
    }
  }

  function ListReply(listing: Listing): Payload {
    match listing
    case Entries(entries) => FileList(entries)
    case Unreadable(error) => Error(error)
  }

  /** The first list or error among the messages; no entries if there is neither. */
  ghost predicate IsListResultOf(ps: seq<Payload>, r: ListResult) {
    if exists i :: 0 <= i < |ps| && (ps[i].FileList? || ps[i].Error?)
    then exists i :: 0 <= i < |ps| && (ps[i] == (if r.Listed? then FileList(r.entries) else Error(r.error)))
                       && forall j :: 0 <= j < i ==> !ps[j].FileList? && !ps[j].Error?
    else r == Listed([])
  }

  method AggregateList(responses: seq<Payload>) returns (r: ListResult)
    ensures IsListResultOf(responses, r)
  {
    for i := 0 to |responses|
      invariant forall j :: 0 <= j < i ==> !responses[j].FileList? && !responses[j].Error?
    {
      match responses[i] {
        case FileList(entries) => return Listed(entries);
        case Error(error) => return Failed(error);
        case _ =>
      }
    }
    r := Listed([]);
  }

  /**
   End to end: an undisturbed run that cannot go on has answered every list call, with the
   entries or the error that the worker of this very call found.
   */
  lemma {:induction false} ListEndToEnd(
      cfg: Config, trace: seq<Action>, part: CommandId -> nat, c: CommandId, listing: Listing, r: ListResult)
    requires cfg.Valid() && After(cfg, trace).Some? && Undisturbed(trace) && c < cfg.n
    requires StuckOnLocks(cfg, After(cfg, trace).value, part)
    requires cfg.replies(c) == [ListReply(listing)]
    ensures After(cfg, trace).value.calls[c] == Done(Success([Message(c, ListReply(listing))]))
    ensures IsListResultOf([ListReply(listing)], r) ==>
              r == match listing case Entries(es) => Listed(es) case Unreadable(error) => Failed(error)
  {
    hide After, StuckOnLocks;
    var ps := cfg.replies(c);
    assert IsTerminal(ps[0]) && !NoTerminal(ps);
    EveryCallerAnswered(cfg, trace, part, c);
    assert UpToTerminal(ps) == ps[..1] == ps;
    assert Tag(c, ps) == [Message(c, ListReply(listing))];
    assert ps[0].FileList? || ps[0].Error?;
  }
}
