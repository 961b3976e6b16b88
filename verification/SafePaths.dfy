/**
 Which paths a worker accepts. Reads, writes and listings all go through this check: the path must
 be absolute and must resolve, through symbolic links, to something that exists under one of the
 allowed prefixes.
 */
module SafePaths {
  import opened Wrappers

  const ALLOWED_PREFIXES: seq<string> := ["/workspace", "/tmp", "/home", "/opt", "/var/tmp"]

  predicate IsAllowed(canonical: string) {
    exists i :: 0 <= i < |ALLOWED_PREFIXES| && ALLOWED_PREFIXES[i] <= canonical
  }

  /** The canonical name, if the path is accepted. `resolve` follows links, `existing` are the names that exist. */
  function ValidatePath(resolve: string -> string, existing: set<string>, path: string): Option<string> {
    if !("/" <= path) then None
    else if resolve(path) !in existing then None
    else if !IsAllowed(resolve(path)) then None
    else Some(resolve(path))
  }

  /** Inside the part of the file system that commands may touch. */
  predicate InSandbox(name: string) {
    "/workspace" <= name || "/tmp" <= name || "/home" <= name || "/opt" <= name || "/var/tmp" <= name
  }

  lemma {:induction false} AllowedIsInSandbox(name: string)
    ensures IsAllowed(name) <==> InSandbox(name)
  {
    assert ALLOWED_PREFIXES[0] == "/workspace" && ALLOWED_PREFIXES[1] == "/tmp" && ALLOWED_PREFIXES[2] == "/home";
    assert ALLOWED_PREFIXES[3] == "/opt" && ALLOWED_PREFIXES[4] == "/var/tmp";
  }

  /** A path is accepted exactly if it is absolute and leads to something that exists in the sandbox. */
  lemma {:induction false} AcceptedIff(resolve: string -> string, existing: set<string>, path: string)
    ensures ValidatePath(resolve, existing, path) == Some(resolve(path)) <==>
            "/" <= path && resolve(path) in existing && InSandbox(resolve(path))
    ensures ValidatePath(resolve, existing, path) != Some(resolve(path)) ==>
              ValidatePath(resolve, existing, path) == None
  {
    hide IsAllowed;
    AllowedIsInSandbox(resolve(path));
  }

  /** The prefixes are compared as text, so names beside the allowed directories are accepted too. */
  lemma {:induction false} SiblingsAreAccepted(resolve: string -> string, existing: set<string>, path: string)
    requires "/" <= path && resolve(path) in existing && "/tmp" <= resolve(path)
    ensures ValidatePath(resolve, existing, path) == Some(resolve(path))
    ensures InSandbox("/tmpfiles/x") && !("/tmp/" <= "/tmpfiles/x")
  {
    hide ValidatePath, IsAllowed;
    AcceptedIff(resolve, existing, path);
    assert "/tmpfiles/x"[4] == 'f' && "/tmp/"[4] == '/';
  }
}
