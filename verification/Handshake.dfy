/**
 The registration handshake of the gateway with any number of sandboxes: provisioning of
 secrets, registrations that may be challenged, and challenge responses, in any order.
 HMAC is an uninterpreted function of a key and a message; nonces are parameters.
 */
module Handshake {
  import opened Utf8
  import opened Wrappers

  type Bytes = seq<Byte>
  type Hmac = (string, Bytes) -> Bytes

  datatype AuthConfig = AuthConfig(preSharedKeyEnabled: bool, preSharedKeys: seq<string>)

  datatype Event =
    | Provision(sandbox: string, secret: string)
    | Registration(sandbox: string, workerNonce: Bytes, gatewayNonce: Bytes)
    | Response(sandbox: string, proof: Bytes)

  datatype Status = Accepted | Challenge | Rejected

  /** The worker's answer to a challenge. */
  function ComputeHmacProof(hmac: Hmac, secret: string, workerNonce: Bytes, gatewayNonce: Bytes): Bytes {
    hmac(secret, workerNonce + gatewayNonce)
  }

  // ---- The rule, in terms of the history ------------------------------------------------

  /** The secret provisioned for `s` by the first `n` events. */
  function SecretOf(log: seq<Event>, n: nat, s: string): Option<string>
    requires n <= |log|
  {
    if n == 0 then None
    else if log[n - 1].Provision? && log[n - 1].sandbox == s then Some(log[n - 1].secret)
    else SecretOf(log, n - 1, s)
  }

  predicate HasSecret(log: seq<Event>, n: nat, s: string)
    requires n <= |log|
  {
    SecretOf(log, n, s).Some? && SecretOf(log, n, s).value != ""
  }

  /** Event `k` is a registration that was answered with a challenge. */
  predicate Challenged(log: seq<Event>, k: nat)
    requires k < |log|
  {
    log[k].Registration? && HasSecret(log, k, log[k].sandbox)
  }

  /** Event `k` touches the outstanding challenge of `s`: it replaces it or uses it up. */
  predicate Touches(log: seq<Event>, k: nat, s: string)
    requires k < |log|
  {
    log[k].sandbox == s && (log[k].Response? || Challenged(log, k))
  }

  /** Event `k` issued the challenge that is outstanding for `s` after `n` events. */
  ghost predicate Outstanding(log: seq<Event>, n: nat, k: nat, s: string)
    requires n <= |log|
  {
    && k < n && log[k].sandbox == s && Challenged(log, k)
    && forall i :: k < i < n ==> !Touches(log, i, s)
  }

  /** The keys that may sign for `s` after `n` events. */
  ghost predicate IsKey(config: AuthConfig, log: seq<Event>, n: nat, s: string, key: string)
    requires n <= |log|
  {
    if config.preSharedKeyEnabled then key in config.preSharedKeys else SecretOf(log, n, s) == Some(key)
  }

  /** The response `n` answers the challenge `k`, signed with a key of its sandbox. */
  ghost predicate Answers(config: AuthConfig, hmac: Hmac, log: seq<Event>, n: nat, k: nat, key: string)
    requires n < |log| && log[n].Response?
  {
    && Outstanding(log, n, k, log[n].sandbox)
    && IsKey(config, log, n, log[n].sandbox, key)
    && log[n].proof == ComputeHmacProof(hmac, key, log[k].workerNonce, log[k].gatewayNonce)
  }

  ghost predicate Deserved(config: AuthConfig, hmac: Hmac, log: seq<Event>, n: nat)
    requires n < |log| && log[n].Response?
  {
    exists k: nat, key :: Answers(config, hmac, log, n, k, key)
  }

  // ---- The maps -------------------------------------------------------------------------

  datatype PendingChallenge = PendingChallenge(workerNonce: Bytes, gatewayNonce: Bytes)

  datatype Books = Books(secrets: map<string, string>, pending: map<string, PendingChallenge>)

  function Enter(b: Books, e: Event): Books {
    match e
    case Provision(s, secret) => b.(secrets := b.secrets[s := secret])
    case Registration(s, workerNonce, gatewayNonce) =>
      if s in b.secrets && b.secrets[s] != ""
      then b.(pending := b.pending[s := PendingChallenge(workerNonce, gatewayNonce)])
      else b
    case Response(s, _) => b.(pending := b.pending - {s})
  }

  function After(log: seq<Event>, n: nat): Books
    requires n <= |log|
  {
    if n == 0 then Books(map[], map[]) else Enter(After(log, n - 1), log[n - 1])
  }

  predicate VerifyProof(hmac: Hmac, key: string, c: PendingChallenge, proof: Bytes) {
    proof == hmac(key, c.workerNonce + c.gatewayNonce)
  }

  ghost predicate VerifyAgainst(
      config: AuthConfig, hmac: Hmac, b: Books, s: string, c: PendingChallenge, proof: Bytes)
  {
    if config.preSharedKeyEnabled
    then exists key :: key in config.preSharedKeys && VerifyProof(hmac, key, c, proof)
    else s in b.secrets && VerifyProof(hmac, b.secrets[s], c, proof)
  }

  ghost predicate Accepts(config: AuthConfig, hmac: Hmac, b: Books, e: Event)
    requires e.Response?
  {
    e.sandbox in b.pending && VerifyAgainst(config, hmac, b, e.sandbox, b.pending[e.sandbox], e.proof)
  }

  /** The maps hold, for every sandbox, its latest secret and its outstanding challenge. */
  lemma {:induction false} BooksFollowHistory(log: seq<Event>, n: nat, s: string)
    requires n <= |log|
    ensures (if s in After(log, n).secrets then Some(After(log, n).secrets[s]) else None) == SecretOf(log, n, s)
    ensures s in After(log, n).pending <==> exists k: nat :: Outstanding(log, n, k, s)
    ensures forall k: nat :: Outstanding(log, n, k, s) ==>
              s in After(log, n).pending &&
              After(log, n).pending[s] == PendingChallenge(log[k].workerNonce, log[k].gatewayNonce)
  {
    hide Outstanding, Touches, Challenged;
    if n == 0 {
      forall k: nat ensures !Outstanding(log, 0, k, s) {
        if Outstanding(log, 0, k, s) {
          OutstandingIndex(log, 0, k, s);
        }
      }
    } else {
      var e, b := log[n - 1], After(log, n - 1);
      BooksFollowHistory(log, n - 1, s);
      BooksFollowHistory(log, n - 1, e.sandbox);
      ChallengedRule(log, n - 1);
      forall k: nat
        ensures Outstanding(log, n, k, s) <==>
                if Touches(log, n - 1, s) then k == n - 1 && e.Registration? else Outstanding(log, n - 1, k, s)
      {
        OutstandingStep(log, n - 1, k, s);
      }
      TouchesRule(log, n - 1, s);
      if Touches(log, n - 1, s) && e.Registration? {
        assert Outstanding(log, n, n - 1, s);
      }
      if !Touches(log, n - 1, s) && s in After(log, n).pending {
        var k: nat :| Outstanding(log, n - 1, k, s);
        assert Outstanding(log, n, k, s);
      }
    }
  }

  lemma {:induction false} OutstandingIndex(log: seq<Event>, n: nat, k: nat, s: string)
    requires n <= |log| && Outstanding(log, n, k, s)
    ensures k < n && log[k].Registration? && log[k].sandbox == s && Touches(log, k, s)
  {
  }

  lemma {:induction false} ChallengedRule(log: seq<Event>, k: nat)
    requires k < |log|
    ensures Challenged(log, k) <==> log[k].Registration? && HasSecret(log, k, log[k].sandbox)
  {
  }

  lemma {:induction false} TouchesRule(log: seq<Event>, k: nat, s: string)
    requires k < |log|
    ensures Touches(log, k, s) <==> log[k].sandbox == s && (log[k].Response? || Challenged(log, k))
  {
  }

  lemma {:induction false} OutstandingStep(log: seq<Event>, n: nat, k: nat, s: string)
    requires n < |log|
    ensures Outstanding(log, n + 1, k, s) <==>
            if Touches(log, n, s) then k == n && log[n].Registration? else Outstanding(log, n, k, s)
  {
    hide HasSecret;
    if k == n && Touches(log, n, s) && log[n].Registration? {
      assert Outstanding(log, n + 1, k, s);
    }
    if Outstanding(log, n, k, s) && !Touches(log, n, s) {
      assert forall i :: k < i < n + 1 ==> !Touches(log, i, s);
    }
    if Outstanding(log, n + 1, k, s) {
      assert k < n ==> Outstanding(log, n, k, s) && !Touches(log, n, s);
    }
  }

  /** A response is accepted exactly when it answers the outstanding challenge of its sandbox. */
  lemma {:induction false} AcceptedIffDeserved(config: AuthConfig, hmac: Hmac, log: seq<Event>, n: nat)
    requires n < |log| && log[n].Response?
    ensures Accepts(config, hmac, After(log, n), log[n]) <==> Deserved(config, hmac, log, n)
  {
    hide Outstanding, After;
    var s, b := log[n].sandbox, After(log, n);
    BooksFollowHistory(log, n, s);
    if Deserved(config, hmac, log, n) {
      var k: nat, key :| Answers(config, hmac, log, n, k, key);
      assert VerifyProof(hmac, key, b.pending[s], log[n].proof);
    }
    if Accepts(config, hmac, b, log[n]) {
      var k: nat :| Outstanding(log, n, k, s);
      var key :| IsKey(config, log, n, s, key) && VerifyProof(hmac, key, b.pending[s], log[n].proof);
      assert Answers(config, hmac, log, n, k, key);
    }
  }

  /**
   A worker that signs its challenge with a key that is valid when the response arrives is
   accepted, unless its sandbox was challenged again or has responded in between.
   */
  lemma {:induction false} HonestWorkerAccepted(
      config: AuthConfig, hmac: Hmac, log: seq<Event>, k: nat, n: nat, key: string)
    requires k < n < |log| && Challenged(log, k)
    requires log[n].Response? && log[n].sandbox == log[k].sandbox
    requires forall i :: k < i < n ==> !Touches(log, i, log[k].sandbox)
    requires IsKey(config, log, n, log[n].sandbox, key)
    requires log[n].proof == ComputeHmacProof(hmac, key, log[k].workerNonce, log[k].gatewayNonce)
    ensures Accepts(config, hmac, After(log, n), log[n])
  {
    hide After, HasSecret;
    AcceptedIffDeserved(config, hmac, log, n);
    assert Answers(config, hmac, log, n, k, key);
  }

  /** A provisioned secret stays valid until the next provisioning of its sandbox, whatever else happens. */
  lemma {:induction false} SecretStands(log: seq<Event>, k: nat, n: nat, s: string)
    requires k <= n <= |log|
    requires forall i :: k <= i < n ==> !(log[i].Provision? && log[i].sandbox == s)
    ensures SecretOf(log, n, s) == SecretOf(log, k, s)
  {
    if k < n {
      SecretStands(log, k, n - 1, s);
    }
  }

  // ---- One acceptance per challenge -----------------------------------------------------

  /** Between two accepted responses of one sandbox lies a challenge that the first did not use. */
  lemma {:induction false} ChallengeUsedOnce(log: seq<Event>, n1: nat, k1: nat, n2: nat, k2: nat, s: string)
    requires n1 < n2 <= |log| && log[n1].Response? && log[n1].sandbox == s
    requires Outstanding(log, n1, k1, s) && Outstanding(log, n2, k2, s)
    ensures k1 < n1 < k2 < n2
  {
    hide HasSecret;
    assert Touches(log, n1, s);
  }

  function ChallengesIssued(log: seq<Event>, n: nat, s: string): nat
    requires n <= |log|
  {
    if n == 0 then 0
    else ChallengesIssued(log, n - 1, s) + if log[n - 1].sandbox == s && Challenged(log, n - 1) then 1 else 0
  }

  ghost function Acceptances(config: AuthConfig, hmac: Hmac, log: seq<Event>, n: nat, s: string): nat
    requires n <= |log|
  {
    if n == 0 then 0
    else Acceptances(config, hmac, log, n - 1, s) +
         if log[n - 1].Response? && log[n - 1].sandbox == s &&
           Accepts(config, hmac, After(log, n - 1), log[n - 1]) then 1 else 0
  }

  /** Every acceptance uses up one challenge, and an outstanding challenge has not been used. */
  lemma {:induction false} AcceptancesCovered(config: AuthConfig, hmac: Hmac, log: seq<Event>, n: nat, s: string)
    requires n <= |log|
    ensures Acceptances(config, hmac, log, n, s) + (if s in After(log, n).pending then 1 else 0) <=
        ChallengesIssued(log, n, s)
  {
    hide VerifyAgainst;
    if n > 0 {
      AcceptancesCovered(config, hmac, log, n - 1, s);
      BooksFollowHistory(log, n - 1, s);
    }
  }

  /**
   A proof that was accepted once is accepted again only through a collision of the HMAC: the
   gateway's nonces have one length and differ between the two challenges.
   */
  lemma {:induction false} ReplayNeedsCollision(
      config: AuthConfig, hmac: Hmac, log: seq<Event>, n1: nat, n2: nat, length: nat)
      returns (key1: string, message1: Bytes, key2: string, message2: Bytes)
    requires n1 < n2 < |log| && log[n1].Response? && log[n2].Response? && log[n1].proof == log[n2].proof
    requires Accepts(config, hmac, After(log, n1), log[n1]) && Accepts(config, hmac, After(log, n2), log[n2])
    requires forall k :: 0 <= k < |log| && log[k].Registration? ==> |log[k].gatewayNonce| == length
    requires forall j, k :: 0 <= j < k < |log| && log[j].Registration? && log[k].Registration? ==>
               log[j].gatewayNonce != log[k].gatewayNonce
    ensures message1 != message2 && hmac(key1, message1) == hmac(key2, message2) == log[n1].proof
  {
    hide After, Accepts, HasSecret;
    AcceptedIffDeserved(config, hmac, log, n1);
    AcceptedIffDeserved(config, hmac, log, n2);
    var k1: nat, first :| Answers(config, hmac, log, n1, k1, first);
    var k2: nat, second :| Answers(config, hmac, log, n2, k2, second);
    key1, key2 := first, second;
    message1 := log[k1].workerNonce + log[k1].gatewayNonce;
    message2 := log[k2].workerNonce + log[k2].gatewayNonce;
    if log[n1].sandbox == log[n2].sandbox {
      ChallengeUsedOnce(log, n1, k1, n2, k2, log[n1].sandbox);
    }
    assert k1 != k2;
    assert message1[|message1| - length..] == log[k1].gatewayNonce;
    assert message2[|message2| - length..] == log[k2].gatewayNonce;
  }

  // ---- Sandboxes do not interfere -------------------------------------------------------

  function Mine(log: seq<Event>, s: string): seq<Event> {
    if log == [] then []
    else Mine(log[..|log| - 1], s) + if log[|log| - 1].sandbox == s then [log[|log| - 1]] else []
  }

  /** What the books say of `s`. */
  predicate SameFor(b1: Books, b2: Books, s: string) {
    && (s in b1.secrets <==> s in b2.secrets) && (s in b1.secrets ==> b1.secrets[s] == b2.secrets[s])
    && (s in b1.pending <==> s in b2.pending) && (s in b1.pending ==> b1.pending[s] == b2.pending[s])
  }

  /**
   Whatever the other sandboxes do in between, the handshake of `s` goes as if it were alone:
   the same challenges are outstanding and the same responses are accepted.
   */
  lemma {:induction false} SandboxesAreIndependent(
      config: AuthConfig, hmac: Hmac, log: seq<Event>, s: string, proof: Bytes)
    ensures SameFor(After(log, |log|), After(Mine(log, s), |Mine(log, s)|), s)
    ensures Accepts(config, hmac, After(log, |log|), Response(s, proof)) <==>
            Accepts(config, hmac, After(Mine(log, s), |Mine(log, s)|), Response(s, proof))
  {
    if log == [] {
      assert Mine(log, s) == log;
    } else {
      hide After;
      var front, e := log[..|log| - 1], log[|log| - 1];
      SandboxesAreIndependent(config, hmac, front, s, proof);
      assert front + [e] == log;
      AfterAppend(front, e);
      AfterAppend(Mine(front, s), e);
      assert Mine(log, s) == if e.sandbox == s then Mine(front, s) + [e] else Mine(front, s);
    }
  }

  // ---- The service ----------------------------------------------------------------------

  class RegistryService {
    var secrets: map<string, string>
    var pendingChallenges: map<string, PendingChallenge>
    const config: AuthConfig
    const hmac: Hmac
    ghost var log: seq<Event>

    ghost predicate Valid()
      reads this
    {
      After(log, |log|) == Books(secrets, pendingChallenges)
    }

    constructor (config: AuthConfig, hmac: Hmac)
      ensures Valid() && log == [] && this.config == config && this.hmac == hmac
    {
      secrets, pendingChallenges := map[], map[];
      this.config, this.hmac := config, hmac;
      log := [];
    }

    method SetSecret(sandbox: string, secret: string)
      requires Valid()
      modifies this
      ensures Valid() && log == old(log) + [Provision(sandbox, secret)]
    {
      AfterAppend(log, Provision(sandbox, secret));
      log := log + [Provision(sandbox, secret)];
      secrets := secrets[sandbox := secret];
    }

    /**
     A sandbox without a secret is accepted at once, whatever the key mode, and keeps any
     challenge it had; any other is challenged and loses its earlier challenge.
     */
    method Register(sandbox: string, workerNonce: Bytes, gatewayNonce: Bytes) returns (status: Status, nonce: Bytes)
      requires Valid()
      modifies this
      ensures Valid() && log == old(log) + [Registration(sandbox, workerNonce, gatewayNonce)]
      ensures status == (if HasSecret(log, |old(log)|, sandbox) then Challenge else Accepted)
      ensures status == Challenge ==> nonce == gatewayNonce && Outstanding(log, |log|, |old(log)|, sandbox)
      ensures status == Accepted ==> nonce == [] && pendingChallenges == old(pendingChallenges)
    {
      ghost var e := Registration(sandbox, workerNonce, gatewayNonce);
      ghost var n := |log|;
      AfterAppend(log, e);
      log := log + [e];
      BooksFollowHistory(log, n, sandbox);
      status, nonce := Accepted, [];
      var secret := if sandbox in secrets then secrets[sandbox] else "";
      if secret != "" {
        pendingChallenges := pendingChallenges[sandbox := PendingChallenge(workerNonce, gatewayNonce)];
        status, nonce := Challenge, gatewayNonce;
      }
    }

    method VerifyAgainstKeys(c: PendingChallenge, proof: Bytes) returns (valid: bool)
      ensures valid <==> exists key :: key in config.preSharedKeys && VerifyProof(hmac, key, c, proof)
    {
      for i := 0 to |config.preSharedKeys|
        invariant forall j :: 0 <= j < i ==> !VerifyProof(hmac, config.preSharedKeys[j], c, proof)
      {
        if VerifyProof(hmac, config.preSharedKeys[i], c, proof) {
          return true;
        }
      }
      valid := false;
    }

    /** Take the outstanding challenge, whatever the outcome, and accept exactly a proof that answers it. */
    method ChallengeResponse(sandbox: string, proof: Bytes) returns (status: Status)
      requires Valid()
      modifies this
      ensures Valid() && log == old(log) + [Response(sandbox, proof)]
      ensures status == if Deserved(config, hmac, log, |old(log)|) then Accepted else Rejected
      ensures sandbox !in pendingChallenges
    {
      hide Deserved, SecretOf, VerifyProof;
      ghost var n := |log|;
      AfterAppend(log, Response(sandbox, proof));
      log := log + [Response(sandbox, proof)];
      AcceptedIffDeserved(config, hmac, log, n);
      if sandbox !in pendingChallenges {
        assert pendingChallenges - {sandbox} == pendingChallenges;
        return Rejected;
      }
      var pending := pendingChallenges[sandbox];
      pendingChallenges := pendingChallenges - {sandbox};
      var valid := false;
      if config.preSharedKeyEnabled {
        if config.preSharedKeys != [] {
          valid := VerifyAgainstKeys(pending, proof);
        }
      } else if sandbox in secrets {
        valid := VerifyProof(hmac, secrets[sandbox], pending, proof);
      }
      status := if valid then Accepted else Rejected;
    }
  }

  lemma {:induction false} AfterPrefix(log: seq<Event>, e: Event, n: nat)
    requires n <= |log|
    ensures After(log + [e], n) == After(log, n)
  {
    if n > 0 {
      AfterPrefix(log, e, n - 1);
    }
  }

  lemma {:induction false} AfterAppend(log: seq<Event>, e: Event)
    ensures After(log + [e], |log|) == After(log, |log|)
    ensures After(log + [e], |log| + 1) == Enter(After(log, |log|), e)
  {
    AfterPrefix(log, e, |log|);
  }
}
