/**
 What a second pass of the sanitizer does. It changes nothing exactly when each step of the
 first pass is settled: a replaced value must be followed by a byte that closes it, a key must
 not be taken for an AWS key, and a copied character must not begin, in the output, a token
 that is recognised by its length.
 */
module SanitizerRescan {
  import opened Wrappers
  import opened Utf8
  import opened Spans
  import opened Sanitizer
  import opened SanitizerKinds
  import opened SanitizerScan
  import opened SanitizerFixpoint

  /** Whether the step of the first pass at the front of `s` is the same in a second pass. */
  ghost predicate Settles(s: seq<Byte>)
    requires WellFormed(s) && s != []
  {
    ScanUnfold(s);
    var rest := s[Step(s).len..];
    match KindOf(s)
    case Copy => AwsKeyLen(Scan(s)).None? && OpenAiKeyLen(Scan(s)).None? && JwtLen(Scan(s)).None?
    case Token => true
    case Snake => !(AKIA <= s)
    case kind => rest == [] || Closes(kind, rest[0])
  }

  /** Whether every step of the first pass is. */
  ghost predicate Settled(s: seq<Byte>)
    requires WellFormed(s)
    decreases |s|
  {
    s == [] || (ScanUnfold(s); Settles(s) && Settled(s[Step(s).len..]))
  }

  lemma {:induction false} SettledUnfold(s: seq<Byte>)
    requires WellFormed(s) && s != []
    ensures var n := Step(s).len;
            1 <= n <= |s| && WellFormed(s[n..]) && (Settled(s) <==> Settles(s) && Settled(s[n..]))
  {
    hide Step, WellFormed, Settles;
    ScanUnfold(s);
  }

  // ---- How the output begins --------------------------------------------------------------

  /** The texts agree on `m` bytes; there they end, or the second goes on with a replacement. */
  predicate Leads(s: seq<Byte>, t: seq<Byte>, m: nat) {
    && m <= |s| && m <= |t| && t[..m] == s[..m]
    && ((m == |s| && t == s) || (m < |t| && t[m] == REDACTED[0]))
  }

  lemma {:induction false} LeadsOn(head: seq<Byte>, s: seq<Byte>, t: seq<Byte>, m: nat)
    requires Leads(s, t, m)
    ensures Leads(head + s, head + t, |head| + m)
  {
    var n := |head| + m;
    assert (head + t)[..n] == head + t[..m] == head + s[..m] == (head + s)[..n];
  }

  lemma {:induction false} LeadOfCopy(s: seq<Byte>, rest: nat)
    requires WellFormed(s) && s != [] && KindOf(s).Copy?
    requires var n := Step(s).len; n <= |s| && WellFormed(s[n..]) && Leads(s[n..], Scan(s[n..]), rest)
    ensures Leads(s, Scan(s), Step(s).len + rest)
  {
    hide Step, Detect, WellFormed, Scan, KindOf, Leads, HeadLen;
    ScanUnfold(s);
    CopyStep(s);
    var n := Step(s).len;
    LeadsOn(s[..n], s[n..], Scan(s[n..]), rest);
    assert s == s[..n] + s[n..];
  }

  lemma {:induction false} LeadOfReplacement(s: seq<Byte>) returns (m: nat)
    requires WellFormed(s) && s != [] && !KindOf(s).Copy?
    ensures Leads(s, Scan(s), m)
  {
    hide Step, WellFormed, Scan, KindOf, KeptLen;
    ScanUnfold(s);
    if KindOf(s).Token? {
      TokenStep(s);
      m := 0;
    } else {
      PrefixStep(s);
      m := KeptLen(s);
    }
  }

  /** Up to the first replacement, the output is the input. */
  lemma {:induction false} Lead(s: seq<Byte>) returns (m: nat)
    requires WellFormed(s)
    ensures Leads(s, Scan(s), m)
  {
    hide Step, WellFormed, Scan, KindOf;
    if s == [] {
      NothingIsStable();
      m := 0;
    } else if KindOf(s).Copy? {
      hide Leads;
      ScanUnfold(s);
      var n := Step(s).len;
      var rest := Lead(s[n..]);
      LeadOfCopy(s, rest);
      m := n + rest;
    } else {
      m := LeadOfReplacement(s);
    }
  }

  /** A part of the output's beginning without a bracket is also the input's beginning. */
  lemma {:induction false} LeadKept(s: seq<Byte>, n: nat)
    requires WellFormed(s) && n <= |Scan(s)| && forall j :: 0 <= j < n ==> Scan(s)[j] != REDACTED[0]
    ensures n <= |s| && s[..n] == Scan(s)[..n]
  {
    hide WellFormed, Scan;
    var m := Lead(s);
    assert n <= m;
    assert s[..n] == s[..m][..n] == Scan(s)[..m][..n] == Scan(s)[..n];
  }

  lemma {:induction false} PatternKept(s: seq<Byte>, pattern: seq<Byte>)
    requires WellFormed(s) && forall j :: 0 <= j < |pattern| ==> pattern[j] != REDACTED[0]
    ensures pattern <= Scan(s) ==> pattern <= s
  {
    hide WellFormed, Scan;
    if pattern <= Scan(s) {
      LeadKept(s, |pattern|);
    }
  }

  /** The output begins with the byte of the input, or with the bracket of a replaced token. */
  lemma {:induction false} HeadOfScan(s: seq<Byte>)
    requires WellFormed(s)
    ensures Scan(s) == [] <==> s == []
    ensures s != [] && KindOf(s).Token? ==>
              s[0] in {'A' as int, 'g' as int, 's' as int, 'e' as int} && Scan(s)[0] == REDACTED[0]
    ensures s != [] && !KindOf(s).Token? ==> Scan(s)[0] == s[0]
  {
    hide Step, WellFormed, Scan, KindOf;
    if s == [] {
      NothingIsStable();
    } else {
      ScanUnfold(s);
      if KindOf(s).Token? {
        TokenStep(s);
      } else {
        FirstByteKept(s);
      }
    }
  }

  /** Whether a value is closed can be seen in the input or in the output. */
  lemma {:induction false} ClosedAlike(kind: Kind, s: seq<Byte>)
    requires WellFormed(s) && s != [] && kind.KeepsPrefix()
    ensures Scan(s) != [] && (Closes(kind, Scan(s)[0]) <==> Closes(kind, s[0]))
  {
    hide WellFormed, Scan, KindOf;
    HeadOfScan(s);
  }

  // ---- Replaced tokens --------------------------------------------------------------------

  lemma {:induction false} ReplacementBytes()
    ensures REDACTED == [0x5B, 0x52, 0x45, 0x44, 0x41, 0x43, 0x54, 0x45, 0x44, 0x5D]
  {
  }

  /** No fixed pattern begins inside a replacement, and no key does. */
  lemma {:induction false} ReplacementByte(j: nat)
    requires j < 10
    ensures REDACTED[j] !in {'t' as int, 'p' as int, 'a' as int, 'B' as int, 'g' as int, 's' as int, 'e' as int}
    ensures REDACTED[j] !in {'-' as int, 'K' as int, EQUALS} && NotBlank(REDACTED[j])
  {
    ReplacementBytes();
  }

  /** No detector fires inside a replacement. */
  lemma {:induction false} ReplacementIsPlain(j: nat, t: seq<Byte>)
    requires j < 10
    ensures KindOf(REDACTED[j..] + t) == Copy
  {
    hide ExplicitKeyLen, AwsKeyLen, HasGithubPrefix, OpenAiKeyLen, JwtLen, FlagNameLen, SnakeAssignment,
         LowerAssignment, RedactBearer, Until;
    var s := REDACTED[j..] + t;
    assert s[0] == REDACTED[j];
    ReplacementByte(j);
    HeadBytes(s);
    OpenAiHead(s);
    NotAws(j, t);
    UntilIs(s, NotBlank, 0);
    assert s[0..] == s;
    forall i | 0 <= i < 10 - j ensures s[i] == REDACTED[j + i] != EQUALS {
      ReplacementByte(j + i);
    }
    NoKeyWith(s, 9 - j);
  }

  lemma {:induction false} NotAws(j: nat, t: seq<Byte>)
    requires j < 10
    ensures AwsKeyLen(REDACTED[j..] + t).None?
  {
    hide Until;
    var s := REDACTED[j..] + t;
    if j < 9 {
      ReplacementByte(j + 1);
      assert s[1] == REDACTED[j + 1];
    } else {
      assert s[0] == REDACTED[9];
    }
  }

  /** No key extends over a byte that no key may hold. */
  lemma {:induction false} NoKeyWith(s: seq<Byte>, n: nat)
    requires n < |s| && !IsKeyByte(s[n]) && forall j :: 0 <= j <= n ==> s[j] != EQUALS
    ensures SnakeAssignment(s).None? && LowerAssignment(s).None?
  {
    hide HasSuffix;
    var eq := Until(s, Is(EQUALS));
    assert eq > n;
    assert s[..eq][n] == s[n];
  }

  lemma {:induction false} CopiedByte(s: seq<Byte>)
    requires s != [] && s[0] <= 0x7F && KindOf(s).Copy? && WellFormed(s)
    ensures Step(s) == Edit(s[..1], 1)
  {
    hide Step, KindOf, WellFormed, HeadLen;
    CopyStep(s);
    FirstChar(s);
  }

  /** A replacement is copied, so what follows it decides. */
  lemma {:induction false} StableAfterReplacement(j: nat, t: seq<Byte>)
    requires j <= 10 && WellFormed(t)
    ensures WellFormed(REDACTED[j..] + t)
    ensures Stable(REDACTED[j..] + t) <==> Stable(t)
    decreases 10 - j
  {
    hide Step, KindOf, WellFormed, Stable;
    var s := REDACTED[j..] + t;
    if j == 10 {
      assert s == t;
    } else {
      AsciiWellFormed(REDACTED[j..]);
      Concat(REDACTED[j..], t);
      ReplacementIsPlain(j, t);
      CopiedByte(s);
      StableUnfold(s);
      assert s[1..] == REDACTED[j + 1..] + t;
      StableAfterReplacement(j + 1, t);
    }
  }

  // ---- Copied characters ------------------------------------------------------------------

  /** Where a character was copied, the output shows no new key, flag, bearer or GitHub token. */
  lemma {:induction false} CopyShowsNoPattern(s: seq<Byte>)
    requires WellFormed(s) && KindOf(s).Copy?
    ensures ExplicitAssignment(Scan(s)).None? && BearerLen(Scan(s)).None?
  {
    hide WellFormed, Scan, DetectToken, SecretFlagLen, JwtLen, SnakeAssignment, LowerAssignment, PlainThenQuotedLen;
    PatternKept(s, Ascii("token="));
    PatternKept(s, Ascii("password="));
    PatternKept(s, Ascii("api_key="));
    PatternKept(s, BEARER);
  }

  lemma {:induction false} CopyShowsNoGithub(s: seq<Byte>)
    requires WellFormed(s) && GithubTokenLen(s).None?
    ensures GithubTokenLen(Scan(s)).None?
  {
    hide WellFormed, Scan;
    var t := Scan(s);
    if GithubTokenLen(t).Some? {
      var n := GithubTokenLen(t).value;
      assert forall j :: 4 <= j < n ==> t[j] == t[4..][j - 4] && !NotAlphanumeric(t[j]);
      assert forall j :: 0 <= j < n ==> t[j] != REDACTED[0];
      LeadKept(s, n);
      SameRun(s, t, n);
    }
  }

  lemma {:induction false} SameRun(s: seq<Byte>, t: seq<Byte>, n: nat)
    requires GithubTokenLen(t) == Some(n) && n <= |s| && n <= |t| && s[..n] == t[..n]
    ensures GithubTokenLen(s).Some?
  {
    assert forall j :: 0 <= j < n ==> s[j] == s[..n][j] == t[..n][j] == t[j];
    assert forall j :: 0 <= j < n - 4 ==> s[4..][j] == t[4..][j];
    GithubPrefixStands(t, s, n);
    var u := Until(s[4..], NotAlphanumeric);
    assert u >= n - 4;
  }

  lemma {:induction false} GithubPrefixStands(s: seq<Byte>, t: seq<Byte>, n: nat)
    requires 4 <= n <= |s| && n <= |t| && s[..n] == t[..n]
    ensures HasGithubPrefix(s) ==> HasGithubPrefix(t)
  {
    PrefixStands(s, t, Ascii("ghp_"), n);
    PrefixStands(s, t, Ascii("gho_"), n);
    PrefixStands(s, t, Ascii("ght_"), n);
    PrefixStands(s, t, Ascii("ghs_"), n);
  }

  lemma {:induction false} CopyShowsNoFlag(s: seq<Byte>)
    requires WellFormed(s) && SecretFlagLen(s).None?
    ensures SecretFlagLen(Scan(s)).None?
  {
    hide WellFormed, Scan;
    var t := Scan(s);
    if SecretFlagLen(t).Some? {
      var n := SecretFlagLen(t).value;
      FlagBytes(t);
      LeadKept(s, n);
      SameFlag(s, t, n);
    }
  }

  lemma {:induction false} FlagBytes(t: seq<Byte>)
    requires SecretFlagLen(t).Some?
    ensures SecretFlagLen(t).value <= |t|
    ensures forall j :: 0 <= j < SecretFlagLen(t).value ==> t[j] != REDACTED[0]
  {
    var b := Until(t, NotBlank);
    forall j | b <= j < SecretFlagLen(t).value ensures t[j] != REDACTED[0] {
      assert t[j] == t[b..][j - b];
    }
  }

  lemma {:induction false} SameFlag(s: seq<Byte>, t: seq<Byte>, n: nat)
    requires SecretFlagLen(t) == Some(n) && n <= |s| && n <= |t| && s[..n] == t[..n]
    ensures SecretFlagLen(s).Some?
  {
    hide FlagNameLen;
    var b := Until(t, NotBlank);
    var name := FlagNameLen(t[b..]);
    assert forall j :: 0 <= j < n ==> s[j] == s[..n][j] == t[..n][j] == t[j];
    assert name > 0 && b + name == n;
    assert NotBlank(t[b]);
    UntilIs(s, NotBlank, b);
    assert s[b..][..name] == s[..n][b..] == t[..n][b..] == t[b..][..name];
    FlagNameStands(t[b..], s[b..]);
  }

  lemma {:induction false} CopyShowsNoKey(s: seq<Byte>)
    requires WellFormed(s) && SnakeAssignment(s).None? && LowerAssignment(s).None?
    ensures SnakeAssignment(Scan(s)).None? && LowerAssignment(Scan(s)).None?
  {
    hide WellFormed, Scan, IsSnakeKey, IsLowerSecretKey;
    var t := Scan(s);
    var eq := Until(t, Is(EQUALS));
    if eq < |t| && (IsSnakeKey(t[..eq]) || IsLowerSecretKey(t[..eq])) {
      KeyHasNoBracket(t[..eq]);
      assert forall j :: 0 <= j < eq + 1 ==> t[j] != REDACTED[0] by {
        assert forall j :: 0 <= j < eq ==> t[j] == t[..eq][j];
      }
      LeadKept(s, eq + 1);
      SameFirstEquals(t, s, eq);
    }
  }

  lemma {:induction false} KeyHasNoBracket(key: seq<Byte>)
    requires IsSnakeKey(key) || IsLowerSecretKey(key)
    ensures forall j :: 0 <= j < |key| ==> key[j] != REDACTED[0]
  {
    hide HasSuffix;
  }

  /** In the output, a copied character is copied again unless it begins a token known by its length. */
  lemma {:induction false} CopyOrToken(s: seq<Byte>)
    requires WellFormed(s) && s != [] && KindOf(s).Copy?
    ensures var t := Scan(s);
            KindOf(t) == if AwsKeyLen(t).None? && OpenAiKeyLen(t).None? && JwtLen(t).None? then Copy else Token
  {
    CopyIsNone(s);
    CopyShowsNoPattern(s);
    CopyShowsNoGithub(s);
    CopyShowsNoFlag(s);
    CopyShowsNoKey(s);
    KindOfRest(Scan(s));
  }

  lemma {:induction false} CopyIsNone(s: seq<Byte>)
    requires KindOf(s).Copy?
    ensures GithubTokenLen(s).None? && SecretFlagLen(s).None? && SnakeAssignment(s).None? && LowerAssignment(s).None?
  {
    hide ExplicitAssignment, AwsKeyLen, GithubTokenLen, OpenAiKeyLen, SecretFlagLen, JwtLen, SnakeAssignment,
         LowerAssignment, RedactBearer;
  }

  lemma {:induction false} KindOfRest(t: seq<Byte>)
    requires ExplicitAssignment(t).None? && BearerLen(t).None? && GithubTokenLen(t).None? && SecretFlagLen(t).None?
    requires SnakeAssignment(t).None? && LowerAssignment(t).None?
    ensures KindOf(t) == if AwsKeyLen(t).None? && OpenAiKeyLen(t).None? && JwtLen(t).None? then Copy else Token
  {
    hide ExplicitAssignment, AwsKeyLen, GithubTokenLen, OpenAiKeyLen, SecretFlagLen, JwtLen, SnakeAssignment,
         LowerAssignment, RedactBearer;
  }

  // ---- One step ---------------------------------------------------------------------------

  lemma {:induction false} CopySettles(s: seq<Byte>)
    requires WellFormed(s) && s != [] && KindOf(s).Copy?
    ensures var n := Step(s).len;
            && n <= |s| && WellFormed(s[n..]) && WellFormed(Scan(s)) && WellFormed(Scan(s[n..]))
            && (Stable(Scan(s)) <==> Settles(s) && Stable(Scan(s[n..])))
  {
    hide Step, Scan, WellFormed, Stable, KindOf, AwsKeyLen, OpenAiKeyLen, JwtLen, HeadLen;
    ScanUnfold(s);
    OutputWellFormed(s);
    var n, t := Step(s).len, Scan(s);
    OutputWellFormed(s[n..]);
    CopyStep(s);
    FirstChar(s);
    CopyOrToken(s);
    StableUnfold(t);
    assert t[0] == s[0] && t[..n] == s[..n] && t[n..] == Scan(s[n..]);
    if KindOf(t).Copy? {
      CopyStep(t);
      FirstChar(t);
    } else {
      TokenStep(t);
      assert t[0] != REDACTED[0];
    }
  }

  lemma {:induction false} TokenSettles(s: seq<Byte>)
    requires WellFormed(s) && s != [] && KindOf(s).Token?
    ensures var n := Step(s).len;
            && n <= |s| && WellFormed(s[n..]) && WellFormed(Scan(s)) && WellFormed(Scan(s[n..]))
            && (Stable(Scan(s)) <==> Stable(Scan(s[n..])))
  {
    hide Step, Scan, WellFormed, Stable, KindOf;
    ScanUnfold(s);
    TokenStep(s);
    var n := Step(s).len;
    OutputWellFormed(s[n..]);
    StableAfterReplacement(0, Scan(s[n..]));
    assert REDACTED[0..] == REDACTED;
  }

  /** The second pass at a kept prefix: it stops after the replacement exactly if what follows closes the value. */
  lemma {:induction false} PrefixSettles(s: seq<Byte>)
    requires WellFormed(s) && s != [] && KindOf(s).KeepsPrefix() && (KindOf(s).Snake? ==> !(AKIA <= s))
    ensures var n := Step(s).len;
            && n <= |s| && WellFormed(s[n..]) && WellFormed(Scan(s)) && WellFormed(Scan(s[n..]))
            && (Stable(Scan(s)) <==> (s[n..] == [] || Closes(KindOf(s), s[n..][0])) && Stable(Scan(s[n..])))
  {
    hide Step, Scan, WellFormed, Stable, KindOf, KeptLen, ValueLen, RestLen, Closes;
    ScanUnfold(s);
    OutputWellFormed(s);
    PrefixStep(s);
    var n, k, kind := Step(s).len, KeptLen(s), KindOf(s);
    var rest, t, y := s[n..], Scan(s), Scan(s[n..]);
    OutputWellFormed(rest);
    HeadOfScan(rest);
    if rest != [] {
      ClosedAlike(kind, rest);
    }
    assert t == s[..k] + (REDACTED + y);
    KindStands(s, REDACTED + y);
    PrefixStep(t);
    assert t[..k] == s[..k] && t[k..] == REDACTED + y;
    AfterRedacted(kind, y);
    RestIsEmpty(kind, y);
    StableUnfold(t);
    assert t[..k + 10] == s[..k] + REDACTED && t[k + 10..] == y;
  }

  /** An upper-case key that begins with AKIA is taken for an AWS key once its value is replaced. */
  lemma {:induction false} AwsKeyUnsettled(s: seq<Byte>)
    requires WellFormed(s) && s != [] && KindOf(s).Snake? && AKIA <= s
    ensures WellFormed(Scan(s)) && !Stable(Scan(s))
  {
    hide Step, Scan, WellFormed, Stable, KindOf, KeptLen;
    ScanUnfold(s);
    OutputWellFormed(s);
    PrefixStep(s);
    var t, k := Scan(s), KeptLen(s);
    assert t == s[..k] + REDACTED + Scan(s[Step(s).len..]);
    SnakeKeyBytes(s);
    AwsAgain(t, k);
    StableUnfold(t);
    TokenStep(t);
    assert t[0] == 'A' as int;
  }

  lemma {:induction false} SnakeKeyBytes(s: seq<Byte>)
    requires KindOf(s).Snake?
    ensures forall j :: 0 <= j < KeptLen(s) ==> !EndsAwsKey(s[j])
  {
    hide ExplicitAssignment, DetectToken, SecretFlagLen, JwtLen, LowerAssignment, BearerLen;
    var key := s[..KeptLen(s) - 1];
    assert IsSnakeKey(key);
    assert forall j :: 0 <= j < |key| ==> s[j] == key[j];
  }

  lemma {:induction false} AwsAgain(t: seq<Byte>, k: nat)
    requires 4 <= k && k + 10 <= |t| && AKIA <= t[..k] && t[k..k + 10] == REDACTED
    requires forall j :: 0 <= j < k ==> !EndsAwsKey(t[j])
    ensures t[0] == 'A' as int && KindOf(t).Token?
  {
    hide ExplicitKeyLen, GithubTokenLen, OpenAiKeyLen, SecretFlagLen, JwtLen, SnakeAssignment, LowerAssignment,
         RedactBearer;
    assert t[..4] == t[..k][..4] == AKIA;
    assert t[0] == AKIA[0];
    HeadBytes(t);
    assert forall j :: k <= j < k + 10 ==> t[j] == t[k..k + 10][j - k] && !EndsAwsKey(t[j]);
    var u := Until(t[4..], EndsAwsKey);
    assert u < |t| - 4 ==> t[4 + u] == t[4..][u];
    assert u >= k + 6;
  }

  lemma {:induction false} StepSettles(s: seq<Byte>)
    requires WellFormed(s) && s != []
    ensures var n := Step(s).len;
            && n <= |s| && WellFormed(s[n..]) && WellFormed(Scan(s)) && WellFormed(Scan(s[n..]))
            && (Stable(Scan(s)) <==> Settles(s) && Stable(Scan(s[n..])))
  {
    hide Step, Scan, WellFormed, Stable, KindOf, AwsKeyLen, OpenAiKeyLen, JwtLen, Closes;
    ScanUnfold(s);
    OutputWellFormed(s[Step(s).len..]);
    match KindOf(s)
    case Copy => CopySettles(s);
    case Token => TokenSettles(s);
    case Snake =>
      if AKIA <= s {
        AwsKeyUnsettled(s);
      } else {
        PrefixSettles(s);
        SnakeCloses(s);
      }
    case _ => PrefixSettles(s);
  }

  /** The value of an upper-case key runs up to a byte that closes it. */
  lemma {:induction false} SnakeCloses(s: seq<Byte>)
    requires WellFormed(s) && s != [] && KindOf(s).Snake?
    ensures var n := Step(s).len; n <= |s| && (n < |s| ==> Closes(Snake, s[n]))
  {
    hide Step, KindOf, KeptLen, WellFormed;
    ScanUnfold(s);
    PrefixStep(s);
    var k := KeptLen(s);
    var u := ValueLen(Snake, s[k..]);
    assert k + u < |s| ==> s[k..][u] == s[k + u];
  }

  // ---- The theorem ------------------------------------------------------------------------

  lemma {:induction false} SettledIsStable(s: seq<Byte>)
    requires WellFormed(s)
    ensures WellFormed(Scan(s)) && (Stable(Scan(s)) <==> Settled(s))
    decreases |s|
  {
    hide Step, Scan, WellFormed, Stable, Settles;
    OutputWellFormed(s);
    if s == [] {
      NothingIsStable();
    } else {
      StepSettles(s);
      SettledUnfold(s);
      SettledIsStable(s[Step(s).len..]);
    }
  }

  /** A second pass changes nothing exactly when every step of the first one is settled. */
  lemma {:induction false} RescanIff(s: seq<Byte>)
    requires WellFormed(s)
    ensures WellFormed(Scan(s)) && (Scan(Scan(s)) == Scan(s) <==> Settled(s))
  {
    hide Scan, WellFormed, Stable, Settled;
    SettledIsStable(s);
    FixpointIff(Scan(s));
  }
}
