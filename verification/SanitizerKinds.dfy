/**
 What a step of the sanitizer does, by kind: it copies a character, replaces a whole token, or
 keeps a prefix such as a key or a flag and replaces the value after it. Except for one kind
 of key, the kept prefix alone decides the kind.
 */
module SanitizerKinds {
  import opened Wrappers
  import opened Utf8
  import opened Spans
  import opened Sanitizer

  const AKIA: seq<Byte> := Ascii("AKIA")

  datatype Kind = Copy | Token | Explicit | Bearer | Flag | Snake | Lower {
    /** A prefix is kept and the value after it replaced. */
    predicate KeepsPrefix() { !Copy? && !Token? }
  }

  /** The bytes that keys are made of. */
  predicate IsKeyByte(b: Byte) {
    IsUpper(b) || IsLower(b) || IsDigit(b) || b == '_' as int
  }

  /** The first detector, in order of priority, that fires at the front of `s`. */
  function KindOf(s: seq<Byte>): Kind {
    if ExplicitAssignment(s).Some? then Explicit
    else if BearerLen(s).Some? then Bearer
    else if DetectToken(s).Some? then Token
    else if SecretFlagLen(s).Some? then Flag
    else if JwtLen(s).Some? then Token
    else if SnakeAssignment(s).Some? then Snake
    else if LowerAssignment(s).Some? then Lower
    else Copy
  }

  /** The length of the prefix that is kept. */
  function KeptLen(s: seq<Byte>): (n: nat)
    ensures n <= |s|
  {
    match KindOf(s)
    case Explicit => ExplicitKeyLen(s) + 1
    case Bearer => 7
    case Flag => SecretFlagLen(s).value
    case Snake => Until(s, Is(EQUALS)) + 1
    case Lower => Until(s, Is(EQUALS)) + 1
    case _ => 0
  }

  /** The length of what is replaced, when `v` follows the kept prefix. */
  function ValueLen(kind: Kind, v: seq<Byte>): (n: nat)
    ensures n <= |v|
  {
    match kind
    case Explicit => PlainThenQuotedLen(v)
    case Bearer => var u := Until(v, EndsBearer); u + Until(v[u..], NotWhitespace)
    case Flag => Until(v, IsWhitespace)
    case Snake => Until(v, EndsSnakeValue)
    case Lower => QuotedOrPlainLen(v)
    case _ => 0
  }

  // ---- The step by kind ---------------------------------------------------------------

  lemma {:induction false} KeptBounds(s: seq<Byte>)
    requires KindOf(s).KeepsPrefix()
    ensures 4 <= KeptLen(s) <= |s|
    ensures KindOf(s).Explicit? || KindOf(s).Snake? || KindOf(s).Lower? ==> s[KeptLen(s) - 1] == EQUALS
  {
    hide PlainThenQuotedLen, DetectToken, JwtLen, QuotedOrPlainLen, IsLowerSecretKey, Until;
    if KindOf(s).Lower? {
      LowerKeyBytes(s[..KeptLen(s) - 1]);
    }
  }

  lemma {:induction false} CopyStep(s: seq<Byte>)
    requires s != []
    ensures KindOf(s).Copy? <==> Detect(s).None?
    ensures KindOf(s).Copy? ==> Step(s) == Edit(s[..HeadLen(s)], HeadLen(s))
  {
    hide ExplicitAssignment, SecretFlagLen, JwtLen, SnakeAssignment, LowerAssignment, RedactValue, RedactFlag, HeadLen,
         RedactBearer, AwsKeyLen, GithubTokenLen, OpenAiKeyLen;
  }

  /** Whole tokens begin with one of four letters and leave only the replacement. */
  lemma {:induction false} TokenStep(s: seq<Byte>)
    requires KindOf(s).Token?
    ensures s != [] && Step(s).text == REDACTED
    ensures s[0] in {'A' as int, 'g' as int, 's' as int, 'e' as int}
  {
    hide ExplicitAssignment, SecretFlagLen, SnakeAssignment, LowerAssignment, RedactValue, RedactFlag, HeadLen,
         RedactBearer;
  }

  lemma {:induction false} PrefixStep(s: seq<Byte>)
    requires KindOf(s).KeepsPrefix()
    ensures var k := KeptLen(s);
            4 <= k <= |s| && Step(s) == Edit(s[..k] + REDACTED, k + ValueLen(KindOf(s), s[k..]))
  {
    hide ExplicitKeyLen, FlagNameLen, IsSnakeKey, IsLowerSecretKey, PlainThenQuotedLen, QuotedOrPlainLen, DetectToken,
         JwtLen, Until;
    KeptBounds(s);
    var k := KeptLen(s);
    match KindOf(s)
    case Explicit => assert s[..k - 1] + [EQUALS] == s[..k];
    case Snake => assert s[..k - 1] + [EQUALS] == s[..k];
    case Lower => assert s[..k - 1] + [EQUALS] == s[..k];
    case Bearer => BearerStep(s);
    case _ =>
  }

  lemma {:induction false} BearerStep(s: seq<Byte>)
    requires BEARER <= s
    ensures Step(s) == RedactBearer(s) == Edit(s[..7] + REDACTED, 7 + ValueLen(Bearer, s[7..]))
  {
    var u := Until(s[7..], EndsBearer);
    assert s[7..][u..] == s[7 + u..];
    assert s[0] == 'B' as int;
  }

  /** Where the run that makes up a whole token starts, and what ends it, by the token's first byte. */
  function TokenStart(first: Byte): nat {
    if first == 'A' as int || first == 'g' as int then 4 else 3
  }

  function TokenStop(first: Byte): Byte -> bool {
    if first == 'A' as int then EndsAwsKey
    else if first == 'g' as int then NotAlphanumeric
    else if first == 's' as int then EndsValue
    else IsLineSpace
  }

  /** A prefix without delimiters only moves the start of the run. */
  lemma {:induction false} PrefixRun(s: seq<Byte>, prefix: seq<Byte>)
    requires 3 <= |prefix| && prefix <= s && forall j :: 0 <= j < |prefix| ==> !EndsValue(prefix[j])
    ensures 3 + Until(s[3..], EndsValue) == |prefix| + Until(s[|prefix|..], EndsValue)
  {
    hide EndsValue;
    var u := Until(s[|prefix|..], EndsValue);
    assert forall j :: 0 <= j < |prefix| - 3 ==> s[3..][j] == prefix[j + 3];
    assert forall j :: |prefix| - 3 <= j < |s| - 3 ==> s[3..][j] == s[|prefix|..][j - (|prefix| - 3)];
    UntilIs(s[3..], EndsValue, |prefix| - 3 + u);
  }

  lemma {:induction false} OpenAiRun(s: seq<Byte>)
    requires OpenAiKeyLen(s).Some?
    ensures |s| >= 3 && OpenAiKeyLen(s).value == 3 + Until(s[3..], EndsValue)
  {
    hide Until, EndsValue;
    OpenAiHead(s);
    PrefixClean();
    if Ascii("sk-proj-") <= s {
      PrefixRun(s, Ascii("sk-proj-"));
    }
    if Ascii("sk-svcacct-") <= s {
      PrefixRun(s, Ascii("sk-svcacct-"));
    }
    if Ascii("sk-admin-") <= s {
      PrefixRun(s, Ascii("sk-admin-"));
    }
  }

  lemma {:induction false} PrefixClean()
    ensures forall j :: 0 <= j < 8 ==> !EndsValue(Ascii("sk-proj-")[j])
    ensures forall j :: 0 <= j < 11 ==> !EndsValue(Ascii("sk-svcacct-")[j])
    ensures forall j :: 0 <= j < 9 ==> !EndsValue(Ascii("sk-admin-")[j])
  {
  }

  /** The step at a whole token, by the detector that fires. */
  lemma {:induction false} TokenLength(s: seq<Byte>)
    requires KindOf(s).Token?
    ensures s != [] && Step(s).len ==
            if AwsKeyLen(s).Some? then AwsKeyLen(s).value
            else if GithubTokenLen(s).Some? then GithubTokenLen(s).value
            else if OpenAiKeyLen(s).Some? then OpenAiKeyLen(s).value
            else JwtLen(s).value
    ensures AwsKeyLen(s).Some? || GithubTokenLen(s).Some? || OpenAiKeyLen(s).Some? || JwtLen(s).Some?
  {
    hide ExplicitAssignment, SecretFlagLen, SnakeAssignment, LowerAssignment, RedactValue, RedactFlag, HeadLen,
         RedactBearer, AwsKeyLen, GithubTokenLen, OpenAiKeyLen, JwtLen;
    TokenStep(s);
  }

  lemma {:induction false} TokenRun(s: seq<Byte>)
    requires KindOf(s).Token?
    ensures TokenStart(s[0]) <= |s|
    ensures Step(s).len == TokenStart(s[0]) + Until(s[TokenStart(s[0])..], TokenStop(s[0]))
  {
    hide Step, KindOf, Until, CountDots, OpenAiKeyLen;
    TokenLength(s);
    HeadBytes(s);
    OpenAiHead(s);
    if OpenAiKeyLen(s).Some? {
      OpenAiRun(s);
    }
  }

  /** Whatever is not replaced as a whole token keeps its first byte. */
  lemma {:induction false} FirstByteKept(s: seq<Byte>)
    requires WellFormed(s) && s != [] && !KindOf(s).Token?
    ensures Step(s).text != [] && Step(s).text[0] == s[0]
  {
    hide Step, KindOf, KeptLen, WellFormed, HeadLen;
    if KindOf(s).Copy? {
      CopyStep(s);
      FirstChar(s);
    } else {
      PrefixStep(s);
    }
  }

  // ---- The kept prefix decides ----------------------------------------------------------

  lemma {:induction false} NoFlag(s: seq<Byte>)
    requires s != [] && s[0] != '-' as int
    ensures FlagNameLen(s) == 0
  {
  }

  /** No detector of higher priority takes a snake-case key that does not start with AKIA. */
  lemma {:induction false} NoOtherDetection(s: seq<Byte>, n: nat)
    requires n < |s| && s[n] == EQUALS && IsSnakeKey(s[..n])
    requires !(AKIA <= s[..n + 1])
    ensures ExplicitAssignment(s).None? && DetectToken(s).None? && SecretFlagLen(s).None? && JwtLen(s).None?
  {
    assert forall j :: 0 <= j < n ==> IsUpper(s[j]) || IsDigit(s[j]) || s[j] == '_' as int by {
      forall j | 0 <= j < n ensures IsUpper(s[j]) || IsDigit(s[j]) || s[j] == '_' as int {
        assert s[j] == s[..n][j];
      }
    }
    assert !IsLower(s[0]) && !IsLower(s[1]) && s[0] != '-' as int && NotBlank(s[0]);
    assert s[..4] == s[..n + 1][..4];
    LowerPatterns(s);
    UntilIs(s, NotBlank, 0);
    assert s[0..] == s;
    NoFlag(s);
  }

  lemma {:induction false} LowerPatterns(s: seq<Byte>)
    requires |s| >= 2 && !IsLower(s[0]) && !IsLower(s[1])
    ensures ExplicitKeyLen(s) == 0 && !(BEARER <= s) && !HasGithubPrefix(s) && !(Ascii("eyJ") <= s)
    ensures OpenAiKeyLen(s).None?
  {
    assert BEARER <= s ==> s[1] == BEARER[1];
    assert s[0] != 's' as int;
  }

  lemma {:induction false} SameFirstEquals(s: seq<Byte>, t: seq<Byte>, n: nat)
    requires n < |s| && n < |t| && s[..n + 1] == t[..n + 1] && Until(s, Is(EQUALS)) == n
    ensures Until(t, Is(EQUALS)) == n && s[..n] == t[..n]
  {
    assert forall j :: 0 <= j <= n ==> s[j] == s[..n + 1][j] == t[..n + 1][j] == t[j];
    UntilIs(t, Is(EQUALS), n);
  }

  /** A pattern that ends at its only equals sign depends on nothing after the first equals sign. */
  lemma {:induction false} PatternStands(s: seq<Byte>, t: seq<Byte>, n: nat, pattern: seq<Byte>)
    requires n < |s| && n < |t| && s[..n + 1] == t[..n + 1] && Until(s, Is(EQUALS)) == n
    requires pattern != [] && pattern[|pattern| - 1] == EQUALS
    requires forall j :: 0 <= j < |pattern| - 1 ==> pattern[j] != EQUALS
    ensures pattern <= s ==> pattern <= t
  {
    if pattern <= s {
      UntilIs(s, Is(EQUALS), |pattern| - 1);
      assert pattern == s[..n + 1];
    }
  }

  lemma {:induction false} ExplicitStands(s: seq<Byte>, t: seq<Byte>, n: nat)
    requires n < |s| && n < |t| && s[..n + 1] == t[..n + 1] && Until(s, Is(EQUALS)) == n
    requires ExplicitKeyLen(s) == 0
    ensures ExplicitKeyLen(t) == 0
  {
    hide Until;
    SameFirstEquals(s, t, n);
    PatternStands(t, s, n, Ascii("token="));
    PatternStands(t, s, n, Ascii("password="));
    PatternStands(t, s, n, Ascii("api_key="));
  }

  lemma {:induction false} GithubStands(s: seq<Byte>, t: seq<Byte>, n: nat)
    requires 4 <= n < |s| && n < |t| && s[..n + 1] == t[..n + 1] && s[n] == EQUALS
    requires GithubTokenLen(s).None?
    ensures GithubTokenLen(t).None?
  {
    assert forall j :: 0 <= j <= n ==> s[j] == s[..n + 1][j] == t[..n + 1][j] == t[j];
    var u := Until(t[4..], NotAlphanumeric);
    assert t[4..][n - 4] == EQUALS && NotAlphanumeric(EQUALS);
    assert u <= n - 4;
    UntilIs(s[4..], NotAlphanumeric, u);
  }

  /** The first bytes that each detector of fixed patterns asks for. */
  lemma {:induction false} HeadBytes(s: seq<Byte>)
    requires s != []
    ensures ExplicitKeyLen(s) > 0 ==> s[0] in {'t' as int, 'p' as int, 'a' as int}
    ensures BEARER <= s ==> s[0] == 'B' as int
    ensures AwsKeyLen(s).Some? ==> s[0] == 'A' as int
    ensures HasGithubPrefix(s) ==> s[0] == 'g' as int
    ensures FlagNameLen(s) > 0 ==> s[0] == '-' as int
    ensures Ascii("sk-") <= s ==> s[0] == 's' as int && s[2] == '-' as int
    ensures JwtLen(s).Some? ==> s[0] == 'e' as int && s[2] == 'J' as int
  {
    hide CountDots, Until;
  }

  lemma {:induction false} OpenAiHead(s: seq<Byte>)
    ensures OpenAiKeyLen(s).Some? ==> Ascii("sk-") <= s
  {
    hide Until;
    PrefixOfPrefix(Ascii("sk-"), Ascii("sk-proj-"), s);
    PrefixOfPrefix(Ascii("sk-"), Ascii("sk-svcacct-"), s);
    PrefixOfPrefix(Ascii("sk-"), Ascii("sk-admin-"), s);
  }

  lemma {:induction false} PrefixOfPrefix(a: seq<Byte>, b: seq<Byte>, s: seq<Byte>)
    requires a <= b
    ensures b <= s ==> a <= s
  {
  }

  lemma {:induction false} NotPrefix(a: seq<Byte>, b: seq<Byte>, s: seq<Byte>)
    requires b <= s && !(a <= s)
    ensures !(a <= b)
  {
  }

  /** No whole token starts with another letter. */
  lemma {:induction false} NoTokenHead(s: seq<Byte>)
    requires s != [] && s[0] !in {'B' as int, 'A' as int, 'g' as int, 's' as int}
    ensures DetectToken(s).None? && BearerLen(s).None?
  {
    hide AwsKeyLen, HasGithubPrefix, OpenAiKeyLen, RedactBearer;
    HeadBytes(s);
    OpenAiHead(s);
  }

  /** Nothing but the lower-case detector fires at a lower-case key. */
  lemma {:induction false} LowerAlone(s: seq<Byte>, n: nat)
    requires n < |s| && s[n] == EQUALS && IsLowerSecretKey(s[..n])
    requires ExplicitKeyLen(s) == 0 && GithubTokenLen(s).None?
    ensures KindOf(s).Lower? && KeptLen(s) == n + 1
  {
    hide ExplicitKeyLen, GithubTokenLen, AwsKeyLen, OpenAiKeyLen, JwtLen, FlagNameLen, QuotedOrPlainLen,
         HasSuffix, RedactBearer, IsLowerSecretKey, IsSnakeKey;
    LowerKeyBytes(s[..n]);
    assert forall j :: 0 <= j < n ==> s[j] == s[..n][j];
    UntilIs(s, Is(EQUALS), n);
    HeadBytes(s);
    OpenAiHead(s);
    UntilIs(s, NotBlank, 0);
    assert s[0..] == s;
  }

  lemma {:induction false} LowerKeyBytes(key: seq<Byte>)
    requires IsLowerSecretKey(key)
    ensures |key| >= 4 && !IsSnakeKey(key)
    ensures forall j :: 0 <= j < |key| ==>
              !IsUpper(key[j]) && key[j] != '-' as int && NotBlank(key[j]) && key[j] != EQUALS
  {
    hide HasSuffix;
    assert |key| >= 4 by { SuffixLength(key); }
  }

  lemma {:induction false} SuffixLength(key: seq<Byte>)
    requires IsLowerSecretKey(key)
    ensures |key| >= 4
  {
  }

  lemma {:induction false} FlagStands(s: seq<Byte>, v: seq<Byte>)
    requires KindOf(s).Flag?
    ensures var t := s[..KeptLen(s)] + v; KindOf(t).Flag? && KeptLen(t) == KeptLen(s)
  {
    hide ExplicitKeyLen, DetectToken, JwtLen, SnakeAssignment, LowerAssignment, FlagNameLen, BearerLen;
    var k := KeptLen(s);
    var t := s[..k] + v;
    var b := Until(s, NotBlank);
    HeadBytes(s[b..]);
    assert forall j :: 0 <= j < k ==> t[j] == s[j];
    UntilIs(t, NotBlank, b);
    SameSlice(s, t, b, FlagNameLen(s[b..]));
    FlagNameStands(s[b..], t[b..]);
    HeadBytes(t);
    NoTokenHead(t);
  }

  lemma {:induction false} SameSlice(s: seq<Byte>, t: seq<Byte>, b: nat, n: nat)
    requires b + n <= |s| && b + n <= |t| && forall j :: 0 <= j < b + n ==> t[j] == s[j]
    ensures t[b..][..n] == s[b..][..n]
  {
  }

  lemma {:induction false} FlagNameStands(s: seq<Byte>, t: seq<Byte>)
    requires FlagNameLen(s) > 0 && FlagNameLen(s) <= |t| && t[..FlagNameLen(s)] == s[..FlagNameLen(s)]
    ensures FlagNameLen(t) == FlagNameLen(s)
  {
    PrefixStands(s, t, Ascii("--secret "), FlagNameLen(s));
    PrefixStands(t, s, Ascii("--secret "), FlagNameLen(s));
    if FlagNameLen(s) == 10 {
      PrefixStands(s, t, Ascii("--api-key "), 10);
    }
  }

  lemma {:induction false} PrefixStands(s: seq<Byte>, t: seq<Byte>, pattern: seq<Byte>, n: nat)
    requires |pattern| <= n <= |s| && n <= |t| && s[..n] == t[..n]
    ensures pattern <= s ==> pattern <= t
  {
    if pattern <= s {
      assert pattern == s[..n][..|pattern|] == t[..n][..|pattern|] == t[..|pattern|];
    }
  }

  /**
   The kept prefix alone decides the kind: whatever is put in place of the value, the same
   detector fires and keeps the same prefix. The exception is an upper-case key that begins
   with AKIA, whose value decides between two kinds.
   */
  lemma {:induction false} KindStands(s: seq<Byte>, v: seq<Byte>)
    requires KindOf(s).KeepsPrefix() && (KindOf(s).Snake? ==> !(AKIA <= s))
    ensures var t := s[..KeptLen(s)] + v; KindOf(t) == KindOf(s) && KeptLen(t) == KeptLen(s)
  {
    hide KindOf, KeptLen;
    KeptBounds(s);
    var k := KeptLen(s);
    var t := s[..k] + v;
    assert t[..k] == s[..k];
    match KindOf(s)
    case Explicit => ExplicitKindStands(s, t);
    case Bearer => BearerStands(s, t);
    case Flag => FlagStands(s, v);
    case Snake => SnakeStands(s, t, k - 1);
    case Lower => LowerStands(s, t, k - 1);
  }

  /** The kept prefix and the value together: only an AWS key with its value takes the place of a kept key. */
  lemma {:induction false} KindStandsIff(s: seq<Byte>, v: seq<Byte>)
    requires KindOf(s).KeepsPrefix()
    ensures var t := s[..KeptLen(s)] + v;
            KindOf(t) == KindOf(s) && KeptLen(t) == KeptLen(s) <==> !(KindOf(s).Snake? && AwsKeyLen(t).Some?)
  {
    hide KindOf, KeptLen, AwsKeyLen;
    KeptBounds(s);
    var t := s[..KeptLen(s)] + v;
    assert t[..KeptLen(s)] == s[..KeptLen(s)];
    if KindOf(s).Snake? && AKIA <= s {
      AwsOrSnake(s, t, KeptLen(s) - 1);
    } else {
      KindStands(s, v);
      if KindOf(s).Snake? {
        NotAws(s, t);
      }
    }
  }

  lemma {:induction false} NotAws(s: seq<Byte>, t: seq<Byte>)
    requires |s| >= 4 && |t| >= 4 && s[..4] == t[..4] && !(AKIA <= s)
    ensures AwsKeyLen(t).None?
  {
  }

  /** An upper-case key that begins with AKIA stands unless it and its value make an AWS key. */
  lemma {:induction false} AwsOrSnake(s: seq<Byte>, t: seq<Byte>, n: nat)
    requires KindOf(s).Snake? && AKIA <= s && KeptLen(s) == n + 1
    requires n < |s| && n < |t| && t[..n + 1] == s[..n + 1]
    ensures AwsKeyLen(t).Some? <==> KindOf(t) != Snake
    ensures AwsKeyLen(t).None? ==> KeptLen(t) == n + 1
  {
    hide ExplicitKeyLen, AwsKeyLen, HasGithubPrefix, OpenAiKeyLen, FlagNameLen, JwtLen, LowerAssignment, RedactBearer,
         IsSnakeKey, PlainThenQuotedLen;
    SameFirstEquals(s, t, n);
    assert n >= 3 by { SnakeLength(s); }
    assert t[0] == t[..n + 1][0] == s[0] == AKIA[0] == 'A' as int;
    HeadBytes(t);
    OpenAiHead(t);
    UntilIs(t, NotBlank, 0);
    assert t[0..] == t;
  }

  lemma {:induction false} SnakeLength(s: seq<Byte>)
    requires KindOf(s).Snake?
    ensures KeptLen(s) >= 4
  {
    hide ExplicitAssignment, DetectToken, SecretFlagLen, JwtLen, LowerAssignment, BearerLen;
  }

  lemma {:induction false} ExplicitKindStands(s: seq<Byte>, t: seq<Byte>)
    requires KindOf(s).Explicit? && KeptLen(s) <= |s| && KeptLen(s) <= |t| && t[..KeptLen(s)] == s[..KeptLen(s)]
    ensures KindOf(t).Explicit? && KeptLen(t) == KeptLen(s)
  {
    hide ExplicitKeyLen, DetectToken, SecretFlagLen, JwtLen, SnakeAssignment, LowerAssignment, PlainThenQuotedLen;
    ExplicitKeyStands(s, t);
  }

  lemma {:induction false} BearerStands(s: seq<Byte>, t: seq<Byte>)
    requires KindOf(s).Bearer? && KeptLen(s) <= |s| && KeptLen(s) <= |t| && t[..KeptLen(s)] == s[..KeptLen(s)]
    ensures KindOf(t).Bearer? && KeptLen(t) == KeptLen(s)
  {
    hide ExplicitKeyLen, DetectToken, SecretFlagLen, JwtLen, SnakeAssignment, LowerAssignment, PlainThenQuotedLen;
    HeadBytes(t);
    PrefixStands(s, t, BEARER, 7);
  }

  lemma {:induction false} ExplicitKeyStands(s: seq<Byte>, t: seq<Byte>)
    requires ExplicitKeyLen(s) > 0 && ExplicitKeyLen(s) < |t| &&
        t[..ExplicitKeyLen(s) + 1] == s[..ExplicitKeyLen(s) + 1]
    ensures ExplicitKeyLen(t) == ExplicitKeyLen(s)
  {
    var n := ExplicitKeyLen(s) + 1;
    assert t[0] == t[..n][0] == s[..n][0] == s[0];
    PrefixStands(s, t, if n == 6 then Ascii("token=") else if n == 9 then Ascii("password=") else Ascii("api_key="), n);
  }

  lemma {:induction false} SnakeStands(s: seq<Byte>, t: seq<Byte>, n: nat)
    requires KindOf(s).Snake? && !(AKIA <= s) && KeptLen(s) == n + 1
    requires n < |s| && n < |t| && t[..n + 1] == s[..n + 1]
    ensures KindOf(t).Snake? && KeptLen(t) == n + 1
  {
    hide ExplicitAssignment, DetectToken, SecretFlagLen, JwtLen, LowerAssignment, BearerLen;
    SameFirstEquals(s, t, n);
    assert n >= 3;
    assert s[..n + 1] <= s && t[..n + 1] == s[..n + 1];
    NotPrefix(AKIA, s[..n + 1], s);
    NoOtherDetection(t, n);
    NotBearer(t);
  }

  lemma {:induction false} NotBearer(t: seq<Byte>)
    requires DetectToken(t).None?
    ensures BearerLen(t).None?
  {
  }

  lemma {:induction false} LowerStands(s: seq<Byte>, t: seq<Byte>, n: nat)
    requires KindOf(s).Lower? && KeptLen(s) == n + 1
    requires n < |s| && n < |t| && t[..n + 1] == s[..n + 1]
    ensures KindOf(t).Lower? && KeptLen(t) == n + 1
  {
    hide SecretFlagLen, JwtLen, RedactBearer, AwsKeyLen, GithubTokenLen, OpenAiKeyLen, ExplicitKeyLen, IsLowerSecretKey;
    SameFirstEquals(s, t, n);
    LowerKeyBytes(s[..n]);
    ExplicitStands(s, t, n);
    GithubStands(s, t, n);
    LowerAlone(t, n);
  }
}
