/**
 Values that the sanitizer does not hide: inputs at which each condition for secrecy fails,
 with what the output then shows.
 */
module SanitizerExposures {
  import opened Wrappers
  import opened Utf8
  import opened Spans
  import opened Sanitizer
  import opened SanitizerKinds
  import opened SanitizerScan
  import opened SanitizerReach
  import opened SanitizerSecrecy
  import opened SanitizerContexts

  /** A value: no delimiter and no form feed. */
  ghost predicate IsSecretValue(v: seq<Byte>) {
    forall j :: 0 <= j < |v| ==> !EndsValue(v[j]) && v[j] != 0x0C
  }

  lemma {:induction false} ValueEnd(v: seq<Byte>, r: seq<Byte>, stop: Byte -> bool)
    requires forall j :: 0 <= j < |v| ==> !stop(v[j])
    ensures Until(v + r, stop) == |v| + Until(r, stop)
  {
    UntilAcross([], v, r, 0, stop);
    assert [] + v + r == v + r && (v + r)[0..] == v + r;
  }

  // ---- A key that is taken for a GitHub token -----------------------------------------------

  /** All of the key, up to its equals sign, is a GitHub token: `ghp_password=`, `ghp_abctoken=`. */
  predicate IsWholeToken(key: seq<Byte>) {
    EndsInEquals(key) && GithubTokenLen(key) == Some(|key| - 1)
  }

  lemma {:induction false} TokenFirst(s: seq<Byte>)
    requires s != [] && s[0] == 'g' as int && GithubTokenLen(s).Some?
    ensures Step(s) == Edit(REDACTED, GithubTokenLen(s).value)
  {
    hide ExplicitKeyLen, SecretFlagLen, JwtLen, DetectKey, GithubTokenLen, OpenAiKeyLen, AwsKeyLen, HasGithubPrefix,
         RedactBearer, PlainThenQuotedLen;
    HeadBytes(s);
  }

  lemma {:induction false} EqualsIsCopied(v: seq<Byte>)
    requires WellFormed([EQUALS] + v) && WellFormed(v)
    ensures Scan([EQUALS] + v) == [EQUALS] + Scan(v)
  {
    hide ExplicitKeyLen, DetectToken, JwtLen, FlagNameLen, Step, Scan, WellFormed, PlainThenQuotedLen, QuotedOrPlainLen;
    var s := [EQUALS] + v;
    HeadBytes(s);
    NoTokenHead(s);
    UntilIs(s, NotBlank, 0);
    assert s[0..] == s && s[1..] == v;
    UntilIs(s, Is(EQUALS), 0);
    CopyStep(s);
    assert HeadLen(s) == 1 && s[..1] == [EQUALS];
    ScanUnfold(s);
  }

  /** Only the key is replaced, and the value is scanned as ordinary text. */
  lemma {:induction false} TokenKeyExposesValue(key: seq<Byte>, v: seq<Byte>)
    requires IsWholeToken(key) && WellFormed(key + v) && WellFormed(v)
    ensures Scan(key + v) == REDACTED + [EQUALS] + Scan(v)
  {
    hide Step, Scan, WellFormed, GithubTokenLen;
    var s := key + v;
    GithubBefore(key, v);
    GithubLetter(key);
    TokenFirst(s);
    ScanUnfold(s);
    assert s[|key| - 1..] == [EQUALS] + v;
    EqualsIsCopied(v);
  }

  /** Every lower-case secret key is either such a token or a secret key whose value is hidden. */
  lemma {:induction false} LowerKeyOrToken(key: seq<Byte>)
    requires EndsInEquals(key) && IsLowerSecretKey(key[..|key| - 1])
    ensures IsSecretKey(key) <==> !IsWholeToken(key)
  {
    hide IsLowerSecretKey, GithubTokenLen, IsSnakeKey;
    LowerKeyBytes(key[..|key| - 1]);
    if IsWholeToken(key) {
      GithubLetter(key);
      ExplicitNotGithub(key);
    }
  }

  lemma {:induction false} ExplicitNotGithub(key: seq<Byte>)
    ensures IsExplicitKey(key) ==> key[0] != 'g' as int
  {
  }

  const GHP_PASSWORD: seq<Byte> := Ascii("ghp_password")

  /** A key with a secret suffix can be such a token. */
  lemma {:induction false} TokenWithSecretSuffix()
    ensures IsLowerSecretKey(GHP_PASSWORD) && IsWholeToken(GHP_PASSWORD + [EQUALS])
  {
    hide IsLowerSecretKey, GithubTokenLen, GHP_PASSWORD;
    PasswordIsKey();
    PasswordIsToken();
  }

  lemma {:induction false} PasswordIsKey()
    ensures IsLowerSecretKey(GHP_PASSWORD)
  {
    assert GHP_PASSWORD[3..] == Ascii("_password");
  }

  lemma {:induction false} PasswordIsToken()
    ensures |GHP_PASSWORD| == 12 && GithubTokenLen(GHP_PASSWORD + [EQUALS]) == Some(12)
  {
    hide GithubTokenLen;
    assert Ascii("ghp_") <= GHP_PASSWORD;
    TwelveBytes(GHP_PASSWORD + [EQUALS]);
  }

  lemma {:induction false} TwelveBytes(key: seq<Byte>)
    requires |key| == 13 && Ascii("ghp_") <= key && key[12] == EQUALS && forall j :: 4 <= j < 12 ==> IsLower(key[j])
    ensures GithubTokenLen(key) == Some(12)
  {
    assert forall j :: 0 <= j < 8 ==> key[4..][j] == key[j + 4];
    UntilIs(key[4..], NotAlphanumeric, 8);
  }

  // ---- A prefix that is taken for a value ---------------------------------------------------

  lemma {:induction false} BearerTakesBearer(v: seq<Byte>)
    requires WellFormed(BEARER + (BEARER + v)) && WellFormed(v) && (v != [] ==> NotWhitespace(v[0]))
    ensures Scan(BEARER + (BEARER + v)) == BEARER + REDACTED + Scan(v)
  {
    hide Step, Scan, WellFormed;
    var s := BEARER + (BEARER + v);
    BearerStep(s);
    assert s[7..] == BEARER + v && s[..7] == BEARER;
    BearerWord(v);
    ScanUnfold(s);
    assert s[14..] == v;
  }

  lemma {:induction false} BearerWord(v: seq<Byte>)
    requires v != [] ==> NotWhitespace(v[0])
    ensures ValueLen(Bearer, BEARER + v) == 7
  {
    var s := BEARER + v;
    BearerBytes();
    UntilIs(s, EndsBearer, 6);
    UntilIs(s[6..], NotWhitespace, 1);
  }

  lemma {:induction false} BearerBytes()
    ensures forall j :: 0 <= j < 6 ==> !EndsBearer(BEARER[j]) && !IsWhitespace(BEARER[j])
    ensures BEARER[6] == SPACE && EndsBearer(SPACE) && IsWhitespace(SPACE)
  {
  }

  lemma {:induction false} FlagTakesBearer(v: seq<Byte>)
    requires WellFormed(Ascii("--secret ") + (BEARER + v)) && WellFormed([SPACE] + v)
    ensures Scan(Ascii("--secret ") + (BEARER + v)) == Ascii("--secret ") + REDACTED + Scan([SPACE] + v)
  {
    hide Step, Scan, WellFormed, KindOf, KeptLen;
    var flag := Ascii("--secret ");
    var s := flag + (BEARER + v);
    FlagAtFront(BEARER + v);
    PrefixStep(s);
    assert s[9..] == BEARER + v && s[..9] == flag;
    BearerBytes();
    assert (BEARER + v)[6] == SPACE;
    UntilIs(BEARER + v, IsWhitespace, 6);
    ScanUnfold(s);
    assert s[15..] == [SPACE] + v;
  }

  lemma {:induction false} FlagAtFront(t: seq<Byte>)
    ensures var s := Ascii("--secret ") + t; KindOf(s).Flag? && KeptLen(s) == 9
  {
    hide ExplicitKeyLen, DetectToken, JwtLen, SnakeAssignment, LowerAssignment, PlainThenQuotedLen;
    var s := Ascii("--secret ") + t;
    assert s[0] == '-' as int;
    HeadBytes(s);
    NoTokenHead(s);
    UntilIs(s, NotBlank, 0);
    assert s[0..] == s;
  }

  // ---- A key that continues one before it ---------------------------------------------------

  const DB_TOKEN: seq<Byte> := Ascii("db_token=")

  lemma {:induction false} NotToken(s: seq<Byte>)
    requires s != [] && s[0] == 'd' as int
    ensures DetectToken(s).None? && JwtLen(s).None?
  {
    hide CountDots;
  }

  lemma {:induction false} DbTokenOnly(s: seq<Byte>)
    requires DB_TOKEN <= s
    ensures ExplicitAssignment(s).None? && DetectToken(s).None? && SecretFlagLen(s).None? && JwtLen(s).None?
  {
    hide DetectToken, JwtLen, PlainThenQuotedLen;
    assert s[0] == 'd' as int;
    NotToken(s);
    UntilIs(s, NotBlank, 0);
    assert s[0..] == s;
    NoFlag(s);
  }

  lemma {:induction false} DbTokenKey(t: seq<Byte>)
    ensures var s := DB_TOKEN + t;
            && SnakeAssignment(s).None?
            && LowerAssignment(s) == Some(Assignment(8, 9, 9 + QuotedOrPlainLen(t)))
  {
    hide QuotedOrPlainLen;
    var s := DB_TOKEN + t;
    UntilIs(s, Is(EQUALS), 8);
    assert s[9..] == t;
    var key := s[..8];
    assert key == Ascii("db_token") && IsLower(key[0]);
    assert HasSuffix(key, Ascii("_token"));
  }

  lemma {:induction false} StepAtDbToken(t: seq<Byte>)
    ensures Step(DB_TOKEN + t) == Edit(DB_TOKEN + REDACTED, 9 + QuotedOrPlainLen(t))
  {
    hide ExplicitAssignment, DetectToken, SecretFlagLen, JwtLen, SnakeAssignment, LowerAssignment;
    var s := DB_TOKEN + t;
    DbTokenOnly(s);
    DbTokenKey(t);
    assert s[..8] + [EQUALS] == DB_TOKEN;
  }

  /** An empty value leaves the quoted text after it to be taken. */
  lemma {:induction false} EmptyAfterDb(x: Byte)
    requires x <= 0x7F && !IsQuote(x)
    ensures var s := DB_TOKEN + ['\'' as int, x, '\'' as int];
            WellFormed(s) && Scan(s) == DB_TOKEN + REDACTED
  {
    hide WellFormed, Step;
    var r: seq<Byte> := ['\'' as int, x, '\'' as int];
    AsciiWellFormed(DB_TOKEN + r);
    AsciiWellFormed([]);
    StepAtDbToken(r);
    UntilIs(r[1..], Is(r[0]), 1);
    assert (DB_TOKEN + r)[12..] == [];
  }

  lemma {:induction false} ValueAfterDb(v: seq<Byte>, r: seq<Byte>)
    requires IsSecretValue(v) && v != [] && r != [] && EndsValue(r[0])
    requires forall j :: 0 <= j < |v| ==> v[j] <= 0x7F
    requires forall j :: 0 <= j < |r| ==> r[j] <= 0x7F
    ensures WellFormed(DB_TOKEN + (v + r)) && WellFormed(r)
    ensures Scan(DB_TOKEN + (v + r)) == DB_TOKEN + REDACTED + Scan(r)
  {
    hide WellFormed, Step, Scan;
    AsciiWellFormed(DB_TOKEN + (v + r));
    AsciiWellFormed(r);
    StepAtDbToken(v + r);
    ValueEnd(v, r, EndsValue);
    ScanUnfold(DB_TOKEN + (v + r));
    assert (DB_TOKEN + (v + r))[9 + |v|..] == r;
  }

  /**
   After `db_` the key `token=` becomes a lower-case secret key, whose value may be quoted:
   the output then tells an empty value from any other one.
   */
  lemma {:induction false} ContextMatters(v: seq<Byte>, x: Byte)
    requires IsSecretValue(v) && v != [] && x <= 0x7F && !IsQuote(x)
    requires forall j :: 0 <= j < |v| ==> v[j] <= 0x7F
    ensures var (p, key, r) := (Ascii("db_"), Ascii("token="), ['\'' as int, x, '\'' as int]);
            && IsSecretKey(key) && !EndsBeforeKey(p) && EndsValue(r[0])
            && WellFormed(p + (key + []) + r) && WellFormed(p + (key + v) + r)
            && Scan(p + (key + []) + r) != Scan(p + (key + v) + r)
  {
    hide WellFormed, Step, Scan, HasSuffix, IsLowerSecretKey, GithubTokenLen, IsSnakeKey, IsSecretValue, DB_TOKEN;
    var r: seq<Byte> := ['\'' as int, x, '\'' as int];
    DbTokenParts();
    assert Ascii("db_") + (Ascii("token=") + []) + r == DB_TOKEN + r;
    assert Ascii("db_") + (Ascii("token=") + v) + r == DB_TOKEN + (v + r);
    EmptyAfterDb(x);
    ValueAfterDb(v, r);
    ScanUnfold(r);
    StepWrites(r);
  }

  lemma {:induction false} DbTokenParts()
    ensures Ascii("db_") + Ascii("token=") == DB_TOKEN
  {
  }

  // ---- An open web token ---------------------------------------------------------------------

  const OPEN_TOKEN: seq<Byte> := Ascii("eyJ..&")

  lemma {:induction false} OpenTokenLen(v: seq<Byte>)
    requires IsSecretValue(v) && |v| <= 1188
    ensures var s := OPEN_TOKEN + (Ascii("token=") + v);
            JwtLen(s) == if |v| >= 38 then Some(|s|) else None
  {
    hide CountDots;
    var s := OPEN_TOKEN + (Ascii("token=") + v);
    assert Ascii("eyJ") <= s;
    assert forall j :: 3 <= j < |s| ==> !IsLineSpace(s[j]);
    UntilIs(s[3..], IsLineSpace, |s| - 3);
    assert s[3..|s|] == ['.' as int, '.' as int] + s[5..];
    TwoDots(s[5..]);
  }

  lemma {:induction false} OpenTokenKind(v: seq<Byte>)
    requires IsSecretValue(v) && |v| <= 1188
    ensures var s := OPEN_TOKEN + (Ascii("token=") + v);
            s[0] == 'e' as int && KindOf(s) == if |v| >= 38 then Token else Copy
  {
    hide DetectToken, JwtLen, ExplicitKeyLen, FlagNameLen, IsSnakeKey, IsLowerSecretKey, Until, PlainThenQuotedLen;
    var s := OPEN_TOKEN + (Ascii("token=") + v);
    assert s[0] == 'e' as int;
    OpenTokenLen(v);
    HeadBytes(s);
    NoTokenHead(s);
    UntilIs(s, NotBlank, 0);
    assert s[0..] == s;
    UntilIs(s, Is(EQUALS), 11);
    DottedKey(s[..11]);
  }

  lemma {:induction false} OpenTokenStep(v: seq<Byte>)
    requires IsSecretValue(v) && |v| <= 1188
    requires WellFormed(OPEN_TOKEN + (Ascii("token=") + v))
    ensures var s := OPEN_TOKEN + (Ascii("token=") + v);
            Step(s).text != [] && Step(s).text[0] == if |v| >= 38 then '[' as int else 'e' as int
  {
    hide Step, KindOf, WellFormed;
    var s := OPEN_TOKEN + (Ascii("token=") + v);
    OpenTokenKind(v);
    if |v| >= 38 {
      TokenStep(s);
    } else {
      FirstByteKept(s);
    }
  }

  lemma {:induction false} DottedKey(key: seq<Byte>)
    requires |key| > 3 && key[3] == '.' as int
    ensures !IsSnakeKey(key) && !IsLowerSecretKey(key)
  {
  }

  lemma {:induction false} TwoDots(s: seq<Byte>)
    ensures CountDots(['.' as int, '.' as int] + s) >= 2
  {
    var dots: seq<Byte> := ['.' as int, '.' as int];
    if s == [] {
      assert dots + s == dots && dots[..1] == ['.' as int] && ['.' as int][..0] == [];
    } else {
      TwoDots(s[..|s| - 1]);
      assert (dots + s)[..|dots + s| - 1] == dots + s[..|s| - 1];
    }
  }

  /**
   After text in which a JSON web token has begun, the value decides how much is one token: a
   value of at least 38 bytes makes it long enough, a shorter one does not.
   */
  lemma {:induction false} OpenTokenMatters(v1: seq<Byte>, v2: seq<Byte>)
    requires IsSecretValue(v1) && IsSecretValue(v2) && |v1| < 38 <= |v2| <= 1188
    requires WellFormed(OPEN_TOKEN + (Ascii("token=") + v1)) && WellFormed(OPEN_TOKEN + (Ascii("token=") + v2))
    ensures IsSecretKey(Ascii("token=")) && EndsBeforeKey(OPEN_TOKEN) && !OpensNothing(OPEN_TOKEN)
    ensures Scan(OPEN_TOKEN + (Ascii("token=") + v1)) != Scan(OPEN_TOKEN + (Ascii("token=") + v2))
  {
    hide WellFormed, Step, Scan;
    var s1, s2 := OPEN_TOKEN + (Ascii("token=") + v1), OPEN_TOKEN + (Ascii("token=") + v2);
    OpenTokenStep(v1);
    OpenTokenStep(v2);
    ScanUnfold(s1);
    ScanUnfold(s2);
    assert Scan(s1)[0] == 'e' as int && Scan(s2)[0] == '[' as int;
    assert OPEN_TOKEN[0..] == OPEN_TOKEN;
  }

  // ---- A short key that begins with AKIA -----------------------------------------------------

  /** A short upper-case key that begins with AKIA shows whether it and its value have eight bytes together. */
  lemma {:induction false} ShortAwsKeyMatters(key: seq<Byte>, v: seq<Byte>)
    requires IsUpperKey(key) && AKIA <= key
    requires |key| < 8 <= |key| + |v| && IsSecretValue(v) && WellFormed(key + []) && WellFormed(key + v)
    ensures Scan(key + []) != Scan(key + v)
  {
    hide WellFormed, Step, Scan, IsSnakeKey, KindOf;
    ShortIsNoToken(key + []);
    FirstByteKept(key + []);
    assert (key + v)[4..] == key[4..] + v;
    KeyAndValueClean(key, v);
    AwsTaken(key + v);
    ScanUnfold(key + []);
    ScanUnfold(key + v);
    assert Scan(key + [])[0] == 'A' as int && Scan(key + v)[0] == REDACTED[0] == '[' as int;
  }

  lemma {:induction false} ShortIsNoToken(s: seq<Byte>)
    requires s != [] && s[0] == 'A' as int && |s| < 8
    ensures !KindOf(s).Token?
  {
    hide ExplicitKeyLen, GithubTokenLen, OpenAiKeyLen, JwtLen, SnakeAssignment, LowerAssignment, SecretFlagLen;
    HeadBytes(s);
    OpenAiHead(s);
    assert GithubTokenLen(s).None? by { NoGithubRun(s); }
  }

  lemma {:induction false} NoGithubRun(s: seq<Byte>)
    requires !HasGithubPrefix(s)
    ensures GithubTokenLen(s).None?
  {
  }

  lemma {:induction false} KeyAndValueClean(key: seq<Byte>, v: seq<Byte>)
    requires IsUpperKey(key) && IsSecretValue(v)
    ensures |key| >= 4 && IsSecretValue(key[4..] + v)
  {
    hide IsUpperKey, IsKeyByte, EndsValue;
    assert IsSecretKey(key) by { hide IsLowerKey, IsExplicitKey; }
    KeyBytes(key);
    KeyStopsNothing(key);
    assert forall j :: 0 <= j < |key| - 4 ==> key[4..][j] == key[j + 4];
  }

  lemma {:induction false} AwsTaken(s: seq<Byte>)
    requires AKIA <= s && |s| >= 8 && IsSecretValue(s[4..])
    ensures Step(s).text == REDACTED
  {
    hide ExplicitKeyLen, SecretFlagLen, JwtLen, DetectKey, GithubTokenLen, OpenAiKeyLen;
    assert s[0] == 'A' as int;
    HeadBytes(s);
    UntilIs(s[4..], EndsAwsKey, |s| - 4);
  }
}
