/**
 What the sanitizer recognises, written down from its documentation in plain terms: literal texts,
 literal sets of bytes, and where a run of bytes ends. Every step of the scanner is shown to be
 the one step that this description allows.
 */
module SanitizerReference {
  import opened Wrappers
  import opened Utf8
  import opened Spans
  import opened Sanitizer
  import opened SanitizerKinds
  import opened SanitizerScan

  // ---- The description --------------------------------------------------------------------

  /** Space, tab, line feed and carriage return. */
  const LINE: set<int> := {32, 9, 10, 13}
  const QUOTES: set<int> := {39, 34}
  /** The eight bytes that end a value: line space, quotes, comma and ampersand. */
  const DELIMITERS: set<int> := {32, 9, 10, 13, 39, 34, 44, 38}
  const AWS_ENDS: set<int> := {32, 9, 10, 13, 39, 34, 44}
  /** All delimiters but the carriage return. */
  const UPPER_ENDS: set<int> := {32, 9, 10, 39, 34, 44, 38}
  /** Line space and the form feed. */
  const WHITE: set<int> := {32, 9, 10, 13, 12}
  const BEARER_ENDS: set<int> := {32, 9, 10, 13, 12, 39}

  predicate Letter(b: int) { 97 <= b <= 122 }
  predicate Capital(b: int) { 65 <= b <= 90 }
  predicate Digit(b: int) { 48 <= b <= 57 }

  /** The bytes from `k` on run up to `n`, where the first byte of `ends` stands, or the text ends. */
  ghost predicate RunTo(s: seq<Byte>, k: nat, n: nat, ends: set<int>) {
    && k <= n <= |s| && (n < |s| ==> s[n] in ends)
    && forall j :: k <= j < n ==> s[j] !in ends
  }

  /** After the quote at `k`, the next quote of its kind stands at `m`, or there is none. */
  ghost predicate ClosesAt(s: seq<Byte>, k: nat, m: nat) {
    && k < m <= |s| && (m < |s| ==> s[m] == s[k])
    && forall j :: k < j < m ==> s[j] != s[k]
  }

  /** The quoted text that starts at `k` ends before `n`. */
  ghost predicate QuotedTo(s: seq<Byte>, k: nat, n: nat) {
    exists m: nat :: ClosesAt(s, k, m) && n == if m < |s| then m + 1 else m
  }

  ghost predicate ExplicitAt(s: seq<Byte>, k: nat) {
    || (Ascii("token=") <= s && k == 6)
    || (Ascii("password=") <= s && k == 9)
    || (Ascii("api_key=") <= s && k == 8)
  }

  /** A value up to a delimiter, and quoted text right after it. */
  ghost predicate ExplicitTo(s: seq<Byte>, k: nat, n: nat) {
    exists m: nat :: RunTo(s, k, m, DELIMITERS) && if m < |s| && s[m] in QUOTES then QuotedTo(s, m, n) else n == m
  }

  /** A token up to white space or an apostrophe, and the white space after it. */
  ghost predicate BearerTo(s: seq<Byte>, n: nat) {
    exists m: nat :: RunTo(s, 7, m, BEARER_ENDS) && m <= n <= |s|
      && (forall j :: m <= j < n ==> s[j] in WHITE) && (n < |s| ==> s[n] !in WHITE)
  }

  ghost predicate AwsTo(s: seq<Byte>, n: nat) {
    Ascii("AKIA") <= s && RunTo(s, 4, n, AWS_ENDS) && n >= 8
  }

  ghost predicate GithubTo(s: seq<Byte>, n: nat) {
    && (Ascii("ghp_") <= s || Ascii("gho_") <= s || Ascii("ght_") <= s || Ascii("ghs_") <= s)
    && 12 <= n <= |s|
    && (forall j :: 4 <= j < n ==> Letter(s[j]) || Capital(s[j]) || Digit(s[j]))
    && (n < |s| ==> !Letter(s[n]) && !Capital(s[n]) && !Digit(s[n]))
  }

  ghost predicate OpenAiTo(s: seq<Byte>, n: nat) {
    && Ascii("sk-") <= s && RunTo(s, 3, n, DELIMITERS)
    && (|| n >= 51
        || (Ascii("sk-proj-") <= s && n >= 24)
        || (Ascii("sk-svcacct-") <= s && n >= 27)
        || (Ascii("sk-admin-") <= s && n >= 25))
  }

  /** Two dots, and 50 to 1200 bytes up to line space. */
  ghost predicate JwtTo(s: seq<Byte>, n: nat) {
    && Ascii("eyJ") <= s && RunTo(s, 3, n, LINE) && 50 <= n <= 1200
    && exists i, j :: 3 <= i < j < n && s[i] == 46 && s[j] == 46
  }

  /** Spaces and tabs, and a secret flag with its space, which ends before `k`. */
  ghost predicate FlagAt(s: seq<Byte>, k: nat) {
    exists b: nat :: 0 <= b <= |s| && (forall j :: 0 <= j < b ==> s[j] == 32 || s[j] == 9)
      && ((Ascii("--secret ") <= s[b..] && k == b + 9) || (Ascii("--api-key ") <= s[b..] && k == b + 10))
  }

  /** The first equals sign stands right before `k`. */
  ghost predicate FirstEquals(s: seq<Byte>, k: nat) {
    0 < k <= |s| && s[k - 1] == 61 && forall j :: 0 <= j < k - 1 ==> s[j] != 61
  }

  /** A key of 3 to 64 capitals, digits and underscores, with a capital and no digit first. */
  ghost predicate UpperAt(s: seq<Byte>, k: nat) {
    && FirstEquals(s, k) && 4 <= k <= 65
    && (forall j :: 0 <= j < k - 1 ==> Capital(s[j]) || Digit(s[j]) || s[j] == 95)
    && !Digit(s[0]) && exists j :: 0 <= j < k - 1 && Capital(s[j])
  }

  ghost predicate EndsIn(key: seq<Byte>, suffix: seq<Byte>) {
    exists p: seq<Byte> :: key == p + suffix
  }

  ghost predicate IsSecretName(key: seq<Byte>) {
    && (forall j :: 0 <= j < |key| ==> Letter(key[j]) || Digit(key[j]) || key[j] == 95)
    && (|| EndsIn(key, Ascii("_key")) || EndsIn(key, Ascii("_token"))
        || EndsIn(key, Ascii("_secret")) || EndsIn(key, Ascii("_password")))
  }

  /** A key of small letters, digits and underscores with one of the four suffixes. */
  ghost predicate LowerAt(s: seq<Byte>, k: nat) {
    FirstEquals(s, k) && IsSecretName(s[..k - 1])
  }

  /** A quoted value, or one up to a delimiter. */
  ghost predicate LowerTo(s: seq<Byte>, k: nat, n: nat) {
    if k < |s| && s[k] in QUOTES then QuotedTo(s, k, n) else RunTo(s, k, n, DELIMITERS)
  }

  /** The length of a character by its first byte. */
  function CharLength(b: Byte): nat {
    if b < 128 then 1 else if b < 224 then 2 else if b < 240 then 3 else 4
  }

  /** What stays of the first `k` bytes, and what is written for the rest of the step. */
  function Hidden(kept: seq<Byte>): seq<Byte> {
    kept + Ascii("[REDACTED]")
  }

  ghost predicate TokenTo(s: seq<Byte>, n: nat) {
    AwsTo(s, n) || GithubTo(s, n) || OpenAiTo(s, n)
  }

  /** The one step that is documented at the front of `s`, in order of priority. */
  ghost predicate IsDocumented(s: seq<Byte>, e: Edit)
    requires s != []
  {
    if exists k: nat :: ExplicitAt(s, k) then
      exists k: nat :: ExplicitAt(s, k) && ExplicitTo(s, k, e.len) && k <= |s| && e.text == Hidden(s[..k])
    else if Ascii("Bearer ") <= s then BearerTo(s, e.len) && e.text == Hidden(Ascii("Bearer "))
    else if exists n: nat :: TokenTo(s, n) then TokenTo(s, e.len) && e.text == Hidden([])
    else if exists k: nat :: FlagAt(s, k) then
      exists k: nat :: FlagAt(s, k) && RunTo(s, k, e.len, WHITE) && e.text == Hidden(s[..k])
    else if exists n: nat :: JwtTo(s, n) then JwtTo(s, e.len) && e.text == Hidden([])
    else if exists k: nat :: UpperAt(s, k) then
      exists k: nat :: UpperAt(s, k) && RunTo(s, k, e.len, UPPER_ENDS) && e.text == Hidden(s[..k])
    else if exists k: nat :: LowerAt(s, k) then
      exists k: nat :: LowerAt(s, k) && LowerTo(s, k, e.len) && e.text == Hidden(s[..k])
    else e.len == CharLength(s[0]) && e.len <= |s| && e.text == s[..e.len]
  }

  // ---- Runs -------------------------------------------------------------------------------

  lemma {:induction false} RunIs(s: seq<Byte>, k: nat, n: nat, ends: set<int>, stop: Byte -> bool)
    requires k <= |s| && forall b: Byte :: stop(b) <==> b as int in ends
    ensures RunTo(s, k, n, ends) <==> n == k + Until(s[k..], stop)
  {
    var u := Until(s[k..], stop);
    assert forall j :: k <= j < |s| ==> s[j] == s[k..][j - k];
    if RunTo(s, k, n, ends) {
      UntilIs(s[k..], stop, n - k);
    }
  }

  lemma {:induction false} QuotedIs(s: seq<Byte>, k: nat, n: nat)
    requires k < |s|
    ensures QuotedTo(s, k, n) <==> n == k + QuotedLen(s[k..])
  {
    var u := Until(s[k + 1..], Is(s[k]));
    assert s[k..][1..] == s[k + 1..];
    assert forall j :: k < j < |s| ==> s[j] == s[k + 1..][j - k - 1];
    assert ClosesAt(s, k, k + 1 + u);
    forall m: nat | ClosesAt(s, k, m) ensures m == k + 1 + u {
      UntilIs(s[k + 1..], Is(s[k]), m - k - 1);
    }
  }

  lemma {:induction false} Classes()
    ensures forall b: Byte :: EndsValue(b) <==> b as int in DELIMITERS
    ensures forall b: Byte :: EndsAwsKey(b) <==> b as int in AWS_ENDS
    ensures forall b: Byte :: EndsSnakeValue(b) <==> b as int in UPPER_ENDS
    ensures forall b: Byte :: IsWhitespace(b) <==> b as int in WHITE
    ensures forall b: Byte :: EndsBearer(b) <==> b as int in BEARER_ENDS
    ensures forall b: Byte :: IsLineSpace(b) <==> b as int in LINE
    ensures forall b: Byte :: IsQuote(b) <==> b as int in QUOTES
    ensures forall b: Byte :: NotAlphanumeric(b) <==> !Letter(b) && !Capital(b) && !Digit(b)
    ensures forall b: Byte :: IsBlank(b) <==> b == 32 || b == 9
  {
  }

  // ---- Values -----------------------------------------------------------------------------

  lemma {:induction false} ExplicitToIs(s: seq<Byte>, k: nat, n: nat)
    requires k <= |s|
    ensures ExplicitTo(s, k, n) <==> n == k + PlainThenQuotedLen(s[k..])
  {
    hide QuotedLen, Until, QuotedTo, RunTo, EndsValue, DELIMITERS, QUOTES, IsQuote;
    Classes();
    var m := k + Until(s[k..], EndsValue);
    forall i: nat ensures RunTo(s, k, i, DELIMITERS) <==> i == m {
      RunIs(s, k, i, DELIMITERS, EndsValue);
    }
    assert RunTo(s, k, m, DELIMITERS);
    if m < |s| {
      assert s[k..][m - k] == s[m] && s[k..][m - k..] == s[m..];
      QuotedIs(s, m, n);
    }
  }

  lemma {:induction false} LowerToIs(s: seq<Byte>, k: nat, n: nat)
    requires k <= |s|
    ensures LowerTo(s, k, n) <==> n == k + QuotedOrPlainLen(s[k..])
  {
    hide QuotedLen, Until, QuotedTo, RunTo, EndsValue, DELIMITERS, QUOTES, IsQuote;
    Classes();
    RunIs(s, k, n, DELIMITERS, EndsValue);
    if k < |s| {
      assert s[k..][0] == s[k];
      QuotedIs(s, k, n);
    }
  }

  lemma {:induction false} BearerToIs(s: seq<Byte>, n: nat)
    requires 7 <= |s|
    ensures BearerTo(s, n) <==> n == 7 + ValueLen(Bearer, s[7..])
  {
    hide RunTo, WHITE, BEARER_ENDS, IsWhitespace, EndsBearer;
    Classes();
    var m := 7 + Until(s[7..], EndsBearer);
    forall i: nat ensures RunTo(s, 7, i, BEARER_ENDS) <==> i == m {
      RunIs(s, 7, i, BEARER_ENDS, EndsBearer);
    }
    assert RunTo(s, 7, m, BEARER_ENDS);
    assert s[7..][m - 7..] == s[m..];
    WhiteRun(s, m, n);
  }

  lemma {:induction false} WhiteRun(s: seq<Byte>, m: nat, n: nat)
    requires m <= |s|
    ensures m <= n <= |s| && (forall j :: m <= j < n ==> s[j] in WHITE) && (n < |s| ==> s[n] !in WHITE) <==>
            n == m + Until(s[m..], NotWhitespace)
  {
    Classes();
    assert forall j :: m <= j < |s| ==> s[j] == s[m..][j - m];
    if m <= n <= |s| && (forall j :: m <= j < n ==> s[j] in WHITE) && (n < |s| ==> s[n] !in WHITE) {
      UntilIs(s[m..], NotWhitespace, n - m);
    }
  }

  // ---- Keys, flags and tokens -------------------------------------------------------------

  lemma {:induction false} ExplicitAtIs(s: seq<Byte>, k: nat)
    ensures ExplicitAt(s, k) <==> ExplicitKeyLen(s) > 0 && k == ExplicitKeyLen(s) + 1
  {
    assert Ascii("token=")[0] == 't' as int && Ascii("password=")[0] == 'p' as int &&
        Ascii("api_key=")[0] == 'a' as int;
  }

  lemma {:induction false} AwsToIs(s: seq<Byte>, n: nat)
    ensures AwsTo(s, n) <==> AwsKeyLen(s) == Some(n)
  {
    hide Until, EndsAwsKey, RunTo, AWS_ENDS;
    Classes();
    if Ascii("AKIA") <= s {
      RunIs(s, 4, n, AWS_ENDS, EndsAwsKey);
    }
  }

  lemma {:induction false} GithubToIs(s: seq<Byte>, n: nat)
    ensures GithubTo(s, n) <==> GithubTokenLen(s) == Some(n)
  {
    if HasGithubPrefix(s) {
      hide HasGithubPrefix, NotAlphanumeric;
      assert |s| >= 4 by { GithubLong(s); }
      Classes();
      assert forall j :: 4 <= j < |s| ==> s[j] == s[4..][j - 4];
      if GithubTo(s, n) {
        UntilIs(s[4..], NotAlphanumeric, n - 4);
      }
    }
  }

  lemma {:induction false} GithubLong(s: seq<Byte>)
    requires HasGithubPrefix(s)
    ensures |s| >= 4
  {
  }

  lemma {:induction false} PrefixTo(s: seq<Byte>, prefix: seq<Byte>, minChars: nat, n: nat)
    requires 3 <= |prefix| && Ascii("sk-") <= prefix && forall j :: 0 <= j < |prefix| ==> !EndsValue(prefix[j])
    ensures PrefixedKeyLen(s, prefix, minChars) == Some(n) <==>
            prefix <= s && RunTo(s, 3, n, DELIMITERS) && n >= |prefix| + minChars
  {
    hide Until, EndsValue, RunTo, DELIMITERS;
    Classes();
    if prefix <= s {
      PrefixRun(s, prefix);
      RunIs(s, 3, n, DELIMITERS, EndsValue);
    }
  }

  lemma {:induction false} OpenAiToIs(s: seq<Byte>, n: nat)
    ensures OpenAiTo(s, n) <==> OpenAiKeyLen(s) == Some(n)
  {
    hide PrefixedKeyLen, RunTo, DELIMITERS, EndsValue;
    PrefixClean();
    ShortPrefixClean();
    PrefixTo(s, Ascii("sk-proj-"), 16, n);
    PrefixTo(s, Ascii("sk-svcacct-"), 16, n);
    PrefixTo(s, Ascii("sk-admin-"), 16, n);
    PrefixTo(s, Ascii("sk-"), 48, n);
    OpenAiHead(s);
    if OpenAiKeyLen(s).Some? {
      OpenAiRun(s);
      Classes();
      RunIs(s, 3, n, DELIMITERS, EndsValue);
    }
  }

  lemma {:induction false} ShortPrefixClean()
    ensures forall j :: 0 <= j < 3 ==> !EndsValue(Ascii("sk-")[j])
  {
  }

  lemma {:induction false} TwoDots(s: seq<Byte>)
    ensures CountDots(s) >= 1 <==> exists j :: 0 <= j < |s| && s[j] == 46
    ensures CountDots(s) >= 2 <==> exists i, j :: 0 <= i < j < |s| && s[i] == 46 && s[j] == 46
  {
    if s != [] {
      var front, n := s[..|s| - 1], |s| - 1;
      TwoDots(front);
      assert forall j :: 0 <= j < n ==> front[j] == s[j];
      if CountDots(front) >= 1 {
        var i :| 0 <= i < n && front[i] == 46;
        assert s[i] == 46;
      }
      if CountDots(front) >= 2 {
        var i, j :| 0 <= i < j < n && front[i] == 46 && front[j] == 46;
        assert s[i] == 46 && s[j] == 46;
      }
    }
  }

  lemma {:induction false} DotsUpTo(s: seq<Byte>, n: nat)
    requires 3 <= n <= |s|
    ensures CountDots(s[3..n]) >= 2 <==> exists i, j :: 3 <= i < j < n && s[i] == 46 && s[j] == 46
  {
    var t := s[3..n];
    TwoDots(t);
    assert forall j :: 3 <= j < n ==> s[j] == t[j - 3];
    if CountDots(t) >= 2 {
      var i, j :| 0 <= i < j < |t| && t[i] == 46 && t[j] == 46;
      assert s[i + 3] == 46 && s[j + 3] == 46;
    }
    if i, j :| 3 <= i < j < n && s[i] == 46 && s[j] == 46 {
      assert t[i - 3] == 46 && t[j - 3] == 46;
    }
  }

  lemma {:induction false} JwtToIs(s: seq<Byte>, n: nat)
    ensures JwtTo(s, n) <==> JwtLen(s) == Some(n)
  {
    hide Until, IsLineSpace, RunTo, LINE, CountDots;
    Classes();
    if Ascii("eyJ") <= s {
      var end := 3 + Until(s[3..], IsLineSpace);
      RunIs(s, 3, n, LINE, IsLineSpace);
      DotsUpTo(s, end);
    }
  }

  lemma {:induction false} FlagAtIs(s: seq<Byte>, k: nat)
    ensures FlagAt(s, k) <==> SecretFlagLen(s) == Some(k)
  {
    var b := Until(s, NotBlank);
    NamesDiffer(s[b..]);
    assert forall j :: 0 <= j < b ==> IsBlank(s[j]);
    forall c: nat | c <= |s| && (forall j :: 0 <= j < c ==> s[j] == 32 || s[j] == 9)
        && (Ascii("--secret ") <= s[c..] || Ascii("--api-key ") <= s[c..])
      ensures c == b
    {
      DashFirst(s[c..]);
      assert s[c] == s[c..][0];
      UntilIs(s, NotBlank, c);
    }
  }

  lemma {:induction false} NamesDiffer(s: seq<Byte>)
    ensures FlagNameLen(s) == 9 <==> Ascii("--secret ") <= s
    ensures FlagNameLen(s) == 10 <==> Ascii("--api-key ") <= s
    ensures FlagNameLen(s) in {0, 9, 10}
  {
    assert Ascii("--secret ")[2] == 's' as int && Ascii("--api-key ")[2] == 'a' as int;
  }

  lemma {:induction false} DashFirst(s: seq<Byte>)
    requires Ascii("--secret ") <= s || Ascii("--api-key ") <= s
    ensures s != [] && s[0] == '-' as int
  {
  }

  lemma {:induction false} FirstEqualsIs(s: seq<Byte>, k: nat)
    ensures FirstEquals(s, k) <==> Until(s, Is(EQUALS)) < |s| && k == Until(s, Is(EQUALS)) + 1
  {
    if FirstEquals(s, k) {
      UntilIs(s, Is(EQUALS), k - 1);
    }
  }

  lemma {:induction false} UpperAtIs(s: seq<Byte>, k: nat)
    ensures UpperAt(s, k) <==> SnakeAssignment(s).Some? && k == Until(s, Is(EQUALS)) + 1
  {
    hide Until, FirstEquals;
    FirstEqualsIs(s, k);
    if FirstEquals(s, k) {
      UpperShape(s, k);
    }
  }

  lemma {:induction false} UpperShape(s: seq<Byte>, k: nat)
    requires 0 < k <= |s|
    ensures IsSnakeKey(s[..k - 1]) <==>
            && 4 <= k <= 65 && (forall j :: 0 <= j < k - 1 ==> Capital(s[j]) || Digit(s[j]) || s[j] == 95)
            && !Digit(s[0]) && exists j :: 0 <= j < k - 1 && Capital(s[j])
  {
    var key := s[..k - 1];
    assert forall j :: 0 <= j < k - 1 ==> key[j] == s[j];
    if j :| 0 <= j < k - 1 && Capital(s[j]) {
      assert IsUpper(key[j]);
    }
  }

  lemma {:induction false} EndsInIs(key: seq<Byte>, suffix: seq<Byte>)
    ensures EndsIn(key, suffix) <==> HasSuffix(key, suffix)
  {
    if HasSuffix(key, suffix) {
      assert key == key[..|key| - |suffix|] + suffix;
    }
  }

  lemma {:induction false} SecretNameIs(key: seq<Byte>)
    ensures IsSecretName(key) <==> IsLowerSecretKey(key)
  {
    hide EndsIn, HasSuffix;
    EndsInIs(key, Ascii("_key"));
    EndsInIs(key, Ascii("_token"));
    EndsInIs(key, Ascii("_secret"));
    EndsInIs(key, Ascii("_password"));
  }

  lemma {:induction false} LowerAtIs(s: seq<Byte>, k: nat)
    ensures LowerAt(s, k) <==> LowerAssignment(s).Some? && k == Until(s, Is(EQUALS)) + 1
  {
    hide Until, FirstEquals, IsSecretName, IsLowerSecretKey, QuotedOrPlainLen;
    FirstEqualsIs(s, k);
    SecretNameIs(s[..Until(s, Is(EQUALS))]);
  }

  // ---- Which detector fires ---------------------------------------------------------------

  lemma {:induction false} TokenToIs(s: seq<Byte>, n: nat)
    ensures TokenTo(s, n) <==> AwsKeyLen(s) == Some(n) || GithubTokenLen(s) == Some(n) || OpenAiKeyLen(s) == Some(n)
  {
    hide AwsTo, GithubTo, OpenAiTo, AwsKeyLen, GithubTokenLen, OpenAiKeyLen;
    AwsToIs(s, n);
    GithubToIs(s, n);
    OpenAiToIs(s, n);
  }

  /** At most one of the three kinds of token begins at the front. */
  lemma {:induction false} OneToken(s: seq<Byte>)
    requires s != []
    ensures AwsKeyLen(s).Some? ==> GithubTokenLen(s).None? && OpenAiKeyLen(s).None?
    ensures GithubTokenLen(s).Some? ==> OpenAiKeyLen(s).None?
  {
    hide AwsKeyLen, OpenAiKeyLen, HasGithubPrefix, Until;
    HeadBytes(s);
    OpenAiHead(s);
  }

  lemma {:induction false} ExplicitFires(s: seq<Byte>)
    ensures (exists k: nat :: ExplicitAt(s, k)) <==> ExplicitAssignment(s).Some?
    ensures forall k: nat :: ExplicitAt(s, k) ==> k == ExplicitKeyLen(s) + 1
    ensures ExplicitAssignment(s).Some? ==> ExplicitAt(s, ExplicitKeyLen(s) + 1)
  {
    hide ExplicitAt, ExplicitKeyLen, PlainThenQuotedLen;
    forall k: nat ensures ExplicitAt(s, k) <==> ExplicitKeyLen(s) > 0 && k == ExplicitKeyLen(s) + 1 {
      ExplicitAtIs(s, k);
    }
    if ExplicitKeyLen(s) > 0 {
      assert ExplicitAt(s, ExplicitKeyLen(s) + 1);
    }
  }

  lemma {:induction false} TokenFires(s: seq<Byte>)
    ensures (exists n: nat :: TokenTo(s, n)) <==>
            AwsKeyLen(s).Some? || GithubTokenLen(s).Some? || OpenAiKeyLen(s).Some?
  {
    hide TokenTo, AwsKeyLen, GithubTokenLen, OpenAiKeyLen;
    forall n: nat
      ensures TokenTo(s, n) <==> AwsKeyLen(s) == Some(n) || GithubTokenLen(s) == Some(n) || OpenAiKeyLen(s) == Some(n)
    {
      TokenToIs(s, n);
    }
    if AwsKeyLen(s).Some? {
      assert TokenTo(s, AwsKeyLen(s).value);
    }
    if GithubTokenLen(s).Some? {
      assert TokenTo(s, GithubTokenLen(s).value);
    }
    if OpenAiKeyLen(s).Some? {
      assert TokenTo(s, OpenAiKeyLen(s).value);
    }
  }

  lemma {:induction false} FlagFires(s: seq<Byte>)
    ensures (exists k: nat :: FlagAt(s, k)) <==> SecretFlagLen(s).Some?
    ensures forall k: nat :: FlagAt(s, k) <==> SecretFlagLen(s) == Some(k)
  {
    hide FlagAt, SecretFlagLen;
    forall k: nat ensures FlagAt(s, k) <==> SecretFlagLen(s) == Some(k) {
      FlagAtIs(s, k);
    }
    if SecretFlagLen(s).Some? {
      assert FlagAt(s, SecretFlagLen(s).value);
    }
  }

  lemma {:induction false} JwtFires(s: seq<Byte>)
    ensures (exists n: nat :: JwtTo(s, n)) <==> JwtLen(s).Some?
    ensures forall n: nat :: JwtTo(s, n) <==> JwtLen(s) == Some(n)
  {
    hide JwtTo, JwtLen;
    forall n: nat ensures JwtTo(s, n) <==> JwtLen(s) == Some(n) {
      JwtToIs(s, n);
    }
    if JwtLen(s).Some? {
      assert JwtTo(s, JwtLen(s).value);
    }
  }

  lemma {:induction false} KeysFire(s: seq<Byte>)
    ensures (exists k: nat :: UpperAt(s, k)) <==> SnakeAssignment(s).Some?
    ensures (exists k: nat :: LowerAt(s, k)) <==> LowerAssignment(s).Some?
    ensures forall k: nat :: UpperAt(s, k) <==> SnakeAssignment(s).Some? && k == Until(s, Is(EQUALS)) + 1
    ensures forall k: nat :: LowerAt(s, k) <==> LowerAssignment(s).Some? && k == Until(s, Is(EQUALS)) + 1
  {
    hide UpperAt, LowerAt, SnakeAssignment, LowerAssignment, Until;
    var eq := Until(s, Is(EQUALS)) + 1;
    forall k: nat ensures UpperAt(s, k) <==> SnakeAssignment(s).Some? && k == eq {
      UpperAtIs(s, k);
    }
    forall k: nat ensures LowerAt(s, k) <==> LowerAssignment(s).Some? && k == eq {
      LowerAtIs(s, k);
    }
    if SnakeAssignment(s).Some? {
      assert UpperAt(s, eq);
    }
    if LowerAssignment(s).Some? {
      assert LowerAt(s, eq);
    }
  }

  // ---- The step ---------------------------------------------------------------------------

  lemma {:induction false} SameReplacement(kept: seq<Byte>)
    ensures Hidden(kept) == kept + REDACTED && BEARER == Ascii("Bearer ")
  {
  }

  /** The step at a key, a flag or a bearer prefix. */
  lemma {:induction false} DocumentedValue(s: seq<Byte>, e: Edit)
    requires KindOf(s).KeepsPrefix()
    ensures var k := KeptLen(s);
            k <= |s| && (Step(s) == e <==> e.text == Hidden(s[..k]) && e.len == k + ValueLen(KindOf(s), s[k..]))
  {
    hide Step, KindOf, KeptLen, ValueLen;
    PrefixStep(s);
    SameReplacement(s[..KeptLen(s)]);
  }

  lemma {:induction false} ExplicitCase(s: seq<Byte>, e: Edit)
    requires s != [] && ExplicitAssignment(s).Some?
    ensures IsDocumented(s, e) <==> Step(s) == e
  {
    hide ExplicitAt, ExplicitTo, ExplicitKeyLen, PlainThenQuotedLen, Step, TokenTo, FlagAt, JwtTo, UpperAt, LowerAt,
         DetectToken, SecretFlagLen, JwtLen, SnakeAssignment, LowerAssignment;
    ExplicitFires(s);
    DocumentedValue(s, e);
    ExplicitToIs(s, ExplicitKeyLen(s) + 1, e.len);
  }

  lemma {:induction false} BearerCase(s: seq<Byte>, e: Edit)
    requires s != [] && ExplicitAssignment(s).None? && BearerLen(s).Some?
    ensures IsDocumented(s, e) <==> Step(s) == e
  {
    hide ExplicitAt, ExplicitAssignment, BearerTo, Step, TokenTo, FlagAt, JwtTo, UpperAt, LowerAt,
         DetectToken, SecretFlagLen, JwtLen, SnakeAssignment, LowerAssignment, ValueLen;
    ExplicitFires(s);
    DocumentedValue(s, e);
    BearerToIs(s, e.len);
    SameReplacement(s[..7]);
  }

  lemma {:induction false} TokenCase(s: seq<Byte>, e: Edit)
    requires s != [] && ExplicitAssignment(s).None? && BearerLen(s).None?
    requires AwsKeyLen(s).Some? || GithubTokenLen(s).Some? || OpenAiKeyLen(s).Some?
    ensures IsDocumented(s, e) <==> Step(s) == e
  {
    hide ExplicitAt, ExplicitAssignment, TokenTo, FlagAt, JwtTo, UpperAt, LowerAt, RedactBearer,
         AwsKeyLen, GithubTokenLen, OpenAiKeyLen, SecretFlagLen, JwtLen, SnakeAssignment, LowerAssignment;
    ExplicitFires(s);
    TokenFires(s);
    TokenToIs(s, e.len);
    OneToken(s);
    SameReplacement([]);
  }

  lemma {:induction false} NoTokenDetected(s: seq<Byte>)
    ensures DetectToken(s).Some? <==>
            BearerLen(s).Some? || AwsKeyLen(s).Some? || GithubTokenLen(s).Some? || OpenAiKeyLen(s).Some?
  {
    hide AwsKeyLen, GithubTokenLen, OpenAiKeyLen, RedactBearer;
  }

  lemma {:induction false} FlagCase(s: seq<Byte>, e: Edit)
    requires s != [] && ExplicitAssignment(s).None? && DetectToken(s).None? && SecretFlagLen(s).Some?
    ensures IsDocumented(s, e) <==> Step(s) == e
  {
    hide ExplicitAt, ExplicitAssignment, Step, TokenTo, FlagAt, JwtTo, UpperAt, LowerAt, RunTo, WHITE, IsWhitespace,
         DetectToken, SecretFlagLen, JwtLen, SnakeAssignment, LowerAssignment, AwsKeyLen, GithubTokenLen, OpenAiKeyLen;
    ExplicitFires(s);
    NoTokenDetected(s);
    TokenFires(s);
    FlagFires(s);
    DocumentedValue(s, e);
    Classes();
    RunIs(s, SecretFlagLen(s).value, e.len, WHITE, IsWhitespace);
  }

  lemma {:induction false} JwtCase(s: seq<Byte>, e: Edit)
    requires s != [] && ExplicitAssignment(s).None? && DetectToken(s).None? && SecretFlagLen(s).None? && JwtLen(s).Some?
    ensures IsDocumented(s, e) <==> Step(s) == e
  {
    hide ExplicitAt, ExplicitAssignment, TokenTo, FlagAt, JwtTo, UpperAt, LowerAt,
         DetectToken, SecretFlagLen, JwtLen, SnakeAssignment, LowerAssignment, AwsKeyLen, GithubTokenLen, OpenAiKeyLen;
    ExplicitFires(s);
    NoTokenDetected(s);
    TokenFires(s);
    FlagFires(s);
    JwtFires(s);
    SameReplacement([]);
  }

  lemma {:induction false} KeyCase(s: seq<Byte>, e: Edit)
    requires s != [] && ExplicitAssignment(s).None? && DetectToken(s).None? && SecretFlagLen(s).None? && JwtLen(s).None?
    requires SnakeAssignment(s).Some? || LowerAssignment(s).Some?
    ensures IsDocumented(s, e) <==> Step(s) == e
  {
    hide ExplicitAt, ExplicitAssignment, Step, TokenTo, FlagAt, JwtTo, UpperAt, LowerAt, RunTo, UPPER_ENDS, LowerTo,
         DetectToken, SecretFlagLen, JwtLen, SnakeAssignment, LowerAssignment, AwsKeyLen, GithubTokenLen, OpenAiKeyLen,
         EndsSnakeValue, Until, QuotedOrPlainLen;
    ExplicitFires(s);
    NoTokenDetected(s);
    TokenFires(s);
    FlagFires(s);
    JwtFires(s);
    KeysFire(s);
    DocumentedValue(s, e);
    Classes();
    var k := KeptLen(s);
    RunIs(s, k, e.len, UPPER_ENDS, EndsSnakeValue);
    LowerToIs(s, k, e.len);
  }

  lemma {:induction false} CopyCase(s: seq<Byte>, e: Edit)
    requires WellFormed(s) && s != [] && KindOf(s).Copy?
    ensures IsDocumented(s, e) <==> Step(s) == e
  {
    hide ExplicitAt, ExplicitAssignment, Step, TokenTo, FlagAt, JwtTo, UpperAt, LowerAt, HeadLen, WellFormed,
         DetectToken, SecretFlagLen, JwtLen, SnakeAssignment, LowerAssignment, AwsKeyLen, GithubTokenLen, OpenAiKeyLen;
    ExplicitFires(s);
    NoTokenDetected(s);
    TokenFires(s);
    FlagFires(s);
    JwtFires(s);
    KeysFire(s);
    CopyStep(s);
    FirstChar(s);
  }

  /** Every step is the one that the description allows. */
  lemma {:induction false} StepIsDocumented(s: seq<Byte>, e: Edit)
    requires WellFormed(s) && s != []
    ensures IsDocumented(s, e) <==> Step(s) == e
  {
    hide ExplicitAssignment, Step, IsDocumented, WellFormed, SecretFlagLen, JwtLen, SnakeAssignment, LowerAssignment,
         AwsKeyLen, GithubTokenLen, OpenAiKeyLen, DetectToken, BearerLen;
    NoTokenDetected(s);
    match KindOf(s)
    case Explicit => ExplicitCase(s, e);
    case Bearer => BearerCase(s, e);
    case Token =>
      if DetectToken(s).Some? {
        TokenCase(s, e);
      } else {
        JwtCase(s, e);
      }
    case Flag => FlagCase(s, e);
    case Snake => KeyCase(s, e);
    case Lower => KeyCase(s, e);
    case Copy => CopyCase(s, e);
  }

  // ---- The whole command --------------------------------------------------------------------

  /** `out` is written by documented steps, one after the other. */
  ghost predicate IsSanitized(s: seq<Byte>, out: seq<Byte>)
    decreases |s|
  {
    if s == [] then out == [] else
      exists e: Edit :: IsDocumented(s, e) && 1 <= e.len <= |s| && e.text <= out
        && IsSanitized(s[e.len..], out[|e.text|..])
  }

  /** The output of the scanner is the one output that the description allows. */
  lemma {:induction false} SanitizedIff(s: seq<Byte>, out: seq<Byte>)
    requires WellFormed(s)
    ensures IsSanitized(s, out) <==> out == Scan(s)
    decreases |s|
  {
    hide IsDocumented, Step, Scan, WellFormed;
    if s == [] {
      ScanOfNothing();
    } else {
      ScanUnfold(s);
      var e := Step(s);
      StepIsDocumented(s, e);
      forall d: Edit | IsDocumented(s, d) ensures d == e {
        StepIsDocumented(s, d);
      }
      if e.text <= out {
        SanitizedIff(s[e.len..], out[|e.text|..]);
        assert out == e.text + out[|e.text|..];
      }
    }
  }

  lemma {:induction false} ScanOfNothing()
    ensures WellFormed([]) && Scan([]) == []
  {
  }

  // ---- Keys with a secret suffix --------------------------------------------------------------

  predicate IsNameByte(b: Byte) { Letter(b) || Digit(b) || b == 95 }

  predicate IsSecretSuffix(suffix: seq<Byte>) {
    suffix == Ascii("_key") || suffix == Ascii("_token") || suffix == Ascii("_secret") || suffix == Ascii("_password")
  }

  /** A GitHub token stands at the front of the key. */
  predicate StartsToken(key: seq<Byte>) {
    && |key| >= 12
    && (key[..4] == Ascii("ghp_") || key[..4] == Ascii("gho_") || key[..4] == Ascii("ght_") || key[..4] ==
      Ascii("ghs_"))
    && forall j :: 4 <= j < 12 ==> Letter(key[j]) || Capital(key[j]) || Digit(key[j])
  }

  lemma {:induction false} TokenStarts(key: seq<Byte>, t: seq<Byte>)
    requires forall j :: 0 <= j < |key| ==> IsNameByte(key[j])
    requires t == [] || (t[0] != 95 && NotAlphanumeric(t[0]))
    ensures GithubTokenLen(key + t).Some? <==> StartsToken(key)
  {
    var s := key + t;
    assert forall j :: 0 <= j < |key| ==> s[j] == key[j];
    if StartsToken(key) {
      assert s[..4] == key[..4];
      assert HasGithubPrefix(s);
      assert forall j :: 0 <= j < 8 ==> !NotAlphanumeric(s[4..][j]);
    }
    if HasGithubPrefix(s) && Until(s[4..], NotAlphanumeric) >= 8 {
      assert forall j :: 0 <= j < 8 ==> s[4..][j] == s[j + 4] && !NotAlphanumeric(s[j + 4]);
      assert |key| >= 12 by { NoTokenAcross(key, t); }
      assert s[..4] == key[..4];
    }
  }

  lemma {:induction false} NoTokenAcross(key: seq<Byte>, t: seq<Byte>)
    requires t == [] || (t[0] != 95 && NotAlphanumeric(t[0]))
    requires HasGithubPrefix(key + t) && |key + t| >= 12
    requires forall j :: 4 <= j < 12 ==> !NotAlphanumeric((key + t)[j])
    ensures |key| >= 12
  {
    assert t != [] ==> (key + t)[|key|] == t[0];
  }

  /** The first equals sign of `key=...` is its own. */
  lemma {:induction false} NameEnds(key: seq<Byte>, t: seq<Byte>)
    requires forall j :: 0 <= j < |key| ==> IsNameByte(key[j])
    ensures var s := key + ([EQUALS] + t);
            Until(s, Is(EQUALS)) == |key| && s[..|key|] == key && s[|key|] == EQUALS && s[|key| + 1..] == t
  {
    var s := key + ([EQUALS] + t);
    assert forall j :: 0 <= j < |key| ==> s[j] == key[j];
    UntilIs(s, Is(EQUALS), |key|);
  }

  /** What a detector makes of a name of small letters, digits and underscores. */
  lemma {:induction false} NameKind(key: seq<Byte>, t: seq<Byte>)
    requires key != [] && forall j :: 0 <= j < |key| ==> IsNameByte(key[j])
    requires !StartsToken(key)
    ensures var s := key + ([EQUALS] + t);
            if key in {Ascii("token"), Ascii("password"), Ascii("api_key")} then
              KindOf(s).Explicit? && KeptLen(s) == |key| + 1
            else if IsLowerSecretKey(key) then KindOf(s).Lower? && KeptLen(s) == |key| + 1
            else KindOf(s).Copy?
  {
    hide ExplicitKeyLen, GithubTokenLen, AwsKeyLen, OpenAiKeyLen, JwtLen, FlagNameLen, QuotedOrPlainLen,
         RedactBearer, IsLowerSecretKey, IsSnakeKey, StartsToken, PlainThenQuotedLen, Until;
    var s := key + ([EQUALS] + t);
    NameEnds(key, t);
    NameHead(key);
    assert s[0] == key[0];
    NameExplicit(key, t);
    TokenStarts(key, [EQUALS] + t);
    NoSecondLetters(s, key);
    HeadBytes(s);
    OpenAiHead(s);
    NoFlagHere(s);
    NameIsNoUpper(key);
  }

  lemma {:induction false} NameHead(key: seq<Byte>)
    requires key != [] && forall j :: 0 <= j < |key| ==> IsNameByte(key[j])
    ensures !Capital(key[0]) && key[0] != '-' as int && NotBlank(key[0])
  {
  }

  /** Only the three explicit keys are explicit keys. */
  lemma {:induction false} NameExplicit(key: seq<Byte>, t: seq<Byte>)
    requires forall j :: 0 <= j < |key| ==> IsNameByte(key[j])
    ensures var n := ExplicitKeyLen(key + ([EQUALS] + t));
            if key in {Ascii("token"), Ascii("password"), Ascii("api_key")} then n == |key| > 0 else n == 0
  {
    var s := key + ([EQUALS] + t);
    NameEnds(key, t);
    NameIsPattern(key, t, Ascii("token"), Ascii("token="));
    NameIsPattern(key, t, Ascii("password"), Ascii("password="));
    NameIsPattern(key, t, Ascii("api_key"), Ascii("api_key="));
    assert Ascii("token")[0] == 't' as int && Ascii("password")[0] == 'p' as int && Ascii("api_key")[0] == 'a' as int;
  }

  lemma {:induction false} NameIsPattern(key: seq<Byte>, t: seq<Byte>, name: seq<Byte>, pattern: seq<Byte>)
    requires forall j :: 0 <= j < |key| ==> IsNameByte(key[j])
    requires pattern == name + [EQUALS] && forall j :: 0 <= j < |name| ==> name[j] != EQUALS
    ensures pattern <= key + ([EQUALS] + t) <==> key == name
  {
    var s := key + ([EQUALS] + t);
    NameEnds(key, t);
    if pattern <= s {
      assert forall j :: 0 <= j < |pattern| ==> s[j] == pattern[j];
      UntilIs(s, Is(EQUALS), |name|);
      assert key == s[..|name|] == pattern[..|name|] == name;
    }
    if key == name {
      assert s == pattern + t;
    }
  }

  /** No AWS key, OpenAI key or web token begins with a name: their first bytes hold a capital or a dash. */
  lemma {:induction false} NoSecondLetters(s: seq<Byte>, key: seq<Byte>)
    requires key != [] && forall j :: 0 <= j < |key| ==> IsNameByte(key[j])
    requires |key| < |s| && s[..|key|] == key && s[|key|] == EQUALS
    ensures AwsKeyLen(s).None? && !(Ascii("sk-") <= s) && JwtLen(s).None? && !(BEARER <= s)
  {
    assert forall j :: 0 <= j < |key| ==> s[j] == key[j];
    assert Ascii("AKIA")[0] == 'A' as int && BEARER[0] == 'B' as int;
    assert Ascii("sk-")[2] == '-' as int && Ascii("eyJ")[2] == 'J' as int;
    NoEqualsInside(s, |key|, Ascii("sk-"));
    NoEqualsInside(s, |key|, Ascii("eyJ"));
  }

  lemma {:induction false} NoEqualsInside(s: seq<Byte>, n: nat, pattern: seq<Byte>)
    requires n < |s| && s[n] == EQUALS && forall j :: 0 <= j < |pattern| ==> pattern[j] != EQUALS
    ensures pattern <= s ==> |pattern| <= n
  {
  }

  lemma {:induction false} NoFlagHere(s: seq<Byte>)
    requires s != [] && NotBlank(s[0]) && s[0] != '-' as int
    ensures SecretFlagLen(s).None?
  {
    hide FlagNameLen;
    UntilIs(s, NotBlank, 0);
    assert s[0..] == s;
    NoFlag(s);
  }

  lemma {:induction false} NameIsNoUpper(key: seq<Byte>)
    requires forall j :: 0 <= j < |key| ==> IsNameByte(key[j])
    ensures !IsSnakeKey(key)
  {
  }

  /**
   Every name with a secret suffix hides its value: for any small letters, digits and underscores
   before one of the four suffixes, unless a GitHub token stands at the front.
   */
  lemma {:induction false} SecretSuffixHides(p: seq<Byte>, suffix: seq<Byte>, v: seq<Byte>)
    requires forall j :: 0 <= j < |p| ==> IsNameByte(p[j])
    requires IsSecretSuffix(suffix) && !StartsToken(p + suffix)
    requires forall j :: 0 <= j < |v| ==> v[j] !in DELIMITERS
    requires WellFormed(p + suffix + ([61] + v))
    ensures Scan(p + suffix + ([61] + v)) == p + suffix + [61] + Ascii("[REDACTED]")
  {
    hide Step, Scan, WellFormed, IsLowerSecretKey, StartsToken, IsSecretSuffix, IsNameByte, DELIMITERS;
    var key := p + suffix;
    var s := key + ([61] + v);
    SuffixIsName(suffix);
    assert forall j :: 0 <= j < |key| ==> IsNameByte(key[j]);
    SuffixMakesSecret(p, suffix);
    SecretNameStep(key, v);
    ScanUnfold(s);
    assert s[|s|..] == [];
    ScanOfNothing();
    SameReplacement(key + [61]);
  }

  lemma {:induction false} SecretNameStep(key: seq<Byte>, v: seq<Byte>)
    requires key != [] && forall j :: 0 <= j < |key| ==> IsNameByte(key[j])
    requires IsLowerSecretKey(key) && !StartsToken(key) && forall j :: 0 <= j < |v| ==> v[j] !in DELIMITERS
    ensures var s := key + ([61] + v); Step(s) == Edit(key + [61] + REDACTED, |s|)
  {
    hide Step, KindOf, KeptLen, IsLowerSecretKey, StartsToken, IsNameByte, ValueLen, DELIMITERS;
    var s := key + ([61] + v);
    NameKind(key, v);
    NameEnds(key, v);
    PrefixStep(s);
    assert s[..|key| + 1] == key + [61];
    WholeValue(v);
  }

  lemma {:induction false} SuffixIsName(suffix: seq<Byte>)
    requires IsSecretSuffix(suffix)
    ensures |suffix| >= 4 && forall j :: 0 <= j < |suffix| ==> IsNameByte(suffix[j])
  {
  }

  lemma {:induction false} SuffixMakesSecret(p: seq<Byte>, suffix: seq<Byte>)
    requires IsSecretSuffix(suffix) && forall j :: 0 <= j < |p + suffix| ==> IsNameByte((p + suffix)[j])
    ensures IsLowerSecretKey(p + suffix)
  {
    hide EndsIn;
    var key := p + suffix;
    assert EndsIn(key, suffix) by { EndsInItself(p, suffix); }
    SecretNameIs(key);
  }

  lemma {:induction false} EndsInItself(p: seq<Byte>, suffix: seq<Byte>)
    ensures EndsIn(p + suffix, suffix)
  {
  }

  lemma {:induction false} WholeValue(v: seq<Byte>)
    requires forall j :: 0 <= j < |v| ==> v[j] !in DELIMITERS
    ensures ValueLen(Explicit, v) == ValueLen(Lower, v) == |v|
  {
    Classes();
    UntilIs(v, EndsValue, |v|);
  }

  /** Every other name at which nothing else begins is copied, letter by letter. */
  lemma {:induction false} OtherNamesAreCopied(key: seq<Byte>, t: seq<Byte>)
    requires key != [] && forall j :: 0 <= j < |key| ==> IsNameByte(key[j])
    requires forall p: seq<Byte>, suffix: seq<Byte> :: IsSecretSuffix(suffix) ==> key != p + suffix
    requires key !in {Ascii("token"), Ascii("password"), Ascii("api_key")} && !StartsToken(key)
    ensures Step(key + ([61] + t)) == Edit([key[0]], 1)
  {
    hide Step, KindOf, KeptLen, IsLowerSecretKey, StartsToken;
    var s := key + ([61] + t);
    NameKind(key, t);
    NoSuffixNoSecret(key);
    CopyStep(s);
    NameHeadLength(s, key);
    assert s[..1] == [key[0]];
  }

  lemma {:induction false} NameHeadLength(s: seq<Byte>, key: seq<Byte>)
    requires key != [] && key <= s && IsNameByte(key[0])
    ensures HeadLen(s) == 1
  {
    assert s[0] == key[0] && IsChar(s[..1]);
  }

  lemma {:induction false} NoSuffixNoSecret(key: seq<Byte>)
    requires forall p: seq<Byte>, suffix: seq<Byte> :: IsSecretSuffix(suffix) ==> key != p + suffix
    ensures !IsLowerSecretKey(key)
  {
    hide IsSecretSuffix;
    SecretNameIs(key);
    FourSuffixes();
    assert forall suffix: seq<Byte> :: IsSecretSuffix(suffix) ==> !EndsIn(key, suffix);
  }

  lemma {:induction false} FourSuffixes()
    ensures IsSecretSuffix(Ascii("_key")) && IsSecretSuffix(Ascii("_token"))
    ensures IsSecretSuffix(Ascii("_secret")) && IsSecretSuffix(Ascii("_password"))
  {
  }
}
