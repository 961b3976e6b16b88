/**
 How far one step of the sanitizer reaches when it starts before a secret value. The command is
 `c + v + r`: a text that introduces the value by ending in an equals sign or a space, the value,
 and whatever follows. A step either ends inside `c`, at a place that `c` alone decides, or jumps
 over the whole value, to a place in `r` that does not depend on it. The exception is a token
 that is recognised by its length and still open at the end of `c`.
 */
module SanitizerReach {
  import opened Wrappers
  import opened Utf8
  import opened Spans
  import opened Sanitizer
  import opened SanitizerKinds
  import opened SanitizerScan

  const SPACE: Byte := ' ' as int

  predicate EndsInEquals(c: seq<Byte>) { c != [] && c[|c| - 1] == EQUALS }

  predicate EndsInSpace(c: seq<Byte>) { c != [] && c[|c| - 1] == SPACE }

  predicate Introduces(c: seq<Byte>) { EndsInEquals(c) || EndsInSpace(c) }

  /** A value after `c`: no white space and no quotes, and after an equals sign none of the eight delimiters. */
  ghost predicate IsValueAfter(c: seq<Byte>, v: seq<Byte>) {
    forall j :: 0 <= j < |v| ==>
      !IsWhitespace(v[j]) && !IsQuote(v[j]) && (EndsInEquals(c) ==> !EndsValue(v[j]))
  }

  /** A place `n` bytes into the introducing text, or `n` bytes into what follows the value. */
  datatype Reach = Inside(n: nat) | Beyond(n: nat)

  /** The place in the command, if the value ends at `valueEnd`. */
  function Place(reach: Reach, valueEnd: nat): nat {
    match reach
    case Inside(n) => n
    case Beyond(n) => valueEnd + n
  }

  // ---- Runs and quoted text ---------------------------------------------------------------

  function RunReach(c: seq<Byte>, k: nat, stop: Byte -> bool, r: seq<Byte>): (reach: Reach)
    requires k <= |c|
    ensures reach.Inside? ==> k <= reach.n < |c| && stop(c[reach.n])
    ensures reach.Beyond? ==> reach.n <= |r|
  {
    var u := Until(c[k..], stop);
    if u < |c| - k then Inside(k + u) else Beyond(Until(r, stop))
  }

  lemma {:induction false} RunAcross(c: seq<Byte>, v: seq<Byte>, r: seq<Byte>, k: nat, stop: Byte -> bool)
    requires k <= |c|
    requires (forall j :: 0 <= j < |v| ==> !stop(v[j])) || (k < |c| && stop(c[|c| - 1]))
    ensures k + Until((c + v + r)[k..], stop) == Place(RunReach(c, k, stop, r), |c| + |v|)
  {
    if k < |c| && stop(c[|c| - 1]) {
      UntilInPrefix(c, c + v + r, k, stop);
    } else {
      UntilAcross(c, v, r, k, stop);
    }
  }

  function QuoteReach(c: seq<Byte>, k: nat, r: seq<Byte>): (reach: Reach)
    requires k < |c|
    ensures reach.Inside? ==> k + 2 <= reach.n <= |c| && c[reach.n - 1] == c[k]
  {
    var u := Until(c[k + 1..], Is(c[k]));
    if u < |c| - (k + 1) then Inside(k + 2 + u)
    else
      var w := Until(r, Is(c[k]));
      Beyond(if w < |r| then w + 1 else w)
  }

  lemma {:induction false} QuoteAcross(c: seq<Byte>, v: seq<Byte>, r: seq<Byte>, k: nat)
    requires k < |c| && IsQuote(c[k]) && IsValueAfter(c, v)
    ensures k + QuotedLen((c + v + r)[k..]) == Place(QuoteReach(c, k, r), |c| + |v|)
  {
    var s := c + v + r;
    assert s[k..][1..] == s[k + 1..] && s[k..][0] == c[k];
    UntilAcross(c, v, r, k + 1, Is(c[k]));
  }

  // ---- Values -----------------------------------------------------------------------------

  function ExplicitReach(c: seq<Byte>, k: nat, r: seq<Byte>): Reach
    requires k <= |c|
  {
    match RunReach(c, k, EndsValue, r)
    case Inside(i) => if IsQuote(c[i]) then QuoteReach(c, i, r) else Inside(i)
    case Beyond(j) => Beyond(if j < |r| && IsQuote(r[j]) then j + QuotedLen(r[j..]) else j)
  }

  function BearerReach(c: seq<Byte>, k: nat, r: seq<Byte>): Reach
    requires k <= |c|
  {
    match RunReach(c, k, EndsBearer, r)
    case Inside(i) => Inside(i + Until(c[i..], NotWhitespace))
    case Beyond(j) => Beyond(j + Until(r[j..], NotWhitespace))
  }

  /** Where the value that starts at `k` ends. */
  function ValueReach(kind: Kind, c: seq<Byte>, k: nat, r: seq<Byte>): Reach
    requires k <= |c|
  {
    match kind
    case Explicit => ExplicitReach(c, k, r)
    case Bearer => BearerReach(c, k, r)
    case Flag => RunReach(c, k, IsWhitespace, r)
    case Snake => RunReach(c, k, EndsSnakeValue, r)
    case Lower => if k < |c| && IsQuote(c[k]) then QuoteReach(c, k, r) else RunReach(c, k, EndsValue, r)
    case _ => Inside(k)
  }

  /** The kept prefix ends before the end of `c`, or `c` is its kind of introduction. */
  predicate Fits(kind: Kind, c: seq<Byte>, k: nat) {
    && k <= |c|
    && (k == |c| ==> if kind.Bearer? || kind.Flag? then EndsInSpace(c) else EndsInEquals(c))
  }

  lemma {:induction false} ExplicitAcross(c: seq<Byte>, v: seq<Byte>, r: seq<Byte>, k: nat)
    requires Introduces(c) && IsValueAfter(c, v) && Fits(Explicit, c, k)
    ensures k + PlainThenQuotedLen((c + v + r)[k..]) == Place(ExplicitReach(c, k, r), |c| + |v|)
  {
    hide QuotedLen, Until, QuoteReach, IsValueAfter;
    var s := c + v + r;
    ValueBytes(c, v, k);
    RunAcross(c, v, r, k, EndsValue);
    match RunReach(c, k, EndsValue, r)
    case Inside(i) =>
      assert s[k..][i - k..] == s[i..] && s[i] == c[i];
      if IsQuote(c[i]) {
        QuoteAcross(c, v, r, i);
      }
    case Beyond(j) =>
      assert s[k..][|c| + |v| + j - k..] == s[|c| + |v| + j..] == r[j..];
  }

  lemma {:induction false} ValueBytes(c: seq<Byte>, v: seq<Byte>, k: nat)
    requires Introduces(c) && IsValueAfter(c, v) && k <= |c| && (k == |c| ==> EndsInEquals(c))
    ensures (forall j :: 0 <= j < |v| ==> !EndsValue(v[j])) || (k < |c| && EndsValue(c[|c| - 1]))
    ensures (forall j :: 0 <= j < |v| ==> !EndsSnakeValue(v[j])) || (k < |c| && EndsSnakeValue(c[|c| - 1]))
    ensures (forall j :: 0 <= j < |v| ==> !EndsAwsKey(v[j])) || (k < |c| && EndsAwsKey(c[|c| - 1]))
  {
  }

  lemma {:induction false} BearerAcross(c: seq<Byte>, v: seq<Byte>, r: seq<Byte>, k: nat)
    requires Introduces(c) && IsValueAfter(c, v) && Fits(Bearer, c, k) && (EndsInSpace(c) ==> v != [])
    ensures k + ValueLen(Bearer, (c + v + r)[k..]) == Place(BearerReach(c, k, r), |c| + |v|)
  {
    hide Until, IsWhitespace, EndsBearer, IsValueAfter, RunReach, NotWhitespace;
    var s := c + v + r;
    NoBearerEnd(c, v);
    RunAcross(c, v, r, k, EndsBearer);
    match RunReach(c, k, EndsBearer, r)
    case Inside(i) =>
      assert s[k..][i - k..] == s[i..];
      SpacesInside(c, v, r, i);
    case Beyond(j) =>
      assert s[k..][|c| + |v| + j - k..] == s[|c| + |v| + j..] == r[j..];
  }

  lemma {:induction false} NoBearerEnd(c: seq<Byte>, v: seq<Byte>)
    requires IsValueAfter(c, v)
    ensures forall j :: 0 <= j < |v| ==> !EndsBearer(v[j])
  {
  }

  /** White space in `c` does not reach into the value. */
  lemma {:induction false} SpacesInside(c: seq<Byte>, v: seq<Byte>, r: seq<Byte>, i: nat)
    requires Introduces(c) && IsValueAfter(c, v) && i <= |c| && (EndsInSpace(c) ==> v != [])
    ensures i < |c| ==> Until((c + v + r)[i..], NotWhitespace) == Until(c[i..], NotWhitespace)
  {
    var u := Until(c[i..], NotWhitespace);
    if i < |c| {
      if u == |c| - i {
        assert c[i..][u - 1] == c[|c| - 1];
        assert NotWhitespace(v[0]);
      }
      UntilIs((c + v + r)[i..], NotWhitespace, u);
    }
  }

  lemma {:induction false} ValueAcross(kind: Kind, c: seq<Byte>, v: seq<Byte>, r: seq<Byte>, k: nat)
    requires kind.KeepsPrefix() && Introduces(c) && IsValueAfter(c, v) && Fits(kind, c, k)
    requires (EndsInSpace(c) || (kind.Lower? && k == |c|)) ==> v != []
    ensures k + ValueLen(kind, (c + v + r)[k..]) == Place(ValueReach(kind, c, k, r), |c| + |v|)
  {
    hide Until, QuotedLen, PlainThenQuotedLen, ExplicitReach, BearerReach, QuoteReach, RunReach, Place, EndsValue;
    var s := c + v + r;
    match kind
    case Explicit => ExplicitAcross(c, v, r, k);
    case Bearer => BearerAcross(c, v, r, k);
    case Flag => RunAcross(c, v, r, k, IsWhitespace);
    case Snake => ValueBytes(c, v, k); RunAcross(c, v, r, k, EndsSnakeValue);
    case Lower =>
      ValueBytes(c, v, k);
      if k < |c| {
        assert s[k..][0] == c[k];
      } else {
        assert s[k..][0] == v[0];
      }
      if k < |c| && IsQuote(c[k]) {
        QuoteAcross(c, v, r, k);
      } else {
        RunAcross(c, v, r, k, EndsValue);
      }
  }

  // ---- Patterns ---------------------------------------------------------------------------

  /** A pattern with neither an equals sign nor a space before its end does not extend over the end of `c`. */
  lemma {:induction false} PatternBefore(c: seq<Byte>, t: seq<Byte>, pattern: seq<Byte>)
    requires Introduces(c)
    requires forall j :: 0 <= j < |pattern| - 1 ==> pattern[j] != EQUALS && pattern[j] != SPACE
    ensures pattern <= c + t <==> pattern <= c
  {
    assert (c + t)[|c| - 1] == c[|c| - 1];
  }

  lemma {:induction false} ExplicitBefore(c: seq<Byte>, t: seq<Byte>)
    requires Introduces(c)
    ensures ExplicitKeyLen(c + t) == ExplicitKeyLen(c)
    ensures ExplicitKeyLen(c) > 0 ==> ExplicitKeyLen(c) < |c| && c[ExplicitKeyLen(c)] == EQUALS
  {
    PatternBefore(c, t, Ascii("token="));
    PatternBefore(c, t, Ascii("password="));
    PatternBefore(c, t, Ascii("api_key="));
  }

  // ---- Tokens known by their length -------------------------------------------------------

  /** An AWS key has begun and is too short without the value. */
  predicate AwsOpen(c: seq<Byte>, minLen: nat) {
    AKIA <= c && RunReach(c, 4, EndsAwsKey, []).Beyond? && |c| + minLen < 8
  }

  predicate TakesAws(c: seq<Byte>) {
    AKIA <= c && var reach := RunReach(c, 4, EndsAwsKey, []); reach.Inside? ==> reach.n >= 8
  }

  lemma {:induction false} AwsAcross(c: seq<Byte>, v: seq<Byte>, r: seq<Byte>, minLen: nat)
    requires Introduces(c) && IsValueAfter(c, v) && !AwsOpen(c, minLen) && |v| >= minLen
    ensures AwsKeyLen(c + v + r).Some? <==> TakesAws(c)
  {
    hide Until, IsValueAfter;
    assert c + v + r == c + (v + r);
    PatternBefore(c, v + r, AKIA);
    if AKIA <= c {
      NoPatternAtEnd(c, AKIA);
      ValueBytes(c, v, 4);
      RunAcross(c, v, r, 4, EndsAwsKey);
    }
  }

  lemma {:induction false} NoPatternAtEnd(c: seq<Byte>, pattern: seq<Byte>)
    requires Introduces(c) && pattern <= c
    requires forall j :: 0 <= j < |pattern| ==> pattern[j] != EQUALS && pattern[j] != SPACE
    ensures |pattern| < |c|
  {
  }

  /** A key with this prefix has begun and is too short without the value. */
  predicate KeyOpen(c: seq<Byte>, prefix: seq<Byte>, minChars: nat, minLen: nat) {
    prefix <= c && RunReach(c, |prefix|, EndsValue, []).Beyond? && |c| - |prefix| + minLen < minChars
  }

  predicate TakesKey(c: seq<Byte>, prefix: seq<Byte>, minChars: nat) {
    prefix <= c && var reach := RunReach(c, |prefix|, EndsValue, []); reach.Inside? ==> reach.n >= |prefix| + minChars
  }

  lemma {:induction false} KeyAcross(
      c: seq<Byte>, v: seq<Byte>, r: seq<Byte>, prefix: seq<Byte>, minChars: nat, minLen: nat)
    requires Introduces(c) && IsValueAfter(c, v) && !KeyOpen(c, prefix, minChars, minLen) && |v| >= minLen
    requires forall j :: 0 <= j < |prefix| ==> prefix[j] != EQUALS && prefix[j] != SPACE
    ensures PrefixedKeyLen(c + v + r, prefix, minChars).Some? <==> TakesKey(c, prefix, minChars)
  {
    hide Until, IsValueAfter;
    assert c + v + r == c + (v + r);
    PatternBefore(c, v + r, prefix);
    if prefix <= c {
      NoPatternAtEnd(c, prefix);
      ValueBytes(c, v, |prefix|);
      RunAcross(c, v, r, |prefix|, EndsValue);
    }
  }

  const SK: seq<Byte> := Ascii("sk-")
  const SK_PROJ: seq<Byte> := Ascii("sk-proj-")
  const SK_SVCACCT: seq<Byte> := Ascii("sk-svcacct-")
  const SK_ADMIN: seq<Byte> := Ascii("sk-admin-")

  /** An OpenAI key has begun and is too short without the value. */
  predicate SkOpen(c: seq<Byte>, minLen: nat) {
    if SK_PROJ <= c then KeyOpen(c, SK_PROJ, 16, minLen)
    else if SK_SVCACCT <= c then KeyOpen(c, SK_SVCACCT, 16, minLen)
    else if SK_ADMIN <= c then KeyOpen(c, SK_ADMIN, 16, minLen)
    else KeyOpen(c, SK, 48, minLen)
  }

  predicate TakesSk(c: seq<Byte>) {
    TakesKey(c, SK_PROJ, 16) || TakesKey(c, SK_SVCACCT, 16) || TakesKey(c, SK_ADMIN, 16) || TakesKey(c, SK, 48)
  }

  /** The longer prefixes exclude each other, and contain no delimiter. */
  lemma {:induction false} LongPrefixes(c: seq<Byte>)
    ensures SK_PROJ <= c ==> !(SK_SVCACCT <= c) && !(SK_ADMIN <= c)
    ensures SK_SVCACCT <= c ==> !(SK_ADMIN <= c)
  {
    assert SK_PROJ <= c ==> c[3] == 'p' as int;
    assert SK_SVCACCT <= c ==> c[3] == 's' as int;
    assert SK_ADMIN <= c ==> c[3] == 'a' as int;
  }

  /** A run of a longer prefix that ends inside `c` is one of the short prefix that does. */
  lemma {:induction false} ShorterPrefix(c: seq<Byte>, prefix: seq<Byte>)
    requires SK <= prefix <= c && forall j :: 0 <= j < |prefix| ==> !EndsValue(prefix[j])
    ensures RunReach(c, 3, EndsValue, []) == RunReach(c, |prefix|, EndsValue, [])
  {
    PrefixRun(c, prefix);
  }

  lemma {:induction false} LongPrefixIsShort(c: seq<Byte>, minLen: nat)
    requires !SkOpen(c, minLen)
    requires !TakesKey(c, SK_PROJ, 16) && !TakesKey(c, SK_SVCACCT, 16) && !TakesKey(c, SK_ADMIN, 16)
    ensures !KeyOpen(c, SK, 48, minLen)
  {
    hide RunReach;
    if SK_PROJ <= c {
      ShorterPrefix(c, SK_PROJ);
    } else if SK_SVCACCT <= c {
      ShorterPrefix(c, SK_SVCACCT);
    } else if SK_ADMIN <= c {
      ShorterPrefix(c, SK_ADMIN);
    }
  }

  lemma {:induction false} SkAcross(c: seq<Byte>, v: seq<Byte>, r: seq<Byte>, minLen: nat)
    requires Introduces(c) && IsValueAfter(c, v) && !SkOpen(c, minLen) && |v| >= minLen
    ensures OpenAiKeyLen(c + v + r).Some? <==> TakesSk(c)
  {
    hide PrefixedKeyLen, TakesKey, IsValueAfter, KeyOpen;
    LongPrefixes(c);
    NotBegun(c, SK_PROJ, 16, minLen);
    NotBegun(c, SK_SVCACCT, 16, minLen);
    NotBegun(c, SK_ADMIN, 16, minLen);
    KeyAcross(c, v, r, SK_PROJ, 16, minLen);
    KeyAcross(c, v, r, SK_SVCACCT, 16, minLen);
    KeyAcross(c, v, r, SK_ADMIN, 16, minLen);
    if !TakesKey(c, SK_PROJ, 16) && !TakesKey(c, SK_SVCACCT, 16) && !TakesKey(c, SK_ADMIN, 16) {
      LongPrefixIsShort(c, minLen);
      KeyAcross(c, v, r, SK, 48, minLen);
    }
  }

  lemma {:induction false} NotBegun(c: seq<Byte>, prefix: seq<Byte>, minChars: nat, minLen: nat)
    ensures !(prefix <= c) ==> !KeyOpen(c, prefix, minChars, minLen)
  {
  }

  /** A JSON web token has begun, and some value and rest make it one while a longer one does not. */
  predicate JwtOpen(c: seq<Byte>, minLen: nat) {
    && Ascii("eyJ") <= c && RunReach(c, 3, IsLineSpace, []).Beyond?
    && |c| + minLen <= 1200 && CountDots(c[3..]) + (1200 - |c|) >= 2
  }

  predicate TakesJwt(c: seq<Byte>) {
    && Ascii("eyJ") <= c
    && var reach := RunReach(c, 3, IsLineSpace, []);
       reach.Inside? && CountDots(c[3..reach.n]) >= 2 && 50 <= reach.n <= 1200
  }

  lemma {:induction false} DotsAppend(a: seq<Byte>, b: seq<Byte>)
    ensures CountDots(a) <= CountDots(a + b) <= CountDots(a) + |b|
  {
    if b == [] {
      assert a + b == a;
    } else {
      DotsAppend(a, b[..|b| - 1]);
      assert (a + b)[..|a + b| - 1] == a + b[..|b| - 1];
    }
  }

  /** The dots up to `end`, which lies in `c` or beyond the value. */
  lemma {:induction false} DotsUpTo(c: seq<Byte>, t: seq<Byte>, end: nat)
    requires 3 <= end <= |c + t| && 3 <= |c|
    ensures end <= |c| ==> (c + t)[3..end] == c[3..end]
    ensures end >= |c| ==> CountDots(c[3..]) <= CountDots((c + t)[3..end]) <= CountDots(c[3..]) + (end - |c|)
  {
    hide CountDots;
    if end >= |c| {
      assert (c + t)[3..end] == c[3..] + (c + t)[|c|..end];
      DotsAppend(c[3..], (c + t)[|c|..end]);
    }
  }

  lemma {:induction false} JwtAcross(c: seq<Byte>, v: seq<Byte>, r: seq<Byte>, minLen: nat)
    requires Introduces(c) && IsValueAfter(c, v) && !JwtOpen(c, minLen) && |v| >= minLen
    ensures JwtLen(c + v + r).Some? <==> TakesJwt(c)
  {
    hide Until, CountDots, IsValueAfter, IsLineSpace, RunReach;
    var s := c + v + r;
    assert s == c + (v + r);
    PatternBefore(c, v + r, Ascii("eyJ"));
    if Ascii("eyJ") <= c {
      NoPatternAtEnd(c, Ascii("eyJ"));
      JwtBytes(c, v);
      RunAcross(c, v, r, 3, IsLineSpace);
      RunAlone(c, r, 3, IsLineSpace);
      DotsUpTo(c, v + r, 3 + Until(s[3..], IsLineSpace));
    }
  }

  lemma {:induction false} JwtBytes(c: seq<Byte>, v: seq<Byte>)
    requires IsValueAfter(c, v)
    ensures forall j :: 0 <= j < |v| ==> !IsLineSpace(v[j])
  {
  }

  /** A run that ends inside `c` does so whatever follows the value. */
  lemma {:induction false} RunAlone(c: seq<Byte>, r: seq<Byte>, k: nat, stop: Byte -> bool)
    requires k <= |c|
    ensures RunReach(c, k, stop, r).Inside? || RunReach(c, k, stop, []).Inside? ==>
              RunReach(c, k, stop, r) == RunReach(c, k, stop, [])
    ensures RunReach(c, k, stop, r).Inside? ==> k <= RunReach(c, k, stop, r).n < |c|
  {
    hide Until;
  }

  lemma {:induction false} GithubBefore(c: seq<Byte>, t: seq<Byte>)
    requires Introduces(c)
    ensures GithubTokenLen(c + t) == GithubTokenLen(c)
  {
    PatternBefore(c, t, Ascii("ghp_"));
    PatternBefore(c, t, Ascii("gho_"));
    PatternBefore(c, t, Ascii("ght_"));
    PatternBefore(c, t, Ascii("ghs_"));
    if HasGithubPrefix(c) {
      assert |c| > 4 && NotAlphanumeric(c[|c| - 1]);
      UntilInPrefix(c, c + t, 4, NotAlphanumeric);
    }
  }

  // ---- Flags and keys -----------------------------------------------------------------------

  /** Only a value that could itself be a flag matters after nothing but blanks. */
  ghost predicate NoFlagAfterBlanks(c: seq<Byte>, v: seq<Byte>) {
    Until(c, NotBlank) == |c| ==> v != [] && v[0] != '-' as int
  }

  lemma {:induction false} FlagBefore(c: seq<Byte>, v: seq<Byte>, r: seq<Byte>)
    requires Introduces(c) && IsValueAfter(c, v) && NoFlagAfterBlanks(c, v)
    ensures SecretFlagLen(c + v + r) == SecretFlagLen(c)
    ensures SecretFlagLen(c).Some? ==> SecretFlagLen(c).value <= |c| && c[SecretFlagLen(c).value - 1] == SPACE
  {
    hide FlagNameLen, Until;
    var s, b := c + v + r, Until(c, NotBlank);
    if b == |c| {
      assert NotBlank(v[0]);
      UntilIs(s, NotBlank, b);
      assert s[b..] == v + r && c[b..] == [];
      HeadBytes(v + r);
      NothingNamed();
    } else {
      UntilIs(s, NotBlank, b);
      assert s[b..] == c[b..] + (v + r);
      FlagNameBefore(c[b..], v + r);
    }
  }

  lemma {:induction false} NothingNamed()
    ensures FlagNameLen([]) == 0
  {
  }

  lemma {:induction false} FlagNameBefore(c: seq<Byte>, t: seq<Byte>)
    requires Introduces(c)
    ensures FlagNameLen(c + t) == FlagNameLen(c)
    ensures FlagNameLen(c) > 0 ==> c[FlagNameLen(c) - 1] == SPACE
  {
    PatternBefore(c, t, Ascii("--secret "));
    PatternBefore(c, t, Ascii("--api-key "));
  }

  /** A key lies in `c`, up to its first equals sign, or nowhere. */
  lemma {:induction false} KeysBefore(c: seq<Byte>, t: seq<Byte>)
    requires Introduces(c)
    ensures SnakeAssignment(c + t).Some? <==> SnakeAssignment(c).Some?
    ensures LowerAssignment(c + t).Some? <==> LowerAssignment(c).Some?
    ensures SnakeAssignment(c).Some? || LowerAssignment(c).Some? ==>
              Until(c + t, Is(EQUALS)) == Until(c, Is(EQUALS)) < |c|
  {
    hide IsSnakeKey, IsLowerSecretKey;
    var s, eq := c + t, Until(c, Is(EQUALS));
    if eq < |c| {
      UntilIs(s, Is(EQUALS), eq);
      assert s[..eq] == c[..eq];
    } else {
      var n := Until(s, Is(EQUALS));
      assert forall j :: 0 <= j < |c| ==> s[j] == c[j];
      assert n >= |c|;
      SpaceInKey(s[..n], |c| - 1);
    }
  }

  lemma {:induction false} SpaceInKey(key: seq<Byte>, n: nat)
    requires n < |key| && key[n] == SPACE
    ensures !IsSnakeKey(key) && !IsLowerSecretKey(key)
  {
    hide HasSuffix;
  }

  // ---- The step -----------------------------------------------------------------------------

  /** A token that is recognised by its length is open at the end of `c`. */
  predicate TokenOpen(c: seq<Byte>, minLen: nat) {
    AwsOpen(c, minLen) || SkOpen(c, minLen) || JwtOpen(c, minLen)
  }

  /** The kind of the step at the front of `c`, whatever the value. */
  function KindBefore(c: seq<Byte>): Kind {
    if ExplicitKeyLen(c) > 0 then Explicit
    else if BEARER <= c then Bearer
    else if TakesAws(c) || GithubTokenLen(c).Some? || TakesSk(c) then Token
    else if SecretFlagLen(c).Some? then Flag
    else if TakesJwt(c) then Token
    else if SnakeAssignment(c).Some? then Snake
    else if LowerAssignment(c).Some? then Lower
    else Copy
  }

  function KeptBefore(c: seq<Byte>): (k: nat)
    ensures k <= |c|
  {
    match KindBefore(c)
    case Explicit => if ExplicitKeyLen(c) < |c| then ExplicitKeyLen(c) + 1 else 0
    case Bearer => 7
    case Flag => SecretFlagLen(c).value
    case Snake => Until(c, Is(EQUALS)) + 1
    case Lower => Until(c, Is(EQUALS)) + 1
    case _ => 0
  }

  lemma {:induction false} KindAcross(c: seq<Byte>, v: seq<Byte>, r: seq<Byte>, minLen: nat)
    requires Introduces(c) && IsValueAfter(c, v) && NoFlagAfterBlanks(c, v)
    requires !TokenOpen(c, minLen) && |v| >= minLen
    ensures KindOf(c + v + r) == KindBefore(c) && KeptLen(c + v + r) == KeptBefore(c)
    ensures KindBefore(c).KeepsPrefix() ==> Fits(KindBefore(c), c, KeptBefore(c))
  {
    hide ExplicitKeyLen, TakesAws, TakesSk, TakesJwt, AwsKeyLen, OpenAiKeyLen, GithubTokenLen, JwtLen, SecretFlagLen,
         SnakeAssignment, LowerAssignment, PlainThenQuotedLen, Until, AwsOpen, SkOpen, JwtOpen, IsValueAfter,
         NoFlagAfterBlanks, RedactBearer;
    var s := c + v + r;
    assert s == c + (v + r);
    ExplicitBefore(c, v + r);
    PatternBefore(c, v + r, BEARER);
    AwsAcross(c, v, r, minLen);
    GithubBefore(c, v + r);
    SkAcross(c, v, r, minLen);
    FlagBefore(c, v, r);
    JwtAcross(c, v, r, minLen);
    KeysBefore(c, v + r);
    KeyEnd(c);
  }

  lemma {:induction false} KeyEnd(c: seq<Byte>)
    ensures SnakeAssignment(c).Some? || LowerAssignment(c).Some? ==>
              Until(c, Is(EQUALS)) < |c| && c[Until(c, Is(EQUALS))] == EQUALS
    ensures BEARER <= c ==> c[6] == SPACE
  {
    hide IsSnakeKey, IsLowerSecretKey;
  }

  /** Where the run of a whole token that starts in `c` ends. */
  function TokenReach(c: seq<Byte>, r: seq<Byte>): Reach
    requires c != []
  {
    if TokenStart(c[0]) <= |c| then RunReach(c, TokenStart(c[0]), TokenStop(c[0]), r) else Inside(0)
  }

  /** Where the step at the front of `c` ends. */
  function ReachBefore(c: seq<Byte>, r: seq<Byte>): Reach
    requires c != []
  {
    match KindBefore(c)
    case Copy => Inside(HeadLen(c))
    case Token => TokenReach(c, r)
    case kind => ValueReach(kind, c, KeptBefore(c), r)
  }

  /** What the step at the front of `c` writes. */
  function TextBefore(c: seq<Byte>): seq<Byte> {
    match KindBefore(c)
    case Copy => c[..HeadLen(c)]
    case Token => REDACTED
    case _ => c[..KeptBefore(c)] + REDACTED
  }

  lemma {:induction false} TokenAcross(c: seq<Byte>, v: seq<Byte>, r: seq<Byte>)
    requires Introduces(c) && IsValueAfter(c, v)
    requires KindOf(c + v + r).Token?
    ensures Step(c + v + r) == Edit(REDACTED, Place(TokenReach(c, r), |c| + |v|))
  {
    hide Step, KindOf, Until, IsValueAfter, RunReach, EndsValue, EndsAwsKey, NotAlphanumeric, IsLineSpace, Place;
    var s := c + v + r;
    assert s[0] == c[0];
    TokenStep(s);
    TokenRun(s);
    TokenHead(s);
    assert s == c + (v + r);
    TokenInside(c, v + r);
    TokenBytes(c, v);
    RunAcross(c, v, r, TokenStart(c[0]), TokenStop(c[0]));
  }

  /** The front of a whole token has neither an equals sign nor white space. */
  lemma {:induction false} TokenHead(s: seq<Byte>)
    requires KindOf(s).Token?
    ensures TokenStart(s[0]) <= |s|
    ensures forall j :: 0 <= j < TokenStart(s[0]) ==> s[j] != EQUALS && NotWhitespace(s[j])
  {
    hide Step, KindOf, Until, CountDots, OpenAiKeyLen, NotWhitespace, HasGithubPrefix;
    TokenLength(s);
    HeadBytes(s);
    OpenAiHead(s);
    TokenPatterns();
    GithubHead(s);
    CleanFront(s, AKIA);
    CleanFront(s, SK);
    CleanFront(s, Ascii("eyJ"));
  }

  lemma {:induction false} TokenPatterns()
    ensures forall j :: 0 <= j < 4 ==> NotWhitespace(AKIA[j]) && AKIA[j] != EQUALS
    ensures forall j :: 0 <= j < 3 ==> NotWhitespace(SK[j]) && SK[j] != EQUALS
    ensures forall j :: 0 <= j < 3 ==> NotWhitespace(Ascii("eyJ")[j]) && Ascii("eyJ")[j] != EQUALS
    ensures forall j :: 0 <= j < 8 ==> NotWhitespace(SK_PROJ[j])
    ensures forall j :: 0 <= j < 11 ==> NotWhitespace(SK_SVCACCT[j])
    ensures forall j :: 0 <= j < 9 ==> NotWhitespace(SK_ADMIN[j])
  {
  }

  lemma {:induction false} CleanFront(s: seq<Byte>, pattern: seq<Byte>)
    requires forall j :: 0 <= j < |pattern| ==> NotWhitespace(pattern[j]) && pattern[j] != EQUALS
    ensures pattern <= s ==> forall j :: 0 <= j < |pattern| ==> s[j] != EQUALS && NotWhitespace(s[j])
  {
    hide NotWhitespace;
  }

  lemma {:induction false} GithubHead(s: seq<Byte>)
    ensures HasGithubPrefix(s) ==>
              |s| >= 4 && forall j :: 0 <= j < 4 ==> s[j] != EQUALS && NotWhitespace(s[j])
  {
  }

  lemma {:induction false} TokenInside(c: seq<Byte>, t: seq<Byte>)
    requires Introduces(c) && TokenStart(c[0]) <= |c + t|
    requires forall j :: 0 <= j < TokenStart(c[0]) ==> (c + t)[j] != EQUALS && NotWhitespace((c + t)[j])
    ensures TokenStart(c[0]) < |c|
  {
    hide TokenStart;
    assert (c + t)[|c| - 1] == c[|c| - 1];
  }

  lemma {:induction false} TokenBytes(c: seq<Byte>, v: seq<Byte>)
    requires Introduces(c) && IsValueAfter(c, v)
    ensures var stop := TokenStop(c[0]); (forall j :: 0 <= j < |v| ==> !stop(v[j])) || stop(c[|c| - 1])
  {
  }

  lemma {:induction false} CopyAcross(c: seq<Byte>, t: seq<Byte>)
    requires WellFormed(c) && c != [] && KindOf(c + t).Copy?
    ensures Step(c + t) == Edit(c[..HeadLen(c)], HeadLen(c))
  {
    hide Step, KindOf;
    CopyStep(c + t);
    HeadLenAppend(c, t);
    assert (c + t)[..HeadLen(c)] == c[..HeadLen(c)];
  }

  /** The step that starts in `c` writes what `c` says, and ends at the place that `c` and `r` say. */
  lemma {:induction false} StepAcross(c: seq<Byte>, v: seq<Byte>, r: seq<Byte>, minLen: nat)
    requires WellFormed(c) && Introduces(c) && IsValueAfter(c, v) && NoFlagAfterBlanks(c, v)
    requires !TokenOpen(c, minLen) && |v| >= minLen
    requires (EndsInSpace(c) || (KindBefore(c).Lower? && KeptBefore(c) == |c|)) ==> v != []
    ensures Step(c + v + r) == Edit(TextBefore(c), Place(ReachBefore(c, r), |c| + |v|))
  {
    hide Step, KindOf, KeptLen, KindBefore, KeptBefore, ValueLen, ValueReach, TokenReach, IsValueAfter,
         NoFlagAfterBlanks, TokenOpen, WellFormed, HeadLen, Fits;
    var s := c + v + r;
    assert s == c + (v + r);
    KindAcross(c, v, r, minLen);
    var kind, k := KindBefore(c), KeptBefore(c);
    if kind.Copy? {
      CopyAcross(c, v + r);
    } else if kind.Token? {
      TokenAcross(c, v, r);
    } else {
      PrefixStep(s);
      assert s[..k] == c[..k];
      ValueAcross(kind, c, v, r, k);
    }
  }

  /** A step that ends inside `c` does so whatever follows the value. */
  lemma {:induction false} InsideStands(c: seq<Byte>, r: seq<Byte>)
    requires c != []
    ensures ReachBefore(c, r).Inside? || ReachBefore(c, []).Inside? ==> ReachBefore(c, r) == ReachBefore(c, [])
  {
    hide KindBefore, KeptBefore, Until;
  }
}
