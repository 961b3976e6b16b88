/**
 Where the value of a secret key is hidden: exactly when the scan of the text up to the value
 comes to no open place, and so after any text that ends before the key and opens no token.
 */
module SanitizerContexts {
  import opened Wrappers
  import opened Utf8
  import opened Spans
  import opened Sanitizer
  import opened SanitizerKinds
  import opened SanitizerScan
  import opened SanitizerReach
  import opened SanitizerSecrecy

  // ---- Secret keys --------------------------------------------------------------------------

  predicate IsExplicitKey(key: seq<Byte>) {
    key == Ascii("token=") || key == Ascii("password=") || key == Ascii("api_key=")
  }

  predicate IsUpperKey(key: seq<Byte>) {
    key != [] && key[|key| - 1] == EQUALS && IsSnakeKey(key[..|key| - 1])
  }

  /** A lower-case key with a secret suffix, all of which is not taken for a GitHub token. */
  predicate IsLowerKey(key: seq<Byte>) {
    && key != [] && key[|key| - 1] == EQUALS && IsLowerSecretKey(key[..|key| - 1])
    && !IsExplicitKey(key) && GithubTokenLen(key) != Some(|key| - 1)
  }

  /** A key, with its equals sign, whose value must not be observable. */
  predicate IsSecretKey(key: seq<Byte>) {
    IsExplicitKey(key) || IsUpperKey(key) || IsLowerKey(key)
  }

  /** Nothing, or text whose last byte cannot belong to the key that follows. */
  predicate EndsBeforeKey(p: seq<Byte>) {
    p != [] ==> !IsKeyByte(p[|p| - 1])
  }

  /** Key bytes up to an equals sign. */
  predicate IsKeyText(key: seq<Byte>) {
    && |key| >= 4 && key[|key| - 1] == EQUALS
    && forall j :: 0 <= j < |key| - 1 ==> IsKeyByte(key[j])
  }

  lemma {:induction false} KeyBytes(key: seq<Byte>)
    requires IsSecretKey(key)
    ensures IsKeyText(key)
  {
    hide IsLowerSecretKey, IsSnakeKey, GithubTokenLen;
    if !IsExplicitKey(key) {
      var front := key[..|key| - 1];
      FrontBytes(front);
      assert forall j :: 0 <= j < |key| - 1 ==> key[j] == front[j];
    }
  }

  lemma {:induction false} FrontBytes(key: seq<Byte>)
    requires IsSnakeKey(key) || IsLowerSecretKey(key)
    ensures |key| >= 3 && forall j :: 0 <= j < |key| ==> IsKeyByte(key[j])
  {
  }

  lemma {:induction false} KeyIntroduces(p: seq<Byte>, key: seq<Byte>)
    requires WellFormed(p) && IsKeyText(key)
    ensures WellFormed(p + key) && EndsInEquals(p + key) && !EndsInSpace(p + key)
  {
    AsciiWellFormed(key);
    Concat(p, key);
  }

  // ---- Steps before the key -------------------------------------------------------------------

  lemma {:induction false} PatternEndsBefore(p: seq<Byte>, key: seq<Byte>, pattern: seq<Byte>)
    requires p != [] && EndsBeforeKey(p) && pattern <= p + key
    requires forall j :: 0 <= j < |pattern| - 1 ==> IsKeyByte(pattern[j])
    ensures |pattern| <= |p|
  {
    assert (p + key)[|p| - 1] == p[|p| - 1];
  }

  lemma {:induction false} KeyEndsBefore(p: seq<Byte>, key: seq<Byte>, eq: nat)
    requires p != [] && EndsBeforeKey(p) && eq <= |p + key|
    requires IsSnakeKey((p + key)[..eq]) || IsLowerSecretKey((p + key)[..eq])
    ensures eq < |p|
  {
    hide IsSnakeKey, IsLowerSecretKey;
    var c := p + key;
    FrontBytes(c[..eq]);
    assert forall j :: 0 <= j < eq ==> c[j] == c[..eq][j];
    assert c[|p| - 1] == p[|p| - 1];
  }

  lemma {:induction false} FlagEndsBefore(p: seq<Byte>, key: seq<Byte>)
    requires IsKeyText(key) && SecretFlagLen(p + key).Some?
    ensures SecretFlagLen(p + key).value <= |p|
  {
    hide SecretFlagLen, NoFlagAfterBlanks, IsValueAfter;
    var c := p + key;
    PlainIsValue(c, [LETTER]);
    FlagBefore(c, [LETTER], []);
  }

  /** A kept prefix does not reach into the key. */
  lemma {:induction false} KeptEndsBefore(p: seq<Byte>, key: seq<Byte>)
    requires p != [] && EndsBeforeKey(p) && IsKeyText(key)
    ensures KeptBefore(p + key) <= |p|
  {
    hide TakesAws, TakesSk, TakesJwt, GithubTokenLen, SecretFlagLen, IsSnakeKey, IsLowerSecretKey, EndsBeforeKey,
         QuotedOrPlainLen, IsKeyText, IsKeyByte, ExplicitKeyLen, Until;
    var c := p + key;
    match KindBefore(c)
    case Explicit => ExplicitEndsBefore(p, key);
    case Bearer => BearerEndsBefore(p, key);
    case Flag => FlagEndsBefore(p, key);
    case Snake => KeyEndsBefore(p, key, Until(c, Is(EQUALS)));
    case Lower => KeyEndsBefore(p, key, Until(c, Is(EQUALS)));
    case _ =>
  }

  lemma {:induction false} ExplicitEndsBefore(p: seq<Byte>, key: seq<Byte>)
    requires p != [] && EndsBeforeKey(p) && ExplicitKeyLen(p + key) > 0
    ensures ExplicitKeyLen(p + key) < |p|
  {
    hide EndsBeforeKey;
    var c := p + key;
    if Ascii("token=") <= c {
      PatternEndsBefore(p, key, Ascii("token="));
    } else if Ascii("password=") <= c {
      PatternEndsBefore(p, key, Ascii("password="));
    } else {
      PatternEndsBefore(p, key, Ascii("api_key="));
    }
  }

  lemma {:induction false} BearerEndsBefore(p: seq<Byte>, key: seq<Byte>)
    requires p != [] && EndsBeforeKey(p) && BEARER <= p + key
    ensures 7 <= |p|
  {
    hide EndsBeforeKey;
    PatternEndsBefore(p, key, BEARER);
  }

  /** A run that no byte of the key stops ends before the key or goes over the value. */
  lemma {:induction false} RunEndsBefore(p: seq<Byte>, key: seq<Byte>, k: nat, stop: Byte -> bool)
    requires k <= |p + key| && forall j :: 0 <= j < |key| ==> !stop(key[j])
    ensures RunReach(p + key, k, stop, []).Inside? ==> RunReach(p + key, k, stop, []).n < |p|
  {
    hide Until;
  }

  lemma {:induction false} KeyStopsNothing(key: seq<Byte>)
    requires IsKeyText(key)
    ensures forall j :: 0 <= j < |key| ==>
              && !EndsValue(key[j]) && !EndsBearer(key[j]) && !EndsAwsKey(key[j]) && !EndsSnakeValue(key[j])
              && !IsWhitespace(key[j]) && !IsQuote(key[j]) && !IsLineSpace(key[j])
  {
  }

  lemma {:induction false} QuoteEndsBefore(p: seq<Byte>, key: seq<Byte>, k: nat)
    requires k < |p + key| && IsQuote((p + key)[k]) && forall j :: 0 <= j < |key| ==> !IsQuote(key[j])
    ensures QuoteReach(p + key, k, []).Inside? ==> QuoteReach(p + key, k, []).n <= |p|
  {
    hide Until;
  }

  lemma {:induction false} SpacesEndBefore(p: seq<Byte>, key: seq<Byte>, i: nat)
    requires i < |p| && (key != [] ==> NotWhitespace(key[0]))
    ensures i + Until((p + key)[i..], NotWhitespace) <= |p|
  {
    var c := p + key;
    assert |p| < |c| ==> c[i..][|p| - i] == key[0];
  }

  lemma {:induction false} ValueEndsBefore(kind: Kind, p: seq<Byte>, key: seq<Byte>, k: nat)
    requires kind.KeepsPrefix() && IsKeyText(key) && k <= |p|
    ensures ValueReach(kind, p + key, k, []).Inside? ==> ValueReach(kind, p + key, k, []).n <= |p|
  {
    hide RunReach, QuoteReach, Until, IsKeyText, EndsValue, EndsBearer, EndsSnakeValue, IsWhitespace, IsQuote,
      QuotedLen;
    KeyStopsNothing(key);
    var c := p + key;
    RunEndsBefore(p, key, k, EndsValue);
    RunEndsBefore(p, key, k, EndsBearer);
    RunEndsBefore(p, key, k, EndsSnakeValue);
    RunEndsBefore(p, key, k, IsWhitespace);
    match kind
    case Explicit =>
      var reach := RunReach(c, k, EndsValue, []);
      if reach.Inside? && IsQuote(c[reach.n]) {
        QuoteEndsBefore(p, key, reach.n);
      }
    case Bearer =>
      var reach := RunReach(c, k, EndsBearer, []);
      if reach.Inside? {
        SpacesEndBefore(p, key, reach.n);
      }
    case Lower =>
      if k < |c| && IsQuote(c[k]) {
        QuoteEndsBefore(p, key, k);
      }
    case _ =>
  }

  lemma {:induction false} GithubEndsBefore(p: seq<Byte>, key: seq<Byte>)
    requires p != [] && EndsBeforeKey(p) && HasGithubPrefix(p + key)
    ensures RunReach(p + key, 4, NotAlphanumeric, []).Inside? && RunReach(p + key, 4, NotAlphanumeric, []).n < |p|
  {
    var c := p + key;
    assert forall j :: 0 <= j < 4 ==> IsKeyByte(c[j]);
    assert c[|p| - 1] == p[|p| - 1];
    assert c[4..][|p| - 1 - 4] == p[|p| - 1] && NotAlphanumeric(p[|p| - 1]);
  }

  /** What kind of whole token begins, by its first byte. */
  lemma {:induction false} TokenBegins(c: seq<Byte>)
    requires c != [] && KindBefore(c).Token? && c[0] == 'g' as int
    ensures HasGithubPrefix(c)
  {
    hide SecretFlagLen, SnakeAssignment, LowerAssignment, RunReach;
  }

  lemma {:induction false} TokenEndsBefore(p: seq<Byte>, key: seq<Byte>)
    requires p != [] && EndsBeforeKey(p) && IsKeyText(key) && KindBefore(p + key).Token?
    ensures TokenReach(p + key, []).Inside? ==> TokenReach(p + key, []).n <= |p|
  {
    hide KindBefore, RunReach, EndsBeforeKey, IsKeyText, EndsValue, EndsAwsKey, IsLineSpace, NotAlphanumeric,
         HasGithubPrefix;
    var c := p + key;
    KeyStopsNothing(key);
    if c[0] == 'g' as int {
      TokenBegins(c);
      GithubEndsBefore(p, key);
    } else if TokenStart(c[0]) <= |c| {
      RunEndsBefore(p, key, TokenStart(c[0]), TokenStop(c[0]));
    }
  }

  /** A step before the key ends before the key or jumps over the value. */
  lemma {:induction false} StepEndsBefore(p: seq<Byte>, key: seq<Byte>)
    requires WellFormed(p) && p != [] && EndsBeforeKey(p) && IsKeyText(key)
    ensures ReachBefore(p + key, []).Inside? ==> ReachBefore(p + key, []).n <= |p|
  {
    hide KindBefore, KeptBefore, TokenReach, ValueReach, WellFormed, EndsBeforeKey, IsKeyText, HeadLen;
    var c := p + key;
    var kind := KindBefore(c);
    if kind.Copy? {
      FirstChar(p);
      HeadLenAppend(p, key);
    } else if kind.Token? {
      TokenEndsBefore(p, key);
    } else {
      KeptEndsBefore(p, key);
      ValueEndsBefore(kind, p, key, KeptBefore(c));
    }
  }

  // ---- The step at the key --------------------------------------------------------------------

  lemma {:induction false} NoneOfThese(c: seq<Byte>)
    requires |c| >= 3 && !(AKIA <= c) && !(SK <= c) && !(Ascii("eyJ") <= c)
    ensures !TakesAws(c) && !TakesSk(c) && !TakesJwt(c)
  {
    hide RunReach;
    PrefixOfPrefix(SK, SK_PROJ, c);
    PrefixOfPrefix(SK, SK_SVCACCT, c);
    PrefixOfPrefix(SK, SK_ADMIN, c);
  }

  lemma {:induction false} NoFlagAt(c: seq<Byte>)
    requires c != [] && NotBlank(c[0]) && c[0] != '-' as int
    ensures SecretFlagLen(c).None?
  {
    hide FlagNameLen;
    UntilIs(c, NotBlank, 0);
    assert c[0..] == c;
    NoFlag(c);
  }

  lemma {:induction false} ExplicitLength(key: seq<Byte>)
    requires IsExplicitKey(key)
    ensures ExplicitKeyLen(key) == |key| - 1 >= 5
  {
    assert Ascii("token=")[0] == 't' as int && Ascii("password=")[0] == 'p' as int &&
        Ascii("api_key=")[0] == 'a' as int;
  }

  lemma {:induction false} ExplicitAtFront(key: seq<Byte>)
    requires IsExplicitKey(key)
    ensures KindBefore(key).Explicit? && KeptBefore(key) == |key|
  {
    hide TakesAws, TakesSk, TakesJwt, GithubTokenLen, SecretFlagLen, SnakeAssignment, LowerAssignment, ExplicitKeyLen;
    ExplicitLength(key);
  }

  lemma {:induction false} UpperAtFront(key: seq<Byte>)
    requires IsUpperKey(key)
    ensures if AKIA <= key then KindBefore(key).Token? && key[0] == 'A' as int
            else KindBefore(key).Snake? && KeptBefore(key) == |key|
  {
    hide ExplicitKeyLen, GithubTokenLen, SecretFlagLen, TakesSk, TakesJwt, LowerAssignment, IsSnakeKey, RunReach,
      TakesAws;
    UpperHead(key);
    LowerPatterns(key);
    if AKIA <= key {
      AwsAtFront(key);
    } else {
      NoneOfThese(key);
      UpperFirstEquals(key);
    }
  }

  lemma {:induction false} UpperHead(key: seq<Byte>)
    requires IsUpperKey(key)
    ensures |key| >= 4 && !IsLower(key[0]) && !IsLower(key[1]) && !(SK <= key) && GithubTokenLen(key).None?
    ensures SecretFlagLen(key).None?
  {
    hide SecretFlagLen, Until;
    var front := key[..|key| - 1];
    assert key[0] == front[0] && key[1] == front[1];
    assert SK[0] == 's' as int;
    LowerPatterns(key);
    NoFlagAt(key);
  }

  lemma {:induction false} AwsAtFront(key: seq<Byte>)
    requires IsUpperKey(key) && AKIA <= key
    ensures TakesAws(key) && RunReach(key, 4, EndsAwsKey, []).Beyond? && key[0] == 'A' as int
  {
    hide IsUpperKey, EndsAwsKey, RunReach;
    assert IsSecretKey(key) by { hide IsLowerKey, IsExplicitKey; }
    KeyBytes(key);
    KeyStopsNothing(key);
    assert [] + key == key && AKIA[0] == 'A' as int;
    RunEndsBefore([], key, 4, EndsAwsKey);
  }

  lemma {:induction false} UpperFirstEquals(key: seq<Byte>)
    requires IsUpperKey(key)
    ensures SnakeAssignment(key).Some? && Until(key, Is(EQUALS)) == |key| - 1
  {
    var front := key[..|key| - 1];
    assert forall j :: 0 <= j < |front| ==> key[j] == front[j];
    UntilIs(key, Is(EQUALS), |key| - 1);
  }

  lemma {:induction false} LowerAtFront(key: seq<Byte>)
    requires IsLowerKey(key)
    ensures if GithubTokenLen(key).Some? then KindBefore(key).Token? && key[0] == 'g' as int
            else KindBefore(key).Lower? && KeptBefore(key) == |key|
  {
    hide ExplicitKeyLen, GithubTokenLen, SecretFlagLen, TakesSk, TakesJwt, TakesAws, LowerAssignment, IsLowerSecretKey,
         SnakeAssignment;
    LowerHead(key);
    NoneOfThese(key);
    NoFlagAt(key);
    LowerFirstEquals(key);
    LowerNotExplicit(key);
    if GithubTokenLen(key).Some? {
      GithubLetter(key);
    }
  }

  lemma {:induction false} GithubLetter(key: seq<Byte>)
    requires GithubTokenLen(key).Some?
    ensures key != [] && key[0] == 'g' as int
  {
    hide Until;
    HeadBytes(key);
  }

  lemma {:induction false} LowerHead(key: seq<Byte>)
    requires IsLowerKey(key)
    ensures |key| >= 5 && NotBlank(key[0]) && key[0] != '-' as int
    ensures !(AKIA <= key) && !(SK <= key) && !(Ascii("eyJ") <= key) && !(BEARER <= key)
  {
    hide IsLowerSecretKey, GithubTokenLen, IsExplicitKey;
    var front := key[..|key| - 1];
    LowerKeyBytes(front);
    assert forall j :: 0 <= j < |front| ==> key[j] == front[j];
    assert AKIA[0] == 'A' as int && SK[2] == '-' as int && BEARER[0] == 'B' as int && Ascii("eyJ")[2] == 'J' as int;
  }

  lemma {:induction false} LowerFirstEquals(key: seq<Byte>)
    requires IsLowerKey(key)
    ensures LowerAssignment(key).Some? && SnakeAssignment(key).None? && Until(key, Is(EQUALS)) == |key| - 1
  {
    hide IsLowerSecretKey, GithubTokenLen, IsExplicitKey, IsSnakeKey;
    var front := key[..|key| - 1];
    LowerKeyBytes(front);
    assert forall j :: 0 <= j < |front| ==> key[j] == front[j];
    UntilIs(key, Is(EQUALS), |key| - 1);
  }

  lemma {:induction false} LowerNotExplicit(key: seq<Byte>)
    requires IsLowerKey(key)
    ensures ExplicitKeyLen(key) == 0
  {
    hide IsLowerSecretKey, GithubTokenLen;
    var front := key[..|key| - 1];
    LowerKeyBytes(front);
    assert forall j :: 0 <= j < |front| ==> key[j] == front[j];
    KeyIsPattern(key, Ascii("token="));
    KeyIsPattern(key, Ascii("password="));
    KeyIsPattern(key, Ascii("api_key="));
  }

  lemma {:induction false} KeyIsPattern(key: seq<Byte>, pattern: seq<Byte>)
    requires key != [] && forall j :: 0 <= j < |key| - 1 ==> key[j] != EQUALS
    requires pattern != [] && pattern[|pattern| - 1] == EQUALS
    ensures pattern <= key ==> pattern == key
  {
    if pattern <= key {
      assert key[|pattern| - 1] == EQUALS;
    }
  }

  /** A GitHub token at the front of a lower-case key leaves a lower-case key. */
  lemma {:induction false} KeyAfterToken(key: seq<Byte>)
    requires IsLowerKey(key) && GithubTokenLen(key).Some?
    ensures var n := GithubTokenLen(key).value;
            && 4 < n < |key| && IsLowerKey(key[n..]) && GithubTokenLen(key[n..]).None?
            && TokenReach(key, []) == Inside(n)
  {
    hide IsLowerSecretKey, IsExplicitKey, RunReach;
    var n, front := GithubTokenLen(key).value, key[..|key| - 1];
    GithubLetter(key);
    GithubRun(key);
    assert forall j :: 0 <= j <= n ==> key[j] == front[j];
    KeyTail(front, n);
    assert key[n..][..|key| - n - 1] == front[n..];
    NotExplicitOrToken(key[n..]);
  }

  lemma {:induction false} NotExplicitOrToken(key: seq<Byte>)
    requires key != [] && key[0] == '_' as int
    ensures !IsExplicitKey(key) && GithubTokenLen(key).None?
  {
    hide Until;
    HeadBytes(key);
  }

  lemma {:induction false} GithubRun(key: seq<Byte>)
    requires IsLowerKey(key) && GithubTokenLen(key).Some?
    ensures var n := GithubTokenLen(key).value;
            && 4 < n < |key| - 1 && key[n] == '_' as int && forall j :: 4 <= j < n ==> key[j] != '_' as int
    ensures HasGithubPrefix(key[..|key| - 1])
    ensures RunReach(key, 4, NotAlphanumeric, []) == Inside(GithubTokenLen(key).value)
  {
    hide HasSuffix, IsExplicitKey;
    var n, front := GithubTokenLen(key).value, key[..|key| - 1];
    assert key[4..][|key| - 5] == EQUALS && NotAlphanumeric(EQUALS);
    assert n < |key| - 1;
    assert key[n] == front[n];
    assert forall j :: 4 <= j < n ==> key[j] == key[4..][j - 4];
    GithubFront(key, front);
  }

  lemma {:induction false} GithubFront(key: seq<Byte>, front: seq<Byte>)
    requires HasGithubPrefix(key) && front <= key && |front| >= 4
    ensures HasGithubPrefix(front)
  {
    assert front[..4] == key[..4];
  }

  /** A lower-case key cut at an underscore after its fourth byte is again one. */
  lemma {:induction false} KeyTail(key: seq<Byte>, n: nat)
    requires IsLowerSecretKey(key) && 4 < n < |key| && key[n] == '_' as int
    requires HasGithubPrefix(key) && forall j :: 4 <= j < n ==> key[j] != '_' as int
    ensures IsLowerSecretKey(key[n..])
  {
    hide HasSuffix;
    SuffixTail(key, n, Ascii("_key"));
    SuffixTail(key, n, Ascii("_token"));
    SuffixTail(key, n, Ascii("_secret"));
    SuffixTail(key, n, Ascii("_password"));
  }

  lemma {:induction false} SuffixTail(key: seq<Byte>, n: nat, suffix: seq<Byte>)
    requires n < |key| && key[n] == '_' as int && suffix != [] && suffix[0] == '_' as int
    requires forall j :: 1 <= j < |suffix| ==> suffix[j] != '_' as int
    ensures HasSuffix(key, suffix) ==> HasSuffix(key[n..], suffix)
  {
    if HasSuffix(key, suffix) {
      var k := |key| - |suffix|;
      assert forall i :: k <= i < |key| ==> key[i] == key[k..][i - k] == suffix[i - k];
      assert key[n..][k - n..] == key[k..];
    }
  }

  /** The step at a secret key jumps over the value, or takes a token from the front of the key. */
  lemma {:induction false} StepAtKey(key: seq<Byte>)
    requires IsSecretKey(key)
    ensures ReachBefore(key, []).Beyond? || (
              && ReachBefore(key, []).Inside? && 0 < ReachBefore(key, []).n < |key|
              && IsLowerKey(key) && IsLowerKey(key[ReachBefore(key, []).n..]))
  {
    hide KindBefore, KeptBefore, IsLowerKey, IsUpperKey, TokenReach, GithubTokenLen, IsExplicitKey;
    KeyBytes(key);
    if IsExplicitKey(key) {
      ExplicitAtFront(key);
    } else if IsUpperKey(key) {
      UpperAtFront(key);
      if AKIA <= key {
        AwsAtFront(key);
        assert TokenReach(key, []).Beyond? by { AwsReach(key); }
      }
    } else {
      LowerAtFront(key);
      if GithubTokenLen(key).Some? {
        KeyAfterToken(key);
      }
    }
    assert key[|key|..] == [];
  }

  lemma {:induction false} AwsReach(key: seq<Byte>)
    requires |key| >= 4 && key[0] == 'A' as int && RunReach(key, 4, EndsAwsKey, []).Beyond?
    ensures TokenReach(key, []).Beyond?
  {
  }

  // ---- Values of secret keys --------------------------------------------------------------------

  /** Scanning `c` comes to an open place, where the length of the value decides what is recognised. */
  predicate OpenReached(c: seq<Byte>, minLen: nat)
    requires WellFormed(c)
    decreases |c|
  {
    && c != []
    && (|| Open(c, minLen)
        || (ProbeStep(c, minLen);
            var n := Step(c + Probe(minLen)).len;
            n <= |c| && OpenReached(c[n..], minLen)))
  }

  /** The step at `p + key` with any value. */
  lemma {:induction false} KeyStep(p: seq<Byte>, key: seq<Byte>, minLen: nat)
    requires WellFormed(p) && WellFormed(p + key) && EndsBeforeKey(p) && IsSecretKey(key) && !Open(p + key, minLen)
    ensures var n := Step(p + key + Probe(minLen)).len;
            || n > |p + key|
            || (n <= |p| && p != [])
            || (p == [] && n < |key| && IsLowerKey(key) && IsLowerKey(key[n..]))
  {
    hide Step, WellFormed, ReachBefore, Open, IsSecretKey, IsLowerKey, EndsBeforeKey, IsValueAfter, NoFlagAfterBlanks,
         IsKeyText;
    KeyBytes(key);
    KeyIntroduces(p, key);
    ProbeSettled(p + key, minLen);
    ProbeReach(p + key, [], minLen);
    if p == [] {
      assert p + key == key;
      StepAtKey(key);
    } else {
      StepEndsBefore(p, key);
    }
  }

  lemma {:induction false} ShorterContext(p: seq<Byte>, key: seq<Byte>, n: nat)
    requires WellFormed(p) && EndsBeforeKey(p) && IsKeyText(key) && n <= |p|
    requires WellFormed((p + key)[n..])
    ensures (p + key)[n..] == p[n..] + key && WellFormed(p[n..]) && EndsBeforeKey(p[n..])
  {
    hide WellFormed;
    var t := p[n..] + key;
    assert (p + key)[n..] == t;
    assert t[|p| - n] == key[0];
    Split(t, |p| - n);
    assert t[..|p| - n] == p[n..];
  }

  lemma {:induction false} KeyCoveredIff(p: seq<Byte>, key: seq<Byte>, minLen: nat)
    requires WellFormed(p) && WellFormed(p + key) && EndsBeforeKey(p) && IsSecretKey(key)
    ensures Covered(p + key, minLen) <==> !OpenReached(p + key, minLen)
    decreases |p| + |key|
  {
    hide Step, WellFormed, Open, IsExplicitKey, IsUpperKey, IsLowerKey, EndsBeforeKey, IsKeyByte;
    var c := p + key;
    KeyBytes(key);
    if !Open(c, minLen) {
      KeyStep(p, key, minLen);
      ProbeStep(c, minLen);
      var n := Step(c + Probe(minLen)).len;
      if n <= |p| && p != [] {
        ShorterContext(p, key, n);
        KeyCoveredIff(p[n..], key, minLen);
      } else if n <= |c| {
        assert c == key && [] + key[n..] == key[n..];
        KeyCoveredIff([], key[n..], minLen);
      }
    }
  }

  /**
   After a secret key, whatever stands before and after, the value is hidden if and only if the
   scan of the text up to the value comes to no open place.
   */
  lemma {:induction false} SecretKeyIff(p: seq<Byte>, key: seq<Byte>, minLen: nat)
    requires WellFormed(p) && WellFormed(p + key) && EndsBeforeKey(p) && IsSecretKey(key)
    ensures Hidden(p + key, minLen) <==> !OpenReached(p + key, minLen)
  {
    hide WellFormed, Hidden, Covered, OpenReached, IsSecretKey, EndsBeforeKey;
    KeyBytes(key);
    KeyIntroduces(p, key);
    KeyCoveredIff(p, key, minLen);
    HiddenIff(p + key, minLen);
  }

  // ---- Text that opens nothing --------------------------------------------------------------------

  /** Wherever `pattern` occurs in `p`, one of the bytes that stop its run follows in `p`. */
  ghost predicate IsClosed(p: seq<Byte>, pattern: seq<Byte>, stop: Byte -> bool) {
    forall i :: 0 <= i <= |p| && pattern <= p[i..] ==> exists j :: i <= j < |p| && stop(p[j])
  }

  /** Every web token and OpenAI key that begins in `p` also ends there. */
  ghost predicate OpensNothing(p: seq<Byte>) {
    IsClosed(p, Ascii("eyJ"), IsLineSpace) && IsClosed(p, SK, EndsValue)
  }

  /** Values too short for the key to be told from an AWS key, and the empty value of a lower-case key. */
  predicate IsLongEnough(key: seq<Byte>, minLen: nat) {
    (AKIA <= key ==> |key| + minLen >= 8) && (IsLowerKey(key) ==> minLen >= 1)
  }

  lemma {:induction false} ClosedTail(p: seq<Byte>, pattern: seq<Byte>, stop: Byte -> bool, n: nat)
    requires IsClosed(p, pattern, stop) && n <= |p|
    ensures IsClosed(p[n..], pattern, stop)
  {
    forall i | 0 <= i <= |p[n..]| && pattern <= p[n..][i..] ensures exists j :: i <= j < |p[n..]| && stop(p[n..][j]) {
      assert p[n..][i..] == p[n + i..];
      var j :| n + i <= j < |p| && stop(p[j]);
      assert p[n..][j - n] == p[j];
    }
  }

  /** A run that stops in `p` goes over no value. */
  lemma {:induction false} ClosedRun(p: seq<Byte>, key: seq<Byte>, pattern: seq<Byte>, stop: Byte -> bool)
    requires p != [] && EndsBeforeKey(p) && IsClosed(p, pattern, stop) && pattern <= p + key
    requires forall j :: 0 <= j < |pattern| ==> !stop(pattern[j])
    requires forall j :: 0 <= j < |pattern| - 1 ==> IsKeyByte(pattern[j])
    ensures RunReach(p + key, |pattern|, stop, []).Inside?
  {
    hide EndsBeforeKey;
    var c := p + key;
    PatternEndsBefore(p, key, pattern);
    assert pattern <= p[0..];
    assert forall i :: 0 <= i < |pattern| ==> p[i] == c[i] == pattern[i];
    var j :| 0 <= j < |p| && stop(p[j]);
    assert c[|pattern|..][j - |pattern|] == p[j];
  }

  lemma {:induction false} LongPrefixClosed(p: seq<Byte>, key: seq<Byte>, prefix: seq<Byte>, minChars: nat, minLen: nat)
    requires p != [] && EndsBeforeKey(p) && IsClosed(p, SK, EndsValue)
    requires SK <= prefix && forall j :: 0 <= j < |prefix| ==> !EndsValue(prefix[j])
    ensures !KeyOpen(p + key, prefix, minChars, minLen)
  {
    hide EndsBeforeKey, RunReach, EndsValue, IsClosed;
    if prefix <= p + key {
      ShorterPrefix(p + key, prefix);
      SkClean();
      ClosedRun(p, key, SK, EndsValue);
    }
  }

  lemma {:induction false} SkClean()
    ensures forall j :: 0 <= j < 3 ==> !EndsValue(SK[j])
    ensures forall j :: 0 <= j < 2 ==> IsKeyByte(SK[j])
  {
  }

  lemma {:induction false} NotOpenBefore(p: seq<Byte>, key: seq<Byte>, minLen: nat)
    requires p != [] && EndsBeforeKey(p) && OpensNothing(p) && IsKeyText(key)
    ensures !Open(p + key, minLen)
  {
    hide EndsBeforeKey, RunReach, EndsValue, IsLineSpace, KindBefore, KeptBefore, CountDots, IsKeyText, IsClosed,
         KeyOpen;
    var c := p + key;
    KeptEndsBefore(p, key);
    KeyIsNotEmpty(key);
    PrefixClean();
    SkClean();
    LongPrefixClosed(p, key, SK_PROJ, 16, minLen);
    LongPrefixClosed(p, key, SK_SVCACCT, 16, minLen);
    LongPrefixClosed(p, key, SK_ADMIN, 16, minLen);
    LongPrefixClosed(p, key, SK, 48, minLen);
    JwtNotOpen(p, key, minLen);
    AwsNotOpen(p, key, minLen);
  }

  lemma {:induction false} KeyIsNotEmpty(key: seq<Byte>)
    requires IsKeyText(key)
    ensures |key| >= 4
  {
  }

  lemma {:induction false} JwtNotOpen(p: seq<Byte>, key: seq<Byte>, minLen: nat)
    requires p != [] && EndsBeforeKey(p) && IsClosed(p, Ascii("eyJ"), IsLineSpace)
    ensures !JwtOpen(p + key, minLen)
  {
    hide EndsBeforeKey, IsClosed, RunReach, CountDots;
    if Ascii("eyJ") <= p + key {
      ClosedRun(p, key, Ascii("eyJ"), IsLineSpace);
    }
  }

  lemma {:induction false} AwsNotOpen(p: seq<Byte>, key: seq<Byte>, minLen: nat)
    requires p != [] && EndsBeforeKey(p) && IsKeyText(key)
    ensures !AwsOpen(p + key, minLen)
  {
    hide RunReach;
    if AKIA <= p + key {
      PatternEndsBefore(p, key, AKIA);
    }
  }

  /** At a secret key nothing is open, if the value is long enough. */
  lemma {:induction false} NotOpenAtKey(key: seq<Byte>, minLen: nat)
    requires IsSecretKey(key) && IsLongEnough(key, minLen)
    ensures !Open(key, minLen)
  {
    hide IsExplicitKey, IsUpperKey, IsLowerKey, KindBefore, KeptBefore, RunReach, CountDots;
    KeyBytes(key);
    NoTokenInKey(key);
    if IsExplicitKey(key) {
      ExplicitAtFront(key);
    } else if IsUpperKey(key) {
      UpperAtFront(key);
    }
  }

  /** No key begins with `sk-` or with `eyJ`. */
  lemma {:induction false} NoTokenInKey(key: seq<Byte>)
    requires IsSecretKey(key)
    ensures |key| >= 4 && !(SK <= key) && !(Ascii("eyJ") <= key)
  {
    hide IsExplicitKey, IsUpperKey, IsLowerKey;
    KeyBytes(key);
    assert SK[2] == '-' as int && Ascii("eyJ")[0] == 'e' as int;
    if IsExplicitKey(key) {
      ExplicitLetter(key);
    } else if IsUpperKey(key) {
      UpperHead(key);
    } else {
      LowerHead(key);
    }
  }

  lemma {:induction false} ExplicitLetter(key: seq<Byte>)
    requires IsExplicitKey(key)
    ensures key[0] != 'e' as int
  {
  }

  lemma {:induction false} NothingReached(p: seq<Byte>, key: seq<Byte>, minLen: nat)
    requires WellFormed(p) && WellFormed(p + key) && EndsBeforeKey(p) && IsSecretKey(key)
    requires OpensNothing(p) && IsLongEnough(key, minLen)
    ensures !OpenReached(p + key, minLen)
    decreases |p| + |key|
  {
    hide Step, WellFormed, Open, IsExplicitKey, IsUpperKey, IsLowerKey, EndsBeforeKey, IsKeyByte, OpensNothing;
    var c := p + key;
    KeyBytes(key);
    if p == [] {
      assert c == key;
      NotOpenAtKey(key, minLen);
    } else {
      NotOpenBefore(p, key, minLen);
    }
    KeyStep(p, key, minLen);
    ProbeStep(c, minLen);
    var n := Step(c + Probe(minLen)).len;
    if n <= |p| && p != [] {
      ShorterContext(p, key, n);
      ClosedContext(p, n);
      NothingReached(p[n..], key, minLen);
    } else if n <= |c| {
      assert [] + key[n..] == key[n..];
      LowerHead(key[n..]);
      assert p[|p|..] == [];
      NothingReached([], key[n..], minLen);
    }
  }

  lemma {:induction false} ClosedContext(p: seq<Byte>, n: nat)
    requires OpensNothing(p) && n <= |p|
    ensures OpensNothing(p[n..])
  {
    hide IsClosed;
    ClosedTail(p, Ascii("eyJ"), IsLineSpace, n);
    ClosedTail(p, SK, EndsValue, n);
  }

  /**
   A secret is hidden after any text that ends before the key and leaves no web token and no
   OpenAI key open, whatever the text after it: in URLs, in quotes, after dashes.
   */
  lemma {:induction false} SecretNotObservable(p: seq<Byte>, key: seq<Byte>, minLen: nat)
    requires WellFormed(p) && WellFormed(p + key) && EndsBeforeKey(p) && IsSecretKey(key)
    requires OpensNothing(p) && IsLongEnough(key, minLen)
    ensures Hidden(p + key, minLen)
  {
    hide WellFormed, Hidden, OpenReached, IsSecretKey, EndsBeforeKey, OpensNothing, IsLongEnough;
    NothingReached(p, key, minLen);
    SecretKeyIff(p, key, minLen);
  }
}
