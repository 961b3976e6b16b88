/**
 Where the value after a bearer prefix or a secret flag in the middle of a command is hidden:
 exactly when the prefix itself is not taken for the value of an earlier one.
 */
module SanitizerPrefixes {
  import opened Wrappers
  import opened Utf8
  import opened Spans
  import opened Sanitizer
  import opened SanitizerKinds
  import opened SanitizerScan
  import opened SanitizerReach
  import opened SanitizerSecrecy
  import opened SanitizerContexts

  predicate IsPrefix(prefix: seq<Byte>) {
    prefix == BEARER || prefix == Ascii("--secret ") || prefix == Ascii("--api-key ")
  }

  /** Nothing, or text that ends in a space, a tab or a line feed. */
  predicate EndsInGap(p: seq<Byte>) {
    p != [] ==> IsBlank(p[|p| - 1]) || p[|p| - 1] == '\n' as int
  }

  /**
   Scanning `c` comes to a bearer prefix or a flag that ends where the last `n` bytes of `c`
   begin: what follows is taken for its value.
   */
  predicate TakenForValue(c: seq<Byte>, n: nat, minLen: nat)
    requires WellFormed(c)
    decreases |c|
  {
    && |c| > n
    && (var s := c + Probe(minLen);
        || ((KindOf(s).Bearer? || KindOf(s).Flag?) && KeptLen(s) == |c| - n)
        || (ProbeStep(c, minLen);
            Step(s).len <= |c| && TakenForValue(c[Step(s).len..], n, minLen)))
  }

  lemma {:induction false} PrefixBytes(prefix: seq<Byte>)
    requires IsPrefix(prefix)
    ensures |prefix| >= 7 && prefix[|prefix| - 1] == SPACE && NotWhitespace(prefix[0])
    ensures forall j :: 0 <= j < |prefix| ==> prefix[j] <= 0x7F && prefix[j] != EQUALS && !IsQuote(prefix[j])
    ensures forall j :: 0 <= j < |prefix| - 1 ==> NotWhitespace(prefix[j]) && !EndsValue(prefix[j])
  {
  }

  /** A pattern without white space before its end cannot go over the end of `p`. */
  lemma {:induction false} PatternInGap(p: seq<Byte>, t: seq<Byte>, pattern: seq<Byte>)
    requires p != [] && EndsInGap(p) && pattern <= p + t
    requires forall j :: 0 <= j < |pattern| - 1 ==> NotWhitespace(pattern[j])
    ensures |pattern| <= |p|
    ensures |pattern| == |p| ==> IsWhitespace(pattern[|pattern| - 1])
  {
    assert (p + t)[|p| - 1] == p[|p| - 1];
  }

  lemma {:induction false} ExplicitInGap(p: seq<Byte>, t: seq<Byte>)
    requires p != [] && EndsInGap(p) && ExplicitKeyLen(p + t) > 0
    ensures ExplicitKeyLen(p + t) + 1 < |p|
  {
    hide EndsInGap;
    var c := p + t;
    if Ascii("token=") <= c {
      PatternInGap(p, t, Ascii("token="));
    } else if Ascii("password=") <= c {
      PatternInGap(p, t, Ascii("password="));
    } else {
      PatternInGap(p, t, Ascii("api_key="));
    }
  }

  lemma {:induction false} KeyInGap(p: seq<Byte>, t: seq<Byte>, eq: nat)
    requires p != [] && EndsInGap(p) && eq < |p + t| && (p + t)[eq] == EQUALS
    requires IsSnakeKey((p + t)[..eq]) || IsLowerSecretKey((p + t)[..eq])
    ensures eq + 1 < |p|
  {
    hide IsSnakeKey, IsLowerSecretKey;
    var c := p + t;
    FrontBytes(c[..eq]);
    assert forall j :: 0 <= j < eq ==> c[j] == c[..eq][j];
    assert c[|p| - 1] == p[|p| - 1];
  }

  /** A flag ends in `p`, at its end, or goes with leading blanks up to the end of the prefix. */
  lemma {:induction false} FlagInGap(p: seq<Byte>, prefix: seq<Byte>)
    requires p != [] && EndsInGap(p) && IsPrefix(prefix) && SecretFlagLen(p + prefix).Some?
    ensures var n := SecretFlagLen(p + prefix).value; n <= |p| || n == |p + prefix|
  {
    hide SecretFlagLen, NoFlagAfterBlanks, IsValueAfter, IsPrefix;
    var c := p + prefix;
    PrefixBytes(prefix);
    PlainIsValue(c, [LETTER]);
    FlagBefore(c, [LETTER], []);
    var n := SecretFlagLen(c).value;
    assert n > |p| ==> c[n - 1] == prefix[n - 1 - |p|];
  }

  // ---- Steps before the prefix --------------------------------------------------------------------

  lemma {:induction false} RunInGap(p: seq<Byte>, t: seq<Byte>, k: nat, stop: Byte -> bool)
    requires k < |p| && stop(p[|p| - 1])
    ensures RunReach(p + t, k, stop, []).Inside? && RunReach(p + t, k, stop, []).n < |p|
  {
    hide Until;
    var c := p + t;
    assert c[k..][|p| - 1 - k] == p[|p| - 1];
  }

  lemma {:induction false} GapStops(p: seq<Byte>)
    requires p != [] && EndsInGap(p)
    ensures var b := p[|p| - 1];
            && EndsValue(b) && EndsBearer(b) && IsWhitespace(b) && EndsSnakeValue(b) && EndsAwsKey(b)
            && NotAlphanumeric(b) && IsLineSpace(b)
  {
  }

  lemma {:induction false} ValueInGap(kind: Kind, p: seq<Byte>, prefix: seq<Byte>, k: nat)
    requires kind.KeepsPrefix() && p != [] && EndsInGap(p) && IsPrefix(prefix) && k < |p|
    ensures var reach := ValueReach(kind, p + prefix, k, []); reach.Inside? ==> reach.n <= |p|
  {
    hide RunReach, QuoteReach, Until, EndsInGap, IsPrefix, EndsValue, EndsBearer, EndsSnakeValue, IsWhitespace, IsQuote,
         QuotedLen, NotWhitespace;
    GapStops(p);
    PrefixBytes(prefix);
    var c := p + prefix;
    match kind
    case Explicit =>
      RunInGap(p, prefix, k, EndsValue);
      var reach := RunReach(c, k, EndsValue, []);
      if IsQuote(c[reach.n]) {
        QuoteEndsBefore(p, prefix, reach.n);
      }
    case Bearer =>
      RunInGap(p, prefix, k, EndsBearer);
      SpacesEndBefore(p, prefix, RunReach(c, k, EndsBearer, []).n);
    case Flag => RunInGap(p, prefix, k, IsWhitespace);
    case Snake => RunInGap(p, prefix, k, EndsSnakeValue);
    case Lower =>
      RunInGap(p, prefix, k, EndsValue);
      if IsQuote(c[k]) {
        QuoteEndsBefore(p, prefix, k);
      }
  }

  lemma {:induction false} TokenInGap(p: seq<Byte>, prefix: seq<Byte>, s: seq<Byte>)
    requires p != [] && EndsInGap(p) && p + prefix <= s && KindOf(s).Token?
    ensures TokenReach(p + prefix, []).Inside? && TokenReach(p + prefix, []).n <= |p|
  {
    hide KindOf, RunReach, EndsInGap, EndsValue, EndsAwsKey, IsLineSpace, NotAlphanumeric, IsWhitespace, TokenStart;
    GapStops(p);
    TokenHead(s);
    var c, k := p + prefix, TokenStart(s[0]);
    assert s[0] == c[0] && s[|p| - 1] == p[|p| - 1];
    assert k < |p|;
    RunInGap(p, prefix, k, TokenStop(c[0]));
  }

  /** The kept prefix ends exactly before the one that introduces the value. */
  predicate TakesPrefix(p: seq<Byte>, prefix: seq<Byte>) {
    var kind := KindBefore(p + prefix);
    (kind.Bearer? || kind.Flag?) && KeptBefore(p + prefix) == |p|
  }

  lemma {:induction false} KeptInGap(p: seq<Byte>, prefix: seq<Byte>)
    requires p != [] && EndsInGap(p) && IsPrefix(prefix)
    requires KindBefore(p + prefix).KeepsPrefix() && !TakesPrefix(p, prefix)
    ensures KeptBefore(p + prefix) < |p| || (KindBefore(p + prefix).Flag? && KeptBefore(p + prefix) == |p + prefix|)
  {
    hide TakesAws, TakesSk, TakesJwt, GithubTokenLen, SecretFlagLen, IsSnakeKey, IsLowerSecretKey, EndsInGap,
         QuotedOrPlainLen, IsPrefix, IsKeyByte, ExplicitKeyLen, Until;
    var c := p + prefix;
    match KindBefore(c)
    case Explicit => ExplicitInGap(p, prefix);
    case Bearer => PatternInGap(p, prefix, BEARER);
    case Flag => FlagInGap(p, prefix);
    case Snake => KeyEnd(c); KeyInGap(p, prefix, Until(c, Is(EQUALS)));
    case Lower => KeyEnd(c); KeyInGap(p, prefix, Until(c, Is(EQUALS)));
  }

  /** Unless it takes the prefix for a value, a step ends before the prefix or jumps over the value. */
  lemma {:induction false} StepInGap(p: seq<Byte>, prefix: seq<Byte>, minLen: nat)
    requires WellFormed(p) && p != [] && EndsInGap(p) && IsPrefix(prefix) && minLen >= 1
    requires !TokenOpen(p + prefix, minLen) && !TakesPrefix(p, prefix)
    ensures ReachBefore(p + prefix, []).Inside? ==> ReachBefore(p + prefix, []).n <= |p|
  {
    hide KindBefore, KeptBefore, KindOf, KeptLen, TokenReach, WellFormed, EndsInGap, IsPrefix, HeadLen, TakesPrefix,
         TokenOpen, IsValueAfter, NoFlagAfterBlanks, Fits, RunReach, ExplicitReach, BearerReach, QuoteReach;
    var c := p + prefix;
    var kind := KindBefore(c);
    PrefixBytes(prefix);
    PlainIsValue(c, Probe(minLen));
    KindAcross(c, Probe(minLen), [], minLen);
    if kind.Copy? {
      FirstChar(p);
      HeadLenAppend(p, prefix);
    } else if kind.Token? {
      TokenInGap(p, prefix, c + Probe(minLen) + []);
    } else {
      KeptInGap(p, prefix);
      if KeptBefore(c) < |p| {
        ValueInGap(kind, p, prefix, KeptBefore(c));
      } else {
        AtEnd(c);
      }
    }
  }

  lemma {:induction false} AtEnd(c: seq<Byte>)
    ensures RunReach(c, |c|, IsWhitespace, []).Beyond? && RunReach(c, |c|, EndsBearer, []).Beyond?
  {
  }

  // ---- No token is open ---------------------------------------------------------------------------

  lemma {:induction false} RunStopsInGap(p: seq<Byte>, t: seq<Byte>, pattern: seq<Byte>, stop: Byte -> bool)
    requires p != [] && EndsInGap(p) && pattern <= p + t && stop(p[|p| - 1])
    requires forall j :: 0 <= j < |pattern| ==> NotWhitespace(pattern[j])
    ensures RunReach(p + t, |pattern|, stop, []).Inside?
  {
    hide RunReach;
    assert (p + t)[|p| - 1] == p[|p| - 1];
    RunInGap(p, t, |pattern|, stop);
  }

  lemma {:induction false} NothingOpenInGap(p: seq<Byte>, t: seq<Byte>, minLen: nat)
    requires p != [] && EndsInGap(p)
    ensures !TokenOpen(p + t, minLen)
  {
    hide RunReach, EndsInGap, EndsValue, EndsAwsKey, IsLineSpace, CountDots, NotWhitespace;
    var c := p + t;
    GapStops(p);
    TokenPatterns();
    if AKIA <= c {
      RunStopsInGap(p, t, AKIA, EndsAwsKey);
    }
    if SK_PROJ <= c {
      RunStopsInGap(p, t, SK_PROJ, EndsValue);
    }
    if SK_SVCACCT <= c {
      RunStopsInGap(p, t, SK_SVCACCT, EndsValue);
    }
    if SK_ADMIN <= c {
      RunStopsInGap(p, t, SK_ADMIN, EndsValue);
    }
    if SK <= c {
      RunStopsInGap(p, t, SK, EndsValue);
    }
    if Ascii("eyJ") <= c {
      RunStopsInGap(p, t, Ascii("eyJ"), IsLineSpace);
    }
  }

  // ---- The step at the prefix, and the one that takes it --------------------------------------------

  lemma {:induction false} PrefixAtFront(prefix: seq<Byte>, minLen: nat)
    requires IsPrefix(prefix)
    ensures !TokenOpen(prefix, minLen) && (KindBefore(prefix).Bearer? || KindBefore(prefix).Flag?)
    ensures KeptBefore(prefix) == |prefix| && ReachBefore(prefix, []).Beyond?
  {
    hide ExplicitKeyLen, RunReach, GithubTokenLen, SecretFlagLen, CountDots;
    HeadOfPrefix(prefix);
    NoneOfThese(prefix);
    AtEnd(prefix);
    assert prefix[|prefix|..] == [];
  }

  lemma {:induction false} HeadOfPrefix(prefix: seq<Byte>)
    requires IsPrefix(prefix)
    ensures |prefix| >= 7 && !(AKIA <= prefix) && !(SK <= prefix) && !(Ascii("eyJ") <= prefix)
    ensures ExplicitKeyLen(prefix) == 0 && GithubTokenLen(prefix).None?
    ensures !(BEARER <= prefix) ==> SecretFlagLen(prefix) == Some(|prefix|)
    ensures BEARER <= prefix ==> |prefix| == 7
  {
    hide FlagNameLen, ExplicitKeyLen, HasGithubPrefix, IsPrefix;
    PrefixLetter(prefix);
    HeadBytes(prefix);
    assert AKIA[0] == 'A' as int && SK[0] == 's' as int && Ascii("eyJ")[0] == 'e' as int && BEARER[0] == 'B' as int;
    UntilIs(prefix, NotBlank, 0);
    assert prefix[0..] == prefix;
  }

  lemma {:induction false} PrefixLetter(prefix: seq<Byte>)
    requires IsPrefix(prefix)
    ensures |prefix| >= 7 && (if prefix[0] == 'B' as int then prefix == BEARER else prefix[0] == '-' as int)
    ensures prefix[0] == '-' as int ==> FlagNameLen(prefix) == |prefix|
  {
    FlagNames();
  }

  lemma {:induction false} FlagNames()
    ensures FlagNameLen(Ascii("--secret ")) == 9 && FlagNameLen(Ascii("--api-key ")) == 10
  {
    assert Ascii("--api-key ")[2] == 'a' as int && Ascii("--secret ")[2] == 's' as int;
  }

  lemma {:induction false} TakenReach(p: seq<Byte>, prefix: seq<Byte>)
    requires p != [] && IsPrefix(prefix) && TakesPrefix(p, prefix)
    ensures var reach := ReachBefore(p + prefix, []);
            reach.Inside? && |p + prefix| - 1 <= reach.n <= |p + prefix|
  {
    hide KindBefore, KeptBefore, Until, IsPrefix, NotWhitespace, EndsBearer, IsWhitespace;
    var c := p + prefix;
    PrefixBytes(prefix);
    PrefixStops(prefix);
    assert c[|p|..] == prefix;
    UntilIs(prefix, IsWhitespace, |prefix| - 1);
    UntilIs(prefix, EndsBearer, |prefix| - 1);
    assert c[|c| - 1..] == [SPACE];
    InsideBounds(c, []);
  }

  lemma {:induction false} PrefixStops(prefix: seq<Byte>)
    requires IsPrefix(prefix)
    ensures |prefix| >= 7 && EndsBearer(prefix[|prefix| - 1]) && IsWhitespace(prefix[|prefix| - 1])
    ensures forall j :: 0 <= j < |prefix| - 1 ==> !EndsBearer(prefix[j]) && !IsWhitespace(prefix[j])
  {
  }

  /** A prefix that is taken for a value leaves at most a space to introduce the value after it. */
  lemma {:induction false} TakenNotCovered(p: seq<Byte>, prefix: seq<Byte>, minLen: nat)
    requires WellFormed(p + prefix) && p != [] && IsPrefix(prefix) && TakesPrefix(p, prefix) && minLen >= 1
    requires !Open(p + prefix, minLen)
    ensures !Covered(p + prefix, minLen)
  {
    hide WellFormed, Step, TakesPrefix, ReachBefore, IsPrefix, Open, IsValueAfter, NoFlagAfterBlanks;
    var c := p + prefix;
    PrefixBytes(prefix);
    TakenReach(p, prefix);
    ProbeSettled(c, minLen);
    ProbeReach(c, [], minLen);
    ProbeStep(c, minLen);
    BlankNotCovered(c[Step(c + Probe(minLen)).len..], minLen);
  }

  lemma {:induction false} PrefixIntroduces(p: seq<Byte>, prefix: seq<Byte>)
    requires WellFormed(p) && IsPrefix(prefix)
    ensures WellFormed(p + prefix) && EndsInSpace(p + prefix)
  {
    hide WellFormed, IsPrefix;
    PrefixBytes(prefix);
    AsciiWellFormed(prefix);
    Concat(p, prefix);
  }

  lemma {:induction false} ShorterGap(p: seq<Byte>, prefix: seq<Byte>, n: nat)
    requires EndsInGap(p) && IsPrefix(prefix) && n <= |p| && WellFormed((p + prefix)[n..])
    ensures (p + prefix)[n..] == p[n..] + prefix && WellFormed(p[n..]) && EndsInGap(p[n..])
  {
    hide WellFormed, IsPrefix;
    PrefixBytes(prefix);
    var t := p[n..] + prefix;
    assert (p + prefix)[n..] == t;
    assert t[|p| - n] == prefix[0];
    Split(t, |p| - n);
    assert t[..|p| - n] == p[n..];
  }

  lemma {:induction false} NothingOpen(p: seq<Byte>, prefix: seq<Byte>, minLen: nat)
    requires EndsInGap(p) && IsPrefix(prefix) && minLen >= 1
    ensures !Open(p + prefix, minLen)
  {
    hide EndsInGap, TokenOpen, IsPrefix;
    if p == [] {
      assert p + prefix == prefix;
      PrefixAtFront(prefix, minLen);
    } else {
      NothingOpenInGap(p, prefix, minLen);
    }
  }

  /** What the step at the front does, in terms of the scan of `p + prefix` with a probe. */
  lemma {:induction false} ProbeKind(p: seq<Byte>, prefix: seq<Byte>, minLen: nat)
    requires EndsInGap(p) && IsPrefix(prefix) && minLen >= 1
    ensures var s := p + prefix + Probe(minLen);
            (KindOf(s).Bearer? || KindOf(s).Flag?) && KeptLen(s) == |p| <==> TakesPrefix(p, prefix)
  {
    hide KindOf, KeptLen, KindBefore, KeptBefore, EndsInGap, IsPrefix, Open, IsValueAfter, NoFlagAfterBlanks, Fits;
    var c := p + prefix;
    PrefixBytes(prefix);
    NothingOpen(p, prefix, minLen);
    assert !TokenOpen(c, minLen) by { NotOpenToken(c, minLen); }
    PlainIsValue(c, Probe(minLen));
    KindAcross(c, Probe(minLen), [], minLen);
    assert c + Probe(minLen) + [] == c + Probe(minLen);
  }

  lemma {:induction false} NotOpenToken(c: seq<Byte>, minLen: nat)
    requires !Open(c, minLen)
    ensures !TokenOpen(c, minLen)
  {
    hide TokenOpen;
  }

  lemma {:induction false} GapStep(p: seq<Byte>, prefix: seq<Byte>, minLen: nat)
    requires WellFormed(p) && WellFormed(p + prefix) && EndsInGap(p) && IsPrefix(prefix) && minLen >= 1
    requires p != [] ==> !TakesPrefix(p, prefix)
    ensures var n := Step(p + prefix + Probe(minLen)).len; n > |p + prefix| || (n <= |p| && p != [])
  {
    hide Step, WellFormed, EndsInGap, IsPrefix, Open, TokenOpen, TakesPrefix, ReachBefore, IsValueAfter,
         NoFlagAfterBlanks, KindBefore, KeptBefore;
    var c := p + prefix;
    PrefixIntroduces(p, prefix);
    NothingOpen(p, prefix, minLen);
    NotOpenToken(c, minLen);
    ProbeSettled(c, minLen);
    ProbeReach(c, [], minLen);
    if p == [] {
      assert c == prefix;
      PrefixAtFront(prefix, minLen);
    } else {
      StepInGap(p, prefix, minLen);
    }
  }

  lemma {:induction false} PrefixCoveredIff(p: seq<Byte>, prefix: seq<Byte>, minLen: nat)
    requires WellFormed(p) && WellFormed(p + prefix) && EndsInGap(p) && IsPrefix(prefix) && minLen >= 1
    ensures Covered(p + prefix, minLen) <==> !TakenForValue(p + prefix, |prefix|, minLen)
    decreases |p|
  {
    hide Step, WellFormed, EndsInGap, IsPrefix, Open, TakesPrefix, KindOf, KeptLen;
    var c := p + prefix;
    PrefixBytes(prefix);
    NothingOpen(p, prefix, minLen);
    ProbeKind(p, prefix, minLen);
    ProbeStep(c, minLen);
    if p != [] && TakesPrefix(p, prefix) {
      TakenNotCovered(p, prefix, minLen);
    } else {
      GapStep(p, prefix, minLen);
      var n := Step(c + Probe(minLen)).len;
      if n <= |p| {
        ShorterGap(p, prefix, n);
        PrefixCoveredIff(p[n..], prefix, minLen);
      }
    }
  }

  /**
   After a bearer prefix or a secret flag, at the start of a command or after white space, the
   value is hidden if and only if the prefix is not itself taken for the value of an earlier one.
   */
  lemma {:induction false} PrefixedValueIff(p: seq<Byte>, prefix: seq<Byte>, minLen: nat)
    requires WellFormed(p) && WellFormed(p + prefix) && EndsInGap(p) && IsPrefix(prefix) && minLen >= 1
    ensures Hidden(p + prefix, minLen) <==> !TakenForValue(p + prefix, |prefix|, minLen)
  {
    hide WellFormed, EndsInGap, IsPrefix, Hidden, Covered, TakenForValue;
    PrefixIntroduces(p, prefix);
    PrefixCoveredIff(p, prefix, minLen);
    HiddenIff(p + prefix, minLen);
  }

  // ---- Text that does not end in a prefix -----------------------------------------------------------

  predicate EndsInPrefix(p: seq<Byte>) {
    HasSuffix(p, BEARER) || HasSuffix(p, Ascii("--secret ")) || HasSuffix(p, Ascii("--api-key "))
  }

  lemma {:induction false} KeptIsPrefix(s: seq<Byte>)
    requires KindOf(s).Bearer? || KindOf(s).Flag?
    ensures EndsInPrefix(s[..KeptLen(s)])
  {
    hide BearerLen, ExplicitAssignment, DetectToken, JwtLen, SnakeAssignment, LowerAssignment, SecretFlagLen,
         EndsInPrefix;
    if KindOf(s).Bearer? {
      BearerIsPrefix(s);
    } else {
      FlagIsPrefix(s);
    }
  }

  lemma {:induction false} BearerIsPrefix(s: seq<Byte>)
    requires BearerLen(s).Some?
    ensures EndsInPrefix(s[..7])
  {
    hide HasSuffix;
    WholeSuffix(s, 0, BEARER);
  }

  lemma {:induction false} FlagIsPrefix(s: seq<Byte>)
    requires SecretFlagLen(s).Some?
    ensures EndsInPrefix(s[..SecretFlagLen(s).value])
  {
    hide HasSuffix, FlagNameLen, Until;
    var b := Until(s, NotBlank);
    FlagIsName(s[b..]);
    if FlagNameLen(s[b..]) == 9 {
      WholeSuffix(s, b, Ascii("--secret "));
    } else {
      WholeSuffix(s, b, Ascii("--api-key "));
    }
  }

  lemma {:induction false} FlagIsName(s: seq<Byte>)
    requires FlagNameLen(s) > 0
    ensures (FlagNameLen(s) == 9 && Ascii("--secret ") <= s) || (FlagNameLen(s) == 10 && Ascii("--api-key ") <= s)
  {
  }

  lemma {:induction false} WholeSuffix(s: seq<Byte>, b: nat, name: seq<Byte>)
    requires b <= |s| && name <= s[b..]
    ensures HasSuffix(s[..b + |name|], name)
  {
    assert s[..b + |name|][b..] == s[b..][..|name|] == name;
  }

  lemma {:induction false} SuffixOfTail(p: seq<Byte>, n: nat, suffix: seq<Byte>)
    requires n <= |p| && HasSuffix(p[n..], suffix)
    ensures HasSuffix(p, suffix)
  {
    assert p[n..][|p| - n - |suffix|..] == p[|p| - |suffix|..];
  }

  lemma {:induction false} TakenEnds(p: seq<Byte>, prefix: seq<Byte>, minLen: nat)
    requires WellFormed(p + prefix) && TakenForValue(p + prefix, |prefix|, minLen)
    ensures EndsInPrefix(p)
    decreases |p|
  {
    hide Step, WellFormed, KindOf, KeptLen, HasSuffix;
    var c := p + prefix;
    var s := c + Probe(minLen);
    if (KindOf(s).Bearer? || KindOf(s).Flag?) && KeptLen(s) == |p| {
      KeptIsPrefix(s);
      assert s[..|p|] == p;
    } else {
      ProbeStep(c, minLen);
      var n := Step(s).len;
      var q := p[n..];
      assert c[n..] == q + prefix;
      TakenEnds(q, prefix, minLen);
      if HasSuffix(q, BEARER) {
        SuffixOfTail(p, n, BEARER);
      } else if HasSuffix(q, Ascii("--secret ")) {
        SuffixOfTail(p, n, Ascii("--secret "));
      } else {
        SuffixOfTail(p, n, Ascii("--api-key "));
      }
    }
  }

  /** A value after a prefix is hidden after any text in white space that does not itself end in a prefix. */
  lemma {:induction false} PrefixedValueNotObservable(p: seq<Byte>, prefix: seq<Byte>, minLen: nat)
    requires WellFormed(p) && WellFormed(p + prefix) && EndsInGap(p) && IsPrefix(prefix) && minLen >= 1
    requires !EndsInPrefix(p)
    ensures Hidden(p + prefix, minLen)
  {
    hide WellFormed, EndsInGap, IsPrefix, Hidden, TakenForValue, EndsInPrefix;
    if TakenForValue(p + prefix, |prefix|, minLen) {
      TakenEnds(p, prefix, minLen);
    }
    PrefixedValueIff(p, prefix, minLen);
  }

  // ---- At the start of a command ------------------------------------------------------------------

  /** A token or flag value runs up to white space, whatever it is, and on into the rest. */
  lemma {:induction false} PrefixedValueLen(kind: Kind, v: seq<Byte>, r: seq<Byte>)
    requires kind.Bearer? || kind.Flag?
    requires forall j :: 0 <= j < |v| ==> !EndsBearer(v[j])
    ensures ValueLen(kind, v + r) == |v| + ValueLen(kind, r)
  {
    hide Until;
    var stop := if kind.Bearer? then EndsBearer else IsWhitespace;
    UntilAcross([], v, r, 0, stop);
    var u := Until(r, stop);
    assert [] + v + r == v + r && (v + r)[0..] == v + r;
    assert (v + r)[|v| + u..] == r[u..];
  }

  /** Here the value may hold double quotes, or be empty, and the flag may follow blanks. */
  lemma {:induction false} FirstValueNotObservable(prefix: seq<Byte>, v1: seq<Byte>, v2: seq<Byte>, r: seq<Byte>)
    requires KindOf(prefix).Bearer? || KindOf(prefix).Flag?
    requires KeptLen(prefix) == |prefix|
    requires forall j :: 0 <= j < |v1| ==> !EndsBearer(v1[j])
    requires forall j :: 0 <= j < |v2| ==> !EndsBearer(v2[j])
    requires WellFormed(prefix + (v1 + r)) && WellFormed(prefix + (v2 + r))
    ensures Scan(prefix + (v1 + r)) == Scan(prefix + (v2 + r))
  {
    hide KindOf, KeptLen, Step, Scan, WellFormed, ValueLen;
    assert prefix[..|prefix|] == prefix;
    FirstValueStep(prefix, v1, r);
    FirstValueStep(prefix, v2, r);
  }

  lemma {:induction false} FirstValueStep(prefix: seq<Byte>, v: seq<Byte>, r: seq<Byte>)
    requires KindOf(prefix).Bearer? || KindOf(prefix).Flag?
    requires KeptLen(prefix) == |prefix| && prefix[..|prefix|] == prefix
    requires forall j :: 0 <= j < |v| ==> !EndsBearer(v[j])
    requires WellFormed(prefix + (v + r))
    ensures var n := ValueLen(KindOf(prefix), r);
            n <= |r| && WellFormed(r[n..]) && Scan(prefix + (v + r)) == prefix + REDACTED + Scan(r[n..])
  {
    hide KindOf, KeptLen, Step, Scan, WellFormed, ValueLen;
    var s := prefix + (v + r);
    KindStands(prefix, v + r);
    PrefixStep(s);
    assert s[..|prefix|] == prefix && s[|prefix|..] == v + r;
    PrefixedValueLen(KindOf(prefix), v, r);
    ScanUnfold(s);
    var n := ValueLen(KindOf(prefix), r);
    assert s[|prefix| + |v| + n..] == r[n..];
  }
}
