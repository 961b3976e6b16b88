/**
 Secrecy of the sanitizer: exactly when the output does not depend on a secret value. The
 command is `c + v + r`: a text `c` that introduces the value, the value `v` of at least
 `minLen` bytes, and any text `r`. Scanning `c` with any other value in place shows whether the
 value is covered: the scan must come to a step that jumps over the value, and must not come to
 an open place, where the length of the value decides what is recognised.
 */
module SanitizerSecrecy {
  import opened Wrappers
  import opened Utf8
  import opened Spans
  import opened Sanitizer
  import opened SanitizerKinds
  import opened SanitizerScan
  import opened SanitizerReach

  const LETTER: Byte := 'x' as int
  const OTHER: Byte := 'y' as int
  const DOT: Byte := '.' as int

  function Repeat(b: Byte, n: nat): (s: seq<Byte>)
    ensures |s| == n && forall j :: 0 <= j < n ==> s[j] == b
  {
    seq(n, i => b)
  }

  /** The shortest value that may occur and is not empty. */
  function Probe(minLen: nat): seq<Byte> {
    Repeat(LETTER, if minLen == 0 then 1 else minLen)
  }

  /** A lower-case key ends where the value begins: an empty value leaves a quote after it to be taken. */
  predicate EmptyOpen(c: seq<Byte>, minLen: nat) {
    minLen == 0 && KindBefore(c).Lower? && KeptBefore(c) == |c|
  }

  /** The value's length decides what is recognised at the front of `c`. */
  predicate Open(c: seq<Byte>, minLen: nat) {
    TokenOpen(c, minLen) || EmptyOpen(c, minLen)
  }

  lemma {:induction false} ProbeStep(c: seq<Byte>, minLen: nat)
    requires WellFormed(c) && c != []
    ensures var n := Step(c + Probe(minLen)).len; 1 <= n && (n <= |c| ==> WellFormed(c[n..]))
  {
    hide Step;
    var s := c + Probe(minLen);
    AsciiWellFormed(Probe(minLen));
    Concat(c, Probe(minLen));
    StepSound(s);
    if Step(s).len < |c| {
      assert s[Step(s).len] == c[Step(s).len];
      Split(c, Step(s).len);
    }
  }

  /** Scanning `c` comes to a step that jumps over the value, and on the way to no open place. */
  predicate Covered(c: seq<Byte>, minLen: nat)
    requires WellFormed(c)
    decreases |c|
  {
    && c != [] && !Open(c, minLen)
    && (ProbeStep(c, minLen);
        var n := Step(c + Probe(minLen)).len;
        n > |c| || Covered(c[n..], minLen))
  }

  ghost predicate IsCommand(c: seq<Byte>, v: seq<Byte>, r: seq<Byte>, minLen: nat) {
    IsValueAfter(c, v) && |v| >= minLen && WellFormed(c + v + r)
  }

  /** The output is the same for all values, whatever follows. */
  ghost predicate Hidden(c: seq<Byte>, minLen: nat) {
    forall v1, v2, r :: IsCommand(c, v1, r, minLen) && IsCommand(c, v2, r, minLen) ==>
      Scan(c + v1 + r) == Scan(c + v2 + r)
  }

  // ---- One step of the scan -----------------------------------------------------------------

  lemma {:induction false} InsideBounds(c: seq<Byte>, r: seq<Byte>)
    requires c != []
    ensures ReachBefore(c, r).Inside? ==> ReachBefore(c, r).n <= |c|
  {
    hide KindBefore, KeptBefore, Until;
  }

  /** An introduction and a value after which the step at the front of `c` is the same for all values. */
  ghost predicate IsSettled(c: seq<Byte>, v: seq<Byte>, minLen: nat) {
    && Introduces(c) && (EndsInSpace(c) ==> minLen >= 1) && !Open(c, minLen)
    && IsValueAfter(c, v) && NoFlagAfterBlanks(c, v) && |v| >= minLen
  }

  lemma {:induction false} ScanAcross(c: seq<Byte>, v: seq<Byte>, r: seq<Byte>, minLen: nat)
    requires WellFormed(c) && IsSettled(c, v, minLen) && WellFormed(c + v + r)
    ensures match ReachBefore(c, r)
            case Inside(n) =>
              && 1 <= n <= |c| && WellFormed(c[n..]) && WellFormed(c[n..] + v + r)
              && Scan(c + v + r) == TextBefore(c) + Scan(c[n..] + v + r)
            case Beyond(j) =>
              j <= |r| && WellFormed(r[j..]) && Scan(c + v + r) == TextBefore(c) + Scan(r[j..])
  {
    hide Step, Scan, WellFormed, KindBefore, KeptBefore, TokenOpen, ReachBefore, TextBefore, IsValueAfter,
         NoFlagAfterBlanks;
    var s := c + v + r;
    StepAcross(c, v, r, minLen);
    ScanUnfold(s);
    InsideBounds(c, r);
    match ReachBefore(c, r)
    case Inside(n) =>
      assert s[n..] == c[n..] + v + r;
      StepSound(s);
      if n < |c| {
        assert s[n] == c[n];
      }
      Split(c, n);
    case Beyond(j) =>
      assert s[|c| + |v| + j..] == r[j..];
  }

  /** The probe ends where any other value lets the step end. */
  lemma {:induction false} ProbeReach(c: seq<Byte>, r: seq<Byte>, minLen: nat)
    requires WellFormed(c) && IsSettled(c, Probe(minLen), minLen)
    ensures var n := Step(c + Probe(minLen)).len;
            if n <= |c| then ReachBefore(c, r) == Inside(n) else ReachBefore(c, r).Beyond?
  {
    hide Step, WellFormed, KindBefore, KeptBefore, TokenOpen, ReachBefore, TextBefore, IsValueAfter,
         NoFlagAfterBlanks;
    var v := Probe(minLen);
    assert c + v + [] == c + v;
    StepAcross(c, v, [], minLen);
    InsideStands(c, r);
    InsideBounds(c, []);
  }

  lemma {:induction false} ProbeSettled(c: seq<Byte>, minLen: nat)
    requires Introduces(c) && (EndsInSpace(c) ==> minLen >= 1) && !Open(c, minLen)
    ensures IsSettled(c, Probe(minLen), minLen)
  {
    hide Open, Until;
  }

  // ---- A covered value is hidden ----------------------------------------------------------------

  /** After nothing but blanks every byte is copied. */
  lemma {:induction false} BlankStep(c: seq<Byte>, minLen: nat)
    requires c != [] && forall j :: 0 <= j < |c| ==> IsBlank(c[j])
    ensures Step(c + Probe(minLen)).len == 1
  {
    hide Step, KindOf, DetectToken, JwtLen, ExplicitKeyLen, FlagNameLen, IsSnakeKey, IsLowerSecretKey,
         PlainThenQuotedLen, QuotedOrPlainLen;
    var s := c + Probe(minLen);
    UntilIs(s, NotBlank, |c|);
    UntilIs(s, Is(EQUALS), |s|);
    BlankKind(s, |c|);
    CopyStep(s);
  }

  lemma {:induction false} BlankKind(s: seq<Byte>, n: nat)
    requires 0 < n < |s| && IsBlank(s[0]) && s[n] == LETTER
    requires Until(s, NotBlank) == n && Until(s, Is(EQUALS)) == |s|
    ensures KindOf(s).Copy? && HeadLen(s) == 1
  {
    hide DetectToken, JwtLen, ExplicitKeyLen, FlagNameLen, IsSnakeKey, IsLowerSecretKey, Until;
    HeadBytes(s);
    HeadBytes(s[n..]);
    NoTokenHead(s);
    assert IsChar(s[..1]);
  }

  lemma {:induction false} BlankNotCovered(c: seq<Byte>, minLen: nat)
    requires WellFormed(c) && forall j :: 0 <= j < |c| ==> IsBlank(c[j])
    ensures !Covered(c, minLen)
  {
    hide WellFormed, Open, Step;
    if c != [] {
      ProbeStep(c, minLen);
      BlankStep(c, minLen);
      BlankNotCovered(c[1..], minLen);
    }
  }

  lemma {:induction false} CoveredSettled(c: seq<Byte>, v: seq<Byte>, minLen: nat)
    requires WellFormed(c) && Covered(c, minLen) && Introduces(c) && (EndsInSpace(c) ==> minLen >= 1)
    requires IsValueAfter(c, v) && |v| >= minLen
    ensures IsSettled(c, v, minLen)
  {
    hide WellFormed, Open, Step, IsValueAfter;
    if Until(c, NotBlank) == |c| {
      BlankNotCovered(c, minLen);
    }
  }

  /** What remains after a step inside `c` introduces the same values. */
  lemma {:induction false} ShorterIntroduction(c: seq<Byte>, v: seq<Byte>, n: nat)
    requires Introduces(c) && IsValueAfter(c, v) && n < |c|
    ensures Introduces(c[n..]) && IsValueAfter(c[n..], v) && (EndsInSpace(c[n..]) <==> EndsInSpace(c))
  {
  }

  lemma {:induction false} CoveredIsHidden(c: seq<Byte>, v1: seq<Byte>, v2: seq<Byte>, r: seq<Byte>, minLen: nat)
    requires WellFormed(c) && Covered(c, minLen) && Introduces(c) && (EndsInSpace(c) ==> minLen >= 1)
    requires IsCommand(c, v1, r, minLen) && IsCommand(c, v2, r, minLen)
    ensures Scan(c + v1 + r) == Scan(c + v2 + r)
    decreases |c|
  {
    hide Step, Scan, WellFormed, ReachBefore, TextBefore, IsValueAfter, IsSettled, Open, Introduces, EndsInSpace;
    CoveredSettled(c, v1, minLen);
    CoveredSettled(c, v2, minLen);
    ScanAcross(c, v1, r, minLen);
    ScanAcross(c, v2, r, minLen);
    ProbeSettled(c, minLen);
    ProbeReach(c, r, minLen);
    ProbeStep(c, minLen);
    if ReachBefore(c, r).Inside? {
      var n := ReachBefore(c, r).n;
      ShorterIntroduction(c, v1, n);
      ShorterIntroduction(c, v2, n);
      CoveredIsHidden(c[n..], v1, v2, r, minLen);
    }
  }

  // ---- A value that is not covered is told from another -----------------------------------------

  /** Bytes that make a value wherever one may stand. */
  ghost predicate IsPlain(v: seq<Byte>) {
    forall j :: 0 <= j < |v| ==> v[j] == LETTER || v[j] == OTHER || v[j] == DOT
  }

  /** Two values and a rest that the output tells apart. */
  ghost predicate Shows(c: seq<Byte>, v1: seq<Byte>, v2: seq<Byte>, r: seq<Byte>, minLen: nat) {
    && IsPlain(v1) && IsPlain(v2) && |v1| >= minLen && |v2| >= minLen
    && WellFormed(c + v1 + r) && WellFormed(c + v2 + r) && Scan(c + v1 + r) != Scan(c + v2 + r)
  }

  lemma {:induction false} PlainIsValue(c: seq<Byte>, v: seq<Byte>)
    requires IsPlain(v)
    ensures IsValueAfter(c, v) && (v != [] ==> NoFlagAfterBlanks(c, v))
    ensures EndsInEquals(c) ==> NoFlagAfterBlanks(c, v)
  {
    hide Until;
  }

  lemma {:induction false} PlainAfter(c: seq<Byte>, v: seq<Byte>)
    requires WellFormed(c) && IsPlain(v)
    ensures WellFormed(v) && WellFormed(c + v) && c + v + [] == c + v
  {
    AsciiWellFormed(v);
    Concat(c, v);
  }

  /** The first byte of the output shows whether the command begins with a whole token. */
  lemma {:induction false} FirstByteTells(s: seq<Byte>)
    requires WellFormed(s) && s != [] && s[0] != REDACTED[0]
    ensures Scan(s) != [] && (Scan(s)[0] == REDACTED[0] <==> KindOf(s).Token?)
    ensures !KindOf(s).Token? ==> Scan(s)[0] == s[0]
  {
    hide Step, Scan, WellFormed, KindOf;
    ScanUnfold(s);
    if KindOf(s).Token? {
      TokenStep(s);
    } else {
      FirstByteKept(s);
    }
  }

  /** Which detector of whole tokens can fire, by the first byte. */
  lemma {:induction false} TokenKinds(s: seq<Byte>)
    requires s != []
    ensures s[0] == 'A' as int ==> (KindOf(s).Token? <==> AwsKeyLen(s).Some?)
    ensures s[0] == 's' as int ==> (KindOf(s).Token? <==> OpenAiKeyLen(s).Some?)
    ensures s[0] == 'e' as int ==> (KindOf(s).Token? <==> JwtLen(s).Some?)
    ensures s[0] == LETTER || s[0] == OTHER ==> !KindOf(s).Token?
  {
    hide AwsKeyLen, OpenAiKeyLen, JwtLen, SnakeAssignment, LowerAssignment, ExplicitKeyLen, FlagNameLen,
      HasGithubPrefix,
         PlainThenQuotedLen, RedactBearer;
    HeadBytes(s);
    OpenAiHead(s);
    if NotBlank(s[0]) {
      UntilIs(s, NotBlank, 0);
      assert s[0..] == s;
    }
  }

  lemma {:induction false} AwsShows(c: seq<Byte>, n: nat)
    requires Introduces(c) && AKIA <= c && RunReach(c, 4, EndsAwsKey, []).Beyond?
    ensures KindOf(c + Repeat(LETTER, n)).Token? <==> |c| + n >= 8
  {
    hide KindOf, Until;
    var s := c + Repeat(LETTER, n);
    assert s == s + [];
    assert s[0] == 'A' as int;
    TokenKinds(s);
    UntilAcross(c, Repeat(LETTER, n), [], 4, EndsAwsKey);
  }

  lemma {:induction false} KeyShows(c: seq<Byte>, prefix: seq<Byte>, minChars: nat, n: nat)
    requires Introduces(c) && prefix <= c && RunReach(c, |prefix|, EndsValue, []).Beyond?
    ensures PrefixedKeyLen(c + Repeat(LETTER, n), prefix, minChars).Some? <==> |c| + n >= |prefix| + minChars
  {
    hide Until;
    var s := c + Repeat(LETTER, n);
    assert s == s + [];
    UntilAcross(c, Repeat(LETTER, n), [], |prefix|, EndsValue);
  }

  /** Repeating a letter does not bring about a prefix. */
  lemma {:induction false} NoPrefixBefore(c: seq<Byte>, n: nat)
    requires Introduces(c)
    ensures var s := c + Repeat(LETTER, n);
            && (SK_PROJ <= s <==> SK_PROJ <= c) && (SK_SVCACCT <= s <==> SK_SVCACCT <= c)
            && (SK_ADMIN <= s <==> SK_ADMIN <= c)
  {
    PatternBefore(c, Repeat(LETTER, n), SK_PROJ);
    PatternBefore(c, Repeat(LETTER, n), SK_SVCACCT);
    PatternBefore(c, Repeat(LETTER, n), SK_ADMIN);
  }

  lemma {:induction false} JwtShows(c: seq<Byte>, n: nat)
    requires Introduces(c) && Ascii("eyJ") <= c && RunReach(c, 3, IsLineSpace, []).Beyond?
    requires CountDots(c[3..]) + n >= 2 && |c| + n >= 50
    ensures KindOf(c + Repeat(DOT, n)).Token? <==> |c| + n <= 1200
  {
    hide KindOf, Until, CountDots;
    var v := Repeat(DOT, n);
    var s := c + v;
    assert s == s + [];
    assert s[0] == 'e' as int;
    TokenKinds(s);
    UntilAcross(c, v, [], 3, IsLineSpace);
    assert s[3..|s|] == c[3..] + v;
    DotsAddUp(c[3..], n);
  }

  lemma {:induction false} DotsAddUp(a: seq<Byte>, n: nat)
    ensures CountDots(a + Repeat(DOT, n)) == CountDots(a) + n
  {
    var s := a + Repeat(DOT, n);
    if n == 0 {
      assert s == a;
    } else {
      DotsAddUp(a, n - 1);
      assert s[..|s| - 1] == a + Repeat(DOT, n - 1);
    }
  }

  /** An open token is there or not by the first byte of the output. */
  lemma {:induction false} OneIsToken(c: seq<Byte>, v1: seq<Byte>, v2: seq<Byte>, minLen: nat)
    requires WellFormed(c) && c != [] && c[0] != REDACTED[0]
    requires IsPlain(v1) && IsPlain(v2) && |v1| >= minLen && |v2| >= minLen
    requires KindOf(c + v1).Token? <==> !KindOf(c + v2).Token?
    ensures Shows(c, v1, v2, [], minLen)
  {
    hide KindOf, Scan, WellFormed;
    PlainAfter(c, v1);
    PlainAfter(c, v2);
    FirstByteTells(c + v1);
    FirstByteTells(c + v2);
  }

  lemma {:induction false} LongKeyShows(c: seq<Byte>, prefix: seq<Byte>, minLen: nat)
    requires Introduces(c) && KeyOpen(c, prefix, 16, minLen)
    requires SK <= prefix && |prefix| <= 11 && forall j :: 0 <= j < |prefix| ==> !EndsValue(prefix[j])
    ensures SK <= c && RunReach(c, 3, EndsValue, []).Beyond? && |c| + minLen < 27
    ensures PrefixedKeyLen(c + Repeat(LETTER, minLen), prefix, 16).None?
  {
    hide RunReach, PrefixedKeyLen;
    ShorterPrefix(c, prefix);
    KeyShows(c, prefix, 16, minLen);
  }

  lemma {:induction false} SkBegins(c: seq<Byte>, minLen: nat)
    requires Introduces(c) && SkOpen(c, minLen)
    ensures SK <= c && RunReach(c, 3, EndsValue, []).Beyond? && |c| + minLen < 51
    ensures var s := c + Repeat(LETTER, minLen);
            && (SK_PROJ <= c ==> PrefixedKeyLen(s, SK_PROJ, 16).None?)
            && (SK_SVCACCT <= c ==> PrefixedKeyLen(s, SK_SVCACCT, 16).None?)
            && (SK_ADMIN <= c ==> PrefixedKeyLen(s, SK_ADMIN, 16).None?)
  {
    hide RunReach, PrefixedKeyLen;
    PrefixClean();
    LongPrefixes(c);
    if SK_PROJ <= c {
      LongKeyShows(c, SK_PROJ, minLen);
    } else if SK_SVCACCT <= c {
      LongKeyShows(c, SK_SVCACCT, minLen);
    } else if SK_ADMIN <= c {
      LongKeyShows(c, SK_ADMIN, minLen);
    }
  }

  lemma {:induction false} SkShows(c: seq<Byte>, minLen: nat)
    requires Introduces(c) && SkOpen(c, minLen)
    ensures minLen < 48 && c[0] == 's' as int
    ensures !KindOf(c + Repeat(LETTER, minLen)).Token? && KindOf(c + Repeat(LETTER, 48)).Token?
  {
    hide KindOf, RunReach, PrefixedKeyLen, SkOpen;
    SkBegins(c, minLen);
    assert SK[0] == 's' as int;
    NoPrefixBefore(c, minLen);
    NotTaken(c + Repeat(LETTER, minLen), SK_PROJ, 16);
    NotTaken(c + Repeat(LETTER, minLen), SK_SVCACCT, 16);
    NotTaken(c + Repeat(LETTER, minLen), SK_ADMIN, 16);
    KeyShows(c, SK, 48, minLen);
    KeyShows(c, SK, 48, 48);
    TokenKinds(c + Repeat(LETTER, minLen));
    TokenKinds(c + Repeat(LETTER, 48));
  }

  lemma {:induction false} NotTaken(s: seq<Byte>, prefix: seq<Byte>, minChars: nat)
    ensures !(prefix <= s) ==> PrefixedKeyLen(s, prefix, minChars).None?
  {
  }

  lemma {:induction false} TokenOpenShows(c: seq<Byte>, minLen: nat) returns (v1: seq<Byte>, v2: seq<Byte>)
    requires WellFormed(c) && Introduces(c) && TokenOpen(c, minLen)
    ensures Shows(c, v1, v2, [], minLen)
  {
    hide KindOf, RunReach, SkOpen, Shows, CountDots, WellFormed;
    if AwsOpen(c, minLen) {
      v1, v2 := Repeat(LETTER, minLen), Repeat(LETTER, 8);
      AwsShows(c, minLen);
      AwsShows(c, 8);
    } else if SkOpen(c, minLen) {
      v1, v2 := Repeat(LETTER, minLen), Repeat(LETTER, 48);
      SkShows(c, minLen);
    } else {
      v1, v2 := Repeat(DOT, 1201 - |c|), Repeat(DOT, 1200 - |c|);
      assert c[0] == 'e' as int;
      JwtShows(c, 1201 - |c|);
      JwtShows(c, 1200 - |c|);
    }
    OneIsToken(c, v1, v2, minLen);
  }

  const QUOTES: seq<Byte> := ['\'' as int, '\'' as int]

  lemma {:induction false} QuotesAfter(v: seq<Byte>)
    requires v == [] || v == [LETTER]
    ensures ValueLen(Lower, v + QUOTES) == if v == [] then 2 else 1
  {
    var t := v + QUOTES;
    if v == [] {
      assert t == QUOTES;
      UntilIs(t[1..], Is(t[0]), 0);
    } else {
      UntilIs(t, EndsValue, 1);
    }
  }

  lemma {:induction false} EmptyOpenStep(c: seq<Byte>, v: seq<Byte>)
    requires WellFormed(c) && Introduces(c) && EmptyOpen(c, 0) && !TokenOpen(c, 0)
    requires v == [] || v == [LETTER]
    ensures EndsInEquals(c) && Step(c + v + QUOTES) == Edit(c + REDACTED, |c| + if v == [] then 2 else 1)
  {
    hide Step, KindOf, KeptLen, KindBefore, KeptBefore, TokenOpen, ValueLen, WellFormed;
    var s := c + v + QUOTES;
    LowerEnd(c);
    PlainIsValue(c, v);
    KindAcross(c, v, QUOTES, 0);
    PrefixStep(s);
    assert s[..|c|] == c && s[|c|..] == v + QUOTES;
    QuotesAfter(v);
  }

  lemma {:induction false} LowerEnd(c: seq<Byte>)
    requires KindBefore(c).Lower? && KeptBefore(c) == |c|
    ensures EndsInEquals(c)
  {
    hide KindBefore, Until, IsLowerSecretKey;
  }

  lemma {:induction false} EmptyOpenShows(c: seq<Byte>)
    requires WellFormed(c) && Introduces(c) && EmptyOpen(c, 0) && !TokenOpen(c, 0)
    ensures Shows(c, [], [LETTER], QUOTES, 0)
  {
    hide Step, Scan, WellFormed, EmptyOpen, TokenOpen;
    PlainAfter(c, []);
    PlainAfter(c, [LETTER]);
    AsciiWellFormed(QUOTES);
    var s, t := c + [] + QUOTES, c + [LETTER] + QUOTES;
    Concat(c + [], QUOTES);
    Concat(c + [LETTER], QUOTES);
    EmptyOpenStep(c, []);
    EmptyOpenStep(c, [LETTER]);
    ScanUnfold(s);
    ScanUnfold(t);
    assert s[|c| + 2..] == [] && t[|c| + 1..] == QUOTES;
    ScanUnfold(QUOTES);
    StepWrites(QUOTES);
    NothingToScan();
    SameStart(c + REDACTED, Scan([]), Scan(QUOTES));
  }

  lemma {:induction false} NothingToScan()
    ensures WellFormed([]) && Scan([]) == []
  {
  }

  lemma {:induction false} NothingShows(minLen: nat)
    ensures var n := if minLen == 0 then 1 else minLen;
            Shows([], Repeat(LETTER, n), Repeat(OTHER, n), [], minLen)
  {
    hide Scan, WellFormed, KindOf;
    var n := if minLen == 0 then 1 else minLen;
    var v1, v2 := Repeat(LETTER, n), Repeat(OTHER, n);
    PlainAfter([], v1);
    PlainAfter([], v2);
    assert [] + v1 + [] == v1 && [] + v2 + [] == v2;
    FirstByteTells(v1);
    FirstByteTells(v2);
    TokenKinds(v1);
    TokenKinds(v2);
  }

  /** A step inside `c` hides nothing of what the rest of the scan shows. */
  lemma {:induction false} ShowsEarlier(
      c: seq<Byte>, n: nat, v1: seq<Byte>, v2: seq<Byte>, r: seq<Byte>, minLen: nat)
    requires WellFormed(c) && Introduces(c) && (EndsInSpace(c) ==> minLen >= 1) && !Open(c, minLen)
    requires n == Step(c + Probe(minLen)).len <= |c| && Shows(c[n..], v1, v2, r, minLen) && WellFormed(c[n..])
    requires WellFormed(r)
    ensures Shows(c, v1, v2, r, minLen)
  {
    hide Step, Scan, WellFormed, ReachBefore, TextBefore, IsValueAfter, Open, Introduces, EndsInSpace,
      NoFlagAfterBlanks;
    ProbeSettled(c, minLen);
    ProbeReach(c, r, minLen);
    PlainSettled(c, v1, minLen);
    PlainSettled(c, v2, minLen);
    PlainAfter(c, v1);
    PlainAfter(c, v2);
    Concat(c + v1, r);
    Concat(c + v2, r);
    ScanAcross(c, v1, r, minLen);
    ScanAcross(c, v2, r, minLen);
    SameStart(TextBefore(c), Scan(c[n..] + v1 + r), Scan(c[n..] + v2 + r));
  }

  lemma {:induction false} SameStart(t: seq<Byte>, a: seq<Byte>, b: seq<Byte>)
    requires a != b
    ensures t + a != t + b
  {
    assert (t + a)[|t|..] == a && (t + b)[|t|..] == b;
  }

  lemma {:induction false} PlainSettled(c: seq<Byte>, v: seq<Byte>, minLen: nat)
    requires Introduces(c) && (EndsInSpace(c) ==> minLen >= 1) && !Open(c, minLen) && IsPlain(v) && |v| >= minLen
    ensures IsSettled(c, v, minLen)
  {
    hide Open, IsValueAfter, NoFlagAfterBlanks;
    PlainIsValue(c, v);
  }

  lemma {:induction false} UncoveredShows(c: seq<Byte>, minLen: nat)
      returns (v1: seq<Byte>, v2: seq<Byte>, r: seq<Byte>)
    requires WellFormed(c) && (c == [] || Introduces(c)) && (EndsInSpace(c) ==> minLen >= 1)
    requires !Covered(c, minLen)
    ensures WellFormed(r) && Shows(c, v1, v2, r, minLen)
    decreases |c|
  {
    hide Step, WellFormed, Shows, TokenOpen, KindBefore, KeptBefore;
    r := [];
    AsciiWellFormed(r);
    if c == [] {
      var n := if minLen == 0 then 1 else minLen;
      v1, v2 := Repeat(LETTER, n), Repeat(OTHER, n);
      NothingShows(minLen);
    } else if TokenOpen(c, minLen) {
      v1, v2 := TokenOpenShows(c, minLen);
    } else if EmptyOpen(c, minLen) {
      v1, v2, r := [], [LETTER], QUOTES;
      AsciiWellFormed(r);
      EmptyOpenShows(c);
    } else {
      ProbeStep(c, minLen);
      var n := Step(c + Probe(minLen)).len;
      v1, v2, r := UncoveredShows(c[n..], minLen);
      ShowsEarlier(c, n, v1, v2, r, minLen);
    }
  }

  /**
   The output is the same for all values after `c`, whatever follows, if and only if the scan
   of `c` jumps over the value and comes to no open place before it does.
   */
  lemma {:induction false} HiddenIff(c: seq<Byte>, minLen: nat)
    requires WellFormed(c) && Introduces(c) && (EndsInSpace(c) ==> minLen >= 1)
    ensures Hidden(c, minLen) <==> Covered(c, minLen)
  {
    hide Scan, WellFormed, Covered, IsValueAfter;
    if Covered(c, minLen) {
      forall v1, v2, r | IsCommand(c, v1, r, minLen) && IsCommand(c, v2, r, minLen)
        ensures Scan(c + v1 + r) == Scan(c + v2 + r)
      {
        CoveredIsHidden(c, v1, v2, r, minLen);
      }
    } else {
      var v1, v2, r := UncoveredShows(c, minLen);
      PlainIsValue(c, v1);
      PlainIsValue(c, v2);
      assert IsCommand(c, v1, r, minLen) && IsCommand(c, v2, r, minLen);
    }
  }
}
