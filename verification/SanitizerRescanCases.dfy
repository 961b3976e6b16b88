/**
 Cases of a second pass of the sanitizer: commands that it leaves alone, what it drops after a
 bearer token, and one input for each way in which it can change something.
 */
module SanitizerRescanCases {
  import opened Wrappers
  import opened Utf8
  import opened Spans
  import opened Sanitizer
  import opened SanitizerKinds
  import opened SanitizerScan
  import opened SanitizerFixpoint
  import opened SanitizerRescan

  // ---- Plain commands ---------------------------------------------------------------------

  ghost predicate Mentions(s: seq<Byte>, pattern: seq<Byte>) {
    exists i :: 0 <= i <= |s| && pattern <= s[i..]
  }

  /** No quotes, no bearer token, and none of the three prefixes of tokens that are recognised by length. */
  ghost predicate IsPlain(s: seq<Byte>) {
    && (forall j :: 0 <= j < |s| ==> !IsQuote(s[j]))
    && !Mentions(s, BEARER) && !Mentions(s, AKIA) && !Mentions(s, Ascii("sk-")) && !Mentions(s, Ascii("eyJ"))
  }

  lemma {:induction false} RestMentions(s: seq<Byte>, n: nat, pattern: seq<Byte>)
    requires n <= |s| && Mentions(s[n..], pattern)
    ensures Mentions(s, pattern)
  {
    var i :| 0 <= i <= |s[n..]| && pattern <= s[n..][i..];
    assert s[n..][i..] == s[n + i..];
  }

  lemma {:induction false} RestIsPlain(s: seq<Byte>, n: nat)
    requires IsPlain(s) && n <= |s|
    ensures IsPlain(s[n..])
  {
    hide Mentions;
    forall pattern | Mentions(s[n..], pattern) ensures Mentions(s, pattern) {
      RestMentions(s, n, pattern);
    }
  }

  lemma {:induction false} NotAtFront(s: seq<Byte>, pattern: seq<Byte>)
    requires !Mentions(s, pattern)
    ensures !(pattern <= s)
  {
    assert s[0..] == s;
  }

  lemma {:induction false} PlainValueCloses(kind: Kind, v: seq<Byte>)
    requires kind.KeepsPrefix() && !kind.Bearer? && forall j :: 0 <= j < |v| ==> !IsQuote(v[j])
    ensures ValueLen(kind, v) < |v| ==> Closes(kind, v[ValueLen(kind, v)])
  {
  }

  lemma {:induction false} PlainStepSettles(s: seq<Byte>)
    requires WellFormed(s) && s != [] && IsPlain(s)
    ensures Settles(s)
  {
    hide Step, Scan, WellFormed, KindOf, KeptLen, ValueLen, Closes, Mentions;
    ScanUnfold(s);
    NotAtFront(s, BEARER);
    NotAtFront(s, AKIA);
    if KindOf(s).Copy? {
      PlainOutput(s);
    } else if KindOf(s).KeepsPrefix() {
      PrefixStep(s);
      NotBearerKind(s);
      var k := KeptLen(s);
      PlainValueCloses(KindOf(s), s[k..]);
      var n := ValueLen(KindOf(s), s[k..]);
      assert k + n < |s| ==> s[k..][n] == s[k + n..][0];
    }
  }

  lemma {:induction false} NotBearerKind(s: seq<Byte>)
    requires !(BEARER <= s)
    ensures !KindOf(s).Bearer?
  {
  }

  lemma {:induction false} PlainOutput(s: seq<Byte>)
    requires WellFormed(s) && IsPlain(s)
    ensures AwsKeyLen(Scan(s)).None? && OpenAiKeyLen(Scan(s)).None? && JwtLen(Scan(s)).None?
  {
    hide Scan, WellFormed, Mentions, Until, CountDots;
    NotAtFront(s, AKIA);
    NotAtFront(s, Ascii("sk-"));
    NotAtFront(s, Ascii("eyJ"));
    PatternKept(s, AKIA);
    PatternKept(s, Ascii("sk-"));
    PatternKept(s, Ascii("eyJ"));
    OpenAiHead(Scan(s));
  }

  lemma {:induction false} PlainIsSettled(s: seq<Byte>)
    requires WellFormed(s) && IsPlain(s)
    ensures Settled(s)
    decreases |s|
  {
    hide Step, Scan, WellFormed, Settles, IsPlain;
    if s != [] {
      SettledUnfold(s);
      PlainStepSettles(s);
      RestIsPlain(s, Step(s).len);
      PlainIsSettled(s[Step(s).len..]);
    }
  }

  /** A second pass leaves the output of every plain command alone. */
  lemma {:induction false} PlainCommandsRescan(s: seq<Byte>)
    requires WellFormed(s) && IsPlain(s)
    ensures WellFormed(Scan(s)) && Scan(Scan(s)) == Scan(s)
  {
    hide Scan, WellFormed, Settled, IsPlain;
    PlainIsSettled(s);
    RescanIff(s);
  }

  // ---- What the second pass drops after a bearer token ------------------------------------

  /** A place in a text right before an apostrophe, at its end, or between white space and something else. */
  predicate IsBreak(t: seq<Byte>, d: nat) {
    d <= |t| && (d == 0 || d == |t| || t[d] == '\'' as int || (IsWhitespace(t[d - 1]) && !IsWhitespace(t[d])))
  }

  lemma {:induction false} BearerRestBreaks(y: seq<Byte>)
    ensures IsBreak(y, RestLen(Bearer, y))
  {
    var u := Until(y, EndsBearer);
    var n := Until(y[u..], NotWhitespace);
    assert u + n < |y| ==> y[u..][n] == y[u + n];
    assert n > 0 ==> y[u..][n - 1] == y[u + n - 1];
  }

  lemma {:induction false} KeyOf(t: seq<Byte>)
    requires KindOf(t).Snake? || KindOf(t).Lower?
    ensures var n := KeptLen(t) - 1;
            0 <= n < |t| && t[n] == EQUALS && (IsSnakeKey(t[..n]) || IsLowerSecretKey(t[..n]))
  {
    hide ExplicitAssignment, DetectToken, JwtLen, SecretFlagLen, BearerLen, IsSnakeKey, IsLowerSecretKey,
         QuotedOrPlainLen;
  }

  lemma {:induction false} KeyHasKeyBytes(key: seq<Byte>)
    requires IsSnakeKey(key) || IsLowerSecretKey(key)
    ensures forall j :: 0 <= j < |key| ==> IsKeyByte(key[j])
  {
    hide HasSuffix;
  }

  lemma {:induction false} ExplicitBytes(t: seq<Byte>)
    requires ExplicitKeyLen(t) > 0
    ensures ExplicitKeyLen(t) < |t|
    ensures forall j :: 0 <= j <= ExplicitKeyLen(t) ==> IsKeyByte(t[j]) || t[j] == EQUALS
  {
    var n := ExplicitKeyLen(t);
    var key := if n == 5 then Ascii("token=") else if n == 8 then Ascii("password=") else Ascii("api_key=");
    assert forall j :: 0 <= j <= n ==> t[j] == key[j];
  }

  /** The bytes of a key are neither white space nor apostrophes. */
  lemma {:induction false} KeyBytesPlain(t: seq<Byte>)
    requires KindOf(t).Explicit? || KindOf(t).Snake? || KindOf(t).Lower?
    ensures forall j :: 0 <= j < KeptLen(t) ==> !IsWhitespace(t[j]) && t[j] != '\'' as int
  {
    hide KindOf, KeptLen;
    if KindOf(t).Explicit? {
      ExplicitKept(t);
      ExplicitBytes(t);
    } else {
      KeyOf(t);
      KeyKept(t, KeptLen(t) - 1);
    }
  }

  lemma {:induction false} ExplicitKept(t: seq<Byte>)
    requires KindOf(t).Explicit?
    ensures KeptLen(t) == ExplicitKeyLen(t) + 1 && ExplicitKeyLen(t) > 0
  {
    hide ExplicitKeyLen, DetectToken, JwtLen, SecretFlagLen, SnakeAssignment, LowerAssignment, PlainThenQuotedLen;
  }

  lemma {:induction false} KeyKept(t: seq<Byte>, n: nat)
    requires n < |t| && t[n] == EQUALS && (IsSnakeKey(t[..n]) || IsLowerSecretKey(t[..n]))
    ensures forall j :: 0 <= j <= n ==> !IsWhitespace(t[j]) && t[j] != '\'' as int
  {
    hide IsSnakeKey, IsLowerSecretKey;
    KeyHasKeyBytes(t[..n]);
    assert forall j :: 0 <= j < n ==> t[j] == t[..n][j];
  }

  /** Inside a character there is no break. */
  lemma {:induction false} NoBreakInChar(t: seq<Byte>, d: nat)
    requires WellFormed(t) && t != [] && 0 < d < HeadLen(t)
    ensures !IsBreak(t, d)
  {
    FirstChar(t);
    var c := t[..HeadLen(t)];
    assert IsChar(c) && c[d] == t[d] && c[d - 1] == t[d - 1];
  }

  lemma {:induction false} FlagNameBytes(u: seq<Byte>)
    requires FlagNameLen(u) > 0
    ensures u[0] == '-' as int && IsWhitespace(u[FlagNameLen(u) - 1])
    ensures forall j :: 0 <= j < FlagNameLen(u) - 1 ==> !IsWhitespace(u[j]) && u[j] != '\'' as int
  {
    var name: seq<Byte> := if FlagNameLen(u) == 9 then Ascii("--secret ") else Ascii("--api-key ");
    assert forall j :: 0 <= j < FlagNameLen(u) ==> u[j] == name[j];
  }

  lemma {:induction false} FlagParts(t: seq<Byte>)
    requires KindOf(t).Flag?
    ensures var b := Until(t, NotBlank); FlagNameLen(t[b..]) >= 9 && KeptLen(t) == b + FlagNameLen(t[b..])
  {
    hide ExplicitAssignment, DetectToken, JwtLen, SnakeAssignment, LowerAssignment, BearerLen;
  }

  /** A kept flag is blanks, then a name without white space, then a space. */
  lemma {:induction false} FlagLayout(t: seq<Byte>)
    requires KindOf(t).Flag?
    ensures var b, k := Until(t, NotBlank), KeptLen(t);
            && b < k - 1 < |t| && t[b] == '-' as int && IsWhitespace(t[k - 1])
            && forall j :: b <= j < k - 1 ==> !IsWhitespace(t[j]) && t[j] != '\'' as int
  {
    hide KindOf, KeptLen, Until, FlagNameLen;
    FlagParts(t);
    var b := Until(t, NotBlank);
    var u := t[b..];
    FlagNameBytes(u);
    assert forall j :: b <= j < |t| ==> t[j] == u[j - b];
  }

  /** The name alone, without the blanks before it, is a flag too. */
  lemma {:induction false} FlagFromName(t: seq<Byte>)
    requires KindOf(t).Flag?
    ensures var b := Until(t, NotBlank); KindOf(t[b..]).Flag? && KeptLen(t[b..]) == KeptLen(t) - b
  {
    hide ExplicitAssignment, DetectToken, JwtLen, SnakeAssignment, LowerAssignment, BearerLen, FlagNameLen;
    FlagLayout(t);
    var b := Until(t, NotBlank);
    var u := t[b..];
    assert u[0] == t[b];
    UntilIs(u, NotBlank, 0);
    assert u[0..] == u;
    NoTokenHead(u);
    NoExplicit(u);
  }

  /** In a flag that is kept, the breaks lie before and after the name. */
  lemma {:induction false} FlagBreaks(t: seq<Byte>, d: nat)
    requires KindOf(t).Flag? && 0 < d <= KeptLen(t) < |t| && IsBreak(t, d)
    ensures d == KeptLen(t) || (KindOf(t[d..]).Flag? && KeptLen(t[d..]) == KeptLen(t) - d)
  {
    hide KindOf, KeptLen;
    FlagLayout(t);
    FlagFromName(t);
    var b := Until(t, NotBlank);
    assert d < b ==> IsBlank(t[d]);
    assert d == KeptLen(t) || d == b;
  }

  lemma {:induction false} NoExplicit(u: seq<Byte>)
    requires u != [] && u[0] == '-' as int
    ensures ExplicitAssignment(u).None?
  {
    hide PlainThenQuotedLen;
    HeadBytes(u);
  }

  /** A text that is left alone is left alone from any break on. */
  lemma {:induction false} StableFromBreak(t: seq<Byte>, d: nat)
    requires WellFormed(t) && Stable(t) && IsBreak(t, d)
    ensures WellFormed(t[d..]) && Stable(t[d..])
    decreases |t|
  {
    hide Step, WellFormed, Stable, KindOf, KeptLen, ValueLen, HeadLen;
    if d == 0 {
      assert t[0..] == t;
    } else if d == |t| {
      assert t[d..] == [];
      NothingIsStable();
    } else {
      StableUnfold(t);
      var n := Step(t).len;
      if n <= d {
        LaterBreak(t, n, d);
        StableFromBreak(t[n..], d - n);
        assert t[n..][d - n..] == t[d..];
      } else {
        BreakInStep(t, d);
      }
    }
  }

  lemma {:induction false} LaterBreak(t: seq<Byte>, n: nat, d: nat)
    requires n <= d && IsBreak(t, d)
    ensures IsBreak(t[n..], d - n)
  {
  }

  lemma {:induction false} BreakInStep(t: seq<Byte>, d: nat)
    requires WellFormed(t) && t != [] && Stable(t) && IsBreak(t, d) && 0 < d < Step(t).len && d < |t|
    ensures WellFormed(t[d..]) && Stable(t[d..])
  {
    hide Step, WellFormed, Stable, KindOf, KeptLen, ValueLen, HeadLen, IsBreak;
    StableUnfold(t);
    var n := Step(t).len;
    NoTokenAtReplacement(t);
    if KindOf(t).Copy? {
      CopyStep(t);
      NoBreakInChar(t, d);
    } else {
      PrefixStep(t);
      var k := KeptLen(t);
      assert t[..n] == t[..k] + REDACTED;
      assert t[k..] == REDACTED + t[n..];
      BreaksOfPrefix(t, d, k);
      StableAfterReplacement(0, t[n..]);
      assert REDACTED[0..] == REDACTED;
      if d < k {
        ShorterFlag(t, d);
      }
    }
  }

  /** Within a step that keeps a prefix, the breaks lie at its end, or before the name of a flag. */
  lemma {:induction false} BreaksOfPrefix(t: seq<Byte>, d: nat, k: nat)
    requires KindOf(t).KeepsPrefix() && k == KeptLen(t) && k + 10 <= |t| && t[k..k + 10] == REDACTED
    requires 0 < d < k + 10 && IsBreak(t, d)
    ensures d == k || (d < k && KindOf(t).Flag? && KindOf(t[d..]).Flag? && KeptLen(t[d..]) == k - d)
  {
    hide KindOf, KeptLen;
    assert forall j :: k <= j < k + 10 ==> t[j] == t[k..k + 10][j - k] == REDACTED[j - k];
    assert forall j :: 0 <= j < 10 ==> !IsWhitespace(REDACTED[j]) && REDACTED[j] != '\'' as int by {
      PlainReplacement();
    }
    if KindOf(t).Flag? {
      if d <= k {
        FlagBreaks(t, d);
      }
    } else if KindOf(t).Bearer? {
      BearerBytes(t);
    } else {
      KeyBytesPlain(t);
    }
  }

  lemma {:induction false} PlainReplacement()
    ensures forall j :: 0 <= j < 10 ==> !IsWhitespace(REDACTED[j]) && REDACTED[j] != '\'' as int
  {
    ReplacementBytes();
  }

  lemma {:induction false} BearerBytes(t: seq<Byte>)
    requires KindOf(t).Bearer?
    ensures KeptLen(t) == 7 <= |t|
    ensures forall j :: 0 <= j < 7 ==> t[j] != '\'' as int && (IsWhitespace(t[j]) <==> j == 6)
  {
    hide DetectToken, JwtLen, SecretFlagLen, SnakeAssignment, LowerAssignment, ExplicitAssignment;
    assert forall j :: 0 <= j < 7 ==> t[j] == BEARER[j];
  }

  lemma {:induction false} FlagHead(u: seq<Byte>)
    requires KindOf(u).Flag?
    ensures u != [] && u[0] <= 0x7F
  {
    hide KindOf, KeptLen;
    FlagLayout(u);
    var b := Until(u, NotBlank);
    assert b > 0 ==> IsBlank(u[0]);
  }

  /** A flag that is left alone is left alone without the blanks before it. */
  lemma {:induction false} ShorterFlag(t: seq<Byte>, d: nat)
    requires WellFormed(t) && t != [] && Stable(t) && KindOf(t).Flag? && 0 < d < KeptLen(t)
    requires KindOf(t[d..]).Flag? && KeptLen(t[d..]) == KeptLen(t) - d
    ensures WellFormed(t[d..]) && Stable(t[d..])
  {
    hide Step, WellFormed, Stable, KindOf, KeptLen, ValueLen, HeadLen, Until;
    FlagHead(t[d..]);
    assert t[d] == t[d..][0];
    Split(t, d);
    StableUnfold(t);
    PrefixStep(t);
    var k, n, u := KeptLen(t), Step(t).len, t[d..];
    PrefixStep(u);
    StableUnfold(u);
    assert u[k - d..] == t[k..] && u[..k - d] == t[..k][d..];
    assert Step(u).len == n - d && u[n - d..] == t[n..];
    assert u[..n - d] == t[..n][d..] == (t[..k] + REDACTED)[d..] == t[..k][d..] + REDACTED;
  }

  /**
   A second pass over a bearer token, when what was scanned after it is left alone: nothing
   changes if that is empty or begins with an apostrophe; otherwise it loses a non-empty
   beginning, up to the next white space and over it, or up to the next apostrophe.
   */
  lemma {:induction false} BearerSecondPass(s: seq<Byte>)
    requires WellFormed(s) && KindOf(s).Bearer?
    requires var n := Step(s).len; n <= |s| && WellFormed(s[n..]) && WellFormed(Scan(s[n..]))
                                   && Scan(Scan(s[n..])) == Scan(s[n..])
    ensures var rest := s[Step(s).len..];
            var y := Scan(rest);
            var d := RestLen(Bearer, y);
            && Scan(s) == BEARER + REDACTED + y && WellFormed(Scan(s))
            && Scan(Scan(s)) == BEARER + REDACTED + y[d..]
            && (d == 0 <==> rest == [] || rest[0] == '\'' as int)
  {
    hide Step, Scan, WellFormed, Stable, KindOf, KeptLen, ValueLen, RestLen, IsBreak;
    BearerPrefix(s);
    ScanUnfold(s);
    OutputWellFormed(s);
    PrefixStep(s);
    var rest := s[Step(s).len..];
    var y, t := Scan(rest), Scan(s);
    var d := RestLen(Bearer, y);
    assert t == s[..7] + (REDACTED + y);
    KindStands(s, REDACTED + y);
    PrefixStep(t);
    assert t[..7] == s[..7] && t[7..] == REDACTED + y;
    AfterRedacted(Bearer, y);
    ScanUnfold(t);
    assert t[17 + d..] == y[d..];
    FixpointIff(y);
    BearerRestBreaks(y);
    StableFromBreak(y, d);
    FixpointIff(y[d..]);
    RestIsEmpty(Bearer, y);
    HeadOfScan(rest);
    if rest != [] {
      ClosedAlike(Bearer, rest);
    }
  }

  lemma {:induction false} BearerPrefix(s: seq<Byte>)
    requires KindOf(s).Bearer?
    ensures 7 <= |s| && s[..7] == BEARER && KeptLen(s) == 7
  {
    hide ExplicitAssignment, DetectToken, SecretFlagLen, JwtLen, SnakeAssignment, LowerAssignment;
  }

  lemma {:induction false} BearerKind(s: seq<Byte>)
    requires BEARER <= s
    ensures KindOf(s).Bearer?
  {
    hide ExplicitKeyLen, DetectToken, SecretFlagLen, JwtLen, SnakeAssignment, LowerAssignment, PlainThenQuotedLen;
    HeadBytes(s);
  }

  // ---- How a second pass can change something ---------------------------------------------

  /** A replaced value that is not closed loses what follows it. */
  lemma {:induction false} UnclosedValue(s: seq<Byte>)
    requires WellFormed(s) && KindOf(s).KeepsPrefix() && !KindOf(s).Snake?
    requires Step(s).len < |s| && !Closes(KindOf(s), s[Step(s).len])
    ensures WellFormed(Scan(s)) && Scan(Scan(s)) != Scan(s)
  {
    hide Step, Scan, WellFormed, KindOf, Settled, Closes;
    SettledUnfold(s);
    assert s[Step(s).len..][0] == s[Step(s).len];
    RescanIff(s);
  }

  /** After a bearer token: `Bearer x y`. */
  lemma {:induction false} WordAfterBearer(x: Byte, y: Byte)
    requires IsLower(x) && IsLower(y)
    ensures var s := BEARER + [x, ' ' as int, y];
            WellFormed(s) && WellFormed(Scan(s)) && Scan(Scan(s)) != Scan(s)
  {
    hide Step, Scan, WellFormed, KeptLen, KindOf;
    var s := BEARER + [x, ' ' as int, y];
    AsciiWellFormed(s);
    BearerKind(s);
    BearerPrefix(s);
    PrefixStep(s);
    var v := s[7..];
    assert v == [x, ' ' as int, y];
    UntilIs(v, EndsBearer, 1);
    UntilIs(v[1..], NotWhitespace, 1);
    assert s[9] == y;
    UnclosedValue(s);
  }

  const TOKEN_KEY: seq<Byte> := Ascii("token=")

  lemma {:induction false} TokenKeyKind(v: seq<Byte>)
    ensures KindOf(TOKEN_KEY + v).Explicit? && KeptLen(TOKEN_KEY + v) == 6
  {
    hide DetectToken, SecretFlagLen, JwtLen, SnakeAssignment, LowerAssignment, PlainThenQuotedLen;
    assert TOKEN_KEY <= TOKEN_KEY + v;
  }

  /** After a quoted value: `token='a'y`. */
  lemma {:induction false} TextAfterQuote(y: Byte)
    requires IsLower(y)
    ensures var s := TOKEN_KEY + ['\'' as int, 'a' as int, '\'' as int, y];
            WellFormed(s) && WellFormed(Scan(s)) && Scan(Scan(s)) != Scan(s)
  {
    hide Step, Scan, WellFormed, KindOf, KeptLen;
    var v: seq<Byte> := ['\'' as int, 'a' as int, '\'' as int, y];
    var s := TOKEN_KEY + v;
    AsciiWellFormed(s);
    TokenKeyKind(v);
    PrefixStep(s);
    assert s[6..] == v;
    UntilIs(v, EndsValue, 0);
    assert v[0..] == v;
    UntilIs(v[1..], Is(v[0]), 1);
    assert s[9] == y;
    UnclosedValue(s);
  }

  /** An upper-case key that is taken for an AWS key once its value is replaced: `AKIA=`. */
  lemma {:induction false} KeyTakenForToken(s: seq<Byte>)
    requires WellFormed(s) && KindOf(s).Snake? && AKIA <= s
    ensures s != [] && WellFormed(Scan(s)) && Scan(Scan(s)) != Scan(s)
  {
    hide Step, Scan, WellFormed, KindOf, Settled;
    SettledUnfold(s);
    RescanIff(s);
  }

  lemma {:induction false} AwsAssignment()
    ensures WellFormed(Ascii("AKIA=")) && WellFormed(Scan(Ascii("AKIA=")))
    ensures Scan(Scan(Ascii("AKIA="))) != Scan(Ascii("AKIA="))
  {
    hide Scan, WellFormed, Step, KindOf;
    var s := Ascii("AKIA=");
    AsciiWellFormed(s);
    AwsAssignmentKind();
    KeyTakenForToken(s);
  }

  lemma {:induction false} AwsAssignmentKind()
    ensures KindOf(Ascii("AKIA=")).Snake? && AKIA <= Ascii("AKIA=")
  {
    hide ExplicitKeyLen, HasGithubPrefix, OpenAiKeyLen, FlagNameLen, JwtLen, IsSnakeKey, RedactBearer;
    var s := Ascii("AKIA=");
    HeadBytes(s);
    OpenAiHead(s);
    UntilIs(s, NotBlank, 0);
    assert s[0..] == s;
    UntilIs(s, Is(EQUALS), 4);
    assert s[..4] == AKIA;
    AwsPrefixIsKey();
  }

  lemma {:induction false} AwsPrefixIsKey()
    ensures IsSnakeKey(AKIA)
  {
    assert IsUpper(AKIA[0]);
  }

  // ---- A token that only the output is long enough for ------------------------------------

  /** `n` bytes that no detector looks at. */
  function Dots(n: nat): (r: seq<Byte>)
    ensures |r| == n && forall j :: 0 <= j < n ==> r[j] == '.' as int
  {
    seq(n, _ => '.' as int)
  }

  /** The first byte begins no pattern, or one that does not go on, or a token that is too short. */
  predicate IsUninteresting(s: seq<Byte>) {
    && s != []
    && (|| s[0] in {'.' as int, 'k' as int, 'y' as int, 'J' as int, 'K' as int, 'I' as int}
        || (s[0] == '-' as int && |s| > 1 && s[1] != '-' as int)
        || (s[0] == 'A' as int && AwsKeyLen(s).None?)
        || (s[0] == 's' as int && OpenAiKeyLen(s).None?)
        || (s[0] == 'e' as int && JwtLen(s).None?))
  }

  /** Nothing is detected at such a byte in front of one that no key may hold. */
  lemma {:induction false} UninterestingByte(s: seq<Byte>, n: nat)
    requires n < |s| && !IsKeyByte(s[n]) && forall j :: 0 <= j <= n ==> s[j] != EQUALS
    requires IsUninteresting(s)
    ensures KindOf(s).Copy?
  {
    hide ExplicitKeyLen, HasGithubPrefix, OpenAiKeyLen, FlagNameLen, JwtLen, AwsKeyLen, SnakeAssignment,
         LowerAssignment, RedactBearer, Until;
    HeadBytes(s);
    OpenAiHead(s);
    UntilIs(s, NotBlank, 0);
    assert s[0..] == s;
    NoFlagName(s);
    NoKeyWith(s, n);
  }

  lemma {:induction false} NoFlagName(s: seq<Byte>)
    requires |s| > 0 && (s[0] != '-' as int || (|s| > 1 && s[1] != '-' as int))
    ensures FlagNameLen(s) == 0
  {
  }

  lemma {:induction false} ByteCopied(s: seq<Byte>)
    requires WellFormed(s) && s != [] && s[0] <= 0x7F && KindOf(s).Copy?
    ensures WellFormed(s[1..]) && Scan(s) == s[..1] + Scan(s[1..])
  {
    hide Step, Scan, WellFormed, KindOf;
    CopiedByte(s);
    ScanUnfold(s);
  }

  lemma {:induction false} DotsCopied(n: nat, u: seq<Byte>)
    requires WellFormed(Dots(n) + u) && WellFormed(u)
    ensures Scan(Dots(n) + u) == Dots(n) + Scan(u)
  {
    hide Scan, WellFormed, KindOf, Step;
    var s := Dots(n) + u;
    if n == 0 {
      assert s == u && Dots(0) + Scan(u) == Scan(u);
    } else {
      UninterestingByte(s, 0);
      ByteCopied(s);
      assert s[1..] == Dots(n - 1) + u;
      DotsCopied(n - 1, u);
      assert s[..1] + (Dots(n - 1) + Scan(u)) == Dots(n) + Scan(u);
    }
  }

  lemma {:induction false} AssignmentScan(v: seq<Byte>)
    requires WellFormed(TOKEN_KEY + v) && forall j :: 0 <= j < |v| ==> !EndsValue(v[j])
    ensures Scan(TOKEN_KEY + v) == TOKEN_KEY + REDACTED
  {
    hide Step, Scan, WellFormed, KindOf, KeptLen;
    var s := TOKEN_KEY + v;
    TokenKeyKind(v);
    PrefixStep(s);
    assert s[6..] == v && s[..6] == TOKEN_KEY && s[|s|..] == [];
    UntilIs(v, EndsValue, |v|);
    ScanUnfold(s);
    NothingIsStable();
  }

  /** `sk-` and 40 bytes are too short for a token with `token=v` after them. */
  lemma {:induction false} TooShort(s: seq<Byte>)
    requires s == Ascii("sk-") + (Dots(40) + (TOKEN_KEY + ['v' as int]))
    ensures KindOf(s).Copy?
  {
    hide OpenAiKeyLen, AwsKeyLen, JwtLen;
    assert s[0] == 's' as int && s[1] == 'k' as int && s[2] == '-' as int && s[3] == '.' as int;
    NoOpenAi(s);
    UninterestingByte(s, 2);
  }

  lemma {:induction false} NoOpenAi(s: seq<Byte>)
    requires |s| == 50 && s[3] == '.' as int
    ensures OpenAiKeyLen(s).None?
  {
    DiffersAt(Ascii("sk-proj-"), s, 3);
    DiffersAt(Ascii("sk-svcacct-"), s, 3);
    DiffersAt(Ascii("sk-admin-"), s, 3);
  }

  lemma {:induction false} DiffersAt(pattern: seq<Byte>, s: seq<Byte>, n: nat)
    requires n < |pattern| && n < |s| && pattern[n] != s[n]
    ensures !(pattern <= s)
  {
  }

  lemma {:induction false} LongEnough(t: seq<Byte>)
    requires t == Ascii("sk-") + (Dots(40) + (TOKEN_KEY + REDACTED))
    ensures OpenAiKeyLen(t).Some?
  {
    assert Ascii("sk-") <= t;
    assert forall j :: 3 <= j < |t| ==> !EndsValue(t[j]);
    UntilIs(t[3..], EndsValue, |t| - 3);
  }

  /** The replacement of a short value makes the text before it long enough for a token. */
  lemma {:induction false} TokenByReplacement(s: seq<Byte>)
    requires s == Ascii("sk-") + (Dots(40) + (TOKEN_KEY + ['v' as int]))
    ensures WellFormed(s) && WellFormed(Scan(s)) && Scan(Scan(s)) != Scan(s)
  {
    hide Scan, WellFormed, KindOf, Step, Settled, OpenAiKeyLen;
    AsciiWellFormed(s);
    TooShort(s);
    ByteCopied(s);
    UninterestingByte(s[1..], 1);
    ByteCopied(s[1..]);
    UninterestingByte(s[1..][1..], 0);
    ByteCopied(s[1..][1..]);
    assert s[1..][1..][1..] == Dots(40) + (TOKEN_KEY + ['v' as int]);
    AsciiWellFormed(TOKEN_KEY + ['v' as int]);
    AssignmentScan(['v' as int]);
    DotsCopied(40, TOKEN_KEY + ['v' as int]);
    assert Scan(s) == Ascii("sk-") + (Dots(40) + (TOKEN_KEY + REDACTED));
    LongEnough(Scan(s));
    SettledUnfold(s);
    RescanIff(s);
  }

  // ---- The same for web tokens and AWS keys -----------------------------------------------

  lemma {:induction false} WebTokenLen(u: seq<Byte>, n: nat)
    requires n >= 2 && forall j :: 0 <= j < |u| ==> !IsLineSpace(u[j])
    ensures var s := Ascii("eyJ") + (Dots(n) + u);
            |s| <= 1200 ==> JwtLen(s) == if |s| >= 50 then Some(|s|) else None
  {
    hide CountDots;
    var s := Ascii("eyJ") + (Dots(n) + u);
    assert Ascii("eyJ") <= s && s[3..] == Dots(n) + u;
    UntilIs(s[3..], IsLineSpace, |s| - 3);
    assert s[3..|s|] == s[3..];
    DotsCounted(n, u);
  }

  lemma {:induction false} DotsCounted(n: nat, u: seq<Byte>)
    ensures CountDots(Dots(n) + u) >= n
  {
    var s := Dots(n) + u;
    if u != [] {
      DotsCounted(n, u[..|u| - 1]);
      assert s[..|s| - 1] == Dots(n) + u[..|u| - 1];
    } else if n > 0 {
      DotsCounted(n - 1, []);
      assert s[..|s| - 1] == Dots(n - 1) + [];
    }
  }

  lemma {:induction false} AssignmentBytes()
    ensures !EndsValue('v' as int)
    ensures var s := TOKEN_KEY + ['v' as int]; forall j :: 0 <= j < |s| ==> !IsLineSpace(s[j])
    ensures var t := TOKEN_KEY + REDACTED; forall j :: 0 <= j < |t| ==> !IsLineSpace(t[j])
  {
  }

  /** `eyJ`, 38 dots and `token=v`: two bytes too short before the value is replaced. */
  lemma {:induction false} WebTokenByReplacement(s: seq<Byte>)
    requires s == Ascii("eyJ") + (Dots(38) + (TOKEN_KEY + ['v' as int]))
    ensures WellFormed(s) && WellFormed(Scan(s)) && Scan(Scan(s)) != Scan(s)
  {
    hide Scan, WellFormed, KindOf, Step, Settled, JwtLen, AwsKeyLen, OpenAiKeyLen, IsLineSpace;
    AsciiWellFormed(s);
    AssignmentBytes();
    WebTokenLen(TOKEN_KEY + ['v' as int], 38);
    WebTokenLen(TOKEN_KEY + REDACTED, 38);
    UninterestingByte(s, 3);
    ByteCopied(s);
    UninterestingByte(s[1..], 2);
    ByteCopied(s[1..]);
    UninterestingByte(s[1..][1..], 1);
    ByteCopied(s[1..][1..]);
    assert s[1..][1..][1..] == Dots(38) + (TOKEN_KEY + ['v' as int]);
    AsciiWellFormed(TOKEN_KEY + ['v' as int]);
    AssignmentScan(['v' as int]);
    DotsCopied(38, TOKEN_KEY + ['v' as int]);
    assert Scan(s) == Ascii("eyJ") + (Dots(38) + (TOKEN_KEY + REDACTED));
    SettledUnfold(s);
    RescanIff(s);
  }

  lemma {:induction false} TokenScan(s: seq<Byte>)
    requires WellFormed(s) && s != [] && s[0] == 'e' as int && JwtLen(s) == Some(|s|)
    ensures Scan(s) == REDACTED
  {
    hide Scan, WellFormed, JwtLen, ExplicitKeyLen, FlagNameLen, SnakeAssignment, LowerAssignment,
         PlainThenQuotedLen;
    HeadBytes(s);
    NoTokenHead(s);
    UntilIs(s, NotBlank, 0);
    assert s[0..] == s && s[|s|..] == [];
    ScanUnfold(s);
    NothingIsStable();
  }

  /** `AKIA` in front of a web token whose fourth byte ends an AWS key. */
  lemma {:induction false} AwsKeyByReplacement(s: seq<Byte>)
    requires s == AKIA + (Ascii("eyJ,") + Dots(46))
    ensures WellFormed(s) && WellFormed(Scan(s)) && Scan(Scan(s)) != Scan(s)
  {
    hide Scan, WellFormed, KindOf, Step, Settled, JwtLen, AwsKeyLen, OpenAiKeyLen;
    AsciiWellFormed(s);
    ShortAwsKey(s);
    UninterestingByte(s, 7);
    ByteCopied(s);
    UninterestingByte(s[1..], 6);
    ByteCopied(s[1..]);
    UninterestingByte(s[1..][1..], 5);
    ByteCopied(s[1..][1..]);
    SecondLetter(s[1..][1..][1..]);
    UninterestingByte(s[1..][1..][1..], 4);
    ByteCopied(s[1..][1..][1..]);
    var t := s[1..][1..][1..][1..];
    assert t == Ascii("eyJ,") + Dots(46);
    CommaToken(t);
    TokenScan(t);
    assert Scan(s) == AKIA + REDACTED;
    ReplacedAwsKey();
    SettledUnfold(s);
    RescanIff(s);
  }

  lemma {:induction false} ShortAwsKey(s: seq<Byte>)
    requires s == AKIA + (Ascii("eyJ,") + Dots(46))
    ensures AwsKeyLen(s).None? && |s| == 54 && s[..8] == Ascii("AKIAeyJ,")
    ensures forall j :: 0 <= j < 8 ==> s[j] != EQUALS
  {
    assert s[4..][3] == ',' as int;
    UntilIs(s[4..], EndsAwsKey, 3);
  }

  lemma {:induction false} SecondLetter(s: seq<Byte>)
    requires |s| > 1 && s[1] != 'K' as int
    ensures AwsKeyLen(s).None?
  {
    DiffersAt(AKIA, s, 1);
  }

  lemma {:induction false} CommaToken(t: seq<Byte>)
    requires t == Ascii("eyJ,") + Dots(46)
    ensures t[0] == 'e' as int && JwtLen(t) == Some(50)
  {
    hide CountDots;
    assert Ascii("eyJ") <= t;
    UntilIs(t[3..], IsLineSpace, 47);
    assert t[3..50] == [',' as int] + Dots(46);
    CommaDots(46);
  }

  lemma {:induction false} CommaDots(n: nat)
    ensures CountDots([',' as int] + Dots(n)) == n
  {
    var s := [',' as int] + Dots(n);
    if n > 0 {
      CommaDots(n - 1);
      assert s[..|s| - 1] == [',' as int] + Dots(n - 1);
    } else {
      assert s == [',' as int] && s[..0] == [];
    }
  }

  lemma {:induction false} ReplacedAwsKey()
    ensures AwsKeyLen(AKIA + REDACTED).Some?
  {
    var t := AKIA + REDACTED;
    assert AKIA <= t && t[4..] == REDACTED;
    UntilIs(REDACTED, EndsAwsKey, 10);
  }

  /** After a quoted value of a lower-case key: `a_key='b'y`. */
  lemma {:induction false} TextAfterLowerQuote(y: Byte)
    requires IsLower(y)
    ensures var s := Ascii("a_key=") + ['\'' as int, 'b' as int, '\'' as int, y];
            WellFormed(s) && WellFormed(Scan(s)) && Scan(Scan(s)) != Scan(s)
  {
    hide Step, Scan, WellFormed, KindOf, KeptLen;
    var v: seq<Byte> := ['\'' as int, 'b' as int, '\'' as int, y];
    var s := Ascii("a_key=") + v;
    AsciiWellFormed(s);
    LowerKeyKind(v);
    PrefixStep(s);
    assert s[6..] == v;
    UntilIs(v[1..], Is(v[0]), 1);
    assert s[9] == y;
    UnclosedValue(s);
  }

  lemma {:induction false} LowerKeyKind(v: seq<Byte>)
    ensures KindOf(Ascii("a_key=") + v).Lower? && KeptLen(Ascii("a_key=") + v) == 6
  {
    hide KindOf, KeptLen, IsLowerSecretKey, Until;
    var s := Ascii("a_key=") + v;
    assert s[0] == 'a' as int && s[1] == '_' as int;
    DiffersAt(Ascii("api_key="), s, 1);
    HeadBytes(s);
    ShortKey();
    assert s[..5] == Ascii("a_key");
    LowerAlone(s, 5);
  }

  lemma {:induction false} ShortKey()
    ensures IsLowerSecretKey(Ascii("a_key"))
  {
    var key := Ascii("a_key");
    assert key[1..] == Ascii("_key");
  }
}
