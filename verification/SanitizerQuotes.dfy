/**
 Values in quotes. When the scan comes to a secret key, a quoted value after it is hidden, with
 white space, delimiters and the other kind of quote in it, exactly if the key is not upper-case:
 the value of an upper-case key ends where the quotes begin.
 */
module SanitizerQuotes {
  import opened Wrappers
  import opened Utf8
  import opened Spans
  import opened Sanitizer
  import opened SanitizerKinds
  import opened SanitizerScan
  import opened SanitizerReach
  import opened SanitizerSecrecy
  import opened SanitizerContexts

  /** `w` in quotes. */
  function Quoted(q: Byte, w: seq<Byte>): seq<Byte> {
    [q] + w + [q]
  }

  ghost predicate IsQuotedCommand(c: seq<Byte>, q: Byte, w: seq<Byte>, r: seq<Byte>) {
    q !in w && WellFormed(c + (Quoted(q, w) + r)) && WellFormed(r)
  }

  /** The output is the same for all quoted values, whatever follows. */
  ghost predicate HidesQuoted(c: seq<Byte>, q: Byte) {
    forall w1, w2, r :: IsQuotedCommand(c, q, w1, r) && IsQuotedCommand(c, q, w2, r) ==>
      Scan(c + (Quoted(q, w1) + r)) == Scan(c + (Quoted(q, w2) + r))
  }

  /** Scanning `c` comes to its last `n` bytes, and to no open place before. */
  predicate ReachedAt(c: seq<Byte>, n: nat)
    requires WellFormed(c)
    decreases |c|
  {
    || |c| == n
    || (&& |c| > n && !Open(c, 0)
        && (ProbeStep(c, 0);
            var len := Step(c + Probe(0)).len;
            len <= |c| && ReachedAt(c[len..], n)))
  }

  /** What is written before the last `n` bytes. */
  function TextUpTo(c: seq<Byte>, n: nat): seq<Byte>
    requires WellFormed(c) && ReachedAt(c, n)
    decreases |c|
  {
    if |c| == n then [] else
      ProbeStep(c, 0);
      TextBefore(c) + TextUpTo(c[Step(c + Probe(0)).len..], n)
  }

  lemma {:induction false} NothingSettled(c: seq<Byte>)
    requires EndsInEquals(c) && !Open(c, 0)
    ensures IsSettled(c, [], 0)
  {
    hide Open, IsValueAfter, NoFlagAfterBlanks;
    PlainIsValue(c, []);
  }

  /** A step that ends before the key does not depend on what follows. */
  lemma {:induction false} ScanStep(c: seq<Byte>, t: seq<Byte>)
    requires WellFormed(c) && EndsInEquals(c) && !Open(c, 0) && WellFormed(c + t)
    requires Step(c + Probe(0)).len <= |c|
    ensures var n := Step(c + Probe(0)).len;
            && WellFormed(c[n..]) && WellFormed(c[n..] + t) && Scan(c + t) == TextBefore(c) + Scan(c[n..] + t)
  {
    hide Step, Scan, WellFormed, Open, ReachBefore, TextBefore, IsSettled, Probe;
    ProbeStep(c, 0);
    var rest := c[Step(c + Probe(0)).len..];
    ProbeSettled(c, 0);
    ProbeReach(c, t, 0);
    NothingSettled(c);
    assert c + [] + t == c + t && rest + [] + t == rest + t;
    ScanAcross(c, [], t, 0);
  }

  /** Up to the key the scan does not depend on what follows. */
  lemma {:induction false} ScanUpTo(c: seq<Byte>, key: seq<Byte>, t: seq<Byte>)
    requires WellFormed(c) && EndsInEquals(c) && |key| <= |c| && c[|c| - |key|..] == key && key != []
    requires ReachedAt(c, |key|) && WellFormed(c + t)
    ensures WellFormed(key + t) && Scan(c + t) == TextUpTo(c, |key|) + Scan(key + t)
    decreases |c|
  {
    hide Step, Scan, WellFormed, Open, TextBefore, Probe, EndsInEquals;
    if |c| == |key| {
      assert c == key && [] + Scan(c + t) == Scan(c + t);
    } else {
      ProbeStep(c, 0);
      var n := Step(c + Probe(0)).len;
      ScanStep(c, t);
      ReachedLength(c[n..], |key|);
      SameEnd(c, key, n);
      ScanUpTo(c[n..], key, t);
      Associates(TextBefore(c), TextUpTo(c[n..], |key|), Scan(key + t));
    }
  }

  lemma {:induction false} SameEnd(c: seq<Byte>, key: seq<Byte>, n: nat)
    requires n <= |c| && |key| <= |c| - n && c[|c| - |key|..] == key && key != [] && EndsInEquals(c)
    ensures c[n..][|c| - n - |key|..] == key && EndsInEquals(c[n..])
  {
  }

  lemma {:induction false} Associates(a: seq<Byte>, b: seq<Byte>, c: seq<Byte>)
    ensures a + (b + c) == a + b + c
  {
  }

  lemma {:induction false} ReachedLength(c: seq<Byte>, n: nat)
    requires WellFormed(c) && ReachedAt(c, n)
    ensures |c| >= n
  {
  }

  // ---- The step at the key --------------------------------------------------------------------

  lemma {:induction false} QuotedLength(q: Byte, w: seq<Byte>, r: seq<Byte>)
    requires IsQuote(q) && q !in w
    ensures var t := Quoted(q, w) + r;
            && QuotedLen(t) == |w| + 2 && PlainThenQuotedLen(t) == |w| + 2 && QuotedOrPlainLen(t) == |w| + 2
            && t[|w| + 2..] == r
  {
    var t := Quoted(q, w) + r;
    assert t[1..] == w + ([q] + r);
    UntilIs(t[1..], Is(q), |w|);
    UntilIs(t, EndsValue, 0);
    assert t[0..] == t;
  }

  /** An explicit or lower-case key takes the quoted value. */
  lemma {:induction false} QuotedValueTaken(key: seq<Byte>, q: Byte, w: seq<Byte>, r: seq<Byte>)
    requires IsExplicitKey(key) || IsLowerKey(key)
    requires GithubTokenLen(key).None? && IsQuote(q) && IsQuotedCommand(key, q, w, r)
    ensures Scan(key + (Quoted(q, w) + r)) == key + REDACTED + Scan(r)
  {
    hide Step, Scan, WellFormed, KindOf, KeptLen, KindBefore, KeptBefore, IsExplicitKey, IsLowerKey, TokenOpen, Quoted,
         NoFlagAfterBlanks, IsValueAfter, GithubTokenLen, QuotedLen, Until, QuotedOrPlainLen, PlainThenQuotedLen, Fits;
    var t := Quoted(q, w) + r;
    var s := key + t;
    assert key + [] + t == s;
    TakesQuotes(key);
    KeyBytes(key);
    PlainIsValue(key, []);
    KindAcross(key, [], t, 0);
    PrefixStep(s);
    QuotedLength(q, w, r);
    assert s[..|key|] == key && s[|key|..] == t;
    ScanUnfold(s);
    assert s[|key| + |w| + 2..] == t[|w| + 2..];
  }

  lemma {:induction false} TakesQuotes(key: seq<Byte>)
    requires (IsExplicitKey(key) || IsLowerKey(key)) && GithubTokenLen(key).None?
    ensures (KindBefore(key).Explicit? || KindBefore(key).Lower?) && KeptBefore(key) == |key|
    ensures !TokenOpen(key, 0) && EndsInEquals(key) && !EndsInSpace(key)
  {
    hide KindBefore, KeptBefore, IsExplicitKey, IsLowerKey, IsUpperKey, GithubTokenLen, RunReach, CountDots;
    NoTokenInKey(key);
    KeyBytes(key);
    if IsExplicitKey(key) {
      ExplicitAtFront(key);
      ExplicitNotAws(key);
    } else {
      LowerAtFront(key);
      LowerHead(key);
    }
    PrefixOfPrefix(SK, SK_PROJ, key);
    PrefixOfPrefix(SK, SK_SVCACCT, key);
    PrefixOfPrefix(SK, SK_ADMIN, key);
  }

  lemma {:induction false} ExplicitNotAws(key: seq<Byte>)
    requires IsExplicitKey(key)
    ensures !(AKIA <= key)
  {
    assert AKIA[0] == 'A' as int;
  }

  /** What is written for an upper-case key with an empty value. */
  function UpperText(key: seq<Byte>): seq<Byte> {
    if AKIA <= key && |key| >= 8 then REDACTED else key + REDACTED
  }

  lemma {:induction false} UpperKind(key: seq<Byte>, t: seq<Byte>)
    requires IsUpperKey(key) && t != [] && IsQuote(t[0])
    ensures var s := key + t;
            if AKIA <= key && |key| >= 8 then KindOf(s).Token? && AwsKeyLen(s) == Some(|key|)
            else KindOf(s).Snake? && KeptLen(s) == |key|
  {
    hide ExplicitKeyLen, HasGithubPrefix, OpenAiKeyLen, FlagNameLen, JwtLen, LowerAssignment, RedactBearer, AwsKeyLen,
         IsSnakeKey, PlainThenQuotedLen;
    var s, n := key + t, |key| - 1;
    UpperHead(key);
    assert s[0] == key[0] && s[1] == key[1] && s[..n] == key[..n];
    LowerPatterns(s);
    NoFlagAt(s) by { UpperFirst(key); }
    UpperFirstEquals(key);
    SameFirstEquals(key, s, n);
    AwsBeforeQuote(key, t);
    HeadBytes(s);
  }

  lemma {:induction false} UpperFirst(key: seq<Byte>)
    requires IsUpperKey(key)
    ensures key != [] && NotBlank(key[0]) && key[0] != '-' as int
  {
    var front := key[..|key| - 1];
    assert key[0] == front[0];
  }

  lemma {:induction false} AwsBeforeQuote(key: seq<Byte>, t: seq<Byte>)
    requires IsUpperKey(key) && t != [] && IsQuote(t[0])
    ensures AwsKeyLen(key + t) == if AKIA <= key && |key| >= 8 then Some(|key|) else None
  {
    hide IsUpperKey, IsLowerKey, IsExplicitKey, IsQuote, EndsAwsKey;
    var s := key + t;
    KeyBytes(key);
    KeyStopsNothing(key);
    assert EndsAwsKey(t[0]) by { QuoteEndsKey(t[0]); }
    assert AKIA <= s <==> AKIA <= key;
    assert s[4..][|key| - 4] == t[0];
    assert forall j :: 0 <= j < |key| - 4 ==> s[4..][j] == key[j + 4];
    UntilIs(s[4..], EndsAwsKey, |key| - 4);
  }

  lemma {:induction false} QuoteEndsKey(q: Byte)
    requires IsQuote(q)
    ensures EndsAwsKey(q) && EndsSnakeValue(q)
  {
  }

  /** An upper-case key takes nothing of a quoted value, which is scanned as ordinary text. */
  lemma {:induction false} QuotedValueExposed(key: seq<Byte>, t: seq<Byte>)
    requires IsUpperKey(key) && t != [] && IsQuote(t[0]) && WellFormed(key + t) && WellFormed(t)
    ensures Scan(key + t) == UpperText(key) + Scan(t)
  {
    hide Step, Scan, WellFormed, KindOf, KeptLen, IsUpperKey, AwsKeyLen, ValueLen;
    var s := key + t;
    UpperKind(key, t);
    ScanUnfold(s);
    assert s[..|key|] == key && s[|key|..] == t;
    if AKIA <= key && |key| >= 8 {
      TokenStep(s);
      TokenLength(s);
    } else {
      PrefixStep(s);
      NoValue(t);
    }
  }

  lemma {:induction false} NoValue(t: seq<Byte>)
    requires t != [] && IsQuote(t[0])
    ensures ValueLen(Snake, t) == 0
  {
    UntilIs(t, EndsSnakeValue, 0);
  }

  // ---- Quoted text is shown ---------------------------------------------------------------------

  lemma {:induction false} QuoteCopied(s: seq<Byte>)
    requires s != [] && IsQuote(s[0]) && forall j :: 0 <= j < |s| ==> s[j] != EQUALS
    ensures KindOf(s).Copy? && HeadLen(s) == 1
  {
    hide DetectToken, JwtLen, ExplicitKeyLen, FlagNameLen, IsSnakeKey, IsLowerSecretKey, Until;
    HeadBytes(s);
    NoTokenHead(s);
    UntilIs(s, NotBlank, 0);
    UntilIs(s, Is(EQUALS), |s|);
    assert s[0..] == s && IsChar(s[..1]);
  }

  lemma {:induction false} QuotedShown(q: Byte, b: Byte)
    requires IsQuote(q) && (b == LETTER || b == OTHER)
    ensures var s := Quoted(q, [b]); WellFormed(s) && |Scan(s)| > 1 && Scan(s)[1] == b
  {
    hide Step, Scan, WellFormed, KindOf, HeadLen;
    var s := Quoted(q, [b]);
    assert s == [q, b, q];
    AsciiWellFormed(s);
    QuoteCopied(s);
    CopyStep(s);
    ScanUnfold(s);
    assert s[1..] == [b, q];
    TokenKinds(s[1..]);
    FirstByteTells(s[1..]);
  }

  // ---- The theorem ------------------------------------------------------------------------------

  lemma {:induction false} QuotesAfterKey(
      c: seq<Byte>, key: seq<Byte>, q: Byte, w: seq<Byte>, r: seq<Byte>)
    requires WellFormed(c) && EndsInEquals(c) && |key| <= |c| && c[|c| - |key|..] == key && IsKeyText(key)
    requires ReachedAt(c, |key|) && IsQuote(q) && IsQuotedCommand(c, q, w, r)
    ensures WellFormed(key) && IsQuotedCommand(key, q, w, r) && WellFormed(Quoted(q, w) + r)
    ensures Scan(c + (Quoted(q, w) + r)) == TextUpTo(c, |key|) + Scan(key + (Quoted(q, w) + r))
  {
    hide Scan, WellFormed, ReachedAt, TextUpTo, Quoted;
    var t := Quoted(q, w) + r;
    AsciiWellFormed(key) by { KeyAscii(key); }
    ScanUpTo(c, key, t);
    AfterAscii(key + t, |key| - 1);
    Split(key + t, |key|);
    assert (key + t)[|key|..] == t;
  }

  lemma {:induction false} KeyAscii(key: seq<Byte>)
    requires IsKeyText(key)
    ensures forall j :: 0 <= j < |key| ==> key[j] <= 0x7F
  {
  }

  lemma {:induction false} HidesAtKey(c: seq<Byte>, key: seq<Byte>, q: Byte)
    requires WellFormed(c) && EndsInEquals(c) && |key| <= |c| && c[|c| - |key|..] == key && IsKeyText(key)
    requires ReachedAt(c, |key|) && IsQuote(q) && GithubTokenLen(key).None? && (IsExplicitKey(key) || IsLowerKey(key))
    ensures HidesQuoted(c, q)
  {
    hide Scan, WellFormed, ReachedAt, TextUpTo, Quoted, IsExplicitKey, IsLowerKey, GithubTokenLen, IsKeyText,
         EndsInEquals;
    forall w1, w2, r | IsQuotedCommand(c, q, w1, r) && IsQuotedCommand(c, q, w2, r)
      ensures Scan(c + (Quoted(q, w1) + r)) == Scan(c + (Quoted(q, w2) + r))
    {
      QuotesAfterKey(c, key, q, w1, r);
      QuotesAfterKey(c, key, q, w2, r);
      QuotedValueTaken(key, q, w1, r);
      QuotedValueTaken(key, q, w2, r);
    }
  }

  lemma {:induction false} LetterAfterKey(c: seq<Byte>, key: seq<Byte>, q: Byte, b: Byte)
    requires WellFormed(c) && EndsInEquals(c) && |key| <= |c| && c[|c| - |key|..] == key && IsKeyText(key)
    requires ReachedAt(c, |key|) && IsQuote(q) && IsUpperKey(key) && (b == LETTER || b == OTHER)
    ensures IsQuotedCommand(c, q, [b], []) && WellFormed(Quoted(q, [b]))
    ensures Scan(c + (Quoted(q, [b]) + [])) == TextUpTo(c, |key|) + (UpperText(key) + Scan(Quoted(q, [b])))
  {
    hide Scan, WellFormed, ReachedAt, TextUpTo, IsUpperKey, IsKeyText, EndsInEquals, UpperText;
    var t := Quoted(q, [b]);
    assert t == [q, b, q] && t + [] == t;
    AsciiWellFormed(t);
    AsciiWellFormed([]);
    Concat(c, t);
    QuotesAfterKey(c, key, q, [b], []);
    QuotedValueExposed(key, t);
  }

  lemma {:induction false} ShowsAtKey(c: seq<Byte>, key: seq<Byte>, q: Byte)
    requires WellFormed(c) && EndsInEquals(c) && |key| <= |c| && c[|c| - |key|..] == key && IsKeyText(key)
    requires ReachedAt(c, |key|) && IsQuote(q) && IsUpperKey(key)
    ensures !HidesQuoted(c, q)
  {
    hide Scan, WellFormed, ReachedAt, TextUpTo, Quoted, IsUpperKey, IsKeyText, EndsInEquals, UpperText, IsQuotedCommand;
    LetterAfterKey(c, key, q, LETTER);
    LetterAfterKey(c, key, q, OTHER);
    QuotedShown(q, LETTER);
    QuotedShown(q, OTHER);
    SameStart(UpperText(key), Scan(Quoted(q, [LETTER])), Scan(Quoted(q, [OTHER])));
    SameStart(TextUpTo(c, |key|), UpperText(key) + Scan(Quoted(q, [LETTER])),
              UpperText(key) + Scan(Quoted(q, [OTHER])));
  }

  /**
   When the scan comes to a secret key and to no open place before, all quoted values after it
   give the same output if and only if the key is not upper-case.
   */
  lemma {:induction false} QuotedValueIff(p: seq<Byte>, key: seq<Byte>, q: Byte)
    requires WellFormed(p + key) && IsSecretKey(key) && GithubTokenLen(key).None? && IsQuote(q)
    requires ReachedAt(p + key, |key|)
    ensures HidesQuoted(p + key, q) <==> !IsUpperKey(key)
  {
    hide WellFormed, ReachedAt, IsUpperKey, IsExplicitKey, IsLowerKey, GithubTokenLen, HidesQuoted;
    var c := p + key;
    KeyBytes(key);
    assert c[|c| - |key|..] == key;
    if IsUpperKey(key) {
      ShowsAtKey(c, key, q);
    } else {
      HidesAtKey(c, key, q);
    }
  }
}
