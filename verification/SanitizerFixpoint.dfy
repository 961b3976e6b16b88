/**
 Commands that the sanitizer leaves alone. Such a command is left alone step by step: no step
 can shrink the text and have a later one make up for it, because no step writes a byte that
 is not in its input, except for the replacement, and what follows a replaced value does not
 look like one.
 */
module SanitizerFixpoint {
  import opened Wrappers
  import opened Utf8
  import opened Spans
  import opened Sanitizer
  import opened SanitizerKinds
  import opened SanitizerScan

  /** Every step writes exactly what it reads. */
  ghost predicate Stable(t: seq<Byte>)
    requires WellFormed(t)
    decreases |t|
  {
    t == [] ||
      (ScanUnfold(t);
       Step(t).text == t[..Step(t).len] && Stable(t[Step(t).len..]))
  }

  lemma {:induction false} StableUnfold(t: seq<Byte>)
    requires WellFormed(t) && t != []
    ensures var n := Step(t).len;
            1 <= n <= |t| && WellFormed(t[n..]) && (Stable(t) <==> Step(t).text == t[..n] && Stable(t[n..]))
  {
    hide Step, WellFormed;
    ScanUnfold(t);
  }

  lemma {:induction false} NothingIsStable()
    ensures WellFormed([]) && Stable([]) && Scan([]) == []
  {
  }

  lemma {:induction false} StableIsFixpoint(t: seq<Byte>)
    requires WellFormed(t) && Stable(t)
    ensures Scan(t) == t
  {
    hide Step, WellFormed, Stable, Scan;
    if t == [] {
      NothingIsStable();
    } else {
      StableUnfold(t);
      ScanUnfold(t);
      StableIsFixpoint(t[Step(t).len..]);
    }
  }

  // ---- What follows a replaced value ------------------------------------------------------

  /** How much a kind would replace beyond a replacement, when `y` follows it. */
  function RestLen(kind: Kind, y: seq<Byte>): (n: nat)
    ensures n <= |y|
  {
    if kind.Lower? then Until(y, EndsValue) else ValueLen(kind, y)
  }

  /** A byte that ends the value of this kind and is not replaced with it. */
  predicate Closes(kind: Kind, b: Byte) {
    match kind
    case Explicit => EndsValue(b) && !IsQuote(b)
    case Bearer => b == '\'' as int
    case Flag => IsWhitespace(b)
    case Snake => EndsSnakeValue(b)
    case Lower => EndsValue(b)
    case _ => true
  }

  lemma {:induction false} RunAfterRedacted(y: seq<Byte>, stop: Byte -> bool)
    requires forall j :: 0 <= j < |REDACTED| ==> !stop(REDACTED[j])
    ensures Until(REDACTED + y, stop) == 10 + Until(y, stop)
  {
    UntilAcross([], REDACTED, y, 0, stop);
    assert [] + REDACTED + y == REDACTED + y && (REDACTED + y)[0..] == REDACTED + y;
  }

  lemma {:induction false} AfterRedacted(kind: Kind, y: seq<Byte>)
    requires kind.KeepsPrefix()
    ensures ValueLen(kind, REDACTED + y) == 10 + RestLen(kind, y)
  {
    hide Until, QuotedLen;
    var v := REDACTED + y;
    match kind
    case Explicit =>
      RunAfterRedacted(y, EndsValue);
      assert v[10 + Until(y, EndsValue)..] == y[Until(y, EndsValue)..];
    case Bearer =>
      RunAfterRedacted(y, EndsBearer);
      assert v[10 + Until(y, EndsBearer)..] == y[Until(y, EndsBearer)..];
    case Flag => RunAfterRedacted(y, IsWhitespace);
    case Snake => RunAfterRedacted(y, EndsSnakeValue);
    case Lower => RunAfterRedacted(y, EndsValue);
  }

  lemma {:induction false} RestIsEmpty(kind: Kind, y: seq<Byte>)
    requires kind.KeepsPrefix()
    ensures RestLen(kind, y) == 0 <==> y == [] || Closes(kind, y[0])
  {
    if y != [] && kind.Bearer? {
      assert y[0..] == y;
    }
  }

  /** What is replaced beyond a replacement holds a quote or white space, or runs up to a delimiter. */
  lemma {:induction false} RestStops(kind: Kind, y: seq<Byte>)
    requires kind.KeepsPrefix()
    requires forall j :: 0 <= j < RestLen(kind, y) ==> y[j] in REDACTED
    ensures var n := RestLen(kind, y); n < |y| ==> EndsValue(y[n]) || IsWhitespace(y[n])
  {
    hide QuotedLen;
    match kind
    case Bearer =>
      var u := Until(y, EndsBearer);
      if u < |y| && IsWhitespace(y[u]) {
        assert y[u..][0] == y[u];
      }
    case _ =>
  }

  // ---- No step makes up for another -------------------------------------------------------

  /** A step writes no byte that it did not read, except for those of the replacement. */
  lemma {:induction false} StepCount(s: seq<Byte>, b: Byte)
    requires WellFormed(s) && s != [] && b !in REDACTED
    ensures Step(s).len <= |s| && multiset(Step(s).text)[b] <= multiset(s[..Step(s).len])[b]
  {
    hide Step, KindOf, KeptLen, ValueLen, WellFormed;
    StableUnfold(s);
    if KindOf(s).Copy? {
      CopyStep(s);
    } else if KindOf(s).Token? {
      TokenStep(s);
    } else {
      PrefixStep(s);
      var k, n := KeptLen(s), Step(s).len;
      assert s[..n] == s[..k] + s[k..n];
    }
  }

  lemma {:induction false} ScanCount(s: seq<Byte>, b: Byte)
    requires WellFormed(s) && b !in REDACTED
    ensures multiset(Scan(s))[b] <= multiset(s)[b]
  {
    hide Step, WellFormed, Scan;
    if s == [] {
      NothingIsStable();
    } else {
      ScanUnfold(s);
      StepCount(s, b);
      var n := Step(s).len;
      ScanCount(s[n..], b);
      assert s == s[..n] + s[n..];
    }
  }

  /** The scan of a text that starts with a delimiter starts with it too. */
  lemma {:induction false} DelimiterStays(u: seq<Byte>)
    requires WellFormed(u) && u != [] && (EndsValue(u[0]) || IsWhitespace(u[0]))
    ensures Scan(u) != [] && Scan(u)[0] == u[0]
  {
    hide Step, WellFormed, Scan, KindOf;
    ScanUnfold(u);
    if KindOf(u).Token? {
      TokenStep(u);
    }
    FirstByteKept(u);
  }

  lemma {:induction false} NoOtherByte(x: seq<Byte>, u: seq<Byte>, b: Byte)
    requires WellFormed(u) && Scan(u) == x + u && b !in REDACTED
    ensures b !in x
  {
    hide WellFormed, Scan;
    ScanCount(u, b);
    assert multiset(x)[b] == 0;
  }

  /** If the scan of what follows makes up for what was replaced, nothing was. */
  lemma {:induction false} NothingMadeUp(kind: Kind, y: seq<Byte>)
    requires kind.KeepsPrefix()
    requires WellFormed(y[RestLen(kind, y)..]) && Scan(y[RestLen(kind, y)..]) == y
    ensures RestLen(kind, y) == 0
  {
    hide Step, WellFormed, Scan, RestLen, EndsValue, IsWhitespace;
    var n := RestLen(kind, y);
    var x, u := y[..n], y[n..];
    assert y == x + u;
    forall b: Byte | b !in REDACTED ensures b !in x {
      NoOtherByte(x, u, b);
    }
    assert forall j :: 0 <= j < n ==> x[j] == y[j] && x[j] in x;
    RestStops(kind, y);
    if n > 0 {
      if u == [] {
        NothingIsStable();
      } else {
        assert u[0] == y[n];
        DelimiterStays(u);
        LettersDoNotStop(y[0]);
      }
    }
  }

  lemma {:induction false} LettersDoNotStop(b: Byte)
    requires b in REDACTED
    ensures !EndsValue(b) && !IsWhitespace(b)
  {
  }

  lemma {:induction false} NoTokenAtReplacement(t: seq<Byte>)
    requires t != [] && Step(t).text <= t
    ensures !KindOf(t).Token?
  {
    hide Step, KindOf;
    if KindOf(t).Token? {
      TokenStep(t);
    }
  }

  /** The first step of a text that is left alone leaves its part alone. */
  lemma {:induction false} FirstStepIsIdentity(t: seq<Byte>)
    requires WellFormed(t) && t != [] && Scan(t) == t
    ensures var n := Step(t).len; n <= |t| && Step(t).text == t[..n]
  {
    hide Step, WellFormed, Scan, KindOf, KeptLen, ValueLen, RestLen;
    ScanUnfold(t);
    var e := Step(t);
    NoTokenAtReplacement(t);
    if KindOf(t).Copy? {
      CopyStep(t);
    } else {
      PrefixStep(t);
      var k := KeptLen(t);
      var y := t[k + 10..];
      assert e.text == t[..k + 10];
      assert t[k..] == REDACTED + y;
      AfterRedacted(KindOf(t), y);
      assert t[e.len..] == y[RestLen(KindOf(t), y)..];
      assert Scan(t[e.len..]) == y;
      NothingMadeUp(KindOf(t), y);
    }
  }

  lemma {:induction false} FixpointIsStable(t: seq<Byte>)
    requires WellFormed(t) && Scan(t) == t
    ensures Stable(t)
  {
    hide Step, WellFormed, Stable, Scan;
    if t == [] {
      NothingIsStable();
    } else {
      FirstStepIsIdentity(t);
      ScanUnfold(t);
      StableUnfold(t);
      var n := Step(t).len;
      assert t == t[..n] + t[n..];
      assert Scan(t[n..]) == t[n..];
      FixpointIsStable(t[n..]);
    }
  }

  /** A command is left alone exactly when every step leaves its part alone. */
  lemma {:induction false} FixpointIff(t: seq<Byte>)
    requires WellFormed(t)
    ensures Scan(t) == t <==> Stable(t)
  {
    hide Step, WellFormed, Stable, Scan;
    if Stable(t) {
      StableIsFixpoint(t);
    }
    if Scan(t) == t {
      FixpointIsStable(t);
    }
  }
}
