/**
 The sanitizer as a recursive scan over the remaining suffix, and what holds of every run:
 each step advances to a character boundary, the output is well-formed UTF-8, and it is
 never longer than 7/2 of the input.
 */
module SanitizerScan {
  import opened Wrappers
  import opened Utf8
  import opened Spans
  import opened Sanitizer

  /** What every step must satisfy for the scan to be safe and its output bounded. */
  ghost predicate Sound(s: seq<Byte>, e: Edit) {
    1 <= e.len <= |s| && IsBoundary(s, e.len) && 2 * |e.text| <= 7 * e.len
  }

  lemma {:induction false} QuotedBoundary(s: seq<Byte>)
    requires WellFormed(s) && s != [] && IsQuote(s[0])
    ensures IsBoundary(s, QuotedLen(s))
  {
    var n := QuotedLen(s);
    if s[n - 1] == s[0] {
      AfterAscii(s, n - 1);
    }
  }

  lemma {:induction false} ValueBoundary(s: seq<Byte>)
    requires WellFormed(s)
    ensures IsBoundary(s, PlainThenQuotedLen(s)) && IsBoundary(s, QuotedOrPlainLen(s))
  {
    var u := Until(s, EndsValue);
    if u < |s| && IsQuote(s[u]) {
      Split(s, u);
      QuotedBoundary(s[u..]);
    }
  }

  /** A value that starts after the equals sign ends at a boundary of the whole. */
  lemma {:induction false} AssignmentBoundary(s: seq<Byte>, eq: nat)
    requires WellFormed(s) && eq < |s| && s[eq] == EQUALS
    ensures IsBoundary(s, eq + 1 + PlainThenQuotedLen(s[eq + 1..]))
    ensures IsBoundary(s, eq + 1 + QuotedOrPlainLen(s[eq + 1..]))
  {
    hide PlainThenQuotedLen, QuotedOrPlainLen, WellFormed;
    AfterAscii(s, eq);
    Split(s, eq + 1);
    ValueBoundary(s[eq + 1..]);
  }

  lemma {:induction false} ExplicitKeyEnds(s: seq<Byte>)
    requires ExplicitAssignment(s).Some?
    ensures var n := ExplicitAssignment(s).value.keyLen; 5 <= n < |s| && s[n] == EQUALS
  {
  }

  lemma {:induction false} ExplicitSound(s: seq<Byte>)
    requires WellFormed(s) && ExplicitAssignment(s).Some?
    ensures Sound(s, RedactValue(s, ExplicitAssignment(s).value))
  {
    hide ExplicitKeyLen, PlainThenQuotedLen, WellFormed;
    ExplicitKeyEnds(s);
    AssignmentBoundary(s, ExplicitAssignment(s).value.keyLen);
  }

  lemma {:induction false} BearerSound(s: seq<Byte>)
    requires WellFormed(s) && BEARER <= s
    ensures Sound(s, RedactBearer(s))
  {
    var end := 7 + Until(s[7..], EndsBearer);
    var spaces := Until(s[end..], NotWhitespace);
    if spaces > 0 {
      assert IsWhitespace(s[end..][spaces - 1]);
      AfterAscii(s, end + spaces - 1);
    }
  }

  lemma {:induction false} AwsSound(s: seq<Byte>)
    requires AwsKeyLen(s).Some?
    ensures Sound(s, Edit(REDACTED, AwsKeyLen(s).value))
  {
  }

  lemma {:induction false} GithubSound(s: seq<Byte>)
    requires WellFormed(s) && GithubTokenLen(s).Some?
    ensures Sound(s, Edit(REDACTED, GithubTokenLen(s).value))
  {
    var n := GithubTokenLen(s).value;
    assert !NotAlphanumeric(s[4..][n - 5]);
    AfterAscii(s, n - 1);
  }

  lemma {:induction false} PrefixedKeySound(s: seq<Byte>, prefix: seq<Byte>, minChars: nat)
    requires PrefixedKeyLen(s, prefix, minChars).Some? && minChars >= 3
    ensures Sound(s, Edit(REDACTED, PrefixedKeyLen(s, prefix, minChars).value))
  {
  }

  lemma {:induction false} OpenAiSound(s: seq<Byte>)
    requires OpenAiKeyLen(s).Some?
    ensures Sound(s, Edit(REDACTED, OpenAiKeyLen(s).value))
  {
    if PrefixedKeyLen(s, Ascii("sk-proj-"), 16).Some? {
      PrefixedKeySound(s, Ascii("sk-proj-"), 16);
    } else if PrefixedKeyLen(s, Ascii("sk-svcacct-"), 16).Some? {
      PrefixedKeySound(s, Ascii("sk-svcacct-"), 16);
    } else if PrefixedKeyLen(s, Ascii("sk-admin-"), 16).Some? {
      PrefixedKeySound(s, Ascii("sk-admin-"), 16);
    } else {
      PrefixedKeySound(s, Ascii("sk-"), 48);
    }
  }

  lemma {:induction false} JwtSound(s: seq<Byte>)
    requires JwtLen(s).Some?
    ensures Sound(s, Edit(REDACTED, JwtLen(s).value))
  {
  }

  lemma {:induction false} FlagNameAscii(s: seq<Byte>)
    ensures forall k :: 0 <= k < FlagNameLen(s) ==> s[k] <= 0x7F
  {
  }

  lemma {:induction false} FlagAscii(s: seq<Byte>)
    requires SecretFlagLen(s).Some?
    ensures 9 <= SecretFlagLen(s).value <= |s|
    ensures forall k :: 0 <= k < SecretFlagLen(s).value ==> s[k] <= 0x7F
  {
    var blanks := Until(s, NotBlank);
    FlagNameAscii(s[blanks..]);
    forall k | blanks <= k < SecretFlagLen(s).value ensures s[k] <= 0x7F {
      assert s[k] == s[blanks..][k - blanks];
    }
  }

  lemma {:induction false} FlagSound(s: seq<Byte>)
    requires SecretFlagLen(s).Some?
    ensures Sound(s, RedactFlag(s, SecretFlagLen(s).value))
  {
    FlagAscii(s);
  }

  lemma {:induction false} SnakeSound(s: seq<Byte>)
    requires SnakeAssignment(s).Some?
    ensures Sound(s, RedactValue(s, SnakeAssignment(s).value))
  {
  }

  lemma {:induction false} LowerKeyLength(key: seq<Byte>)
    requires IsLowerSecretKey(key)
    ensures |key| >= 4
  {
  }

  lemma {:induction false} LowerSound(s: seq<Byte>)
    requires WellFormed(s) && LowerAssignment(s).Some?
    ensures Sound(s, RedactValue(s, LowerAssignment(s).value))
  {
    hide QuotedOrPlainLen, WellFormed;
    var a := LowerAssignment(s).value;
    LowerKeyLength(s[..a.keyLen]);
    AssignmentBoundary(s, a.keyLen);
  }

  lemma {:induction false} RedactedText(head: seq<Byte>)
    requires WellFormed(head)
    ensures WellFormed(head + REDACTED) && WellFormed(head + [EQUALS] + REDACTED)
  {
    AsciiWellFormed(REDACTED);
    AsciiWellFormed([EQUALS]);
    Concat(head, REDACTED);
    Concat(head, [EQUALS]);
    Concat(head + [EQUALS], REDACTED);
  }

  /** An assignment's key ends at the equals sign, hence at a boundary. */
  lemma {:induction false} AssignmentText(s: seq<Byte>, a: Assignment)
    requires WellFormed(s) && a.keyLen < |s| && s[a.keyLen] == EQUALS
    ensures WellFormed(RedactValue(s, a).text)
  {
    Split(s, a.keyLen);
    RedactedText(s[..a.keyLen]);
  }

  lemma {:induction false} KeyEnds(s: seq<Byte>)
    ensures SnakeAssignment(s).Some? ==> var n := SnakeAssignment(s).value.keyLen; n < |s| && s[n] == EQUALS
    ensures LowerAssignment(s).Some? ==> var n := LowerAssignment(s).value.keyLen; n < |s| && s[n] == EQUALS
  {
    hide IsSnakeKey, IsLowerSecretKey, QuotedOrPlainLen;
  }

  lemma {:induction false} DetectedText(s: seq<Byte>)
    requires WellFormed(s) && Detect(s).Some?
    ensures WellFormed(Detect(s).value.text)
  {
    hide WellFormed, ExplicitAssignment, AwsKeyLen, GithubTokenLen, OpenAiKeyLen, SecretFlagLen, JwtLen,
         SnakeAssignment, LowerAssignment;
    KeyEnds(s);
    if ExplicitAssignment(s).Some? {
      ExplicitKeyEnds(s);
      AssignmentText(s, ExplicitAssignment(s).value);
    } else if BearerLen(s).Some? {
      AsciiWellFormed(BEARER);
      RedactedText(BEARER);
    } else if Detect(s).value.text == REDACTED {
      AsciiWellFormed(REDACTED);
    } else if SecretFlagLen(s).Some? {
      FlagAscii(s);
      AsciiWellFormed(s[..SecretFlagLen(s).value]);
      RedactedText(s[..SecretFlagLen(s).value]);
    } else if SnakeAssignment(s).Some? {
      AssignmentText(s, SnakeAssignment(s).value);
    } else {
      AssignmentText(s, LowerAssignment(s).value);
    }
  }

  lemma {:induction false} DetectSound(s: seq<Byte>)
    requires WellFormed(s) && Detect(s).Some?
    ensures Sound(s, Detect(s).value)
    ensures WellFormed(Detect(s).value.text)
  {
    DetectedText(s);
    if ExplicitAssignment(s).Some? {
      ExplicitSound(s);
    } else if BearerLen(s).Some? {
      BearerSound(s);
    } else if AwsKeyLen(s).Some? {
      AwsSound(s);
    } else if GithubTokenLen(s).Some? {
      GithubSound(s);
    } else if OpenAiKeyLen(s).Some? {
      OpenAiSound(s);
    } else if SecretFlagLen(s).Some? {
      FlagSound(s);
    } else if JwtLen(s).Some? {
      JwtSound(s);
    } else if SnakeAssignment(s).Some? {
      SnakeSound(s);
    } else {
      LowerSound(s);
    }
  }

  /** Every step writes something. */
  lemma {:induction false} StepWrites(s: seq<Byte>)
    requires WellFormed(s) && s != []
    ensures Step(s).text != []
  {
    hide WellFormed, ExplicitAssignment, BearerLen, AwsKeyLen, GithubTokenLen, OpenAiKeyLen, SecretFlagLen, JwtLen,
         SnakeAssignment, LowerAssignment;
    FirstChar(s);
    StepSound(s);
  }

  lemma {:induction false} StepSound(s: seq<Byte>)
    requires WellFormed(s) && s != []
    ensures Sound(s, Step(s)) && WellFormed(Step(s).text) && WellFormed(s[Step(s).len..])
  {
    if Detect(s).Some? {
      DetectSound(s);
    } else {
      FirstChar(s);
    }
    Split(s, Step(s).len);
  }

  /** The sanitized form of `s`: the result depends on nothing before `s`. */
  function Scan(s: seq<Byte>): seq<Byte>
    requires WellFormed(s)
  {
    if s == [] then [] else
      StepSound(s);
      Step(s).text + Scan(s[Step(s).len..])
  }

  lemma {:induction false} ScanUnfold(s: seq<Byte>)
    requires WellFormed(s) && s != []
    ensures var n := Step(s).len; 1 <= n <= |s| && WellFormed(s[n..]) && Scan(s) == Step(s).text + Scan(s[n..])
  {
    hide Step;
    StepSound(s);
  }

  lemma {:induction false} OutputWellFormed(s: seq<Byte>)
    requires WellFormed(s)
    ensures WellFormed(Scan(s))
  {
    if s != [] {
      StepSound(s);
      OutputWellFormed(s[Step(s).len..]);
      Concat(Step(s).text, Scan(s[Step(s).len..]));
    }
  }

  lemma {:induction false} OutputBound(s: seq<Byte>)
    requires WellFormed(s)
    ensures 2 * |Scan(s)| <= 7 * |s|
  {
    if s != [] {
      StepSound(s);
      OutputBound(s[Step(s).len..]);
    }
  }

  /** The bound is tight: a three-letter upper-case key with an empty value attains it. */
  lemma {:induction false} OutputBoundAttained(key: seq<Byte>)
    requires |key| == 3 && forall k :: 0 <= k < 3 ==> IsUpper(key[k])
    ensures WellFormed(key + [EQUALS])
    ensures Scan(key + [EQUALS]) == key + [EQUALS] + REDACTED
    ensures 2 * |Scan(key + [EQUALS])| == 7 * |key + [EQUALS]|
  {
    var s := key + [EQUALS];
    AsciiWellFormed(s);
    UntilIs(s, Is(EQUALS), 3);
    assert s[..3] == key && IsUpper(key[0]);
    assert Step(s) == Edit(key + [EQUALS] + REDACTED, 4);
    assert Scan(s[4..]) == [];
  }
}
