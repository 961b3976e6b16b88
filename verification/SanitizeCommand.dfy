/**
 The sanitizer as it runs: detectors that look ahead from a byte index, and one loop that
 copies or redacts. Each detector is proved to agree with its specification on the suffix,
 and the loop with the recursive scan. String slices carry their boundary obligations.
 */
module SanitizeCommand {
  import opened Wrappers
  import opened Utf8
  import opened Spans
  import opened Sanitizer
  import opened SanitizerScan
  import SanitizerReference

  /** A found text, as the half-open range of byte positions [start, end). */
  datatype Range = Range(start: nat, end: nat)

  /** The positions of an assignment found `i` bytes into the command. */
  function ShiftAssignment(a: Option<Assignment>, i: nat): Option<Assignment> {
    if a.None? then None
    else Some(Assignment(a.value.keyLen, i + a.value.valueStart, i + a.value.valueEnd))
  }

  function ShiftLen(len: Option<nat>, i: nat): Option<nat> {
    if len.None? then None else Some(i + len.value)
  }

  function ShiftRange(len: Option<nat>, i: nat): Option<Range> {
    if len.None? then None else Some(Range(i, i + len.value))
  }

  /** `&s[i..j]` of a Rust string, which aborts off a character boundary. */
  function StrSlice(s: seq<Byte>, i: nat, j: nat): seq<Byte>
    requires i <= j <= |s| && IsBoundary(s, i) && IsBoundary(s, j)
  {
    s[i..j]
  }

  predicate StartsWithAt(bytes: seq<Byte>, i: nat, pattern: seq<Byte>)
    ensures i <= |bytes| ==> (StartsWithAt(bytes, i, pattern) <==> pattern <= bytes[i..])
  {
    i + |pattern| <= |bytes| && bytes[i..i + |pattern|] == pattern
  }

  /** Skip the quoted text that starts at `from`, including its closing quote. */
  method SkipQuoted(bytes: seq<Byte>, from: nat) returns (end: nat)
    requires from < |bytes|
    ensures end == from + QuotedLen(bytes[from..]) <= |bytes|
  {
    var quote := bytes[from];
    end := ScanUntil(bytes, from + 1, Is(quote));
    assert bytes[from..][1..] == bytes[from + 1..];
    if end < |bytes| {
      end := end + 1;
    }
  }

  /** The end of an explicit assignment's value: a plain run, then quoted text right after it. */
  method PlainThenQuotedEnd(bytes: seq<Byte>, valueStart: nat) returns (valueEnd: nat)
    requires valueStart <= |bytes|
    ensures valueEnd == valueStart + PlainThenQuotedLen(bytes[valueStart..]) <= |bytes|
  {
    valueEnd := ScanUntil(bytes, valueStart, EndsValue);
    if valueEnd < |bytes| && IsQuote(bytes[valueEnd]) {
      assert bytes[valueStart..][valueEnd - valueStart..] == bytes[valueEnd..];
      valueEnd := SkipQuoted(bytes, valueEnd);
    }
  }

  method FindExplicitKey(bytes: seq<Byte>, i: nat) returns (keyLen: nat)
    requires i <= |bytes|
    ensures keyLen == ExplicitKeyLen(bytes[i..])
  {
    var patterns := [Ascii("token="), Ascii("password="), Ascii("api_key=")];
    for p := 0 to 3
      invariant forall q :: 0 <= q < p ==> !(patterns[q] <= bytes[i..])
    {
      if StartsWithAt(bytes, i, patterns[p]) {
        return |patterns[p]| - 1;
      }
    }
    assert patterns[0] == Ascii("token=") && patterns[1] == Ascii("password=") && patterns[2] == Ascii("api_key=");
    keyLen := 0;
  }

  method CheckAssignmentPattern(bytes: seq<Byte>, i: nat) returns (r: Option<Assignment>)
    requires i <= |bytes|
    ensures r == ShiftAssignment(ExplicitAssignment(bytes[i..]), i)
  {
    var keyLen := FindExplicitKey(bytes, i);
    if keyLen == 0 {
      return None;
    }
    var valueStart := i + keyLen + 1;
    var valueEnd := PlainThenQuotedEnd(bytes, valueStart);
    assert bytes[i..][keyLen + 1..] == bytes[valueStart..];
    r := Some(Assignment(keyLen, valueStart, valueEnd));
  }

  method CheckBearerPattern(bytes: seq<Byte>, i: nat) returns (r: Option<nat>)
    requires i <= |bytes|
    ensures r == ShiftLen(BearerLen(bytes[i..]), i)
  {
    r := if StartsWithAt(bytes, i, BEARER) then Some(i + |BEARER|) else None;
  }

  method CheckAwsKeyPattern(bytes: seq<Byte>, i: nat) returns (r: Option<Range>)
    requires i <= |bytes|
    ensures r == ShiftRange(AwsKeyLen(bytes[i..]), i)
  {
    if !StartsWithAt(bytes, i, Ascii("AKIA")) {
      return None;
    }
    var end := ScanUntil(bytes, i + 4, EndsAwsKey);
    assert bytes[i..][4..] == bytes[i + 4..];
    r := if end - i >= 8 then Some(Range(i, end)) else None;
  }

  method CheckGithubToken(bytes: seq<Byte>, i: nat) returns (r: Option<Range>)
    requires i <= |bytes|
    ensures r == ShiftRange(GithubTokenLen(bytes[i..]), i)
  {
    var prefixes := [Ascii("ghp_"), Ascii("gho_"), Ascii("ght_"), Ascii("ghs_")];
    for p := 0 to 4
      invariant forall q :: 0 <= q < p ==> !(prefixes[q] <= bytes[i..])
    {
      if StartsWithAt(bytes, i, prefixes[p]) {
        var end, count := i + 4, 0;
        while end < |bytes| && !EndsValue(bytes[end]) && !NotAlphanumeric(bytes[end])
          invariant i + 4 <= end <= |bytes| && count == end - (i + 4)
          invariant forall k :: i + 4 <= k < end ==> !NotAlphanumeric(bytes[k])
        {
          count := count + 1;
          end := end + 1;
        }
        UntilIs(bytes[i..][4..], NotAlphanumeric, count);
        return if count >= 8 then Some(Range(i, end)) else None;
      }
    }
    assert prefixes[0] == Ascii("ghp_") && prefixes[1] == Ascii("gho_") &&
           prefixes[2] == Ascii("ght_") && prefixes[3] == Ascii("ghs_");
    r := None;
  }

  method CheckOpenAiPrefix(bytes: seq<Byte>, i: nat, prefix: seq<Byte>, minChars: nat)
    returns (r: Option<Range>)
    requires i <= |bytes|
    ensures r == ShiftRange(PrefixedKeyLen(bytes[i..], prefix, minChars), i)
  {
    r := None;
    if StartsWithAt(bytes, i, prefix) {
      var end := ScanUntil(bytes, i + |prefix|, EndsValue);
      assert bytes[i..][|prefix|..] == bytes[i + |prefix|..];
      if end - (i + |prefix|) >= minChars {
        r := Some(Range(i, end));
      }
    }
  }

  method CheckOpenAiKey(bytes: seq<Byte>, i: nat) returns (r: Option<Range>)
    requires i <= |bytes|
    ensures r == ShiftRange(OpenAiKeyLen(bytes[i..]), i)
  {
    r := CheckOpenAiPrefix(bytes, i, Ascii("sk-proj-"), 16);
    if r.Some? { return; }
    r := CheckOpenAiPrefix(bytes, i, Ascii("sk-svcacct-"), 16);
    if r.Some? { return; }
    r := CheckOpenAiPrefix(bytes, i, Ascii("sk-admin-"), 16);
    if r.Some? { return; }
    r := CheckOpenAiPrefix(bytes, i, Ascii("sk-"), 48);
  }

  method FlagNameAt(bytes: seq<Byte>, pos: nat) returns (n: nat)
    requires pos <= |bytes|
    ensures n == FlagNameLen(bytes[pos..])
  {
    if StartsWithAt(bytes, pos, Ascii("--secret ")) {
      return 9;
    }
    if StartsWithAt(bytes, pos, Ascii("--api-key ")) {
      return 10;
    }
    n := 0;
  }

  lemma {:induction false} NoFlagAtEnd()
    ensures FlagNameLen([]) == 0
  {
  }

  method CheckCliSecretFlag(bytes: seq<Byte>, i: nat) returns (r: Option<nat>)
    requires i <= |bytes|
    ensures r == ShiftLen(SecretFlagLen(bytes[i..]), i)
  {
    hide FlagNameLen, WellFormed;
    NoFlagAtEnd();
    var pos := ScanUntil(bytes, i, NotBlank);
    assert bytes[i..][pos - i..] == bytes[pos..];
    if pos >= |bytes| {
      return None;
    }
    var n := FlagNameAt(bytes, pos);
    r := if n == 0 then None else Some(pos + n);
  }

  method CheckJwtPrefix(bytes: seq<Byte>, i: nat) returns (r: Option<Range>)
    requires i <= |bytes|
    ensures r == ShiftRange(JwtLen(bytes[i..]), i)
  {
    if !StartsWithAt(bytes, i, Ascii("eyJ")) {
      return None;
    }
    var end, dotCount := i + 3, 0;
    while end < |bytes| && !IsLineSpace(bytes[end])
      invariant i + 3 <= end <= |bytes| && dotCount == CountDots(bytes[i + 3..end])
      invariant forall k :: i + 3 <= k < end ==> !IsLineSpace(bytes[k])
    {
      assert bytes[i + 3..end + 1][..end - i - 3] == bytes[i + 3..end];
      if bytes[end] == '.' as int {
        dotCount := dotCount + 1;
      }
      end := end + 1;
    }
    UntilIs(bytes[i..][3..], IsLineSpace, end - i - 3);
    assert bytes[i..][3..end - i] == bytes[i + 3..end];
    r := if dotCount < 2 || !(50 <= end - i <= 1200) then None else Some(Range(i, end));
  }

  method CheckSnakeKey(key: seq<Byte>) returns (r: bool)
    ensures r <==> IsSnakeKey(key)
  {
    if |key| == 0 || |key| > 64 {
      return false;
    }
    var hasUpper := false;
    for k := 0 to |key|
      invariant forall j :: 0 <= j < k ==> IsUpper(key[j]) || IsDigit(key[j]) || key[j] == '_' as int
      invariant k > 0 ==> !IsDigit(key[0])
      invariant hasUpper <==> exists j :: 0 <= j < k && IsUpper(key[j])
    {
      if IsUpper(key[k]) {
        hasUpper := true;
      } else if key[k] == '_' as int {
      } else if IsDigit(key[k]) {
        if k == 0 {
          return false;
        }
      } else {
        return false;
      }
    }
    r := hasUpper && |key| >= 3;
  }

  method CheckSnakeKeyPattern(bytes: seq<Byte>, i: nat) returns (r: Option<Assignment>)
    requires i <= |bytes|
    ensures r == ShiftAssignment(SnakeAssignment(bytes[i..]), i)
  {
    hide IsSnakeKey, Until;
    var eqPos := ScanUntil(bytes, i, Is(EQUALS));
    if eqPos >= |bytes| {
      return None;
    }
    var key := bytes[i..eqPos];
    assert bytes[i..][..eqPos - i] == key;
    var isSnake := CheckSnakeKey(key);
    if !isSnake {
      return None;
    }
    var valueEnd := ScanUntil(bytes, eqPos + 1, EndsSnakeValue);
    assert bytes[i..][eqPos + 1 - i..] == bytes[eqPos + 1..];
    r := Some(Assignment(|key|, eqPos + 1, valueEnd));
  }

  method CheckLowerSecretKey(key: seq<Byte>) returns (r: bool)
    ensures r <==> IsLowerSecretKey(key)
  {
    if |key| < 3 {
      return false;
    }
    for k := 0 to |key|
      invariant forall j :: 0 <= j < k ==> IsLower(key[j]) || IsDigit(key[j]) || key[j] == '_' as int
    {
      if !(IsLower(key[k]) || IsDigit(key[k]) || key[k] == '_' as int) {
        return false;
      }
    }
    var suffixes := [Ascii("_key"), Ascii("_token"), Ascii("_secret"), Ascii("_password")];
    var matched := false;
    for p := 0 to 4
      invariant matched <==> exists q :: 0 <= q < p && HasSuffix(key, suffixes[q])
    {
      if HasSuffix(key, suffixes[p]) {
        matched := true;
      }
    }
    assert suffixes[0] == Ascii("_key") && suffixes[1] == Ascii("_token") &&
           suffixes[2] == Ascii("_secret") && suffixes[3] == Ascii("_password");
    r := matched;
  }

  method CheckLowercaseSecretSuffix(bytes: seq<Byte>, i: nat) returns (r: Option<Assignment>)
    requires i <= |bytes|
    ensures r == ShiftAssignment(LowerAssignment(bytes[i..]), i)
  {
    hide IsLowerSecretKey, Until, QuotedLen;
    var eqPos := ScanUntil(bytes, i, Is(EQUALS));
    if eqPos >= |bytes| {
      return None;
    }
    var key := bytes[i..eqPos];
    assert bytes[i..][..eqPos - i] == key;
    var isSecret := CheckLowerSecretKey(key);
    if !isSecret {
      return None;
    }
    var valueStart := eqPos + 1;
    var valueEnd := valueStart;
    assert bytes[i..][valueStart - i..] == bytes[valueStart..];
    if valueEnd < |bytes| && IsQuote(bytes[valueEnd]) {
      valueEnd := SkipQuoted(bytes, valueEnd);
    } else {
      valueEnd := ScanUntil(bytes, valueEnd, EndsValue);
    }
    r := Some(Assignment(|key|, valueStart, valueEnd));
  }

  /** The text and length of an assignment's replacement, from absolute positions. */
  method RedactAssignment(input: seq<Byte>, i: nat, found: Assignment, ghost a: Assignment) returns (e: Edit)
    requires i + found.keyLen < |input| && input[i + found.keyLen] == EQUALS
    requires IsBoundary(input, i) && i <= found.valueEnd
    requires a.keyLen == found.keyLen && i + a.valueEnd == found.valueEnd
    ensures e == RedactValue(input[i..], a)
  {
    var text := StrSlice(input, i, i + found.keyLen);
    assert input[i..][..found.keyLen] == text;
    e := Edit(text + [EQUALS] + REDACTED, found.valueEnd - i);
  }

  method RedactBearerAt(input: seq<Byte>, i: nat, afterPrefix: nat) returns (e: Edit)
    requires i <= |input| && BEARER <= input[i..] && afterPrefix == i + 7
    ensures e == RedactBearer(input[i..])
  {
    var end := ScanUntil(input, afterPrefix, EndsBearer);
    assert input[i..][7..] == input[afterPrefix..] && input[i..][end - i..] == input[end..];
    end := ScanUntil(input, end, NotWhitespace);
    e := Edit(BEARER + REDACTED, end - i);
  }

  method RedactFlagAt(input: seq<Byte>, i: nat, flagEnd: nat) returns (e: Edit)
    requires i <= flagEnd <= |input| && IsBoundary(input, i) && IsBoundary(input, flagEnd)
    ensures e == RedactFlag(input[i..], flagEnd - i)
  {
    hide Until, IsWhitespace;
    var text := StrSlice(input, i, flagEnd);
    var end := ScanUntil(input, flagEnd, IsWhitespace);
    assert input[i..][..flagEnd - i] == text && input[i..][flagEnd - i..] == input[flagEnd..];
    e := Edit(text + REDACTED, end - i);
  }

  lemma {:induction false} FlagBoundary(input: seq<Byte>, i: nat)
    requires i <= |input| && WellFormed(input[i..]) && SecretFlagLen(input[i..]).Some?
    ensures var n := SecretFlagLen(input[i..]).value; i + n <= |input| && IsBoundary(input, i + n)
  {
    var n := SecretFlagLen(input[i..]).value;
    FlagAscii(input[i..]);
    AfterAscii(input[i..], n - 1);
  }

  lemma {:induction false} BearerPrefix(s: seq<Byte>)
    requires BearerLen(s).Some?
    ensures BEARER <= s && BearerLen(s).value == 7
  {
  }

  method DetectTokenAt(input: seq<Byte>, i: nat) returns (edit: Option<Edit>)
    requires i < |input|
    ensures edit == DetectToken(input[i..])
  {
    hide BearerLen, AwsKeyLen, GithubTokenLen, OpenAiKeyLen, RedactBearer;
    var bearer := CheckBearerPattern(input, i);
    if bearer.Some? {
      BearerPrefix(input[i..]);
      var e := RedactBearerAt(input, i, bearer.value);
      return Some(e);
    }
    var token := CheckAwsKeyPattern(input, i);
    if token.Some? {
      return Some(Edit(REDACTED, token.value.end - i));
    }
    token := CheckGithubToken(input, i);
    if token.Some? {
      return Some(Edit(REDACTED, token.value.end - i));
    }
    token := CheckOpenAiKey(input, i);
    edit := if token.Some? then Some(Edit(REDACTED, token.value.end - i)) else None;
  }

  method DetectKeyAt(input: seq<Byte>, i: nat) returns (edit: Option<Edit>)
    requires i < |input| && IsBoundary(input, i)
    ensures edit == DetectKey(input[i..])
  {
    edit := None;
    var found := CheckSnakeKeyPattern(input, i);
    if found.Some? {
      var e := RedactAssignment(input, i, found.value, SnakeAssignment(input[i..]).value);
      return Some(e);
    }
    found := CheckLowercaseSecretSuffix(input, i);
    if found.Some? {
      var e := RedactAssignment(input, i, found.value, LowerAssignment(input[i..]).value);
      return Some(e);
    }
  }

  /** Try every detector at `i`, in order of priority. */
  method DetectAt(input: seq<Byte>, i: nat) returns (edit: Option<Edit>)
    requires i < |input| && IsBoundary(input, i) && WellFormed(input[i..])
    ensures edit == Detect(input[i..])
  {
    hide ExplicitAssignment, DetectToken, SecretFlagLen, JwtLen, DetectKey, RedactValue, RedactFlag, WellFormed;
    var found := CheckAssignmentPattern(input, i);
    if found.Some? {
      ExplicitKeyEnds(input[i..]);
      var e := RedactAssignment(input, i, found.value, ExplicitAssignment(input[i..]).value);
      return Some(e);
    }
    edit := DetectTokenAt(input, i);
    if edit.Some? {
      return;
    }
    var flagEnd := CheckCliSecretFlag(input, i);
    if flagEnd.Some? {
      FlagBoundary(input, i);
      var e := RedactFlagAt(input, i, flagEnd.value);
      return Some(e);
    }
    var token := CheckJwtPrefix(input, i);
    if token.Some? {
      return Some(Edit(REDACTED, token.value.end - i));
    }
    edit := DetectKeyAt(input, i);
  }

  /** The scan has written `result` for the first `i` bytes. */
  ghost predicate Scanned(input: seq<Byte>, i: nat, result: seq<Byte>)
    requires WellFormed(input)
  {
    i <= |input| && IsBoundary(input, i) && WellFormed(input[i..]) && result + Scan(input[i..]) == Scan(input)
  }

  /** Writing `e` takes the scan from position `i` of the input to its next position. */
  ghost predicate Advances(input: seq<Byte>, i: nat, e: Edit)
    requires i < |input| && WellFormed(input[i..])
  {
    && i < i + e.len <= |input|
    && IsBoundary(input, i + e.len)
    && WellFormed(input[i + e.len..])
    && Scan(input[i..]) == e.text + Scan(input[i + e.len..])
  }

  lemma {:induction false} StepAt(input: seq<Byte>, i: nat)
    requires i < |input| && IsBoundary(input, i) && WellFormed(input[i..])
    ensures Advances(input, i, Step(input[i..]))
  {
    hide Step;
    StepSound(input[i..]);
    var n := Step(input[i..]).len;
    assert input[i..][n..] == input[i + n..];
  }

  lemma {:induction false} Associative(a: seq<Byte>, b: seq<Byte>, c: seq<Byte>)
    ensures a + (b + c) == (a + b) + c
  {
  }

  lemma {:induction false} ScanStep(input: seq<Byte>, i: nat, result: seq<Byte>)
    requires WellFormed(input) && i < |input| && Scanned(input, i, result)
    ensures IsBoundary(input, i) && WellFormed(input[i..])
    ensures var e := Step(input[i..]);
            i + 1 <= i + e.len <= |input| && Scanned(input, i + e.len, result + e.text)
  {
    hide Step, Scan, WellFormed, IsBoundary;
    StepAt(input, i);
    var e := Step(input[i..]);
    Associative(result, e.text, Scan(input[i + e.len..]));
  }

  lemma {:induction false} ScanEnds(input: seq<Byte>, result: seq<Byte>)
    requires WellFormed(input)
    ensures Scanned(input, 0, [])
    ensures Scanned(input, |input|, result) ==> result == Scan(input)
  {
    hide Step, Detect;
    assert input[0..] == input && input[|input|..] == [];
    assert Scan([]) == [];
  }

  lemma {:induction false} CopyStep(input: seq<Byte>, i: nat)
    requires i < |input| && IsBoundary(input, i) && WellFormed(input[i..]) && Detect(input[i..]).None?
    ensures var n := LeadLen(input[i]);
            && i + n <= |input| && IsBoundary(input, i + n)
            && Step(input[i..]) == Edit(input[i..i + n], n)
  {
    hide Detect, WellFormed;
    FirstChar(input[i..]);
    assert input[i..][..LeadLen(input[i])] == input[i..i + LeadLen(input[i])];
  }

  lemma {:induction false} DetectedStep(s: seq<Byte>)
    requires s != [] && Detect(s).Some?
    ensures Step(s) == Detect(s).value
  {
  }

  method SanitizeCommand(input: seq<Byte>) returns (result: seq<Byte>)
    requires WellFormed(input)
    ensures result == Scan(input) && SanitizerReference.IsSanitized(input, result)
  {
    hide Detect, Step, Scan, Scanned, WellFormed, IsBoundary, SanitizerReference.IsSanitized;
    result := [];
    var i := 0;
    ScanEnds(input, []);
    while i < |input|
      invariant i <= |input| && Scanned(input, i, result)
      decreases |input| - i
    {
      ScanStep(input, i, result);
      var edit := DetectAt(input, i);
      if edit.Some? {
        DetectedStep(input[i..]);
        result := result + edit.value.text;
        i := i + edit.value.len;
        continue;
      }
      CopyStep(input, i);
      var charLen := if input[i] < 0x80 then 1
                     else if input[i] < 0xE0 then 2
                     else if input[i] < 0xF0 then 3
                     else 4;
      result := result + StrSlice(input, i, i + charLen);
      i := i + charLen;
    }
    ScanEnds(input, result);
    SanitizerReference.SanitizedIff(input, result);
  }
}
