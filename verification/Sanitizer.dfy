/**
 What each detector of the command sanitizer recognises at the front of a byte string,
 and the scanner built from them. Everything here looks only at the remaining suffix.
 */
module Sanitizer {
  import opened Wrappers
  import opened Utf8
  import opened Spans

  const REDACTED: seq<Byte> := Ascii("[REDACTED]")
  const BEARER: seq<Byte> := Ascii("Bearer ")
  const EQUALS: Byte := '=' as int

  // ---- Byte classes ---------------------------------------------------------------

  predicate IsQuote(b: Byte) { b == '\'' as int || b == '"' as int }
  predicate IsDigit(b: Byte) { '0' as int <= b <= '9' as int }
  predicate IsLower(b: Byte) { 'a' as int <= b <= 'z' as int }
  predicate IsUpper(b: Byte) { 'A' as int <= b <= 'Z' as int }
  predicate IsBlank(b: Byte) { b == ' ' as int || b == '\t' as int }
  predicate IsLineSpace(b: Byte) { IsBlank(b) || b == '\n' as int || b == '\r' as int }

  /** Rust's `is_ascii_whitespace`, which also accepts the form feed. */
  predicate IsWhitespace(b: Byte) { IsLineSpace(b) || b == 0x0C }

  /** The eight bytes that end the value of an assignment. */
  predicate EndsValue(b: Byte) { IsLineSpace(b) || IsQuote(b) || b == ',' as int || b == '&' as int }

  predicate EndsBearer(b: Byte) { IsWhitespace(b) || b == '\'' as int }
  predicate EndsAwsKey(b: Byte) { IsLineSpace(b) || IsQuote(b) || b == ',' as int }
  predicate EndsSnakeValue(b: Byte) { EndsValue(b) && b != '\r' as int }
  predicate NotAlphanumeric(b: Byte) { !IsDigit(b) && !IsLower(b) && !IsUpper(b) }
  predicate NotWhitespace(b: Byte) { !IsWhitespace(b) }
  predicate NotBlank(b: Byte) { !IsBlank(b) }

  // ---- Detectors ------------------------------------------------------------------

  /** A key of `keyLen` bytes whose value, after the equals sign, lies in [valueStart, valueEnd). */
  datatype Assignment = Assignment(keyLen: nat, valueStart: nat, valueEnd: nat)

  /** The length of the quoted text at the front of `s`, with its closing quote if there is one. */
  function QuotedLen(s: seq<Byte>): (n: nat)
    requires s != []
    ensures 1 <= n <= |s|
  {
    var u := Until(s[1..], Is(s[0]));
    if 1 + u < |s| then 2 + u else 1 + u
  }

  /** The length of a value that runs up to a delimiter, and of quoted text right after it. */
  function PlainThenQuotedLen(s: seq<Byte>): (n: nat)
    ensures n <= |s|
  {
    var u := Until(s, EndsValue);
    if u < |s| && IsQuote(s[u]) then u + QuotedLen(s[u..]) else u
  }

  /** The length of a value that is either quoted or runs up to a delimiter. */
  function QuotedOrPlainLen(s: seq<Byte>): (n: nat)
    ensures n <= |s|
  {
    if s != [] && IsQuote(s[0]) then QuotedLen(s) else Until(s, EndsValue)
  }

  function ExplicitKeyLen(s: seq<Byte>): nat {
    if Ascii("token=") <= s then 5
    else if Ascii("password=") <= s then 8
    else if Ascii("api_key=") <= s then 7
    else 0
  }

  /** `token=`, `password=` or `api_key=`, the value, and any quoted text right after it. */
  function ExplicitAssignment(s: seq<Byte>): Option<Assignment> {
    var keyLen := ExplicitKeyLen(s);
    if keyLen == 0 then None else
      Some(Assignment(keyLen, keyLen + 1, keyLen + 1 + PlainThenQuotedLen(s[keyLen + 1..])))
  }

  function BearerLen(s: seq<Byte>): Option<nat> {
    if BEARER <= s then Some(7) else None
  }

  function AwsKeyLen(s: seq<Byte>): Option<nat> {
    if Ascii("AKIA") <= s && Until(s[4..], EndsAwsKey) >= 4
    then Some(4 + Until(s[4..], EndsAwsKey)) else None
  }

  predicate HasGithubPrefix(s: seq<Byte>) {
    Ascii("ghp_") <= s || Ascii("gho_") <= s || Ascii("ght_") <= s || Ascii("ghs_") <= s
  }

  function GithubTokenLen(s: seq<Byte>): Option<nat> {
    if HasGithubPrefix(s) && Until(s[4..], NotAlphanumeric) >= 8
    then Some(4 + Until(s[4..], NotAlphanumeric)) else None
  }

  function PrefixedKeyLen(s: seq<Byte>, prefix: seq<Byte>, minChars: nat): Option<nat> {
    if prefix <= s && Until(s[|prefix|..], EndsValue) >= minChars
    then Some(|prefix| + Until(s[|prefix|..], EndsValue)) else None
  }

  function OpenAiKeyLen(s: seq<Byte>): Option<nat> {
    if PrefixedKeyLen(s, Ascii("sk-proj-"), 16).Some? then PrefixedKeyLen(s, Ascii("sk-proj-"), 16)
    else if PrefixedKeyLen(s, Ascii("sk-svcacct-"), 16).Some? then PrefixedKeyLen(s, Ascii("sk-svcacct-"), 16)
    else if PrefixedKeyLen(s, Ascii("sk-admin-"), 16).Some? then PrefixedKeyLen(s, Ascii("sk-admin-"), 16)
    else PrefixedKeyLen(s, Ascii("sk-"), 48)
  }

  function FlagNameLen(s: seq<Byte>): (n: nat)
    ensures n <= |s|
  {
    if Ascii("--secret ") <= s then 9 else if Ascii("--api-key ") <= s then 10 else 0
  }

  /** The length of optional blanks followed by `--secret ` or `--api-key `. */
  function SecretFlagLen(s: seq<Byte>): Option<nat> {
    var blanks := Until(s, NotBlank);
    if FlagNameLen(s[blanks..]) == 0 then None else Some(blanks + FlagNameLen(s[blanks..]))
  }

  function CountDots(s: seq<Byte>): nat {
    if s == [] then 0 else CountDots(s[..|s| - 1]) + if s[|s| - 1] == '.' as int then 1 else 0
  }

  function JwtLen(s: seq<Byte>): Option<nat> {
    if !(Ascii("eyJ") <= s) then None else
      var end := 3 + Until(s[3..], IsLineSpace);
      if CountDots(s[3..end]) >= 2 && 50 <= end <= 1200 then Some(end) else None
  }

  predicate IsSnakeKey(key: seq<Byte>) {
    && 3 <= |key| <= 64
    && (forall k :: 0 <= k < |key| ==> IsUpper(key[k]) || IsDigit(key[k]) || key[k] == '_' as int)
    && !IsDigit(key[0])
    && (exists k :: 0 <= k < |key| && IsUpper(key[k]))
  }

  /** An upper-case snake-case key before the first equals sign. */
  function SnakeAssignment(s: seq<Byte>): Option<Assignment> {
    var eq := Until(s, Is(EQUALS));
    if eq == |s| || !IsSnakeKey(s[..eq]) then None else
      Some(Assignment(eq, eq + 1, eq + 1 + Until(s[eq + 1..], EndsSnakeValue)))
  }

  predicate HasSuffix(s: seq<Byte>, suffix: seq<Byte>) {
    |suffix| <= |s| && s[|s| - |suffix|..] == suffix
  }

  predicate IsLowerSecretKey(key: seq<Byte>) {
    && (forall k :: 0 <= k < |key| ==> IsLower(key[k]) || IsDigit(key[k]) || key[k] == '_' as int)
    && (|| HasSuffix(key, Ascii("_key")) || HasSuffix(key, Ascii("_token"))
        || HasSuffix(key, Ascii("_secret")) || HasSuffix(key, Ascii("_password")))
  }

  /** A lower-case key with a secret suffix before the first equals sign; the value may be quoted. */
  function LowerAssignment(s: seq<Byte>): Option<Assignment> {
    var eq := Until(s, Is(EQUALS));
    if eq == |s| || !IsLowerSecretKey(s[..eq]) then None else
      Some(Assignment(eq, eq + 1, eq + 1 + QuotedOrPlainLen(s[eq + 1..])))
  }

  // ---- One step and the whole scan ------------------------------------------------

  /** `text` is written in place of the first `len` bytes. */
  datatype Edit = Edit(text: seq<Byte>, len: nat)

  function RedactValue(s: seq<Byte>, a: Assignment): Edit
    requires a.keyLen <= |s|
  {
    Edit(s[..a.keyLen] + [EQUALS] + REDACTED, a.valueEnd)
  }

  function RedactBearer(s: seq<Byte>): Edit
    requires BEARER <= s
  {
    var end := 7 + Until(s[7..], EndsBearer);
    Edit(BEARER + REDACTED, end + Until(s[end..], NotWhitespace))
  }

  function RedactFlag(s: seq<Byte>, flagLen: nat): Edit
    requires flagLen <= |s|
  {
    Edit(s[..flagLen] + REDACTED, flagLen + Until(s[flagLen..], IsWhitespace))
  }

  /** Tokens recognised by their own prefix: Bearer, AWS, GitHub and OpenAI, in this order. */
  function DetectToken(s: seq<Byte>): Option<Edit> {
    if BearerLen(s).Some? then Some(RedactBearer(s))
    else if AwsKeyLen(s).Some? then Some(Edit(REDACTED, AwsKeyLen(s).value))
    else if GithubTokenLen(s).Some? then Some(Edit(REDACTED, GithubTokenLen(s).value))
    else if OpenAiKeyLen(s).Some? then Some(Edit(REDACTED, OpenAiKeyLen(s).value))
    else None
  }

  /** Keys recognised by their shape, the upper-case form before the lower-case one. */
  function DetectKey(s: seq<Byte>): Option<Edit> {
    if SnakeAssignment(s).Some? then Some(RedactValue(s, SnakeAssignment(s).value))
    else if LowerAssignment(s).Some? then Some(RedactValue(s, LowerAssignment(s).value))
    else None
  }

  /** The first detector, in order of priority, that recognises the front of `s`. */
  function Detect(s: seq<Byte>): Option<Edit> {
    if ExplicitAssignment(s).Some? then Some(RedactValue(s, ExplicitAssignment(s).value))
    else if DetectToken(s).Some? then DetectToken(s)
    else if SecretFlagLen(s).Some? then Some(RedactFlag(s, SecretFlagLen(s).value))
    else if JwtLen(s).Some? then Some(Edit(REDACTED, JwtLen(s).value))
    else DetectKey(s)
  }

  /** Redact what is detected, or copy one character. */
  function Step(s: seq<Byte>): Edit
    requires s != []
  {
    if Detect(s).Some? then Detect(s).value else Edit(s[..HeadLen(s)], HeadLen(s))
  }
}
