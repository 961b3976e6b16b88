/**
 Bytes and well-formed UTF-8, as defined by the grammar in section 4 of RFC 3629.
 A Rust `&str` is always well-formed, and slicing one anywhere but at a character
 boundary aborts the program, so the modules that slice strings prove boundaries here.
 */
module Utf8 {
  type Byte = b: int | 0 <= b < 256

  predicate IsTail(b: Byte) {
    0x80 <= b <= 0xBF
  }

  /** One encoded character. */
  predicate IsChar(c: seq<Byte>) {
    || (|c| == 1 && c[0] <= 0x7F)
    || (|c| == 2 && 0xC2 <= c[0] <= 0xDF && IsTail(c[1]))
    || (|c| == 3 && IsTail(c[1]) && IsTail(c[2]) &&
        (|| (c[0] == 0xE0 && 0xA0 <= c[1])
         || 0xE1 <= c[0] <= 0xEC
         || (c[0] == 0xED && c[1] <= 0x9F)
         || 0xEE <= c[0] <= 0xEF))
    || (|c| == 4 && IsTail(c[1]) && IsTail(c[2]) && IsTail(c[3]) &&
        (|| (c[0] == 0xF0 && 0x90 <= c[1])
         || 0xF1 <= c[0] <= 0xF3
         || (c[0] == 0xF4 && c[1] <= 0x8F)))
  }

  /** The length of a character, as announced by its lead byte. */
  function LeadLen(b: Byte): nat {
    if b < 0x80 then 1 else if b < 0xE0 then 2 else if b < 0xF0 then 3 else 4
  }

  /** The length of the character at the front of `s`, or 0 if there is none. */
  function HeadLen(s: seq<Byte>): (n: nat)
    ensures n <= |s| && n <= 4
  {
    if s != [] && LeadLen(s[0]) <= |s| && IsChar(s[..LeadLen(s[0])]) then LeadLen(s[0]) else 0
  }

  predicate WellFormed(s: seq<Byte>) {
    s == [] || (HeadLen(s) > 0 && WellFormed(s[HeadLen(s)..]))
  }

  /** Rust's `str::is_char_boundary`. */
  predicate IsBoundary(s: seq<Byte>, i: nat) {
    i == 0 || i == |s| || (i < |s| && !IsTail(s[i]))
  }

  /** The bytes of an ASCII string literal. */
  function Ascii(s: string): (r: seq<Byte>)
    requires forall i :: 0 <= i < |s| ==> s[i] < 128 as char
    ensures |r| == |s|
    ensures forall i :: 0 <= i < |s| ==> r[i] == s[i] as int <= 0x7F
  {
    seq(|s|, i requires 0 <= i < |s| => s[i] as int)
  }

  lemma {:induction false} Split(s: seq<Byte>, i: nat)
    requires WellFormed(s) && i <= |s| && IsBoundary(s, i)
    ensures WellFormed(s[..i]) && WellFormed(s[i..])
  {
    if i == 0 {
      assert s[0..] == s;
    } else {
      var n := HeadLen(s);
      assert i >= n;
      Split(s[n..], i - n);
      assert s[n..][i - n..] == s[i..];
      assert s[..i][..n] == s[..n] && s[..i][n..] == s[n..][..i - n];
    }
  }

  /** A character at the front of `a` stays at the front when bytes are appended. */
  lemma {:induction false} HeadLenAppend(a: seq<Byte>, b: seq<Byte>)
    requires HeadLen(a) > 0
    ensures HeadLen(a + b) == HeadLen(a)
  {
    assert (a + b)[..HeadLen(a)] == a[..HeadLen(a)];
  }

  lemma {:induction false} Concat(a: seq<Byte>, b: seq<Byte>)
    requires WellFormed(a) && WellFormed(b)
    ensures WellFormed(a + b)
  {
    if a == [] {
      assert a + b == b;
    } else {
      var n := HeadLen(a);
      Concat(a[n..], b);
      HeadLenAppend(a, b);
      assert (a + b)[n..] == a[n..] + b;
    }
  }

  /** The position after an ASCII byte is a boundary. */
  lemma {:induction false} AfterAscii(s: seq<Byte>, i: nat)
    requires WellFormed(s) && i < |s| && s[i] <= 0x7F
    ensures IsBoundary(s, i) && IsBoundary(s, i + 1)
  {
    Split(s, i);
    assert s[i..][1..] == s[i + 1..];
  }

  lemma {:induction false} AsciiWellFormed(s: seq<Byte>)
    requires forall i :: 0 <= i < |s| ==> s[i] <= 0x7F
    ensures WellFormed(s)
  {
    if s != [] {
      AsciiWellFormed(s[1..]);
    }
  }

  lemma {:induction false} FirstChar(s: seq<Byte>)
    requires WellFormed(s) && s != []
    ensures HeadLen(s) == LeadLen(s[0])
    ensures WellFormed(s[..HeadLen(s)]) && IsBoundary(s, HeadLen(s))
  {
    var n := HeadLen(s);
    assert n < |s| ==> !IsTail(s[n..][0]);
    Split(s, n);
  }
}
