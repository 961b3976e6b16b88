/**
 The grammar of UTF-8 characters against the encoding of Unicode scalar values in sections 3 and 4
 of RFC 3629: the characters are exactly the encodings, each of one scalar value.
 */
module Utf8Scalars {
  import opened Utf8

  /** A code point that is not a surrogate. */
  predicate IsScalar(u: int) {
    0 <= u <= 0x10FFFF && !(0xD800 <= u <= 0xDFFF)
  }

  function Encode(u: int): seq<Byte>
    requires IsScalar(u)
  {
    if u < 0x80 then [u]
    else if u < 0x800 then [0xC0 + u / 64, 0x80 + u % 64]
    else if u < 0x1_0000 then [0xE0 + u / 4096, 0x80 + u / 64 % 64, 0x80 + u % 64]
    else [0xF0 + u / 262144, 0x80 + u / 4096 % 64, 0x80 + u / 64 % 64, 0x80 + u % 64]
  }

  /** The value of a byte less the bits that mark its place. */
  function Bits(b: Byte, mark: int): int {
    b as int - mark
  }

  function Decode(c: seq<Byte>): int
    requires IsChar(c)
  {
    if |c| == 1 then c[0]
    else if |c| == 2 then 64 * Bits(c[0], 0xC0) + Bits(c[1], 0x80)
    else if |c| == 3 then 4096 * Bits(c[0], 0xE0) + 64 * Bits(c[1], 0x80) + Bits(c[2], 0x80)
    else 262144 * Bits(c[0], 0xF0) + 4096 * Bits(c[1], 0x80) + 64 * Bits(c[2], 0x80) + Bits(c[3], 0x80)
  }

  lemma {:induction false} EncodingIsChar(u: int)
    requires IsScalar(u)
    ensures IsChar(Encode(u)) && |Encode(u)| == LeadLen(Encode(u)[0]) && Decode(Encode(u)) == u
  {
    assert u / 4096 == u / 64 / 64 && u / 262144 == u / 4096 / 64;
  }

  lemma {:induction false} Digits(a: int, b: int, c: int, d: int)
    requires 0 <= a && 0 <= b < 64 && 0 <= c < 64 && 0 <= d < 64
    ensures var u := 262144 * a + 4096 * b + 64 * c + d;
            u % 64 == d && u / 64 % 64 == c && u / 4096 % 64 == b && u / 262144 == a
  {
    var u := 262144 * a + 4096 * b + 64 * c + d;
    assert u / 64 == 4096 * a + 64 * b + c;
    assert u / 4096 == 64 * a + b;
  }

  lemma {:induction false} CharIsEncoding(c: seq<Byte>)
    requires IsChar(c)
    ensures IsScalar(Decode(c)) && Encode(Decode(c)) == c
  {
    if |c| == 2 {
      Digits(0, 0, Bits(c[0], 0xC0), Bits(c[1], 0x80));
    } else if |c| == 3 {
      ThreeBytes(c);
    } else if |c| == 4 {
      FourBytes(c);
    }
  }

  lemma {:induction false} ThreeBytes(c: seq<Byte>)
    requires IsChar(c) && |c| == 3
    ensures IsScalar(Decode(c)) && Encode(Decode(c)) == c
  {
    Digits(0, Bits(c[0], 0xE0), Bits(c[1], 0x80), Bits(c[2], 0x80));
  }

  lemma {:induction false} FourBytes(c: seq<Byte>)
    requires IsChar(c) && |c| == 4
    ensures IsScalar(Decode(c)) && Encode(Decode(c)) == c
  {
    Digits(Bits(c[0], 0xF0), Bits(c[1], 0x80), Bits(c[2], 0x80), Bits(c[3], 0x80));
  }

  /** The grammar accepts exactly the encodings of scalar values. */
  lemma {:induction false} CharIff(c: seq<Byte>)
    ensures IsChar(c) <==> exists u: int :: IsScalar(u) && Encode(u) == c
  {
    hide IsChar, Encode;
    if IsChar(c) {
      CharIsEncoding(c);
    }
    if u: int :| IsScalar(u) && Encode(u) == c {
      EncodingIsChar(u);
    }
  }

  /** A text is well-formed exactly if it is a sequence of encodings. */
  function EncodeAll(us: seq<int>): seq<Byte>
    requires forall i :: 0 <= i < |us| ==> IsScalar(us[i])
  {
    if us == [] then [] else Encode(us[0]) + EncodeAll(us[1..])
  }

  lemma {:induction false} EncodedIsWellFormed(us: seq<int>)
    requires forall i :: 0 <= i < |us| ==> IsScalar(us[i])
    ensures WellFormed(EncodeAll(us))
  {
    if us != [] {
      hide Encode, IsChar;
      EncodingIsChar(us[0]);
      EncodedIsWellFormed(us[1..]);
      var s := EncodeAll(us);
      assert s[..|Encode(us[0])|] == Encode(us[0]) && s[|Encode(us[0])|..] == EncodeAll(us[1..]);
      assert s[0] == Encode(us[0])[0];
    }
  }

  lemma {:induction false} WellFormedIsEncoded(s: seq<Byte>) returns (us: seq<int>)
    requires WellFormed(s)
    ensures (forall i :: 0 <= i < |us| ==> IsScalar(us[i])) && EncodeAll(us) == s
  {
    if s == [] {
      us := [];
    } else {
      hide Encode, Decode, IsChar;
      var n := HeadLen(s);
      var rest := WellFormedIsEncoded(s[n..]);
      CharIsEncoding(s[..n]);
      us := [Decode(s[..n])] + rest;
      assert us[1..] == rest && s == s[..n] + s[n..];
    }
  }
}
