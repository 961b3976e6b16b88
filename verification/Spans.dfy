/** Runs of bytes up to a stop byte: the one kind of lookahead the sanitizer's detectors do. */
module Spans {
  import opened Utf8

  /** The number of leading bytes of `s` before the first stop byte. */
  function Until(s: seq<Byte>, stop: Byte -> bool): (n: nat)
    ensures n <= |s|
    ensures forall k :: 0 <= k < n ==> !stop(s[k])
    ensures n < |s| ==> stop(s[n])
  {
    if s == [] || stop(s[0]) then 0 else 1 + Until(s[1..], stop)
  }

  lemma UntilIs(s: seq<Byte>, stop: Byte -> bool, n: nat)
    requires n <= |s|
    requires forall k :: 0 <= k < n ==> !stop(s[k])
    requires n < |s| ==> stop(s[n])
    ensures Until(s, stop) == n
  {
  }

  function Is(q: Byte): Byte -> bool {
    b => b == q
  }

  method ScanUntil(bytes: seq<Byte>, from: nat, stop: Byte -> bool) returns (end: nat)
    requires from <= |bytes|
    ensures end == from + Until(bytes[from..], stop) <= |bytes|
  {
    end := from;
    while end < |bytes| && !stop(bytes[end])
      invariant from <= end <= |bytes|
      invariant forall k :: from <= k < end ==> !stop(bytes[k])
    {
      end := end + 1;
    }
    UntilIs(bytes[from..], stop, end - from);
  }

  /** A stop byte inside the common prefix `p` ends both spans at the same place. */
  lemma {:induction false} UntilInPrefix(p: seq<Byte>, s: seq<Byte>, k: nat, stop: Byte -> bool)
    requires k < |p| && stop(p[|p| - 1]) && p <= s
    ensures Until(s[k..], stop) == Until(p[k..], stop) < |p| - k
  {
    UntilIs(s[k..], stop, Until(p[k..], stop));
  }

  /** A middle part without stop bytes only lengthens the span. */
  lemma {:induction false} UntilAcross(p: seq<Byte>, m: seq<Byte>, r: seq<Byte>, k: nat, stop: Byte -> bool)
    requires k <= |p|
    requires forall j :: 0 <= j < |m| ==> !stop(m[j])
    ensures var u := Until(p[k..], stop);
            Until((p + m + r)[k..], stop) == if u < |p| - k then u else u + |m| + Until(r, stop)
  {
    var u := Until(p[k..], stop);
    var s := (p + m + r)[k..];
    if u < |p| - k {
      UntilIs(s, stop, u);
    } else {
      var n := u + |m| + Until(r, stop);
      assert forall j :: u + |m| <= j < n ==> s[j] == r[j - u - |m|];
      UntilIs(s, stop, n);
    }
  }
}
