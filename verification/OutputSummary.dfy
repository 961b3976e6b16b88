/** The head-and-tail summary of a command's output, cut on character boundaries. */
module OutputSummary {
  import opened Utf8

  const MAX_SUMMARY_BYTES: nat := 1024
  const HEAD_BYTES: nat := 512
  const TAIL_BYTES: nat := 512
  const SEPARATOR: string := "\n... [truncated: showing head and tail] ...\n"

  // ---- Boundaries are close together ----------------------------------------------------------

  lemma {:induction false} BoundaryShift(s: seq<Byte>, j: nat)
    requires WellFormed(s) && s != [] && j <= |s| - HeadLen(s) && IsBoundary(s[HeadLen(s)..], j)
    ensures IsBoundary(s, HeadLen(s) + j)
  {
    FirstChar(s);
  }

  /** Every position of a well-formed text is at most three bytes after a boundary, and at most three before one. */
  lemma {:induction false} BoundaryNear(s: seq<Byte>, i: nat) returns (below: nat, above: nat)
    requires WellFormed(s) && i <= |s|
    ensures below <= i <= above <= |s| && i - below <= 3 && above - i <= 3
    ensures IsBoundary(s, below) && IsBoundary(s, above)
  {
    if i == 0 {
      below, above := 0, 0;
    } else {
      var n := HeadLen(s);
      if i < n {
        FirstChar(s);
        below, above := 0, n;
      } else {
        below, above := BoundaryNear(s[n..], i - n);
        BoundaryShift(s, below);
        BoundaryShift(s, above);
        below, above := n + below, n + above;
      }
    }
  }

  // ---- The two loops ------------------------------------------------------------------------

  method FloorCharBoundary(s: seq<Byte>, idx: nat) returns (r: nat)
    ensures r <= |s| && r <= idx && IsBoundary(s, r)
    ensures forall b :: r < b <= idx && b <= |s| ==> !IsBoundary(s, b)
  {
    r := if idx < |s| then idx else |s|;
    while r > 0 && !IsBoundary(s, r)
      invariant r <= |s| && r <= idx
      invariant forall b :: r < b <= idx && b <= |s| ==> !IsBoundary(s, b)
    {
      r := r - 1;
    }
  }

  method CeilCharBoundary(s: seq<Byte>, idx: nat) returns (r: nat)
    ensures r <= |s| && (idx <= r || r == |s|) && IsBoundary(s, r)
    ensures forall b :: idx <= b < r ==> !IsBoundary(s, b)
  {
    r := if idx < |s| then idx else |s|;
    while r < |s| && !IsBoundary(s, r)
      invariant r <= |s| && (idx <= r || r == |s|)
      invariant forall b :: idx <= b < r ==> !IsBoundary(s, b)
    {
      r := r + 1;
    }
  }

  // ---- The summary --------------------------------------------------------------------------

  function Separator(): (r: seq<Byte>)
    ensures |r| == 44 && WellFormed(r)
  {
    AsciiWellFormed(Ascii(SEPARATOR));
    Ascii(SEPARATOR)
  }

  /** The longest prefix of at most 512 bytes and the longest such suffix that cut no character. */
  ghost predicate AreCuts(s: seq<Byte>, headEnd: nat, tailStart: nat)
    requires |s| > MAX_SUMMARY_BYTES
  {
    && headEnd <= HEAD_BYTES && |s| - TAIL_BYTES <= tailStart <= |s|
    && IsBoundary(s, headEnd) && IsBoundary(s, tailStart)
    && (forall b :: headEnd < b <= HEAD_BYTES ==> !IsBoundary(s, b))
    && (forall b :: |s| - TAIL_BYTES <= b < tailStart ==> !IsBoundary(s, b))
  }

  method SummarizeOutput(output: seq<Byte>) returns (summary: seq<Byte>)
    ensures |output| <= 1024 ==> summary == output
    ensures |output| > 1024 ==>
              exists headEnd: nat, tailStart: nat ::
                && AreCuts(output, headEnd, tailStart)
                && summary == output[..headEnd]
                              + Ascii("\n... [truncated: showing head and tail] ...\n") + output[tailStart..]
  {
    if |output| <= MAX_SUMMARY_BYTES {
      return output;
    }
    var headEnd := FloorCharBoundary(output, HEAD_BYTES);
    var tailStart := CeilCharBoundary(output, |output| - TAIL_BYTES);
    assert AreCuts(output, headEnd, tailStart);
    summary := output[..headEnd] + Separator() + output[tailStart..];
  }

  /** The cuts of a well-formed text leave 509 to 512 bytes on either side, and do not overlap. */
  lemma {:induction false} CutsAreTight(s: seq<Byte>, headEnd: nat, tailStart: nat)
    requires WellFormed(s) && |s| > MAX_SUMMARY_BYTES && AreCuts(s, headEnd, tailStart)
    ensures 509 <= headEnd <= 512 && 509 <= |s| - tailStart <= 512 && headEnd < tailStart
  {
    hide WellFormed;
    var below, above := BoundaryNear(s, HEAD_BYTES);
    assert below <= headEnd;
    below, above := BoundaryNear(s, |s| - TAIL_BYTES);
    assert tailStart <= above;
  }

  /** The summary of a long well-formed text is well-formed and has 1062 to 1068 bytes. */
  lemma {:induction false} SummaryWellFormed(s: seq<Byte>, headEnd: nat, tailStart: nat)
    requires WellFormed(s) && |s| > MAX_SUMMARY_BYTES && AreCuts(s, headEnd, tailStart)
    ensures var summary := s[..headEnd] + Separator() + s[tailStart..];
            WellFormed(summary) && 1062 <= |summary| <= 1068
  {
    hide WellFormed, Separator;
    CutsAreTight(s, headEnd, tailStart);
    Split(s, headEnd);
    Split(s, tailStart);
    Concat(s[..headEnd], Separator());
    Concat(s[..headEnd] + Separator(), s[tailStart..]);
  }
}
