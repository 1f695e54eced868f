/** The 1 KiB cap on stored diagnostics and dead-letter reasons. */
module Truncation {
  import opened Base
  import opened Utf8

  const MAX_ERROR_BYTES: nat := 1024
  const MAX_REASON_BYTES: nat := 1024

  /** The last character boundary at or before `cut`. */
  function LastBoundary(s: Bytes, cut: nat): (r: nat)
    ensures r <= cut
  {
    if cut == 0 || IsCharBoundary(s, cut) then cut else LastBoundary(s, cut - 1)
  }

  /** A text cut to at most `cap` bytes. */
  function Truncated(text: Str, cap: nat): Str {
    if |text| <= cap then text
    else
      TruncatedIsValid(text, cap);
      text[..LastBoundary(text, cap)]
  }

  lemma {:induction false} LastBoundaryIsLast(s: Bytes, cut: nat)
    ensures IsCharBoundary(s, LastBoundary(s, cut))
    ensures forall j | LastBoundary(s, cut) < j <= cut :: !IsCharBoundary(s, j)
  {
    if cut != 0 && !IsCharBoundary(s, cut) {
      LastBoundaryIsLast(s, cut - 1);
    }
  }

  lemma TruncatedIsValid(text: Str, cap: nat)
    requires cap < |text|
    ensures Valid(text[..LastBoundary(text, cap)])
  {
    LastBoundaryIsLast(text, cap);
    BoundaryIsValidPrefix(text, LastBoundary(text, cap));
  }

  /** The result is the longest prefix that is valid UTF-8 and within the cap. */
  lemma TruncatedIsLongestValidPrefix(text: Str, cap: nat)
    ensures Truncated(text, cap) <= text && |Truncated(text, cap)| <= cap
    ensures forall n: nat | n <= cap && n <= |text| && Valid(text[..n]) :: n <= |Truncated(text, cap)|
  {
    if cap < |text| {
      LastBoundaryIsLast(text, cap);
      forall n: nat | n <= cap && Valid(text[..n]) ensures n <= LastBoundary(text, cap) {
        BoundaryIsValidPrefix(text, n);
      }
    }
  }

  /** A cut text loses at most three bytes below the cap, so it is never empty. */
  lemma TruncatedStaysNearCap(text: Str, cap: nat)
    requires 3 < cap < |text|
    ensures cap - 3 <= |Truncated(text, cap)|
    ensures Truncated(text, cap) != []
  {
    BoundaryWithinFour(text, cap);
    var j :| cap - 3 <= j <= cap && IsCharBoundary(text, j);
    LastBoundaryIsLast(text, cap);
  }

  lemma TruncatedIdempotent(text: Str, cap: nat)
    ensures Truncated(Truncated(text, cap), cap) == Truncated(text, cap)
  {
    TruncatedIsLongestValidPrefix(text, cap);
  }

  method TruncateError(error: Str) returns (r: Str)
    ensures r == Truncated(error, MAX_ERROR_BYTES)
    ensures r <= error && |r| <= 1024
    ensures forall n: nat | n <= 1024 && n <= |error| && Valid(error[..n]) :: n <= |r|
  {
    r := Cut(error, MAX_ERROR_BYTES);
    TruncatedIsLongestValidPrefix(error, MAX_ERROR_BYTES);
  }

  method TruncateReason(reason: Str) returns (r: Str)
    ensures r == Truncated(reason, MAX_REASON_BYTES)
    ensures r <= reason && |r| <= 1024
    ensures forall n: nat | n <= 1024 && n <= |reason| && Valid(reason[..n]) :: n <= |r|
  {
    r := Cut(reason, MAX_REASON_BYTES);
    TruncatedIsLongestValidPrefix(reason, MAX_REASON_BYTES);
  }

  // The two source functions share this body.
  method Cut(text: Str, cap: nat) returns (r: Str)
    ensures r == Truncated(text, cap)
  {
    if |text| <= cap {
      return text;
    }
    var cut := cap;
    while cut > 0 && !IsCharBoundary(text, cut)
      invariant 0 <= cut <= cap
      invariant LastBoundary(text, cut) == LastBoundary(text, cap)
    {
      cut := cut - 1;
    }
    TruncatedIsValid(text, cap);
    r := text[..cut];
  }
}
