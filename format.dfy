/** The one property of C's `snprintf` the program relies on: with a buffer
    size `size`, at most `size - 1` characters of the formatted text are kept
    (the last byte is the terminating NUL). The digits that a `%.2f`
    conversion produces are not modelled here; callers receive them through
    a function-valued parameter. */
module Format {

  /** The text that `snprintf(buf, size, ...)` leaves in `buf` when the fully
      formatted output is `s`. */
  function Snprintf(size: nat, s: string): (r: string)
    requires size > 0
    ensures |r| < size
    ensures r <= s
    ensures |s| < size ==> r == s
    ensures |s| >= size ==> |r| == size - 1
  {
    if |s| < size then s else s[..size - 1]
  }

  /** Truncation never changes a text that already fits, so applying it twice
      is the same as applying it once. */
  lemma SnprintfIdempotent(size: nat, s: string)
    requires size > 0
    ensures Snprintf(size, Snprintf(size, s)) == Snprintf(size, s)
  {
  }

  /** Truncation keeps the beginning of the text: whatever fits of a prefix
      `p` of the output survives at the front of the result. */
  lemma SnprintfKeepsPrefix(size: nat, p: string, s: string)
    requires size > 0 && |p| < size
    ensures p <= Snprintf(size, p + s)
  {
    var r := Snprintf(size, p + s);
    assert |r| >= |p|;
    assert forall k :: 0 <= k < |p| ==> r[k] == (p + s)[k] == p[k];
  }
}
