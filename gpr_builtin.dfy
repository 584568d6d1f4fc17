/**
 * The length clamp of gpr_builtin_vscnprintf / gpr_builtin_scnprintf:
 * like snprintf, but the result is the number of characters actually
 * stored in the buffer instead of the length the text would have had.
 */
module Builtin {
  /**
   * What vsnprintf leaves in a buffer of `size` bytes when the formatted
   * text is `s`: at most `size - 1` characters (the last byte goes to the
   * NUL), nothing at all when `size` is 0.
   */
  function Stored(s: seq<char>, size: nat): (t: seq<char>)
    ensures t <= s
    ensures size > 0 ==> |t| < size
    ensures |s| < size ==> t == s
    ensures |s| >= size > 0 ==> |t| == size - 1
    ensures size == 0 ==> t == []
  {
    if size == 0 then [] else s[..if |s| < size then |s| else size - 1]
  }

  /**
   * Result of gpr_builtin_vscnprintf when vsnprintf reported `n` (the
   * untruncated length, or a negative value on an output error) for a
   * buffer of `size` bytes.
   */
  function ScnprintfResult(n: int, size: nat): (r: int)
    ensures n < 0 ==> r == n
    ensures n >= 0 ==> 0 <= r <= n
    ensures n >= 0 && size > 0 ==> r < size
    ensures n >= 0 && size == 0 ==> r == 0
    ensures 0 <= n < size ==> r == n
    ensures n >= size > 0 ==> r == size - 1
  {
    if n < size then n
    else if size != 0 then size - 1
    else 0
  }

  /** gpr_builtin_scnprintf forwards its arguments to the v-variant and returns its result unchanged. */
  function Scnprintf(n: int, size: nat): int
  {
    ScnprintfResult(n, size)
  }

  /**
   * For a successful format the clamped result counts exactly the
   * characters stored, so it is below `size` whenever `size` is positive.
   */
  lemma ResultCountsStored(s: seq<char>, size: nat)
    ensures ScnprintfResult(|s|, size) == |Stored(s, size)|
    ensures Scnprintf(|s|, size) == ScnprintfResult(|s|, size)
  {
  }
}
