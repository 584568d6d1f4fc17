/**
 * C-level vocabulary shared by the library modules: opaque data pointers,
 * bytes and the character classes of the "C" locale.
 */
module CTypes {
  /** An opaque `void *` handed to the containers; 0 stands for NULL. */
  type Ptr = nat
  const NULL: Ptr := 0

  newtype byte = x: int | 0 <= x < 256

  /** `isspace` in the "C" locale. */
  predicate IsSpace(c: char)
  {
    c == ' ' || c == '\t' || c == '\n' || c == '\U{B}' || c == '\U{C}' || c == '\r'
  }

  /** `tolower` / `toupper` in the "C" locale. */
  function ToLowerChar(c: char): char
  {
    if 'A' <= c <= 'Z' then (c as int + 32) as char else c
  }

  function ToUpperChar(c: char): char
  {
    if 'a' <= c <= 'z' then (c as int - 32) as char else c
  }

  /** Length of the C string held at the start of `s`: the index of its first NUL, or |s| if there is none. */
  function CStrLen(s: seq<char>): (n: nat)
    ensures n <= |s|
    ensures forall i :: 0 <= i < n ==> s[i] != '\0'
    ensures n < |s| ==> s[n] == '\0'
  {
    if |s| == 0 || s[0] == '\0' then 0 else 1 + CStrLen(s[1..])
  }

  /** The C string held at the start of `s` (its characters before the first NUL). */
  function CStr(s: seq<char>): (r: seq<char>)
    ensures |r| == CStrLen(s) && r == s[..CStrLen(s)]
  {
    s[..CStrLen(s)]
  }

  /** `s` holds a NUL-terminated string. */
  predicate Terminated(s: seq<char>)
  {
    CStrLen(s) < |s|
  }
}
