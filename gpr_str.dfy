/**
 * Bounded case conversion and whitespace trimming of C strings held in
 * character buffers. A `char *` into a buffer is the buffer plus an
 * index; the string it designates runs up to the first NUL.
 */
module Str {
  import opened CTypes

  /** The string without its leading whitespace. */
  function TrimLeft(s: seq<char>): (t: seq<char>)
    ensures |t| <= |s| && t == s[|s| - |t|..]
    ensures forall i :: 0 <= i < |s| - |t| ==> IsSpace(s[i])
    ensures t == [] || !IsSpace(t[0])
  {
    if s != [] && IsSpace(s[0]) then TrimLeft(s[1..]) else s
  }

  /** The string without its trailing whitespace. */
  function TrimRight(s: seq<char>): (t: seq<char>)
    ensures |t| <= |s| && t == s[..|t|]
    ensures forall i :: |t| <= i < |s| ==> IsSpace(s[i])
    ensures t == [] || !IsSpace(t[|t| - 1])
  {
    if s != [] && IsSpace(s[|s| - 1]) then TrimRight(s[..|s| - 1]) else s
  }

  /** A buffer whose first `n` characters are not NUL and whose n-th is NUL holds a string of length `n`. */
  lemma {:induction false} CStrLenAt(s: seq<char>, n: nat)
    requires n < |s| && s[n] == '\0'
    requires forall i :: 0 <= i < n ==> s[i] != '\0'
    ensures CStrLen(s) == n
  {
    if n > 0 {
      CStrLenAt(s[1..], n - 1);
    }
  }

  /** Skipping `k` characters of a string skips them in the C string it holds. */
  lemma {:induction false} CStrLenSuffix(s: seq<char>, k: nat)
    requires k <= CStrLen(s)
    ensures CStrLen(s[k..]) == CStrLen(s) - k
    ensures CStr(s[k..]) == CStr(s)[k..]
  {
    if k > 0 {
      assert s[0] != '\0';
      assert s[k..] == s[1..][k - 1..];
      CStrLenSuffix(s[1..], k - 1);
    }
  }

  /** The number of characters a conversion of at most `num` characters of `s` processes. */
  function ConvertCount(s: seq<char>, num: nat): nat
  {
    if num < CStrLen(s) then num else CStrLen(s)
  }

  /**
   * The loop shared by gpr_str_tolower and gpr_str_toupper: `dst[i] :=
   * f(src[i])` for each `i < num` up to the NUL of `src`, which is not
   * copied. `dst` may be `src` itself.
   */
  method ConvertChars(dst: array<char>, src: array<char>, num: nat, f: char -> char) returns (count: nat)
    requires num <= src.Length || Terminated(src[..])
    requires ConvertCount(src[..], num) <= dst.Length
    modifies dst
    ensures count == ConvertCount(old(src[..]), num)
    ensures forall i :: 0 <= i < count ==> dst[i] == f(old(src[i]))
    ensures forall i :: count <= i < dst.Length ==> dst[i] == old(dst[i])
  {
    ghost var s := src[..];
    count := 0;
    var i := 0;
    while i < num
      invariant i == count <= ConvertCount(s, num)
      invariant i <= CStrLen(s)
      invariant forall k :: 0 <= k < i ==> s[k] != '\0'
      invariant forall k :: i <= k < src.Length ==> src[k] == s[k]
      invariant forall k :: 0 <= k < i ==> dst[k] == f(s[k])
      invariant forall k :: i <= k < dst.Length ==> dst[k] == old(dst[k])
      decreases num - i
    {
      assert i < src.Length by {
        if num > src.Length { assert CStrLen(s) < src.Length; }
      }
      if src[i] == '\0' {
        assert CStrLen(s) == i by { CStrLenAt(s, i); }
        break;
      }
      dst[i] := f(src[i]);
      count := count + 1;
      i := i + 1;
    }
  }

  /** gpr_str_tolower: lower-cases at most `num` characters of `src` into `dst` and returns how many. */
  method ToLower(dst: array<char>, src: array<char>, num: nat) returns (count: nat)
    requires num <= src.Length || Terminated(src[..])
    requires ConvertCount(src[..], num) <= dst.Length
    modifies dst
    ensures count == ConvertCount(old(src[..]), num)
    ensures forall i :: 0 <= i < count ==> dst[i] == ToLowerChar(old(src[i]))
    ensures forall i :: count <= i < dst.Length ==> dst[i] == old(dst[i])
  {
    count := ConvertChars(dst, src, num, ToLowerChar);
  }

  /** gpr_str_toupper: upper-cases at most `num` characters of `src` into `dst` and returns how many. */
  method ToUpper(dst: array<char>, src: array<char>, num: nat) returns (count: nat)
    requires num <= src.Length || Terminated(src[..])
    requires ConvertCount(src[..], num) <= dst.Length
    modifies dst
    ensures count == ConvertCount(old(src[..]), num)
    ensures forall i :: 0 <= i < count ==> dst[i] == ToUpperChar(old(src[i]))
    ensures forall i :: count <= i < dst.Length ==> dst[i] == old(dst[i])
  {
    count := ConvertChars(dst, src, num, ToUpperChar);
  }

  /**
   * gpr_str_ltrim: the index of the first non-whitespace character of the
   * string at the start of `str`; the buffer is not modified.
   */
  method LTrim(str: array<char>) returns (k: nat)
    requires Terminated(str[..])
    ensures k <= CStrLen(str[..]) < str.Length
    ensures CStr(str[k..]) == TrimLeft(CStr(str[..]))
  {
    ghost var s := CStr(str[..]);
    ghost var n := |s|;
    assert str[n] == '\0';
    k := 0;
    if str[0] != '\0' {
      while IsSpace(str[k])
        invariant k <= n < str.Length && str[n] == '\0'
        invariant TrimLeft(s) == TrimLeft(s[k..])
        decreases n - k
      {
        assert k != n;
        assert s[k..][1..] == s[k + 1..];
        k := k + 1;
      }
    }
    CStrLenSuffix(str[..], k);
    assert str[k..] == str[..][k..];
  }

  /**
   * gpr_str_rtrim: ends the string just after its last non-whitespace
   * character by writing a NUL there. The scan stops at the start of the
   * buffer, so an all-whitespace string becomes empty.
   */
  method RTrim(str: array<char>)
    requires Terminated(str[..])
    modifies str
    ensures CStr(str[..]) == TrimRight(CStr(old(str[..])))
    ensures forall i :: 0 <= i < str.Length && i != |CStr(str[..])| ==> str[i] == old(str[i])
  {
    ghost var s := CStr(str[..]);
    if str[0] == '\0' {
      return;
    }
    var n := CStrLen(str[..]);
    var end: nat := n;
    while end > 0 && IsSpace(str[end - 1])
      invariant n == |s| < str.Length
      invariant end <= n
      invariant TrimRight(s) == TrimRight(s[..end])
      decreases end
    {
      assert s[..end][..end - 1] == s[..end - 1];
      end := end - 1;
    }
    assert s[..end] == TrimRight(s);
    str[end] := '\0';
    CStrLenAt(str[..], end);
  }

  /**
   * The backward scan of gpr_str_rtrim as written: `end` starts at the NUL
   * and is decremented before each test, with no stop at the start of the
   * buffer. The result is the index where the scan stops, or -1 when it
   * goes on to read the byte before the buffer.
   */
  function RTrimStopAsWritten(s: seq<char>, end: nat): (r: int)
    requires end <= |s|
    ensures -1 <= r < end
    ensures r >= 0 ==> !IsSpace(s[r])
    ensures forall i :: r < i < end ==> IsSpace(s[i])
  {
    if end == 0 then -1
    else if !IsSpace(s[end - 1]) then end - 1
    else RTrimStopAsWritten(s, end - 1)
  }

  /** Where the string has a non-whitespace character, the scan as written stops where rtrim puts its NUL. */
  lemma RTrimStopAgrees(s: seq<char>)
    requires exists i :: 0 <= i < |s| && !IsSpace(s[i])
    ensures RTrimStopAsWritten(s, |s|) + 1 == |TrimRight(s)|
  {
    var r := RTrimStopAsWritten(s, |s|);
    var i :| 0 <= i < |s| && !IsSpace(s[i]);
    assert r >= 0;
    TrimRightDropsTrailingSpace(s[..r + 1], s[r + 1..]);
    assert s[..r + 1] + s[r + 1..] == s;
  }

  /** On an all-whitespace string such as "   " the scan as written reads the byte before the buffer. */
  lemma RTrimAllSpaceUnderflows()
    ensures RTrimStopAsWritten("   ", 3) == -1
  {
  }

  /** gpr_str_trim: ltrim applied to the result of rtrim. */
  method Trim(str: array<char>) returns (k: nat)
    requires Terminated(str[..])
    modifies str
    ensures k < str.Length
    ensures CStr(str[k..]) == TrimLeft(TrimRight(CStr(old(str[..]))))
  {
    RTrim(str);
    k := LTrim(str);
  }

  /** Fills a fresh buffer with `s` followed by a NUL. */
  method NewCString(s: seq<char>) returns (str: array<char>)
    requires forall i :: 0 <= i < |s| ==> s[i] != '\0'
    ensures fresh(str)
    ensures str[..] == s + ['\0']
    ensures CStr(str[..]) == s
  {
    str := new char[|s| + 1](i requires 0 <= i <= |s| => if i < |s| then s[i] else '\0');
    CStrLenAt(str[..], |s|);
    assert str[..CStrLen(str[..])] == s;
  }

  /** Whitespace appended after a non-whitespace character is exactly what rtrim removes. */
  lemma {:induction false} TrimRightDropsTrailingSpace(a: seq<char>, b: seq<char>)
    requires a != [] && !IsSpace(a[|a| - 1])
    requires forall i :: 0 <= i < |b| ==> IsSpace(b[i])
    ensures TrimRight(a + b) == a
  {
    if b != [] {
      assert (a + b)[..|a + b| - 1] == a + b[..|b| - 1];
      TrimRightDropsTrailingSpace(a, b[..|b| - 1]);
    }
  }

  /** Whitespace put before a non-whitespace character is exactly what ltrim skips. */
  lemma {:induction false} TrimLeftDropsLeadingSpace(b: seq<char>, a: seq<char>)
    requires a != [] && !IsSpace(a[0])
    requires forall i :: 0 <= i < |b| ==> IsSpace(b[i])
    ensures TrimLeft(b + a) == a
  {
    if b != [] {
      assert (b + a)[1..] == b[1..] + a;
      TrimLeftDropsLeadingSpace(b[1..], a);
    }
  }

  /** Trimming both ends of the unit test's input gives "Hello World". */
  lemma HelloWorldTrims()
    ensures TrimLeft(TrimRight("   Hello World   ")) == "Hello World"
  {
    assert "   Hello World   " == "   Hello World" + "   ";
    TrimRightDropsTrailingSpace("   Hello World", "   ");
    assert "   Hello World" == "   " + "Hello World";
    TrimLeftDropsLeadingSpace("   ", "Hello World");
  }

  /** The unit test's scenario: "   Hello World   " is trimmed in place to "Hello World". */
  method TrimHelloWorld() returns (trimmed: seq<char>)
    ensures trimmed == "Hello World"
  {
    var str := NewCString("   Hello World   ");
    var k := Trim(str);
    trimmed := CStr(str[k..]);
    HelloWorldTrims();
  }
}
