/** Hexadecimal encoding of a byte area (gpr_bin_hexlify). */
module Bin {
  import opened Wrappers
  import opened CTypes

  /** The digit alphabet, upper case. */
  const HEX_DIGITS: string := "0123456789ABCDEF"

  function HexDigit(n: nat): char
    requires n < 16
  {
    HEX_DIGITS[n]
  }

  /** Value of an upper-case hexadecimal digit, None for any other character. */
  function DigitValue(c: char): (v: Option<nat>)
    ensures v.Some? ==> v.value < 16 && HexDigit(v.value) == c
  {
    if '0' <= c <= '9' then Some(c as int - '0' as int)
    else if 'A' <= c <= 'F' then Some(c as int - 'A' as int + 10)
    else None
  }

  lemma DigitValueOfDigit(n: nat)
    requires n < 16
    ensures DigitValue(HexDigit(n)) == Some(n)
  {
  }

  /** The text hexlify writes for `b`: two digits per byte, high nibble first, in memory order. */
  function Hex(b: seq<byte>): (h: seq<char>)
    ensures |h| == 2 * |b|
  {
    if b == [] then []
    else [HexDigit(b[0] as int / 16), HexDigit(b[0] as int % 16)] + Hex(b[1..])
  }

  /** Byte `i` becomes the digits at positions 2i (high nibble) and 2i+1 (low nibble). */
  lemma {:induction false} HexAt(b: seq<byte>, i: nat)
    requires i < |b|
    ensures Hex(b)[2 * i] == HexDigit(b[i] as int / 16)
    ensures Hex(b)[2 * i + 1] == HexDigit(b[i] as int % 16)
  {
    if i > 0 {
      HexAt(b[1..], i - 1);
    }
  }

  /** One more byte adds its two digits at the end. */
  lemma {:induction false} HexSnoc(b: seq<byte>, x: byte)
    ensures Hex(b + [x]) == Hex(b) + [HexDigit(x as int / 16), HexDigit(x as int % 16)]
  {
    if b != [] {
      assert (b + [x])[1..] == b[1..] + [x];
      HexSnoc(b[1..], x);
    } else {
      assert Hex([x]) == [HexDigit(x as int / 16), HexDigit(x as int % 16)] + Hex([]);
    }
  }

  /** Decoding of hexlify's output, None when the text is not a sequence of digit pairs. */
  function Unhex(h: seq<char>): Option<seq<byte>>
    decreases |h|
  {
    if h == [] then Some([])
    else if |h| == 1 then None
    else
      var hi := DigitValue(h[0]);
      var lo := DigitValue(h[1]);
      var rest := Unhex(h[2..]);
      if hi.None? || lo.None? || rest.None? then None
      else Some([(hi.value * 16 + lo.value) as byte] + rest.value)
  }

  /** Decoding undoes hexlify, so distinct byte areas give distinct texts. */
  lemma {:induction false} UnhexHex(b: seq<byte>)
    ensures Unhex(Hex(b)) == Some(b)
  {
    if b != [] {
      var hi := b[0] as int / 16;
      var lo := b[0] as int % 16;
      assert Hex(b) == [HexDigit(hi), HexDigit(lo)] + Hex(b[1..]);
      DigitValueOfDigit(hi);
      DigitValueOfDigit(lo);
      UnhexHex(b[1..]);
      UnhexPair(HexDigit(hi), HexDigit(lo), Hex(b[1..]));
      assert (hi * 16 + lo) as byte == b[0];
      assert [b[0]] + b[1..] == b;
    }
  }

  /** Decoding a text that starts with two characters: their byte, then the decoding of the rest. */
  lemma UnhexPair(c: char, d: char, t: seq<char>)
    ensures var hi, lo, rest := DigitValue(c), DigitValue(d), Unhex(t);
      Unhex([c, d] + t) == if hi.None? || lo.None? || rest.None? then None
                           else Some([(hi.value * 16 + lo.value) as byte] + rest.value)
  {
    var h := [c, d] + t;
    assert h[0] == c && h[1] == d && h[2..] == t;
  }

  lemma HexInjective(a: seq<byte>, b: seq<byte>)
    requires Hex(a) == Hex(b)
    ensures a == b
  {
    UnhexHex(a);
    UnhexHex(b);
  }

  /** The byte as a plain `char` (signed on the usual ABIs). */
  function SignedChar(b: byte): int
  {
    if b < 128 then b as int else b as int - 256
  }

  /**
   * `(*ptr >> 4) & 0x0F` and `*ptr & 0x0F` on a sign-extended char: the
   * arithmetic shift is floor division and the mask keeps the low four
   * bits, so sign extension does not change either nibble.
   */
  lemma NibblesOfSignedChar(b: byte)
    ensures (SignedChar(b) / 16) % 16 == b as int / 16
    ensures SignedChar(b) % 16 == b as int % 16
  {
  }

  /**
   * gpr_bin_hexlify: writes exactly 2 * size characters, no terminator,
   * into `dst`.
   */
  method Hexlify(dst: array<char>, src: seq<byte>, size: nat)
    requires size <= |src|
    requires 2 * size <= dst.Length
    modifies dst
    ensures dst[..2 * size] == Hex(src[..size])
    ensures dst[2 * size..] == old(dst[2 * size..])
  {
    var remaining := size;
    var ptr := 0;
    var out := 0;
    while remaining > 0
      invariant ptr + remaining == size
      invariant out == 2 * ptr
      invariant dst[..out] == Hex(src[..ptr])
      invariant forall j :: out <= j < dst.Length ==> dst[j] == old(dst[j])
    {
      NibblesOfSignedChar(src[ptr]);
      HexSnoc(src[..ptr], src[ptr]);
      assert src[..ptr + 1] == src[..ptr] + [src[ptr]];
      ghost var written := dst[..out];
      var hi := HEX_DIGITS[(SignedChar(src[ptr]) / 16) % 16];
      var lo := HEX_DIGITS[SignedChar(src[ptr]) % 16];
      dst[out] := hi;
      out := out + 1;
      dst[out] := lo;
      out := out + 1;
      assert dst[..out] == written + [hi, lo];
      ptr := ptr + 1;
      remaining := remaining - 1;
    }
    assert src[..size] == src[..ptr];
  }
}
