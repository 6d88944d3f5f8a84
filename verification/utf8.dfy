/**
 * Go's `unicode/utf8` decoder as `needsQuoting` uses it: `DecodeRuneInString`
 * with Go's table of lead bytes and accepted second-byte ranges, which rejects
 * overlong forms, surrogates and code points above U+10FFFF.
 */
module Utf8 {
  import opened Bytes

  /** `utf8.RuneSelf`: bytes below it are single-byte runes. */
  const RuneSelf: int := 0x80
  /** `utf8.RuneError`, U+FFFD, returned for every invalid encoding. */
  const RuneError: int := 0xFFFD
  const MaxRune: int := 0x10FFFF

  /** A decoded rune and the number of bytes it occupied. */
  datatype Decoded = Decoded(rune: int, size: nat)

  predicate IsContinuation(b: Byte) {
    0x80 <= b < 0xC0
  }

  /** The length announced by a lead byte; 0 for a byte that cannot start a multi-byte rune. */
  function SequenceLength(b0: Byte): nat {
    if 0xC2 <= b0 <= 0xDF then 2
    else if 0xE0 <= b0 <= 0xEF then 3
    else if 0xF0 <= b0 <= 0xF4 then 4
    else 0
  }

  /** The range Go accepts for the byte after lead byte `b0`. */
  function AcceptLo(b0: Byte): Byte {
    if b0 == 0xE0 then 0xA0 else if b0 == 0xF0 then 0x90 else 0x80
  }

  function AcceptHi(b0: Byte): Byte {
    if b0 == 0xED then 0x9F else if b0 == 0xF4 then 0x8F else 0xBF
  }

  /** `utf8.DecodeRuneInString(s)` for a non-empty `s`. */
  function DecodeRune(s: Bytes): (d: Decoded)
    requires 1 <= |s|
    ensures 1 <= d.size <= 4 && d.size <= |s|
    ensures s[0] < RuneSelf ==> d == Decoded(s[0], 1)
    ensures forall j | 1 <= j < d.size :: IsContinuation(s[j])
    ensures s[0] >= RuneSelf ==> d.rune >= RuneSelf
    ensures d.size == 1 && s[0] >= RuneSelf ==> d.rune == RuneError
  {
    var b0: int := s[0];
    if b0 < RuneSelf then Decoded(b0, 1)
    else
      var n := SequenceLength(b0);
      var b1: int, b2: int, b3: int := if |s| > 1 then s[1] else 0, if |s| > 2 then s[2] else 0, if |s| > 3 then s[3] else 0;
      if n == 0 || |s| < n then Decoded(RuneError, 1)
      else if b1 < AcceptLo(b0) || AcceptHi(b0) < b1 then Decoded(RuneError, 1)
      else if n == 2 then Decoded((b0 - 0xC0) * 0x40 + (b1 - 0x80), 2)
      else if !(0x80 <= b2 < 0xC0) then Decoded(RuneError, 1)
      else if n == 3 then Decoded((b0 - 0xE0) * 0x1000 + (b1 - 0x80) * 0x40 + (b2 - 0x80), 3)
      else if !(0x80 <= b3 < 0xC0) then Decoded(RuneError, 1)
      else Decoded((b0 - 0xF0) * 0x40000 + (b1 - 0x80) * 0x1000 + (b2 - 0x80) * 0x40 + (b3 - 0x80), 4)
  }

  /** A Unicode scalar value: a code point that is not a surrogate. */
  predicate ValidRune(c: int) {
    0 <= c <= MaxRune && !(0xD800 <= c <= 0xDFFF)
  }

  /** The shortest UTF-8 encoding of a scalar value, as `utf8.EncodeRune` writes it. */
  function EncodeRune(c: int): (r: Bytes)
    requires ValidRune(c)
    ensures 1 <= |r| <= 4
  {
    if c < 0x80 then [c]
    else if c < 0x800 then [0xC0 + c / 0x40, 0x80 + c % 0x40]
    else if c < 0x10000 then [0xE0 + c / 0x1000, 0x80 + (c / 0x40) % 0x40, 0x80 + c % 0x40]
    else [0xF0 + c / 0x40000, 0x80 + (c / 0x1000) % 0x40, 0x80 + (c / 0x40) % 0x40, 0x80 + c % 0x40]
  }

  /** Decoding the encoding of a scalar value gives it back, whatever follows it. */
  lemma EncodeDecode(c: int, rest: Bytes)
    requires ValidRune(c)
    ensures DecodeRune(EncodeRune(c) + rest) == Decoded(c, |EncodeRune(c)|)
  {
    if c < 0x80 {
      assert (EncodeRune(c) + rest)[0] == c;
    } else if c < 0x800 {
      EncodeDecode2(c, rest);
    } else if c < 0x10000 {
      EncodeDecode3(c, rest);
    } else {
      EncodeDecode4(c, rest);
    }
  }

  lemma EncodeDecode2(c: int, rest: Bytes)
    requires 0x80 <= c < 0x800
    ensures DecodeRune(EncodeRune(c) + rest) == Decoded(c, 2)
  {
    var hi, lo := c / 0x40, c % 0x40;
    assert c == hi * 0x40 + lo;
    var s := EncodeRune(c) + rest;
    assert s[0] == 0xC0 + hi && s[1] == 0x80 + lo;
    assert SequenceLength(s[0]) == 2;
  }

  lemma EncodeDecode3(c: int, rest: Bytes)
    requires 0x800 <= c < 0x10000 && !(0xD800 <= c <= 0xDFFF)
    ensures DecodeRune(EncodeRune(c) + rest) == Decoded(c, 3)
  {
    var hi, mid, lo := c / 0x1000, (c / 0x40) % 0x40, c % 0x40;
    assert c / 0x40 == hi * 0x40 + mid;
    assert c == hi * 0x1000 + mid * 0x40 + lo;
    assert hi == 0 ==> mid >= 0x20;
    assert hi == 0xD ==> mid < 0x20;
    var s := EncodeRune(c) + rest;
    assert s[0] == 0xE0 + hi && s[1] == 0x80 + mid && s[2] == 0x80 + lo;
    assert SequenceLength(s[0]) == 3;
  }

  lemma EncodeDecode4(c: int, rest: Bytes)
    requires 0x10000 <= c <= MaxRune
    ensures DecodeRune(EncodeRune(c) + rest) == Decoded(c, 4)
  {
    var top, hi, mid, lo := c / 0x40000, (c / 0x1000) % 0x40, (c / 0x40) % 0x40, c % 0x40;
    assert c / 0x1000 == top * 0x40 + hi;
    assert c / 0x40 == (c / 0x1000) * 0x40 + mid;
    assert c == top * 0x40000 + hi * 0x1000 + mid * 0x40 + lo;
    assert top == 0 ==> hi >= 0x10;
    assert top == 4 ==> hi < 0x10;
    var s := EncodeRune(c) + rest;
    assert s[0] == 0xF0 + top && s[1] == 0x80 + hi && s[2] == 0x80 + mid && s[3] == 0x80 + lo;
    assert SequenceLength(s[0]) == 4;
  }

  /**
   * Conversely, every decoding that consumed more than one byte, or an ASCII
   * byte, is a scalar value whose encoding is exactly the bytes consumed.
   */
  lemma DecodeEncode(s: Bytes)
    requires 1 <= |s|
    requires DecodeRune(s).size > 1 || s[0] < RuneSelf
    ensures ValidRune(DecodeRune(s).rune)
    ensures EncodeRune(DecodeRune(s).rune) == s[..DecodeRune(s).size]
  {
    var d := DecodeRune(s);
    if d.size == 1 {
      assert s[..1] == [s[0]];
    } else if d.size == 2 {
      DecodeEncode2(s);
    } else if d.size == 3 {
      DecodeEncode3(s);
    } else {
      DecodeEncode4(s);
    }
  }

  lemma DecodeEncode2(s: Bytes)
    requires 1 <= |s| && DecodeRune(s).size == 2
    ensures ValidRune(DecodeRune(s).rune) && EncodeRune(DecodeRune(s).rune) == s[..2]
  {
    var c, b0: int, b1: int := DecodeRune(s).rune, s[0], s[1];
    assert c == (b0 - 0xC0) * 0x40 + (b1 - 0x80);
    DivMod(c, b0 - 0xC0, b1 - 0x80, 0x40);
    assert s[..2] == [s[0], s[1]];
  }

  lemma DecodeEncode3(s: Bytes)
    requires 1 <= |s| && DecodeRune(s).size == 3
    ensures ValidRune(DecodeRune(s).rune) && EncodeRune(DecodeRune(s).rune) == s[..3]
  {
    var c, b0: int, b1: int, b2: int := DecodeRune(s).rune, s[0], s[1], s[2];
    assert c == (b0 - 0xE0) * 0x1000 + (b1 - 0x80) * 0x40 + (b2 - 0x80);
    var x1 := (b0 - 0xE0) * 0x40 + (b1 - 0x80);
    DivMod(c, x1, b2 - 0x80, 0x40);
    DivMod(x1, b0 - 0xE0, b1 - 0x80, 0x40);
    DivMod(c, b0 - 0xE0, (b1 - 0x80) * 0x40 + (b2 - 0x80), 0x1000);
    assert s[..3] == [s[0], s[1], s[2]];
  }

  lemma DecodeEncode4(s: Bytes)
    requires 1 <= |s| && DecodeRune(s).size == 4
    ensures ValidRune(DecodeRune(s).rune) && EncodeRune(DecodeRune(s).rune) == s[..4]
  {
    var c, b0: int, b1: int, b2: int, b3: int := DecodeRune(s).rune, s[0], s[1], s[2], s[3];
    assert c == (b0 - 0xF0) * 0x40000 + (b1 - 0x80) * 0x1000 + (b2 - 0x80) * 0x40 + (b3 - 0x80);
    var x1 := (b0 - 0xF0) * 0x40 + (b1 - 0x80);
    var x2 := x1 * 0x40 + (b2 - 0x80);
    DivMod(c, x2, b3 - 0x80, 0x40);
    DivMod(x2, x1, b2 - 0x80, 0x40);
    DivMod(c, x1, (b2 - 0x80) * 0x40 + (b3 - 0x80), 0x1000);
    DivMod(x1, b0 - 0xF0, b1 - 0x80, 0x40);
    DivMod(c, b0 - 0xF0, (b1 - 0x80) * 0x1000 + (b2 - 0x80) * 0x40 + (b3 - 0x80), 0x40000);
    assert s[..4] == [s[0], s[1], s[2], s[3]];
  }

  /** Euclidean division by the three powers of two that UTF-8 packs bits with. */
  lemma DivMod(x: int, q: int, r: int, d: int)
    requires d == 0x40 || d == 0x1000 || d == 0x40000
    requires 0 <= r < d && x == q * d + r
    ensures x / d == q && x % d == r
  {
    if d == 0x40 {
      assert x == q * 0x40 + r;
    } else if d == 0x1000 {
      assert x == q * 0x1000 + r;
    } else {
      assert x == q * 0x40000 + r;
    }
  }
}
