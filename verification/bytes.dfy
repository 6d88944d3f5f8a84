/**
 * Byte strings and the decimal renderings the encoder and the writer use:
 * Go's `strconv.Itoa`/`AppendInt`/`AppendUint`, and the zero-padded
 * `WritePosIntWidth` of slog's buffer.
 */
module Bytes {

  /** A Go byte. Arithmetic on it stays in `int`, so no wrap-around is involved. */
  type Byte = b: int | 0 <= b < 256

  /** A Go `string` or `[]byte`: a sequence of bytes, not of characters. */
  type Bytes = seq<Byte>

  const Space: Byte := 0x20
  const Quote: Byte := 0x22
  const Dot: Byte := 0x2E
  const Slash: Byte := 0x2F
  const ZeroDigit: Byte := 0x30
  const Colon: Byte := 0x3A
  const Equals: Byte := 0x3D
  const Backslash: Byte := 0x5C
  const Newline: Byte := 0x0A
  const Minus: Byte := 0x2D
  /** The `T` between date and clock in `appendTime`. */
  const DateClockSep: Byte := 0x54

  /** The bytes of an ASCII literal, so that the model can spell Go's string constants. */
  function Ascii(s: string): (r: Bytes)
    requires forall i | 0 <= i < |s| :: s[i] as int < 128
    ensures |r| == |s|
    ensures forall i | 0 <= i < |s| :: r[i] == s[i] as int
  {
    seq(|s|, i requires 0 <= i < |s| => s[i] as int)
  }

  predicate IsDigit(b: Byte) {
    ZeroDigit <= b < ZeroDigit + 10
  }

  predicate AllDigits(s: Bytes) {
    forall i | 0 <= i < |s| :: IsDigit(s[i])
  }

  /** The base-10 digits of `n` without leading zeros (`"0"` for zero). */
  function Decimal(n: nat): (r: Bytes)
    ensures 1 <= |r|
    ensures AllDigits(r)
    ensures r[0] == ZeroDigit ==> n == 0
    decreases n
  {
    if n < 10 then [ZeroDigit + n] else Decimal(n / 10) + [ZeroDigit + n % 10]
  }

  /** The value of a string of decimal digits; the inverse of `Decimal`. */
  function ParseDecimal(s: Bytes): nat
    requires AllDigits(s)
    decreases |s|
  {
    if |s| == 0 then 0 else ParseDecimal(s[..|s| - 1]) * 10 + (s[|s| - 1] - ZeroDigit)
  }

  /** Parsing the rendering of a number gives the number back. */
  lemma {:induction false} DecimalRoundTrip(n: nat)
    ensures ParseDecimal(Decimal(n)) == n
    decreases n
  {
    if n >= 10 {
      var d := Decimal(n);
      assert d[..|d| - 1] == Decimal(n / 10);
      DecimalRoundTrip(n / 10);
    }
  }

  /** Distinct numbers have distinct renderings. */
  lemma DecimalInjective(m: nat, n: nat)
    ensures Decimal(m) == Decimal(n) ==> m == n
  {
    DecimalRoundTrip(m);
    DecimalRoundTrip(n);
  }

  /** `strconv.Itoa` / `strconv.AppendInt(…, 10)`: a `-` sign before the magnitude of a negative number. */
  function SignedDecimal(i: int): (r: Bytes)
    ensures 1 <= |r|
    ensures i < 0 <==> r[0] == Minus
    ensures i < 0 ==> r[1..] == Decimal(-i)
    ensures i >= 0 ==> r == Decimal(i)
  {
    if i < 0 then [Minus] + Decimal(-i) else Decimal(i)
  }

  function Zeros(k: nat): (r: Bytes)
    ensures |r| == k
    ensures forall i | 0 <= i < k :: r[i] == ZeroDigit
  {
    seq(k, _ => ZeroDigit)
  }

  /**
   * slog's `Buffer.WritePosIntWidth(n, width)`: the decimal digits of `n`,
   * left-padded with zeros up to `width`; never truncated.
   */
  function PadDecimal(n: nat, width: nat): (r: Bytes)
    ensures |r| == if |Decimal(n)| < width then width else |Decimal(n)|
    ensures AllDigits(r)
    ensures ParseDecimal(r) == n
  {
    var d := Decimal(n);
    var r := Zeros(if |d| < width then width - |d| else 0) + d;
    PaddedValue(|r| - |d|, d);
    DecimalRoundTrip(n);
    r
  }

  /** Leading zeros do not change the value of a digit string. */
  lemma {:induction false} PaddedValue(k: nat, d: Bytes)
    requires AllDigits(d)
    ensures ParseDecimal(Zeros(k) + d) == ParseDecimal(d)
    decreases |d|
  {
    if |d| == 0 {
      assert Zeros(k) + d == Zeros(k);
      ZerosValue(k);
    } else {
      var z := Zeros(k) + d;
      assert z[..|z| - 1] == Zeros(k) + d[..|d| - 1];
      PaddedValue(k, d[..|d| - 1]);
    }
  }

  lemma {:induction false} ZerosValue(k: nat)
    ensures ParseDecimal(Zeros(k)) == 0
  {
    if k > 0 {
      assert Zeros(k)[..k - 1] == Zeros(k - 1);
      ZerosValue(k - 1);
    }
  }

  /**
   * Go's `strings.LastIndex(s, string([b]))` for a single ASCII byte:
   * the highest index holding `b`, or -1 when there is none.
   */
  function LastIndex(s: Bytes, b: Byte): (r: int)
    ensures -1 <= r < |s|
    ensures r >= 0 ==> s[r] == b
    ensures forall i | r < i < |s| :: s[i] != b
    decreases |s|
  {
    if |s| == 0 then -1
    else if s[|s| - 1] == b then |s| - 1
    else LastIndex(s[..|s| - 1], b)
  }

  /** `LastIndex` finds `k` when `s[k]` is `b` and nothing after it is. */
  lemma LastIndexIs(s: Bytes, b: Byte, k: int)
    requires -1 <= k < |s| && (k >= 0 ==> s[k] == b)
    requires forall i | k < i < |s| :: s[i] != b
    ensures LastIndex(s, b) == k
  {
  }
}
