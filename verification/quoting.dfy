/**
 * The quoting predicate of rotation/default.go: `needsQuoting` and the
 * 128-entry `safeSet` table it consults for ASCII bytes.
 */
module Quoting {
  import opened Bytes
  import opened Utf8

  /**
   * Go's `unicode.IsSpace` and `unicode.IsPrint`. Their Unicode tables are not
   * modelled; the quoting decision is stated for whatever they answer.
   */
  datatype Unicode = Unicode(isSpace: int -> bool, isPrint: int -> bool)

  /**
   * `safeSet`, the 128-entry table: true for every ASCII byte a JSON string can hold unescaped,
   * that is all of them except the controls 0x00-0x1F, `"` and `\`.
   * DEL (0x7F) is in the set.
   */
  predicate SafeSet(b: Byte)
    requires b < RuneSelf
  {
    !(b < 0x20 || b == Quote || b == Backslash)
  }

  /** The ASCII test of `needsQuoting`: a backslash is let through even though it is not in `safeSet`. */
  predicate AsciiForcesQuoting(b: Byte)
    requires b < RuneSelf
  {
    b != Backslash && (b == Space || b == Equals || !SafeSet(b))
  }

  /** The multi-byte test of `needsQuoting`, applied to a decoded rune. */
  predicate RuneForcesQuoting(u: Unicode, r: int) {
    if 0 <= r < RuneSelf then AsciiForcesQuoting(r)
    else r == RuneError || u.isSpace(r) || !u.isPrint(r)
  }

  /** `needsQuoting(s)`: the empty string, or a scan that meets a byte or rune forcing quotes. */
  predicate NeedsQuoting(u: Unicode, s: Bytes) {
    |s| == 0 || ScanFrom(u, s, 0)
  }

  /**
   * The loop of `needsQuoting` from byte offset `i`: an ASCII byte advances by
   * one, anything else is decoded and skipped by the decoded size.
   */
  predicate ScanFrom(u: Unicode, s: Bytes, i: nat)
    requires i <= |s|
    decreases |s| - i
  {
    if i == |s| then false
    else if s[i] < RuneSelf then
      if AsciiForcesQuoting(s[i]) then true else ScanFrom(u, s, i + 1)
    else
      var d := DecodeRune(s[i..]);
      if d.rune == RuneError || u.isSpace(d.rune) || !u.isPrint(d.rune) then true
      else ScanFrom(u, s, i + d.size)
  }

  /** Inside ASCII, the bytes that force quoting are exactly the controls, space, `=` and `"`. */
  lemma AsciiForcesQuotingExactly(b: Byte)
    requires b < RuneSelf
    ensures AsciiForcesQuoting(b) <==> b < 0x20 || b == Space || b == Equals || b == Quote
  {
  }

  /** A byte that the ASCII test rejects. */
  predicate Forced(b: Byte) {
    b < 0x20 || b == Space || b == Equals || b == Quote
  }

  /**
   * A control byte, space, `=` or `"` anywhere in the string forces quoting:
   * the scan cannot step over it, because multi-byte runes only span
   * continuation bytes.
   */
  lemma ForcedByteForcesQuoting(u: Unicode, s: Bytes, k: nat)
    requires k < |s| && Forced(s[k])
    ensures NeedsQuoting(u, s)
  {
    ScanReaches(u, s, 0, k);
  }

  lemma {:induction false} ScanReaches(u: Unicode, s: Bytes, i: nat, k: nat)
    requires i <= k < |s| && Forced(s[k])
    ensures ScanFrom(u, s, i)
    decreases k - i
  {
    if s[i] < RuneSelf {
      if !AsciiForcesQuoting(s[i]) {
        assert i != k;
        ScanReaches(u, s, i + 1, k);
      }
    } else {
      var d := DecodeRune(s[i..]);
      if !(d.rune == RuneError || u.isSpace(d.rune) || !u.isPrint(d.rune)) {
        assert i + d.size <= k;
        ScanReaches(u, s, i + d.size, k);
      }
    }
  }

  predicate IsAscii(s: Bytes) {
    forall i | 0 <= i < |s| :: s[i] < RuneSelf
  }

  /**
   * For an all-ASCII string the decision is exact: it is quoted iff it is
   * empty or holds a control byte, a space, `=` or `"`. So a backslash or
   * DEL alone never forces quotes.
   */
  lemma AsciiNeedsQuoting(u: Unicode, s: Bytes)
    requires IsAscii(s)
    ensures NeedsQuoting(u, s) <==> |s| == 0 || exists k | 0 <= k < |s| :: Forced(s[k])
  {
    if exists k | 0 <= k < |s| :: Forced(s[k]) {
      var k :| 0 <= k < |s| && Forced(s[k]);
      ForcedByteForcesQuoting(u, s, k);
    } else if |s| > 0 {
      AsciiScanClean(u, s, 0);
    }
  }

  lemma {:induction false} AsciiScanClean(u: Unicode, s: Bytes, i: nat)
    requires i <= |s| && IsAscii(s)
    requires forall k | i <= k < |s| :: !Forced(s[k])
    ensures !ScanFrom(u, s, i)
    decreases |s| - i
  {
    if i < |s| {
      AsciiScanClean(u, s, i + 1);
    }
  }

  /** The runes of `s` in order, decoding the way `needsQuoting` does. */
  function Runes(s: Bytes): seq<int>
    decreases |s|
  {
    if |s| == 0 then [] else [DecodeRune(s).rune] + Runes(s[DecodeRune(s).size..])
  }

  /**
   * An independent reading of the scan: a non-empty string needs quoting iff
   * one of its decoded runes is forcing, whether an ASCII byte of the
   * forcing set or a rune that is `RuneError`, white space or not printable.
   */
  lemma NeedsQuotingByRunes(u: Unicode, s: Bytes)
    ensures NeedsQuoting(u, s) <==> |s| == 0 || AnyForcing(u, Runes(s))
  {
    if |s| > 0 {
      ScanByRunes(u, s, 0);
      assert s[0..] == s;
    }
  }

  lemma {:induction false} ScanByRunes(u: Unicode, s: Bytes, i: nat)
    requires i <= |s|
    ensures ScanFrom(u, s, i) <==> AnyForcing(u, Runes(s[i..]))
    decreases |s| - i
  {
    if i < |s| {
      var d := DecodeRune(s[i..]);
      RunesStep(s, i);
      ScanByRunes(u, s, i + d.size);
      AnyForcingCons(u, d.rune, Runes(s[i + d.size..]));
      ScanStep(u, s, i);
    }
  }

  /** Some rune of `rs` forces quoting. */
  predicate AnyForcing(u: Unicode, rs: seq<int>) {
    exists j | 0 <= j < |rs| :: RuneForcesQuoting(u, rs[j])
  }

  lemma AnyForcingCons(u: Unicode, r: int, rest: seq<int>)
    ensures AnyForcing(u, [r] + rest) <==> RuneForcesQuoting(u, r) || AnyForcing(u, rest)
  {
    var rs := [r] + rest;
    if AnyForcing(u, rest) {
      var j :| 0 <= j < |rest| && RuneForcesQuoting(u, rest[j]);
      assert rs[j + 1] == rest[j];
    }
    if AnyForcing(u, rs) {
      var j :| 0 <= j < |rs| && RuneForcesQuoting(u, rs[j]);
      if j > 0 {
        assert rs[j] == rest[j - 1];
      }
    }
    assert rs[0] == r;
  }

  /** The runes from offset `i` are the rune decoded there followed by the runes after it. */
  lemma RunesStep(s: Bytes, i: nat)
    requires i < |s|
    ensures Runes(s[i..]) == [DecodeRune(s[i..]).rune] + Runes(s[i + DecodeRune(s[i..]).size..])
  {
    var t := s[i..];
    assert t[DecodeRune(t).size..] == s[i + DecodeRune(t).size..];
  }

  /** One step of the scan decides on the decoded rune or moves past it. */
  lemma ScanStep(u: Unicode, s: Bytes, i: nat)
    requires i < |s|
    ensures ScanFrom(u, s, i) == (RuneForcesQuoting(u, DecodeRune(s[i..]).rune) || ScanFrom(u, s, i + DecodeRune(s[i..]).size))
  {
    var d := DecodeRune(s[i..]);
    if s[i] < RuneSelf {
      assert d.size == 1 && d.rune == s[i];
    } else {
      assert d.rune >= RuneSelf;
    }
  }

  /** An ASCII byte that does not force quoting. */
  predicate Plain(b: Byte) {
    b < RuneSelf && !Forced(b)
  }

  predicate AllPlain(s: Bytes) {
    forall k | 0 <= k < |s| :: Plain(s[k])
  }

  lemma PlainJoin(a: Bytes, b: Bytes)
    requires AllPlain(a) && AllPlain(b)
    ensures AllPlain(a + b)
  {
    assert forall k | |a| <= k < |a + b| :: (a + b)[k] == b[k - |a|];
  }

  /** Digits are plain. */
  lemma DigitsArePlain(s: Bytes)
    requires AllDigits(s)
    ensures AllPlain(s)
  {
  }

  /** Non-empty text made of plain bytes is written bare. */
  lemma PlainNeedsNoQuoting(u: Unicode, s: Bytes)
    requires |s| > 0 && AllPlain(s)
    ensures !NeedsQuoting(u, s)
  {
    AsciiNeedsQuoting(u, s);
  }

  /** Examples of the code as written: a lone backslash or DEL is left bare, `a=b` is quoted. */
  lemma QuotingExamples(u: Unicode)
    ensures NeedsQuoting(u, [])
    ensures !NeedsQuoting(u, [Backslash])
    ensures !NeedsQuoting(u, [0x7F])
    ensures NeedsQuoting(u, Ascii("a=b"))
    ensures !NeedsQuoting(u, Ascii("C:\\tmp"))
  {
    AsciiNeedsQuoting(u, [Backslash]);
    AsciiNeedsQuoting(u, [0x7F]);
    AsciiNeedsQuoting(u, Ascii("a=b"));
    AsciiNeedsQuoting(u, Ascii("C:\\tmp"));
    assert Forced(Ascii("a=b")[1]);
  }
}
