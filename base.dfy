/** Bytes, characters and digit strings shared by the decoder's stages. */
module Base {

  datatype Option<+T> = None | Some(value: T)

  /** One byte of the inbound buffer, as an unsigned value. */
  type Byte = b: int | 0 <= b < 256

  /** `Character.isDigit((char) buf.getByte(i))`: a signed byte widened to a
      char is a decimal digit exactly for the ASCII codes of '0'..'9'. */
  predicate IsDigitByte(b: Byte) { 48 <= b <= 57 }

  predicate AllDigitBytes(buf: seq<Byte>, lo: int, hi: int)
    requires 0 <= lo <= hi <= |buf|
  {
    forall k :: lo <= k < hi ==> IsDigitByte(buf[k])
  }

  /** Bytes read as text, one character per byte. */
  function ToText(bytes: seq<Byte>): (t: string)
    ensures |t| == |bytes|
  {
    seq(|bytes|, k requires 0 <= k < |bytes| => bytes[k] as char)
  }

  /** `\d` of java.util.regex (no UNICODE_CHARACTER_CLASS flag). */
  predicate IsDigit(c: char) { '0' <= c <= '9' }

  /** The characters `.` does not match when DOTALL is off. */
  predicate IsLineTerminator(c: char)
  {
    c == '\n' || c == '\r' || c == '\U{85}' || c == '\U{2028}' || c == '\U{2029}'
  }

  predicate AllDigits(t: string)
  {
    forall k :: 0 <= k < |t| ==> IsDigit(t[k])
  }

  /** s holds digits from lo up to hi. */
  predicate DigitsBetween(s: string, lo: nat, hi: nat)
    requires lo <= hi <= |s|
  {
    forall k :: lo <= k < hi ==> IsDigit(s[k])
  }

  lemma DigitsSlice(s: string, lo: nat, hi: nat)
    requires lo <= hi <= |s| && DigitsBetween(s, lo, hi)
    ensures AllDigits(s[lo..hi])
  {
  }

  lemma SliceDigits(s: string, lo: nat, hi: nat)
    requires lo <= hi <= |s| && AllDigits(s[lo..hi])
    ensures DigitsBetween(s, lo, hi)
  {
    assert forall k :: lo <= k < hi ==> s[lo..hi][k - lo] == s[k];
  }

  /** Non-empty run of digits: `\d+`. */
  predicate SomeDigits(t: string) { |t| >= 1 && AllDigits(t) }

  /** Exactly n digits: `\d{n}`. */
  predicate Digits(t: string, n: nat) { |t| == n && AllDigits(t) }

  /** Length of the longest run of digits starting at p. */
  function DigitSpan(s: string, p: nat): (n: nat)
    requires p <= |s|
    ensures p + n <= |s|
    ensures forall k :: p <= k < p + n ==> IsDigit(s[k])
    ensures p + n == |s| || !IsDigit(s[p + n])
    decreases |s| - p
  {
    if p == |s| || !IsDigit(s[p]) then 0 else 1 + DigitSpan(s, p + 1)
  }

  /** A run of n digits that ends at a non-digit (or at the end) is the longest one. */
  lemma DigitSpanIs(s: string, p: nat, n: nat)
    requires p + n <= |s|
    requires forall k :: p <= k < p + n ==> IsDigit(s[k])
    requires p + n == |s| || !IsDigit(s[p + n])
    ensures DigitSpan(s, p) == n
  {
  }

  /** Length of the longest run starting at p that holds no line terminator. */
  function LineSpan(s: string, p: nat): (n: nat)
    requires p <= |s|
    ensures p + n <= |s|
    ensures p + n == |s| || IsLineTerminator(s[p + n])
    decreases |s| - p
  {
    if p == |s| || IsLineTerminator(s[p]) then 0 else 1 + LineSpan(s, p + 1)
  }

  /** No line terminator lies inside the span LineSpan measures. */
  lemma {:induction false} LineSpanClear(s: string, p: nat)
    requires p <= |s|
    ensures forall k :: p <= k < p + LineSpan(s, p) ==> !IsLineTerminator(s[k])
    decreases |s| - p
  {
    if p < |s| && !IsLineTerminator(s[p]) {
      LineSpanClear(s, p + 1);
    }
  }

  function DigitValue(c: char): (d: nat)
    requires IsDigit(c)
    ensures d < 10
  {
    (c as int) - ('0' as int)
  }

  /** Decimal value of a digit string, leading zeros allowed. */
  function Value(t: string): (v: nat)
    requires AllDigits(t)
    ensures v < Pow10(|t|)
  {
    if t == [] then 0 else 10 * Value(t[..|t| - 1]) + DigitValue(t[|t| - 1])
  }

  function Pow10(n: nat): (p: nat)
    ensures p >= 1
  {
    if n == 0 then 1 else 10 * Pow10(n - 1)
  }
}
