/** The modem-ID (IMEI) scan at the head of EnforaProtocolDecoder.decode. */
module ImeiScan {
  import opened Base

  /** IMEI_LENGTH: fifteen digits, the IMEI length of 3GPP TS 23.003 section 6.2.1
      (no check digit is verified). */
  const ImeiLength: nat := 15

  /** What the scan loop ends with: the start of the digit run it materialises,
      the out-of-range read `toString(-1, 15)` of a run that begins at byte 0,
      or no qualifying run at all. */
  datatype ScanResult = Found(first: nat) | StartFault | NotFound

  /** Fifteen digit bytes starting at lo. */
  predicate DigitWindow(buf: seq<Byte>, lo: nat)
  {
    lo + ImeiLength <= |buf| && AllDigitBytes(buf, lo, lo + ImeiLength)
  }

  /** The buffer starts with fourteen digits: the loop counts a run that begins
      at byte 0 from `first == -1`, so it stops one byte early. */
  predicate DigitPrefix(buf: seq<Byte>)
  {
    ImeiLength - 1 <= |buf| && AllDigitBytes(buf, 0, ImeiLength - 1)
  }

  /** The loop's exit test `i - first == IMEI_LENGTH - 1` holds at byte i. */
  predicate FiresAt(buf: seq<Byte>, i: nat)
  {
    (i == ImeiLength - 2 && DigitPrefix(buf))
    || (i >= ImeiLength - 1 && DigitWindow(buf, i - (ImeiLength - 1)))
  }

  /** The leftmost byte at or after i where the exit test holds decides the scan. */
  function ScanFrom(buf: seq<Byte>, i: nat): (r: ScanResult)
    requires i <= |buf|
    ensures r.NotFound? <==> forall j :: i <= j < |buf| ==> !FiresAt(buf, j)
    ensures r.StartFault? ==> i <= ImeiLength - 2 && FiresAt(buf, ImeiLength - 2)
    ensures r.Found? ==>
      i <= r.first + (ImeiLength - 1) && DigitWindow(buf, r.first)
      && forall j :: i <= j < r.first + (ImeiLength - 1) ==> !FiresAt(buf, j)
    decreases |buf| - i
  {
    if i == |buf| then NotFound
    else if FiresAt(buf, i) then
      (if i == ImeiLength - 2 then StartFault else Found(i - (ImeiLength - 1)))
    else ScanFrom(buf, i + 1)
  }

  /** The scan over the whole buffer: a found IMEI is a window of fifteen digits,
      and a fault means fourteen leading digits. */
  function Scan(buf: seq<Byte>): (r: ScanResult)
    ensures r.Found? ==> DigitWindow(buf, r.first)
    ensures r.StartFault? ==> DigitPrefix(buf)
  {
    ScanFrom(buf, 0)
  }

  /** The exit test on the loop's own variables agrees with FiresAt: `first` is
      the start of the digit run that ends at byte i. */
  lemma ExitTest(buf: seq<Byte>, i: nat, first: int)
    requires i < |buf| && (first == -1 || 1 <= first <= i + 1) && i - first <= ImeiLength - 1
    requires first == -1 ==> AllDigitBytes(buf, 0, i + 1)
    requires first >= 1 ==> AllDigitBytes(buf, first, i + 1) && !IsDigitByte(buf[first - 1])
    ensures FiresAt(buf, i) <==> i - first == ImeiLength - 1
  {
  }

  /** The IMEI loop (lines 61-71): `first` is the start of the current digit run,
      -1 before any non-digit has been seen. */
  method FindImei(buf: seq<Byte>) returns (r: ScanResult)
    ensures r == Scan(buf)
  {
    var first: int := -1;
    var i := 0;
    r := NotFound;
    while i < |buf|
      invariant 0 <= i <= |buf|
      invariant first == -1 || 1 <= first <= i
      invariant i - first <= ImeiLength - 1
      invariant first == -1 ==> AllDigitBytes(buf, 0, i)
      invariant first >= 1 ==> AllDigitBytes(buf, first, i) && !IsDigitByte(buf[first - 1])
      invariant ScanFrom(buf, i) == Scan(buf)
    {
      if !IsDigitByte(buf[i]) {
        first := i + 1;
      }
      ExitTest(buf, i, first);
      if i - first == ImeiLength - 1 {
        if first < 0 {
          r := StartFault;
        } else {
          r := Found(first);
        }
        break;
      }
      i := i + 1;
    }
  }

  /** A found IMEI is fifteen digits preceded by a non-digit, and no fifteen-digit
      window starts earlier; the buffer does not start with fourteen digits. */
  lemma ScanFound(buf: seq<Byte>, f: nat)
    requires Scan(buf) == Found(f)
    ensures 1 <= f && f + ImeiLength <= |buf|
    ensures AllDigitBytes(buf, f, f + ImeiLength) && !IsDigitByte(buf[f - 1])
    ensures forall lo :: 0 <= lo < f ==> !DigitWindow(buf, lo)
    ensures !DigitPrefix(buf)
  {
    assert !FiresAt(buf, ImeiLength - 2);
    forall lo | 0 <= lo < f
      ensures !DigitWindow(buf, lo)
    {
      assert !FiresAt(buf, lo + (ImeiLength - 1));
    }
    if f >= 2 {
      assert !DigitWindow(buf, f - 1);
    }
  }

  /** The off-by-one at the start of the buffer: the scan faults exactly when the
      buffer starts with fourteen digits. */
  lemma ScanStartFault(buf: seq<Byte>)
    ensures Scan(buf) == StartFault <==> DigitPrefix(buf)
  {
    if DigitPrefix(buf) {
      assert FiresAt(buf, ImeiLength - 2);
      forall j | 0 <= j < ImeiLength - 2 ensures !FiresAt(buf, j) { }
      match Scan(buf)
      case NotFound =>
      case StartFault =>
      case Found(f) =>
    }
  }

  /** No IMEI is found exactly when the buffer has no fifteen-digit window and does
      not start with fourteen digits. */
  lemma ScanNotFound(buf: seq<Byte>)
    ensures Scan(buf) == NotFound <==>
      !DigitPrefix(buf) && forall lo: nat :: lo + ImeiLength <= |buf| ==> !DigitWindow(buf, lo)
  {
    if Scan(buf) == NotFound {
      assert !DigitPrefix(buf) by {
        if DigitPrefix(buf) { assert FiresAt(buf, ImeiLength - 2); }
      }
      forall lo: nat | lo + ImeiLength <= |buf|
        ensures !DigitWindow(buf, lo)
      {
        assert !FiresAt(buf, lo + (ImeiLength - 1));
      }
    }
  }

  /** The first run of fifteen or more digits that does not start at byte 0 is the
      IMEI, cut to its first fifteen digits. */
  lemma FirstRunWins(buf: seq<Byte>, s: nat, len: nat)
    requires 1 <= s && ImeiLength <= len && s + len <= |buf|
    requires AllDigitBytes(buf, s, s + len) && !IsDigitByte(buf[s - 1])
    requires !DigitPrefix(buf)
    requires forall lo :: 0 <= lo < s ==> !DigitWindow(buf, lo)
    ensures Scan(buf) == Found(s)
    ensures ToText(buf[s..s + ImeiLength]) == ToText(buf[s..s + len])[..ImeiLength]
  {
    assert FiresAt(buf, s + (ImeiLength - 1));
    match Scan(buf)
    case NotFound =>
    case StartFault =>
    case Found(f) =>
  }
}
