/** EnforaProtocolDecoder.decode (lines 53-142): the IMEI scan, the GPRMC marker,
    the full match of the sentence and the assembly of the position, in that order.
    The channel is left out: the buffer is a plain byte sequence whose reader index
    is 0, the device registry behind `identify`/`getDeviceId` is a function from the
    IMEI to the device id (None when the device is unknown), and the clock that
    `Calendar.getInstance` reads is a parameter. */
module Decoder {
  import opened Base
  import opened ImeiScan
  import opened Grammar
  import opened Fields

  /** How one call of decode ends: one of the four `return null`s, an exception
      escaping it, or the position it returns. */
  datatype Outcome =
    | NoImei
    | NoSentence
    | NoMatch
    | Unidentified
    | Fault
    | Located(fix: Fix)

  /** The bytes of "GPRMC" that `StringFinder("GPRMC")` looks for. */
  const Marker: seq<Byte> := [71, 80, 82, 77, 67]

  predicate MarkerAt(buf: seq<Byte>, i: nat)
  {
    i + |Marker| <= |buf| && buf[i..i + |Marker|] == Marker
  }

  /** `buf.indexOf(from, writerIndex, new StringFinder("GPRMC"))`: the first
      index at or after i where the marker starts, None for -1. */
  function FindMarkerFrom(buf: seq<Byte>, i: nat): (r: Option<nat>)
    requires i <= |buf|
    ensures r.Some? ==>
      i <= r.value && MarkerAt(buf, r.value) && forall j :: i <= j < r.value ==> !MarkerAt(buf, j)
    ensures r.None? ==> forall j :: i <= j <= |buf| ==> !MarkerAt(buf, j)
    decreases |buf| - i
  {
    if i == |buf| then None
    else if MarkerAt(buf, i) then Some(i)
    else FindMarkerFrom(buf, i + 1)
  }

  /** The leftmost marker in the buffer. */
  function FindMarker(buf: seq<Byte>): (r: Option<nat>)
    ensures r.Some? ==> MarkerAt(buf, r.value) && forall j :: 0 <= j < r.value ==> !MarkerAt(buf, j)
    ensures r.None? ==> forall j :: 0 <= j <= |buf| ==> !MarkerAt(buf, j)
  {
    FindMarkerFrom(buf, 0)
  }

  /** Line 68: the IMEI text of a found window. */
  function Imei(buf: seq<Byte>, first: nat): (r: string)
    requires first + ImeiLength <= |buf|
    ensures |r| == ImeiLength
  {
    ToText(buf[first..first + ImeiLength])
  }

  /** Line 85: the text from the marker to the end of the buffer. */
  function Sentence(buf: seq<Byte>, start: nat): (r: string)
    requires start <= |buf|
    ensures |r| == |buf| - start
  {
    ToText(buf[start..])
  }

  /** How far decode gets before it consults the registry: stopped with one of
      its outcomes, or a full match of the sentence and the IMEI to look up. */
  datatype Reached = Stopped(outcome: Outcome) | Matched(imei: string, groups: Groups)

  /** Lines 61-91: the IMEI scan, the marker and the full match. */
  function Reach(buf: seq<Byte>): (r: Reached)
    ensures r.Matched? ==> GroupsOk(r.groups)
  {
    match Scan(buf)
    case NotFound => Stopped(NoImei)
    case StartFault => Stopped(Fault)
    case Found(first) =>
      match FindMarker(buf)
      case None => Stopped(NoSentence)
      case Some(start) =>
        match Match(Sentence(buf, start))
        case None => Stopped(NoMatch)
        case Some(g) =>
          MatchSound(Sentence(buf, start));
          Matched(Imei(buf, first), g)
  }

  /** What decode does: the stages up to the match, then lines 94-141. */
  function DecodeSpec(buf: seq<Byte>, protocol: string, identify: string -> Option<nat>): (r: Outcome)
    ensures Reach(buf).Stopped? ==> r == Reach(buf).outcome
    ensures Reach(buf).Matched? ==> r.Unidentified? || r.Fault? || r.Located?
  {
    match Reach(buf)
    case Stopped(outcome) => outcome
    case Matched(imei, g) =>
      match identify(imei)
      case None => Unidentified
      case Some(deviceId) =>
        match Assemble(g, protocol, deviceId)
        case None => Fault
        case Some(fix) => Located(fix)
  }

  /** Lines 53-142. `protocol` is what `getProtocolName()` returns, `now` the
      clock the Calendar starts from before it is cleared. */
  method Decode(buf: seq<Byte>, protocol: string, identify: string -> Option<nat>, now: map<Field, int>)
    returns (r: Outcome)
    ensures r == DecodeSpec(buf, protocol, identify)
  {
    var scan := FindImei(buf);
    if scan.NotFound? {
      return NoImei;
    }
    if scan.StartFault? {
      return Fault;
    }
    var imei := Imei(buf, scan.first);

    var start := FindMarker(buf);
    if start.None? {
      return NoSentence;
    }
    var sentence := Sentence(buf, start.value);

    var parser := Match(sentence);
    if parser.None? {
      return NoMatch;
    }
    ReachIs(buf, scan.first, start.value);

    var position := new Position();
    position.protocol := protocol;
    var deviceId := identify(imei);
    if deviceId.None? {
      return Unidentified;
    }
    position.deviceId := deviceId.value;

    var ok := Fill(parser.value, position, now);
    if !ok {
      return Fault;
    }
    return Located(position.Snapshot());
  }

  /** A found IMEI, a marker and a full match are how far decode gets. */
  lemma ReachIs(buf: seq<Byte>, first: nat, start: nat)
    requires Scan(buf) == Found(first) && FindMarker(buf) == Some(start) && start <= |buf|
    requires Match(Sentence(buf, start)).Some?
    ensures first + ImeiLength <= |buf| && GroupsOk(Match(Sentence(buf, start)).value)
    ensures Reach(buf) == Matched(Imei(buf, first), Match(Sentence(buf, start)).value)
  {
    MatchSound(Sentence(buf, start));
  }

  // ---------------------------------------------------------------------------
  // What decode is proved to do

  /** The off-by-one at the start of the buffer: fourteen leading digits make
      decode throw, whatever follows and whatever the registry says. */
  lemma LeadingDigitsFault(buf: seq<Byte>, protocol: string, identify: string -> Option<nat>)
    requires DigitPrefix(buf)
    ensures DecodeSpec(buf, protocol, identify) == Fault
  {
    ScanStartFault(buf);
  }

  /** decode gives up on the IMEI exactly when no fifteen-digit window exists and
      the buffer does not start with fourteen digits. */
  lemma NoImeiExactly(buf: seq<Byte>, protocol: string, identify: string -> Option<nat>)
    ensures DecodeSpec(buf, protocol, identify) == NoImei <==>
      !DigitPrefix(buf) && forall lo: nat :: lo + ImeiLength <= |buf| ==> !DigitWindow(buf, lo)
  {
    ScanNotFound(buf);
  }

  /** Once an IMEI is found, decode gives up on the sentence exactly when the
      marker occurs nowhere in the buffer. */
  lemma NoSentenceExactly(buf: seq<Byte>, protocol: string, identify: string -> Option<nat>)
    requires Scan(buf).Found?
    ensures DecodeSpec(buf, protocol, identify) == NoSentence <==>
      forall j :: 0 <= j <= |buf| ==> !MarkerAt(buf, j)
  {
  }

  /** Once the IMEI and the marker are found, decode gives up on the sentence
      exactly when no groups make the text from the marker a full match of PATTERN. */
  lemma NoMatchExactly(buf: seq<Byte>, protocol: string, identify: string -> Option<nat>, start: nat)
    requires Scan(buf).Found? && FindMarker(buf) == Some(start) && start <= |buf|
    ensures DecodeSpec(buf, protocol, identify) == NoMatch <==>
      forall g :: !Matches(Sentence(buf, start), g)
  {
    var s := Sentence(buf, start);
    assert Match(s).None? <==> Reach(buf) == Stopped(NoMatch);
    MatchDecides(s);
  }

  /** The registry is consulted only after a full match: up to the match the
      outcome is the same for every `identify`. */
  lemma IdentifyAfterMatch(buf: seq<Byte>, protocol: string, identify: string -> Option<nat>,
    other: string -> Option<nat>)
    requires var r := DecodeSpec(buf, protocol, identify); r.NoImei? || r.NoSentence? || r.NoMatch?
    ensures DecodeSpec(buf, protocol, other) == DecodeSpec(buf, protocol, identify)
  {
    assert Reach(buf).Stopped?;
  }

  /** A refused IMEI ends decode only after a full match of the sentence; the
      stages it went through, read off UnidentifiedExactly. */
  lemma UnidentifiedAfterMatch(buf: seq<Byte>, protocol: string, identify: string -> Option<nat>)
    returns (first: nat, start: nat)
    requires DecodeSpec(buf, protocol, identify) == Unidentified
    ensures Scan(buf) == Found(first) && first + ImeiLength <= |buf|
    ensures FindMarker(buf) == Some(start) && start <= |buf|
    ensures Match(Sentence(buf, start)).Some? && identify(Imei(buf, first)).None?
  {
    UnidentifiedExactly(buf, protocol, identify);
    first := Scan(buf).first;
    start := FindMarker(buf).value;
  }

  /** decode ends with an unknown device exactly when the sentence matched and
      the registry refuses the IMEI, whether or not the groups would convert. */
  lemma UnidentifiedExactly(buf: seq<Byte>, protocol: string, identify: string -> Option<nat>)
    ensures DecodeSpec(buf, protocol, identify) == Unidentified <==>
      Reach(buf).Matched? && identify(Reach(buf).imei).None?
  {
  }

  /** decode throws exactly when the buffer starts with fourteen digits, or when
      the sentence matched, the device is known and a conversion fails. */
  lemma FaultExactly(buf: seq<Byte>, protocol: string, identify: string -> Option<nat>)
    ensures DecodeSpec(buf, protocol, identify) == Fault <==>
      DigitPrefix(buf)
      || (Reach(buf).Matched? && identify(Reach(buf).imei).Some?
          && Assemble(Reach(buf).groups, protocol, identify(Reach(buf).imei).value).None?)
  {
    ScanStartFault(buf);
  }

  /** The stages a full match went through. */
  lemma ReachMatched(buf: seq<Byte>) returns (first: nat, start: nat)
    requires Reach(buf).Matched?
    ensures Scan(buf) == Found(first) && first + ImeiLength <= |buf|
    ensures FindMarker(buf) == Some(start) && start <= |buf|
    ensures Match(Sentence(buf, start)) == Some(Reach(buf).groups)
    ensures Reach(buf).imei == Imei(buf, first)
  {
    first := Scan(buf).first;
    start := FindMarker(buf).value;
  }

  /** A position comes from the stages in order: the IMEI scan, the first
      marker, a full match of the text from there, the registry's device for that
      IMEI and the conversions of the groups. */
  lemma LocatedSound(buf: seq<Byte>, protocol: string, identify: string -> Option<nat>, fix: Fix)
    returns (first: nat, start: nat, g: Groups)
    requires DecodeSpec(buf, protocol, identify) == Located(fix)
    ensures Scan(buf) == Found(first) && first + ImeiLength <= |buf|
    ensures FindMarker(buf) == Some(start) && start <= |buf|
    ensures Match(Sentence(buf, start)) == Some(g) && Reach(buf) == Matched(Imei(buf, first), g)
    ensures identify(Imei(buf, first)) == Some(fix.deviceId)
    ensures Assemble(g, protocol, fix.deviceId) == Some(fix)
  {
    assert Reach(buf).Matched?;
    first, start := ReachMatched(buf);
    g := Reach(buf).groups;
  }

  /** The IMEI of a position: fifteen digits after a non-digit, the first such
      window, and the device the registry names for it. */
  lemma LocatedImei(buf: seq<Byte>, protocol: string, identify: string -> Option<nat>, fix: Fix)
    returns (first: nat)
    requires DecodeSpec(buf, protocol, identify) == Located(fix)
    ensures 1 <= first && first + ImeiLength <= |buf| && !IsDigitByte(buf[first - 1])
    ensures AllDigitBytes(buf, first, first + ImeiLength)
    ensures forall lo :: 0 <= lo < first ==> !DigitWindow(buf, lo)
    ensures identify(Imei(buf, first)) == Some(fix.deviceId)
  {
    var start, g;
    first, start, g := LocatedSound(buf, protocol, identify, fix);
    ScanFound(buf, first);
  }

  /** The sentence of a position: the text from the first marker to the end of
      the buffer, matched in full by the groups the position is converted from. */
  lemma LocatedSentence(buf: seq<Byte>, protocol: string, identify: string -> Option<nat>, fix: Fix)
    returns (start: nat, g: Groups)
    requires DecodeSpec(buf, protocol, identify) == Located(fix)
    ensures start <= |buf| && MarkerAt(buf, start) && forall j :: 0 <= j < start ==> !MarkerAt(buf, j)
    ensures Matches(Sentence(buf, start), g) && Assemble(g, protocol, fix.deviceId) == Some(fix)
  {
    var first;
    first, start, g := LocatedSound(buf, protocol, identify, fix);
    MatchSound(Sentence(buf, start));
  }

  /** Conversely: an IMEI window, a marker and a sentence written with `.` at its
      decimal points give the position the groups convert to. */
  lemma LocatedComplete(buf: seq<Byte>, protocol: string, identify: string -> Option<nat>,
    first: nat, start: nat, g: Groups, fix: Fix)
    requires Scan(buf) == Found(first) && FindMarker(buf) == Some(start) && start <= |buf|
    requires Matches(Sentence(buf, start), g) && PointSeparated(g.speed) && PointSeparated(g.course)
    requires first + ImeiLength <= |buf| && identify(Imei(buf, first)) == Some(fix.deviceId)
    requires Assemble(g, protocol, fix.deviceId) == Some(fix)
    ensures DecodeSpec(buf, protocol, identify) == Located(fix)
  {
    MatchComplete(Sentence(buf, start), g);
  }

  /** The unescaped `.` end to end: a sentence that matches with a comma as the
      decimal point of its minutes makes decode throw once the device is known. */
  lemma CommaMinutesDecodeFault(buf: seq<Byte>, protocol: string, identify: string -> Option<nat>,
    first: nat, start: nat, g: Groups)
    requires Scan(buf) == Found(first) && FindMarker(buf) == Some(start) && start <= |buf|
    requires Match(Sentence(buf, start)) == Some(g)
    requires (|g.latitude.minutes| > 2 && g.latitude.minutes[2] == ',')
      || (|g.longitude.minutes| > 2 && g.longitude.minutes[2] == ',')
    requires first + ImeiLength <= |buf| && identify(Imei(buf, first)).Some?
    ensures DecodeSpec(buf, protocol, identify) == Fault
  {
    MatchSound(Sentence(buf, start));
    CommaMinutesFaults(g, protocol, identify(Imei(buf, first)).value);
  }

  /** An empty speed group end to end: decode throws once the device is known. */
  lemma MissingSpeedDecodeFault(buf: seq<Byte>, protocol: string, identify: string -> Option<nat>,
    first: nat, start: nat, g: Groups)
    requires Scan(buf) == Found(first) && FindMarker(buf) == Some(start) && start <= |buf|
    requires Match(Sentence(buf, start)) == Some(g) && g.speed.None?
    requires first + ImeiLength <= |buf| && identify(Imei(buf, first)).Some?
    ensures DecodeSpec(buf, protocol, identify) == Fault
  {
    MatchSound(Sentence(buf, start));
  }
}
