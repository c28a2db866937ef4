/** The sentence grammar PATTERN (EnforaProtocolDecoder.java lines 37-48) and a
    matcher for it that takes the alternatives in the order java.util.regex
    backtracks through them. */
module Grammar {
  import opened Base

  /** Capture groups 1-4: HHMMSS.SS, the separator itself is not captured. */
  datatype TimeOfDay = TimeOfDay(hour: string, minute: string, second: string, fraction: string)

  /** Groups 6-8 (latitude) or 9-11 (longitude): degrees, minutes and hemisphere. */
  datatype Coordinate = Coordinate(degrees: string, minutes: string, hemisphere: char)

  /** Groups 14-16: DDMMYY. */
  datatype Date = Date(day: string, month: string, year: string)

  /** The sixteen capture groups of a successful match; speed (12) and course (13)
      are the only groups that can be null. */
  datatype Groups = Groups(
    time: TimeOfDay, status: char, latitude: Coordinate, longitude: Coordinate,
    speed: Option<string>, course: Option<string>, date: Date)

  /** `parser.group(i)` */
  function Group(g: Groups, i: nat): (r: Option<string>)
    requires 1 <= i <= 16
    ensures i != 12 && i != 13 ==> r.Some?
  {
    [Some(g.time.hour), Some(g.time.minute), Some(g.time.second), Some(g.time.fraction),
     Some([g.status]),
     Some(g.latitude.degrees), Some(g.latitude.minutes), Some([g.latitude.hemisphere]),
     Some(g.longitude.degrees), Some(g.longitude.minutes), Some([g.longitude.hemisphere]),
     g.speed, g.course,
     Some(g.date.day), Some(g.date.month), Some(g.date.year)][i - 1]
  }

  // ---------------------------------------------------------------------------
  // What each group may hold

  /** `\d+.\d+`: digits, any character but a line terminator, digits. */
  predicate IsDecimal(t: string)
  {
    exists k :: 1 <= k < |t| - 1 && AllDigits(t[..k]) && !IsLineTerminator(t[k]) && AllDigits(t[k + 1..])
  }

  /** `\d{2}.\d+` */
  predicate IsMinutes(t: string)
  {
    |t| >= 4 && IsDigit(t[0]) && IsDigit(t[1]) && !IsLineTerminator(t[2]) && AllDigits(t[3..])
  }

  predicate TimeOk(t: TimeOfDay)
  {
    Digits(t.hour, 2) && Digits(t.minute, 2) && Digits(t.second, 2) && SomeDigits(t.fraction)
  }

  predicate CoordinateOk(c: Coordinate, width: nat, positive: char, negative: char)
  {
    Digits(c.degrees, width) && IsMinutes(c.minutes)
    && (c.hemisphere == positive || c.hemisphere == negative)
  }

  /** An optional `(\d+.\d+)?` group. */
  predicate OptionalDecimalOk(o: Option<string>)
  {
    o.None? || IsDecimal(o.value)
  }

  predicate DateOk(d: Date)
  {
    Digits(d.day, 2) && Digits(d.month, 2) && Digits(d.year, 2)
  }

  predicate GroupsOk(g: Groups)
  {
    TimeOk(g.time) && (g.status == 'A' || g.status == 'V')
    && CoordinateOk(g.latitude, 2, 'N', 'S') && CoordinateOk(g.longitude, 3, 'E', 'W')
    && OptionalDecimalOk(g.speed) && OptionalDecimalOk(g.course) && DateOk(g.date)
  }

  /** A decimal group, when present, has `.` at its any-character position. */
  predicate PointSeparated(o: Option<string>)
  {
    o.None? || '.' in o.value
  }

  // ---------------------------------------------------------------------------
  // The text a match consumes

  function TimeText(t: TimeOfDay, separator: char): string
  {
    t.hour + t.minute + t.second + [separator] + t.fraction + ","
  }

  function StatusText(status: char): string
  {
    [status, ',']
  }

  function CoordinateText(c: Coordinate): string
  {
    c.degrees + c.minutes + "," + [c.hemisphere] + ","
  }

  function Optional(o: Option<string>): string
  {
    if o.Some? then o.value else ""
  }

  function DateText(d: Date): string
  {
    d.day + d.month + d.year + ","
  }

  function CourseText(course: Option<string>, d: Date): string
  {
    Optional(course) + "," + DateText(d)
  }

  function MotionText(speed: Option<string>, course: Option<string>, d: Date): string
  {
    Optional(speed) + "," + CourseText(course, d)
  }

  /** Everything PATTERN matches before its final `.*[\r\n\u0000]*`. */
  function SentenceText(g: Groups, separator: char): string
  {
    "GPRMC," + TimeText(g.time, separator) + StatusText(g.status)
    + CoordinateText(g.latitude) + CoordinateText(g.longitude)
    + MotionText(g.speed, g.course, g.date)
  }

  /** `[\r\n\u0000]` */
  predicate IsLineEnd(c: char) { c == '\r' || c == '\n' || c == '\0' }

  predicate NoLineTerminators(t: string)
  {
    forall k :: 0 <= k < |t| ==> !IsLineTerminator(t[k])
  }

  predicate AllLineEnds(t: string)
  {
    forall k :: 0 <= k < |t| ==> IsLineEnd(t[k])
  }

  /** `.*[\r\n\u0000]*` */
  predicate IsTrailer(t: string)
  {
    exists k :: 0 <= k <= |t| && NoLineTerminators(t[..k]) && AllLineEnds(t[k..])
  }

  /** t occurs in s at position p. */
  predicate At(s: string, p: nat, t: string)
  {
    p + |t| <= |s| && forall k :: 0 <= k < |t| ==> s[p + k] == t[k]
  }

  lemma AtSlice(s: string, p: nat, t: string)
    requires p + |t| <= |s|
    ensures At(s, p, t) <==> s[p..p + |t|] == t
  {
    if At(s, p, t) {
      assert forall k :: 0 <= k < |t| ==> s[p..p + |t|][k] == t[k];
    }
  }

  /** `PATTERN.matcher(s).matches()` succeeds with groups g: the whole of s is the
      text of g followed by a trailer. The time separator is whatever s holds at 12. */
  predicate Matches(s: string, g: Groups)
  {
    |s| > 12 && !IsLineTerminator(s[12]) && GroupsOk(g)
    && var r := SentenceText(g, s[12]);
    At(s, 0, r) && IsTrailer(s[|r|..])
  }

  lemma AtConcat(s: string, p: nat, a: string, b: string)
    ensures At(s, p, a + b) <==> At(s, p, a) && At(s, p + |a|, b)
  {
    if At(s, p, a) && At(s, p + |a|, b) {
      forall k | 0 <= k < |a + b|
        ensures s[p + k] == (a + b)[k]
      {
        if k >= |a| {
          assert s[p + |a| + (k - |a|)] == b[k - |a|];
        }
      }
    }
    if At(s, p, a + b) {
      forall k | 0 <= k < |a|
        ensures s[p + k] == a[k]
      {
        assert s[p + k] == (a + b)[k];
      }
      forall k | 0 <= k < |b|
        ensures s[p + |a| + k] == b[k]
      {
        assert s[p + (|a| + k)] == (a + b)[|a| + k];
      }
    }
  }

  // ---------------------------------------------------------------------------
  // The matcher, section by section

  /** `(\d{2})(\d{2})(\d{2}).(\d+),` at p: the fraction is the longest digit run
      after the separator, and a comma must follow it. */
  function MatchTime(s: string, p: nat): (r: Option<(TimeOfDay, nat)>)
    requires p <= |s|
    ensures r.Some? ==> p + 9 <= r.value.1 <= |s|
  {
    if p + 7 <= |s| && DigitsBetween(s, p, p + 6) && !IsLineTerminator(s[p + 6]) then
      var n := DigitSpan(s, p + 7);
      if n >= 1 && p + 7 + n < |s| && s[p + 7 + n] == ',' then
        Some((TimeOfDay(s[p..p + 2], s[p + 2..p + 4], s[p + 4..p + 6], s[p + 7..p + 7 + n]), p + 8 + n))
      else None
    else None
  }

  /** `([AV]),` at p. */
  function MatchStatus(s: string, p: nat): (r: Option<(char, nat)>)
    requires p <= |s|
    ensures r.Some? ==> r.value.1 == p + 2 <= |s|
  {
    if p + 2 <= |s| && (s[p] == 'A' || s[p] == 'V') && s[p + 1] == ',' then Some((s[p], p + 2))
    else None
  }

  lemma MatchStatusSound(s: string, p: nat, status: char)
    requires p <= |s| && MatchStatus(s, p) == Some((status, p + 2))
    ensures (status == 'A' || status == 'V') && At(s, p, StatusText(status))
  {
    assert s[p..p + 2] == StatusText(status);
    AtSlice(s, p, StatusText(status));
  }

  /** `(\d{width})(\d{2}.\d+),([positive negative]),` at p. */
  function MatchCoordinate(s: string, p: nat, width: nat, positive: char, negative: char)
    : (r: Option<(Coordinate, nat)>)
    requires p <= |s|
    ensures r.Some? ==> p + width + 7 <= r.value.1 <= |s|
  {
    var m := p + width;
    if m + 3 <= |s| && DigitsBetween(s, p, m + 2) && !IsLineTerminator(s[m + 2]) then
      var n := DigitSpan(s, m + 3);
      var e := m + 3 + n;
      if n >= 1 && e + 3 <= |s| && s[e] == ',' && (s[e + 1] == positive || s[e + 1] == negative)
         && s[e + 2] == ','
      then Some((Coordinate(s[p..m], s[m..e], s[e + 1]), e + 3))
      else None
    else None
  }

  /** `(\d{2})(\d{2})(\d{2}),` at p. */
  function MatchDate(s: string, p: nat): (r: Option<(Date, nat)>)
    requires p <= |s|
    ensures r.Some? ==> r.value.1 == p + 7 <= |s|
  {
    if p + 7 <= |s| && DigitsBetween(s, p, p + 6) && s[p + 6] == ',' then
      Some((Date(s[p..p + 2], s[p + 2..p + 4], s[p + 4..p + 6]), p + 7))
    else None
  }

  /** What the time section reads is a time laid out at p, with the separator s holds. */
  lemma TimeSlice(s: string, p: nat, e: nat)
    requires p + 7 <= e < |s| && s[e] == ','
    ensures s[p..e + 1] == TimeText(TimeOfDay(s[p..p + 2], s[p + 2..p + 4], s[p + 4..p + 6], s[p + 7..e]), s[p + 6])
  {
    var t := TimeText(TimeOfDay(s[p..p + 2], s[p + 2..p + 4], s[p + 4..p + 6], s[p + 7..e]), s[p + 6]);
    assert |t| == e + 1 - p;
    forall k | 0 <= k < |t|
      ensures s[p..e + 1][k] == t[k]
    {
      if k >= 7 && k < e - p {
        assert t[k] == s[p + 7..e][k - 7];
      }
    }
  }

  lemma MatchTimeSound(s: string, p: nat, t: TimeOfDay, q: nat)
    requires p <= |s| && MatchTime(s, p) == Some((t, q))
    ensures p + 7 <= |s| && !IsLineTerminator(s[p + 6]) && TimeOk(t)
    ensures At(s, p, TimeText(t, s[p + 6])) && q == p + |TimeText(t, s[p + 6])|
  {
    var n := DigitSpan(s, p + 7);
    DigitsSlice(s, p, p + 2);
    DigitsSlice(s, p + 2, p + 4);
    DigitsSlice(s, p + 4, p + 6);
    DigitsSlice(s, p + 7, p + 7 + n);
    assert t == TimeOfDay(s[p..p + 2], s[p + 2..p + 4], s[p + 4..p + 6], s[p + 7..p + 7 + n]);
    TimeSlice(s, p, p + 7 + n);
    AtSlice(s, p, TimeText(t, s[p + 6]));
  }

  /** What the coordinate section reads is a coordinate laid out at p. */
  lemma CoordinateSlice(s: string, p: nat, m: nat, e: nat)
    requires p <= m <= e && e + 3 <= |s| && s[e] == ',' && s[e + 2] == ','
    ensures s[p..e + 3] == CoordinateText(Coordinate(s[p..m], s[m..e], s[e + 1]))
  {
    assert s[p..e + 3] == s[p..m] + s[m..e] + "," + [s[e + 1]] + ",";
  }

  lemma MatchCoordinateSound(s: string, p: nat, width: nat, positive: char, negative: char,
    c: Coordinate, q: nat)
    requires p <= |s| && MatchCoordinate(s, p, width, positive, negative) == Some((c, q))
    ensures CoordinateOk(c, width, positive, negative) && At(s, p, CoordinateText(c))
    ensures q == p + |CoordinateText(c)|
  {
    var m := p + width;
    var n := DigitSpan(s, m + 3);
    var e := m + 3 + n;
    assert c == Coordinate(s[p..m], s[m..e], s[e + 1]);
    DigitsSlice(s, p, m);
    DigitsSlice(s, m + 3, e);
    assert c.minutes[3..] == s[m + 3..e];
    CoordinateSlice(s, p, m, e);
    AtSlice(s, p, CoordinateText(c));
  }

  /** What the date section reads is a date laid out at p. */
  lemma MatchDateSound(s: string, p: nat)
    requires p <= |s| && MatchDate(s, p).Some?
    ensures DateOk(MatchDate(s, p).value.0) && At(s, p, DateText(MatchDate(s, p).value.0))
  {
    DigitsSlice(s, p, p + 2);
    DigitsSlice(s, p + 2, p + 4);
    DigitsSlice(s, p + 4, p + 6);
    assert s[p..p + 7] == DateText(MatchDate(s, p).value.0);
  }

  /** `.*[\r\n\u0000]*` decided: the longest terminator-free prefix, then line ends only. */
  predicate TrailerOk(t: string)
  {
    LineEndsFrom(t, LineSpan(t, 0))
  }

  /** t holds only line ends from i on. */
  predicate LineEndsFrom(t: string, i: nat)
    requires i <= |t|
    decreases |t| - i
  {
    i == |t| || (IsLineEnd(t[i]) && LineEndsFrom(t, i + 1))
  }

  lemma {:induction false} LineEndsFromAll(t: string, i: nat)
    requires i <= |t|
    ensures LineEndsFrom(t, i) <==> AllLineEnds(t[i..])
    decreases |t| - i
  {
    if i < |t| {
      LineEndsFromAll(t, i + 1);
      assert t[i..][0] == t[i];
      var u, v := t[i..], t[i + 1..];
      if AllLineEnds(u) {
        forall k | 0 <= k < |v|
          ensures IsLineEnd(v[k])
        {
          assert v[k] == u[k + 1];
        }
      }
    }
  }

  /** The ends e, in backtracking order, at which `\d+.\d+` starting at p can be
      followed by a comma: first the digits, the next character as the separator and
      the digits after it; then the leading digits alone, split around one of
      their own digits. */
  function DecimalEnds(s: string, p: nat): (ends: seq<nat>)
    requires p <= |s|
    ensures forall k :: 0 <= k < |ends| ==> p < ends[k] <= |s|
  {
    var n := DigitSpan(s, p);
    var q := p + n;
    (if n >= 1 && q < |s| && !IsLineTerminator(s[q]) && DigitSpan(s, q + 1) >= 1
     then [q + 1 + DigitSpan(s, q + 1)] else [])
    + (if n >= 3 then [q] else [])
  }

  /** `,(\d{2})(\d{2})(\d{2}),.*[\r\n\u0000]*` from e to the end. */
  function AfterCourse(s: string, e: nat): (r: Option<Date>)
    requires e <= |s|
    ensures r.Some? ==> e < |s| && s[e] == ','
  {
    if e < |s| && s[e] == ',' then
      match MatchDate(s, e + 1)
      case Some((d, q)) => if TrailerOk(s[q..]) then Some(d) else None
      case None => None
    else None
  }

  /** `(\d+.\d+)?` for the course at p: each candidate end in turn, then the empty
      group. */
  function MatchCourse(s: string, p: nat, ends: seq<nat>): (r: Option<(Option<string>, Date)>)
    requires p <= |s|
    requires forall k :: 0 <= k < |ends| ==> p <= ends[k] <= |s|
    ensures r.Some? && r.value.0.None? ==> AfterCourse(s, p) == Some(r.value.1)
    decreases |ends|
  {
    if ends == [] then
      match AfterCourse(s, p)
      case Some(d) => Some((None, d))
      case None => None
    else
      match AfterCourse(s, ends[0])
      case Some(d) => Some((Some(s[p..ends[0]]), d))
      case None => MatchCourse(s, p, ends[1..])
  }

  /** The comma after the speed group ending at e, and everything after it. */
  function AfterSpeed(s: string, e: nat, speed: Option<string>)
    : (r: Option<(Option<string>, Option<string>, Date)>)
    requires e <= |s|
    ensures r.Some? ==> e < |s| && s[e] == ',' && r.value.0 == speed
  {
    if e < |s| && s[e] == ',' then
      match MatchCourse(s, e + 1, DecimalEnds(s, e + 1))
      case Some((course, d)) => Some((speed, course, d))
      case None => None
    else None
  }

  /** `(\d+.\d+)?` for the speed at p: each candidate end in turn, then the empty group. */
  function MatchSpeed(s: string, p: nat, ends: seq<nat>)
    : (r: Option<(Option<string>, Option<string>, Date)>)
    requires p <= |s|
    requires forall k :: 0 <= k < |ends| ==> p <= ends[k] <= |s|
    ensures r.Some? && r.value.0.None? ==> AfterSpeed(s, p, None) == r
    decreases |ends|
  {
    if ends == [] then AfterSpeed(s, p, None)
    else
      match AfterSpeed(s, ends[0], Some(s[p..ends[0]]))
      case Some(x) => Some(x)
      case None => MatchSpeed(s, p, ends[1..])
  }

  /** `(\d+.\d+)?,(\d+.\d+)?,(\d{2})(\d{2})(\d{2}),.*[\r\n\u0000]*` from p to the end. */
  function MatchMotion(s: string, p: nat): Option<(Option<string>, Option<string>, Date)>
    requires p <= |s|
  {
    MatchSpeed(s, p, DecimalEnds(s, p))
  }

  /** `PATTERN.matcher(sentence)`, `matches()` and the groups it captures. */
  function Match(s: string): (r: Option<Groups>)
    ensures r.Some? ==> 15 <= |s| && s[..6] == "GPRMC,"
  {
    if !(6 <= |s| && s[..6] == "GPRMC,") then None
    else
      var time := MatchTime(s, 6);
      if time.None? then None
      else
        var status := MatchStatus(s, time.value.1);
        if status.None? then None
        else
          var latitude := MatchCoordinate(s, status.value.1, 2, 'N', 'S');
          if latitude.None? then None
          else
            var longitude := MatchCoordinate(s, latitude.value.1, 3, 'E', 'W');
            if longitude.None? then None
            else
              var motion := MatchMotion(s, longitude.value.1);
              if motion.None? then None
              else
                Some(Groups(time.value.0, status.value.0, latitude.value.0, longitude.value.0,
                  motion.value.0, motion.value.1, motion.value.2))
  }

  // ---------------------------------------------------------------------------
  // What the matcher is proved to do

  /** The trailer decision agrees with `.*[\r\n\u0000]*`. */
  lemma TrailerDecision(t: string)
    ensures TrailerOk(t) <==> IsTrailer(t)
  {
    var m := LineSpan(t, 0);
    LineSpanClear(t, 0);
    LineEndsFromAll(t, m);
    if TrailerOk(t) {
      assert NoLineTerminators(t[..m]);
    }
    if IsTrailer(t) {
      var k :| 0 <= k <= |t| && NoLineTerminators(t[..k]) && AllLineEnds(t[k..]);
      forall j | 0 <= j < |t| - m
        ensures IsLineEnd(t[m..][j])
      {
        assert t[m..][j] == t[k..][j + m - k];
      }
    }
  }

  /** The first candidate: digits, a separator that is not a line terminator, digits. */
  lemma SeparatedDecimal(s: string, p: nat, q: nat, e: nat)
    requires p < q && q + 1 < e <= |s| && !IsLineTerminator(s[q])
    requires DigitsBetween(s, p, q) && DigitsBetween(s, q + 1, e)
    ensures IsDecimal(s[p..e])
  {
    var x := s[p..e];
    var n := q - p;
    assert x[..n] == s[p..q] && x[n + 1..] == s[q + 1..e];
    DigitsSlice(s, p, q);
    DigitsSlice(s, q + 1, e);
    assert 1 <= n < |x| - 1 && AllDigits(x[..n]) && !IsLineTerminator(x[n]) && AllDigits(x[n + 1..]);
  }

  /** Every candidate end of a decimal group delimits a `\d+.\d+`. */
  lemma DecimalEndsSound(s: string, p: nat)
    requires p <= |s|
    ensures forall k :: 0 <= k < |DecimalEnds(s, p)| ==> IsDecimal(s[p..DecimalEnds(s, p)[k]])
  {
    var n := DigitSpan(s, p);
    var q := p + n;
    var first := n >= 1 && q < |s| && !IsLineTerminator(s[q]) && DigitSpan(s, q + 1) >= 1;
    var ends := DecimalEnds(s, p);
    assert |ends| == (if first then 1 else 0) + (if n >= 3 then 1 else 0);
    forall k | 0 <= k < |ends|
      ensures IsDecimal(s[p..ends[k]])
    {
      if first && k == 0 {
        assert ends[k] == q + 1 + DigitSpan(s, q + 1);
        SeparatedDecimal(s, p, q, ends[k]);
      } else {
        assert ends[k] == q;
        assert IsDigit(s[q - 2]);
        SeparatedDecimal(s, p, q - 2, ends[k]);
      }
    }
  }

  /** All digits up to the comma: the leading digits split around one of their own. */
  lemma DecimalEndsAllDigits(s: string, p: nat, e: nat)
    requires p + 3 <= e < |s| && DigitsBetween(s, p, e) && s[e] == ','
    ensures e in DecimalEnds(s, p)
  {
    DigitSpanIs(s, p, e - p);
    var ends := DecimalEnds(s, p);
    assert ends[|ends| - 1] == e;
  }

  /** A non-digit separator: the first candidate. */
  lemma DecimalEndsSeparated(s: string, p: nat, k: nat, e: nat)
    requires 1 <= k && p + k + 1 < e < |s|
    requires DigitsBetween(s, p, p + k) && !IsDigit(s[p + k]) && !IsLineTerminator(s[p + k])
    requires DigitsBetween(s, p + k + 1, e) && s[e] == ','
    ensures |DecimalEnds(s, p)| > 0 && DecimalEnds(s, p)[0] == e
  {
    DigitSpanIs(s, p, k);
    DigitSpanIs(s, p + k + 1, e - p - k - 1);
  }

  /** The position of the any-character of a `\d+.\d+`. */
  lemma DecimalPoint(x: string) returns (k: nat)
    requires IsDecimal(x)
    ensures 1 <= k < |x| - 1 && AllDigits(x[..k]) && !IsLineTerminator(x[k]) && AllDigits(x[k + 1..])
  {
    k :| 1 <= k < |x| - 1 && AllDigits(x[..k]) && !IsLineTerminator(x[k]) && AllDigits(x[k + 1..]);
  }

  /** Where the any-character position of a `\d+.\d+` at p..e lies, read off s. */
  lemma DecimalSplit(s: string, p: nat, e: nat) returns (k: nat)
    requires p < e <= |s| && IsDecimal(s[p..e])
    ensures 1 <= k && p + k + 1 < e && !IsLineTerminator(s[p + k])
    ensures DigitsBetween(s, p, p + k) && DigitsBetween(s, p + k + 1, e)
  {
    var x := s[p..e];
    k := DecimalPoint(x);
    assert x[k] == s[p + k];
    assert x[..k] == s[p..p + k];
    assert x[k + 1..] == s[p + k + 1..e];
    SliceDigits(s, p, p + k);
    SliceDigits(s, p + k + 1, e);
  }

  /** A decimal group followed by a comma ends at one of the candidates; when its
      separator is `.` it ends at the first. */
  lemma DecimalEndsComplete(s: string, p: nat, e: nat)
    requires p < e < |s| && IsDecimal(s[p..e]) && s[e] == ','
    ensures e in DecimalEnds(s, p)
    ensures '.' in s[p..e] ==> DecimalEnds(s, p)[0] == e
  {
    var k := DecimalSplit(s, p, e);
    if IsDigit(s[p + k]) {
      assert DigitsBetween(s, p, e);
      DecimalEndsAllDigits(s, p, e);
      assert forall j :: 0 <= j < e - p ==> s[p..e][j] == s[p + j];
    } else {
      DecimalEndsSeparated(s, p, k, e);
      assert DecimalEnds(s, p)[0] in DecimalEnds(s, p);
    }
  }

  /** An empty decimal group: a comma at p offers no candidate end. */
  lemma DecimalEndsAtComma(s: string, p: nat)
    requires p < |s| && s[p] == ','
    ensures DecimalEnds(s, p) == []
  {
    DigitSpanIs(s, p, 0);
  }

  /** t at p, then a trailer to the end of s. */
  predicate LaidOut(s: string, p: nat, t: string)
  {
    At(s, p, t) && TrailerOk(s[p + |t|..])
  }

  /** The course, the date and the trailer laid out from p. */
  predicate CourseFits(s: string, p: nat, course: Option<string>, d: Date)
  {
    OptionalDecimalOk(course) && DateOk(d) && LaidOut(s, p, CourseText(course, d))
  }

  /** The speed, the course, the date and the trailer laid out from p. */
  predicate MotionFits(s: string, p: nat, speed: Option<string>, course: Option<string>, d: Date)
  {
    OptionalDecimalOk(speed) && OptionalDecimalOk(course) && DateOk(d)
    && LaidOut(s, p, MotionText(speed, course, d))
  }

  /** A text, a comma and a second text laid out from p, then the trailer, taken
      apart and put together. */
  lemma CommaJoin(s: string, p: nat, e: nat, a: string, b: string)
    requires At(s, p, a) && e == p + |a| && e < |s| && s[e] == ','
    requires LaidOut(s, e + 1, b)
    ensures LaidOut(s, p, a + "," + b)
  {
    assert s[e + 0] == ","[0];
    AtConcat(s, p, a, ",");
    AtConcat(s, p, a + ",", b);
    assert p + |a + "," + b| == e + 1 + |b|;
  }

  lemma CommaSplit(s: string, p: nat, a: string, b: string) returns (e: nat)
    requires LaidOut(s, p, a + "," + b)
    ensures e == p + |a| && e < |s| && s[e] == ','
    ensures s[p..e] == a && LaidOut(s, e + 1, b)
  {
    e := p + |a|;
    AtConcat(s, p, a + ",", b);
    AtConcat(s, p, a, ",");
    AtChar(s, e, ',');
    AtSlice(s, p, a);
    assert p + |a + "," + b| == e + 1 + |b|;
  }

  /** The course group, the date and the trailer that AfterCourse accepts after it. */
  lemma AfterCourseSound(s: string, p: nat, course: Option<string>)
    requires OptionalDecimalOk(course) && At(s, p, Optional(course))
    requires AfterCourse(s, p + |Optional(course)|).Some?
    ensures CourseFits(s, p, course, AfterCourse(s, p + |Optional(course)|).value)
  {
    var e := p + |Optional(course)|;
    var d := AfterCourse(s, e).value;
    MatchDateSound(s, e + 1);
    assert |DateText(d)| == 7;
    CommaJoin(s, p, e, Optional(course), DateText(d));
    assert CourseText(course, d) == Optional(course) + "," + DateText(d);
  }

  lemma {:induction false} MatchCourseSound(s: string, p: nat, ends: seq<nat>)
    requires p <= |s|
    requires forall k :: 0 <= k < |ends| ==> p < ends[k] <= |s| && IsDecimal(s[p..ends[k]])
    ensures MatchCourse(s, p, ends).Some? ==>
      CourseFits(s, p, MatchCourse(s, p, ends).value.0, MatchCourse(s, p, ends).value.1)
    decreases |ends|
  {
    if ends == [] {
      if AfterCourse(s, p).Some? {
        AfterCourseSound(s, p, None);
      }
    } else if AfterCourse(s, ends[0]).Some? {
      AfterCourseSound(s, p, Some(s[p..ends[0]]));
    } else {
      MatchCourseSound(s, p, ends[1..]);
    }
  }

  lemma MotionFromCourse(s: string, p: nat, e: nat, speed: Option<string>, course: Option<string>, d: Date)
    requires OptionalDecimalOk(speed) && At(s, p, Optional(speed))
    requires e == p + |Optional(speed)| && e < |s| && s[e] == ','
    requires CourseFits(s, e + 1, course, d)
    ensures MotionFits(s, p, speed, course, d)
  {
    CommaJoin(s, p, e, Optional(speed), CourseText(course, d));
    assert MotionText(speed, course, d) == Optional(speed) + "," + CourseText(course, d);
  }

  /** The course search from q returns a course, a date and a trailer laid out from q. */
  lemma CourseSearchSound(s: string, q: nat)
    requires q <= |s| && MatchCourse(s, q, DecimalEnds(s, q)).Some?
    ensures var r := MatchCourse(s, q, DecimalEnds(s, q)).value; CourseFits(s, q, r.0, r.1)
  {
    DecimalEndsSound(s, q);
    MatchCourseSound(s, q, DecimalEnds(s, q));
  }

  /** What AfterSpeed accepts: a comma, then a course search that succeeds. */
  lemma AfterSpeedParts(s: string, e: nat, speed: Option<string>)
    requires e <= |s| && AfterSpeed(s, e, speed).Some?
    ensures e < |s| && s[e] == ',' && AfterSpeed(s, e, speed).value.0 == speed
    ensures CourseFits(s, e + 1, AfterSpeed(s, e, speed).value.1, AfterSpeed(s, e, speed).value.2)
  {
    CourseSearchSound(s, e + 1);
  }

  lemma AfterSpeedSound(s: string, p: nat, e: nat, speed: Option<string>)
    requires p <= e <= |s| && OptionalDecimalOk(speed) && At(s, p, Optional(speed))
    requires e == p + |Optional(speed)|
    ensures AfterSpeed(s, e, speed).Some? ==>
      MotionFits(s, p, speed, AfterSpeed(s, e, speed).value.1, AfterSpeed(s, e, speed).value.2)
  {
    if AfterSpeed(s, e, speed).Some? {
      var x := AfterSpeed(s, e, speed).value;
      AfterSpeedParts(s, e, speed);
      MotionFromCourse(s, p, e, speed, x.1, x.2);
    }
  }

  lemma {:induction false} MatchSpeedSound(s: string, p: nat, ends: seq<nat>)
    requires p <= |s|
    requires forall k :: 0 <= k < |ends| ==> p < ends[k] <= |s| && IsDecimal(s[p..ends[k]])
    ensures MatchSpeed(s, p, ends).Some? ==>
      MotionFits(s, p, MatchSpeed(s, p, ends).value.0, MatchSpeed(s, p, ends).value.1,
        MatchSpeed(s, p, ends).value.2)
    decreases |ends|
  {
    if ends == [] {
      AfterSpeedSound(s, p, p, None);
    } else {
      AfterSpeedSound(s, p, ends[0], Some(s[p..ends[0]]));
      MatchSpeedSound(s, p, ends[1..]);
    }
  }

  /** The course search succeeds when the empty group or any candidate leads on. */
  lemma {:induction false} MatchCourseFinds(s: string, p: nat, ends: seq<nat>, e: nat)
    requires p <= |s|
    requires forall k :: 0 <= k < |ends| ==> p <= ends[k] <= |s|
    requires e == p || e in ends
    requires e <= |s| && AfterCourse(s, e).Some?
    ensures MatchCourse(s, p, ends).Some?
    decreases |ends|
  {
    if ends != [] && AfterCourse(s, ends[0]).None? {
      assert e == p || e in ends[1..];
      MatchCourseFinds(s, p, ends[1..], e);
    }
  }

  /** The speed search succeeds when the empty group or any candidate leads on. */
  lemma {:induction false} MatchSpeedFinds(s: string, p: nat, ends: seq<nat>, e: nat)
    requires p <= |s|
    requires forall k :: 0 <= k < |ends| ==> p <= ends[k] <= |s|
    requires e == p || e in ends
    requires e <= |s| && AfterSpeed(s, e, None).Some?
    ensures MatchSpeed(s, p, ends).Some?
    decreases |ends|
  {
    if ends != [] && AfterSpeed(s, ends[0], Some(s[p..ends[0]])).None? {
      assert e == p || e in ends[1..];
      MatchSpeedFinds(s, p, ends[1..], e);
    }
  }

  lemma MatchDateExact(s: string, p: nat, d: Date)
    requires DateOk(d) && At(s, p, DateText(d))
    ensures MatchDate(s, p) == Some((d, p + 7))
  {
    AtConcat(s, p, d.day + d.month + d.year, ",");
    AtConcat(s, p, d.day + d.month, d.year);
    AtConcat(s, p, d.day, d.month);
    AtDigits(s, p, d.day);
    AtDigits(s, p + 2, d.month);
    AtDigits(s, p + 4, d.year);
    AtChar(s, p + 6, ',');
    AtSlice(s, p, d.day);
    AtSlice(s, p + 2, d.month);
    AtSlice(s, p + 4, d.year);
  }

  lemma AtChar(s: string, p: nat, c: char)
    requires At(s, p, [c])
    ensures p < |s| && s[p] == c
  {
    assert s[p + 0] == [c][0];
  }

  /** A comma at e and the date laid out after it: AfterCourse reads that date. */
  lemma AfterCourseExact(s: string, e: nat, d: Date)
    requires e < |s| && s[e] == ',' && DateOk(d) && LaidOut(s, e + 1, DateText(d))
    ensures AfterCourse(s, e) == Some(d)
  {
    MatchDateExact(s, e + 1, d);
    assert |DateText(d)| == 7;
  }

  lemma CourseParts(s: string, q: nat, course: Option<string>, d: Date) returns (e: nat)
    requires CourseFits(s, q, course, d)
    ensures e == q + |Optional(course)| && e < |s| && s[e] == ','
    ensures s[q..e] == Optional(course) && AfterCourse(s, e) == Some(d)
  {
    assert CourseText(course, d) == Optional(course) + "," + DateText(d);
    e := CommaSplit(s, q, Optional(course), DateText(d));
    AfterCourseExact(s, e, d);
  }

  lemma MotionParts(s: string, p: nat, speed: Option<string>, course: Option<string>, d: Date)
    returns (e: nat)
    requires MotionFits(s, p, speed, course, d)
    ensures e == p + |Optional(speed)| && e < |s| && s[e] == ','
    ensures s[p..e] == Optional(speed) && CourseFits(s, e + 1, course, d)
  {
    assert MotionText(speed, course, d) == Optional(speed) + "," + CourseText(course, d);
    e := CommaSplit(s, p, Optional(speed), CourseText(course, d));
  }

  /** A course group from q to e followed by what AfterCourse accepts: the course
      search succeeds, on the first candidate when the separator is `.`. */
  lemma CourseFound(s: string, q: nat, e: nat, course: Option<string>, d: Date)
    requires q <= e <= |s| && OptionalDecimalOk(course) && AfterCourse(s, e) == Some(d)
    requires course.None? ==> e == q
    requires course.Some? ==> s[q..e] == course.value
    ensures MatchCourse(s, q, DecimalEnds(s, q)).Some?
    ensures PointSeparated(course) ==> MatchCourse(s, q, DecimalEnds(s, q)) == Some((course, d))
  {
    var ends := DecimalEnds(s, q);
    if course.Some? {
      DecimalEndsComplete(s, q, e);
    } else {
      DecimalEndsAtComma(s, q);
    }
    MatchCourseFinds(s, q, ends, e);
  }

  /** With its course and date laid out from q, the course search succeeds, and
      returns exactly them when the course separator is `.`. */
  lemma CourseComplete(s: string, q: nat, course: Option<string>, d: Date)
    requires q <= |s| && CourseFits(s, q, course, d)
    ensures MatchCourse(s, q, DecimalEnds(s, q)).Some?
    ensures PointSeparated(course) ==> MatchCourse(s, q, DecimalEnds(s, q)) == Some((course, d))
  {
    var e := CourseParts(s, q, course, d);
    CourseFound(s, q, e, course, d);
  }

  /** The comma after a speed group ending at e leads on to the course search. */
  lemma AfterSpeedExact(s: string, e: nat, speed: Option<string>, course: Option<string>, d: Date)
    requires e < |s| && s[e] == ',' && CourseFits(s, e + 1, course, d)
    ensures AfterSpeed(s, e, speed).Some?
    ensures PointSeparated(course) ==> AfterSpeed(s, e, speed) == Some((speed, course, d))
  {
    CourseComplete(s, e + 1, course, d);
  }

  /** A speed group ending at e that leads on: the search succeeds, on the first
      candidate when its separator is `.`. */
  lemma SpeedCandidate(s: string, p: nat, e: nat, speed: string, course: Option<string>, d: Date)
    requires p < e < |s| && s[e] == ',' && IsDecimal(speed) && s[p..e] == speed
    requires AfterSpeed(s, e, None).Some?
    requires PointSeparated(course) ==> AfterSpeed(s, e, Some(speed)) == Some((Some(speed), course, d))
    ensures MatchSpeed(s, p, DecimalEnds(s, p)).Some?
    ensures '.' in speed && PointSeparated(course) ==>
      MatchSpeed(s, p, DecimalEnds(s, p)) == Some((Some(speed), course, d))
  {
    DecimalEndsComplete(s, p, e);
    var ends := DecimalEnds(s, p);
    MatchSpeedFinds(s, p, ends, e);
  }

  /** A speed group from p to e, a comma, then a course and date that fit: the
      speed search succeeds, and returns exactly them when both separators are `.`. */
  lemma MotionFound(s: string, p: nat, e: nat, speed: Option<string>, course: Option<string>, d: Date)
    requires p <= e < |s| && s[e] == ',' && OptionalDecimalOk(speed) && CourseFits(s, e + 1, course, d)
    requires speed.None? ==> e == p
    requires speed.Some? ==> s[p..e] == speed.value
    ensures MatchMotion(s, p).Some?
    ensures PointSeparated(speed) && PointSeparated(course) ==> MatchMotion(s, p) == Some((speed, course, d))
  {
    AfterSpeedExact(s, e, None, course, d);
    AfterSpeedExact(s, e, speed, course, d);
    if speed.Some? {
      SpeedCandidate(s, p, e, speed.value, course, d);
    } else {
      DecimalEndsAtComma(s, p);
      MatchSpeedFinds(s, p, DecimalEnds(s, p), p);
    }
  }

  /** With its speed, course and date laid out from p, the speed search succeeds,
      and returns exactly them when both separators are `.`. */
  lemma MotionComplete(s: string, p: nat, speed: Option<string>, course: Option<string>, d: Date)
    requires p <= |s| && MotionFits(s, p, speed, course, d)
    ensures MatchMotion(s, p).Some?
    ensures PointSeparated(speed) && PointSeparated(course) ==> MatchMotion(s, p) == Some((speed, course, d))
  {
    var e := MotionParts(s, p, speed, course, d);
    MotionFound(s, p, e, speed, course, d);
  }


  // ---------------------------------------------------------------------------
  // The deterministic sections and the whole sentence

  lemma AtDigits(s: string, p: nat, t: string)
    requires At(s, p, t) && AllDigits(t)
    ensures DigitsBetween(s, p, p + |t|)
  {
    forall k | p <= k < p + |t|
      ensures IsDigit(s[k])
    {
      assert s[p + (k - p)] == t[k - p];
    }
  }

  /** A time section laid out at p is read back exactly. */
  lemma MatchTimeExact(s: string, p: nat, t: TimeOfDay, sep: char, q: nat)
    requires TimeOk(t) && !IsLineTerminator(sep) && At(s, p, TimeText(t, sep)) && q == p + |TimeText(t, sep)|
    ensures MatchTime(s, p) == Some((t, q))
  {
    var f := |t.fraction|;
    AtConcat(s, p, t.hour + t.minute + t.second + [sep] + t.fraction, ",");
    AtConcat(s, p, t.hour + t.minute + t.second + [sep], t.fraction);
    AtConcat(s, p, t.hour + t.minute + t.second, [sep]);
    AtConcat(s, p, t.hour + t.minute, t.second);
    AtConcat(s, p, t.hour, t.minute);
    AtDigits(s, p, t.hour);
    AtDigits(s, p + 2, t.minute);
    AtDigits(s, p + 4, t.second);
    AtDigits(s, p + 7, t.fraction);
    AtChar(s, p + 6, sep);
    AtChar(s, p + 7 + f, ',');
    DigitSpanIs(s, p + 7, f);
    AtSlice(s, p, t.hour);
    AtSlice(s, p + 2, t.minute);
    AtSlice(s, p + 4, t.second);
    AtSlice(s, p + 7, t.fraction);
  }

  lemma MatchStatusExact(s: string, p: nat, status: char)
    requires (status == 'A' || status == 'V') && At(s, p, StatusText(status))
    ensures MatchStatus(s, p) == Some((status, p + 2))
  {
    assert s[p + 0] == StatusText(status)[0] && s[p + 1] == StatusText(status)[1];
  }

  lemma CoordinateParts(s: string, p: nat, c: Coordinate) returns (e: nat)
    requires At(s, p, CoordinateText(c))
    ensures e == p + |c.degrees| + |c.minutes| && e + 3 <= |s|
    ensures At(s, p, c.degrees) && At(s, p + |c.degrees|, c.minutes)
    ensures s[e] == ',' && s[e + 1] == c.hemisphere && s[e + 2] == ','
  {
    e := p + |c.degrees| + |c.minutes|;
    AtConcat(s, p, c.degrees + c.minutes + "," + [c.hemisphere], ",");
    AtConcat(s, p, c.degrees + c.minutes + ",", [c.hemisphere]);
    AtConcat(s, p, c.degrees + c.minutes, ",");
    AtConcat(s, p, c.degrees, c.minutes);
    AtChar(s, e, ',');
    AtChar(s, e + 1, c.hemisphere);
    AtChar(s, e + 2, ',');
  }

  /** `\d{2}.\d+` laid out at m and followed by a non-digit. */
  lemma MinutesAt(s: string, m: nat, x: string)
    requires IsMinutes(x) && At(s, m, x) && m + |x| < |s| && !IsDigit(s[m + |x|])
    ensures DigitsBetween(s, m, m + 2) && !IsLineTerminator(s[m + 2])
    ensures DigitSpan(s, m + 3) == |x| - 3
  {
    assert x == x[..3] + x[3..];
    AtConcat(s, m, x[..3], x[3..]);
    AtDigits(s, m + 3, x[3..]);
    assert s[m..m + 3] == x[..3];
    assert s[m] == x[0] && s[m + 1] == x[1] && s[m + 2] == x[2];
    DigitSpanIs(s, m + 3, |x| - 3);
  }

  /** A coordinate section laid out at p is read back exactly. */
  lemma MatchCoordinateAt(s: string, p: nat, c: Coordinate, width: nat, positive: char, negative: char,
    e: nat)
    requires CoordinateOk(c, width, positive, negative)
    requires e == p + width + |c.minutes| && e + 3 <= |s|
    requires s[p..p + width] == c.degrees && s[p + width..e] == c.minutes
    requires DigitsBetween(s, p, p + width) && DigitsBetween(s, p + width, p + width + 2)
    requires !IsLineTerminator(s[p + width + 2]) && DigitSpan(s, p + width + 3) == |c.minutes| - 3
    requires s[e] == ',' && s[e + 1] == c.hemisphere && s[e + 2] == ','
    ensures MatchCoordinate(s, p, width, positive, negative) == Some((c, e + 3))
  {
    assert DigitsBetween(s, p, p + width + 2);
  }

  lemma MatchCoordinateExact(s: string, p: nat, c: Coordinate, width: nat, positive: char, negative: char,
    q: nat)
    requires CoordinateOk(c, width, positive, negative) && At(s, p, CoordinateText(c))
    requires q == p + |CoordinateText(c)|
    ensures MatchCoordinate(s, p, width, positive, negative) == Some((c, q))
  {
    var m := p + width;
    var e := CoordinateParts(s, p, c);
    AtDigits(s, p, c.degrees);
    MinutesAt(s, m, c.minutes);
    AtSlice(s, p, c.degrees);
    AtSlice(s, m, c.minutes);
    MatchCoordinateAt(s, p, c, width, positive, negative, e);
  }

  /** Six texts laid out one after the other from 0 are their concatenation. */
  lemma SixJoin(s: string, a: string, b: string, c: string, d: string, e: string, f: string,
    q1: nat, q2: nat, q3: nat, q4: nat, q5: nat)
    requires At(s, 0, a) && q1 == |a| && At(s, q1, b) && q2 == q1 + |b| && At(s, q2, c)
    requires q3 == q2 + |c| && At(s, q3, d) && q4 == q3 + |d| && At(s, q4, e)
    requires q5 == q4 + |e| && At(s, q5, f)
    ensures At(s, 0, a + b + c + d + e + f) && |a + b + c + d + e + f| == q5 + |f|
  {
    AtConcat(s, 0, a, b);
    AtConcat(s, 0, a + b, c);
    AtConcat(s, 0, a + b + c, d);
    AtConcat(s, 0, a + b + c + d, e);
    AtConcat(s, 0, a + b + c + d + e, f);
  }

  /** The concatenation of six texts laid out from 0, taken apart. */
  lemma SixSplit(s: string, a: string, b: string, c: string, d: string, e: string, f: string)
    returns (q1: nat, q2: nat, q3: nat, q4: nat, q5: nat)
    requires At(s, 0, a + b + c + d + e + f)
    ensures At(s, 0, a) && q1 == |a| && At(s, q1, b) && q2 == q1 + |b| && At(s, q2, c)
    ensures q3 == q2 + |c| && At(s, q3, d) && q4 == q3 + |d| && At(s, q4, e)
    ensures q5 == q4 + |e| && At(s, q5, f) && |a + b + c + d + e + f| == q5 + |f|
  {
    q1, q2, q3, q4, q5 := |a|, |a| + |b|, |a| + |b| + |c|, |a| + |b| + |c| + |d|, |a| + |b| + |c| + |d| + |e|;
    AtConcat(s, 0, a + b + c + d + e, f);
    AtConcat(s, 0, a + b + c + d, e);
    AtConcat(s, 0, a + b + c, d);
    AtConcat(s, 0, a + b, c);
    AtConcat(s, 0, a, b);
  }

  /** The literal that opens PATTERN, as a prefix and laid out at 0. */
  lemma Opening(s: string)
    requires 6 <= |s|
    ensures s[..6] == "GPRMC," <==> At(s, 0, "GPRMC,")
  {
    AtSlice(s, 0, "GPRMC,");
    assert s[..6] == s[0..6];
  }

  /** The deterministic sections laid out in s: the literal, the time (the
      status at p1), the status, the latitude (the longitude at p3) and the
      longitude (the speed at p4), each well formed. */
  predicate SectionsAt(s: string, t: TimeOfDay, p1: nat, status: char, latitude: Coordinate, p3: nat,
    longitude: Coordinate, p4: nat)
  {
    |s| > 12 && !IsLineTerminator(s[12]) && TimeOk(t) && (status == 'A' || status == 'V')
    && CoordinateOk(latitude, 2, 'N', 'S') && CoordinateOk(longitude, 3, 'E', 'W')
    && At(s, 0, "GPRMC,") && At(s, 6, TimeText(t, s[12])) && p1 == 6 + |TimeText(t, s[12])|
    && At(s, p1, StatusText(status)) && At(s, p1 + 2, CoordinateText(latitude))
    && p3 == p1 + 2 + |CoordinateText(latitude)|
    && At(s, p3, CoordinateText(longitude)) && p4 == p3 + |CoordinateText(longitude)|
  }

  /** The deterministic sections read from s: the time (status at p1), the status,
      the latitude (longitude at p3) and the longitude (speed at p4). */
  predicate SectionsRead(s: string, t: TimeOfDay, p1: nat, status: char, latitude: Coordinate, p3: nat,
    longitude: Coordinate, p4: nat)
  {
    6 <= |s| && s[..6] == "GPRMC," && MatchTime(s, 6) == Some((t, p1))
    && MatchStatus(s, p1) == Some((status, p1 + 2))
    && MatchCoordinate(s, p1 + 2, 2, 'N', 'S') == Some((latitude, p3))
    && MatchCoordinate(s, p3, 3, 'E', 'W') == Some((longitude, p4))
  }

  /** Once the deterministic sections are read, the match is decided by the speed,
      course and date search. */
  lemma MatchUnfold(s: string, t: TimeOfDay, p1: nat, status: char, latitude: Coordinate, p3: nat,
    longitude: Coordinate, p4: nat)
    requires SectionsRead(s, t, p1, status, latitude, p3, longitude, p4)
    ensures MatchMotion(s, p4).None? ==> Match(s).None?
    ensures MatchMotion(s, p4).Some? ==> var m := MatchMotion(s, p4).value;
      Match(s) == Some(Groups(t, status, latitude, longitude, m.0, m.1, m.2))
  {
  }

  /** A successful match read each section at the position the previous one
      reached, and its speed, course and date from where the longitude ends. */
  lemma MatchParts(s: string)
    returns (p1: nat, p3: nat, p4: nat)
    requires Match(s).Some?
    ensures var g := Match(s).value;
      SectionsRead(s, g.time, p1, g.status, g.latitude, p3, g.longitude, p4)
      && MatchMotion(s, p4) == Some((g.speed, g.course, g.date))
  {
    var time := MatchTime(s, 6);
    var status := MatchStatus(s, time.value.1);
    var latitude := MatchCoordinate(s, status.value.1, 2, 'N', 'S');
    var longitude := MatchCoordinate(s, latitude.value.1, 3, 'E', 'W');
    p1, p3, p4 := time.value.1, latitude.value.1, longitude.value.1;
    assert SectionsRead(s, time.value.0, p1, status.value.0, latitude.value.0, p3, longitude.value.0, p4);
    MatchUnfold(s, time.value.0, p1, status.value.0, latitude.value.0, p3, longitude.value.0, p4);
  }

  /** The deterministic sections read from s lie at their positions. */
  lemma SectionsSound(s: string, t: TimeOfDay, p1: nat, status: char, latitude: Coordinate, p3: nat,
    longitude: Coordinate, p4: nat)
    requires SectionsRead(s, t, p1, status, latitude, p3, longitude, p4)
    ensures SectionsAt(s, t, p1, status, latitude, p3, longitude, p4)
  {
    MatchTimeSound(s, 6, t, p1);
    MatchStatusSound(s, p1, status);
    MatchCoordinateSound(s, p1 + 2, 2, 'N', 'S', latitude, p3);
    MatchCoordinateSound(s, p3, 3, 'E', 'W', longitude, p4);
    Opening(s);
  }

  /** A sentence laid out section by section, with a trailer after it, is a full match. */
  lemma MatchesIntro(s: string, g: Groups, p1: nat, p3: nat, p4: nat)
    requires GroupsOk(g) && SectionsAt(s, g.time, p1, g.status, g.latitude, p3, g.longitude, p4)
    requires MotionFits(s, p4, g.speed, g.course, g.date)
    ensures Matches(s, g)
  {
    var m := MotionText(g.speed, g.course, g.date);
    assert At(s, p4, m) && TrailerOk(s[p4 + |m|..]);
    SixJoin(s, "GPRMC,", TimeText(g.time, s[12]), StatusText(g.status), CoordinateText(g.latitude),
      CoordinateText(g.longitude), m, 6, p1, p1 + 2, p3, p4);
    assert SentenceText(g, s[12]) == "GPRMC," + TimeText(g.time, s[12]) + StatusText(g.status)
      + CoordinateText(g.latitude) + CoordinateText(g.longitude) + m;
    var r := SentenceText(g, s[12]);
    var rest := s[p4 + |m|..];
    TrailerDecision(rest);
    assert At(s, 0, r) && |r| == p4 + |m| && IsTrailer(rest);
  }

  /** The matcher fails exactly when no groups make s a full match. */
  lemma MatchDecides(s: string)
    ensures Match(s).None? <==> forall g :: !Matches(s, g)
  {
    forall g | Matches(s, g)
      ensures Match(s).Some?
    {
      MatchComplete(s, g);
    }
    if Match(s).Some? {
      MatchSound(s);
    }
  }

  /** Soundness of the matcher: the groups it returns are a full match of s. */
  lemma MatchSound(s: string)
    requires Match(s).Some?
    ensures Matches(s, Match(s).value)
  {
    var g := Match(s).value;
    var p1, p3, p4 := MatchParts(s);
    SectionsSound(s, g.time, p1, g.status, g.latitude, p3, g.longitude, p4);
    DecimalEndsSound(s, p4);
    MatchSpeedSound(s, p4, DecimalEnds(s, p4));
    MatchesIntro(s, g, p1, p3, p4);
  }

  /** The speed, course and date of a full match laid out from p4, with the
      trailer after them. */
  lemma MotionAfterSections(s: string, g: Groups, p4: nat)
    requires GroupsOk(g) && |s| > 12
    requires var m := MotionText(g.speed, g.course, g.date);
      At(s, p4, m) && |SentenceText(g, s[12])| == p4 + |m| && IsTrailer(s[|SentenceText(g, s[12])|..])
    ensures p4 <= |s| && MotionFits(s, p4, g.speed, g.course, g.date)
  {
    var m := MotionText(g.speed, g.course, g.date);
    var rest := s[p4 + |m|..];
    assert IsTrailer(rest);
    TrailerDecision(rest);
    assert LaidOut(s, p4, m);
  }

  /** A full match, taken apart section by section. */
  lemma MatchesParts(s: string, g: Groups) returns (p1: nat, p3: nat, p4: nat)
    requires Matches(s, g)
    ensures GroupsOk(g) && SectionsAt(s, g.time, p1, g.status, g.latitude, p3, g.longitude, p4)
    ensures p4 <= |s| && MotionFits(s, p4, g.speed, g.course, g.date)
  {
    var m := MotionText(g.speed, g.course, g.date);
    assert SentenceText(g, s[12]) == "GPRMC," + TimeText(g.time, s[12]) + StatusText(g.status)
      + CoordinateText(g.latitude) + CoordinateText(g.longitude) + m;
    var q1, q2, q3;
    q1, q2, q3, p3, p4 := SixSplit(s, "GPRMC,", TimeText(g.time, s[12]), StatusText(g.status),
      CoordinateText(g.latitude), CoordinateText(g.longitude), m);
    p1 := q2;
    MotionAfterSections(s, g, p4);
  }

  /** Sections laid out at their positions are read back exactly. */
  lemma SectionsExact(s: string, g: Groups, p1: nat, p3: nat, p4: nat)
    requires GroupsOk(g) && SectionsAt(s, g.time, p1, g.status, g.latitude, p3, g.longitude, p4)
    ensures SectionsRead(s, g.time, p1, g.status, g.latitude, p3, g.longitude, p4)
  {
    Opening(s);
    MatchTimeExact(s, 6, g.time, s[12], p1);
    MatchStatusExact(s, p1, g.status);
    MatchCoordinateExact(s, p1 + 2, g.latitude, 2, 'N', 'S', p3);
    MatchCoordinateExact(s, p3, g.longitude, 3, 'E', 'W', p4);
  }

  /** Completeness of the matcher: a full match is found, and when both decimal
      groups are separated by `.` the groups found are exactly those. */
  lemma MatchComplete(s: string, g: Groups)
    requires Matches(s, g)
    ensures Match(s).Some?
    ensures PointSeparated(g.speed) && PointSeparated(g.course) ==> Match(s) == Some(g)
  {
    var p1, p3, p4 := MatchesParts(s, g);
    SectionsExact(s, g, p1, p3, p4);
    MotionComplete(s, p4, g.speed, g.course, g.date);
    MatchUnfold(s, g.time, p1, g.status, g.latitude, p3, g.longitude, p4);
  }
}
