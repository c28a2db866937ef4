/** Field assembly of EnforaProtocolDecoder.decode (lines 94-140): the numeric
    conversions of the capture groups, the Calendar the time is written into and
    the position record that is filled in. */
module Fields {
  import opened Base
  import opened Grammar

  // ---------------------------------------------------------------------------
  // 32-bit integers

  const Int32Min: int := -0x8000_0000
  const Int32Max: int := 0x7fff_ffff
  const Int32Span: int := 0x1_0000_0000

  /** Java `int` arithmetic: the value of x wrapped into the 32-bit range. */
  function Int32(x: int): (r: int)
    ensures Int32Min <= r <= Int32Max
    ensures (x - r) % Int32Span == 0
    ensures Int32Min <= x <= Int32Max ==> r == x
  {
    var m := x % Int32Span;
    if m > Int32Max then m - Int32Span else m
  }

  /** Past Int32Max and below 2^32 a value wraps to itself minus 2^32. */
  lemma Int32Wraps(x: int)
    requires Int32Max < x < Int32Span
    ensures Int32(x) == x - Int32Span < 0
  {
    assert x % Int32Span == x;
  }

  /** `Integer.parseInt` on a run of decimal digits: the value, or a
      NumberFormatException (None) when it does not fit in an `int`. */
  function ParseInt(t: string): (r: Option<int>)
    requires SomeDigits(t)
    ensures r.Some? ==> 0 <= r.value <= Int32Max
    ensures r.None? <==> Value(t) > Int32Max
    ensures r.Some? ==> r.value == Value(t)
  {
    if Value(t) <= Int32Max then Some(Value(t)) else None
  }

  /** Two digits always convert, to their decimal value below 100. */
  lemma ParseTwoDigits(t: string)
    requires Digits(t, 2)
    ensures ParseInt(t) == Some(10 * DigitValue(t[0]) + DigitValue(t[1]))
    ensures ParseInt(t).value < 100
  {
    assert t[..1][..0] == [];
    assert t[..1] == [t[0]];
    assert Value(t[..1]) == DigitValue(t[0]);
    assert Value(t) == 10 * Value(t[..1]) + DigitValue(t[1]);
  }

  /** A run of at most nine digits always converts. */
  lemma ParseShortDigits(t: string)
    requires SomeDigits(t) && |t| <= 9
    ensures ParseInt(t) == Some(Value(t))
  {
    Pow10Monotone(|t|, 9);
  }

  lemma Pow10Monotone(m: nat, n: nat)
    requires m <= n
    ensures Pow10(m) <= Pow10(n)
    decreases n
  {
    if m < n {
      Pow10Monotone(m, n - 1);
    }
  }

  // ---------------------------------------------------------------------------
  // Double.parseDouble on the group shapes

  /** What a numeric group of PATTERN can hold: digits, or digits, one character
      that is not a line terminator, digits. */
  predicate NumberShape(t: string)
  {
    SomeDigits(t) || IsDecimal(t)
  }

  /** The position of the first non-digit: the any-character of `\d+.\d+`, or the
      length when all are digits. */
  function Separator(t: string): (k: nat)
    ensures k <= |t|
  {
    DigitSpan(t, 0)
  }

  /** A numeric group is all digits, or splits at its first non-digit into two
      non-empty digit runs. */
  lemma ShapeSplit(t: string)
    requires NumberShape(t)
    ensures Separator(t) == |t| ==> SomeDigits(t)
    ensures Separator(t) < |t| ==>
      1 <= Separator(t) < |t| - 1 && !IsLineTerminator(t[Separator(t)])
      && DigitsBetween(t, 0, Separator(t)) && DigitsBetween(t, Separator(t) + 1, |t|)
  {
    if SomeDigits(t) {
      DigitSpanIs(t, 0, |t|);
    } else {
      var j := DecimalPoint(t);
      SliceDigits(t, 0, j);
      SliceDigits(t, j + 1, |t|);
      assert !IsDigit(t[j]) by {
        var i :| 0 <= i < |t| && !IsDigit(t[i]);
        assert i == j;
      }
      DigitSpanIs(t, 0, j);
    }
  }

  /** A numeric group has at most one non-digit: wherever one is, it is the separator. */
  lemma SeparatorAt(t: string, i: nat)
    requires NumberShape(t) && i < |t| && !IsDigit(t[i])
    ensures Separator(t) == i
  {
    ShapeSplit(t);
  }

  /** `Double.parseDouble` on a numeric group, as an exact real: all digits, or
      integer and fraction around `.`, or mantissa and exponent around `e`/`E`;
      any other separator is a NumberFormatException (None). */
  function ParseDouble(t: string): (r: Option<real>)
    requires NumberShape(t)
    ensures r.Some? ==> r.value >= 0.0
  {
    ShapeSplit(t);
    var k := Separator(t);
    if k == |t| then Some(Value(t) as real)
    else
      DigitsSlice(t, 0, k);
      DigitsSlice(t, k + 1, |t|);
      var whole := Value(t[..k]);
      var digits := t[k + 1..];
      if t[k] == '.' then
        FractionBelowOne(Value(digits), Pow10(|digits|));
        Some(whole as real + Value(digits) as real / Pow10(|digits|) as real)
      else if t[k] == 'e' || t[k] == 'E' then
        var scaled: nat := whole * Pow10(Value(digits));
        Some(scaled as real)
      else None
  }

  /** The separators parseDouble accepts inside a numeric group. */
  predicate Converts(t: string)
  {
    Separator(t) == |t| || t[Separator(t)] in {'.', 'e', 'E'}
  }

  lemma ParseDoubleDefined(t: string)
    requires NumberShape(t)
    ensures ParseDouble(t).Some? <==> Converts(t)
  {
  }

  lemma PointShape(a: string, b: string)
    requires SomeDigits(a) && SomeDigits(b)
    ensures var t := a + "." + b;
      IsDecimal(t) && Separator(t) == |a| && t[|a|] == '.' && t[..|a|] == a && t[|a| + 1..] == b
  {
    var t := a + "." + b;
    assert t[..|a|] == a && t[|a| + 1..] == b && t[|a|] == '.';
    assert 1 <= |a| < |t| - 1 && AllDigits(t[..|a|]) && !IsLineTerminator(t[|a|]) && AllDigits(t[|a| + 1..]);
    SliceDigits(t, 0, |a|);
    DigitSpanIs(t, 0, |a|);
  }

  /** A group with a `.` separator: the integer part, plus the fraction digits
      scaled below one. */
  lemma PointValue(a: string, b: string)
    requires SomeDigits(a) && SomeDigits(b)
    ensures IsDecimal(a + "." + b)
    ensures var v := ParseDouble(a + "." + b).value;
      v == Value(a) as real + Value(b) as real / Pow10(|b|) as real
      && Value(a) as real <= v < Value(a) as real + 1.0
  {
    PointShape(a, b);
    FractionBelowOne(Value(b), Pow10(|b|));
  }

  /** A group of plain digits converts to its decimal value. */
  lemma DigitsValue(t: string)
    requires SomeDigits(t)
    ensures ParseDouble(t) == Some(Value(t) as real)
  {
    DigitSpanIs(t, 0, |t|);
  }

  /** A group with an `e` or `E` separator: the mantissa times ten to the power of
      the exponent. */
  lemma ExponentValue(a: string, e: char, b: string)
    requires SomeDigits(a) && SomeDigits(b) && (e == 'e' || e == 'E')
    ensures IsDecimal(a + [e] + b)
    ensures ParseDouble(a + [e] + b) == Some((Value(a) * Pow10(Value(b))) as real)
  {
    var t := a + [e] + b;
    assert t[..|a|] == a && t[|a| + 1..] == b && t[|a|] == e;
    assert 1 <= |a| < |t| - 1 && AllDigits(t[..|a|]) && !IsLineTerminator(t[|a|]) && AllDigits(t[|a| + 1..]);
    SliceDigits(t, 0, |a|);
    DigitSpanIs(t, 0, |a|);
  }

  lemma FractionBelowOne(n: nat, d: nat)
    requires n < d
    ensures 0.0 <= n as real / d as real < 1.0
  {
  }

  /** The unescaped `.`: a group that holds a comma at its separator matches
      PATTERN but does not convert. */
  lemma CommaDoesNotConvert(t: string)
    requires IsDecimal(t) && ',' in t
    ensures ParseDouble(t).None?
  {
    var i :| 0 <= i < |t| && t[i] == ',';
    SeparatorAt(t, i);
  }

  /** A group with `.` somewhere in it converts. */
  lemma PointConverts(t: string)
    requires IsDecimal(t) && '.' in t
    ensures ParseDouble(t).Some?
  {
    var i :| 0 <= i < |t| && t[i] == '.';
    SeparatorAt(t, i);
  }

  // ---------------------------------------------------------------------------
  // Coordinates

  lemma MinutesShape(t: string)
    requires IsMinutes(t)
    ensures IsDecimal(t)
  {
    assert t[..2] == [t[0], t[1]];
    assert 1 <= 2 < |t| - 1 && AllDigits(t[..2]) && !IsLineTerminator(t[2]) && AllDigits(t[3..]);
  }

  /** Degrees plus minutes/60, negated when the hemisphere is the negative one;
      None when the minutes do not convert. */
  function Angle(degrees: string, minutes: string, negated: bool): (r: Option<real>)
    requires SomeDigits(degrees) && IsMinutes(minutes)
    ensures r.Some? <==> ParseDouble(minutes).Some?
    ensures r.Some? ==> (negated ==> r.value <= 0.0) && (!negated ==> r.value >= 0.0)
  {
    MinutesShape(minutes);
    match ParseDouble(minutes)
    case None => None
    case Some(m) =>
      var magnitude := ParseDouble(degrees).value + m / 60.0;
      Some(if negated then -magnitude else magnitude)
  }

  /** Lines 114-117 and 120-123: `value = parseDouble(degrees)`, `value +=
      parseDouble(minutes) / 60`, negated when the hemisphere group equals the
      negative letter. */
  method ReadAngle(degrees: string, minutes: string, hemisphere: string, negative: string)
    returns (r: Option<real>)
    requires SomeDigits(degrees) && IsMinutes(minutes)
    ensures r == Angle(degrees, minutes, hemisphere == negative)
  {
    MinutesShape(minutes);
    var value := ParseDouble(degrees).value;
    var m := ParseDouble(minutes);
    if m.None? {
      return None;
    }
    value := value + m.value / 60.0;
    if hemisphere == negative {
      value := -value;
    }
    return Some(value);
  }

  /** The hemisphere letter decides the sign; the magnitude is the degrees plus
      the minutes over sixty. */
  lemma AngleSign(degrees: string, minutes: string, negated: bool, m: real)
    requires SomeDigits(degrees) && IsMinutes(minutes)
    requires IsDecimal(minutes) && ParseDouble(minutes) == Some(m)
    ensures Angle(degrees, minutes, negated).Some?
    ensures var a := Angle(degrees, minutes, negated).value;
      (negated ==> a == -(Value(degrees) as real + m / 60.0) && a <= 0.0)
      && (!negated ==> a == Value(degrees) as real + m / 60.0 && a >= 0.0)
  {
    DigitSpanIs(degrees, 0, |degrees|);
  }

  // ---------------------------------------------------------------------------
  // The Calendar

  /** The Calendar fields the decoder writes. */
  datatype Field = HourOfDay | Minute | Second | Millisecond | DayOfMonth | Month | Year

  /** `java.util.Calendar` as the decoder uses it: a time zone and the fields that
      have been set. Lenient normalisation and the conversion to an instant are not
      part of this model. */
  class Calendar {
    var zone: string
    var fields: map<Field, int>

    /** `Calendar.getInstance(zone)`: the fields of the current time `now`. */
    constructor(zone: string, now: map<Field, int>)
      ensures this.zone == zone && fields == now
    {
      this.zone := zone;
      fields := now;
    }

    /** `clear()`: every field unset; the zone is kept. */
    method Clear()
      modifies this
      ensures zone == old(zone) && fields == map[]
    {
      fields := map[];
    }

    /** `set(field, value)` */
    method Set(f: Field, v: int)
      modifies this
      ensures zone == old(zone) && fields == old(fields)[f := v]
    {
      fields := fields[f := v];
    }
  }

  // ---------------------------------------------------------------------------
  // The position record

  /** The values a decoded position carries; `course` is None when it was never set. */
  datatype Fix = Fix(
    protocol: string, deviceId: nat, valid: bool, latitude: real, longitude: real,
    speed: real, course: Option<real>, time: map<Field, int>)

  /** The time of day: hour, minute, second and fraction × 10 as milliseconds;
      None when the fraction does not fit in an `int`. */
  function ClockFields(t: TimeOfDay): (r: Option<map<Field, int>>)
    requires TimeOk(t)
    ensures r.Some? <==> Value(t.fraction) <= Int32Max
  {
    match ParseInt(t.fraction)
    case None => None
    case Some(fraction) =>
      Some(map[][HourOfDay := Value(t.hour)][Minute := Value(t.minute)][Second := Value(t.second)]
        [Millisecond := Int32(fraction * 10)])
  }

  /** The date written after the time: day, month − 1, 2000 + year. */
  function WithDate(time: map<Field, int>, d: Date): map<Field, int>
    requires DateOk(d)
  {
    time[DayOfMonth := Value(d.day)][Month := Value(d.month) - 1][Year := 2000 + Value(d.year)]
  }

  /** Setting the date adds the three date fields and leaves every other field as
      it was. */
  lemma WithDateKeeps(time: map<Field, int>, d: Date)
    requires DateOk(d)
    ensures WithDate(time, d).Keys == time.Keys + {DayOfMonth, Month, Year}
    ensures forall f :: f in time && f != DayOfMonth && f != Month && f != Year ==>
      WithDate(time, d)[f] == time[f]
  {
  }

  /** Lines 127-133: the speed, then the course when the group is present; None
      where parseDouble throws, including the empty speed group. */
  function Motion(speed: Option<string>, course: Option<string>): (r: Option<(real, Option<real>)>)
    requires OptionalDecimalOk(speed) && OptionalDecimalOk(course)
    ensures speed.None? ==> r.None?
    ensures r.Some? ==> r.value.0 >= 0.0 && (r.value.1.Some? <==> course.Some?)
  {
    if speed.None? || ParseDouble(speed.value).None? then None
    else if course.Some? && ParseDouble(course.value).None? then None
    else if course.Some? then Some((ParseDouble(speed.value).value, Some(ParseDouble(course.value).value)))
    else Some((ParseDouble(speed.value).value, None))
  }

  /** The whole conversion of a match: the position, or None where parseInt or
      parseDouble throws, or where the empty speed group reaches parseDouble. */
  function Assemble(g: Groups, protocol: string, deviceId: nat): (r: Option<Fix>)
    requires GroupsOk(g)
    ensures r.Some? ==> g.speed.Some? && r.value.protocol == protocol && r.value.deviceId == deviceId
  {
    match ClockFields(g.time)
    case None => None
    case Some(clock) =>
      match Angle(g.latitude.degrees, g.latitude.minutes, [g.latitude.hemisphere] == "S")
      case None => None
      case Some(latitude) =>
        match Angle(g.longitude.degrees, g.longitude.minutes, [g.longitude.hemisphere] == "W")
        case None => None
        case Some(longitude) =>
          match Motion(g.speed, g.course)
          case None => None
          case Some(motion) =>
            Some(Fix(protocol, deviceId, [g.status] == "A", latitude, longitude,
              motion.0, motion.1, WithDate(clock, g.date)))
  }

  /** `Position` as far as the decoder fills it in. */
  class Position {
    var protocol: string
    var deviceId: nat
    var valid: bool
    var latitude: real
    var longitude: real
    var speed: real
    var course: Option<real>
    var time: map<Field, int>

    constructor()
      ensures course.None?
    {
      protocol, deviceId, valid := "", 0, false;
      latitude, longitude, speed, course, time := 0.0, 0.0, 0.0, None, map[];
    }

    function Snapshot(): Fix
      reads this
    {
      Fix(protocol, deviceId, valid, latitude, longitude, speed, course, time)
    }
  }

  // ---------------------------------------------------------------------------
  // The step-by-step assembly

  /** Lines 105-109: hour, minute, second and fraction × 10 written into a cleared
      Calendar. */
  method SetClock(time: Calendar, hour: string, minute: string, second: string, fraction: string)
    returns (ok: bool)
    requires TimeOk(TimeOfDay(hour, minute, second, fraction)) && time.fields == map[]
    modifies time
    ensures var expected := ClockFields(TimeOfDay(hour, minute, second, fraction));
      ok == expected.Some? && (ok ==> time.fields == expected.value)
    ensures time.zone == old(time.zone)
  {
    ParseTwoDigits(hour);
    ParseTwoDigits(minute);
    ParseTwoDigits(second);
    time.Set(HourOfDay, ParseInt(hour).value);
    time.Set(Minute, ParseInt(minute).value);
    time.Set(Second, ParseInt(second).value);
    var f := ParseInt(fraction);
    if f.None? {
      return false;
    }
    time.Set(Millisecond, Int32(f.value * 10));
    return true;
  }

  /** Lines 137-139: day, month − 1 and 2000 + year written into the Calendar. */
  method SetDate(time: Calendar, day: string, month: string, year: string)
    requires DateOk(Date(day, month, year))
    modifies time
    ensures time.fields == WithDate(old(time.fields), Date(day, month, year))
    ensures time.zone == old(time.zone)
  {
    ParseTwoDigits(day);
    ParseTwoDigits(month);
    ParseTwoDigits(year);
    time.Set(DayOfMonth, ParseInt(day).value);
    time.Set(Month, ParseInt(month).value - 1);
    time.Set(Year, 2000 + ParseInt(year).value);
  }

  /** Lines 127-133: the speed is set, then the course when its group is
      present; false where parseDouble throws. */
  method SetMotion(position: Position, speed: Option<string>, course: Option<string>) returns (ok: bool)
    requires OptionalDecimalOk(speed) && OptionalDecimalOk(course) && position.course.None?
    modifies position
    ensures var expected := Motion(speed, course);
      ok == expected.Some? &&
      (ok ==> position.Snapshot() == old(position.Snapshot()).(speed := expected.value.0, course := expected.value.1))
  {
    if speed.None? {
      return false;
    }
    var speedValue := ParseDouble(speed.value);
    if speedValue.None? {
      return false;
    }
    position.speed := speedValue.value;
    if course.Some? {
      var courseValue := ParseDouble(course.value);
      if courseValue.None? {
        return false;
      }
      position.course := Some(courseValue.value);
    }
    return true;
  }

  /** The cursor positions of PATTERN's sixteen groups. */
  lemma GroupValues(g: Groups)
    ensures Group(g, 1) == Some(g.time.hour) && Group(g, 2) == Some(g.time.minute)
    ensures Group(g, 3) == Some(g.time.second) && Group(g, 4) == Some(g.time.fraction)
    ensures Group(g, 5) == Some([g.status])
    ensures Group(g, 6) == Some(g.latitude.degrees) && Group(g, 7) == Some(g.latitude.minutes)
    ensures Group(g, 8) == Some([g.latitude.hemisphere])
    ensures Group(g, 9) == Some(g.longitude.degrees) && Group(g, 10) == Some(g.longitude.minutes)
    ensures Group(g, 11) == Some([g.longitude.hemisphere])
    ensures Group(g, 12) == g.speed && Group(g, 13) == g.course
    ensures Group(g, 14) == Some(g.date.day) && Group(g, 15) == Some(g.date.month)
    ensures Group(g, 16) == Some(g.date.year)
  {
  }

  /** Lines 104-140: the groups are read through the `index` cursor, the time is
      written into a UTC Calendar and the position's fields are set one by one.
      `now` is the clock reading `Calendar.getInstance` starts from. */
  method Fill(g: Groups, position: Position, now: map<Field, int>) returns (ok: bool)
    requires GroupsOk(g) && position.course.None?
    modifies position
    ensures var expected := Assemble(g, old(position.protocol), old(position.deviceId));
      ok == expected.Some? && (ok ==> position.Snapshot() == expected.value)
  {
    ghost var protocol, deviceId := position.protocol, position.deviceId;
    GroupValues(g);
    var index := 1;
    var time := new Calendar("UTC", now);
    time.Clear();
    ok := SetClock(time, Group(g, index).value, Group(g, index + 1).value, Group(g, index + 2).value,
      Group(g, index + 3).value);
    index := index + 4;
    if !ok {
      return;
    }

    position.valid := Group(g, index).value == "A";
    index := index + 1;

    var latitude := ReadAngle(Group(g, index).value, Group(g, index + 1).value, Group(g, index + 2).value, "S");
    index := index + 3;
    if latitude.None? {
      return false;
    }
    position.latitude := latitude.value;

    var longitude := ReadAngle(Group(g, index).value, Group(g, index + 1).value, Group(g, index + 2).value, "W");
    index := index + 3;
    if longitude.None? {
      return false;
    }
    position.longitude := longitude.value;

    ok := SetMotion(position, Group(g, index), Group(g, index + 1));
    index := index + 2;
    if !ok {
      return;
    }

    SetDate(time, Group(g, index).value, Group(g, index + 1).value, Group(g, index + 2).value);
    position.time := time.fields;
    assert position.protocol == protocol && position.deviceId == deviceId;
    assert Assemble(g, protocol, deviceId) == Some(Fix(protocol, deviceId, position.valid, position.latitude,
      position.longitude, position.speed, position.course, position.time));
  }

  // ---------------------------------------------------------------------------
  // What the assembled position holds

  /** The any-character of `\d{2}.\d+` lets parseDouble through when it is a
      digit, `.`, `e` or `E`. */
  predicate MinutesConvert(t: string)
    requires |t| >= 3
  {
    IsDigit(t[2]) || t[2] in {'.', 'e', 'E'}
  }

  lemma MinutesParse(t: string)
    requires IsMinutes(t)
    ensures IsDecimal(t) && (ParseDouble(t).Some? <==> MinutesConvert(t))
  {
    MinutesShape(t);
    ShapeSplit(t);
    if IsDigit(t[2]) {
      var rest := t[3..];
      forall k | 3 <= k < |t|
        ensures IsDigit(t[k])
      {
        assert t[k] == rest[k - 3];
      }
      DigitSpanIs(t, 0, |t|);
    } else {
      SeparatorAt(t, 2);
    }
  }

  /** The conversions that can throw, all at once: Assemble fails exactly when
      the fraction overflows `int`, a minutes group or the speed or course group
      holds a separator parseDouble rejects, or the speed group is null. */
  lemma AssembleDefined(g: Groups, protocol: string, deviceId: nat)
    requires GroupsOk(g)
    ensures Assemble(g, protocol, deviceId).Some? <==>
      Value(g.time.fraction) <= Int32Max
      && MinutesConvert(g.latitude.minutes) && MinutesConvert(g.longitude.minutes)
      && g.speed.Some? && Converts(g.speed.value)
      && (g.course.Some? ==> Converts(g.course.value))
  {
    MinutesParse(g.latitude.minutes);
    MinutesParse(g.longitude.minutes);
    if g.speed.Some? {
      ParseDoubleDefined(g.speed.value);
    }
    if g.course.Some? {
      ParseDoubleDefined(g.course.value);
    }
  }

  /** A null speed group reaches `parseDouble(null)`: a fault, never a position. */
  lemma MissingSpeedFaults(g: Groups, protocol: string, deviceId: nat)
    requires GroupsOk(g) && g.speed.None?
    ensures Assemble(g, protocol, deviceId).None?
  {
  }

  /** The unescaped `.` of the minutes groups: a comma there passes PATTERN and
      then makes parseDouble throw. */
  lemma CommaMinutesFaults(g: Groups, protocol: string, deviceId: nat)
    requires GroupsOk(g)
    requires g.latitude.minutes[2] == ',' || g.longitude.minutes[2] == ','
    ensures Assemble(g, protocol, deviceId).None?
  {
    AssembleDefined(g, protocol, deviceId);
  }

  /** A sentence written as intended, with `.` at every decimal point, a speed
      and at most nine fraction digits, always yields a position. */
  lemma PointSentenceConverts(g: Groups, protocol: string, deviceId: nat)
    requires GroupsOk(g) && |g.time.fraction| <= 9
    requires g.latitude.minutes[2] == '.' && g.longitude.minutes[2] == '.'
    requires g.speed.Some? && PointSeparated(g.speed) && PointSeparated(g.course)
    ensures Assemble(g, protocol, deviceId).Some?
  {
    ParseShortDigits(g.time.fraction);
    MinutesParse(g.latitude.minutes);
    MinutesParse(g.longitude.minutes);
    PointConverts(g.speed.value);
    if g.course.Some? {
      PointConverts(g.course.value);
    }
  }

  /** Validity, protocol, device, speed and course of an assembled position. */
  lemma AssembleFlags(g: Groups, protocol: string, deviceId: nat)
    requires GroupsOk(g) && Assemble(g, protocol, deviceId).Some?
    ensures var f := Assemble(g, protocol, deviceId).value;
      f.protocol == protocol && f.deviceId == deviceId
      && (f.valid <==> g.status == 'A')
      && g.speed.Some? && Some(f.speed) == ParseDouble(g.speed.value)
      && (f.course.Some? <==> g.course.Some?)
      && (g.course.Some? ==> f.course == ParseDouble(g.course.value))
  {
  }

  /** Latitude and longitude: degrees plus minutes over sixty, negative exactly
      in the southern and western hemispheres. */
  lemma AssembleCoordinates(g: Groups, protocol: string, deviceId: nat)
    requires GroupsOk(g) && Assemble(g, protocol, deviceId).Some?
    ensures IsDecimal(g.latitude.minutes) && ParseDouble(g.latitude.minutes).Some?
    ensures IsDecimal(g.longitude.minutes) && ParseDouble(g.longitude.minutes).Some?
    ensures var f := Assemble(g, protocol, deviceId).value;
      var north := Value(g.latitude.degrees) as real + ParseDouble(g.latitude.minutes).value / 60.0;
      var east := Value(g.longitude.degrees) as real + ParseDouble(g.longitude.minutes).value / 60.0;
      (g.latitude.hemisphere == 'S' ==> f.latitude == -north)
      && (g.latitude.hemisphere == 'N' ==> f.latitude == north)
      && (g.longitude.hemisphere == 'W' ==> f.longitude == -east)
      && (g.longitude.hemisphere == 'E' ==> f.longitude == east)
  {
    MinutesShape(g.latitude.minutes);
    MinutesShape(g.longitude.minutes);
    var lat := ParseDouble(g.latitude.minutes);
    var lon := ParseDouble(g.longitude.minutes);
    assert lat.Some? && lon.Some?;
    AngleSign(g.latitude.degrees, g.latitude.minutes, g.latitude.hemisphere == 'S', lat.value);
    AngleSign(g.longitude.degrees, g.longitude.minutes, g.longitude.hemisphere == 'W', lon.value);
    assert ([g.latitude.hemisphere] == "S") == (g.latitude.hemisphere == 'S');
    assert ([g.longitude.hemisphere] == "W") == (g.longitude.hemisphere == 'W');
  }

  /** The Calendar fields of an assembled position: exactly the seven the decoder
      sets on a cleared Calendar, month one below the group and the year in
      2000-2099. */
  lemma AssembleTime(g: Groups, protocol: string, deviceId: nat)
    requires GroupsOk(g) && Assemble(g, protocol, deviceId).Some?
    ensures var t := Assemble(g, protocol, deviceId).value.time;
      t.Keys == {HourOfDay, Minute, Second, Millisecond, DayOfMonth, Month, Year}
      && t[HourOfDay] == Value(g.time.hour) < 100 && t[Minute] == Value(g.time.minute) < 100
      && t[Second] == Value(g.time.second) < 100
      && t[Millisecond] == Int32(10 * Value(g.time.fraction))
      && t[DayOfMonth] == Value(g.date.day) < 100
      && t[Month] == Value(g.date.month) - 1 && -1 <= t[Month] <= 98
      && t[Year] == 2000 + Value(g.date.year) && 2000 <= t[Year] <= 2099
  {
    assert Assemble(g, protocol, deviceId).value.time == WithDate(ClockFields(g.time).value, g.date);
    CalendarFields(g.time, g.date);
  }

  lemma CalendarFields(t: TimeOfDay, d: Date)
    requires TimeOk(t) && DateOk(d) && ClockFields(t).Some?
    ensures var m := WithDate(ClockFields(t).value, d);
      m.Keys == {HourOfDay, Minute, Second, Millisecond, DayOfMonth, Month, Year}
      && m[HourOfDay] == Value(t.hour) < 100 && m[Minute] == Value(t.minute) < 100
      && m[Second] == Value(t.second) < 100
      && m[Millisecond] == Int32(10 * Value(t.fraction))
      && m[DayOfMonth] == Value(d.day) < 100
      && m[Month] == Value(d.month) - 1 && -1 <= m[Month] <= 98
      && m[Year] == 2000 + Value(d.year) && 2000 <= m[Year] <= 2099
  {
    var m := WithDate(ClockFields(t).value, d);
    assert Pow10(2) == 100;
    assert m.Keys == {HourOfDay, Minute, Second, Millisecond, DayOfMonth, Month, Year};
  }

  /** Up to eight fraction digits the milliseconds are the fraction times ten. */
  lemma MillisecondExact(g: Groups, protocol: string, deviceId: nat)
    requires GroupsOk(g) && Assemble(g, protocol, deviceId).Some? && |g.time.fraction| <= 8
    ensures Assemble(g, protocol, deviceId).value.time[Millisecond] == 10 * Value(g.time.fraction)
  {
    AssembleTime(g, protocol, deviceId);
    Pow10Monotone(|g.time.fraction|, 8);
    assert Pow10(8) == 100000000;
  }

  /** `parseInt(fraction) * 10` is `int` arithmetic: a nine-digit fraction from
      214748365 on still converts, and its milliseconds wrap to a negative value. */
  lemma MillisecondWraps(g: Groups, protocol: string, deviceId: nat)
    requires GroupsOk(g) && Assemble(g, protocol, deviceId).Some?
    requires 214748365 <= Value(g.time.fraction) <= 429496729
    ensures Assemble(g, protocol, deviceId).value.time[Millisecond]
      == 10 * Value(g.time.fraction) - Int32Span < 0
  {
    AssembleTime(g, protocol, deviceId);
    Int32Wraps(10 * Value(g.time.fraction));
  }
}
