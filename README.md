# Enfora protocol decoder, modelled in Dafny

This project models `EnforaProtocolDecoder.decode` from the Traccar GPS tracking
server. Enfora terminals send one binary frame per message. The frame carries
the modem's 15-digit IMEI somewhere among its bytes and, usually, an NMEA
`GPRMC` sentence. `decode` handles one frame in four stages, and the model follows
each one:

1. **IMEI scan** (module `ImeiScan`). This is the loop at lines 61-71. It tracks
   the start of the current digit run and stops at the first byte where the
   run is 15 digits long. The loop's `first` starts at `-1`. So when the first 14
   bytes of the frame are digits, the exit test fires at index 13 and
   `buf.toString(-1, 15, …)` throws. The model keeps that behaviour
   (`ScanResult.StartFault`).
2. **Marker** (`Decoder.FindMarker`). This finds the first occurrence of the
   bytes `GPRMC`. The sentence is the text from there to the end of the frame
   (lines 80-85).
3. **Full match** against `PATTERN` (module `Grammar`, lines 37-48 and 88-91).
   - `Grammar.Match` is a deterministic matcher for this one pattern. It follows
     Java's backtracking order for the two optional `(\d+.\d+)?` groups.
   - Sound and complete lemmas tie it to `Grammar.Matches`, which says
     declaratively what a full match is.
   - The pattern's `.` is unescaped, so it matches any character except a line
     terminator. A sentence can therefore match and still carry `12,34` where
     a decimal was meant.
4. **Assembly** (module `Fields`, lines 94-140). The sixteen groups are
   converted to numbers and written into a UTC `Calendar` and a `Position`.
   - Both objects are classes whose fields the methods update.
   - `Integer.parseInt` fails above 2^31-1.
   - The milliseconds are the 32-bit product `fraction * 10`, so they wrap.
   - `Double.parseDouble` fails when the unescaped `.` matched a comma. It also
     fails when the speed group is absent (a null argument).

   Every such exception is the outcome `Fault`.

`Decoder.Decode` composes the stages imperatively, as the Java method does.
Its contract ties the result to `Decoder.DecodeSpec`. The outcomes are the
following:

| outcome | meaning | lines |
|---|---|---|
| `NoImei` | no IMEI was found | 74-77 |
| `NoSentence` | the `GPRMC` marker is missing | 81-84 |
| `NoMatch` | the sentence does not match `PATTERN` | 89-91 |
| `Unidentified` | the registry does not know the device | 99-101 |
| `Fault` | an exception escapes `decode` | |
| `Located(fix)` | the position returned at line 141 | 141 |

The project has five files:
- `base.dfy`: bytes, digits, line terminators and decimal values;
- `imei.dfy`: the IMEI scan;
- `grammar.dfy`: `PATTERN`;
- `fields.dfy`: the conversions, `Calendar` and `Position`;
- `decoder.dfy`: `decode` itself.

The model treats the environment as follows:
- The frame is a byte sequence whose reader index is 0.
- Bytes are read as text one character per byte.
- `getProtocolName()` is the parameter `protocol`.
- `identify` together with `getDeviceId()` is a function from the IMEI text to
  an optional device id.
- The clock that `Calendar.getInstance` starts from is the parameter `now`.
  `Decode`'s contract does not mention `now`, so the outcome does not depend on
  the clock.

A frame whose first 14 bytes are digits never decodes. One example is a frame
that begins with its IMEI. The scan reaches `toString(-1, 15, …)` and throws
(`Decoder.LeadingDigitsFault`).

All paths below are in `src/org/traccar/protocol/EnforaProtocolDecoder.java`.

## Model

| member | source | states |
|---|---|---|
| Base.IsDigitByte | src/org/traccar/protocol/EnforaProtocolDecoder.java:62 | `Character.isDigit((char) buf.getByte(i))` holds exactly for the bytes 48..57: a negative byte widens to U+FF80..U+FFFF, where no character is a decimal digit. |
| Base.ToText | src/org/traccar/protocol/EnforaProtocolDecoder.java:68 | `buf.toString(…, Charset.defaultCharset())`, read one character per byte, for the IMEI here and for the sentence at line 85: the text is as long as the bytes. |
| ImeiScan.ScanFrom | src/org/traccar/protocol/EnforaProtocolDecoder.java:61-71 | The scan from byte `i` on reports NotFound exactly when the exit test fires at no later byte. A fault means the exit test fires at byte 13. A found window is fifteen digits, and the exit test fires at no byte before the window's end. |
| ImeiScan.Scan | src/org/traccar/protocol/EnforaProtocolDecoder.java:61-71 | The scan over the whole frame: a found IMEI is a window of fifteen digit bytes, and a fault means 14 leading digits. |
| ImeiScan.FindImei | src/org/traccar/protocol/EnforaProtocolDecoder.java:61-71 | The scanning loop's result is `Scan(buf)`. This is the first index at which the exit test `i - first == IMEI_LENGTH - 1` fires, given the run start the loop tracks. |
| ImeiScan.ExitTest | src/org/traccar/protocol/EnforaProtocolDecoder.java:61-67 | With the loop's invariant on `first`, the exit test fires at `i` exactly when the scan's declarative firing condition holds there. That condition is a 15-digit window ending at `i`, or, at `i` = 13, 14 leading digits. |
| ImeiScan.ScanFound | src/org/traccar/protocol/EnforaProtocolDecoder.java:61-70 | A found IMEI starts at index 1 or later and is 15 digit bytes preceded by a non-digit. No earlier index starts such a window, and the frame does not begin with 14 digits. |
| ImeiScan.ScanStartFault | src/org/traccar/protocol/EnforaProtocolDecoder.java:61-68 | The scan faults exactly when the first 14 bytes are digits. That is when `toString(-1, 15, …)` is reached. |
| ImeiScan.ScanNotFound | src/org/traccar/protocol/EnforaProtocolDecoder.java:61-77 | No IMEI is found exactly when no 15-digit window follows a non-digit and the frame does not start with 14 digits. |
| ImeiScan.FirstRunWins | src/org/traccar/protocol/EnforaProtocolDecoder.java:61-70 | The first qualifying run wins. For a run longer than 15 digits, the IMEI is the run's first 15 digits. |
| Base.IsDigit | src/org/traccar/protocol/EnforaProtocolDecoder.java:39-47 | `\d` without the Unicode character-class flag: exactly `0`..`9`. |
| Base.IsLineTerminator | src/org/traccar/protocol/EnforaProtocolDecoder.java:39-48 | The characters the unescaped `.` refuses without DOTALL: `\n`, `\r`, U+0085, U+2028 and U+2029. |
| Grammar.Matches | src/org/traccar/protocol/EnforaProtocolDecoder.java:37-48 | The declarative full match: the sentence is `GPRMC,` followed by the text of the sixteen groups (with the character the time's `.` matched), then a trailer `.*[\r\n\u0000]*`. |
| Grammar.Match | src/org/traccar/protocol/EnforaProtocolDecoder.java:37-48 | `PATTERN.matcher(s).matches()` and its groups. A match starts with `GPRMC,` and is at least 15 characters long. What it returns is fixed by MatchSound, MatchComplete and MatchDecides. |
| Grammar.MatchTime | src/org/traccar/protocol/EnforaProtocolDecoder.java:39 | Reads `(\d{2})(\d{2})(\d{2}).(\d+),`. It spans at least nine characters and stays inside the sentence. |
| Grammar.MatchStatus | src/org/traccar/protocol/EnforaProtocolDecoder.java:40 | Reads `([AV]),`, which is exactly two characters. |
| Grammar.MatchCoordinate | src/org/traccar/protocol/EnforaProtocolDecoder.java:41-44 | Reads `(\d{2})(\d{2}.\d+),([NS]),` or `(\d{3})(\d{2}.\d+),([EW]),`. It spans at least the degree width plus seven characters. |
| Grammar.MatchDate | src/org/traccar/protocol/EnforaProtocolDecoder.java:47 | Reads `(\d{2})(\d{2})(\d{2}),`, which is exactly seven characters. |
| Grammar.DecimalEnds | src/org/traccar/protocol/EnforaProtocolDecoder.java:45-46 | The ends a `\d+.\d+` at p can have, in the order Java's backtracking tries them. Each lies past p and inside the sentence. |
| Grammar.AfterCourse | src/org/traccar/protocol/EnforaProtocolDecoder.java:46-48 | What follows the course group: a comma, the date and the trailer. It only succeeds where a comma is. |
| Grammar.MatchCourse | src/org/traccar/protocol/EnforaProtocolDecoder.java:46-48 | The course group's backtracking: each candidate end in turn, then the empty group. An absent course is reported only when the rest matches right at the group's start. |
| Grammar.AfterSpeed | src/org/traccar/protocol/EnforaProtocolDecoder.java:45-48 | What follows the speed group: a comma and the course search. It only succeeds where a comma is, and it keeps the speed it was given. |
| Grammar.MatchSpeed | src/org/traccar/protocol/EnforaProtocolDecoder.java:45-48 | The speed group's backtracking. An absent speed is reported only when the rest matches right at the group's start. |
| Grammar.MatchMotion | src/org/traccar/protocol/EnforaProtocolDecoder.java:45-48 | The speed search started with the candidate ends at p. What it yields is fixed by MatchSpeedSound, MatchSpeedFinds and MotionComplete. |
| Grammar.Group | src/org/traccar/protocol/EnforaProtocolDecoder.java:37-48 | Of the sixteen groups, only group 12 (speed) and group 13 (course) can be null. |
| Grammar.MatchTimeSound | src/org/traccar/protocol/EnforaProtocolDecoder.java:39 | What the time matcher reads is laid out at its position: three 2-digit fields, one non-terminator character, a digit run and a comma. |
| Grammar.MatchTimeExact | src/org/traccar/protocol/EnforaProtocolDecoder.java:39 | A time section laid out at a position is read back with exactly those fields and the same end position. |
| Grammar.MatchStatusSound | src/org/traccar/protocol/EnforaProtocolDecoder.java:40 | The status read is `A` or `V` followed by a comma. |
| Grammar.MatchStatusExact | src/org/traccar/protocol/EnforaProtocolDecoder.java:40 | A laid-out `A,` or `V,` is read back. |
| Grammar.MatchCoordinateSound | src/org/traccar/protocol/EnforaProtocolDecoder.java:41-44 | What the coordinate matcher reads has these parts: 2 or 3 degree digits; minutes of the form `\d{2}.\d+`; one of the two hemisphere letters; commas between them. |
| Grammar.MatchCoordinateExact | src/org/traccar/protocol/EnforaProtocolDecoder.java:41-44 | A coordinate laid out at a position is read back with exactly its parts. |
| Grammar.MatchDateSound | src/org/traccar/protocol/EnforaProtocolDecoder.java:47 | The date read is three 2-digit fields and a comma. |
| Grammar.MatchDateExact | src/org/traccar/protocol/EnforaProtocolDecoder.java:47 | A laid-out date is read back. |
| Grammar.TrailerDecision | src/org/traccar/protocol/EnforaProtocolDecoder.java:48 | The trailer test accepts exactly the texts of the form `.*[\r\n\u0000]*`: non-terminators, then only `\r`, `\n` or NUL characters. |
| Grammar.DecimalEndsSound | src/org/traccar/protocol/EnforaProtocolDecoder.java:45-46 | Every candidate end the matcher tries delimits a `\d+.\d+`. |
| Grammar.DecimalEndsComplete | src/org/traccar/protocol/EnforaProtocolDecoder.java:45-46 | Every `\d+.\d+` followed by a comma ends at a candidate. When its separator is `.`, it is the first candidate. |
| Grammar.DecimalEndsAtComma | src/org/traccar/protocol/EnforaProtocolDecoder.java:45-46 | At a comma there is no candidate, so the optional group is empty. |
| Grammar.MatchCourseSound | src/org/traccar/protocol/EnforaProtocolDecoder.java:46-48 | A successful backtracking search for the course group yields a course (present or absent), a date and a trailer laid out from that position. |
| Grammar.MatchSpeedSound | src/org/traccar/protocol/EnforaProtocolDecoder.java:45-48 | The same for the speed group and everything after it. |
| Grammar.MatchCourseFinds | src/org/traccar/protocol/EnforaProtocolDecoder.java:46-48 | If any alternative the course search may take, including the empty group, leads to a match of the rest, the search succeeds. |
| Grammar.MatchSpeedFinds | src/org/traccar/protocol/EnforaProtocolDecoder.java:45-48 | If any alternative for the speed group leads to a match of the rest, the search succeeds. |
| Grammar.MotionComplete | src/org/traccar/protocol/EnforaProtocolDecoder.java:45-48 | Speed, course, date and trailer laid out at a position are matched. If both decimals use `.` as their separator, the groups are exactly those. |
| Grammar.MatchSound | src/org/traccar/protocol/EnforaProtocolDecoder.java:37-48 | The groups `Match` returns are a full match of the sentence. |
| Grammar.MatchComplete | src/org/traccar/protocol/EnforaProtocolDecoder.java:37-48 | Every sentence that has a full match is matched. If the match's decimals use `.` as their separator, `Match` returns exactly that match. |
| Grammar.MatchDecides | src/org/traccar/protocol/EnforaProtocolDecoder.java:88-89 | `matches()` is false exactly when the sentence has no full match. |
| Fields.Int32 | src/org/traccar/protocol/EnforaProtocolDecoder.java:110 | Java `int` arithmetic: the result lies in the 32-bit range, agrees with the exact value modulo 2^32, and equals it when it fits. |
| Fields.Int32Wraps | src/org/traccar/protocol/EnforaProtocolDecoder.java:110 | A value between 2^31 and 2^32 wraps to itself minus 2^32, which is negative. |
| Fields.ParseInt | src/org/traccar/protocol/EnforaProtocolDecoder.java:107-110 | `Integer.parseInt` on a digit run: it fails (NumberFormatException) exactly when the run's value exceeds 2^31-1, and otherwise yields that value. |
| Fields.ParseTwoDigits | src/org/traccar/protocol/EnforaProtocolDecoder.java:107-109 | `parseInt` on two digits never throws, and gives their decimal value, below 100. |
| Fields.ParseShortDigits | src/org/traccar/protocol/EnforaProtocolDecoder.java:110 | `parseInt` on at most nine digits never throws, and gives their decimal value. |
| Fields.ShapeSplit | src/org/traccar/protocol/EnforaProtocolDecoder.java:41-46 | A digit text with at most one separator consists of digits, or of digits, the separator and digits. |
| Fields.SeparatorAt | src/org/traccar/protocol/EnforaProtocolDecoder.java:41-46 | The separator of such a text is its one non-digit character. |
| Fields.ParseDouble | src/org/traccar/protocol/EnforaProtocolDecoder.java:116-133 | `Double.parseDouble` on a group of the form `\d+.\d+` or `\d+`: a result is never negative. ParseDoubleDefined says when it converts; DigitsValue, PointValue and ExponentValue give the value for each shape that converts. |
| Fields.ParseDoubleDefined | src/org/traccar/protocol/EnforaProtocolDecoder.java:116-133 | `parseDouble` on such a text succeeds exactly when it is plain digits or its separator is `.`, `e` or `E`. |
| Fields.DigitsValue | src/org/traccar/protocol/EnforaProtocolDecoder.java:116-133 | A group of plain digits, such as minutes `111234` that `\d{2}.\d+` lets through, converts to its decimal value. |
| Fields.PointValue | src/org/traccar/protocol/EnforaProtocolDecoder.java:116-133 | `a.b` converts to the value of `a` plus the value of `b` scaled below one. |
| Fields.ExponentValue | src/org/traccar/protocol/EnforaProtocolDecoder.java:116-133 | A group `aEb` or `aeb` matches `\d+.\d+` and converts to a × 10^b. |
| Fields.CommaDoesNotConvert | src/org/traccar/protocol/EnforaProtocolDecoder.java:116-133 | A `\d+.\d+` whose `.` matched a comma makes `parseDouble` throw. |
| Fields.PointConverts | src/org/traccar/protocol/EnforaProtocolDecoder.java:116-133 | A `\d+.\d+` containing `.` always converts. |
| Fields.MinutesParse | src/org/traccar/protocol/EnforaProtocolDecoder.java:116-123 | A minutes group of the form `\d{2}.\d+` converts exactly when its third character is a digit, `.`, `e` or `E`. |
| Fields.Angle | src/org/traccar/protocol/EnforaProtocolDecoder.java:116-124 | Degrees plus minutes / 60, negated for the negative hemisphere. It exists exactly when the minutes convert. It is at most 0 when negated and at least 0 otherwise. |
| Fields.ReadAngle | src/org/traccar/protocol/EnforaProtocolDecoder.java:116-119 | The latitude and longitude statements compute `Angle`. That is degrees plus minutes / 60, negated for the negative hemisphere, or a fault when the minutes do not convert. |
| Fields.AngleSign | src/org/traccar/protocol/EnforaProtocolDecoder.java:116-125 | The angle has magnitude degrees + minutes / 60. It is at most 0 for the negative hemisphere and at least 0 otherwise. |
| Fields.Calendar.constructor | src/org/traccar/protocol/EnforaProtocolDecoder.java:105 | A new Calendar is in the given zone and holds the current time's fields. |
| Fields.Calendar.Clear | src/org/traccar/protocol/EnforaProtocolDecoder.java:106 | `clear()` unsets every field and keeps the zone. |
| Fields.Calendar.Set | src/org/traccar/protocol/EnforaProtocolDecoder.java:107-110 | `set` changes exactly the one field. |
| Fields.Position.constructor | src/org/traccar/protocol/EnforaProtocolDecoder.java:94 | A new position has no course. |
| Fields.SetClock | src/org/traccar/protocol/EnforaProtocolDecoder.java:105-110 | The Calendar holds exactly hour, minute, second and `Int32(fraction * 10)` milliseconds. It fails when the fraction does not fit in an `int`. |
| Fields.SetDate | src/org/traccar/protocol/EnforaProtocolDecoder.java:137-139 | Day, month − 1 and 2000 + year are added to the Calendar's fields. |
| Fields.SetMotion | src/org/traccar/protocol/EnforaProtocolDecoder.java:127-134 | The speed is set. The course is set only when its group is present. Nothing else changes. The method fails exactly when a conversion throws, including on a null speed. |
| Fields.ClockFields | src/org/traccar/protocol/EnforaProtocolDecoder.java:105-110 | The Calendar fields lines 107-110 write. They exist exactly when the fraction's value fits in an `int`. |
| Fields.WithDate | src/org/traccar/protocol/EnforaProtocolDecoder.java:137-139 | The Calendar fields after the three date statements. WithDateKeeps states what changes. |
| Fields.WithDateKeeps | src/org/traccar/protocol/EnforaProtocolDecoder.java:137-139 | Setting the date adds the day, month and year fields and leaves every other field as it was. |
| Fields.Motion | src/org/traccar/protocol/EnforaProtocolDecoder.java:127-134 | Speed and optional course. An absent speed group faults. A converted speed is never negative. A course is present exactly when its group is. |
| Fields.Assemble | src/org/traccar/protocol/EnforaProtocolDecoder.java:94-140 | The position lines 94-140 build from the groups, or a fault. A position exists only when the speed group is present, and it carries the given protocol and device id. |
| Fields.GroupValues | src/org/traccar/protocol/EnforaProtocolDecoder.java:96-139 | The `index++` cursor reads group 1 to 16 in order: time, status, latitude, longitude, speed, course, date. |
| Fields.Fill | src/org/traccar/protocol/EnforaProtocolDecoder.java:104-140 | The position ends up as `Assemble` of the groups, and protocol and device id are kept. The method fails exactly when `Assemble` has no result. The starting clock does not matter. |
| Fields.AssembleDefined | src/org/traccar/protocol/EnforaProtocolDecoder.java:104-139 | Assembly succeeds exactly when all of the following hold: the fraction fits in an `int`; both minutes convert; the speed group is present and converts; and the course, when present, converts. |
| Fields.MissingSpeedFaults | src/org/traccar/protocol/EnforaProtocolDecoder.java:128 | An absent speed group always faults. |
| Fields.CommaMinutesFaults | src/org/traccar/protocol/EnforaProtocolDecoder.java:117 | Minutes whose `.` matched a comma always fault. |
| Fields.PointSentenceConverts | src/org/traccar/protocol/EnforaProtocolDecoder.java:104-139 | A sentence meets these conditions: its decimals use `.`, it has a speed, and its fraction has at most nine digits. Such a sentence always assembles. |
| Fields.AssembleFlags | src/org/traccar/protocol/EnforaProtocolDecoder.java:95-133 | Protocol and device id pass through. The position is valid exactly when the status is `A`. The speed is the converted speed group. A course is set exactly when its group is present, and then it is that group's value. |
| Fields.AssembleCoordinates | src/org/traccar/protocol/EnforaProtocolDecoder.java:116-125 | Latitude and longitude are degrees + minutes / 60, negative exactly for `S` and `W`. |
| Fields.AssembleTime | src/org/traccar/protocol/EnforaProtocolDecoder.java:105-140 | The time holds exactly seven fields: hour, minute and second are the groups' values below 100; the milliseconds are `Int32(10 × fraction)`; day, month − 1 and 2000 + year follow. |
| Fields.CalendarFields | src/org/traccar/protocol/EnforaProtocolDecoder.java:105-139 | The Calendar has exactly seven fields set. Hour, minute, second and day are below 100. The month is the zero-based `month − 1`. The year lies in 2000..2099. |
| Fields.MillisecondExact | src/org/traccar/protocol/EnforaProtocolDecoder.java:110 | With at most eight fraction digits, the milliseconds are exactly 10 × fraction. |
| Fields.MillisecondWraps | src/org/traccar/protocol/EnforaProtocolDecoder.java:110 | For a fraction between 214748365 and 429496729, `* 10` overflows and the milliseconds come out negative. |
| Decoder.MarkerAt | src/org/traccar/protocol/EnforaProtocolDecoder.java:80 | The test `StringFinder("GPRMC")` applies at an index: the five bytes from there are `G`, `P`, `R`, `M`, `C`. |
| Decoder.FindMarkerFrom | src/org/traccar/protocol/EnforaProtocolDecoder.java:80-84 | The search reports the leftmost occurrence of `GPRMC`, or none when there is no occurrence. |
| Decoder.FindMarker | src/org/traccar/protocol/EnforaProtocolDecoder.java:80-84 | `indexOf` over the whole frame: the leftmost `GPRMC`, or none when it occurs nowhere. |
| Decoder.Imei | src/org/traccar/protocol/EnforaProtocolDecoder.java:68 | The IMEI text is fifteen characters long. |
| Decoder.Sentence | src/org/traccar/protocol/EnforaProtocolDecoder.java:85 | The sentence is the text from the marker to the end of the frame, as long as that part of the frame. |
| Decoder.Reach | src/org/traccar/protocol/EnforaProtocolDecoder.java:61-91 | When decode gets past the match, the sixteen groups have the shapes `PATTERN` gives them. |
| Decoder.DecodeSpec | src/org/traccar/protocol/EnforaProtocolDecoder.java:53-142 | A frame that stops before the match ends with that stage's outcome. A matched frame ends as Unidentified, Fault or Located. |
| Decoder.Decode | src/org/traccar/protocol/EnforaProtocolDecoder.java:53-142 | The method's outcome is `DecodeSpec`, whatever the clock reading. |
| Decoder.LeadingDigitsFault | src/org/traccar/protocol/EnforaProtocolDecoder.java:61-68 | A frame whose first 14 bytes are digits faults, whatever follows. |
| Decoder.NoImeiExactly | src/org/traccar/protocol/EnforaProtocolDecoder.java:61-77 | Decode ends with no IMEI exactly when the scan finds none. |
| Decoder.NoSentenceExactly | src/org/traccar/protocol/EnforaProtocolDecoder.java:80-84 | After an IMEI is found, decode ends with no sentence exactly when no index starts `GPRMC`. |
| Decoder.NoMatchExactly | src/org/traccar/protocol/EnforaProtocolDecoder.java:85-91 | After IMEI and marker, decode ends with no match exactly when the sentence has no full match of `PATTERN`. |
| Decoder.IdentifyAfterMatch | src/org/traccar/protocol/EnforaProtocolDecoder.java:88-101 | The registry is consulted only after a match. An outcome of NoImei, NoSentence or NoMatch is the same under any registry. |
| Decoder.UnidentifiedAfterMatch | src/org/traccar/protocol/EnforaProtocolDecoder.java:61-101 | Unidentified means an IMEI was found, the sentence matched, and the registry returned nothing for that IMEI. |
| Decoder.UnidentifiedExactly | src/org/traccar/protocol/EnforaProtocolDecoder.java:88-101 | Decode ends Unidentified exactly when the sentence matched and the registry refuses the IMEI. Groups that would not convert do not change that. |
| Decoder.FaultExactly | src/org/traccar/protocol/EnforaProtocolDecoder.java:61-140 | Decode faults exactly in two cases: the frame starts with 14 digits; or the sentence matched, the device is known and the conversion of the groups fails. |
| Decoder.LocatedSound | src/org/traccar/protocol/EnforaProtocolDecoder.java:53-142 | A located fix comes from these steps: the found IMEI, the first marker, the matched groups, the registry's device id for that IMEI, and the assembly of those groups. |
| Decoder.LocatedImei | src/org/traccar/protocol/EnforaProtocolDecoder.java:61-102 | A located fix's device is the one registered for the first 15-digit run that follows a non-digit. |
| Decoder.LocatedSentence | src/org/traccar/protocol/EnforaProtocolDecoder.java:80-140 | A located fix is assembled from a full match of the text that starts at the leftmost `GPRMC`. |
| Decoder.LocatedComplete | src/org/traccar/protocol/EnforaProtocolDecoder.java:53-142 | A frame meets these conditions: it has an IMEI; its sentence from the first marker fully matches with `.`-separated decimals; it has a known device; and it assembles. Such a frame is located with exactly that fix. |
| Decoder.CommaMinutesDecodeFault | src/org/traccar/protocol/EnforaProtocolDecoder.java:88-123 | A matched sentence from a known device faults when either minutes group has a comma where its `.` is. |
| Decoder.MissingSpeedDecodeFault | src/org/traccar/protocol/EnforaProtocolDecoder.java:88-128 | A matched sentence from a known device without a speed faults. |

## Left out

- The Netty `Channel`, the remote address and `ChannelBuffer` are left out. The frame is a byte sequence read from index 0 to the end. `readableBytes()` is its length, and absolute and relative indexes coincide.
- `Charset.defaultCharset()` is modelled as one character per byte (ISO-8859-1). With another default charset, such as UTF-8, bytes above 127 in the sentence decode differently, and the model's outcome can differ from Java's:
  - A lone byte 0x85 is the line terminator U+0085 in the model, which `.` rejects, so a frame ending in it is NoMatch. Under UTF-8 it decodes to U+FFFD, which `.` accepts, and the frame can match.
  - A multi-byte UTF-8 character is one character for Java but several for the model. At the time or minutes separator `.`, Java can match where the model does not. At the speed or course separator `.` (lines 45-46), such a character changes which split the backtracking finds.
  - The IMEI is unaffected, because its fifteen bytes are ASCII digits.
- `StringFinder` is not part of this model. `buf.indexOf(…, new StringFinder("GPRMC"))` is taken to report the first index where the five bytes `GPRMC` start.
- `Log.warning` is left out, because it has no effect on the outcome.
- `identify(imei, channel)` and `getDeviceId()` are a function from the IMEI to an optional device id, because the device registry is outside this class. `getProtocolName()` is a parameter.
- `java.util.regex` in general is left out. Only `PATTERN` is modelled, by a matcher written for it.
- Fields.Calendar.constructor: the model does not read the system clock. The clock is the `now` parameter, because that reading is erased by `clear()` at line 106.
- Fields.Fill: the fix keeps the Calendar's fields rather than the instant `getTime()` computes. Lenient normalisation of out-of-range fields (hour 99, month −1) is not modelled, nor is the conversion from the UTC zone to milliseconds. The zone is fixed to `"UTC"` when the Calendar is created, and the fix does not carry it.
- `Double.parseDouble` is modelled with exact rational values, so latitude, longitude, speed and course are the exact decimal values. Two IEEE-754 effects are lost:
  - rounding to the nearest double;
  - overflow to Infinity. Minutes such as `11e1234` give Java an infinite latitude, but the model a finite one. The same holds for a speed or course with a large `e` exponent.
- The remaining `Position` fields, such as altitude and the extended-info map, are left out, because `decode` never sets them.
- Grammar.MatchComplete: the groups `Match` returns are pinned down only when the speed and course use `.` as their separator. With another separator, several splits of the text can be full matches, and only success is proved.
- Grammar.MotionComplete: the same restriction applies to the speed and course section.
- Decoder.LocatedComplete: it requires the speed and course to use `.` as their separator, for the same reason.

