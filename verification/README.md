# Better clock: a Dafny model

This project models the logic of a wall clock that runs on a Raspberry Pi Pico W
behind a 53x11 LED matrix, together with the companion "rain" animation:

- **NTP time synchronisation** (`checktime` and its lwIP callbacks). The clock
  brings up WiFi and looks up the NTP server, then sends a 48-byte version-3
  client request. It accepts only a well-formed server reply from port 123,
  takes the transmit timestamp, applies the timezone and writes the result to
  the RTC. Then it shuts the WiFi down.
- **Time conversions**: `ntp_apply_timezone` turns an NTP timestamp plus an
  hour offset into an RTC `datetime_t`. `rtc_add_hours` shifts the RTC by whole
  hours through `mktime`/`gmtime`.
- **The front panel**: the volume buttons step the timezone between -12 and +14
  and shift the RTC with it. Each frame renders glyph indices: "UTC" plus the
  signed offset for four frames after a press, otherwise HH MM SS with blinking
  separators.
- **The numeric font**: a 16-glyph, 4x7 column-bitmap table and `render`, which
  lights one pixel per set bit.
- **The rain animation**: one frame of the ten-slot raindrop array. A frame
  kills old drops, counts the living and finds a gap, maybe spawns a drop, and
  then draws and ages every living drop.

Modules, one per concern:

| file | module | contents |
|---|---|---|
| machine_ints.dfy | MachineInts | `byte`, `uint16`, `uint32`, `int8` |
| arith.dfy | Arith | small lemmas on Euclidean division |
| calendar.dfy | Calendar | proleptic Gregorian day numbers, `struct tm`, `gmtime` and `mktime` in UTC |
| clock_time.dfy | ClockTime | `datetime_t`, `ntp_apply_timezone`, `rtc_add_hours` |
| ntp_wire.dfy | NtpWire | the request packet, big-endian timestamps, reply validation |
| time_sync.dfy | TimeSync | the `checktime` state machine and the DNS / receive callbacks |
| clock_face.dfy | ClockFace | volume buttons, timezone and clock glyph indices, frame sequencing |
| numeric_font.dfy | NumericFont | the glyph table, `render`, reading a glyph back from its pixels |
| rain.dfy | Rain | the raindrop frame step |

Side effects are not performed. They are returned as data instead:

- `checktime` returns the list of actions it would take: start WiFi, remove
  socket, open socket, DNS lookup, send request, set RTC, stop WiFi.
- The answers of the WiFi chip, the socket allocator and the resolver arrive
  as an `Environment` parameter.
- The font returns the set of pixels it lights.
- The rain frame returns the circles it would draw.
- The three `rand()` values a rain frame uses are a `Rolls` parameter.

The program copies `struct tm` fields straight into `datetime_t` and back, and
the model keeps that. After a commit, the RTC's `year` field holds years since
1900 and `month` is 0-based. `rtc_add_hours` reads the fields back with the
same convention. So, as far as the values handed to `rtc_set_datetime` go, the
timezone buttons shift the committed time consistently (`ButtonsAfterCommit`).
On the device these values then pass the Pico SDK's `rtc_set_datetime`, which
refuses a month field of 0. A January commit (better_clock.cpp:329) or a button
shift into January (better_clock.cpp:484, :499) therefore leaves the hardware
RTC unchanged, while `checktime` still reports success. The model takes every
write as accepted (see Left out). The boot value written in `main`
(2023, 1, 1) is read by `rtc_add_hours` as 3923-02-01 (`BootTimeIsYear3923`).

Behaviours of the code worth knowing:

- **Resolver failure.** A resolver error, whether immediate or delivered as a
  null address, does not reset the session or release the link. It only clears
  `active_query`. The next call looks the server up again on the same
  connection (`DnsErrorRetries`, `NullAnswerRetries`).
- **No session token.** Callbacks carry no session token, so a stale callback
  is not told apart from a current one (see Left out).
- **Year and month fields.** NTP timestamp 3913056000 (2024-01-01T00:00:00Z)
  is handed to `rtc_set_datetime` as year field 124 and month field 0, not as
  2024 and 1 (`ApplyTimezoneExample`). Because the SDK refuses month 0, this
  particular write would not reach the hardware RTC.
- **No reply timeout.** A session waiting for a reply that never comes waits
  forever (`WaitsForReply`).

## Model

| member | source | states |
|---|---|---|
| NtpWire.Request | better_clock.cpp:101-106 | the request is 48 bytes, byte 0 is 0x1B (leap indicator 0, version 3, mode 3 = client) and every other byte is zero |
| NtpWire.PackHeader | better_clock.cpp:106 | packing leap indicator, version and mode into byte 0 decodes back to the same three fields |
| NtpWire.ReplyTime | better_clock.cpp:136-145 | a datagram yields a time exactly when it comes from port 123, is 48 bytes long, has mode 4 in the low three bits of byte 0 and a non-zero stratum; the time's big-endian bytes are bytes 40..43 |
| NtpWire.BigEndian32RoundTrip | better_clock.cpp:144 | encoding a 32-bit value as four big-endian bytes and decoding them gives the value back |
| NtpWire.ToBigEndian32RoundTrip | better_clock.cpp:143-144 | decoding any four bytes and re-encoding the value gives the same bytes |
| NtpWire.ServerPacketDecodes | better_clock.cpp:137-144 | a 48-byte packet from port 123 is accepted exactly when its mode is 4 and its stratum non-zero, and then yields its transmit timestamp |
| NtpWire.RequestIsNotAReply | better_clock.cpp:136-140 | the clock's own request, echoed from port 123, is rejected because its mode is 3 |
| NtpWire.KissOfDeathIgnored | better_clock.cpp:137-140 | any stratum-0 datagram is rejected |
| NtpWire.ZeroTimestampAccepted | better_clock.cpp:137-144 | every 48-byte server-mode reply from port 123 with a non-zero stratum and transmit seconds 0 passes validation, whatever its leap indicator and version, and yields time 0 |
| Calendar.DaysInMonth | better_clock.cpp:229 | month lengths are 28 to 31 days, and 29 exactly for February of a leap year |
| Calendar.CivilFromDaysFromCivil | better_clock.cpp:229 | converting a valid date to its day number and back gives the same date |
| Calendar.DaysFromCivilFromDays | better_clock.cpp:229 | converting any day number to a date and back gives the same day number |
| Calendar.GmTime | better_clock.cpp:184 | `gmtime` gives in-range fields, the true weekday, and a broken-down time that `mktime` maps back to the input |
| Calendar.GmTimeTimeGm | better_clock.cpp:223-229 | `gmtime` of the `mktime` of a normalised time gives that time back, with its weekday recomputed |
| Calendar.TimeGmIgnoresWday | better_clock.cpp:217-223 | `mktime` ignores the weekday field it is given |
| ClockTime.ApplyTimezone | better_clock.cpp:176-196 | the result is a normalised date-time with the true weekday, and denotes the instant ntp - 2208988800 + 3600 * tz |
| ClockTime.AddHours | better_clock.cpp:206-241 | whatever the input fields hold, the result has every field in range (month 0-11, day 1-31, hour 0-23, minute and second 0-59) with the true weekday, and denotes the input's instant plus 3600 * offset |
| ClockTime.NormalisedByInstant | better_clock.cpp:223-237 | a normalised date-time survives the trip through `mktime` and `gmtime` unchanged |
| ClockTime.NormalisedUnique | better_clock.cpp:229-237 | two normalised date-times are equal exactly when they denote the same instant |
| ClockTime.AddHoursIgnoresDotw | better_clock.cpp:217 | the day of the week stored in the RTC has no influence on the shifted result |
| ClockTime.AddHoursCompose | better_clock.cpp:223-229 | shifting by a and then by b equals shifting by a + b |
| ClockTime.AddHoursRoundTrip | better_clock.cpp:213-237 | for a normalised date-time, +1 hour then -1 hour restores it exactly |
| ClockTime.AddHoursRoundTripNormalises | better_clock.cpp:213-237 | for any date-time, +1 then -1 gives its normalised form, the input itself when it is already normalised |
| ClockTime.TimezoneIsHourShift | better_clock.cpp:183 | applying timezone tz + 1 equals applying tz to a timestamp one hour later |
| ClockTime.ApplyTimezoneThenAddHours | better_clock.cpp:223-226 | shifting a committed time by k hours equals committing with timezone tz + k |
| ClockTime.ApplyTimezoneUnique | better_clock.cpp:183-192 | a normalised date-time denoting the timestamp's local instant is the committed time |
| ClockTime.AddHoursUnique | better_clock.cpp:223-237 | a normalised date-time at the shifted instant is the shift's result |
| ClockTime.ApplyTimezoneExample | better_clock.cpp:183-192 | 3913056000 at timezone tz (0..23) commits as year field 124, month field 0, day 1, Monday, hour tz |
| ClockTime.AddHoursMonthBoundaryExample | better_clock.cpp:206-241 | for every minute and second, one hour after Wednesday January 31 23:mm:ss is Thursday February 1 00:mm:ss, month field and weekday included |
| ClockTime.AddHoursMonthBoundaryBack | better_clock.cpp:206-241 | for every minute and second, one hour before Thursday February 1 00:mm:ss is Wednesday January 31 23:mm:ss |
| TimeSync.CheckTime | better_clock.cpp:251-364 | a call reports success only for an active session whose query received a non-zero time, and leaves the link inactive |
| TimeSync.DnsFound | better_clock.cpp:151-174 | only the server address and the query flag can change; an address found becomes the server, keeps the query active and sends exactly one client request to port 123 of that address; a null address ends the query and sends nothing |
| TimeSync.LookupAnswerReplyCommits | better_clock.cpp:151-174 | a lookup left in progress, answered with an address and followed by an acceptable reply with a non-zero time, sends one request to that address and makes the next call commit that reply time with the timezone applied |
| TimeSync.Receive | better_clock.cpp:127-149 | only the stored time can change, and only to the timestamp of an acceptable reply |
| TimeSync.BootSatisfiesInvariant | better_clock.cpp:253-256 | the initial session is inactive and satisfies the session invariant |
| TimeSync.CheckTimePreservesInvariant | better_clock.cpp:262-359 | `checktime` keeps the invariant: connecting implies active, and an active query implies a connected link with a socket |
| TimeSync.DnsFoundPreservesInvariant | better_clock.cpp:157-170 | the DNS callback keeps the session invariant |
| TimeSync.ReceivePreservesInvariant | better_clock.cpp:139-145 | the receive callback keeps the session invariant |
| TimeSync.CommitSetsRtc | better_clock.cpp:323-336 | a successful call ends by writing the timezone-adjusted reply time to the RTC and then stopping WiFi |
| TimeSync.RtcWrittenOnlyOnCommit | better_clock.cpp:323-336 | a call that writes the RTC reports success |
| TimeSync.LinkFailureStops | better_clock.cpp:285-296 | a hard link failure while connecting stops WiFi, deactivates the session and contacts nobody |
| TimeSync.InactiveSessionRestarts | better_clock.cpp:262-279 | an inactive session starts WiFi, removes a leftover socket and clears the reply time, and does not succeed |
| TimeSync.LinkFailureThenRestart | better_clock.cpp:262-296 | the call after a hard failure starts WiFi again |
| TimeSync.NoContactWhileConnecting | better_clock.cpp:282-306 | nothing is looked up or sent until the link reports up |
| TimeSync.NoSecondLookup | better_clock.cpp:322-337 | no lookup or request is issued while a query is outstanding |
| TimeSync.LookupGate | better_clock.cpp:306-359 | a lookup happens exactly when the link is up, a socket exists or can be made and no query is outstanding; the query stays active unless the lookup failed at once |
| TimeSync.IdleSessionLooksUp | better_clock.cpp:338-359 | a connected session without a query looks the server up without reconnecting |
| TimeSync.DnsErrorRetries | better_clock.cpp:343-359 | an immediate resolver error clears the query but keeps the link, and the next call looks up again |
| TimeSync.NullAnswerRetries | better_clock.cpp:166-170 | a null DNS answer clears the query but keeps the link, and the next call looks up again |
| TimeSync.CommitWhenReplied | better_clock.cpp:323-336 | a waiting query whose reply has arrived commits on the next call, whatever the collaborators answer |
| TimeSync.WaitsForReply | better_clock.cpp:322-337 | a waiting query with no reply changes nothing and does nothing: there is no timeout |
| TimeSync.ZeroTimestampNeverCommits | better_clock.cpp:326 | a reply with transmit time 0 is stored, overwriting any earlier reply time, and the next call does not commit |
| TimeSync.CommitThenRestart | better_clock.cpp:262-279 | the call after a commit restarts WiFi and removes the old socket, so the same reply is never committed twice |
| ClockFace.Buttons | better_clock.cpp:475-504 | volume-up alone raises the timezone by one below +14 and otherwise changes nothing; volume-down alone lowers it by one above -12 and otherwise changes nothing; both together end at the same timezone (13 from +14) with the timezone screen shown; a change of timezone shows it for 4 frames; the timezone stays within -12..14 and the RTC moves with it so that RTC minus timezone hours is unchanged, and a moved RTC is normalised |
| ClockFace.ButtonsAfterCommit | better_clock.cpp:475-504 | after a commit, button presses leave the RTC equal to a commit under the new timezone |
| ClockFace.TimezoneGlyphs | better_clock.cpp:520-541 | six glyphs at x = 10, 15, ..., 35 on row 2, all valid font indices, with tens digit at most 1 |
| ClockFace.TimezoneGlyphsRoundTrip | better_clock.cpp:520-541 | reading the timezone screen back gives the timezone, sign included |
| ClockFace.TruncDivRem | better_clock.cpp:549-558 | C's truncating quotient and remainder recompose the dividend, with the remainder smaller than the divisor |
| ClockFace.ClockGlyphs | better_clock.cpp:546-558 | six glyphs on row 2; in-range fields give digits 0-9 with hour tens at most 2 and minute and second tens at most 5 |
| ClockFace.ClockGlyphsRoundTrip | better_clock.cpp:546-558 | reading the clock screen back gives the RTC's hour, minute and second, whatever their values |
| ClockFace.ShowFrame | better_clock.cpp:516-570 | drawing a frame never changes the timezone or the RTC |
| ClockFace.FramesCountDown | better_clock.cpp:516-518 | without presses, the timezone screen is shown for as many frames as the counter holds, and then the clock |
| ClockFace.PressShowsTimezone | better_clock.cpp:475-541 | after an accepted press the new timezone is shown for four frames, then the clock with the shifted RTC |
| ClockFace.BootTimeIsYear3923 | better_clock.cpp:404-411 | the boot value shifted by k hours reads as k o'clock on 3923-02-01, a Thursday |
| NumericFont.Render | numeric_font.hpp:55-81 | an index above 15 draws nothing; otherwise a pixel is drawn exactly when its table bit is set, and all pixels lie in the 4x7 box |
| NumericFont.RenderColumn | numeric_font.hpp:72-79 | one column's pass adds exactly the lit rows of that column |
| NumericFont.GlyphMembership | numeric_font.hpp:67-79 | a pixel is in a glyph exactly when its column byte has its row bit set |
| NumericFont.RenderIsGlyph | numeric_font.hpp:55-81 | the pixels `render` draws are the glyph's pixel set |
| NumericFont.GlyphTranslates | numeric_font.hpp:67-77 | a glyph drawn at (x, y) is the glyph at the origin moved by (x, y) |
| NumericFont.ColumnValueOfBits | numeric_font.hpp:72-75 | a column showing the low n bits of a byte reads back as that byte |
| NumericFont.TableHighBitsClear | numeric_font.hpp:36-53 | every table byte is below 0x80, so no bit from row 7 up, which `render` never reads, carries glyph data |
| NumericFont.ReadGlyph | numeric_font.hpp:36-53 | a recognised index has column bytes that match the pixels read |
| NumericFont.TableRowsDistinct | numeric_font.hpp:36-53 | searching the table for any glyph's columns finds that glyph first |
| NumericFont.ColumnsOfGlyph | numeric_font.hpp:70-79 | the four columns of a drawn glyph read back as its table row |
| NumericFont.ReadGlyphRoundTrip | numeric_font.hpp:36-79 | every drawn glyph reads back as its own index |
| NumericFont.GlyphsDistinct | numeric_font.hpp:36-53 | the sixteen glyphs light pairwise different pixel sets |
| Rain.CountAliveRevive | rain.cpp:137-140 | bringing a dead slot to life adds exactly one living drop |
| Rain.DeathAndScan | rain.cpp:109-130 | drops aged 7 or more die; the count is the number of living drops; the gap is the last dead slot, or 10 when all live; a gap exists exactly when fewer than 10 live |
| Rain.Spawn | rain.cpp:133-141 | only the gap slot can change, and only when the roll allows a spawn; the new drop is alive, age 0, on the display |
| Rain.AgeAndDraw | rain.cpp:144-184 | living drops age by one and dead ones are untouched; the circles drawn are, slot by slot, the outer ring in the age's colour, a black inner circle from age 2 and a centre dot from age 5, for living drops only; every pen is a palette entry |
| Rain.Frame | rain.cpp:108-184 | a frame adds at most one living drop, never fills all ten slots when one was free, leaves living drops with ages 1..7, and ages every surviving drop by exactly one without moving it |
| Rain.Animate | rain.cpp:91-184 | from the all-dead start, every frame keeps fewer than ten living drops and indexes the palette in range |

## Left out

- The light sensor and the brightness buttons (`dimmer`, brightness scale) are left out because they are floating point and do not touch the time logic.
- cyw43 and lwIP calls, locking, buffer allocation and `printf` are not performed; they appear only as actions and environment answers.
- Stale callbacks are left out: a DNS answer or datagram for an earlier session is not modelled, because nothing in the code tells it apart.
- When `checktime` runs (`time_us_64` ticks, the hourly interval, the 500 ms and 125 ms frame sleeps) is left out. Each poll and frame is one call.
- Pixel rasterisation of circles, separator pixels and the display update are left out; circles are returned as records.
- The local timezone and DST of `mktime` are left out: `mktime` is taken as UTC, and `tm_isdst` is left uninitialised in the code.
- The NTP era rollover in 2036 is left out; the 32-bit seconds field is read as era 0, as the code does.
- The ages of dead drops at start-up are uninitialised in the code and are arbitrary values in the model.
- ClockTime.AddHours: does not model the narrowing of `struct tm` fields into the 16-bit and 8-bit `datetime_t` fields, which matters only for years beyond 32767.
- The Pico SDK's `rtc_set_datetime` validation and the RTC's own ticking are left out; the RTC is taken to hold what was last written. The SDK is not part of this model.
- ClockTime.ApplyTimezone: the committed fields carry a 0-based month, which the SDK's `rtc_set_datetime` refuses; the model does not promise that a January commit reaches the hardware RTC, only which fields are handed to it.
- ClockFace.Buttons: a shift whose result falls in January hands month field 0 to `rtc_set_datetime`, which the SDK refuses, so on the device the RTC keeps its old value; the model records the shifted value.
- ClockFace.ButtonsAfterCommit: states the RTC as the values written, not as the hardware holds them; a January result, refused by the SDK, leaves the hardware RTC unchanged.
- NumericFont.Render: takes unbounded integer coordinates and index; the `uint_fast8_t` conversion of the arguments is not modelled.
- `time_t` is taken to be 64-bit, so the timezone arithmetic cannot wrap.
- The display width and height are parameters of the rain model rather than the board's constants.
