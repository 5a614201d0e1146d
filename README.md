# igc — a verified model of the IGC flight-log decoder

This project models the core of the Go package `igc`. The package reads
IGC flight-recorder logs (the text format paragliders' and glider pilots'
GNSS recorders write) and turns each log into a flight summary: date,
takeoff time and site, landing time and site, and duration.

The model covers:

- **Coordinates** (`Igc`): the fixed-width latitude `DDMMmmmH` and longitude
  `DDDMMmmmH` fields become exact reals. For S and W only the degrees are
  negated, as the code does.
- **B records** (`FixRecords`): one fix per line, decoded at fixed offsets.
  The fix slice supports ordering by time, sorting, takeoff selection (the
  first locked fix with positive GNSS altitude, or a void fix) and landing
  selection (the last fix).
- **Line scan** (`FlightLog`): dispatch on the first character. H records
  handle `DTE` (date) and `SIT` (site name); B records append fixes.
- **Evaluation** (`FlightLog.Flight.Evaluate`): sort, pick takeoff and
  landing, name both sites, compute the `time.Duration`.
- **Site names** (`Igc.Sources`): a registered local finder is trusted
  within `MaxDistance` (default 300). Otherwise a remote geocoder is used.
  The geocoder is a function parameter; it yields the decoded JSON reply, or
  nothing when the request failed.
- **`Site` options** (`Locator`): `New` with `WithMaxDistance` and
  `WithGoogleMapsURL`.

Supporting modules:

- `Errors`: `Result`, `Option` and `Outcome`. Every `log.Fatal` in the
  source, and the panics noted below, become an `Err` naming the cause.
- `Text`: the parts of `strconv`, `fmt` and `strings` the decoder uses,
  restricted to the shapes its fields take.
- `Calendar`: `time.Parse` for the layouts `020106` and `020106 150405`
  (including the sign Go's parser accepts in the two-character year), and
  `Time.Sub`.

Instants are whole seconds since 0001-01-01 00:00:00 UTC, so Go's zero
`time.Time` is 0. Durations are nanoseconds, saturated at the int64 bounds
as `Time.Sub` does. Dates are checked against the proleptic Gregorian
calendar. Two-digit years map 69–99 to 1969–1999 and 00–68 to 2000–2068.

Stateful code stays stateful:

- `Flight`, `Flights`, `Sources` (the package variables `takeoff`, `landing`,
  `MaxDistance`) and `Site` are classes whose methods update fields.
- `TakeOff` is a loop with early returns.
- The SIT name is copied character by character into a buffer.
- `sort.Sort` runs in place on an array through `Less` and `Swap`.

Each such method is proved against a pure specification function, and the
properties are proved about those functions.

### Behaviour reproduced as the code has it

- `ParseLatitude`/`ParseLongitude`: `float64(-deg) + min/60` for S/W, so
  4°30′S is −3.5, not −4.5 (`Igc.SouthNegatesDegreesOnly`,
  `Igc.WestExample`).
- `TakeOff` returns the zero `Fix`, not the first fix, when every fix is a
  locked fix at GNSS altitude ≤ 0. Its time is the zero instant, so the
  duration saturates at the largest `time.Duration`
  (`FlightLog.SummaryNothingSelected`, `FlightLog.FixTimesAreLate`).
- An unknown validity letter fails only in the takeoff scan. Fixes after
  the selected one are never checked.
- `Landing` on an empty slice is an index panic. Here it is the error
  `NoFixes`, raised after the takeoff site has been looked up, as in the
  source's order.
- In the layout `020106 150405` the space matches any run of spaces, so
  a date token followed by spaces still parses (`Calendar.SpacesAfterDate`).
  The scan never stores such a token, but `NewFix` accepts one.
- A B record before any DTE header fails: the empty date token does not
  parse (`FlightLog.FixBeforeDateFails`).
- The year of a DDMMYY token goes through `time.Parse`'s `atoi`, which
  accepts a sign: "0101+5" is 2005-01-01 and "0101-5" is 1995-01-01
  (`Calendar.SignedYear`). Day and month must be two digits.
- A SIT header without `": "` makes `strings.Split(...)[1]` panic. Here it
  is the error `MissingSeparator`. The site text is not trimmed, and it
  ends at a second `": "` if there is one.
- A geocoder reply with status `"OK"` and no results is an index panic.
  Here it is the error `NoResults`. Any failed request or other status
  gives `""`.
- Index panics on lines too short for their slices (an empty line, an H
  line shorter than 5, a DTE line shorter than 11, a B line shorter than
  35) are excluded by the precondition `FlightLog.Sliceable`.
- `flight.go` reads the fix fields as `Validity`, `Pressure` and `GNSS`,
  while `fix.go` declares them lower-case. The model has one `Fix`
  datatype, and `parseBrecord` decodes through `NewFix`, which reads the
  same offsets.

## Model

| member | source | states |
|---|---|---|
| Igc.ParseCoordinate | igc.go:44-83 | a malformed degree or minute field is `MalformedNumber` (checked before the letter), a wrong letter `WrongSuffix`; otherwise the value is the signed degrees plus minutes/60, with only the degrees negated for the negative letter |
| Igc.ParseLatitude | igc.go:44-62 | a decoded latitude has N or S at index 7 and digits at index 1, index 3 and indices 4–6; index 0 may hold the sign `Atoi` accepts and index 2 the sign `ParseFloat` accepts |
| Igc.ParseLongitude | igc.go:65-83 | a decoded longitude has E or W at index 8 and digits at indices 1, 2, 4 and 5–7; index 0 may hold the sign `Atoi` accepts and index 3 the sign `ParseFloat` accepts |
| Igc.LatitudeDigits | igc.go:45-57 | an all-digit field is ±DD + (MM + mmm/1000)/60, with the degrees from chars 0–2 negated for S |
| Igc.LongitudeDigits | igc.go:66-78 | the same with 3-digit degrees from chars 0–3, minutes from 3–5 and 5–8, W negating the degrees |
| Igc.WrongSuffixIsError | igc.go:53-60 | any letter other than N/S at index 7 of an 8-character latitude field, or other than E/W at index 8 of a longitude field, is an error, never a value |
| Igc.SouthNegatesDegreesOnly | igc.go:54-57 | N and S readings of the same digits differ by twice the degrees and sum to twice the minutes' part: only the degrees flip |
| Igc.WestExample | igc.go:76-78 | "00702233W" decodes to −7 + 2.233/60 |
| Igc.LatitudeRoundTrip | igc.go:44-62 | decoding the field text of (deg, MM, mmm, N/S) gives back its value |
| Igc.LongitudeRoundTrip | igc.go:65-83 | the same for longitudes |
| Igc.AddressOf | igc.go:125-142 | failed request or non-"OK" status gives ""; "OK" gives the first address, and "OK" with no results is `NoResults` |
| Igc.AddressOrigin | igc.go:139-142 | a non-empty address always comes from the first result of an "OK" reply |
| Igc.LookupPlaceWithGoogleMaps | igc.go:116-143 | fails only with `NoResults`; a non-empty name is the first result of an "OK" reply |
| Igc.LookupSite | igc.go:86-113 | only the remote lookup can fail, with `NoResults`, so an accepted finder answer never fails |
| Igc.LocalAnswerWins | igc.go:88-91 | an accepted finder answer (non-empty, dist ≤ MaxDistance) is the result, independently of the geocoder |
| Igc.RemoteFallback | igc.go:88-97 | no finder, an empty place or a place too far falls through to the remote result, as if no finder were registered |
| Igc.SiteNameOrigin | igc.go:86-98 | a non-empty site name is the accepted local answer or the first "OK" address |
| Igc.WiderRadiusKeepsLocal | igc.go:89 | raising MaxDistance keeps an accepted local answer |
| Igc.Sources.constructor | igc.go:20-23 | no finder registered and MaxDistance 300 |
| Igc.Sources.RegisterTakeoffSiteSource | igc.go:34-36 | sets the takeoff finder, nothing else |
| Igc.Sources.RegisterLandingSiteSource | igc.go:39-41 | sets the landing finder, nothing else |
| Igc.Sources.LookupTakeOffSite | igc.go:86-98 | the takeoff finder's place exactly when one is registered and its answer accepted; otherwise the remote result |
| Igc.Sources.LookupLandingSite | igc.go:101-113 | the same policy with the independently registered landing finder |
| FixRecords.NewFix | fix.go:22-38 | succeeds exactly when timestamp, latitude and longitude decode; reads time [1,7), latitude [7,15), longitude [15,24), validity [24], pressure [25,30), GNSS [30,35); a bad timestamp is `BadTimestamp` |
| FixRecords.AtoiOrZero | fix.go:28-29 | the number when the field is one, else 0 |
| FixRecords.MalformedAltitudeIsZero | fix.go:28-29 | a malformed pressure or GNSS field decodes as 0 rather than failing |
| FixRecords.NegativeAltitude | fix.go:27-28 | a signed field "-dddd" decodes to the negative altitude |
| FixRecords.RecordRoundTrip | fix.go:22-38 | a B record written from given fields decodes to exactly those fields under a valid date |
| FixRecords.ClockText | fix.go:24 | the HHMMSS text of a second of the day parses back to it |
| FixRecords.Coord | fix.go:41-46 | non-empty exactly when latitude > 0 and longitude > 0 |
| FixRecords.CoordReadsBack | fix.go:43 | one comma, with each side the `%f` text of its coordinate, reading back to within 5·10⁻⁷ |
| FixRecords.Len | fix.go:52-54 | the number of fixes |
| FixRecords.Less | fix.go:57-59 | never holds for i = j, and on a sorted slice holds only for i before j |
| FixRecords.LessIsStrictOrder | fix.go:57-59 | Less is irreflexive, asymmetric and transitive, and a slice is sorted exactly when no later fix is Less than an earlier one |
| FixRecords.Swap | fix.go:62-64 | exchanges positions i and j and nothing else; a permutation |
| FixRecords.Sort | flight.go:105 | afterwards ascending by time and a permutation of the input |
| FixRecords.TakeOffOf | fix.go:67-81 | the only failure is `InvalidFix` |
| FixRecords.TakeOffIsFirstSelected | fix.go:68-75 | the first fix not passed over, if 'A' with gnss > 0 or 'V', is the takeoff |
| FixRecords.TakeOffRejectsInvalid | fix.go:76-77 | a validity other than A/V met before a match is `InvalidFix` |
| FixRecords.TakeOffNoneSelected | fix.go:80 | when every fix is 'A' with gnss ≤ 0 (or there are none) the result is the zero Fix |
| FixRecords.TakeOffOutcome | fix.go:67-81 | a success is a selected element preceded only by passed-over fixes, or the zero Fix when all are passed over |
| FixRecords.TakeOff | fix.go:67-81 | the range loop with early returns computes TakeOffOf |
| FixRecords.Landing | fix.go:84-86 | an element of the non-empty slice (the last) |
| FixRecords.LandingIsLatest | fix.go:84-86 | on a sorted slice the landing fix is no earlier than any fix |
| Calendar.ParseDate | flight.go:71 | six characters DDMMYY, the year two digits or a sign and a digit; succeeds exactly when day and month are digits naming a real calendar day, with the 69 pivot for the year |
| Calendar.SignedYear | flight.go:71 | "0101+5" is 2005-01-01 and "0101-5" is 1995-01-01 |
| Calendar.ParseClock | fix.go:24 | six digits HHMMSS within the day, as seconds |
| Calendar.ParseTimestamp | fix.go:24 | succeeds exactly when the date token without its trailing spaces and the clock both parse, at that day and second; a valid token is read as it is |
| Calendar.SpacesAfterDate | fix.go:24 | a space appended to the date token changes nothing, since the layout's space matches a run of spaces |
| Calendar.SameDateSpan | fix.go:24 | two fixes under one date token are as far apart as their clock readings |
| Calendar.DayNumberNextDay | flight.go:71 | consecutive calendar days, across month and year ends, have consecutive day numbers |
| Calendar.Sub | flight.go:115 | (t − u) in nanoseconds, saturated at the int64 bounds |
| Calendar.SubSign | flight.go:115 | the duration has the sign of t − u |
| Text.Atoi | fix.go:28 | succeeds exactly on an optional sign followed by at least one digit, with the signed value ("-0012" is −12) |
| Text.ParseDecimal | igc.go:49 | "W.F" with an optional sign and digits on both sides (at least one in all) denotes ±(W + F/10^len(F)); nothing else parses |
| Text.FormatFixedReadsBack | fix.go:43 | the `%f` text of x reads back as x to within 5·10⁻⁷ |
| Text.SecondField | flight.go:78 | fails with `MissingSeparator` exactly when ": " does not occur; otherwise the text from just after the first occurrence up to the second occurrence, or to the end when there is none |
| Text.SecondFieldOfHeader | flight.go:78 | "prefix: text" without further ": " yields exactly the text |
| FlightLog.HRecord | flight.go:68-85 | DTE sets RawDate to line[5:11] and Date to its parse, or fails with `BadDate`; SIT sets Site to the second field; other headers change nothing; fixes never change |
| FlightLog.BRecord | flight.go:88-101 | appends exactly the fix decoded under the current RawDate, or fails with its error |
| FlightLog.ParseLines | flight.go:52-65 | no lines leave the flight as it was; a failing scan fails only with a date, separator, timestamp or coordinate error |
| FlightLog.ParseLinesAppend | flight.go:52-65 | scanning a concatenation is scanning the parts in order |
| FlightLog.IgnoredLine | flight.go:56-62 | a line starting with neither 'H' nor 'B' changes nothing, wherever it occurs |
| FlightLog.ParseLinesAppendsFixes | flight.go:100 | one fix per B record is appended and earlier fixes are kept |
| FlightLog.NoDateKeepsRawDate | flight.go:68-85 | only a DTE header changes RawDate |
| FlightLog.LeadingFixFails | flight.go:91-94 | a B record scanned with an empty RawDate fails with `BadTimestamp` |
| FlightLog.FixBeforeDateFails | flight.go:52-65 | a B record anywhere after no DTE header makes the scan fail, with `BadTimestamp` unless an earlier line already failed |
| FlightLog.FixUsesPrecedingDate | flight.go:70-76 | a fix after a DTE header is decoded under that header's token |
| FlightLog.SiteHeader | flight.go:77-84 | a SIT header sets Site to exactly its name |
| FlightLog.Summarize | flight.go:104-117 | the first failing step is the error: the takeoff scan (`InvalidFix`), the takeoff lookup when there is no Site, the empty slice (`NoFixes`), the landing lookup; success exactly when none fails |
| FlightLog.SummaryTimes | flight.go:106-115 | takeoff time from the scan, landing time of the last fix, duration their saturated difference |
| FlightLog.SummaryTakeOffSite | flight.go:108-111 | TakeOffSite is Site when non-empty, otherwise the takeoff lookup |
| FlightLog.SummaryLandingSite | flight.go:112-114 | LandingSite always comes from the landing lookup at the last fix |
| FlightLog.SummaryWithoutFixes | flight.go:112 | a flight without fixes fails; with a Site it fails with `NoFixes` |
| FlightLog.SummaryDurationNonNegative | flight.go:105-115 | on sorted fixes with a selected takeoff the duration is ≥ 0 |
| FlightLog.SummaryNothingSelected | fix.go:80 | with no selected fix the takeoff is the zero instant and the duration saturates |
| FlightLog.FixTimesAreLate | fix.go:24 | every decoded fix time is at least 10¹⁰ s after the zero instant (about the year 318), past the point where a duration from the zero instant saturates |
| FlightLog.Flight.constructor | flight.go:39-41 | the zero Flight with Filename set and no fixes |
| FlightLog.Flight.ParseHRecord | flight.go:68-85 | performs HRecord on the fields, copying the SIT text through a buffer; on failure nothing changes |
| FlightLog.Flight.ParseBRecord | flight.go:88-101 | performs BRecord on the fields; on failure nothing changes |
| FlightLog.Flight.Parse | flight.go:52-65 | the line loop leaves the fields the scan of all lines computes, or returns the first error |
| FlightLog.Flight.Evaluate | flight.go:104-117 | fixes sorted and a permutation; the summary fields are Summarize of the sorted fixes, or its error is returned |
| FlightLog.NewFlight | flight.go:34-49 | a fresh flight whose header fields are the scan's, whose fixes are those fixes sorted, and whose summary is theirs; scan errors are returned, and after a successful scan an error is Summarize's on the sorted fixes |
| FlightLog.Flights.constructor | flight.go:158-160 | an empty collection |
| FlightLog.Flights.Add | flight.go:163-166 | appends the flight and returns no error |
| FlightLog.Flights.Len | flight.go:169-171 | the number of flights |
| FlightLog.Flights.Less | flight.go:174-176 | never holds between two positions holding the same flight, nor for i = j |
| FlightLog.Flights.LessIsStrictOrder | flight.go:174-176 | the obligation `sort.Interface` puts on `Less`: takeoff-before is irreflexive, asymmetric and transitive |
| FlightLog.Flights.Swap | flight.go:179-181 | exchanges two positions, nothing else |
| Locator.ApplyOpt | locator.go:39-55 | a distance option succeeds exactly when d > 0 and then sets only d; a URL option always succeeds and sets only u |
| Locator.ApplyAll | locator.go:30-35 | no options keep the starting settings; a failure is `NonPositiveDistance`; the distance stays the starting one or becomes positive |
| Locator.ApplyAllSucceeds | locator.go:30-35 | New succeeds exactly when no distance option is ≤ 0 |
| Locator.FailureStopsApplying | locator.go:30-33 | after the first failing option nothing that follows changes the result |
| Locator.LastDistanceWins | locator.go:40-44 | the distance is that of the last distance option, or the starting value when there is none |
| Locator.LastUrlWins | locator.go:50-54 | the URL is that of the last URL option, or the starting value when there is none |
| Locator.Site.constructor | locator.go:27-29 | holds the reader, distance 0, zero URL |
| Locator.Site.Apply | locator.go:39-55 | performs the option on the Site; a rejected distance leaves the Site unchanged |
| Locator.New | locator.go:26-36 | the first failing option's error, or a fresh Site holding the reader with the options applied in order |

## Left out

- HTTP, body reading, JSON decoding and the 75 ms pause in `LookupPlaceWithGoogleMaps` (igc.go:123-138): network I/O and timing. The geocoder is a function parameter returning the decoded reply or nothing.
- `Finder.Find`: an interface call into client code, modelled as a pure function of the coordinates.
- `Site.Lookup` (locator.go:58-72): it does not type-check (a string in the error slot). `Site.lookupGoogleMaps` (locator.go:75-102): network I/O. So nothing reads a Site's `d` and `u`.
- `NewFlight`'s `os.Open` and the `bufio.Scanner` mechanics (flight.go:35-38, flight.go:53-55): file I/O. The lines are given as a sequence. The scanner's silent stop on an overlong line is not modelled.
- CSV and XLSX export (flight.go:120-152, flight.go:184-226): formatting through foreign libraries.
- External assignment to the package variable `MaxDistance`: the field exists on `Sources`, and nothing in the core assigns it.
- igc_test.go: it has no assertions and reads a file from disk.
- Igc.ParseLatitude: minutes are exact reals. The float32 rounding of `ParseFloat(..., 32)` and the float64 arithmetic are not modelled. The same holds for Igc.ParseLongitude's float64.
- Text.ParseDecimal: exponents, hexadecimal, "inf"/"nan" and underscore forms of `ParseFloat` are not modelled. Coordinate fields never hold them as decimals, so such a field reads as malformed.
- Text.Atoi: only inputs shorter than 19 characters (the fields are 2–5 characters), so its 64-bit range error never arises.
- Text.FormatFixed: prints the exact real to six decimals, rounding half to even. It does not model float64's binary rounding.
- FixRecords.Sort: proved to sort and permute. The order the library leaves fixes with equal times in is not modelled, because `sort.Sort` is not stable. Which of two simultaneous fixes the takeoff scan meets first is therefore not determined by the model.
- FlightLog.Flight.Parse: after a failing line the fields left behind are not stated, because the source ends the process there (`log.Fatal`).
- FlightLog.Flight.Evaluate: the same holds after a failing step.
- Byte offsets: Go slices lines by byte (fix.go:23-35, flight.go:56, flight.go:69-99), while every offset in the model counts characters. The two agree on ASCII lines, which IGC logs are; on a line with multi-byte characters the model reads other fields than the source, and the SIT copy loop's byte-against-rune behaviour is not reproduced (characters are copied one for one).
- `time.Time` locations, monotonic readings and sub-second parts: IGC timestamps are whole UTC seconds.
