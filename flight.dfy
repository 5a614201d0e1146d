/** flight.go: decoding an IGC log line by line into a `Flight` and
    evaluating its takeoff, landing, sites and duration; and the `Flights`
    collection. */
module FlightLog {
  import opened Errors
  import opened Text
  import opened Calendar
  import opened Igc
  import opened FixRecords

  /** What the line scan accumulates: the DTE token and instant, the SIT
      name and the fixes in file order. */
  datatype Log = Log(rawDate: string, date: int, site: string, fixes: seq<Fix>)

  /** The state of a fresh `&Flight{}` with `Fixes = FixSlice{}`. */
  const EmptyLog := Log("", 0, "", [])

  /** A line the scan can index without a runtime panic: it is non-empty
      (`line[0]`), an H record reaches its record type (`line[2:5]`) and,
      for DTE, its date (`line[5:11]`), and a B record reaches its last
      field (`line[30:35]`). */
  predicate Sliceable(line: string) {
    && |line| > 0
    && (line[0] == 'H' ==> |line| >= 5 && (line[2..5] == "DTE" ==> |line| >= 11))
    && (line[0] == 'B' ==> |line| >= RecordLength)
  }

  /** `parseHrecord`: DTE sets the date from DDMMYY, SIT sets the site to
      the text after the first ": ", and every other header is ignored. */
  function HRecord(log: Log, line: string): (r: Result<Log>)
    requires |line| >= 5 && (line[2..5] == "DTE" ==> |line| >= 11)
    ensures r.Ok? ==> r.value.fixes == log.fixes
    ensures line[2..5] != "DTE" && line[2..5] != "SIT" ==> r == Ok(log)
    ensures line[2..5] == "DTE" ==> (r.Ok? <==> ParseDate(line[5..11]).Some?)
    ensures line[2..5] == "DTE" && r.Ok? ==>
      r.value == log.(rawDate := line[5..11], date := Instant(ParseDate(line[5..11]).value, 0))
    ensures line[2..5] == "DTE" && r.Err? ==> r.error == BadDate
    ensures line[2..5] == "SIT" ==> (r.Ok? <==> SecondField(line, ": ").Ok?)
    ensures line[2..5] == "SIT" && r.Ok? ==> r.value == log.(site := SecondField(line, ": ").value)
  {
    if line[2..5] == "DTE" then
      match ParseDate(line[5..11])
      case None => Err(BadDate)
      case Some(d) => Ok(log.(date := Instant(d, 0), rawDate := line[5..11]))
    else if line[2..5] == "SIT" then
      var sit :- SecondField(line, ": ");
      Ok(log.(site := sit))
    else
      Ok(log)
  }

  /** `parseBrecord`: the fix decoded under the current DTE token, appended. */
  function BRecord(log: Log, line: string): (r: Result<Log>)
    requires |line| >= RecordLength
    ensures r.Ok? <==> NewFix(log.rawDate, line).Ok?
    ensures r.Ok? ==> r.value == log.(fixes := log.fixes + [NewFix(log.rawDate, line).value])
    ensures r.Err? ==> r.error == NewFix(log.rawDate, line).error
  {
    var fix :- NewFix(log.rawDate, line);
    Ok(log.(fixes := log.fixes + [fix]))
  }

  /** One iteration of the scan in `parse`, dispatching on `line[0]`. */
  function Step(log: Log, line: string): Result<Log>
    requires Sliceable(line)
  {
    if line[0] == 'H' then HRecord(log, line)
    else if line[0] == 'B' then BRecord(log, line)
    else Ok(log)
  }

  /** `parse`: the lines in order, stopping at the first failing one. */
  function ParseLines(log: Log, lines: seq<string>): (r: Result<Log>)
    requires forall i :: 0 <= i < |lines| ==> Sliceable(lines[i])
    ensures lines == [] ==> r == Ok(log)
    ensures r.Err? ==> r.error in {BadDate, MissingSeparator, BadTimestamp, MalformedNumber, WrongSuffix}
    decreases |lines|
  {
    if lines == [] then Ok(log)
    else
      var next :- Step(log, lines[0]);
      ParseLines(next, lines[1..])
  }

  /** Parsing a concatenation is parsing the first part and then the
      second from where the first left off. */
  lemma {:induction false} ParseLinesAppend(log: Log, a: seq<string>, b: seq<string>)
    requires forall i :: 0 <= i < |a| ==> Sliceable(a[i])
    requires forall i :: 0 <= i < |b| ==> Sliceable(b[i])
    ensures forall i :: 0 <= i < |a + b| ==> Sliceable((a + b)[i])
    ensures ParseLines(log, a + b) ==
      match ParseLines(log, a)
      case Ok(mid) => ParseLines(mid, b)
      case Err(e) => Err(e)
    decreases |a|
  {
    assert forall i :: 0 <= i < |a + b| ==> Sliceable((a + b)[i]) by {
      forall i | 0 <= i < |a + b| ensures Sliceable((a + b)[i]) {
        if i < |a| { assert (a + b)[i] == a[i]; } else { assert (a + b)[i] == b[i - |a|]; }
      }
    }
    if a == [] {
      assert a + b == b;
    } else {
      assert (a + b)[0] == a[0];
      assert (a + b)[1..] == a[1..] + b;
      match Step(log, a[0])
      case Err(_) =>
      case Ok(next) =>
        ParseLinesAppend(next, a[1..], b);
    }
  }

  /** Lines whose first character is neither 'H' nor 'B' are ignored,
      wherever they occur. */
  lemma IgnoredLine(log: Log, a: seq<string>, x: string, b: seq<string>)
    requires forall i :: 0 <= i < |a| ==> Sliceable(a[i])
    requires forall i :: 0 <= i < |b| ==> Sliceable(b[i])
    requires |x| > 0 && x[0] != 'H' && x[0] != 'B'
    ensures forall i :: 0 <= i < |a + [x] + b| ==> Sliceable((a + [x] + b)[i])
    ensures forall i :: 0 <= i < |a + b| ==> Sliceable((a + b)[i])
    ensures ParseLines(log, a + [x] + b) == ParseLines(log, a + b)
  {
    ParseLinesAppend(log, a, [x] + b);
    ParseLinesAppend(log, a, b);
    assert a + [x] + b == a + ([x] + b);
    assert ([x] + b)[0] == x && ([x] + b)[1..] == b;
  }

  /** The number of B records among the lines. */
  function CountB(lines: seq<string>): nat {
    if lines == [] then 0
    else (if |lines[0]| > 0 && lines[0][0] == 'B' then 1 else 0) + CountB(lines[1..])
  }

  /** A successful scan keeps the fixes it started with and appends exactly
      one fix per B record; it never drops or reorders them. */
  lemma {:induction false} ParseLinesAppendsFixes(log: Log, lines: seq<string>)
    requires forall i :: 0 <= i < |lines| ==> Sliceable(lines[i])
    requires ParseLines(log, lines).Ok?
    ensures var r := ParseLines(log, lines).value;
      |r.fixes| == |log.fixes| + CountB(lines) && r.fixes[..|log.fixes|] == log.fixes
    decreases |lines|
  {
    if lines != [] {
      var next := Step(log, lines[0]).value;
      ParseLinesAppendsFixes(next, lines[1..]);
      var r := ParseLines(log, lines).value;
      assert r.fixes[..|next.fixes|] == next.fixes;
      assert next.fixes[..|log.fixes|] == log.fixes;
      assert r.fixes[..|log.fixes|] == r.fixes[..|next.fixes|][..|log.fixes|];
    }
  }

  /** A DTE header line. */
  predicate IsDateHeader(line: string) {
    |line| >= 5 && line[0] == 'H' && line[2..5] == "DTE"
  }

  /** Without a DTE header the scan keeps the date token it started with. */
  lemma {:induction false} NoDateKeepsRawDate(log: Log, lines: seq<string>)
    requires forall i :: 0 <= i < |lines| ==> Sliceable(lines[i])
    requires forall i :: 0 <= i < |lines| ==> !IsDateHeader(lines[i])
    requires ParseLines(log, lines).Ok?
    ensures ParseLines(log, lines).value.rawDate == log.rawDate
    decreases |lines|
  {
    if lines != [] {
      var next := Step(log, lines[0]).value;
      assert next.rawDate == log.rawDate by {
        assert !IsDateHeader(lines[0]);
      }
      assert forall i :: 0 <= i < |lines[1..]| ==> lines[1..][i] == lines[i + 1];
      NoDateKeepsRawDate(next, lines[1..]);
    }
  }

  /** A B record first in the scan, with no date token, fails: the
      timestamp layout needs the six date digits. */
  lemma LeadingFixFails(log: Log, lines: seq<string>)
    requires forall i :: 0 <= i < |lines| ==> Sliceable(lines[i])
    requires log.rawDate == "" && lines != [] && |lines[0]| > 0 && lines[0][0] == 'B'
    ensures ParseLines(log, lines) == Err(BadTimestamp)
  {
    assert ParseDate("").None?;
  }

  /** A B record before any DTE header fails: wherever it stands, the
      scan either failed earlier or fails there with `BadTimestamp`. */
  lemma FixBeforeDateFails(log: Log, lines: seq<string>, k: nat)
    requires forall i :: 0 <= i < |lines| ==> Sliceable(lines[i])
    requires log.rawDate == "" && k < |lines| && |lines[k]| > 0 && lines[k][0] == 'B'
    requires forall i :: 0 <= i < k ==> !IsDateHeader(lines[i])
    ensures ParseLines(log, lines).Err?
    ensures ParseLines(log, lines[..k]).Ok? ==> ParseLines(log, lines) == Err(BadTimestamp)
  {
    var a, b := lines[..k], lines[k..];
    assert lines == a + b;
    assert forall i :: 0 <= i < |b| ==> b[i] == lines[k + i];
    ParseLinesAppend(log, a, b);
    if ParseLines(log, a).Ok? {
      NoDateKeepsRawDate(log, a);
      LeadingFixFails(ParseLines(log, a).value, b);
    }
  }

  /** A DTE header followed by a B record: the fix is decoded under that
      header's date token, and the date is the header's day. */
  lemma FixUsesPrecedingDate(log: Log, dte: string, b: string)
    requires |dte| >= 11 && dte[0] == 'H' && dte[2..5] == "DTE" && ParseDate(dte[5..11]).Some?
    requires |b| >= RecordLength && b[0] == 'B' && NewFix(dte[5..11], b).Ok?
    ensures Sliceable(dte) && Sliceable(b)
    ensures ParseLines(log, [dte, b]) == Ok(Log(dte[5..11], Instant(ParseDate(dte[5..11]).value, 0), log.site,
      log.fixes + [NewFix(dte[5..11], b).value]))
  {
    var mid := log.(rawDate := dte[5..11], date := Instant(ParseDate(dte[5..11]).value, 0));
    assert Step(log, dte) == Ok(mid);
    assert [dte, b][1..] == [b];
    assert ParseLines(log, [dte, b]) == ParseLines(mid, [b]);
    var last := BRecord(mid, b).value;
    assert Step(mid, b) == Ok(last);
    assert [b][1..] == [];
    assert ParseLines(mid, [b]) == ParseLines(last, []);
  }

  /** A SIT header "<prefix>: <name>" sets the site to exactly the name
      when neither part contains ": ". */
  lemma SiteHeader(log: Log, prefix: string, name: string)
    requires |prefix| >= 5 && prefix[0] == 'H' && prefix[2..5] == "SIT"
    requires forall j :: 0 <= j ==> !OccursAt(prefix, ": ", j)
    requires forall j :: 0 <= j ==> !OccursAt(name, ": ", j)
    ensures Sliceable(prefix + ": " + name)
    ensures ParseLines(log, [prefix + ": " + name]) == Ok(log.(site := name))
  {
    var line := prefix + ": " + name;
    assert line[0] == 'H' && line[2..5] == prefix[2..5];
    SecondFieldOfHeader(prefix, name);
    assert [line][1..] == [];
  }

  /** What `evaluate` fills in. */
  datatype Summary = Summary(takeOff: int, takeOffSite: string, landing: int, landingSite: string, duration: int)

  /** `evaluate` after the sort, in the source's order: the takeoff scan,
      the takeoff site (the SIT name if there is one, else a lookup), the
      landing fix (an index panic on an empty slice), the landing site and
      the duration. */
  function Summarize(fixes: seq<Fix>, site: string, sources: Sources, geocoder: Geocoder): (r: Result<Summary>)
    reads sources
    ensures r.Ok? ==> |fixes| > 0 && TakeOffOf(fixes).Ok?
    ensures TakeOffOf(fixes).Err? ==> r == Err(InvalidFix)
    ensures TakeOffOf(fixes).Ok? ==>
      var t := TakeOffOf(fixes).value;
      var up := sources.LookupTakeOffSite(t.latitude, t.longitude, geocoder);
      && (site == "" && up.Err? ==> r == Err(up.error))
      && ((site != "" || up.Ok?) && |fixes| == 0 ==> r == Err(NoFixes))
      && ((site != "" || up.Ok?) && |fixes| > 0 ==>
            var l := fixes[|fixes| - 1];
            var down := sources.LookupLandingSite(l.latitude, l.longitude, geocoder);
            (down.Err? ==> r == Err(down.error)) && (down.Ok? ==> r.Ok?))
  {
    var takeOff :- TakeOffOf(fixes);
    var takeOffSite :- if |site| > 0 then Ok(site)
                       else sources.LookupTakeOffSite(takeOff.latitude, takeOff.longitude, geocoder);
    if |fixes| == 0 then Err(NoFixes)
    else
      var landing := Landing(fixes);
      var landingSite :- sources.LookupLandingSite(landing.latitude, landing.longitude, geocoder);
      Ok(Summary(takeOff.time, takeOffSite, landing.time, landingSite, Sub(landing.time, takeOff.time)))
  }

  /** The times and the duration of a summary: the takeoff is the fix the
      scan selects, the landing the last fix, and the duration the
      saturated difference. */
  lemma SummaryTimes(fixes: seq<Fix>, site: string, sources: Sources, geocoder: Geocoder)
    requires Summarize(fixes, site, sources, geocoder).Ok?
    ensures var s := Summarize(fixes, site, sources, geocoder).value;
      s.takeOff == TakeOffOf(fixes).value.time && s.landing == fixes[|fixes| - 1].time &&
      s.duration == Sub(s.landing, s.takeOff)
  {
  }

  /** A SIT header's name is the takeoff site whatever the finders or the
      geocoder would say; without one, the takeoff site is the lookup's. */
  lemma SummaryTakeOffSite(fixes: seq<Fix>, site: string, sources: Sources, geocoder: Geocoder)
    requires Summarize(fixes, site, sources, geocoder).Ok?
    ensures var s := Summarize(fixes, site, sources, geocoder).value;
      var t := TakeOffOf(fixes).value;
      (site != "" ==> s.takeOffSite == site) &&
      (site == "" ==> sources.LookupTakeOffSite(t.latitude, t.longitude, geocoder) == Ok(s.takeOffSite))
  {
  }

  /** The landing site is always looked up, at the last fix. */
  lemma SummaryLandingSite(fixes: seq<Fix>, site: string, sources: Sources, geocoder: Geocoder)
    requires Summarize(fixes, site, sources, geocoder).Ok?
    ensures var s := Summarize(fixes, site, sources, geocoder).value;
      var l := fixes[|fixes| - 1];
      sources.LookupLandingSite(l.latitude, l.longitude, geocoder) == Ok(s.landingSite)
  {
  }

  /** A flight without fixes always fails; with a SIT name the failure is
      the empty-slice landing. */
  lemma SummaryWithoutFixes(site: string, sources: Sources, geocoder: Geocoder)
    ensures Summarize([], site, sources, geocoder).Err?
    ensures site != "" ==> Summarize([], site, sources, geocoder) == Err(NoFixes)
  {
  }

  /** On sorted fixes where the scan selects a real fix, the duration is
      not negative. */
  lemma {:induction false} SummaryDurationNonNegative(fixes: seq<Fix>, site: string, sources: Sources, geocoder: Geocoder)
    requires SortedByTime(fixes)
    requires Summarize(fixes, site, sources, geocoder).Ok?
    requires exists k :: 0 <= k < |fixes| && Selects(fixes[k])
    ensures Summarize(fixes, site, sources, geocoder).value.duration >= 0
  {
    TakeOffOutcome(fixes);
    var t := TakeOffOf(fixes).value;
    var k :| 0 <= k < |fixes| && fixes[k] == t;
    LandingIsLatest(fixes);
    SubSign(fixes[|fixes| - 1].time, t.time);
  }

  /** When every fix is passed over, the takeoff is the zero instant and
      the duration of any flight dated after the year 292 saturates at
      the largest `time.Duration`. */
  lemma SummaryNothingSelected(fixes: seq<Fix>, site: string, sources: Sources, geocoder: Geocoder)
    requires forall j :: 0 <= j < |fixes| ==> Skipped(fixes[j])
    requires Summarize(fixes, site, sources, geocoder).Ok?
    requires fixes[|fixes| - 1].time >= 10_000_000_000
    ensures Summarize(fixes, site, sources, geocoder).value.takeOff == 0
    ensures Summarize(fixes, site, sources, geocoder).value.duration == MaxDuration
  {
    TakeOffNoneSelected(fixes);
  }

  /** Every instant a B record decodes to lies after 1968: far enough
      from the zero instant for the saturation above. */
  lemma FixTimesAreLate(date: string, line: string)
    requires |line| >= RecordLength && NewFix(date, line).Ok?
    ensures NewFix(date, line).value.time >= 10_000_000_000
  {
    var d := ParseDate(TrimTrailingSpaces(date)).value;
    DayNumberAfter1968(d);
  }

  lemma DayNumberAfter1968(d: Date)
    requires ValidDate(d) && 1969 <= d.year
    ensures DayNumber(d) >= 718014
  {
    var y := if d.month <= 2 then d.year - 1 else d.year;
    var era := y / 400;
    var yoe := y - era * 400;
    assert y == era * 400 + yoe && 0 <= yoe < 400;
    assert era * 146097 + yoe * 365 >= 365 * y;
  }

  /** `*Flight`. Dates and times are instants in seconds (see Calendar),
      the duration is in nanoseconds. */
  class Flight {
    var rawDate: string
    var date: int
    var takeOff: int
    var site: string
    var takeOffSite: string
    var landing: int
    var landingSite: string
    var duration: int
    var fixes: seq<Fix>
    var filename: string
    var comment: string

    /** `&Flight{}` with `Filename = path` and `Fixes = FixSlice{}`. */
    constructor (path: string)
      ensures Current() == EmptyLog && Evaluated() == Summary(0, "", 0, "", 0)
      ensures filename == path && comment == ""
    {
      rawDate, date, site, fixes := "", 0, "", [];
      takeOff, takeOffSite, landing, landingSite, duration := 0, "", 0, "", 0;
      filename, comment := path, "";
    }

    /** The fields the line scan writes. */
    function Current(): Log
      reads this
    {
      Log(rawDate, date, site, fixes)
    }

    /** The fields `evaluate` writes. */
    function Evaluated(): Summary
      reads this
    {
      Summary(takeOff, takeOffSite, landing, landingSite, duration)
    }

    /** `parseHrecord(line)`. The SIT name is copied one character at a
        time into a fresh buffer, as the source does. On a failure nothing
        is written. */
    method ParseHRecord(line: string) returns (o: Outcome)
      requires |line| >= 5 && (line[2..5] == "DTE" ==> |line| >= 11)
      modifies this`rawDate, this`date, this`site
      ensures HRecord(old(Current()), line).Ok? ==> o == Pass && Current() == HRecord(old(Current()), line).value
      ensures HRecord(old(Current()), line).Err? ==>
        o == Fail(HRecord(old(Current()), line).error) && Current() == old(Current())
    {
      if line[2..5] == "DTE" {
        var d := ParseDate(line[5..11]);
        if d.None? {
          return Fail(BadDate);
        }
        date := Instant(d.value, 0);
        rawDate := line[5..11];
        assert Current() == HRecord(old(Current()), line).value;
      } else if line[2..5] == "SIT" {
        var split := SecondField(line, ": ");
        if split.Err? {
          return Fail(split.error);
        }
        var sit := split.value;
        var buf := new char[|sit|];
        var i := 0;
        while i < |sit|
          modifies buf
          invariant 0 <= i <= |sit|
          invariant buf[..i] == sit[..i]
        {
          buf[i] := sit[i];
          i := i + 1;
        }
        assert buf[..] == sit;
        site := buf[..];
        assert Current() == HRecord(old(Current()), line).value;
      }
      return Pass;
    }

    /** `parseBrecord(line)`: appends the decoded fix. */
    method ParseBRecord(line: string) returns (o: Outcome)
      requires |line| >= RecordLength
      modifies this`fixes
      ensures BRecord(old(Current()), line).Ok? ==> o == Pass && Current() == BRecord(old(Current()), line).value
      ensures BRecord(old(Current()), line).Err? ==>
        o == Fail(BRecord(old(Current()), line).error) && Current() == old(Current())
    {
      var p := NewFix(rawDate, line);
      if p.Err? {
        return Fail(p.error);
      }
      fixes := fixes + [p.value];
      return Pass;
    }

    /** `parse(r)`, with the scanner's lines given in order. The source
        stops the process at a failing line; here the scan returns its
        error. */
    method Parse(lines: seq<string>) returns (o: Outcome)
      requires forall i :: 0 <= i < |lines| ==> Sliceable(lines[i])
      modifies this`rawDate, this`date, this`site, this`fixes
      ensures ParseLines(old(Current()), lines).Ok? ==> o == Pass && Current() == ParseLines(old(Current()), lines).value
      ensures ParseLines(old(Current()), lines).Err? ==> o == Fail(ParseLines(old(Current()), lines).error)
    {
      var i := 0;
      while i < |lines|
        invariant 0 <= i <= |lines|
        invariant ParseLines(old(Current()), lines) == ParseLines(Current(), lines[i..])
      {
        var line := lines[i];
        assert lines[i..][0] == line && lines[i..][1..] == lines[i + 1..];
        if line[0] == 'H' {
          var r := ParseHRecord(line);
          if r.Fail? {
            return r;
          }
        } else if line[0] == 'B' {
          var r := ParseBRecord(line);
          if r.Fail? {
            return r;
          }
        }
        i := i + 1;
      }
      return Pass;
    }

    /** `evaluate()`: sorts the fixes by time, then fills in the summary.
        A failing step ends the evaluation with its error. */
    method Evaluate(sources: Sources, geocoder: Geocoder) returns (o: Outcome)
      modifies this`fixes, this`takeOff, this`takeOffSite, this`landing, this`landingSite, this`duration
      ensures SortedByTime(fixes) && multiset(fixes) == multiset(old(fixes))
      ensures Summarize(fixes, site, sources, geocoder).Ok? ==>
        o == Pass && Evaluated() == Summarize(fixes, site, sources, geocoder).value
      ensures Summarize(fixes, site, sources, geocoder).Err? ==>
        o == Fail(Summarize(fixes, site, sources, geocoder).error)
    {
      var a := new Fix[|fixes|];
      forall i | 0 <= i < |fixes| {
        a[i] := fixes[i];
      }
      assert a[..] == fixes;
      Sort(a);
      fixes := a[..];
      var t := TakeOff(fixes);
      if t.Err? {
        return Fail(t.error);
      }
      var takeOffFix := t.value;
      takeOff := takeOffFix.time;
      takeOffSite := site;
      if |takeOffSite| == 0 {
        var found := sources.LookupTakeOffSite(takeOffFix.latitude, takeOffFix.longitude, geocoder);
        if found.Err? {
          return Fail(found.error);
        }
        takeOffSite := found.value;
      }
      if |fixes| == 0 {
        return Fail(NoFixes);
      }
      var landingFix := Landing(fixes);
      landing := landingFix.time;
      var found := sources.LookupLandingSite(landingFix.latitude, landingFix.longitude, geocoder);
      if found.Err? {
        return Fail(found.error);
      }
      landingSite := found.value;
      duration := Sub(landing, takeOff);
      return Pass;
    }
  }

  /** What a decoded flight holds: the header fields of the scan, its fixes
      sorted by time, and the summary of those fixes. */
  predicate Decoded(f: Flight, log: Log, sources: Sources, geocoder: Geocoder)
    reads f, sources
  {
    && f.Current() == log.(fixes := f.fixes)
    && SortedByTime(f.fixes) && multiset(f.fixes) == multiset(log.fixes)
    && Summarize(f.fixes, f.site, sources, geocoder) == Ok(f.Evaluated())
  }

  /** `NewFlight(path)`, with the file's lines given; opening the file is
      outside the model. */
  method NewFlight(path: string, lines: seq<string>, sources: Sources, geocoder: Geocoder) returns (r: Result<Flight>)
    requires forall i :: 0 <= i < |lines| ==> Sliceable(lines[i])
    ensures ParseLines(EmptyLog, lines).Err? ==> r == Err(ParseLines(EmptyLog, lines).error)
    ensures r.Ok? ==> fresh(r.value) && r.value.filename == path && r.value.comment == ""
    ensures r.Ok? ==> ParseLines(EmptyLog, lines).Ok? && Decoded(r.value, ParseLines(EmptyLog, lines).value, sources, geocoder)
    ensures ParseLines(EmptyLog, lines).Ok? && r.Err? ==>
      var log := ParseLines(EmptyLog, lines).value;
      exists fs :: SortedByTime(fs) && multiset(fs) == multiset(log.fixes) &&
        Summarize(fs, log.site, sources, geocoder) == Err(r.error)
  {
    var flight := new Flight(path);
    var p := flight.Parse(lines);
    if p.Fail? {
      return Err(p.error);
    }
    var e := flight.Evaluate(sources, geocoder);
    if e.Fail? {
      assert flight.site == ParseLines(EmptyLog, lines).value.site;
      return Err(e.error);
    }
    return Ok(flight);
  }

  /** `Flights`: the flights added so far, in order. */
  class Flights {
    var items: seq<Flight>

    /** `NewFlights()`. */
    constructor ()
      ensures items == []
    {
      items := [];
    }

    /** `Add(flight)`: appends; never fails. */
    method Add(flight: Flight) returns (o: Outcome)
      modifies this`items
      ensures items == old(items) + [flight] && o == Pass
    {
      items := items + [flight];
      return Pass;
    }

    /** `Len()`. */
    function Len(): (n: nat)
      reads this
      ensures n == |items|
    {
      |items|
    }

    /** `Less(i, j)`: flight i takes off strictly before flight j. */
    predicate Less(i: nat, j: nat): (b: bool)
      requires i < |items| && j < |items|
      reads this, items
      ensures b ==> i != j && items[i] != items[j]
    {
      items[i].takeOff < items[j].takeOff
    }

    /** Less is a strict order on the flights. */
    lemma LessIsStrictOrder()
      ensures forall i :: 0 <= i < |items| ==> !Less(i, i)
      ensures forall i, j :: 0 <= i < |items| && 0 <= j < |items| && Less(i, j) ==> !Less(j, i)
      ensures forall i, j, k :: 0 <= i < |items| && 0 <= j < |items| && 0 <= k < |items| && Less(i, j) && Less(j, k) ==> Less(i, k)
    {
    }

    /** `Swap(i, j)`. */
    method Swap(i: nat, j: nat)
      requires i < |items| && j < |items|
      modifies this`items
      ensures items == old(items)[i := old(items[j])][j := old(items[i])]
      ensures multiset(items) == multiset(old(items))
    {
      items := items[i := items[j]][j := items[i]];
    }
  }
}
