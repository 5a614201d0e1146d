/** fix.go: one B record (a position fix), its decoder, and the operations
    on a slice of fixes (ordering, takeoff and landing selection).

    B-record layout, by character offset:
      [0] 'B'   [1,7) HHMMSS   [7,15) latitude   [15,24) longitude
      [24] validity   [25,30) pressure altitude   [30,35) GNSS altitude */
module FixRecords {
  import opened Errors
  import opened Text
  import opened Calendar
  import opened Igc

  /** `Fix`: the instant (seconds since 0001-01-01), the coordinates in
      degrees, the validity letter and the two altitudes. */
  datatype Fix = Fix(time: int, latitude: real, longitude: real, validity: char, pressure: int, gnss: int)

  /** `Fix{}`, Go's zero value: the zero instant, (0, 0), validity rune 0. */
  const ZeroFix := Fix(0, 0.0, 0.0, 0 as char, 0, 0)

  /** The minimum length of a B record: every field is sliced at a fixed
      offset, and a shorter line makes the source panic. */
  const RecordLength := 35

  /** `n, _ := strconv.Atoi(s)`: the error is dropped and n is 0. */
  function AtoiOrZero(s: string): (n: int)
    requires |s| < 19
    ensures Atoi(s).Some? ==> n == Atoi(s).value
    ensures Atoi(s).None? ==> n == 0
  {
    match Atoi(s)
    case Some(v) => v
    case None => 0
  }

  /** `NewFix(date, line)`. The timestamp is decoded first, then latitude,
      then longitude; the validity letter is taken as it is and malformed
      altitudes read as 0, so those three never fail. */
  function NewFix(date: string, line: string): (r: Result<Fix>)
    requires |line| >= RecordLength
    ensures r.Ok? <==> ParseTimestamp(date, line[1..7]).Ok? && ParseLatitude(line[7..15]).Ok? && ParseLongitude(line[15..24]).Ok?
    ensures ParseTimestamp(date, line[1..7]).Err? ==> r == Err(BadTimestamp)
    ensures r.Ok? ==> r.value.time == ParseTimestamp(date, line[1..7]).value
    ensures r.Ok? ==> r.value.latitude == ParseLatitude(line[7..15]).value && r.value.longitude == ParseLongitude(line[15..24]).value
    ensures r.Ok? ==> r.value.validity == line[24]
    ensures r.Ok? ==> r.value.pressure == AtoiOrZero(line[25..30]) && r.value.gnss == AtoiOrZero(line[30..35])
  {
    var t :- ParseTimestamp(date, line[1..7]);
    var p := AtoiOrZero(line[25..30]);
    var g := AtoiOrZero(line[30..35]);
    var lat :- ParseLatitude(line[7..15]);
    var lon :- ParseLongitude(line[15..24]);
    Ok(Fix(t, lat, lon, line[24], p, g))
  }

  /** A pressure altitude below the reference level, "-dddd", reads as
      its negative, as `strconv.Atoi` gives it. */
  lemma NegativeAltitude(n: nat)
    requires n < 10000
    ensures AtoiOrZero("-" + Pad(n, 4)) == -(n as int)
  {
    Pow10Values();
    var t := "-" + Pad(n, 4);
    assert t[0] == '-' && t[1..] == Pad(n, 4) && |t| == 5;
    assert Atoi(t) == Some(-(DigitsValue(Pad(n, 4)) as int));
  }

  /** The text of one coordinate field. */
  datatype CoordText = CoordText(deg: nat, minutes: nat, thousandths: nat, hemisphere: char)

  /** The fields of one B record, as written by a recorder. */
  datatype RecordText = RecordText(clock: nat, lat: CoordText, lon: CoordText, validity: char, pressure: nat, gnss: nat)

  predicate ValidLatitude(c: CoordText) {
    c.deg < 100 && c.minutes < 100 && c.thousandths < 1000 && (c.hemisphere == 'N' || c.hemisphere == 'S')
  }

  predicate ValidLongitude(c: CoordText) {
    c.deg < 1000 && c.minutes < 100 && c.thousandths < 1000 && (c.hemisphere == 'E' || c.hemisphere == 'W')
  }

  predicate WellFormedRecord(t: RecordText) {
    t.clock < 86400 && ValidLatitude(t.lat) && ValidLongitude(t.lon) && t.pressure < 100000 && t.gnss < 100000
  }

  /** HHMMSS of a second of the day. */
  function ClockText(s: nat): (c: string)
    requires s < 86400
    ensures |c| == 6 && ParseClock(c) == Some(s)
  {
    Pow10Values();
    var c := Pad(s / 3600, 2) + Pad(s / 60 % 60, 2) + Pad(s % 60, 2);
    assert c[0..2] == Pad(s / 3600, 2) && c[2..4] == Pad(s / 60 % 60, 2) && c[4..6] == Pad(s % 60, 2);
    c
  }

  function LatitudeText(c: CoordText): (l: string)
    requires ValidLatitude(c)
    ensures |l| == 8
  {
    EncodeLatitude(c.deg, c.minutes, c.thousandths, c.hemisphere)
  }

  function LongitudeText(c: CoordText): (l: string)
    requires ValidLongitude(c)
    ensures |l| == 9
  {
    EncodeLongitude(c.deg, c.minutes, c.thousandths, c.hemisphere)
  }

  /** Five digits of an altitude. */
  function AltitudeText(n: nat): (a: string)
    requires n < 100000
    ensures |a| == 5
  {
    Pow10Values();
    Pad(n, 5)
  }

  /** The 35-character B record a recorder writes for the given fields. */
  function EncodeRecord(t: RecordText): (line: string)
    requires WellFormedRecord(t)
    ensures |line| == RecordLength && line[0] == 'B'
  {
    "B" + ClockText(t.clock) + LatitudeText(t.lat) + LongitudeText(t.lon)
      + [t.validity] + AltitudeText(t.pressure) + AltitudeText(t.gnss)
  }

  /** The decoded value of a coordinate field, as the source computes it. */
  function CoordValue(c: CoordText, positive: char): real {
    AsWritten(c.deg, c.minutes as real + c.thousandths as real / 1000.0, c.hemisphere == positive)
  }

  /** Decoding reads every field back from its offset: a recorder's B record
      under a valid date token decodes to exactly the fields it was
      written from. */
  lemma RecordRoundTrip(date: string, t: RecordText)
    requires ParseDate(date).Some? && WellFormedRecord(t)
    ensures NewFix(date, EncodeRecord(t)) == Ok(Fix(
      Instant(ParseDate(date).value, t.clock), CoordValue(t.lat, 'N'), CoordValue(t.lon, 'E'),
      t.validity, t.pressure, t.gnss))
  {
    var clock, lat, lon := ClockText(t.clock), LatitudeText(t.lat), LongitudeText(t.lon);
    var p, g := AltitudeText(t.pressure), AltitudeText(t.gnss);
    TimestampOfClock(date, t.clock);
    LatitudeTextReadsBack(t.lat);
    LongitudeTextReadsBack(t.lon);
    AltitudeReadsBack(t.pressure);
    AltitudeReadsBack(t.gnss);
    NewFixOfParts(date, clock, lat, lon, t.validity, p, g,
      Instant(ParseDate(date).value, t.clock), CoordValue(t.lat, 'N'), CoordValue(t.lon, 'E'), t.pressure, t.gnss);
  }

  lemma LatitudeTextReadsBack(c: CoordText)
    requires ValidLatitude(c)
    ensures ParseLatitude(LatitudeText(c)) == Ok(CoordValue(c, 'N'))
  {
    var l := EncodeLatitude(c.deg, c.minutes, c.thousandths, c.hemisphere);
    assert LatitudeText(c) == l;
    LatitudeRoundTrip(c.deg, c.minutes, c.thousandths, c.hemisphere);
    assert ParseLatitude(l) == Ok(CoordValue(c, 'N'));
  }

  lemma LongitudeTextReadsBack(c: CoordText)
    requires ValidLongitude(c)
    ensures ParseLongitude(LongitudeText(c)) == Ok(CoordValue(c, 'E'))
  {
    var l := EncodeLongitude(c.deg, c.minutes, c.thousandths, c.hemisphere);
    assert LongitudeText(c) == l;
    LongitudeRoundTrip(c.deg, c.minutes, c.thousandths, c.hemisphere);
    assert ParseLongitude(l) == Ok(CoordValue(c, 'E'));
  }

  lemma AltitudeReadsBack(n: nat)
    requires n < 100000
    ensures AtoiOrZero(AltitudeText(n)) == n
  {
  }

  lemma TimestampOfClock(date: string, s: nat)
    requires ParseDate(date).Some? && s < 86400
    ensures ParseTimestamp(date, ClockText(s)) == Ok(Instant(ParseDate(date).value, s))
  {
  }

  /** Decoding an assembled record whose date, clock and coordinates
      decode to the given values. */
  lemma NewFixOfParts(date: string, clock: string, lat: string, lon: string, v: char, p: string, g: string,
                      ts: int, la: real, lo: real, pv: int, gv: int)
    requires |clock| == 6 && |lat| == 8 && |lon| == 9 && |p| == 5 && |g| == 5
    requires ParseTimestamp(date, clock) == Ok(ts) && ParseLatitude(lat) == Ok(la) && ParseLongitude(lon) == Ok(lo)
    requires AtoiOrZero(p) == pv && AtoiOrZero(g) == gv
    ensures NewFix(date, "B" + clock + lat + lon + [v] + p + g) == Ok(Fix(ts, la, lo, v, pv, gv))
  {
    RecordLayout(clock, lat, lon, v, p, g);
  }

  /** Where each field of an assembled record sits. */
  lemma RecordLayout(clock: string, lat: string, lon: string, v: char, p: string, g: string)
    requires |clock| == 6 && |lat| == 8 && |lon| == 9 && |p| == 5 && |g| == 5
    ensures var line := "B" + clock + lat + lon + [v] + p + g;
      |line| == RecordLength && line[1..7] == clock && line[7..15] == lat && line[15..24] == lon &&
      line[24] == v && line[25..30] == p && line[30..35] == g
  {
  }

  /** A pressure or GNSS field that is not a number decodes as 0 rather
      than failing the record. */
  lemma MalformedAltitudeIsZero(date: string, line: string)
    requires |line| >= RecordLength && NewFix(date, line).Ok?
    ensures Atoi(line[25..30]).None? ==> NewFix(date, line).value.pressure == 0
    ensures Atoi(line[30..35]).None? ==> NewFix(date, line).value.gnss == 0
  {
  }

  /** `Coord()`: "lat,lon" with six decimals each, or "" unless both
      coordinates are positive. */
  function Coord(f: Fix): (s: string)
    ensures s != "" <==> f.latitude > 0.0 && f.longitude > 0.0
  {
    if f.latitude > 0.0 && f.longitude > 0.0 then FormatFixed(f.latitude) + "," + FormatFixed(f.longitude) else ""
  }

  /** A non-empty Coord has exactly one comma, and each side reads back as
      its coordinate to within half a millionth of a degree. */
  lemma CoordReadsBack(f: Fix)
    requires f.latitude > 0.0 && f.longitude > 0.0
    ensures var s, k := Coord(f), |FormatFixed(f.latitude)|;
      k < |s| && s[k] == ',' && (forall i :: 0 <= i < |s| && s[i] == ',' ==> i == k) &&
      s[..k] == FixedWhole(f.latitude) + "." + FixedFrac(f.latitude) &&
      s[k + 1..] == FixedWhole(f.longitude) + "." + FixedFrac(f.longitude)
    ensures var lat := ParseDecimal(FixedWhole(f.latitude), FixedFrac(f.latitude));
      lat.Some? && f.latitude - 0.0000005 <= lat.value <= f.latitude + 0.0000005
    ensures var lon := ParseDecimal(FixedWhole(f.longitude), FixedFrac(f.longitude));
      lon.Some? && f.longitude - 0.0000005 <= lon.value <= f.longitude + 0.0000005
  {
    var a, b := FormatFixed(f.latitude), FormatFixed(f.longitude);
    var s := Coord(f);
    assert s == a + "," + b;
    forall i | 0 <= i < |s| && s[i] == ','
      ensures i == |a|
    {
    }
    assert s[..|a|] == a;
    assert s[|a| + 1..] == b;
    FormatFixedReadsBack(f.latitude);
    FormatFixedReadsBack(f.longitude);
  }

  /** `FixSlice.Len`. */
  function Len(p: seq<Fix>): (n: nat)
    ensures n == |p|
  {
    |p|
  }

  /** `FixSlice.Less(i, j)`: fix i is strictly earlier than fix j. */
  predicate Less(p: seq<Fix>, i: nat, j: nat): (b: bool)
    requires i < |p| && j < |p|
    ensures b ==> i != j
    ensures SortedByTime(p) && j <= i ==> !b
  {
    p[i].time < p[j].time
  }

  /** Ascending by time: no later fix is Less than an earlier one. */
  predicate SortedByTime(p: seq<Fix>) {
    forall i, j :: 0 <= i < j < |p| ==> p[i].time <= p[j].time
  }

  /** Less is a strict order, and a slice is sorted exactly when no pair is
      out of order under it. */
  lemma LessIsStrictOrder(p: seq<Fix>)
    ensures forall i :: 0 <= i < |p| ==> !Less(p, i, i)
    ensures forall i, j :: 0 <= i < |p| && 0 <= j < |p| && Less(p, i, j) ==> !Less(p, j, i)
    ensures forall i, j, k :: 0 <= i < |p| && 0 <= j < |p| && 0 <= k < |p| && Less(p, i, j) && Less(p, j, k) ==> Less(p, i, k)
    ensures SortedByTime(p) <==> forall i, j :: 0 <= i < j < |p| ==> !Less(p, j, i)
  {
    if forall i, j :: 0 <= i < j < |p| ==> !Less(p, j, i) {
      forall i, j | 0 <= i < j < |p|
        ensures p[i].time <= p[j].time
      {
        assert !Less(p, j, i);
      }
    }
  }

  /** `FixSlice.Swap(i, j)`: exchanges positions i and j, nothing else. */
  method Swap(a: array<Fix>, i: nat, j: nat)
    requires i < a.Length && j < a.Length
    modifies a
    ensures a[..] == old(a[..])[i := old(a[j])][j := old(a[i])]
    ensures multiset(a[..]) == multiset(old(a[..]))
  {
    a[i], a[j] := a[j], a[i];
  }

  /** `sort.Sort(p)`, through Less and Swap only. The library's algorithm
      is not modelled; what the caller relies on is the result: ordered by
      time and a rearrangement of the input. The order of fixes with equal
      times is not part of the promise (sort.Sort is not stable). */
  method Sort(a: array<Fix>)
    modifies a
    ensures SortedByTime(a[..])
    ensures multiset(a[..]) == multiset(old(a[..]))
  {
    var i := 0;
    while i < a.Length
      invariant 0 <= i <= a.Length
      invariant SortedByTime(a[..i])
      invariant multiset(a[..]) == multiset(old(a[..]))
    {
      var j := i;
      while j > 0 && Less(a[..], j, j - 1)
        invariant 0 <= j <= i
        invariant forall k, l :: 0 <= k < l <= i && k != j && l != j ==> a[k].time <= a[l].time
        invariant forall l :: j < l <= i ==> a[j].time <= a[l].time
        invariant multiset(a[..]) == multiset(old(a[..]))
      {
        Swap(a, j - 1, j);
        j := j - 1;
      }
      i := i + 1;
    }
  }

  /** A fix that ends the takeoff scan: GNSS lock with a positive GNSS
      altitude, or a void fix. */
  predicate Selects(f: Fix) {
    (f.validity == 'A' && f.gnss > 0) || f.validity == 'V'
  }

  /** A fix the takeoff scan passes over: locked but at GNSS altitude <= 0. */
  predicate Skipped(f: Fix) {
    f.validity == 'A' && f.gnss <= 0
  }

  /** What `FixSlice.TakeOff` returns, scanning from the front. */
  function TakeOffOf(p: seq<Fix>): (r: Result<Fix>)
    ensures r.Err? ==> r.error == InvalidFix
  {
    if p == [] then Ok(ZeroFix)
    else if Selects(p[0]) then Ok(p[0])
    else if Skipped(p[0]) then TakeOffOf(p[1..])
    else Err(InvalidFix)
  }

  /** The first fix that is not passed over decides: a selected one is the
      takeoff. */
  lemma {:induction false} TakeOffIsFirstSelected(p: seq<Fix>, k: nat)
    requires k < |p| && Selects(p[k])
    requires forall j :: 0 <= j < k ==> Skipped(p[j])
    ensures TakeOffOf(p) == Ok(p[k])
  {
    if k > 0 {
      assert Skipped(p[0]);
      TakeOffIsFirstSelected(p[1..], k - 1);
    }
  }

  /** ... and one with a validity other than 'A' or 'V' is an error. */
  lemma {:induction false} TakeOffRejectsInvalid(p: seq<Fix>, k: nat)
    requires k < |p| && p[k].validity != 'A' && p[k].validity != 'V'
    requires forall j :: 0 <= j < k ==> Skipped(p[j])
    ensures TakeOffOf(p) == Err(InvalidFix)
  {
    if k > 0 {
      assert Skipped(p[0]);
      TakeOffRejectsInvalid(p[1..], k - 1);
    }
  }

  /** When every fix is passed over the result is the zero Fix, not the
      first element. */
  lemma {:induction false} TakeOffNoneSelected(p: seq<Fix>)
    requires forall j :: 0 <= j < |p| ==> Skipped(p[j])
    ensures TakeOffOf(p) == Ok(ZeroFix)
  {
    if p != [] {
      assert Skipped(p[0]);
      TakeOffNoneSelected(p[1..]);
    }
  }

  /** A successful scan returns either an element of the slice that is
      selected and preceded only by passed-over fixes, or the zero Fix when
      all fixes are passed over. */
  lemma {:induction false} TakeOffOutcome(p: seq<Fix>)
    requires TakeOffOf(p).Ok?
    ensures var f := TakeOffOf(p).value;
      (exists k :: 0 <= k < |p| && p[k] == f && Selects(f) && forall j :: 0 <= j < k ==> Skipped(p[j])) ||
      (f == ZeroFix && forall j :: 0 <= j < |p| ==> Skipped(p[j]))
  {
    if p != [] && !Selects(p[0]) {
      TakeOffOutcome(p[1..]);
      var f := TakeOffOf(p).value;
      if exists k :: 0 <= k < |p[1..]| && p[1..][k] == f && Selects(f) && forall j :: 0 <= j < k ==> Skipped(p[1..][j]) {
        var k :| 0 <= k < |p[1..]| && p[1..][k] == f && Selects(f) && forall j :: 0 <= j < k ==> Skipped(p[1..][j]);
        assert p[k + 1] == f;
        assert forall j :: 0 <= j < k + 1 ==> Skipped(p[j]) by {
          forall j | 0 <= j < k + 1 ensures Skipped(p[j]) {
            if j > 0 { assert p[j] == p[1..][j - 1]; }
          }
        }
      } else {
        assert forall j :: 0 <= j < |p| ==> Skipped(p[j]) by {
          forall j | 0 <= j < |p| ensures Skipped(p[j]) {
            if j > 0 { assert p[j] == p[1..][j - 1]; }
          }
        }
      }
    } else if p != [] {
      assert p[0] == TakeOffOf(p).value;
    }
  }

  /** `FixSlice.TakeOff()`: the range loop with its early returns. */
  method TakeOff(p: seq<Fix>) returns (r: Result<Fix>)
    ensures r == TakeOffOf(p)
  {
    var i := 0;
    while i < |p|
      invariant 0 <= i <= |p|
      invariant TakeOffOf(p[i..]) == TakeOffOf(p)
    {
      var v := p[i];
      if v.validity == 'A' {
        if v.gnss > 0 {
          return Ok(p[i]);
        }
      } else if v.validity == 'V' {
        return Ok(p[i]);
      } else {
        return Err(InvalidFix);
      }
      assert p[i..][1..] == p[i + 1..];
      i := i + 1;
    }
    return Ok(ZeroFix);
  }

  /** `FixSlice.Landing()`: the last element; an empty slice is the source's
      index panic, so it is excluded here. */
  function Landing(p: seq<Fix>): (f: Fix)
    requires |p| > 0
    ensures f in p
  {
    p[|p| - 1]
  }

  /** On a sorted slice the landing fix is the latest one. */
  lemma LandingIsLatest(p: seq<Fix>)
    requires |p| > 0 && SortedByTime(p)
    ensures forall k :: 0 <= k < |p| ==> p[k].time <= Landing(p).time
  {
  }
}
