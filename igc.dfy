/** igc.go: the coordinate decoders and the site-name lookup chain.

    A coordinate field is fixed-width text: latitude "DDMMmmmH", longitude
    "DDDMMmmmH", where MM.mmm are minutes and H the hemisphere letter. The
    decoded value is degrees plus minutes/60; for S and W the source negates
    the degrees only (igc.go:57, igc.go:78), and the model does the same.

    Site names come from an optional registered `Finder` per role (takeoff,
    landing), accepted only within `MaxDistance`, and otherwise from a remote
    geocoder, which is a function parameter here. */
module Igc {
  import opened Errors
  import opened Text

  /** Default of the package variable MaxDistance. */
  const DefaultMaxDistance := 300

  /** The value the source assigns to degrees d and minutes m in the given
      hemisphere: only the degrees change sign. */
  function AsWritten(d: int, m: real, positive: bool): real {
    (if positive then d else -d) as real + m / 60.0
  }

  /** Decodes one coordinate from its degree digits, the two parts of its
      minutes and its hemisphere letter, `pos` being the letter for which the
      degrees are taken as they are and `neg` the one for which they are
      negated. The degree field is read first, then the minutes, then the
      letter, so a malformed number is reported before a wrong letter. */
  function ParseCoordinate(deg: string, whole: string, frac: string, suffix: char, pos: char, neg: char): (r: Result<real>)
    requires |deg| < 19 && pos != neg
    ensures r.Ok? ==> suffix == pos || suffix == neg
    ensures r.Ok? ==> Atoi(deg).Some? && ParseDecimal(whole, frac).Some?
    ensures Atoi(deg).None? ==> r == Err(MalformedNumber)
    ensures Atoi(deg).Some? && ParseDecimal(whole, frac).None? ==> r == Err(MalformedNumber)
    ensures Atoi(deg).Some? && ParseDecimal(whole, frac).Some? && suffix != pos && suffix != neg ==> r == Err(WrongSuffix)
    ensures Atoi(deg).Some? && ParseDecimal(whole, frac).Some? && (suffix == pos || suffix == neg) ==>
      r == Ok(AsWritten(Atoi(deg).value, ParseDecimal(whole, frac).value, suffix == pos))
  {
    match Atoi(deg)
    case None => Err(MalformedNumber)
    case Some(d) =>
      match ParseDecimal(whole, frac)
      case None => Err(MalformedNumber)
      case Some(m) =>
        if suffix == pos then Ok(d as real + m / 60.0)
        else if suffix == neg then Ok((-d) as real + m / 60.0)
        else Err(WrongSuffix)
  }

  /** `ParseLatitude`: "DDMMmmmN" or "DDMMmmmS". Characters after the eighth
      are not read. */
  function ParseLatitude(l: string): (r: Result<real>)
    requires |l| >= 8
    ensures r.Ok? ==> l[7] == 'N' || l[7] == 'S'
    ensures r.Ok? ==> IsDigit(l[1]) && IsDigit(l[3]) && AllDigits(l[4..7])
  {
    ParseCoordinate(l[0..2], l[2..4], l[4..7], l[7], 'N', 'S')
  }

  /** `ParseLongitude`: "DDDMMmmmE" or "DDDMMmmmW". */
  function ParseLongitude(l: string): (r: Result<real>)
    requires |l| >= 9
    ensures r.Ok? ==> l[8] == 'E' || l[8] == 'W'
    ensures r.Ok? ==> IsDigit(l[1]) && IsDigit(l[2]) && IsDigit(l[4]) && AllDigits(l[5..8])
  {
    ParseCoordinate(l[0..3], l[3..5], l[5..8], l[8], 'E', 'W')
  }

  /** An all-digit latitude field decodes to its degrees plus
      (MM + mmm/1000)/60, with the degrees negated for 'S'. */
  lemma LatitudeDigits(l: string)
    requires |l| >= 8 && AllDigits(l[0..7]) && (l[7] == 'N' || l[7] == 'S')
    ensures ParseLatitude(l) == Ok(AsWritten(DigitsValue(l[0..2]),
      DigitsValue(l[2..4]) as real + DigitsValue(l[4..7]) as real / 1000.0, l[7] == 'N'))
  {
    Pow10Values();
    assert l[0..7][0..2] == l[0..2] && l[0..7][2..4] == l[2..4] && l[0..7][4..7] == l[4..7];
  }

  /** An all-digit longitude field decodes to its degrees plus
      (MM + mmm/1000)/60, with the degrees negated for 'W'. */
  lemma LongitudeDigits(l: string)
    requires |l| >= 9 && AllDigits(l[0..8]) && (l[8] == 'E' || l[8] == 'W')
    ensures ParseLongitude(l) == Ok(AsWritten(DigitsValue(l[0..3]),
      DigitsValue(l[3..5]) as real + DigitsValue(l[5..8]) as real / 1000.0, l[8] == 'E'))
  {
    Pow10Values();
    assert l[0..8][0..3] == l[0..3] && l[0..8][3..5] == l[3..5] && l[0..8][5..8] == l[5..8];
  }

  /** Any hemisphere letter other than the two of the axis is an error,
      never a value. */
  lemma WrongSuffixIsError(l: string)
    requires |l| >= 8
    ensures l[7] != 'N' && l[7] != 'S' ==> ParseLatitude(l).Err?
    ensures |l| >= 9 && l[8] != 'E' && l[8] != 'W' ==> ParseLongitude(l).Err?
  {
  }

  /** Flipping N to S keeps the minutes' sign: the two readings differ by
      twice the degrees and add up to twice the minutes' contribution, so
      the source's 'S' is not the negation of its 'N' unless the minutes are
      zero. */
  lemma SouthNegatesDegreesOnly(l: string)
    requires |l| >= 8 && l[7] == 'N'
    requires ParseLatitude(l).Ok?
    ensures ParseLatitude(l[..7] + "S").Ok?
    ensures var n, s := ParseLatitude(l).value, ParseLatitude(l[..7] + "S").value;
      n - s == 2.0 * Atoi(l[0..2]).value as real &&
      n + s == 2.0 * ParseDecimal(l[2..4], l[4..7]).value / 60.0
  {
    var l' := l[..7] + "S";
    assert l'[0..2] == l[0..2] && l'[2..4] == l[2..4] && l'[4..7] == l[4..7] && l'[7] == 'S';
  }

  /** A worked example: 7 degrees 2.233 minutes west is -7 + 2.233/60,
      about -6.963, not -(7 + 2.233/60). */
  lemma WestExample()
    ensures ParseLongitude("00702233W") == Ok(-7.0 + 2.233 / 60.0)
  {
    var l := "00702233W";
    assert AllDigits(l[0..8]);
    assert DigitsValue(l[0..3]) == 7 by {
      assert l[0..3] == "007" && "007"[..2] == "00" && "00"[..1] == "0";
    }
    assert DigitsValue(l[3..5]) == 2 by {
      assert l[3..5] == "02" && "02"[..1] == "0";
    }
    assert DigitsValue(l[5..8]) == 233 by {
      assert l[5..8] == "233" && "233"[..2] == "23" && "23"[..1] == "2";
    }
    LongitudeDigits(l);
  }

  /** The field text for a latitude with the given degrees, minutes,
      thousandths of a minute and hemisphere letter. */
  function EncodeLatitude(deg: nat, minutes: nat, thousandths: nat, hemisphere: char): (l: string)
    requires deg < 100 && minutes < 100 && thousandths < 1000
    ensures |l| == 8 && l[7] == hemisphere
  {
    Pow10Values();
    Pad(deg, 2) + Pad(minutes, 2) + Pad(thousandths, 3) + [hemisphere]
  }

  /** The field text for a longitude. */
  function EncodeLongitude(deg: nat, minutes: nat, thousandths: nat, hemisphere: char): (l: string)
    requires deg < 1000 && minutes < 100 && thousandths < 1000
    ensures |l| == 9 && l[8] == hemisphere
  {
    Pow10Values();
    Pad(deg, 3) + Pad(minutes, 2) + Pad(thousandths, 3) + [hemisphere]
  }

  /** Decoding an encoded latitude gives back its degrees and minutes. */
  lemma LatitudeRoundTrip(deg: nat, minutes: nat, thousandths: nat, hemisphere: char)
    requires deg < 100 && minutes < 100 && thousandths < 1000
    requires hemisphere == 'N' || hemisphere == 'S'
    ensures ParseLatitude(EncodeLatitude(deg, minutes, thousandths, hemisphere))
         == Ok(AsWritten(deg, minutes as real + thousandths as real / 1000.0, hemisphere == 'N'))
  {
    Pow10Values();
    var a, b, c := Pad(deg, 2), Pad(minutes, 2), Pad(thousandths, 3);
    var l := EncodeLatitude(deg, minutes, thousandths, hemisphere);
    assert l[0..2] == a && l[2..4] == b && l[4..7] == c;
    assert l[0..7] == a + b + c;
    LatitudeDigits(l);
  }

  /** Decoding an encoded longitude gives back its degrees and minutes. */
  lemma LongitudeRoundTrip(deg: nat, minutes: nat, thousandths: nat, hemisphere: char)
    requires deg < 1000 && minutes < 100 && thousandths < 1000
    requires hemisphere == 'E' || hemisphere == 'W'
    ensures ParseLongitude(EncodeLongitude(deg, minutes, thousandths, hemisphere))
         == Ok(AsWritten(deg, minutes as real + thousandths as real / 1000.0, hemisphere == 'E'))
  {
    Pow10Values();
    var a, b, c := Pad(deg, 3), Pad(minutes, 2), Pad(thousandths, 3);
    var l := EncodeLongitude(deg, minutes, thousandths, hemisphere);
    assert l[0..3] == a && l[3..5] == b && l[5..8] == c;
    assert l[0..8] == a + b + c;
    LongitudeDigits(l);
  }

  /** A local gazetteer: the nearest known place to a coordinate and its
      distance, in the caller's unit (the `Finder` interface). */
  type Finder = (real, real) -> (string, int)

  /** The decoded JSON body of a geocoding reply. */
  datatype Reply = Reply(results: seq<string>, status: string)

  /** The remote geocoder: the reply to a query at (lat, lon), or None when
      the HTTP request, reading the body or decoding the JSON failed. */
  type Geocoder = (real, real) -> Option<Reply>

  /** The tail of `LookupPlaceWithGoogleMaps`: a failed request or a status
      other than "OK" gives ""; an "OK" reply gives its first address, and an
      "OK" reply without results is the source's index panic. */
  function AddressOf(reply: Option<Reply>): (r: Result<string>)
    ensures reply.None? ==> r == Ok("")
    ensures reply.Some? && reply.value.status != "OK" ==> r == Ok("")
    ensures reply.Some? && reply.value.status == "OK" ==>
      (r.Ok? <==> |reply.value.results| > 0) &&
      (r.Ok? ==> r.value == reply.value.results[0]) &&
      (r.Err? ==> r.error == NoResults)
  {
    match reply
    case None => Ok("")
    case Some(rep) =>
      if rep.status != "OK" then Ok("")
      else if |rep.results| == 0 then Err(NoResults)
      else Ok(rep.results[0])
  }

  /** A non-empty address only ever comes from the first result of an "OK" reply. */
  lemma AddressOrigin(reply: Option<Reply>)
    requires AddressOf(reply).Ok? && AddressOf(reply).value != ""
    ensures reply.Some? && reply.value.status == "OK" && |reply.value.results| > 0
    ensures AddressOf(reply).value == reply.value.results[0]
  {
  }

  /** `LookupPlaceWithGoogleMaps(lat, lon)`. The HTTP request and the 75 ms
      pause after it are inside `geocoder`. */
  function LookupPlaceWithGoogleMaps(lat: real, lon: real, geocoder: Geocoder): (r: Result<string>)
    ensures r.Err? ==> r.error == NoResults
    ensures r.Ok? && r.value != "" ==>
      var reply := geocoder(lat, lon);
      reply.Some? && reply.value.status == "OK" && |reply.value.results| > 0 && r.value == reply.value.results[0]
  {
    AddressOf(geocoder(lat, lon))
  }

  /** Whether a finder's answer is used: a non-empty place within the
      maximal distance (inclusive). */
  predicate Accepts(found: (string, int), maxDistance: int) {
    |found.0| > 0 && found.1 <= maxDistance
  }

  /** The body shared by `LookupTakeOffSite` and `LookupLandingSite`, for a
      registered finder (or none). */
  function LookupSite(finder: Option<Finder>, maxDistance: int, geocoder: Geocoder, lat: real, lon: real): (r: Result<string>)
    ensures r.Err? ==> r.error == NoResults && !(finder.Some? && Accepts(finder.value(lat, lon), maxDistance))
  {
    if finder.Some? && Accepts(finder.value(lat, lon), maxDistance) then
      Ok(finder.value(lat, lon).0)
    else
      var place :- LookupPlaceWithGoogleMaps(lat, lon, geocoder);
      if |place| > 0 then Ok(place) else Ok("")
  }

  /** An accepted local answer is the result, whatever the geocoder would
      have said: the remote lookup is not consulted. */
  lemma LocalAnswerWins(finder: Option<Finder>, maxDistance: int, g1: Geocoder, g2: Geocoder, lat: real, lon: real)
    requires finder.Some? && Accepts(finder.value(lat, lon), maxDistance)
    ensures LookupSite(finder, maxDistance, g1, lat, lon) == Ok(finder.value(lat, lon).0)
    ensures LookupSite(finder, maxDistance, g1, lat, lon) == LookupSite(finder, maxDistance, g2, lat, lon)
  {
  }

  /** No finder, an empty place or a place farther than the maximal
      distance: the result is the remote one, as if no finder were
      registered. */
  lemma RemoteFallback(finder: Option<Finder>, maxDistance: int, geocoder: Geocoder, lat: real, lon: real)
    requires finder.None? || !Accepts(finder.value(lat, lon), maxDistance)
    ensures LookupSite(finder, maxDistance, geocoder, lat, lon) == LookupPlaceWithGoogleMaps(lat, lon, geocoder)
    ensures LookupSite(finder, maxDistance, geocoder, lat, lon) == LookupSite(None, maxDistance, geocoder, lat, lon)
  {
    match LookupPlaceWithGoogleMaps(lat, lon, geocoder)
    case Err(_) =>
    case Ok(place) =>
      if |place| == 0 {
        assert place == "";
      }
  }

  /** A non-empty site name is either the accepted local answer or the
      first result of an "OK" reply. */
  lemma SiteNameOrigin(finder: Option<Finder>, maxDistance: int, geocoder: Geocoder, lat: real, lon: real)
    requires LookupSite(finder, maxDistance, geocoder, lat, lon).Ok?
    requires LookupSite(finder, maxDistance, geocoder, lat, lon).value != ""
    ensures var name := LookupSite(finder, maxDistance, geocoder, lat, lon).value;
      (finder.Some? && Accepts(finder.value(lat, lon), maxDistance) && name == finder.value(lat, lon).0) ||
      (var reply := geocoder(lat, lon);
       reply.Some? && reply.value.status == "OK" && |reply.value.results| > 0 && name == reply.value.results[0])
  {
    if !(finder.Some? && Accepts(finder.value(lat, lon), maxDistance)) {
      RemoteFallback(finder, maxDistance, geocoder, lat, lon);
      AddressOrigin(geocoder(lat, lon));
    }
  }

  /** Raising the maximal distance never loses a local answer that was
      accepted. */
  lemma WiderRadiusKeepsLocal(finder: Option<Finder>, d1: int, d2: int, geocoder: Geocoder, lat: real, lon: real)
    requires d1 <= d2
    requires finder.Some? && Accepts(finder.value(lat, lon), d1)
    ensures LookupSite(finder, d2, geocoder, lat, lon) == LookupSite(finder, d1, geocoder, lat, lon)
  {
  }

  /** The package state of igc.go: the registered finders and `MaxDistance`. */
  class Sources {
    var takeoff: Option<Finder>
    var landing: Option<Finder>
    var maxDistance: int

    /** The state before any registration. */
    constructor ()
      ensures takeoff == None && landing == None && maxDistance == DefaultMaxDistance
    {
      takeoff := None;
      landing := None;
      maxDistance := DefaultMaxDistance;
    }

    /** `RegisterTakeoffSiteSource(f)`; None stands for a nil Finder. */
    method RegisterTakeoffSiteSource(f: Option<Finder>)
      modifies this`takeoff
      ensures takeoff == f
    {
      takeoff := f;
    }

    /** `RegisterLandingSiteSource(f)`. */
    method RegisterLandingSiteSource(f: Option<Finder>)
      modifies this`landing
      ensures landing == f
    {
      landing := f;
    }

    /** `LookupTakeOffSite(lat, lon)`: the takeoff finder's place when one is
        registered and its answer is accepted, the remote result otherwise. */
    function LookupTakeOffSite(lat: real, lon: real, geocoder: Geocoder): (r: Result<string>)
      reads this
      ensures takeoff.Some? && Accepts(takeoff.value(lat, lon), maxDistance) ==> r == Ok(takeoff.value(lat, lon).0)
      ensures !(takeoff.Some? && Accepts(takeoff.value(lat, lon), maxDistance)) ==> r == LookupPlaceWithGoogleMaps(lat, lon, geocoder)
    {
      if takeoff.Some? && Accepts(takeoff.value(lat, lon), maxDistance) then
        LookupSite(takeoff, maxDistance, geocoder, lat, lon)
      else
        RemoteFallback(takeoff, maxDistance, geocoder, lat, lon);
        LookupSite(takeoff, maxDistance, geocoder, lat, lon)
    }

    /** `LookupLandingSite(lat, lon)`: the same policy with the landing finder. */
    function LookupLandingSite(lat: real, lon: real, geocoder: Geocoder): (r: Result<string>)
      reads this
      ensures landing.Some? && Accepts(landing.value(lat, lon), maxDistance) ==> r == Ok(landing.value(lat, lon).0)
      ensures !(landing.Some? && Accepts(landing.value(lat, lon), maxDistance)) ==> r == LookupPlaceWithGoogleMaps(lat, lon, geocoder)
    {
      if landing.Some? && Accepts(landing.value(lat, lon), maxDistance) then
        LookupSite(landing, maxDistance, geocoder, lat, lon)
      else
        RemoteFallback(landing, maxDistance, geocoder, lat, lon);
        LookupSite(landing, maxDistance, geocoder, lat, lon)
    }
  }
}
