/** locator.go: a `Site` configured by functional options. */
module Locator {
  import opened Errors

  /** The `io.Reader` a Site is built on; nothing in the model reads it. */
  datatype Reader = Reader(name: string)

  /** A `url.URL`, as its text; the empty text is the zero value. */
  type Url = string

  /** An `Opt`: the closures `WithMaxDistance(d)` and
      `WithGoogleMapsURL(u)` return, identified by what they capture. */
  datatype Opt = WithMaxDistance(distance: int) | WithGoogleMapsURL(url: Url)

  /** The fields of a Site that options set. */
  datatype Config = Config(d: int, u: Url)

  /** A fresh `&Site{r: r}`: distance 0 and the zero URL. */
  const ZeroConfig := Config(0, "")

  /** Calling an option on a Site. A distance option sets `d` when the
      distance is positive and otherwise fails leaving the Site as it was;
      a URL option sets `u` and never fails. */
  function ApplyOpt(c: Config, opt: Opt): (r: Result<Config>)
    ensures opt.WithMaxDistance? ==> (r.Ok? <==> opt.distance > 0)
    ensures opt.WithMaxDistance? && r.Ok? ==> r.value == Config(opt.distance, c.u)
    ensures r.Err? ==> r.error == NonPositiveDistance
    ensures opt.WithGoogleMapsURL? ==> r == Ok(Config(c.d, opt.url))
  {
    match opt
    case WithMaxDistance(d) =>
      if d > 0 then Ok(c.(d := d)) else Err(NonPositiveDistance)
    case WithGoogleMapsURL(u) =>
      Ok(c.(u := u))
  }

  /** The options applied in order, stopping at the first failure. */
  function ApplyAll(c: Config, opts: seq<Opt>): (r: Result<Config>)
    ensures opts == [] ==> r == Ok(c)
    ensures r.Err? ==> r.error == NonPositiveDistance
    ensures r.Ok? ==> r.value.d == c.d || r.value.d > 0
    decreases |opts|
  {
    if opts == [] then Ok(c)
    else
      var prev :- ApplyAll(c, opts[..|opts| - 1]);
      ApplyOpt(prev, opts[|opts| - 1])
  }

  /** An option the Site rejects. */
  predicate Rejected(opt: Opt) {
    opt.WithMaxDistance? && opt.distance <= 0
  }

  /** New succeeds exactly when no distance option is non-positive. */
  lemma {:induction false} ApplyAllSucceeds(c: Config, opts: seq<Opt>)
    ensures ApplyAll(c, opts).Ok? <==> forall i :: 0 <= i < |opts| ==> !Rejected(opts[i])
    decreases |opts|
  {
    if opts != [] {
      var init := opts[..|opts| - 1];
      ApplyAllSucceeds(c, init);
      assert forall i :: 0 <= i < |init| ==> init[i] == opts[i];
    }
  }

  /** Once an option fails, the options after it are not applied: the
      result is that failure whatever follows. */
  lemma {:induction false} FailureStopsApplying(c: Config, opts: seq<Opt>, rest: seq<Opt>)
    requires ApplyAll(c, opts).Err?
    ensures ApplyAll(c, opts + rest) == ApplyAll(c, opts)
    decreases |rest|
  {
    if rest == [] {
      assert opts + rest == opts;
    } else {
      var init := rest[..|rest| - 1];
      FailureStopsApplying(c, opts, init);
      assert (opts + rest)[..|opts + rest| - 1] == opts + init;
    }
  }

  /** The distance of the result is that of the last distance option, or
      the starting one when there is none. */
  lemma {:induction false} LastDistanceWins(c: Config, opts: seq<Opt>)
    requires ApplyAll(c, opts).Ok?
    ensures var d := ApplyAll(c, opts).value.d;
      (exists k :: 0 <= k < |opts| && opts[k].WithMaxDistance? && d == opts[k].distance &&
         forall j :: k < j < |opts| ==> !opts[j].WithMaxDistance?) ||
      (d == c.d && forall j :: 0 <= j < |opts| ==> !opts[j].WithMaxDistance?)
    decreases |opts|
  {
    if opts != [] {
      var n := |opts| - 1;
      var init := opts[..n];
      LastDistanceWins(c, init);
      var prev := ApplyAll(c, init).value;
      var d := ApplyAll(c, opts).value.d;
      if opts[n].WithMaxDistance? {
        assert d == opts[n].distance;
      } else {
        assert d == prev.d;
        assert forall i :: 0 <= i < n ==> init[i] == opts[i];
      }
    }
  }

  /** The URL of the result is that of the last URL option, or the
      starting one when there is none. */
  lemma {:induction false} LastUrlWins(c: Config, opts: seq<Opt>)
    requires ApplyAll(c, opts).Ok?
    ensures var u := ApplyAll(c, opts).value.u;
      (exists k :: 0 <= k < |opts| && opts[k].WithGoogleMapsURL? && u == opts[k].url &&
         forall j :: k < j < |opts| ==> !opts[j].WithGoogleMapsURL?) ||
      (u == c.u && forall j :: 0 <= j < |opts| ==> !opts[j].WithGoogleMapsURL?)
    decreases |opts|
  {
    if opts != [] {
      var n := |opts| - 1;
      var init := opts[..n];
      LastUrlWins(c, init);
      var prev := ApplyAll(c, init).value;
      var u := ApplyAll(c, opts).value.u;
      if opts[n].WithGoogleMapsURL? {
        assert u == opts[n].url;
      } else {
        assert u == prev.u;
        assert forall i :: 0 <= i < n ==> init[i] == opts[i];
      }
    }
  }

  /** `*Site`. */
  class Site {
    var r: Reader
    var d: int
    var u: Url

    /** `&Site{r: r}`. */
    constructor (reader: Reader)
      ensures r == reader && Settings() == ZeroConfig
    {
      r := reader;
      d := 0;
      u := "";
    }

    function Settings(): Config
      reads this
    {
      Config(d, u)
    }

    /** `opt(s)`: the option's effect on this Site, and its error. */
    method Apply(opt: Opt) returns (o: Outcome)
      modifies this`d, this`u
      ensures ApplyOpt(old(Settings()), opt).Ok? ==> o == Pass && Settings() == ApplyOpt(old(Settings()), opt).value
      ensures ApplyOpt(old(Settings()), opt).Err? ==>
        o == Fail(ApplyOpt(old(Settings()), opt).error) && Settings() == old(Settings())
    {
      match opt
      case WithMaxDistance(dist) =>
        if dist > 0 {
          d := dist;
          return Pass;
        }
        return Fail(NonPositiveDistance);
      case WithGoogleMapsURL(url) =>
        u := url;
        return Pass;
    }
  }

  /** `New(r, opts...)`: the options applied in order to a fresh Site; the
      first failing one is returned as the error and the rest are not
      applied. */
  method New(reader: Reader, opts: seq<Opt>) returns (res: Result<Site>)
    ensures ApplyAll(ZeroConfig, opts).Err? ==> res == Err(ApplyAll(ZeroConfig, opts).error)
    ensures ApplyAll(ZeroConfig, opts).Ok? ==>
      res.Ok? && fresh(res.value) && res.value.r == reader && res.value.Settings() == ApplyAll(ZeroConfig, opts).value
  {
    var s := new Site(reader);
    var i := 0;
    while i < |opts|
      invariant 0 <= i <= |opts|
      invariant s.r == reader
      invariant ApplyAll(ZeroConfig, opts[..i]) == Ok(s.Settings())
    {
      assert opts[..i + 1][..i] == opts[..i];
      var o := s.Apply(opts[i]);
      if o.Fail? {
        FailureStopsApplying(ZeroConfig, opts[..i + 1], opts[i + 1..]);
        assert opts[..i + 1] + opts[i + 1..] == opts;
        return Err(o.error);
      }
      i := i + 1;
    }
    assert opts[..i] == opts;
    return Ok(s);
  }
}
