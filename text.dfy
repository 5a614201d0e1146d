/** The Go standard-library text conversions the IGC decoder relies on,
    restricted to the shapes its fixed-width fields can take:
    `strconv.Atoi`, `strconv.ParseFloat` of "<whole>.<fraction>",
    `fmt.Sprintf("%f", x)` for non-negative x, and `strings.Split(s, sep)[1]`. */
module Text {
  import opened Errors

  predicate IsDigit(c: char) {
    '0' <= c <= '9'
  }

  predicate AllDigits(s: string) {
    forall i :: 0 <= i < |s| ==> IsDigit(s[i])
  }

  function DigitValue(c: char): (d: nat)
    requires IsDigit(c)
    ensures d < 10
  {
    c as int - '0' as int
  }

  function DigitChar(d: nat): (c: char)
    requires d < 10
    ensures IsDigit(c) && DigitValue(c) == d
  {
    ('0' as int + d) as char
  }

  function Pow10(n: nat): (p: nat)
    ensures p >= 1
  {
    if n == 0 then 1 else 10 * Pow10(n - 1)
  }

  lemma Pow10Values()
    ensures Pow10(1) == 10 && Pow10(2) == 100 && Pow10(3) == 1000 && Pow10(5) == 100000 && Pow10(6) == 1000000
  {
  }

  /** The number a string of decimal digits denotes, most significant digit first. */
  function DigitsValue(s: string): (v: nat)
    requires AllDigits(s)
    ensures v < Pow10(|s|)
  {
    if s == [] then 0 else DigitsValue(s[..|s| - 1]) * 10 + DigitValue(s[|s| - 1])
  }

  lemma DigitsValueSnoc(s: string, c: char)
    requires AllDigits(s) && IsDigit(c)
    ensures AllDigits(s + [c]) && DigitsValue(s + [c]) == DigitsValue(s) * 10 + DigitValue(c)
  {
    assert (s + [c])[..|s|] == s;
  }

  /** `strconv.Atoi` on strings shorter than 19 characters (the fields it is
      given are at most five): an optional '+' or '-' followed by at least one
      decimal digit; anything else is a syntax error. */
  function Atoi(s: string): (r: Option<int>)
    requires |s| < 19
    ensures r.Some? <==> (s != [] && AllDigits(s)) || (|s| > 1 && (s[0] == '+' || s[0] == '-') && AllDigits(s[1..]))
    ensures s != [] && AllDigits(s) ==> r == Some(DigitsValue(s))
    ensures |s| > 1 && s[0] == '+' && AllDigits(s[1..]) ==> r == Some(DigitsValue(s[1..]))
    ensures |s| > 1 && s[0] == '-' && AllDigits(s[1..]) ==> r == Some(-(DigitsValue(s[1..]) as int))
  {
    if |s| > 0 && (s[0] == '+' || s[0] == '-') then
      var body := s[1..];
      if body != [] && AllDigits(body) then
        Some(if s[0] == '-' then -(DigitsValue(body) as int) else DigitsValue(body) as int)
      else None
    else if s != [] && AllDigits(s) then
      Some(DigitsValue(s))
    else
      None
  }

  /** `strconv.ParseFloat(whole + "." + frac)` for the decimal forms: an
      optional sign, then digits before and after the point, with at least
      one digit in all. */
  function ParseDecimal(whole: string, frac: string): (r: Option<real>)
    ensures AllDigits(whole) && AllDigits(frac) && (whole != [] || frac != []) ==>
      r == Some(DigitsValue(whole) as real + DigitsValue(frac) as real / Pow10(|frac|) as real)
    ensures (|whole| > 0 && (whole[0] == '+' || whole[0] == '-') && AllDigits(whole[1..]) && AllDigits(frac) &&
             (|whole| > 1 || frac != [])) ==>
      var m := DigitsValue(whole[1..]) as real + DigitsValue(frac) as real / Pow10(|frac|) as real;
      r == Some(if whole[0] == '-' then -m else m)
    ensures r.Some? ==> AllDigits(frac) && (whole != [] || frac != [])
    ensures r.Some? ==> frac != [] || |whole| > 1 || (whole != [] && IsDigit(whole[0]))
    ensures r.Some? ==> AllDigits(whole) || ((whole[0] == '+' || whole[0] == '-') && AllDigits(whole[1..]))
    ensures whole != [] && !(IsDigit(whole[0]) || whole[0] == '+' || whole[0] == '-') ==> r == None
  {
    var signed := |whole| > 0 && (whole[0] == '+' || whole[0] == '-');
    var body := if signed then whole[1..] else whole;
    if AllDigits(body) && AllDigits(frac) && (body != [] || frac != []) then
      var m := DigitsValue(body) as real + DigitsValue(frac) as real / Pow10(|frac|) as real;
      Some(if signed && whole[0] == '-' then -m else m)
    else
      None
  }

  /** `w` decimal digits, zero-padded on the left, denoting n. */
  function Pad(n: nat, w: nat): (s: string)
    requires n < Pow10(w)
    ensures |s| == w && AllDigits(s) && DigitsValue(s) == n
  {
    if w == 0 then ""
    else
      var init := Pad(n / 10, w - 1);
      DigitsValueSnoc(init, DigitChar(n % 10));
      init + [DigitChar(n % 10)]
  }

  /** The shortest decimal numeral of n (`strconv.Itoa`). */
  function NatToString(n: nat): (s: string)
    ensures s != [] && AllDigits(s) && DigitsValue(s) == n
    ensures |s| > 1 ==> s[0] != '0'
  {
    if n < 10 then [DigitChar(n)]
    else
      var init := NatToString(n / 10);
      DigitsValueSnoc(init, DigitChar(n % 10));
      init + [DigitChar(n % 10)]
  }

  /** Rounding to the nearest integer, ties to even, as `strconv.FormatFloat`
      rounds the decimal it prints. */
  function RoundHalfEven(y: real): (n: int)
    ensures y - 0.5 <= n as real <= y + 0.5
    ensures n as real - y == 0.5 || y - n as real == 0.5 ==> n % 2 == 0
  {
    var f := y.Floor;
    var rest := y - f as real;
    if rest < 0.5 then f
    else if rest > 0.5 then f + 1
    else if f % 2 == 0 then f
    else f + 1
  }

  /** The digits before the point in `fmt.Sprintf("%f", x)`. */
  function FixedWhole(x: real): string
    requires x >= 0.0
  {
    var n := RoundHalfEven(x * 1000000.0);
    NatToString(n / 1000000)
  }

  /** The six digits after the point in `fmt.Sprintf("%f", x)`. */
  function FixedFrac(x: real): string
    requires x >= 0.0
  {
    var n := RoundHalfEven(x * 1000000.0);
    Pow10Values();
    Pad(n % 1000000, 6)
  }

  /** `fmt.Sprintf("%f", x)` for x >= 0: six decimals, rounded half to even. */
  function FormatFixed(x: real): (s: string)
    requires x >= 0.0
    ensures forall i :: 0 <= i < |s| ==> s[i] != ','
  {
    FixedWhole(x) + "." + FixedFrac(x)
  }

  /** Reading the printed text back gives x to within half a millionth. */
  lemma FormatFixedReadsBack(x: real)
    requires x >= 0.0
    ensures |FixedFrac(x)| == 6
    ensures FormatFixed(x) == FixedWhole(x) + "." + FixedFrac(x)
    ensures ParseDecimal(FixedWhole(x), FixedFrac(x)).Some?
    ensures var v := ParseDecimal(FixedWhole(x), FixedFrac(x)).value;
      x - 0.0000005 <= v <= x + 0.0000005
  {
    Pow10Values();
    var n := RoundHalfEven(x * 1000000.0);
    var q, r := n / 1000000, n % 1000000;
    assert DigitsValue(FixedWhole(x)) == q;
    assert DigitsValue(FixedFrac(x)) == r;
    var v := ParseDecimal(FixedWhole(x), FixedFrac(x)).value;
    assert v == q as real + r as real / 1000000.0;
    assert n == q * 1000000 + r;
    assert v == n as real / 1000000.0;
  }

  /** Whether sep occurs in s starting at index i. */
  predicate OccursAt(s: string, sep: string, i: int) {
    0 <= i && i + |sep| <= |s| && s[i..i + |sep|] == sep
  }

  /** `strings.Index(s[i:], sep) + i`: the first occurrence of sep at or after i. */
  function IndexFrom(s: string, sep: string, i: nat): (r: Option<nat>)
    requires i <= |s|
    ensures r.Some? ==> i <= r.value && OccursAt(s, sep, r.value)
    ensures r.Some? ==> forall j :: i <= j < r.value ==> !OccursAt(s, sep, j)
    ensures r.None? ==> forall j :: i <= j ==> !OccursAt(s, sep, j)
    decreases |s| - i
  {
    if i + |sep| > |s| then None
    else if s[i..i + |sep|] == sep then Some(i)
    else IndexFrom(s, sep, i + 1)
  }

  /** Occurrences in a suffix of s are the occurrences in s, shifted. */
  lemma OccursInSuffix(s: string, sep: string, start: nat)
    requires start <= |s|
    ensures forall k :: start <= k ==> (OccursAt(s, sep, k) <==> OccursAt(s[start..], sep, k - start))
  {
    forall k | start <= k
      ensures OccursAt(s, sep, k) <==> OccursAt(s[start..], sep, k - start)
    {
      if k + |sep| <= |s| {
        assert s[start..][k - start..k - start + |sep|] == s[k..k + |sep|];
      }
    }
  }

  /** i is the first index at which sep occurs in s. */
  predicate FirstOccurrence(s: string, sep: string, i: int) {
    OccursAt(s, sep, i) && forall j :: 0 <= j < i ==> !OccursAt(s, sep, j)
  }

  /** v is the text of s from just after the sep at i up to the next
      occurrence of sep, or up to the end when there is none. */
  predicate FieldAfter(s: string, sep: string, i: int, v: string) {
    && OccursAt(s, sep, i)
    && i + |sep| + |v| <= |s| && v == s[i + |sep|..i + |sep| + |v|]
    && (forall j :: i + |sep| <= j < i + |sep| + |v| ==> !OccursAt(s, sep, j))
    && (i + |sep| + |v| == |s| || OccursAt(s, sep, i + |sep| + |v|))
  }

  /** `strings.Split(s, sep)[1]`: the text between the first and the second
      occurrence of sep, or from the first occurrence to the end when there
      is no second. Go panics with an index error when sep does not occur;
      here that is `MissingSeparator`. */
  function SecondField(s: string, sep: string): (r: Result<string>)
    requires sep != []
    ensures r.Err? <==> forall j :: 0 <= j ==> !OccursAt(s, sep, j)
    ensures r.Err? ==> r.error == MissingSeparator
    ensures r.Ok? ==> exists i :: FirstOccurrence(s, sep, i) && FieldAfter(s, sep, i, r.value)
  {
    match IndexFrom(s, sep, 0)
    case None => Err(MissingSeparator)
    case Some(i) =>
      var rest := s[i + |sep|..];
      OccursInSuffix(s, sep, i + |sep|);
      match IndexFrom(rest, sep, 0)
      case None =>
        assert i + |sep| + |rest| == |s| && rest == s[i + |sep|..|s|];
        assert FieldAfter(s, sep, i, rest);
        Ok(rest)
      case Some(j) =>
        assert rest[..j] == s[i + |sep|..i + |sep| + j];
        assert OccursAt(s, sep, i + |sep| + j) by {
          assert OccursAt(rest, sep, (i + |sep| + j) - (i + |sep|));
        }
        assert FieldAfter(s, sep, i, rest[..j]);
        Ok(rest[..j])
  }

  /** A header "<prefix>: <text>" whose prefix and text contain no ": "
      yields exactly the text. */
  lemma SecondFieldOfHeader(prefix: string, text: string)
    requires forall j :: 0 <= j ==> !OccursAt(prefix, ": ", j)
    requires forall j :: 0 <= j ==> !OccursAt(text, ": ", j)
    ensures SecondField(prefix + ": " + text, ": ") == Ok(text)
  {
    var line := prefix + ": " + text;
    var k := |prefix|;
    assert OccursAt(line, ": ", k) by {
      assert line[k..k + 2] == ": ";
    }
    forall j | 0 <= j < k
      ensures !OccursAt(line, ": ", j)
    {
      if j + 2 <= k {
        assert line[j..j + 2] == prefix[j..j + 2];
        assert !OccursAt(prefix, ": ", j);
      } else {
        assert line[j + 1] == ':';
      }
    }
    var first := IndexFrom(line, ": ", 0);
    assert first == Some(k);
    var rest := line[k + 2..];
    assert rest == text;
  }
}
