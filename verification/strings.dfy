/** The string primitives the program builds on: `std::string_view::substr`,
    `find_first_of`, `find_last_of`, the `starts_with` / `ends_with` lambdas,
    decimal rendering of `size_t` and `std::from_chars`. */
module Strings {
  import opened Wrappers

  /** 2^64: one past the largest `size_t`. */
  const SizeLimit: nat := 0x1_0000_0000_0000_0000

  function Min(a: nat, b: nat): nat {
    if a <= b then a else b
  }

  /** `s.substr(pos, count)`: at most `count` characters starting at `pos`
      (the call throws when `pos > s.size()`, which callers rule out). */
  function Substr(s: string, pos: nat, count: nat): (r: string)
    requires pos <= |s|
    ensures |r| == Min(count, |s| - pos)
    ensures r <= s[pos..]
  {
    if count <= |s| - pos then s[pos..pos + count] else s[pos..]
  }

  /** `str.substr(0, p.size()) == p`. */
  predicate StartsWith(s: string, p: string)
  {
    Substr(s, 0, |p|) == p
  }

  /** The `starts_with` helper is exactly the prefix relation. */
  lemma StartsWithIsPrefix(s: string, p: string)
    ensures StartsWith(s, p) <==> p <= s
  {
    if |p| <= |s| {
      assert Substr(s, 0, |p|) == s[..|p|];
    } else {
      assert |Substr(s, 0, |p|)| < |p|;
    }
  }

  /** Two strings that differ at a position both have are not prefix-related. */
  lemma NotStartsWithAt(s: string, p: string, k: nat)
    requires k < |s| && k < |p| && s[k] != p[k]
    ensures !StartsWith(s, p)
  {
    StartsWithIsPrefix(s, p);
  }

  /** `str.size() > t.size() && str.substr(str.size() - t.size(), t.size()) == t`:
      a PROPER suffix test, false when the two strings are equal. */
  function EndsWith(s: string, t: string): (r: bool)
    ensures r <==> |t| < |s| && s[|s| - |t|..] == t
    ensures s == t ==> !r
  {
    |s| > |t| && Substr(s, |s| - |t|, |t|) == t
  }

  /** `s.find_first_of(c, from)`: the first position at or after `from`
      holding `c`, or `None` for `npos`. */
  function FindFirstOf(s: string, c: char, from: nat): (r: Option<nat>)
    decreases |s| - from
    ensures r.Some? ==> from <= r.value < |s| && s[r.value] == c
    ensures r.Some? ==> forall j :: from <= j < r.value ==> s[j] != c
    ensures r.None? ==> forall j :: from <= j < |s| ==> s[j] != c
  {
    if from >= |s| then None
    else if s[from] == c then Some(from)
    else FindFirstOf(s, c, from + 1)
  }

  /** `s.find_last_of(c)`: the last position holding `c`, or `None` for `npos`. */
  function FindLastOf(s: string, c: char): (r: Option<nat>)
    ensures r.Some? ==> r.value < |s| && s[r.value] == c
    ensures r.Some? ==> forall j :: r.value < j < |s| ==> s[j] != c
    ensures r.None? ==> forall j :: 0 <= j < |s| ==> s[j] != c
  {
    if |s| == 0 then None
    else if s[|s| - 1] == c then Some(|s| - 1)
    else FindLastOf(s[..|s| - 1], c)
  }

  predicate IsDigit(c: char) {
    '0' <= c <= '9'
  }

  function DigitValue(c: char): nat
    requires IsDigit(c)
  {
    (c as int - '0' as int) as nat
  }

  function DigitChar(d: nat): (c: char)
    requires d < 10
    ensures IsDigit(c) && DigitValue(c) == d
  {
    ('0' as int + d) as char
  }

  predicate AllDigits(s: string) {
    forall i :: 0 <= i < |s| ==> IsDigit(s[i])
  }

  /** The value of a string of decimal digits, most significant first. */
  function DigitsValue(s: string): nat
    requires AllDigits(s)
  {
    if |s| == 0 then 0
    else DigitsValue(s[..|s| - 1]) * 10 + DigitValue(s[|s| - 1])
  }

  /** Decimal rendering of a number, as `fmt::format("{}", n)` writes a `size_t`. */
  function NatToString(n: nat): (r: string)
    ensures |r| > 0 && AllDigits(r)
  {
    if n < 10 then [DigitChar(n)]
    else NatToString(n / 10) + [DigitChar(n % 10)]
  }

  /** Reading back a rendered number gives the number. */
  lemma {:induction false} DigitsValueOfNatToString(n: nat)
    ensures DigitsValue(NatToString(n)) == n
  {
    if n >= 10 {
      var a := NatToString(n / 10);
      var r := NatToString(n);
      assert r[..|r| - 1] == a;
      DigitsValueOfNatToString(n / 10);
    }
  }

  /** The number of leading decimal digits of `s`. */
  function DigitRun(s: string): (k: nat)
    ensures k <= |s| && AllDigits(s[..k])
    ensures k < |s| ==> !IsDigit(s[k])
  {
    if |s| == 0 || !IsDigit(s[0]) then 0
    else
      var k := 1 + DigitRun(s[1..]);
      assert s[..k] == [s[0]] + s[1..][..k - 1];
      k
  }

  /** `std::from_chars(first, last, value, 10)` for an unsigned 64-bit value
      whose error code alone is inspected: it fails when the text does not
      start with a digit, or when the leading digit run does not fit 64 bits;
      anything after the digit run is ignored. */
  function FromChars(s: string): (r: Option<nat>)
    ensures r.Some? <==> 0 < |s| && IsDigit(s[0]) && DigitsValue(s[..DigitRun(s)]) < SizeLimit
    ensures r.Some? ==> r.value < SizeLimit && r.value == DigitsValue(s[..DigitRun(s)])
  {
    var k := DigitRun(s);
    if k == 0 then None
    else
      var v := DigitsValue(s[..k]);
      if v < SizeLimit then Some(v) else None
  }

  /** Parsing the rendering of a 64-bit number, followed by text that does
      not start with a digit, yields that number back. */
  lemma FromCharsRoundTrip(n: nat, rest: string)
    requires n < SizeLimit
    requires |rest| == 0 || !IsDigit(rest[0])
    ensures FromChars(NatToString(n) + rest) == Some(n)
  {
    var d := NatToString(n);
    var s := d + rest;
    DigitRunOfDigitsThen(d, rest);
    assert s[..|d|] == d;
    DigitsValueOfNatToString(n);
  }

  lemma {:induction false} DigitRunOfDigitsThen(d: string, rest: string)
    requires AllDigits(d)
    requires |rest| == 0 || !IsDigit(rest[0])
    ensures DigitRun(d + rest) == |d|
  {
    if |d| > 0 {
      assert (d + rest)[1..] == d[1..] + rest;
      DigitRunOfDigitsThen(d[1..], rest);
    }
  }
}
