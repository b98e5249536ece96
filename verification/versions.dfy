/** Dotted version strings such as "1.10.2" and their three-way comparison:
    the string is stripped and split on '.', every part read as a decimal
    number, the shorter list padded with zeros, and the lists compared
    component by component from the left. */
module Versions {
  import opened Wrappers
  import opened Text

  /* ---------- decimal numerals ---------- */

  function DigitValue(c: char): nat
    requires IsDigit(c)
  {
    (c as int) - ('0' as int)
  }

  function DigitChar(d: nat): (c: char)
    requires d < 10
    ensures IsDigit(c) && DigitValue(c) == d
  {
    ('0' as int + d) as char
  }

  /** What Python's `int()` accepts in this model: one or more ASCII digits. */
  predicate IsNumeral(s: string)
  {
    |s| > 0 && forall i :: 0 <= i < |s| ==> IsDigit(s[i])
  }

  /** The value of a string of decimal digits, most significant first. */
  function NumeralValue(s: string): nat
    requires forall i :: 0 <= i < |s| ==> IsDigit(s[i])
    decreases |s|
  {
    if s == [] then 0 else NumeralValue(s[..|s| - 1]) * 10 + DigitValue(s[|s| - 1])
  }

  /** Leading zeros do not change the value, as with `int("02") == 2`. */
  lemma {:induction false} LeadingZeroIgnored(s: string)
    requires forall i :: 0 <= i < |s| ==> IsDigit(s[i])
    ensures NumeralValue(['0'] + s) == NumeralValue(s)
    decreases |s|
  {
    if s != [] {
      var t := ['0'] + s;
      assert t[..|t| - 1] == ['0'] + s[..|s| - 1];
      LeadingZeroIgnored(s[..|s| - 1]);
    }
  }

  /** The canonical decimal numeral of `n`; reading it back gives `n`. */
  function Numeral(n: nat): (s: string)
    ensures IsNumeral(s)
    ensures NumeralValue(s) == n
    decreases n
  {
    if n < 10 then [DigitChar(n)]
    else
      var high := Numeral(n / 10);
      var s := high + [DigitChar(n % 10)];
      assert s[..|s| - 1] == high;
      s
  }

  /* ---------- parsing and printing version strings ---------- */

  predicate AllNumerals(parts: seq<string>)
  {
    forall k :: 0 <= k < |parts| ==> IsNumeral(parts[k])
  }

  /** `[int(part) for part in v.strip().split('.')]`, or `None` where one
      part is not a numeral and Python's `int()` would raise. */
  function ParseVersion(v: string): (r: Option<seq<nat>>)
    ensures r.Some? <==> AllNumerals(Split(Strip(v), '.'))
    ensures r.Some? ==> |r.value| == |Split(Strip(v), '.')| >= 1
    ensures r.Some? ==> forall k :: 0 <= k < |r.value| ==>
              IsNumeral(Split(Strip(v), '.')[k]) && r.value[k] == NumeralValue(Split(Strip(v), '.')[k])
  {
    var parts := Split(Strip(v), '.');
    if AllNumerals(parts) then
      Some(seq(|parts|, k requires 0 <= k < |parts| => NumeralValue(parts[k])))
    else
      None
  }

  /** Prints components as canonical numerals joined by '.'. */
  function FormatVersion(v: seq<nat>): string
    requires |v| >= 1
  {
    Join(seq(|v|, k requires 0 <= k < |v| => Numeral(v[k])), '.')
  }

  /** Every non-empty list of components survives printing and parsing. */
  lemma ParseFormat(v: seq<nat>)
    requires |v| >= 1
    ensures ParseVersion(FormatVersion(v)) == Some(v)
  {
    var parts := seq(|v|, k requires 0 <= k < |v| => Numeral(v[k]));
    var s := Join(parts, '.');
    forall k | 0 <= k < |parts|
      ensures '.' !in parts[k]
    {
      assert IsNumeral(parts[k]);
    }
    SplitJoin(parts, '.');
    JoinStartsAndEndsWithDigit(parts);
    StripKeepsTrimmed(s);
    assert Split(Strip(s), '.') == parts;
    var r := ParseVersion(s);
    assert r.Some?;
    assert r.value == seq(|parts|, k requires 0 <= k < |parts| => NumeralValue(parts[k]));
    assert forall k :: 0 <= k < |v| ==> NumeralValue(parts[k]) == v[k];
    assert r.value == v;
  }

  lemma {:induction false} JoinStartsAndEndsWithDigit(parts: seq<string>)
    requires |parts| >= 1
    requires forall k :: 0 <= k < |parts| ==> IsNumeral(parts[k])
    ensures var s := Join(parts, '.'); |s| > 0 && IsDigit(s[0]) && IsDigit(s[|s| - 1])
    decreases |parts|
  {
    if |parts| > 1 {
      JoinStartsAndEndsWithDigit(parts[1..]);
    }
  }

  /* ---------- three-way comparison ---------- */

  /** Component `i` after zero padding. */
  function At(v: seq<nat>, i: nat): nat
  {
    if i < |v| then v[i] else 0
  }

  /** `max(len(v1_parts), len(v2_parts))`: the padded length. */
  function Width(a: seq<nat>, b: seq<nat>): nat
  {
    if |a| >= |b| then |a| else |b|
  }

  /** From index `i` on, the padded components agree. */
  ghost predicate SameFrom(a: seq<nat>, b: seq<nat>, i: nat)
  {
    forall j: nat :: i <= j ==> At(a, j) == At(b, j)
  }

  /** Index `k` is the first one at or after `i` where the padded components differ. */
  ghost predicate FirstDifferenceFrom(a: seq<nat>, b: seq<nat>, i: nat, k: nat)
  {
    i <= k && At(a, k) != At(b, k) && forall j: nat :: i <= j < k ==> At(a, j) == At(b, j)
  }

  /** The padded lists agree everywhere: "1.2" and "1.2.0" are the same version. */
  ghost predicate Equivalent(a: seq<nat>, b: seq<nat>)
  {
    SameFrom(a, b, 0)
  }

  /** `a` is an older version than `b`: at the first differing component, `a`'s is smaller. */
  ghost predicate Older(a: seq<nat>, b: seq<nat>)
  {
    exists k: nat :: FirstDifferenceFrom(a, b, 0, k) && At(a, k) < At(b, k)
  }

  /** The loop of `compare_versions` from index `i` on. */
  function CompareFrom(a: seq<nat>, b: seq<nat>, i: nat): (r: int)
    ensures r == -1 || r == 0 || r == 1
    ensures r == 0 <==> SameFrom(a, b, i)
    ensures r == -1 <==> exists k: nat :: FirstDifferenceFrom(a, b, i, k) && At(a, k) < At(b, k)
    ensures r == 1 <==> exists k: nat :: FirstDifferenceFrom(a, b, i, k) && At(a, k) > At(b, k)
    decreases Width(a, b) - i
  {
    if i >= Width(a, b) then 0
    else if At(a, i) < At(b, i) then
      assert FirstDifferenceFrom(a, b, i, i);
      -1
    else if At(a, i) > At(b, i) then
      assert FirstDifferenceFrom(a, b, i, i);
      1
    else
      var r := CompareFrom(a, b, i + 1);
      assert forall k: nat :: FirstDifferenceFrom(a, b, i, k) <==> FirstDifferenceFrom(a, b, i + 1, k);
      r
  }

  /** `compare_versions` on already parsed components: -1, 0 or 1, decided
      by the first index where the zero-padded components differ. */
  function Compare(a: seq<nat>, b: seq<nat>): (r: int)
    ensures r == -1 || r == 0 || r == 1
    ensures r == 0 <==> Equivalent(a, b)
    ensures r == -1 <==> Older(a, b)
    ensures r == 1 <==> Older(b, a)
  {
    var r := CompareFrom(a, b, 0);
    assert forall k: nat :: FirstDifferenceFrom(a, b, 0, k) <==> FirstDifferenceFrom(b, a, 0, k);
    r
  }

  /** Swapping the arguments negates the result. */
  lemma CompareAntisymmetric(a: seq<nat>, b: seq<nat>)
    ensures Compare(b, a) == -Compare(a, b)
  {
  }

  /** Only the padded components matter to the comparison. */
  lemma CompareDependsOnComponents(a: seq<nat>, a': seq<nat>, b: seq<nat>, b': seq<nat>)
    requires forall j: nat :: At(a, j) == At(a', j)
    requires forall j: nat :: At(b, j) == At(b', j)
    ensures Compare(a, b) == Compare(a', b')
  {
    assert forall k: nat :: FirstDifferenceFrom(a, b, 0, k) <==> FirstDifferenceFrom(a', b', 0, k);
    assert forall k: nat :: FirstDifferenceFrom(b, a, 0, k) <==> FirstDifferenceFrom(b', a', 0, k);
  }

  function Zeros(k: nat): (z: seq<nat>)
    ensures |z| == k && forall i :: 0 <= i < k ==> z[i] == 0
  {
    seq(k, i => 0)
  }

  /** Appending zero components to either side never changes the result. */
  lemma CompareIgnoresTrailingZeros(a: seq<nat>, b: seq<nat>, k: nat)
    ensures Compare(a + Zeros(k), b) == Compare(a, b)
    ensures Compare(a, b + Zeros(k)) == Compare(a, b)
  {
    assert forall j: nat :: At(a + Zeros(k), j) == At(a, j);
    assert forall j: nat :: At(b + Zeros(k), j) == At(b, j);
    CompareDependsOnComponents(a + Zeros(k), a, b, b);
    CompareDependsOnComponents(a, a, b + Zeros(k), b);
  }

  /** "At most" is transitive, and strictly so when either step is strict. */
  lemma CompareTransitive(a: seq<nat>, b: seq<nat>, c: seq<nat>)
    requires Compare(a, b) <= 0 && Compare(b, c) <= 0
    ensures Compare(a, c) <= 0
    ensures Compare(a, b) < 0 || Compare(b, c) < 0 ==> Compare(a, c) < 0
  {
    if Compare(a, b) == 0 {
      CompareDependsOnComponents(a, b, c, c);
    } else if Compare(b, c) == 0 {
      CompareDependsOnComponents(a, a, b, c);
    } else {
      var k1: nat :| FirstDifferenceFrom(a, b, 0, k1) && At(a, k1) < At(b, k1);
      var k2: nat :| FirstDifferenceFrom(b, c, 0, k2) && At(b, k2) < At(c, k2);
      var k := if k1 <= k2 then k1 else k2;
      assert FirstDifferenceFrom(a, c, 0, k) && At(a, k) < At(c, k);
    }
  }

  /* ---------- on strings ---------- */

  /** `compare_versions(v1, v2)`, or `None` when Python's `int()` would raise
      on one of the parts. */
  function CompareVersions(v1: string, v2: string): (r: Option<int>)
    ensures r.Some? <==> ParseVersion(v1).Some? && ParseVersion(v2).Some?
    ensures r.Some? ==> r.value == Compare(ParseVersion(v1).value, ParseVersion(v2).value)
  {
    match (ParseVersion(v1), ParseVersion(v2))
    case (Some(a), Some(b)) => Some(Compare(a, b))
    case _ => None
  }

  lemma CompareParsed(v1: string, v2: string, a: seq<nat>, b: seq<nat>)
    requires ParseVersion(v1) == Some(a) && ParseVersion(v2) == Some(b)
    ensures CompareVersions(v1, v2) == Some(Compare(a, b))
  {
  }

  /** A version and the same version with ".0" appended compare equal. */
  lemma TrailingZeroComponentEqual(v: seq<nat>)
    requires |v| >= 1
    ensures CompareVersions(FormatVersion(v), FormatVersion(v + [0])) == Some(0)
  {
    var s1, s2 := FormatVersion(v), FormatVersion(v + [0]);
    ParseFormat(v);
    ParseFormat(v + [0]);
    assert Compare(v, v + [0]) == 0 by {
      assert v + [0] == v + Zeros(1);
      CompareIgnoresTrailingZeros(v, v, 1);
      assert Equivalent(v, v);
    }
    CompareParsed(s1, s2, v, v + [0]);
  }

  lemma FormatOneTwo()
    ensures FormatVersion([1, 2]) == "1.2"
  {
    assert Numeral(1) == "1" && Numeral(2) == "2";
    assert seq(2, k requires 0 <= k < 2 => Numeral([1, 2][k])) == ["1", "2"];
    assert Join(["1", "2"], '.') == "1.2";
  }

  lemma FormatOneTwoZero()
    ensures FormatVersion([1, 2, 0]) == "1.2.0"
  {
    assert Numeral(0) == "0" && Numeral(1) == "1" && Numeral(2) == "2";
    assert seq(3, k requires 0 <= k < 3 => Numeral([1, 2, 0][k])) == ["1", "2", "0"];
    assert Join(["1", "2", "0"], '.') == "1.2.0";
  }

  /** The documented example: "1.2" and "1.2.0" are the same version. */
  lemma OneTwoEqualsOneTwoZero()
    ensures CompareVersions("1.2", "1.2.0") == Some(0)
  {
    TrailingZeroComponentEqual([1, 2]);
    assert [1, 2] + [0] == [1, 2, 0];
    FormatOneTwo();
    FormatOneTwoZero();
  }
}
