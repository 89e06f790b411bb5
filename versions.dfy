/**
 * Manual-version helpers: normalising a version string to `vX.Y.Z` form, and
 * sorting release numbers by their (major, minor, patch) triple with three
 * stable sort passes, as the scraper does before walking old manuals.
 */
module Versions {
  import opened Wrappers
  import opened Strings
  import opened StableSort

  // ---------------------------------------------------------------------------
  // check_version_str
  // ---------------------------------------------------------------------------

  /** A version string is "current" or carries the `v` prefix; any other
      string gets the prefix added in front. */
  function CheckVersionStr(version: string): (r: string)
    ensures r == "current" || (|r| > 0 && r[0] == 'v')
    ensures |version| <= |r| <= |version| + 1 && r[|r| - |version|..] == version
    ensures r == version <==> (version == "current" || (|version| > 0 && version[0] == 'v'))
    ensures r != version ==> r == ['v'] + version
  {
    if !(|version| > 0 && version[0] == 'v') && version != "current" then "v" + version else version
  }

  lemma CheckVersionStrIdempotent(version: string)
    ensures CheckVersionStr(CheckVersionStr(version)) == CheckVersionStr(version)
  {
  }

  // ---------------------------------------------------------------------------
  // int() on one dotted field
  // ---------------------------------------------------------------------------

  predicate IsDigits(ds: string) {
    |ds| > 0 && forall k :: 0 <= k < |ds| ==> IsAsciiDigit(ds[k])
  }

  function DigitsValue(ds: string): nat
    requires forall k :: 0 <= k < |ds| ==> IsAsciiDigit(ds[k])
  {
    if |ds| == 0 then 0
    else
      assert IsAsciiDigit(ds[|ds| - 1]);
      10 * DigitsValue(ds[..|ds| - 1]) + (ds[|ds| - 1] as int - '0' as int)
  }

  /** Python's `int(t)` in base 10 on a `unicode` field: surrounding
      whitespace, an optional sign, whitespace again (CPython skips it after
      the sign too), then ASCII digits. `None` stands for the ValueError it
      raises. */
  function ParseInt(t: string): (r: Option<int>)
    ensures r.Some? <==> IsDigits(Strip(t)) || IsSignedDigits(Strip(t))
    ensures IsDigits(Strip(t)) ==> r == Some(DigitsValue(Strip(t)))
    ensures IsSignedDigits(Strip(t)) ==>
      var u := Strip(t);
      var magnitude: int := DigitsValue(u[SpaceEnd(u, 1)..]);
      r == Some(if u[0] == '-' then -magnitude else magnitude)
  {
    var u := Strip(t);
    if |u| > 0 && (u[0] == '+' || u[0] == '-') then
      var digits := u[SpaceEnd(u, 1)..];
      if IsDigits(digits) then
        var magnitude: int := DigitsValue(digits);
        Some(if u[0] == '-' then -magnitude else magnitude)
      else None
    else if IsDigits(u) then Some(DigitsValue(u))
    else None
  }

  /** A sign, optional whitespace, then digits. */
  predicate IsSignedDigits(u: string) {
    |u| > 0 && (u[0] == '+' || u[0] == '-') && IsDigits(u[SpaceEnd(u, 1)..])
  }

  /** The decimal spelling of a natural number, as `str(n)` writes it. */
  function DecimalString(n: nat): (ds: string)
    ensures IsDigits(ds)
  {
    if n < 10 then [('0' as int + n) as char]
    else DecimalString(n / 10) + [('0' as int + n % 10) as char]
  }

  lemma {:induction false} DigitsValueOfDecimal(n: nat)
    ensures DigitsValue(DecimalString(n)) == n
  {
    if n >= 10 {
      var ds := DecimalString(n);
      assert ds[..|ds| - 1] == DecimalString(n / 10);
      DigitsValueOfDecimal(n / 10);
    }
  }

  /** A numeral has no surrounding whitespace to strip. */
  lemma StripDigits(ds: string)
    requires IsDigits(ds)
    ensures Strip(ds) == ds
  {
    assert !IsUnicodeSpace(ds[0]) && !IsUnicodeSpace(ds[|ds| - 1]);
    StripUnchanged(ds);
  }

  /** `int(sign + gap + str(n))` is `n` or `-n`, whatever whitespace `gap`
      separates the sign from the digits. */
  lemma ParseIntOfSigned(n: nat, gap: string, negative: bool)
    requires AllUnicodeSpace(gap)
    ensures ParseInt([if negative then '-' else '+'] + gap + DecimalString(n))
         == Some(if negative then -(n as int) else n as int)
  {
    DigitsValueOfDecimal(n);
    ParseSignedDigits(if negative then '-' else '+', gap, DecimalString(n));
  }

  lemma ParseSignedDigits(sign: char, gap: string, ds: string)
    requires (sign == '+' || sign == '-') && AllUnicodeSpace(gap) && IsDigits(ds)
    ensures ParseInt([sign] + gap + ds) == Some(if sign == '-' then -(DigitsValue(ds) as int) else DigitsValue(ds) as int)
  {
    SignedLayout(sign, gap, ds);
    ParseSignedNumeral([sign] + gap + ds, |gap|, ds);
  }

  /** Where the parts of `sign + gap + ds` sit. */
  lemma SignedLayout(sign: char, gap: string, ds: string)
    requires AllUnicodeSpace(gap)
    ensures var t := [sign] + gap + ds;
      |t| == 1 + |gap| + |ds| && t[0] == sign && t[1 + |gap|..] == ds
      && forall k :: 1 <= k < 1 + |gap| ==> IsUnicodeSpace(t[k])
  {
    var t := [sign] + gap + ds;
    forall k | 1 <= k < 1 + |gap|
      ensures IsUnicodeSpace(t[k])
    {
      assert t[k] == gap[k - 1];
    }
    assert t[1 + |gap|..] == ds;
  }

  /** A sign, whitespace, then digits read as the signed value of the
      digits. */
  lemma ParseSignedNumeral(t: string, gapLength: nat, ds: string)
    requires IsDigits(ds) && |t| == 1 + gapLength + |ds| && t[1 + gapLength..] == ds
    requires t[0] == '+' || t[0] == '-'
    requires forall k :: 1 <= k < 1 + gapLength ==> IsUnicodeSpace(t[k])
    ensures ParseInt(t) == Some(if t[0] == '-' then -(DigitsValue(ds) as int) else DigitsValue(ds) as int)
  {
    SignedNumeral(t, gapLength, ds);
    assert IsSignedDigits(Strip(t));
  }

  /** A sign, whitespace, then digits: nothing to strip, and the digits start
      where the whitespace ends. */
  lemma SignedNumeral(t: string, gapLength: nat, ds: string)
    requires IsDigits(ds) && |t| == 1 + gapLength + |ds| && t[1 + gapLength..] == ds
    requires t[0] == '+' || t[0] == '-'
    requires forall k :: 1 <= k < 1 + gapLength ==> IsUnicodeSpace(t[k])
    ensures Strip(t) == t && SpaceEnd(t, 1) == 1 + gapLength
  {
    assert t[|t| - 1] == ds[|ds| - 1];
    StripUnchanged(t);
    assert t[1 + gapLength] == ds[0];
  }

  /** Text that neither starts nor ends with whitespace has nothing to
      strip. */
  lemma StripUnchanged(t: string)
    requires |t| > 0 && !IsUnicodeSpace(t[0]) && !IsUnicodeSpace(t[|t| - 1])
    ensures Strip(t) == t
  {
    assert SpaceEnd(t, 0) == 0;
    var r := Strip(t);
    assert r != [];
  }

  /** `int(str(n)) == n`: the parser reads back every decimal numeral. */
  lemma ParseIntOfDecimal(n: nat)
    ensures ParseInt(DecimalString(n)) == Some(n)
  {
    var ds := DecimalString(n);
    DigitsValueOfDecimal(n);
    StripDigits(ds);
  }

  // ---------------------------------------------------------------------------
  // Version fields and their order
  // ---------------------------------------------------------------------------

  /** `x.replace('v', '')`. */
  function StripV(x: string): (r: string)
    ensures 'v' !in r
    ensures IsSubseq(r, x)
    ensures |r| == |x| - multiset(x)['v']
  {
    if |x| == 0 then ""
    else
      var rest := StripV(x[1..]);
      assert x == [x[0]] + x[1..];
      if x[0] == 'v' then
        assert rest == [] || IsSubseq(rest, x[1..]);
        rest
      else
        assert ([x[0]] + rest)[1..] == rest;
        [x[0]] + rest
  }

  /** `int(x.split('.')[f])`; `None` when the field is missing (IndexError)
      or is not a number (ValueError). */
  function VersionField(x: string, f: nat): (r: Option<int>)
    ensures r.Some? ==> f < |Split(x, ".")|
    ensures f < |Split(x, ".")| ==> r == ParseInt(Split(x, ".")[f])
  {
    var parts := Split(x, ".");
    if f < |parts| then ParseInt(parts[f]) else None
  }

  /** The three sort keys can all be computed. */
  predicate WellFormedVersion(x: string)
    ensures WellFormedVersion(x) ==> |Split(x, ".")| >= 3
  {
    VersionField(x, 0).Some? && VersionField(x, 1).Some? && VersionField(x, 2).Some?
  }

  /** `[x.replace('v', '') for x in version_list]`. */
  function StripEveryV(versionList: seq<string>): (r: seq<string>)
    ensures |r| == |versionList|
    ensures forall k :: 0 <= k < |r| ==> r[k] == StripV(versionList[k]) && 'v' !in r[k]
  {
    seq(|versionList|, k requires 0 <= k < |versionList| => StripV(versionList[k]))
  }

  /** The sort key of field `f`; only ever read for well-formed entries. */
  function VersionKey(x: string, f: nat): (n: int)
    ensures VersionField(x, f).Some? ==> VersionField(x, f) == Some(n)
  {
    match VersionField(x, f)
    case Some(n) => n
    case None => 0
  }

  /** The (major, minor, patch) sort key of an entry. */
  function VersionTriple(x: string): (t: (int, int, int))
  {
    Triple(VersionKey, x)
  }

  /** The release spelled `A.B.C`. */
  function VersionString(major: nat, minor: nat, patch: nat): string {
    DecimalString(major) + "." + DecimalString(minor) + "." + DecimalString(patch)
  }

  lemma NoDotInDigits(ds: string)
    requires IsDigits(ds)
    ensures '.' !in ds
  {
  }

  /** `"A.B.C".split('.')` gives back the three numerals. */
  lemma SplitVersionString(major: nat, minor: nat, patch: nat)
    ensures Split(VersionString(major, minor, patch), ".")
         == [DecimalString(major), DecimalString(minor), DecimalString(patch)]
  {
    var a, b, c := DecimalString(major), DecimalString(minor), DecimalString(patch);
    NoDotInDigits(a);
    NoDotInDigits(b);
    NoDotInDigits(c);
    SplitFromLastPiece(c, ".", "");
    SplitFromPiece(b, ".", c, "");
    assert a + "." + b + "." + c == a + "." + (b + "." + c);
    SplitFromPiece(a, ".", b + "." + c, "");
    assert "" + a == a && "" + b == b && "" + c == c;
  }

  lemma VersionFieldOfNumeral(x: string, f: nat, n: nat)
    requires f < |Split(x, ".")| && Split(x, ".")[f] == DecimalString(n)
    ensures VersionField(x, f) == Some(n) && VersionKey(x, f) == n
  {
    ParseIntOfDecimal(n);
  }

  /** Every release `A.B.C` is well formed and sorts by the triple
      `(A, B, C)` it spells. */
  lemma VersionTripleOfString(major: nat, minor: nat, patch: nat)
    ensures WellFormedVersion(VersionString(major, minor, patch))
    ensures VersionTriple(VersionString(major, minor, patch)) == (major, minor, patch)
  {
    var x := VersionString(major, minor, patch);
    SplitVersionString(major, minor, patch);
    VersionFieldOfNumeral(x, 0, major);
    VersionFieldOfNumeral(x, 1, minor);
    VersionFieldOfNumeral(x, 2, patch);
  }

  lemma {:induction false} StripVWithoutV(x: string)
    requires 'v' !in x
    ensures StripV(x) == x
  {
    if |x| > 0 {
      assert x[0] in x;
      assert forall c :: c in x[1..] ==> c in x;
      StripVWithoutV(x[1..]);
      assert x == [x[0]] + x[1..];
    }
  }

  /** The entry for release `A.B.C` loses nothing to the `v` stripping, is
      well formed and sorts by `(A, B, C)`. */
  lemma ReleaseEntry(x: string, major: nat, minor: nat, patch: nat)
    requires x == VersionString(major, minor, patch)
    ensures StripV(x) == x && WellFormedVersion(x) && VersionTriple(x) == (major, minor, patch)
  {
    VersionTripleOfString(major, minor, patch);
    assert forall c :: c in x ==> IsAsciiDigit(c) || c == '.';
    StripVWithoutV(x);
  }

  // ---------------------------------------------------------------------------
  // sort_versions
  // ---------------------------------------------------------------------------

  /** `sort_versions(version_list, reverse)`: every `v` is removed from each
      entry, then the list is sorted stably on patch, on minor and on major
      number. `None` stands for the IndexError or ValueError raised when an
      entry lacks one of the three numeric fields. On success the result is a
      permutation of the stripped entries (`origin[k]` is the input position of
      result slot `k`), ordered by (major, minor, patch) — descending when
      `reverse` — with entries of equal triple in their input order. */
  method SortVersions(versionList: seq<string>, reverse: bool)
    returns (sorted: Option<seq<string>>, ghost origin: seq<nat>)
    ensures sorted.None? <==> exists k :: 0 <= k < |versionList| && !WellFormedVersion(StripV(versionList[k]))
    ensures sorted.Some? ==> |sorted.value| == |versionList| == |origin|
    ensures sorted.Some? ==>
      forall k :: 0 <= k < |origin| ==> origin[k] < |versionList| && sorted.value[k] == StripV(versionList[origin[k]])
    ensures sorted.Some? ==> forall i, j :: 0 <= i < j < |origin| ==> origin[i] != origin[j]
    ensures sorted.Some? ==> multiset(sorted.value) == multiset(StripEveryV(versionList))
    ensures sorted.Some? ==>
      forall i, j :: 0 <= i < j < |sorted.value| ==> InOrder(VersionTriple(sorted.value[i]), VersionTriple(sorted.value[j]), reverse)
    ensures sorted.Some? ==>
      forall i, j :: 0 <= i < j < |sorted.value| && VersionTriple(sorted.value[i]) == VersionTriple(sorted.value[j])
        ==> origin[i] < origin[j]
  {
    var stripped := StripEveryV(versionList);
    if exists k | 0 <= k < |stripped| :: !WellFormedVersion(stripped[k]) {
      ghost var k :| 0 <= k < |stripped| && !WellFormedVersion(stripped[k]);
      assert stripped[k] == StripV(versionList[k]);
      return None, [];
    }
    forall k | 0 <= k < |versionList|
      ensures WellFormedVersion(StripV(versionList[k]))
    {
      assert stripped[k] == StripV(versionList[k]);
    }
    var result;
    result, origin := SortByKey(stripped, VersionKey, reverse);
    sorted := Some(result);
  }
}
