/**
 * String machinery shared by the version helpers and the page-text extractor:
 * the character classes of Python 2's `re` and `unicode` methods, ASCII case
 * folding, `str.split` with its inverse, `str.strip`, and subsequences.
 */
module Strings {

  // ---------------------------------------------------------------------------
  // Character classes
  // ---------------------------------------------------------------------------

  /** `[\s\xa0]`: the regex class `\s` without the UNICODE flag (ASCII space,
      tab, newline, carriage return, form feed, vertical tab) plus the
      non-breaking space that the normaliser adds to it. */
  predicate IsBodySpace(c: char) {
    c == ' ' || c == '\t' || c == '\n' || c == '\r' || c == '\U{0B}' || c == '\U{0C}' || c == '\U{A0}'
  }

  /** The characters `unicode.strip()` and `int()` treat as whitespace in
      Python 2.7 (Unicode 5.2 data). */
  predicate IsUnicodeSpace(c: char) {
    ('\t' <= c <= '\r') || ('\U{1C}' <= c <= ' ') || c == '\U{85}' || c == '\U{A0}'
    || c == '\U{1680}' || c == '\U{180E}' || ('\U{2000}' <= c <= '\U{200A}')
    || c == '\U{2028}' || c == '\U{2029}' || c == '\U{202F}' || c == '\U{205F}' || c == '\U{3000}'
  }

  predicate IsAsciiDigit(c: char) { '0' <= c <= '9' }

  /** `\w` without the UNICODE flag: ASCII letters, digits and underscore. */
  predicate IsAsciiWord(c: char) {
    ('a' <= c <= 'z') || ('A' <= c <= 'Z') || IsAsciiDigit(c) || c == '_'
  }

  /** Case folding of `re.IGNORECASE` without UNICODE: only ASCII letters fold. */
  function AsciiLower(c: char): (d: char)
    ensures 'A' <= c <= 'Z' ==> 'a' <= d <= 'z' && d as int == c as int + 32
    ensures !('A' <= c <= 'Z') ==> d == c
  {
    if 'A' <= c <= 'Z' then (c as int + 32) as char else c
  }

  /** The literal `lit` occurs, ignoring ASCII case, at position `i` of `s`. */
  predicate CiMatchAt(s: string, i: nat, lit: string) {
    i + |lit| <= |s| && forall k :: 0 <= k < |lit| ==> AsciiLower(s[i + k]) == AsciiLower(lit[k])
  }

  /** `sep` occurs somewhere inside `t`. */
  predicate Occurs(sep: string, t: string) {
    exists k :: 0 <= k && k + |sep| <= |t| && sep <= t[k..]
  }

  predicate AllUnicodeSpace(t: string) {
    forall k :: 0 <= k < |t| ==> IsUnicodeSpace(t[k])
  }

  // ---------------------------------------------------------------------------
  // Subsequences
  // ---------------------------------------------------------------------------

  /** `t` is obtained from `s` by deleting elements. */
  predicate IsSubseq<T(==)>(t: seq<T>, s: seq<T>)
    decreases |s|
  {
    if |t| == 0 then true
    else if |s| == 0 then false
    else (t[0] == s[0] && IsSubseq(t[1..], s[1..])) || IsSubseq(t, s[1..])
  }

  lemma {:induction false} SubseqDropPrefix<T>(t: seq<T>, s: seq<T>, k: nat)
    requires k <= |s| && IsSubseq(t, s[k..])
    ensures IsSubseq(t, s)
    decreases k
  {
    if k > 0 {
      assert s[1..][k - 1..] == s[k..];
      SubseqDropPrefix(t, s[1..], k - 1);
    }
  }

  lemma {:induction false} SubseqRefl<T>(s: seq<T>)
    ensures IsSubseq(s, s)
  {
    if |s| > 0 {
      SubseqRefl(s[1..]);
    }
  }

  lemma {:induction false} SubseqTransitive<T>(a: seq<T>, b: seq<T>, c: seq<T>)
    requires IsSubseq(a, b) && IsSubseq(b, c)
    ensures IsSubseq(a, c)
    decreases |c|
  {
    if |a| > 0 {
      if b[0] == c[0] && IsSubseq(b[1..], c[1..]) {
        if a[0] == b[0] && IsSubseq(a[1..], b[1..]) {
          SubseqTransitive(a[1..], b[1..], c[1..]);
        } else {
          SubseqTransitive(a, b[1..], c[1..]);
        }
      } else {
        SubseqTransitive(a, b, c[1..]);
      }
    }
  }

  // ---------------------------------------------------------------------------
  // str.split(sep) and its inverse
  // ---------------------------------------------------------------------------

  /** Python's `s.split(sep)` for a non-empty separator: scan left to right,
      cutting at each leftmost non-overlapping occurrence of `sep`; `cur` is
      the piece collected so far. */
  function SplitFrom(s: string, sep: string, cur: string): (parts: seq<string>)
    requires |sep| > 0
    ensures |parts| >= 1
    decreases |s|
  {
    if |s| == 0 then [cur]
    else if sep <= s then [cur] + SplitFrom(s[|sep|..], sep, "")
    else SplitFrom(s[1..], sep, cur + [s[0]])
  }

  function Split(s: string, sep: string): (parts: seq<string>)
    requires |sep| > 0
    ensures |parts| >= 1
  {
    SplitFrom(s, sep, "")
  }

  /** `sep.join(parts)`. */
  function Join(parts: seq<string>, sep: string): string
    requires |parts| >= 1
  {
    if |parts| == 1 then parts[0] else parts[0] + sep + Join(parts[1..], sep)
  }

  lemma JoinCons(first: string, rest: seq<string>, sep: string)
    requires |rest| >= 1
    ensures Join([first] + rest, sep) == first + sep + Join(rest, sep)
  {
    assert ([first] + rest)[1..] == rest;
  }

  lemma {:induction false} JoinSplitFrom(s: string, sep: string, cur: string)
    requires |sep| > 0
    ensures Join(SplitFrom(s, sep, cur), sep) == cur + s
    decreases |s|
  {
    if |s| == 0 {
      assert cur + s == cur;
    } else if sep <= s {
      var tail := s[|sep|..];
      var rest := SplitFrom(tail, sep, "");
      assert SplitFrom(s, sep, cur) == [cur] + rest;
      JoinSplitFrom(tail, sep, "");
      JoinCons(cur, rest, sep);
      assert s == sep + tail;
    } else {
      var cur' := cur + [s[0]];
      assert SplitFrom(s, sep, cur) == SplitFrom(s[1..], sep, cur');
      JoinSplitFrom(s[1..], sep, cur');
      assert cur' + s[1..] == cur + s;
    }
  }

  /** A last piece without the (one-character) separator is kept whole. */
  lemma {:induction false} SplitFromLastPiece(t: string, sep: string, cur: string)
    requires |sep| == 1 && sep[0] !in t
    ensures SplitFrom(t, sep, cur) == [cur + t]
    decreases |t|
  {
    if |t| == 0 {
      assert cur + t == cur;
    } else {
      assert t[0] in t;
      assert forall c :: c in t[1..] ==> c in t;
      SplitFromLastPiece(t[1..], sep, cur + [t[0]]);
      assert cur + [t[0]] + t[1..] == cur + t;
    }
  }

  /** A piece without the (one-character) separator ends at the next
      separator. */
  lemma {:induction false} SplitFromPiece(t: string, sep: string, rest: string, cur: string)
    requires |sep| == 1 && sep[0] !in t
    ensures SplitFrom(t + sep + rest, sep, cur) == [cur + t] + SplitFrom(rest, sep, "")
    decreases |t|
  {
    var s := t + sep + rest;
    if |t| == 0 {
      assert s == sep + rest && s[1..] == rest;
      assert cur + t == cur;
    } else {
      assert t[0] in t;
      assert forall c :: c in t[1..] ==> c in t;
      assert s[0] == t[0] && s[1..] == t[1..] + sep + rest;
      SplitFromPiece(t[1..], sep, rest, cur + [t[0]]);
      assert cur + [t[0]] + t[1..] == cur + t;
    }
  }

  /** `parts` cuts `s` as `SplitFrom(s, sep, cur)` must: the first piece is
      `cur` followed by the text up to the leftmost occurrence of `sep` (or
      all of `s` when there is none), and the remaining pieces are those of
      the text after that occurrence. */
  ghost predicate CutsAt(s: string, sep: string, cur: string, parts: seq<string>)
    requires |sep| > 0 && |parts| >= 1
  {
    var n := |parts[0]| - |cur|;
    |cur| <= |parts[0]| <= |cur| + |s| && parts[0] == cur + s[..n]
    && (forall j :: 0 <= j < n ==> !(sep <= s[j..]))
    && (|parts| == 1 ==> n == |s|)
    && (|parts| > 1 ==> n + |sep| <= |s| && sep <= s[n..] && parts[1..] == SplitFrom(s[n + |sep|..], sep, ""))
  }

  /** Moving one character that starts no occurrence from the text to the
      piece being collected keeps the cuts where they are. */
  lemma CutsAtStep(s: string, sep: string, cur: string, parts: seq<string>)
    requires |sep| > 0 && |parts| >= 1 && |s| > 0 && !(sep <= s)
    requires CutsAt(s[1..], sep, cur + [s[0]], parts)
    ensures CutsAt(s, sep, cur, parts)
  {
    var tail := s[1..];
    var n := |parts[0]| - |cur|;
    assert cur + [s[0]] + tail[..n - 1] == cur + s[..n];
    forall j | 0 <= j < n
      ensures !(sep <= s[j..])
    {
      if j > 0 {
        assert tail[j - 1..] == s[j..];
      }
    }
    if |parts| > 1 {
      assert tail[n - 1..] == s[n..];
      assert tail[n - 1 + |sep|..] == s[n + |sep|..];
    }
  }

  lemma {:induction false} SplitFromCuts(s: string, sep: string, cur: string)
    requires |sep| > 0
    ensures CutsAt(s, sep, cur, SplitFrom(s, sep, cur))
    decreases |s|
  {
    if |s| == 0 {
      assert cur + s[..0] == cur;
    } else if sep <= s {
      assert s[..0] == [] && s[0..] == s;
      assert cur + s[..0] == cur;
    } else {
      var cur' := cur + [s[0]];
      SplitFromCuts(s[1..], sep, cur');
      assert SplitFrom(s, sep, cur) == SplitFrom(s[1..], sep, cur');
      CutsAtStep(s, sep, cur, SplitFrom(s, sep, cur));
    }
  }

  /** `s.split(sep)` cuts at the leftmost occurrence, then splits the rest:
      this pins the pieces down even when `sep` overlaps
      itself. */
  lemma SplitCuts(s: string, sep: string)
    requires |sep| > 0
    ensures var parts := Split(s, sep); var n := |parts[0]|;
      n <= |s| && parts[0] == s[..n]
      && (forall j :: 0 <= j < n ==> !(sep <= s[j..]))
      && (|parts| == 1 ==> n == |s|)
      && (|parts| > 1 ==> n + |sep| <= |s| && sep <= s[n..] && parts[1..] == Split(s[n + |sep|..], sep))
  {
    SplitFromCuts(s, sep, "");
    assert "" + s[..|Split(s, sep)[0]|] == s[..|Split(s, sep)[0]|];
    assert CutsAt(s, sep, "", Split(s, sep));
  }

  /** Splitting loses nothing: joining the pieces with the separator gives
      back the original string. */
  lemma JoinSplit(s: string, sep: string)
    requires |sep| > 0
    ensures Join(Split(s, sep), sep) == s
  {
    JoinSplitFrom(s, sep, "");
  }

  lemma {:induction false} SplitFromPiecesAvoidSep(s: string, sep: string, cur: string)
    requires |sep| > 0
    requires forall m :: 0 <= m < |cur| ==> !(sep <= cur[m..] + s)
    ensures forall k :: 0 <= k < |SplitFrom(s, sep, cur)| ==> !Occurs(sep, SplitFrom(s, sep, cur)[k])
    decreases |s|
  {
    assert !Occurs(sep, cur);
    if |s| == 0 {
    } else if sep <= s {
      SplitFromPiecesAvoidSep(s[|sep|..], sep, "");
    } else {
      var cur' := cur + [s[0]];
      forall m | 0 <= m < |cur'|
        ensures !(sep <= cur'[m..] + s[1..])
      {
        if m < |cur| {
          assert cur'[m..] + s[1..] == cur[m..] + s;
        } else {
          assert cur'[m..] + s[1..] == s;
        }
      }
      SplitFromPiecesAvoidSep(s[1..], sep, cur');
    }
  }

  /** The separator is consumed by the cut: no piece contains it. */
  lemma SplitPiecesAvoidSep(s: string, sep: string)
    requires |sep| > 0
    ensures forall k :: 0 <= k < |Split(s, sep)| ==> !Occurs(sep, Split(s, sep)[k])
  {
    SplitFromPiecesAvoidSep(s, sep, "");
  }

  // ---------------------------------------------------------------------------
  // Filtering empty strings: the `if i` of a list comprehension
  // ---------------------------------------------------------------------------

  function NonEmpty(parts: seq<string>): (r: seq<string>)
    ensures IsSubseq(r, parts)
    ensures forall k :: 0 <= k < |r| ==> r[k] != ""
    ensures |r| == |parts| - multiset(parts)[""]
  {
    if |parts| == 0 then []
    else
      var rest := NonEmpty(parts[1..]);
      assert parts == [parts[0]] + parts[1..];
      if parts[0] == "" then
        assert rest == [] || IsSubseq(rest, parts[1..]);
        rest
      else
        assert ([parts[0]] + rest)[1..] == rest;
        [parts[0]] + rest
  }

  // ---------------------------------------------------------------------------
  // unicode.strip() and newline replacement
  // ---------------------------------------------------------------------------

  /** The first position at or after `i` that does not hold whitespace
      (`|t|` if there is none). */
  function SpaceEnd(t: string, i: nat): (r: nat)
    requires i <= |t|
    ensures i <= r <= |t|
    ensures forall k :: i <= k < r ==> IsUnicodeSpace(t[k])
    ensures r == |t| || !IsUnicodeSpace(t[r])
    decreases |t| - i
  {
    if i == |t| || !IsUnicodeSpace(t[i]) then i else SpaceEnd(t, i + 1)
  }

  /** The position just after the last non-whitespace character in
      `t[lo..j]` (`lo` if there is none). */
  function SpaceStart(t: string, lo: nat, j: nat): (r: nat)
    requires lo <= j <= |t|
    ensures lo <= r <= j
    ensures forall k :: r <= k < j ==> IsUnicodeSpace(t[k])
    ensures r == lo || !IsUnicodeSpace(t[r - 1])
    decreases j
  {
    if j == lo || !IsUnicodeSpace(t[j - 1]) then j else SpaceStart(t, lo, j - 1)
  }

  /** `t.strip()`: the slice of `t` between its leading and its trailing
      whitespace. */
  function Strip(t: string): (r: string)
    ensures SpaceEnd(t, 0) + |r| <= |t|
    ensures r == t[SpaceEnd(t, 0)..SpaceEnd(t, 0) + |r|]
    ensures forall k :: SpaceEnd(t, 0) + |r| <= k < |t| ==> IsUnicodeSpace(t[k])
    ensures r == [] || (!IsUnicodeSpace(r[0]) && !IsUnicodeSpace(r[|r| - 1]))
    ensures r == [] <==> AllUnicodeSpace(t)
  {
    var i := SpaceEnd(t, 0);
    var j := SpaceStart(t, i, |t|);
    t[i..j]
  }

  /** `t.replace('\n', ' ')`. */
  function ReplaceNewlines(t: string): (r: string)
    ensures |r| == |t|
    ensures '\n' !in r
    ensures forall k :: 0 <= k < |t| ==> r[k] == t[k] || (t[k] == '\n' && r[k] == ' ')
  {
    seq(|t|, k requires 0 <= k < |t| => if t[k] == '\n' then ' ' else t[k])
  }
}
