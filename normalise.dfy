/**
 * The clean-up applied to a command page's body text before any field is
 * searched for: three regular-expression substitutions, applied in turn,
 *
 *   1. `\n\n+`          -> `\n`   (runs of blank lines)
 *   2. `\n[\s\xa0]+`    -> `\n`   (whitespace after a newline)
 *   3. `[\s\xa0]+\n`    -> `\n`   (whitespace before a newline)
 *
 * where `\s` is the ASCII class of Python 2's `re` without the UNICODE flag.
 * Each substitution scans left to right and replaces, at each position where
 * the pattern matches, the longest match (every pattern here is greedy and
 * its greedy match is its longest one), then carries on after it.
 */
module BodyText {
  import opened Strings

  // ---------------------------------------------------------------------------
  // The three patterns
  // ---------------------------------------------------------------------------

  datatype Pattern =
    | BlankLines          // \n\n+
    | SpaceAfterNewline   // \n[\s\xa0]+
    | SpaceBeforeNewline  // [\s\xa0]+\n

  /** `s[..k]` is a match of pattern `p`. */
  predicate IsMatch(p: Pattern, s: string, k: nat) {
    2 <= k <= |s| &&
    match p
    case BlankLines => forall j :: 0 <= j < k ==> s[j] == '\n'
    case SpaceAfterNewline => s[0] == '\n' && forall j :: 1 <= j < k ==> IsBodySpace(s[j])
    case SpaceBeforeNewline => (forall j :: 0 <= j < k - 1 ==> IsBodySpace(s[j])) && s[k - 1] == '\n'
  }

  /** Number of whitespace characters at the start of `s`. */
  function SpaceRun(s: string): (n: nat)
    ensures n <= |s|
    ensures forall j :: 0 <= j < n ==> IsBodySpace(s[j])
    ensures n == |s| || !IsBodySpace(s[n])
  {
    if |s| == 0 || !IsBodySpace(s[0]) then 0 else 1 + SpaceRun(s[1..])
  }

  /** Number of newlines at the start of `s`. */
  function NewlineRun(s: string): (n: nat)
    ensures n <= |s|
    ensures forall j :: 0 <= j < n ==> s[j] == '\n'
    ensures n == |s| || s[n] != '\n'
  {
    if |s| == 0 || s[0] != '\n' then 0 else 1 + NewlineRun(s[1..])
  }

  /** The last position `m` with `1 <= m < k` holding a newline, or 0 if
      there is none. */
  function LastNewline(s: string, k: nat): (m: nat)
    requires k <= |s|
    ensures m < k || m == 0
    ensures m > 0 ==> s[m] == '\n'
    ensures forall j :: m < j < k && j >= 1 ==> s[j] != '\n'
  {
    if k <= 1 then 0
    else if s[k - 1] == '\n' then k - 1
    else LastNewline(s, k - 1)
  }

  /** Length of the match of `p` at the start of `s`, 0 when there is none:
      the longest prefix of `s` that matches, which is also the one the
      greedy regular expression finds. */
  function MatchLength(p: Pattern, s: string): (k: nat)
    ensures k <= |s|
    ensures k > 0 ==> IsMatch(p, s, k)
    ensures forall j :: k < j <= |s| ==> !IsMatch(p, s, j)
  {
    match p
    case BlankLines =>
      var n := NewlineRun(s);
      if n >= 2 then n else 0
    case SpaceAfterNewline =>
      if |s| >= 2 && s[0] == '\n' && IsBodySpace(s[1]) then 1 + SpaceRun(s[1..]) else 0
    case SpaceBeforeNewline =>
      var m := LastNewline(s, SpaceRun(s));
      if m > 0 then m + 1 else 0
  }

  /** Every match is whitespace and holds a newline (at its first position,
      or at its last for the third pattern). */
  lemma MatchIsSpace(p: Pattern, s: string, k: nat)
    requires IsMatch(p, s, k)
    ensures forall j :: 0 <= j < k ==> IsBodySpace(s[j])
    ensures s[if p == SpaceBeforeNewline then k - 1 else 0] == '\n'
  {
  }

  // ---------------------------------------------------------------------------
  // re.sub
  // ---------------------------------------------------------------------------

  /** `re.sub(p, '\n', s)`. */
  function Substitute(p: Pattern, s: string): (r: string)
    ensures |r| <= |s|
    ensures r == "" <==> s == ""
    decreases |s|
  {
    if |s| == 0 then ""
    else
      var k := MatchLength(p, s);
      if k > 0 then "\n" + Substitute(p, s[k..])
      else [s[0]] + Substitute(p, s[1..])
  }

  /** The three substitutions of the page clean-up, in order. */
  function Normalise(body: string): (r: string)
    ensures |r| <= |body|
    ensures r == "" <==> body == ""
  {
    Substitute(SpaceBeforeNewline, Substitute(SpaceAfterNewline, Substitute(BlankLines, body)))
  }

  // ---------------------------------------------------------------------------
  // What the clean-up guarantees
  // ---------------------------------------------------------------------------

  /** No newline is followed by whitespace (so in particular no blank line
      remains). */
  predicate NoSpaceAfterNewline(s: string) {
    forall j :: 0 <= j < |s| - 1 && s[j] == '\n' ==> !IsBodySpace(s[j + 1])
  }

  /** No newline is preceded by whitespace. */
  predicate NoSpaceBeforeNewline(s: string) {
    forall j :: 1 <= j < |s| && s[j] == '\n' ==> !IsBodySpace(s[j - 1])
  }

  predicate Clean(s: string) {
    NoSpaceAfterNewline(s) && NoSpaceBeforeNewline(s)
  }

  /** The characters of `s` that are not whitespace, in order. */
  function Visible(s: string): string {
    if |s| == 0 then ""
    else (if IsBodySpace(s[0]) then "" else [s[0]]) + Visible(s[1..])
  }

  /** A substitution starting on a visible character copies it. */
  lemma {:induction false} SubstituteFirst(p: Pattern, s: string)
    requires |s| > 0 && !IsBodySpace(s[0])
    ensures Substitute(p, s) == [s[0]] + Substitute(p, s[1..])
  {
    if MatchLength(p, s) > 0 {
      MatchIsSpace(p, s, MatchLength(p, s));
    }
  }

  /** The second substitution leaves no whitespace after any newline. */
  lemma {:induction false} SpaceAfterNewlineRemoved(s: string)
    ensures NoSpaceAfterNewline(Substitute(SpaceAfterNewline, s))
    decreases |s|
  {
    var p := SpaceAfterNewline;
    if |s| > 0 {
      var k := MatchLength(p, s);
      if k > 0 {
        var rest := s[k..];
        SpaceAfterNewlineRemoved(rest);
        if |rest| > 0 {
          SubstituteFirst(p, rest);
        }
      } else {
        SpaceAfterNewlineRemoved(s[1..]);
        if s[0] == '\n' && |s| >= 2 {
          SubstituteFirst(p, s[1..]);
        }
      }
    }
  }

  /** On text without whitespace after newlines, a match of the third pattern
      is the whole whitespace run it starts. */
  lemma SpaceBeforeNewlineMatchIsRun(s: string)
    requires NoSpaceAfterNewline(s) && MatchLength(SpaceBeforeNewline, s) > 0
    ensures MatchLength(SpaceBeforeNewline, s) == SpaceRun(s)
  {
    var k := MatchLength(SpaceBeforeNewline, s);
    MatchIsSpace(SpaceBeforeNewline, s, k);
    SpaceRunAtLeast(s, k);
    assert k < |s| ==> !IsBodySpace(s[k]);
  }

  lemma {:induction false} SpaceRunAtLeast(s: string, k: nat)
    requires k <= |s| && forall j :: 0 <= j < k ==> IsBodySpace(s[j])
    ensures k <= SpaceRun(s)
  {
    if k > 0 {
      SpaceRunAtLeast(s[1..], k - 1);
    }
  }

  /** A whitespace character in front of a newline, or in front of a match of
      the third pattern, starts a match itself. */
  lemma SpaceBeforeNewlineExtends(s: string)
    requires |s| >= 2 && IsBodySpace(s[0])
    requires s[1] == '\n' || MatchLength(SpaceBeforeNewline, s[1..]) > 0
    ensures MatchLength(SpaceBeforeNewline, s) > 0
  {
    var p := SpaceBeforeNewline;
    if s[1] == '\n' {
      assert IsMatch(p, s, 2);
    } else {
      var k := MatchLength(p, s[1..]);
      assert IsMatch(p, s, k + 1);
    }
  }

  /** The third substitution, on text the second one has produced, leaves no
      whitespace on either side of any newline; and its result starts with a
      newline only where the text did or where a match starts. */
  lemma {:induction false} SpaceBeforeNewlineRemoved(s: string)
    requires NoSpaceAfterNewline(s)
    ensures Clean(Substitute(SpaceBeforeNewline, s))
    ensures |Substitute(SpaceBeforeNewline, s)| > 0 && Substitute(SpaceBeforeNewline, s)[0] == '\n'
      ==> s[0] == '\n' || MatchLength(SpaceBeforeNewline, s) > 0
    decreases |s|
  {
    var p := SpaceBeforeNewline;
    if |s| > 0 {
      var k := MatchLength(p, s);
      if k > 0 {
        SpaceBeforeNewlineMatchIsRun(s);
        var rest := s[k..];
        NoSpaceAfterNewlineSuffix(s, k);
        SpaceBeforeNewlineRemoved(rest);
        if |rest| > 0 {
          SubstituteFirst(p, rest);
        }
        CleanCons('\n', Substitute(p, rest));
      } else {
        var rest := s[1..];
        NoSpaceAfterNewlineSuffix(s, 1);
        SpaceBeforeNewlineRemoved(rest);
        var r' := Substitute(p, rest);
        if s[0] == '\n' && |rest| > 0 {
          SubstituteFirst(p, rest);
        }
        if IsBodySpace(s[0]) && |r'| > 0 && r'[0] == '\n' {
          SpaceBeforeNewlineExtends(s);
          assert false;
        }
        CleanCons(s[0], r');
      }
    }
  }

  lemma NoSpaceAfterNewlineSuffix(s: string, k: nat)
    requires k <= |s| && NoSpaceAfterNewline(s)
    ensures NoSpaceAfterNewline(s[k..])
  {
    assert forall j :: 0 <= j < |s| - k ==> s[k..][j] == s[k + j];
  }

  /** A character put in front of clean text keeps it clean when it is not a
      newline followed by whitespace, nor whitespace followed by a newline. */
  lemma CleanCons(c: char, r: string)
    requires Clean(r)
    requires c == '\n' && |r| > 0 ==> !IsBodySpace(r[0])
    requires IsBodySpace(c) && |r| > 0 ==> r[0] != '\n'
    ensures Clean([c] + r)
  {
    var t := [c] + r;
    assert forall j :: 1 <= j < |t| ==> t[j] == r[j - 1];
  }

  /** Normalised text has no whitespace next to any newline. */
  lemma NormaliseIsClean(body: string)
    ensures Clean(Normalise(body))
  {
    var t := Substitute(SpaceAfterNewline, Substitute(BlankLines, body));
    SpaceAfterNewlineRemoved(Substitute(BlankLines, body));
    SpaceBeforeNewlineRemoved(t);
  }

  /** Every match has whitespace next to a newline. */
  lemma MatchBreaksClean(p: Pattern, s: string, k: nat)
    requires IsMatch(p, s, k)
    ensures !Clean(s)
  {
    if p == SpaceBeforeNewline {
      assert s[k - 1] == '\n' && IsBodySpace(s[k - 2]);
    } else {
      assert s[0] == '\n' && IsBodySpace(s[1]);
    }
  }

  /** Clean text holds no match of any of the patterns, so every
      substitution leaves it as it is. */
  lemma {:induction false} SubstituteClean(p: Pattern, s: string)
    requires Clean(s)
    ensures Substitute(p, s) == s
    decreases |s|
  {
    if |s| > 0 {
      var k := MatchLength(p, s);
      if k > 0 {
        MatchBreaksClean(p, s, k);
        assert false;
      }
      var rest := s[1..];
      assert Clean(rest) by {
        assert forall j :: 0 <= j < |rest| ==> rest[j] == s[1 + j];
      }
      SubstituteClean(p, rest);
      assert s == [s[0]] + rest;
    }
  }

  /** Normalisation changes exactly the text that is not clean. */
  lemma NormaliseFixedPoints(body: string)
    ensures Normalise(body) == body <==> Clean(body)
  {
    NormaliseIsClean(body);
    if Clean(body) {
      SubstituteClean(BlankLines, body);
      SubstituteClean(SpaceAfterNewline, body);
      SubstituteClean(SpaceBeforeNewline, body);
    }
  }

  /** Normalising twice is normalising once. */
  lemma NormaliseIdempotent(body: string)
    ensures Normalise(Normalise(body)) == Normalise(body)
  {
    NormaliseIsClean(body);
    NormaliseFixedPoints(Normalise(body));
  }

  // ---------------------------------------------------------------------------
  // It only deletes whitespace
  // ---------------------------------------------------------------------------

  lemma {:induction false} SubstituteSubseq(p: Pattern, s: string)
    ensures IsSubseq(Substitute(p, s), s)
    decreases |s|
  {
    if |s| > 0 {
      var k := MatchLength(p, s);
      if k > 0 {
        SubstituteSubseq(p, s[k..]);
        MatchKeepsNewline(p, s, k, Substitute(p, s[k..]));
      } else {
        SubstituteSubseq(p, s[1..]);
        assert ([s[0]] + Substitute(p, s[1..]))[1..] == Substitute(p, s[1..]);
      }
    }
  }

  /** A match is replaced by one of its own newlines. */
  lemma MatchKeepsNewline(p: Pattern, s: string, k: nat, x: string)
    requires 0 < k == MatchLength(p, s) && IsSubseq(x, s[k..])
    ensures IsSubseq("\n" + x, s)
  {
    MatchIsSpace(p, s, k);
    // the kept newline is the one at `e`
    var e := if p == SpaceBeforeNewline then k - 1 else 0;
    var u := s[e..];
    assert u[1..][k - e - 1..] == s[k..];
    SubseqDropPrefix(x, u[1..], k - e - 1);
    assert ("\n" + x)[1..] == x;
    assert IsSubseq("\n" + x, u);
    SubseqDropPrefix("\n" + x, s, e);
  }

  /** The output of the clean-up is the input with characters deleted. */
  lemma NormaliseSubseq(body: string)
    ensures IsSubseq(Normalise(body), body)
  {
    var t1 := Substitute(BlankLines, body);
    var t2 := Substitute(SpaceAfterNewline, t1);
    SubstituteSubseq(BlankLines, body);
    SubstituteSubseq(SpaceAfterNewline, t1);
    SubstituteSubseq(SpaceBeforeNewline, t2);
    SubseqTransitive(Normalise(body), t2, t1);
    SubseqTransitive(Normalise(body), t1, body);
  }

  lemma {:induction false} VisibleSkipsSpace(s: string, k: nat)
    requires k <= |s| && forall j :: 0 <= j < k ==> IsBodySpace(s[j])
    ensures Visible(s) == Visible(s[k..])
    decreases k
  {
    if k > 0 {
      assert s[1..][k - 1..] == s[k..];
      VisibleSkipsSpace(s[1..], k - 1);
    }
  }

  lemma {:induction false} SubstituteKeepsVisible(p: Pattern, s: string)
    ensures Visible(Substitute(p, s)) == Visible(s)
    decreases |s|
  {
    if |s| > 0 {
      var k := MatchLength(p, s);
      if k > 0 {
        MatchIsSpace(p, s, k);
        VisibleSkipsSpace(s, k);
        SubstituteKeepsVisible(p, s[k..]);
        var x := Substitute(p, s[k..]);
        assert ("\n" + x)[1..] == x;
      } else {
        SubstituteKeepsVisible(p, s[1..]);
        assert ([s[0]] + Substitute(p, s[1..]))[1..] == Substitute(p, s[1..]);
      }
    }
  }

  /** Every visible character survives, in order: only whitespace is lost. */
  lemma NormaliseKeepsVisible(body: string)
    ensures Visible(Normalise(body)) == Visible(body)
  {
    var t1 := Substitute(BlankLines, body);
    var t2 := Substitute(SpaceAfterNewline, t1);
    SubstituteKeepsVisible(BlankLines, body);
    SubstituteKeepsVisible(SpaceAfterNewline, t1);
    SubstituteKeepsVisible(SpaceBeforeNewline, t2);
  }

  // ---------------------------------------------------------------------------
  // Text away from newlines is kept
  // ---------------------------------------------------------------------------

  /** Text without a newline holds no match. */
  lemma {:induction false} SubstituteNoNewline(p: Pattern, s: string)
    requires '\n' !in s
    ensures Substitute(p, s) == s
    decreases |s|
  {
    if |s| > 0 {
      var k := MatchLength(p, s);
      if k > 0 {
        MatchIsSpace(p, s, k);
        assert false;
      }
      assert s == [s[0]] + s[1..];
      SubstituteNoNewline(p, s[1..]);
    }
  }

  /** A match never runs past a visible character, so it is the same
      whatever follows that character. */
  lemma MatchLengthBeforeVisible(p: Pattern, a: string, b: string)
    requires |a| > 0 && !IsBodySpace(a[|a| - 1])
    ensures MatchLength(p, a + b) == MatchLength(p, a) < |a|
  {
    var k1, k2 := MatchLength(p, a + b), MatchLength(p, a);
    assert (a + b)[|a| - 1] == a[|a| - 1];
    forall k | 0 <= k <= |a + b|
      ensures IsMatch(p, a + b, k) <==> k < |a| && IsMatch(p, a, k)
    {
      if IsMatch(p, a + b, k) {
        MatchIsSpace(p, a + b, k);
        assert k < |a|;
        assert (a + b)[..k] == a[..k];
      }
      if k < |a| && IsMatch(p, a, k) {
        assert (a + b)[..k] == a[..k];
      }
    }
    if k2 > 0 {
      MatchIsSpace(p, a, k2);
    }
  }

  /** How far the first step of a substitution moves: past the match, or
      past one copied character. */
  function Skip(p: Pattern, s: string): (n: nat)
    requires |s| > 0
    ensures 1 <= n <= |s|
  {
    var k := MatchLength(p, s);
    if k > 0 then k else 1
  }

  /** What the first step of a substitution emits. */
  function Head(p: Pattern, s: string): string
    requires |s| > 0
  {
    if MatchLength(p, s) > 0 then "\n" else [s[0]]
  }

  lemma SubstituteUnfold(p: Pattern, s: string)
    requires |s| > 0
    ensures Substitute(p, s) == Head(p, s) + Substitute(p, s[Skip(p, s)..])
  {
  }

  /** When `a` ends in a visible character, the first step over `a + b` is
      the first step over `a`, and it does not consume all of `a + b`. */
  lemma StepBeforeVisible(p: Pattern, a: string, b: string)
    requires |a| > 0 && !IsBodySpace(a[|a| - 1])
    ensures Skip(p, a + b) == Skip(p, a) && Head(p, a + b) == Head(p, a)
    ensures (a + b)[Skip(p, a)..] == a[Skip(p, a)..] + b
  {
    MatchLengthBeforeVisible(p, a, b);
    assert (a + b)[0] == a[0];
  }

  /** The last step of the induction behind `SubstituteConcat`: a single
      visible character is copied. */
  lemma SubstituteConcatLastStep(p: Pattern, c: char, b: string)
    requires !IsBodySpace(c)
    ensures Substitute(p, [c] + b) == Substitute(p, [c]) + Substitute(p, b)
  {
    StepBeforeVisible(p, [c], b);
    assert MatchLength(p, [c]) == 0;
    assert ([c] + b)[1..] == b;
    assert Substitute(p, [c] + b) == [c] + Substitute(p, b);
    SubstituteVisibleChar(p, c);
  }

  /** A middle step of the induction behind `SubstituteConcat`. */
  lemma SubstituteConcatStep(p: Pattern, a: string, b: string)
    requires |a| > 0 && !IsBodySpace(a[|a| - 1]) && Skip(p, a) < |a|
    requires Substitute(p, a[Skip(p, a)..] + b) == Substitute(p, a[Skip(p, a)..]) + Substitute(p, b)
    ensures Substitute(p, a + b) == Substitute(p, a) + Substitute(p, b)
  {
    var n, head := Skip(p, a), Head(p, a);
    var rest := a[n..];
    StepBeforeVisible(p, a, b);
    SubstituteUnfold(p, a + b);
    SubstituteUnfold(p, a);
    AppendAssociative(head, Substitute(p, rest), Substitute(p, b));
  }

  /** Substitution splits at a visible character. */
  lemma {:induction false} SubstituteConcat(p: Pattern, a: string, b: string)
    requires |a| > 0 && !IsBodySpace(a[|a| - 1])
    ensures Substitute(p, a + b) == Substitute(p, a) + Substitute(p, b)
    decreases |a|
  {
    var n := Skip(p, a);
    if n < |a| {
      assert a[n..][|a[n..]| - 1] == a[|a| - 1];
      SubstituteConcat(p, a[n..], b);
      SubstituteConcatStep(p, a, b);
    } else {
      assert a == [a[0]];
      SubstituteConcatLastStep(p, a[0], b);
    }
  }

  lemma AppendAssociative(h: string, x: string, y: string)
    ensures h + (x + y) == (h + x) + y
  {
  }


  /** A single visible character is copied. */
  lemma SubstituteVisibleChar(p: Pattern, c: char)
    requires !IsBodySpace(c)
    ensures Substitute(p, [c]) == [c]
  {
    MatchLengthBeforeVisible(p, [c], "");
    assert [c] + "" == [c];
    assert [c][1..] == [];
  }

  lemma SubstituteLastStep(p: Pattern, a: string)
    requires |a| > 0 && Skip(p, a) < |a|
    requires var r := Substitute(p, a[Skip(p, a)..]); |r| > 0 && r[|r| - 1] == a[|a| - 1]
    ensures |Substitute(p, a)| > 0 && Substitute(p, a)[|Substitute(p, a)| - 1] == a[|a| - 1]
  {
    SubstituteUnfold(p, a);
    var h, r := Head(p, a), Substitute(p, a[Skip(p, a)..]);
    assert (h + r)[|h + r| - 1] == r[|r| - 1];
  }

  /** Substitution keeps a visible last character last. */
  lemma {:induction false} SubstituteLast(p: Pattern, a: string)
    requires |a| > 0 && !IsBodySpace(a[|a| - 1])
    ensures |Substitute(p, a)| > 0 && Substitute(p, a)[|Substitute(p, a)| - 1] == a[|a| - 1]
    decreases |a|
  {
    var n := Skip(p, a);
    if n < |a| {
      assert a[n..][|a[n..]| - 1] == a[|a| - 1];
      SubstituteLast(p, a[n..]);
      SubstituteLastStep(p, a);
    } else {
      assert a == [a[0]];
      SubstituteVisibleChar(p, a[0]);
    }
  }

  /** The clean-up splits at a visible character. */
  lemma NormaliseConcat(a: string, b: string)
    requires |a| > 0 && !IsBodySpace(a[|a| - 1])
    ensures Normalise(a + b) == Normalise(a) + Normalise(b)
  {
    var a1 := Substitute(BlankLines, a);
    SubstituteConcat(BlankLines, a, b);
    SubstituteLast(BlankLines, a);
    var a2 := Substitute(SpaceAfterNewline, a1);
    SubstituteConcat(SpaceAfterNewline, a1, Substitute(BlankLines, b));
    SubstituteLast(SpaceAfterNewline, a1);
    SubstituteConcat(SpaceBeforeNewline, a2, Substitute(SpaceAfterNewline, Substitute(BlankLines, b)));
  }

  lemma NormaliseNoNewline(s: string)
    requires '\n' !in s
    ensures Normalise(s) == s
  {
    SubstituteNoNewline(BlankLines, s);
    SubstituteNoNewline(SpaceAfterNewline, s);
    SubstituteNoNewline(SpaceBeforeNewline, s);
  }

  /** Leading whitespace (or any text) without a newline, up to the first
      visible character, is kept. */
  lemma NormaliseKeepsLeadingText(lead: string, c: char, rest: string)
    requires '\n' !in lead && !IsBodySpace(c)
    ensures Normalise(lead + [c] + rest) == lead + [c] + Normalise(rest)
  {
    NormaliseConcat(lead + [c], rest);
    NormaliseNoNewline(lead + [c]);
  }

  /** Trailing whitespace (or any text) without a newline, after the last
      visible character, is kept. */
  lemma NormaliseKeepsTrailingText(rest: string, c: char, trail: string)
    requires '\n' !in trail && !IsBodySpace(c)
    ensures Normalise(rest + [c] + trail) == Normalise(rest + [c]) + trail
  {
    NormaliseConcat(rest + [c], trail);
    NormaliseNoNewline(trail);
  }
}
