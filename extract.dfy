/**
 * Extraction of a command's brief description and synopsis from the
 * normalised body text of its manual page. Each of the two regular
 * expressions is modelled as a fixed matcher: a declarative predicate saying
 * what a match is, and a search function proved to return the match the
 * regular-expression engine picks (the leftmost start, then the longest
 * capture its greedy parts can reach).
 */
module Extract {
  import opened Wrappers
  import opened Strings
  import opened BodyText

  /** A command name the patterns can splice in literally: non-empty, and only
      ASCII letters, digits and underscores. */
  predicate ValidName(name: string) {
    |name| > 0 && forall k :: 0 <= k < |name| ==> IsAsciiWord(name[k])
  }

  // ---------------------------------------------------------------------------
  // Brief: name\n([\d\w.()-/ '\n]*)\nSynopsis, ignoring case
  // ---------------------------------------------------------------------------

  /** The character class of the brief capture: digits and ASCII word
      characters, `.`, `(`, the range `)` to `/`, space, `'` and newline. */
  predicate IsBriefChar(c: char) {
    IsAsciiWord(c) || c == '.' || c == '(' || (')' <= c <= '/') || c == ' ' || c == '\'' || c == '\n'
  }

  /** The brief pattern matches at `i` with its capture ending at `e`. */
  predicate IsBriefMatch(s: string, name: string, i: nat, e: nat)
    ensures IsBriefMatch(s, name, i, e) ==> i + |name| + 1 <= e && e + 9 <= |s|
  {
    && CiMatchAt(s, i, name + "\n")
    && i + |name| + 1 <= e
    && CiMatchAt(s, e, "\nSynopsis")
    && (forall j :: i + |name| + 1 <= j < e ==> IsBriefChar(s[j]))
  }

  /** The first position at or after `j` that is not a brief character. */
  function BriefRunEnd(s: string, j: nat): (e: nat)
    requires j <= |s|
    ensures j <= e <= |s|
    ensures forall m :: j <= m < e ==> IsBriefChar(s[m])
    ensures e == |s| || !IsBriefChar(s[e])
    decreases |s| - j
  {
    if j == |s| || !IsBriefChar(s[j]) then j else BriefRunEnd(s, j + 1)
  }

  /** The last position `e` with `lo <= e <= hi` where `\nSynopsis` starts. */
  function LastSynopsisHeading(s: string, lo: nat, hi: nat): (r: Option<nat>)
    ensures r.Some? ==> lo <= r.value <= hi && CiMatchAt(s, r.value, "\nSynopsis")
    ensures forall e: nat :: lo <= e <= hi && (r.None? || r.value < e) ==> !CiMatchAt(s, e, "\nSynopsis")
    decreases hi
  {
    if hi < lo then None
    else if CiMatchAt(s, hi, "\nSynopsis") then Some(hi)
    else if hi == lo then None
    else LastSynopsisHeading(s, lo, hi - 1)
  }

  /** The longest capture of a brief match at `i`, as its end. */
  function BriefAt(s: string, name: string, i: nat): (r: Option<nat>)
    ensures r.Some? ==> IsBriefMatch(s, name, i, r.value)
    ensures forall e: nat :: IsBriefMatch(s, name, i, e) ==> r.Some? && e <= r.value
  {
    if !CiMatchAt(s, i, name + "\n") then None
    else
      var g := i + |name| + 1;
      var runEnd := BriefRunEnd(s, g);
      var r := LastSynopsisHeading(s, g, runEnd);
      assert forall e: nat :: IsBriefMatch(s, name, i, e) ==> e <= runEnd;
      r
  }

  /** The brief match the search finds from position `i` on, as (start,
      capture end): the leftmost start, then the longest capture. */
  function FindBriefFrom(s: string, name: string, i: nat): (r: Option<(nat, nat)>)
    ensures r.None? ==> forall a: nat, e: nat :: i <= a ==> !IsBriefMatch(s, name, a, e)
    ensures r.Some? ==> i <= r.value.0 && IsBriefMatch(s, name, r.value.0, r.value.1)
    ensures r.Some? ==> forall a: nat, e: nat :: i <= a < r.value.0 ==> !IsBriefMatch(s, name, a, e)
    ensures r.Some? ==> forall e: nat :: IsBriefMatch(s, name, r.value.0, e) ==> e <= r.value.1
    decreases |s| + 1 - i
  {
    if i > |s| then None
    else
      match BriefAt(s, name, i)
      case Some(e) => Some((i, e))
      case None => FindBriefFrom(s, name, i + 1)
  }

  /** `p_brief.search(body)`: the leftmost match, with the longest capture. */
  function FindBrief(s: string, name: string): (r: Option<(nat, nat)>)
    ensures r.None? <==> forall a: nat, e: nat :: !IsBriefMatch(s, name, a, e)
    ensures r.Some? ==> IsBriefMatch(s, name, r.value.0, r.value.1)
    ensures r.Some? ==> forall a: nat, e: nat :: a < r.value.0 ==> !IsBriefMatch(s, name, a, e)
    ensures r.Some? ==> forall e: nat :: IsBriefMatch(s, name, r.value.0, e) ==> e <= r.value.1
  {
    FindBriefFrom(s, name, 0)
  }

  /** The brief: the capture of the match with its newlines made spaces, or
      `None` when the pattern does not match. */
  function Brief(s: string, name: string): (r: Option<string>)
    ensures r.None? <==> forall a: nat, e: nat :: !IsBriefMatch(s, name, a, e)
    ensures r.Some? ==>
      var (a, e) := FindBrief(s, name).value;
      |r.value| == e - (a + |name| + 1) && '\n' !in r.value
      && forall k :: 0 <= k < |r.value| ==>
           r.value[k] == (if s[a + |name| + 1 + k] == '\n' then ' ' else s[a + |name| + 1 + k])
  {
    match FindBrief(s, name)
    case None => None
    case Some((a, e)) => Some(ReplaceNewlines(s[a + |name| + 1..e]))
  }

  // ---------------------------------------------------------------------------
  // Synopsis: Synopsis\n(name.+)[\n ]+Description, ignoring case, `.` matching
  // newlines too
  // ---------------------------------------------------------------------------

  predicate IsSeparator(c: char) {
    c == '\n' || c == ' '
  }

  /** The synopsis pattern matches at `i`, its capture ends at `g` and the
      separator run `[\n ]+` fills `[g, d)`. */
  predicate IsSynopsisMatch(s: string, name: string, i: nat, g: nat, d: nat)
    ensures IsSynopsisMatch(s, name, i, g, d) ==> i + 9 + |name| < g < d && d + 11 <= |s|
  {
    && CiMatchAt(s, i, "Synopsis\n")
    && CiMatchAt(s, i + 9, name)
    && i + 9 + |name| < g < d
    && CiMatchAt(s, d, "Description")
    && (forall j :: g <= j < d ==> IsSeparator(s[j]))
  }

  /** The first position at or after `j` that is not a separator. */
  function SeparatorRunEnd(s: string, j: nat): (d: nat)
    requires j <= |s|
    ensures j <= d <= |s|
    ensures forall m :: j <= m < d ==> IsSeparator(s[m])
    ensures d == |s| || !IsSeparator(s[d])
    decreases |s| - j
  {
    if j == |s| || !IsSeparator(s[j]) then j else SeparatorRunEnd(s, j + 1)
  }

  /** A capture end: a separator directly followed by `description`. */
  predicate EndsBeforeDescription(s: string, g: nat) {
    g < |s| && IsSeparator(s[g]) && CiMatchAt(s, g + 1, "Description")
  }

  /** The separator run of a match ends where `Description` starts, so its
      last separator is a capture end too. */
  lemma SynopsisMatchLastSeparator(s: string, name: string, i: nat, g: nat, d: nat)
    requires IsSynopsisMatch(s, name, i, g, d)
    ensures IsSynopsisMatch(s, name, i, d - 1, d)
    ensures EndsBeforeDescription(s, d - 1)
  {
  }

  /** The last capture end `g` with `lo <= g < hi`. */
  function LastCaptureEnd(s: string, lo: nat, hi: nat): (r: Option<nat>)
    ensures r.Some? ==> lo <= r.value < hi && EndsBeforeDescription(s, r.value)
    ensures forall g: nat :: lo <= g < hi && (r.None? || r.value < g) ==> !EndsBeforeDescription(s, g)
    decreases hi
  {
    if hi <= lo then None
    else if EndsBeforeDescription(s, hi - 1) then Some(hi - 1)
    else LastCaptureEnd(s, lo, hi - 1)
  }

  /** The longest capture of a synopsis match at `i`, as its end. */
  function SynopsisAt(s: string, name: string, i: nat): (r: Option<nat>)
    ensures r.Some? ==> IsSynopsisMatch(s, name, i, r.value, r.value + 1)
    ensures forall g: nat, d: nat :: IsSynopsisMatch(s, name, i, g, d) ==> r.Some? && g <= r.value
  {
    if !(CiMatchAt(s, i, "Synopsis\n") && CiMatchAt(s, i + 9, name)) then None
    else
      var r := LastCaptureEnd(s, i + 9 + |name| + 1, |s|);
      assert forall g: nat, d: nat :: IsSynopsisMatch(s, name, i, g, d) ==> r.Some? && d - 1 <= r.value by {
        forall g: nat, d: nat | IsSynopsisMatch(s, name, i, g, d)
          ensures r.Some? && d - 1 <= r.value
        {
          SynopsisMatchLastSeparator(s, name, i, g, d);
        }
      }
      r
  }

  /** No synopsis match starts at position `a`. */
  ghost predicate NoSynopsisMatchAt(s: string, name: string, a: nat) {
    forall g: nat, d: nat :: !IsSynopsisMatch(s, name, a, g, d)
  }

  /** The synopsis match the search finds from position `i` on, as (start,
      capture end): the leftmost start, then the longest capture. */
  function FindSynopsisFrom(s: string, name: string, i: nat): (r: Option<(nat, nat)>)
    ensures r.None? ==> forall a: nat :: i <= a ==> NoSynopsisMatchAt(s, name, a)
    ensures r.Some? ==> i <= r.value.0 && IsSynopsisMatch(s, name, r.value.0, r.value.1, r.value.1 + 1)
    ensures r.Some? ==> forall a: nat :: i <= a < r.value.0 ==> NoSynopsisMatchAt(s, name, a)
    ensures r.Some? ==> forall g: nat, d: nat :: IsSynopsisMatch(s, name, r.value.0, g, d) ==> g <= r.value.1
    decreases |s| + 1 - i
  {
    if i > |s| then None
    else
      match SynopsisAt(s, name, i)
      case Some(g) => Some((i, g))
      case None => FindSynopsisFrom(s, name, i + 1)
  }

  /** `p_synopsis.search(body)`: the leftmost match, with the longest capture,
      which ends just before a separator directly followed by
      `description`. */
  function FindSynopsis(s: string, name: string): (r: Option<(nat, nat)>)
    ensures r.None? <==> forall a: nat, g: nat, d: nat :: !IsSynopsisMatch(s, name, a, g, d)
    ensures r.Some? ==> IsSynopsisMatch(s, name, r.value.0, r.value.1, r.value.1 + 1)
    ensures r.Some? ==> EndsBeforeDescription(s, r.value.1)
    ensures r.Some? ==> forall a: nat, g: nat, d: nat :: a < r.value.0 ==> !IsSynopsisMatch(s, name, a, g, d)
    ensures r.Some? ==> forall g: nat, d: nat :: IsSynopsisMatch(s, name, r.value.0, g, d) ==> g <= r.value.1
  {
    var r := FindSynopsisFrom(s, name, 0);
    forall a: nat, g: nat, d: nat | r.None? || a < r.value.0
      ensures !IsSynopsisMatch(s, name, a, g, d)
    {
      assert NoSynopsisMatchAt(s, name, a);
    }
    r
  }

  // ---------------------------------------------------------------------------
  // Synopsis post-processing
  // ---------------------------------------------------------------------------

  /** `i.replace('\n', ' ').strip()`. */
  function CleanFragment(p: string): (r: string)
    ensures '\n' !in r
    ensures r == [] || (!IsUnicodeSpace(r[0]) && !IsUnicodeSpace(r[|r| - 1]))
    ensures SpaceEnd(p, 0) + |r| <= |p|
    ensures forall k :: 0 <= k < |r| ==>
      r[k] == (if p[SpaceEnd(p, 0) + k] == '\n' then ' ' else p[SpaceEnd(p, 0) + k])
    ensures forall k :: SpaceEnd(p, 0) + |r| <= k < |p| ==> IsUnicodeSpace(p[k])
  {
    var t := ReplaceNewlines(p);
    SpaceEndAgrees(p, t, 0);
    Strip(t)
  }

  /** Newlines and spaces are both whitespace, so the leading whitespace run
      is as long after the replacement as before. */
  lemma {:induction false} SpaceEndAgrees(p: string, t: string, i: nat)
    requires i <= |p| && t == ReplaceNewlines(p)
    ensures SpaceEnd(t, i) == SpaceEnd(p, i)
    decreases |p| - i
  {
    if i < |p| {
      assert IsUnicodeSpace(t[i]) <==> IsUnicodeSpace(p[i]);
      SpaceEndAgrees(p, t, i + 1);
    }
  }

  /** A fragment cleans to the empty string exactly when it is all
      whitespace. */
  lemma CleanFragmentEmpty(p: string)
    ensures CleanFragment(p) == "" <==> AllUnicodeSpace(p)
  {
    var q := ReplaceNewlines(p);
    assert forall k :: 0 <= k < |p| ==> (IsUnicodeSpace(q[k]) <==> IsUnicodeSpace(p[k]));
  }

  /** `[i.replace('\n', ' ').strip() for i in raw.split(name) if i]`. */
  function SynopsisFragments(raw: string, name: string): (r: seq<string>)
    requires |name| > 0
    ensures |r| == |NonEmpty(Split(raw, name))|
    ensures forall k :: 0 <= k < |r| ==> r[k] == CleanFragment(NonEmpty(Split(raw, name))[k])
  {
    var parts := NonEmpty(Split(raw, name));
    seq(|parts|, k requires 0 <= k < |parts| => CleanFragment(parts[k]))
  }

  /** The fragments kept before cleaning come, in order, from the pieces of
      the split, which rejoin to the capture and none of which holds the
      name; a fragment that was whitespace only is kept as `""`. */
  lemma SynopsisFragmentsFaithful(raw: string, name: string)
    requires |name| > 0
    ensures Join(Split(raw, name), name) == raw
    ensures IsSubseq(NonEmpty(Split(raw, name)), Split(raw, name))
    ensures forall k :: 0 <= k < |Split(raw, name)| ==> !Occurs(name, Split(raw, name)[k])
    ensures forall k :: 0 <= k < |SynopsisFragments(raw, name)| ==>
      (SynopsisFragments(raw, name)[k] == "" <==> AllUnicodeSpace(NonEmpty(Split(raw, name))[k]))
  {
    JoinSplit(raw, name);
    SplitPiecesAvoidSep(raw, name);
    forall k | 0 <= k < |SynopsisFragments(raw, name)|
      ensures SynopsisFragments(raw, name)[k] == "" <==> AllUnicodeSpace(NonEmpty(Split(raw, name))[k])
    {
      CleanFragmentEmpty(NonEmpty(Split(raw, name))[k]);
    }
  }

  /** A line with no newline and no whitespace at either end. */
  predicate IsCleanLine(f: string) {
    '\n' !in f && (f == [] || (!IsUnicodeSpace(f[0]) && !IsUnicodeSpace(f[|f| - 1])))
  }

  /** Every fragment is free of newlines and stripped. */
  lemma FragmentsClean(raw: string, name: string)
    requires |name| > 0
    ensures forall k :: 0 <= k < |SynopsisFragments(raw, name)| ==> IsCleanLine(SynopsisFragments(raw, name)[k])
  {
    var fragments := SynopsisFragments(raw, name);
    forall k | 0 <= k < |fragments|
      ensures IsCleanLine(fragments[k])
    {
      assert fragments[k] == CleanFragment(NonEmpty(Split(raw, name))[k]);
    }
  }

  /** The synopsis: the fragments of the capture, or `None` when the pattern
      does not match. */
  function Synopsis(s: string, name: string): (r: Option<seq<string>>)
    requires |name| > 0
    ensures r.None? <==> forall a: nat, g: nat, d: nat :: !IsSynopsisMatch(s, name, a, g, d)
    ensures r.Some? ==> forall k :: 0 <= k < |r.value| ==> IsCleanLine(r.value[k])
    ensures r.Some? ==>
      var m := FindSynopsis(s, name).value;
      r.value == SynopsisFragments(s[m.0 + 9..m.1], name)
  {
    var m := FindSynopsis(s, name);
    if m.None? then None
    else
      var fragments := SynopsisFragments(s[m.value.0 + 9..m.value.1], name);
      FragmentsClean(s[m.value.0 + 9..m.value.1], name);
      Some(fragments)
  }

  // ---------------------------------------------------------------------------
  // grab_cmd_info
  // ---------------------------------------------------------------------------

  /** The record kept for each command. */
  datatype CondorCmd = CondorCmd(
    name: string,
    brief: Option<string>,
    synopsis: Option<seq<string>>,
    description: Option<string>,
    options: Option<string>,
    url: Option<string>)

  /** What `grab_cmd_info` returns. */
  datatype CmdInfo = CmdInfo(brief: Option<string>, synopsis: Option<seq<string>>)

  /** `grab_cmd_info(cmd)`, given the text of the page body: the body is
      normalised, then the brief and the synopsis are searched for, each
      independently of whether the other was found. */
  function GrabCmdInfo(cmd: CondorCmd, pageBody: string): (info: CmdInfo)
    requires ValidName(cmd.name)
    ensures info.brief.None? <==> forall a: nat, e: nat :: !IsBriefMatch(Normalise(pageBody), cmd.name, a, e)
    ensures info.synopsis.None? <==> forall a: nat, g: nat, d: nat :: !IsSynopsisMatch(Normalise(pageBody), cmd.name, a, g, d)
    ensures info.brief == Brief(Normalise(pageBody), cmd.name)
    ensures info.synopsis == Synopsis(Normalise(pageBody), cmd.name)
  {
    var body := Normalise(pageBody);
    CmdInfo(Brief(body, cmd.name), Synopsis(body, cmd.name))
  }

  /** The scraper's update of a command record from its page: the brief and
      the synopsis are replaced by what `grab_cmd_info` found (possibly
      nothing), every other field is kept. */
  function RecordCmdInfo(cmd: CondorCmd, pageBody: string): (c: CondorCmd)
    requires ValidName(cmd.name)
    ensures c.name == cmd.name && c.description == cmd.description
    ensures c.options == cmd.options && c.url == cmd.url
    ensures c.brief.None? <==> forall a: nat, e: nat :: !IsBriefMatch(Normalise(pageBody), cmd.name, a, e)
    ensures c.synopsis.None? <==> forall a: nat, g: nat, d: nat :: !IsSynopsisMatch(Normalise(pageBody), cmd.name, a, g, d)
    ensures c.brief == GrabCmdInfo(cmd, pageBody).brief && c.synopsis == GrabCmdInfo(cmd, pageBody).synopsis
  {
    var info := GrabCmdInfo(cmd, pageBody);
    cmd.(brief := info.brief, synopsis := info.synopsis)
  }
}
