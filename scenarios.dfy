/**
 * Worked examples: releases sort by their numbers and not by their spelling;
 * the brief heading is matched whatever its case and its line breaks become
 * spaces; the synopsis capture is cut at every occurrence of the command name
 * and each fragment is stripped.
 */
module Scenarios {
  import opened Wrappers
  import opened Strings
  import opened StableSort
  import opened Versions
  import opened Extract

  // ---------------------------------------------------------------------------
  // sort_versions on 8.0.1, 10.2.0, 9.5.3, 10.1.9
  // ---------------------------------------------------------------------------

  lemma Release801(x: string)
    requires x == "8.0.1"
    ensures StripV(x) == x && WellFormedVersion(x) && VersionTriple(x) == (8, 0, 1)
  {
    assert VersionString(8, 0, 1) == x;
    ReleaseEntry(x, 8, 0, 1);
  }

  lemma Release1020(x: string)
    requires x == "10.2.0"
    ensures StripV(x) == x && WellFormedVersion(x) && VersionTriple(x) == (10, 2, 0)
  {
    assert DecimalString(10) == "10";
    assert VersionString(10, 2, 0) == x;
    ReleaseEntry(x, 10, 2, 0);
  }

  lemma Release953(x: string)
    requires x == "9.5.3"
    ensures StripV(x) == x && WellFormedVersion(x) && VersionTriple(x) == (9, 5, 3)
  {
    assert VersionString(9, 5, 3) == x;
    ReleaseEntry(x, 9, 5, 3);
  }

  lemma Release1019(x: string)
    requires x == "10.1.9"
    ensures StripV(x) == x && WellFormedVersion(x) && VersionTriple(x) == (10, 1, 9)
  {
    assert DecimalString(10) == "10";
    assert VersionString(10, 1, 9) == x;
    ReleaseEntry(x, 10, 1, 9);
  }

  /** The only descending order of four distinct positions whose entries have
      these keys. */
  lemma DescendingOrigins(keys: seq<(int, int, int)>, o: seq<nat>)
    requires keys == [(8, 0, 1), (10, 2, 0), (9, 5, 3), (10, 1, 9)]
    requires |o| == 4 && forall k :: 0 <= k < 4 ==> o[k] < 4
    requires forall i, j :: 0 <= i < j < 4 ==> o[i] != o[j]
    requires forall i, j :: 0 <= i < j < 4 ==> InOrder(keys[o[i]], keys[o[j]], true)
    ensures o == [1, 3, 2, 0]
  {
    assert InOrder(keys[o[0]], keys[o[1]], true);
    assert InOrder(keys[o[1]], keys[o[2]], true);
    assert InOrder(keys[o[2]], keys[o[3]], true);
  }

  /** A descending arrangement of four entries with these keys is unique. */
  lemma OnlyDescendingArrangement<T>(key: T -> (int, int, int), input: seq<T>, r: seq<T>, origin: seq<nat>)
    requires |input| == 4
    requires key(input[0]) == (8, 0, 1) && key(input[1]) == (10, 2, 0)
    requires key(input[2]) == (9, 5, 3) && key(input[3]) == (10, 1, 9)
    requires |r| == |origin| == 4
    requires forall k :: 0 <= k < 4 ==> origin[k] < 4 && r[k] == input[origin[k]]
    requires forall i, j :: 0 <= i < j < 4 ==> origin[i] != origin[j]
    requires forall i, j :: 0 <= i < j < 4 ==> InOrder(key(r[i]), key(r[j]), true)
    ensures r == [input[1], input[3], input[2], input[0]]
  {
    var keys := [(8, 0, 1), (10, 2, 0), (9, 5, 3), (10, 1, 9)];
    forall k | 0 <= k < 4
      ensures key(r[k]) == keys[origin[k]]
    {
      assert key(input[origin[k]]) == keys[origin[k]];
    }
    DescendingOrigins(keys, origin);
  }

  /** `sort_versions(["8.0.1", "10.2.0", "9.5.3", "10.1.9"])` gives
      `["10.2.0", "10.1.9", "9.5.3", "8.0.1"]`: numeric order, not the order of
      the spellings. Stated for any four entries with those releases' keys;
      `Release801` and its siblings show the four spellings have them. */
  method SortReleases(input: seq<string>) returns (sorted: Option<seq<string>>)
    requires |input| == 4
    requires forall k :: 0 <= k < 4 ==> StripV(input[k]) == input[k] && WellFormedVersion(input[k])
    requires VersionTriple(input[0]) == (8, 0, 1) && VersionTriple(input[1]) == (10, 2, 0)
    requires VersionTriple(input[2]) == (9, 5, 3) && VersionTriple(input[3]) == (10, 1, 9)
    ensures sorted == Some([input[1], input[3], input[2], input[0]])
  {
    ghost var origin;
    sorted, origin := SortVersions(input, true);
    OnlyDescendingArrangement(VersionTriple, input, sorted.value, origin);
  }

  /** A property of each of four entries holds at every index of their list. */
  lemma FourEntries(p: string -> bool, a: string, b: string, c: string, d: string)
    requires p(a) && p(b) && p(c) && p(d)
    ensures forall k :: 0 <= k < 4 ==> p([a, b, c, d][k])
  {
    forall k | 0 <= k < 4
      ensures p([a, b, c, d][k])
    {
      if k == 0 {
        assert [a, b, c, d][k] == a;
      } else if k == 1 {
        assert [a, b, c, d][k] == b;
      } else if k == 2 {
        assert [a, b, c, d][k] == c;
      } else {
        assert [a, b, c, d][k] == d;
      }
    }
  }

  /** Four entries that each survive `v` removal and have all three keys, put
      in a list, meet `SortReleases`' first requirement. */
  lemma FourReleasesReady(a: string, b: string, c: string, d: string)
    requires StripV(a) == a && WellFormedVersion(a) && StripV(b) == b && WellFormedVersion(b)
    requires StripV(c) == c && WellFormedVersion(c) && StripV(d) == d && WellFormedVersion(d)
    ensures var input := [a, b, c, d];
      forall k :: 0 <= k < 4 ==> StripV(input[k]) == input[k] && WellFormedVersion(input[k])
  {
    FourEntries(x => StripV(x) == x && WellFormedVersion(x), a, b, c, d);
  }

  /** The four releases' keys, read back from the list they are put in. */
  lemma FourReleaseKeys(a: string, b: string, c: string, d: string)
    requires VersionTriple(a) == (8, 0, 1) && VersionTriple(b) == (10, 2, 0)
    requires VersionTriple(c) == (9, 5, 3) && VersionTriple(d) == (10, 1, 9)
    ensures var input := [a, b, c, d];
      && VersionTriple(input[0]) == (8, 0, 1) && VersionTriple(input[1]) == (10, 2, 0)
      && VersionTriple(input[2]) == (9, 5, 3) && VersionTriple(input[3]) == (10, 1, 9)
  {
    var input := [a, b, c, d];
    assert input[0] == a && input[1] == b && input[2] == c && input[3] == d;
  }

  /** The literal list itself sorts to `10.2.0, 10.1.9, 9.5.3, 8.0.1`. */
  method SortReleaseList() returns (sorted: Option<seq<string>>)
    ensures sorted == Some(["10.2.0", "10.1.9", "9.5.3", "8.0.1"])
  {
    var a, b, c, d := "8.0.1", "10.2.0", "9.5.3", "10.1.9";
    Release801(a);
    Release1020(b);
    Release953(c);
    Release1019(d);
    FourReleasesReady(a, b, c, d);
    FourReleaseKeys(a, b, c, d);
    sorted := SortReleases([a, b, c, d]);
  }

  // ---------------------------------------------------------------------------
  // grab_cmd_info on small bodies
  // ---------------------------------------------------------------------------

  lemma BriefMatchExample(s: string)
    requires s == "q\nab\ncd\nSYNOPSIS"
    ensures IsBriefMatch(s, "q", 0, 7)
  {
    assert CiMatchAt(s, 0, "q\n");
    assert CiMatchAt(s, 7, "\nSynopsis");
  }

  /** The search on the body `q / ab / cd / SYNOPSIS` finds the match at the
      start, and its capture can only end where the heading starts. */
  lemma BriefSearchExample(s: string)
    requires s == "q\nab\ncd\nSYNOPSIS"
    ensures FindBrief(s, "q") == Some((0, 7))
    ensures s[2..7] == "ab\ncd"
  {
    BriefMatchExample(s);
    OnlyBriefMatch(s, "q", 7);
  }

  /** A match at the very start whose heading ends the body is the one the
      search finds. */
  lemma OnlyBriefMatch(s: string, name: string, e: nat)
    requires IsBriefMatch(s, name, 0, e) && e + 9 == |s|
    ensures FindBrief(s, name) == Some((0, e))
  {
    var r := FindBrief(s, name);
    assert r.value.1 + 9 <= |s|;
  }

  /** The brief is the capture with its line break made a space, whatever
      body it came from. */
  lemma BriefOfCapture(s: string, name: string)
    requires |name| == 1 && FindBrief(s, name) == Some((0, 7)) && s[2..7] == "ab\ncd"
    ensures Brief(s, name) == Some("ab cd")
  {
    assert ReplaceNewlines(s[2..7]) == "ab cd";
  }

  /** The brief of command `q` on the body `q / ab / cd / SYNOPSIS`: the
      heading matches whatever its case, and the line break inside the
      capture becomes a space. */
  lemma BriefExample(s: string)
    requires s == "q\nab\ncd\nSYNOPSIS"
    ensures Brief(s, "q") == Some("ab cd")
  {
    BriefSearchExample(s);
    BriefOfCapture(s, "q");
  }

  /** `"q -a\nq -b".split("q")`: the text before the first `q` is an empty
      piece. */
  lemma SplitExample(s: string, name: string)
    requires s == "q -a\nq -b" && name == "q"
    ensures Split(s, name) == ["", " -a\n", " -b"]
  {
    var a, b := " -a\n", " -b";
    var tail := a + name + b;
    SplitFromLastPiece(b, name, "");
    assert "" + b == b;
    SplitFromPiece(a, name, b, "");
    assert "" + a == a;
    assert s == "" + name + tail;
    SplitFromPiece("", name, tail, "");
    assert "" + "" == "";
  }

  lemma CleanExampleA()
    ensures CleanFragment(" -a\n") == "-a"
  {
    var t := ReplaceNewlines(" -a\n");
    assert t == " -a ";
    assert t[1] == '-' && t[2] == 'a' && t[3] == ' ';
    assert SpaceEnd(t, 1) == 1;
    assert SpaceEnd(t, 0) == 1;
    assert SpaceStart(t, 1, 3) == 3;
    assert SpaceStart(t, 1, 4) == 3;
    assert t[1..3] == "-a";
  }

  lemma CleanExampleB()
    ensures CleanFragment(" -b") == "-b"
  {
    var t := ReplaceNewlines(" -b");
    assert t == " -b";
    assert t[1] == '-' && t[2] == 'b';
    assert SpaceEnd(t, 1) == 1;
    assert SpaceEnd(t, 0) == 1;
    assert SpaceStart(t, 1, 3) == 3;
    assert t[1..3] == "-b";
  }

  lemma SynopsisMatchExample(s: string)
    requires s == "Synopsis\nq -a\nq -b\nDescription"
    ensures IsSynopsisMatch(s, "q", 0, 18, 19)
  {
    assert CiMatchAt(s, 0, "Synopsis\n");
    assert CiMatchAt(s, 9, "q");
    assert CiMatchAt(s, 19, "Description");
  }

  /** The synopsis capture on the body `Synopsis / q -a / q -b / Description`
      runs from the name to the last line break before `Description`. */
  lemma SynopsisCaptureExample(s: string)
    requires s == "Synopsis\nq -a\nq -b\nDescription"
    ensures FindSynopsis(s, "q") == Some((0, 18))
    ensures s[9..18] == "q -a\nq -b"
  {
    SynopsisMatchExample(s);
    var r := FindSynopsis(s, "q");
    assert r.value.0 == 0;
    assert r.value.1 <= |s| - 12;
  }

  /** The empty piece is dropped by the `if i` filter. */
  lemma NonEmptyExample(parts: seq<string>)
    requires parts == ["", " -a\n", " -b"]
    ensures NonEmpty(parts) == [" -a\n", " -b"]
  {
    assert parts[1..] == [" -a\n", " -b"];
    var tail := parts[1..];
    assert tail[1..] == [" -b"];
    assert NonEmpty(tail[1..]) == [" -b"] by {
      assert tail[1..][1..] == [];
    }
  }

  /** The two kept pieces come out stripped, whatever capture they came
      from. */
  lemma FragmentsOfKeptPieces(raw: string, name: string)
    requires |name| > 0 && NonEmpty(Split(raw, name)) == [" -a\n", " -b"]
    ensures SynopsisFragments(raw, name) == ["-a", "-b"]
  {
    CleanExampleA();
    CleanExampleB();
  }

  /** The capture is cut at each `q`, the empty piece before the first `q` is
      dropped and the two usage lines come out stripped. */
  lemma SynopsisFragmentsExample(raw: string, name: string)
    requires raw == "q -a\nq -b" && name == "q"
    ensures SynopsisFragments(raw, name) == ["-a", "-b"]
  {
    SplitExample(raw, name);
    NonEmptyExample(Split(raw, name));
    FragmentsOfKeptPieces(raw, name);
  }

  lemma SynopsisExample(s: string)
    requires s == "Synopsis\nq -a\nq -b\nDescription"
    ensures Synopsis(s, "q") == Some(["-a", "-b"])
  {
    SynopsisCaptureExample(s);
    SynopsisFragmentsExample(s[9..18], "q");
    SynopsisOfCapture(s, "q", 18, ["-a", "-b"]);
  }

  /** A search result at the start of the body gives the post-processed
      capture. */
  lemma SynopsisOfCapture(s: string, name: string, g: nat, fragments: seq<string>)
    requires |name| > 0 && FindSynopsis(s, name) == Some((0, g))
    requires 9 <= g <= |s| && SynopsisFragments(s[9..g], name) == fragments
    ensures Synopsis(s, name) == Some(fragments)
  {
  }
}
