# HTCondor manual scraper: a verified model of its text core

`grab_condor_docs.py` scrapes the HTCondor online manual. It builds one
`CondorCmd` record per command (`grab_condor_docs.py` lines 12-39; `Extract.CondorCmd`
here) and fills in two fields from each command's page:

- the **brief**, a one-line summary;
- the **synopsis**, the list of usage lines.

It also has helpers for manual versions. One turns a version into its `vX.Y.Z`
form. Another sorts release numbers by their (major, minor, patch) triple.

This project models the part of the scraper that computes. That part has five
pieces:

- **`check_version_str`**, which adds the `v` prefix.
- **`sort_versions`**:
  - every `v` is removed from each entry;
  - the list is then sorted three times with CPython's stable `list.sort`: on the patch number, then the minor number, then the major number;
  - each pass uses the same `reverse` flag.
- **The page-text normaliser.** It makes three `re.sub` passes in turn:
  - `\n\n+` becomes `\n`;
  - `\n[\s\xa0]+` becomes `\n`;
  - `[\s\xa0]+\n` becomes `\n`.
- **The brief pattern**, `name\n([\d\w.()-/ '\n]*)\nSynopsis`, matched ignoring case.
- **The synopsis pattern**, `Synopsis\n(name.+)[\n ]+Description`, matched ignoring case with `.` matching newlines. Its capture is then post-processed. It is split on the command name, empty pieces are dropped, and each piece has its newlines made spaces and is stripped.

Files:

- `wrappers.dfy`: `Option`.
- `strings.dfy` (module `Strings`):
  - the character classes Python 2 uses;
  - ASCII case folding;
  - `str.split` and its inverse `join`;
  - `unicode.strip`;
  - the `if i` filter;
  - subsequences.
- `stablesort.dfy` (module `StableSort`): the three stable passes. They run in place on an array, as one insertion sort per pass. Every pass carries a ghost record of where each entry came from.
- `versions.dfy` (module `Versions`):
  - `check_version_str`;
  - `int()` on one dotted field;
  - `sort_versions`.
- `normalise.dfy` (module `BodyText`): the three substitutions and what they guarantee.
- `extract.dfy` (module `Extract`):
  - the two patterns, each as a declarative "is a match" predicate plus a search function proved to return the match Python's `re` engine picks;
  - the synopsis post-processing;
  - `grab_cmd_info`;
  - the record update the driver makes.
- `scenarios.dfy` (module `Scenarios`): small worked examples proved about the model.

Semantics taken from Python 2.7, which the script is written for:

- `\s` without the UNICODE flag is ASCII whitespace only. The normaliser adds `\xa0` explicitly.
- `re.IGNORECASE` without UNICODE folds ASCII letters only.
- `int()` on a `unicode` string allows whitespace between the sign and the digits: `int(u"- 5")` is `-5`.
- The page text is a `unicode` string. So `strip()` and `int()` skip Python 2.7's Unicode whitespace, which includes `\x1c`–`\x1f`, `\x85`, `\xa0` and the Unicode space separators.
- `re.search` returns the leftmost match. At that start, greedy repetition with backtracking gives the longest capture the rest of the pattern accepts. The model computes exactly that match. It does not enumerate regex paths.
- CPython computes every sort key before it sorts. So one malformed entry raises before anything moves. The model returns `None` in that case.

Where the code and its written description differ, the model follows the code:

- **The brief ends at the last `\nSynopsis` the class run reaches, not the first.** The capture is greedy. Newline is in its class, and so are the letters of `Synopsis`.
- **The brief class also admits `*`, `+` and `,`.** `)-/` is a range.
- **The synopsis ends before the last separator that is directly followed by `Description`**, not the first. `.+` is greedy and DOTALL.
- **The synopsis split is case-sensitive**, although the pattern matched the name ignoring case.
- **A whitespace-only synopsis piece survives as `""`.** The `if i` filter runs before `strip()`.

## Model

| member | source | states |
|---|---|---|
| Versions.CheckVersionStr | grab_condor_docs.py:42-46 | the result is `current` or starts with `v`; it equals the input exactly when the input is `current` or already starts with `v`, and otherwise it is `v` followed by the input |
| Versions.CheckVersionStrIdempotent | grab_condor_docs.py:42-46 | normalising a version twice gives the same string as normalising it once |
| Versions.ParseInt | grab_condor_docs.py:98-100 | `int()` on one field succeeds exactly when, inside surrounding whitespace, the field is a run of digits, or a sign, optional whitespace and a run of digits; the value is that of the digits, negated after `-`; anything else is the ValueError (`None`) |
| Versions.ParseIntOfSigned | grab_condor_docs.py:98-100 | `int(sign + gap + str(n))` is `n` after `+` and `-n` after `-`, for every run of whitespace `gap`, the empty one included |
| Versions.ParseSignedDigits | grab_condor_docs.py:98-100 | a sign, whitespace and digits read as the signed value of the digits |
| Versions.ParseIntOfDecimal | grab_condor_docs.py:98-100 | `int(str(n)) == n` for every natural number |
| Versions.DigitsValueOfDecimal | grab_condor_docs.py:98-100 | the digits of the decimal spelling of `n` have value `n` |
| Versions.StripV | grab_condor_docs.py:95 | `x.replace('v', '')` has no `v`, is a subsequence of `x`, and is shorter by exactly the number of `v`s |
| Versions.StripEveryV | grab_condor_docs.py:95 | the comprehension applies that to every entry, in order, keeping the length |
| Versions.VersionField | grab_condor_docs.py:98-100 | `int(x.split('.')[f])`: fails when field `f` does not exist (the IndexError), and otherwise is `int()` of that field |
| Versions.WellFormedVersion | grab_condor_docs.py:98-100 | an entry whose three keys can all be computed has at least three dotted fields |
| Versions.VersionKey | grab_condor_docs.py:98-100 | the sort key of a field is the number `int()` reads from it whenever it reads one |
| Versions.SplitVersionString | grab_condor_docs.py:98-100 | `"A.B.C".split('.')` is the three numerals |
| Versions.VersionTripleOfString | grab_condor_docs.py:98-100 | every release spelled `A.B.C` has all three sort keys, and they are `(A, B, C)` |
| Versions.ReleaseEntry | grab_condor_docs.py:95-100 | such a release loses nothing to the `v` removal and sorts by `(A, B, C)` |
| Versions.SortVersions | grab_condor_docs.py:88-101 | fails exactly when some entry, once its `v`s are removed, lacks a numeric major, minor or patch field; otherwise the result is a permutation of the stripped entries (distinct origins, equal multisets), ordered by (major, minor, patch), descending when `reverse`, with entries of equal triple in input order |
| StableSort.SortByKey | grab_condor_docs.py:98-100 | the three passes rearrange the list (each entry as often as before) into lexicographic key order, with ties in input order |
| StableSort.ThreePasses | grab_condor_docs.py:98-100 | after the passes on fields 2, 1 and 0 the array is a rearrangement of its old contents in the order of the third pass |
| StableSort.StablePass | grab_condor_docs.py:98-100 | one `list.sort(key, reverse)`: keys are computed from the entries as they stand, then the pass leaves the list ordered by its field with ties kept in the previous pass's order |
| StableSort.SortByKeys | grab_condor_docs.py:98-100 | the sort proper keeps every entry paired with its key and produces the pass's order |
| StableSort.Insert | grab_condor_docs.py:98-100 | inserting one slot into the sorted prefix extends the sorted prefix and keeps the entries and their keys paired |
| StableSort.PrecedesLexicographic | grab_condor_docs.py:98-100 | stable passes on the last, middle, then first key field give the lexicographic order of the whole key, with ties broken by input position |
| StableSort.SortedOriginsDistinct | grab_condor_docs.py:98-100 | a list in any pass's order uses no input position twice |
| StableSort.ArrangementPermutes | grab_condor_docs.py:98-100 | a rearrangement using every input position once has the same multiset of entries |
| StableSort.SortedByTriple | grab_condor_docs.py:98-100 | after the third pass neighbouring entries are in key order and equal keys keep input order |
| Strings.AsciiLower | grab_condor_docs.py:166 | IGNORECASE folding changes only `A`–`Z`, each to its lower-case letter |
| Strings.SplitFrom | grab_condor_docs.py:179 | the scan behind `str.split` always yields at least one piece |
| Strings.Split | grab_condor_docs.py:179 | `s.split(sep)` always yields at least one piece |
| Strings.SplitFromCuts | grab_condor_docs.py:179 | the scan's first piece is the text collected so far followed by the text up to the leftmost occurrence of the separator (all of it when there is none), and the remaining pieces are the split of what follows that occurrence |
| Strings.SplitCuts | grab_condor_docs.py:179 | `s.split(sep)` cuts at the leftmost occurrence of `sep` and splits the rest, which fixes the pieces even for a separator that overlaps itself |
| Strings.JoinSplit | grab_condor_docs.py:179 | joining the pieces of `raw.split(name)` with `name` gives back `raw` |
| Strings.SplitPiecesAvoidSep | grab_condor_docs.py:179 | no piece of the split contains the separator |
| Strings.SplitFromPiece | grab_condor_docs.py:98-100 | a piece without the one-character separator ends at the next separator |
| Strings.SplitFromLastPiece | grab_condor_docs.py:98-100 | a last piece without the separator is kept whole |
| Strings.NonEmpty | grab_condor_docs.py:179 | the `if i` filter keeps, in order, exactly the non-empty pieces |
| Strings.Strip | grab_condor_docs.py:179 | `strip()` removes the longest whitespace prefix and suffix: the result is a slice of the input, everything cut off is whitespace, the result neither starts nor ends with whitespace, and it is empty exactly when the input is all whitespace |
| Strings.ReplaceNewlines | grab_condor_docs.py:169 | `replace('\n', ' ')` keeps the length, changes only newlines, each to a space, and leaves no newline |
| BodyText.Substitute | grab_condor_docs.py:159-161 | one `re.sub(p, '\n', s)` never lengthens the text and leaves it empty only when it was empty |
| BodyText.Normalise | grab_condor_docs.py:158-161 | the three passes in turn never lengthen the page text and leave it empty only when it was empty |
| BodyText.MatchLength | grab_condor_docs.py:159-161 | the length of the match each greedy pattern takes at a position is a match, and no longer prefix matches |
| BodyText.MatchIsSpace | grab_condor_docs.py:159-161 | every match is whitespace and holds a newline at its first, or for the third pattern its last, position |
| BodyText.SpaceAfterNewlineRemoved | grab_condor_docs.py:160 | after the second substitution no newline is followed by whitespace |
| BodyText.SpaceBeforeNewlineRemoved | grab_condor_docs.py:161 | the third substitution then leaves no whitespace on either side of a newline |
| BodyText.NormaliseIsClean | grab_condor_docs.py:158-161 | normalised text has no blank lines and no leading or trailing whitespace on any inner line |
| BodyText.SubstituteClean | grab_condor_docs.py:159-161 | each substitution leaves clean text unchanged |
| BodyText.NormaliseFixedPoints | grab_condor_docs.py:158-161 | the normaliser leaves a text unchanged exactly when it is already clean |
| BodyText.NormaliseIdempotent | grab_condor_docs.py:158-161 | normalising twice is normalising once |
| BodyText.SubstituteSubseq | grab_condor_docs.py:159-161 | each substitution only deletes characters, since a match always keeps one newline |
| BodyText.NormaliseSubseq | grab_condor_docs.py:158-161 | the normalised text is a subsequence of the page text |
| BodyText.SubstituteKeepsVisible | grab_condor_docs.py:159-161 | each substitution keeps every non-whitespace character, in order |
| BodyText.NormaliseKeepsVisible | grab_condor_docs.py:158-161 | the normaliser keeps every non-whitespace character, in order |
| BodyText.SubstituteNoNewline | grab_condor_docs.py:159-161 | each substitution leaves text without a newline unchanged |
| BodyText.NormaliseNoNewline | grab_condor_docs.py:158-161 | the normaliser leaves a single line unchanged |
| BodyText.MatchLengthBeforeVisible | grab_condor_docs.py:159-161 | a match never reaches past a non-whitespace character, so what follows it does not matter |
| BodyText.SubstituteConcat | grab_condor_docs.py:159-161 | substitution splits at a non-whitespace character: `sub(a + b) == sub(a) + sub(b)` |
| BodyText.SubstituteLast | grab_condor_docs.py:159-161 | substitution keeps a non-whitespace last character last |
| BodyText.NormaliseConcat | grab_condor_docs.py:158-161 | the normaliser splits the same way |
| BodyText.NormaliseKeepsLeadingText | grab_condor_docs.py:158-161 | text before the first line break, up to a non-whitespace character, passes through unchanged |
| BodyText.NormaliseKeepsTrailingText | grab_condor_docs.py:158-161 | text after the last non-whitespace character, without a line break, passes through unchanged |
| Extract.IsBriefMatch | grab_condor_docs.py:166 | the brief pattern matching at `i` with its capture ending at `e` needs room for the name line before the capture and for the `\nSynopsis` heading after it |
| Extract.BriefAt | grab_condor_docs.py:166-167 | at a given start, the brief pattern matches exactly when this finds a capture end, and that end is the largest any match there has |
| Extract.FindBriefFrom | grab_condor_docs.py:167 | scanning from a position finds the first start with a match, and there the longest capture |
| Extract.FindBrief | grab_condor_docs.py:166-167 | `p_brief.search(body)`: no result exactly when no match exists; otherwise a match, at the leftmost start, with the longest capture |
| Extract.Brief | grab_condor_docs.py:166-172 | the brief is `None` exactly when nothing matches; otherwise it is the searched match's capture, character for character, with newlines made spaces |
| Extract.IsSynopsisMatch | grab_condor_docs.py:175 | a synopsis match needs its heading, the name and at least one more character in the capture, at least one separator, and room for `Description` |
| Extract.SynopsisMatchLastSeparator | grab_condor_docs.py:175 | every synopsis match ends its capture before some separator directly followed by `Description` |
| Extract.SynopsisAt | grab_condor_docs.py:175-176 | at a given start, the synopsis pattern matches exactly when this finds a capture end, and that end is the largest any match there has |
| Extract.FindSynopsisFrom | grab_condor_docs.py:176 | scanning from a position finds the first start with a match, and there the longest capture |
| Extract.FindSynopsis | grab_condor_docs.py:175-176 | `p_synopsis.search(body)`: no result exactly when no match exists; otherwise the leftmost start with the longest capture, which ends before a separator directly followed by `Description` |
| Extract.CleanFragment | grab_condor_docs.py:179 | `i.replace('\n', ' ').strip()`: the result is the piece with its leading whitespace run and its trailing whitespace cut off and every newline made a space; it has no newline and neither starts nor ends with whitespace |
| Extract.CleanFragmentEmpty | grab_condor_docs.py:179 | a piece cleans to `""` exactly when it is all whitespace |
| Extract.SynopsisFragments | grab_condor_docs.py:179 | the list holds one cleaned piece per non-empty piece of the split, in order |
| Extract.SynopsisFragmentsFaithful | grab_condor_docs.py:179 | the split pieces rejoin to the capture, contain no name, and are kept in order by the filter; a piece that was whitespace only comes out as `""` |
| Extract.FragmentsClean | grab_condor_docs.py:179 | every fragment of the synopsis list is newline-free and stripped |
| Extract.Synopsis | grab_condor_docs.py:175-182 | the synopsis is `None` exactly when nothing matches; otherwise it is the post-processed capture of the match the search returns, and every entry is newline-free and stripped |
| Extract.GrabCmdInfo | grab_condor_docs.py:144-186 | the brief and the synopsis are those of the normalised body, each computed independently of the other; each is missing exactly when its pattern has no match there |
| Extract.RecordCmdInfo | grab_condor_docs.py:198-200 | the driver's update of a `CondorCmd` record sets its brief and synopsis to the values `grab_cmd_info` returns and keeps name, description, options and url |
| Scenarios.Release801 | grab_condor_docs.py:95-100 | `8.0.1` is kept by the `v` removal and sorts as (8, 0, 1) |
| Scenarios.Release1020 | grab_condor_docs.py:95-100 | `10.2.0` is kept and sorts as (10, 2, 0) |
| Scenarios.Release953 | grab_condor_docs.py:95-100 | `9.5.3` is kept and sorts as (9, 5, 3) |
| Scenarios.Release1019 | grab_condor_docs.py:95-100 | `10.1.9` is kept and sorts as (10, 1, 9) |
| Scenarios.OnlyDescendingArrangement | grab_condor_docs.py:98-100 | four entries with those keys have exactly one descending rearrangement |
| Scenarios.SortReleases | grab_condor_docs.py:88-101 | sorting four entries with those releases' keys descending puts them in the order `10.2.0, 10.1.9, 9.5.3, 8.0.1`, numeric and not textual order |
| Scenarios.FourEntries | grab_condor_docs.py:88-101 | a property of each of four entries holds at every position of their list |
| Scenarios.FourReleasesReady | grab_condor_docs.py:88-101 | four entries that survive `v` removal and have all three keys form a list `sort_versions` can sort |
| Scenarios.FourReleaseKeys | grab_condor_docs.py:98-100 | the keys of four entries are read back unchanged from their list |
| Scenarios.SortReleaseList | grab_condor_docs.py:88-101 | `sort_versions(["8.0.1", "10.2.0", "9.5.3", "10.1.9"], reverse=True)` is `["10.2.0", "10.1.9", "9.5.3", "8.0.1"]` |
| Scenarios.OnlyBriefMatch | grab_condor_docs.py:166-167 | a match at the very start whose heading ends the body is the one the search returns |
| Scenarios.BriefExample | grab_condor_docs.py:166-169 | on `q / ab / cd / SYNOPSIS` the brief of `q` is `ab cd`: the heading matches in any case and the line break becomes a space |
| Scenarios.SplitExample | grab_condor_docs.py:179 | `"q -a\nq -b".split("q")` is `["", " -a\n", " -b"]` |
| Scenarios.NonEmptyExample | grab_condor_docs.py:179 | the `if i` filter drops the empty piece in front of the first name |
| Scenarios.CleanExampleA | grab_condor_docs.py:179 | the piece `" -a\n"` cleans to `-a`: the newline becomes a space and both ends are stripped |
| Scenarios.CleanExampleB | grab_condor_docs.py:179 | the piece `" -b"` cleans to `-b` |
| Scenarios.SynopsisCaptureExample | grab_condor_docs.py:175-178 | on `Synopsis / q -a / q -b / Description` the capture is `q -a\nq -b` |
| Scenarios.SynopsisFragmentsExample | grab_condor_docs.py:179 | that capture post-processes to `["-a", "-b"]` |
| Scenarios.SynopsisOfCapture | grab_condor_docs.py:175-179 | a search result at the start of the body gives the post-processed capture as the synopsis |
| Scenarios.SynopsisExample | grab_condor_docs.py:175-179 | so the synopsis of `q` on that body is `["-a", "-b"]` |

## Left out

- **Network and HTML parsing.** HTTP requests, `raise_for_status`, BeautifulSoup and `soup.body.text` are not modelled. The body text is a parameter of `Extract.GrabCmdInfo`.
- **The other helpers and the output.** Not modelled:
  - `get_linked_versions`, `check_manual_exists`, `get_versions` and `grab_command_list`;
  - the JSON dump and the diagnostic prints;
  - the `__main__` entry point.
  
  All of them do I/O, or only parse HTML links.
- **The driver.** Only its update of the record (lines 198-200) is modelled. Not modelled: its loop over all commands, and the filter that skips every command but `condor_submit_dag`, which looks like debugging code.
- **The description pattern.** It is commented out in the source, so `description` and `options` are carried in `CondorCmd` but never computed.
- Versions.ParseInt: reads ASCII digits only. Python 2's `int()` on a `unicode` string also accepts the other Unicode decimal digits.
- Versions.SortVersions: runs an insertion sort in place of CPython's merge sort. Both are stable, so the result list is the same. What `SortVersions` reports when it fails:
  - it checks every entry before sorting and returns `None` for any malformed one, where Python raises while computing a pass's keys;
  - it does not say which of IndexError or ValueError Python raises.
- Extract.GrabCmdInfo: requires the command name to be non-empty and made only of ASCII letters, digits and underscores. The source splices the name into the patterns unescaped, so other characters would act as regex syntax. An empty name would make `split('')` raise ValueError.
- Extract.Synopsis: requires a non-empty name, for the same `split` reason.
- **Regular expressions in general.** Only these two patterns and the three normaliser patterns are modelled, each as a fixed matcher.
