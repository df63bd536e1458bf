# chlog: changelog update, modelled in Dafny

`chlog` adds a release entry to a `CHANGELOG.md` written in the Keep a Changelog
layout, and does the text surgery for it:

- It settles on the current version. That is the `--version` argument when it is
  given and valid; otherwise it is the greatest version named by a `## [x.y.z]`
  heading in the file.
- It increments that version, either the patch or the minor part.
- It renders the new entry: a `## [version] - date` header, then `### Added`,
  `### Changed` and `### Fixed` sections.
- It inserts the entry before the first release heading after the title line.
- It writes a new GitHub compare link, `[next]:<url>/compare/vcurrent...vnext`,
  made from the first line of the compare-link block at the end of the file.
- `chogg.py` is a standalone copy of the same steps. It always bumps the patch
  part, handles versions as integer tuples, and its entry class does not reject
  an empty entry.

The project is organised as follows:

- `wrappers.dfy` holds `Option`, `Result` and the tool's failure cases.
- `text.dfy` holds Python's `str.split`, `str.join`, `int()`/`str()` on
  non-negative integers, and `split(pat, 1)`.
- `patterns.dfy` matches the version pattern `[0-9]{1,3}\.[0-9]{1,3}\.[0-9]{1,3}`
  and the heading and link regexes built on it.
- `version.dfy` models `chlog/version.py`.
- `logentry.dfy` models `chlog/logentry.py`.
- `changelog.dfy` models the functions of `chlog/main.py`.
- `chogg.dfy` models what `chogg.py` does differently.

The file is the list of lines `readlines()` returns: each line keeps its `\n`. The
output is the list of pieces written in order, so the new entry and the new link
are single pieces. `find_insertion_index` and `find_compare_group`, whose loops walk the
lines, are methods with those loops. `update_file`, `main` and chogg's `main` are
methods too, since they run the steps in order and stop at the first failure.
Everything else, the version scan of `find_version_in_file` included, is a pure
function.

## Model

| member | source | states |
|---|---|---|
| Text.Split | chlog/version.py:25 | `s.split(sep)` always gives at least one part |
| Text.Join | chlog/logentry.py:37 | `sep.join(parts)` starts with the first part |
| Text.SplitJoin | chlog/version.py:25 | splitting at `.` the join of parts that hold no `.` gives the parts back |
| Text.SplitJoinsBack | chlog/version.py:25 | no part of `s.split(sep)` holds `sep`, and joining the parts with `sep` gives `s` back |
| Text.NatToString | chlog/version.py:33 | `str(n)` is one or more digits that parse back to `n`; it has at most 1, 2 or 3 digits exactly when `n` is below 10, 100 or 1000; it starts with `0` only for 0 |
| Text.ParseNat | chlog/version.py:25 | `int()` of a digit string is below 10 to the power of its length |
| Text.IndexOf | chlog/main.py:96 | the index found is an occurrence of the pattern with no earlier one; None means the pattern occurs nowhere |
| Text.SplitOnce | chlog/main.py:96 | `split(pat, 1)` gives two parts around the first occurrence; None exactly when the pattern does not occur |
| Text.SplitOnceUnique | chlog/main.py:96 | any split `a + pat + b` with no occurrence of `pat` inside `a` is the one `split(pat, 1)` makes |
| Patterns.MatchVersion | chlog/main.py:74 | the length of the version match at the start of a text lies between 5 and the text's length |
| Patterns.MatchIsVersionText | chlog/version.py:30 | the text a match covers is three dot-separated groups of one to three digits |
| Patterns.MatchVersionEnd | chlog/version.py:30 | a match ends on a digit, and no digit follows it |
| Patterns.MatchVersionOfText | chlog/version.py:30 | a version text followed by nothing or by a non-digit is matched in full |
| Patterns.LinkText | chlog/main.py:81-82 | a line with a compare-link capture starts with `[` |
| Patterns.LinkTextMatch | chlog/main.py:81-82 | what a link captures is matched in full by the version pattern |
| Patterns.LinkTextIff | chlog/main.py:81-82 | a line captures `g` exactly when it starts with `[`, then a version text `g`, then `]` |
| Patterns.LinkOf | chlog/main.py:81-82 | `[` + version text + `]` + anything is a link capturing that text |
| Patterns.HeadingText | chlog/main.py:74 | a line with a heading capture starts with `##` |
| Patterns.HeadingTextMatch | chlog/main.py:62 | what a heading captures is matched in full by the version pattern |
| Patterns.HeadingTextShape | chlog/main.py:74 | an accepted heading starts with `##`, a non-empty whitespace run, `[`, the captured version text and `]` |
| Patterns.HeadingOf | chlog/main.py:74 | `##`, whitespace, `[` + version text + `]` and anything is a heading capturing that text |
| Versions.IsValidVersion | chlog/version.py:29-30 | a text `is_valid_version` accepts is a version text once one trailing newline is set aside |
| Versions.ValidVersionIffText | chlog/version.py:29-30 | `is_valid_version` holds exactly for three groups of one to three digits, after at most one trailing newline is set aside (chogg.py:41-42 is the same check) |
| Versions.FromString | chlog/version.py:23-26 | parsing a valid version text gives components below 1000 |
| Versions.FromGroups | chlog/version.py:23-26 | three digit groups joined by dots are valid and parse group by group |
| Versions.ToString | chlog/version.py:32-33 | `str(v)` of components below 1000 is a version text |
| Versions.ToStringParts | chlog/version.py:32-33 | `str(v)` splits at `.` into the decimal text of major, minor and patch, and ends on a digit |
| Versions.ToStringRoundTrip | chlog/version.py:23-33 | for components below 1000, `str(v)` is valid and `from_string(str(v)) == v` |
| Versions.LeadingZeroAccepted | chlog/version.py:29-30 | for a major part below 100, a leading `0` is accepted and gives the same version, so printing does not give that text back |
| Versions.Less | chlog/version.py:15-17 | the tuple `<` on `values`: a smaller version differs, has a major part no larger, and within the same major a minor part no larger |
| Versions.LessIsStrictTotal | chlog/version.py:15-17 | the tuple order on `values` is irreflexive, transitive and total |
| Versions.MaxVersion | chlog/main.py:66-67 | `max` of a non-empty list is a member that no member exceeds; None for the empty list |
| Versions.Increment | chlog/version.py:35-46 | the major part is kept; a minor bump adds one to minor and resets patch to 0; a patch bump adds one to patch; the result is above the input |
| Versions.IncrementIsNext | chlog/version.py:35-46 | no version lies strictly between a version and its patch bump; only patch releases of the same minor lie below a minor bump |
| Versions.IncrementPastLimit | chlog/version.py:29-46 | bumping a 999 part gives a text `is_valid_version` rejects |
| LogEntries.NewLogEntry | chlog/logentry.py:9-17 | the entry holds `str(version)` and the lists in their proper fields; EmptyEntry exactly when all three lists are empty |
| LogEntries.Header | chlog/logentry.py:6 | the header is one line exactly when the version and the date hold no newline |
| LogEntries.Section | chlog/logentry.py:20-34 | a category's text is empty exactly when its list is empty |
| LogEntries.Render | chlog/logentry.py:19-37 | the rendered text starts with the header `## [version] - date` and ends with a blank line |
| LogEntries.SectionLines | chlog/logentry.py:20-34 | a category gives no lines when empty, otherwise `### Title` then `- item` for each item in order |
| LogEntries.SectionIsJoin | chlog/logentry.py:20-34 | a category's text is its lines joined by newlines |
| LogEntries.RenderIsLines | chlog/logentry.py:35-37 | the rendered text is the header and the non-empty categories' lines joined by newlines, then `\n\n` |
| LogEntries.LinesHaveNoNewlines | chlog/logentry.py:19-37 | when no field holds a newline, no rendered line does |
| LogEntries.RenderDecodes | chlog/logentry.py:19-37 | when no field holds a newline, splitting the rendered text at newlines gives back the header, the category lines and two empty strings |
| LogEntries.TitleInSection | chlog/logentry.py:20-34 | `### x` is a line of a category exactly when the list is non-empty and `x` is its title |
| LogEntries.HeadingInLines | chlog/logentry.py:19-37 | `### x` is a rendered line exactly when `x` names a non-empty category |
| LogEntries.SectionHeadingIff | chlog/logentry.py:19-37 | each category heading appears exactly when its list is non-empty |
| Changelog.IsHeading | chlog/main.py:74 | a heading line starts with `##`, so it is never a compare link |
| Changelog.IsLink | chlog/main.py:81-82 | a link line starts with `[` and captures a version text |
| Changelog.HeadingVersion | chlog/main.py:62-66 | a line names a version exactly when it is a heading; its components are below 1000 |
| Changelog.HeadingVersionOf | chlog/main.py:62 | for components below 1000, `##`, whitespace, `[str(v)]` and anything is a heading naming `v` |
| Changelog.RenderedEntryIsHeading | chlog/logentry.py:35-37 | for components below 1000, a rendered entry for `v` is itself a heading naming `v` |
| Changelog.HeadingVersions | chlog/main.py:62-66 | the versions read from the headings, at most one per line, each with components below 1000 |
| Changelog.HeadingVersionsComplete | chlog/main.py:62-66 | every heading's version is among the versions collected |
| Changelog.HeadingVersionsSound | chlog/main.py:62-66 | every version collected is named by some heading line |
| Changelog.FindVersionInFile | chlog/main.py:60-67 | None exactly when no line is a heading; otherwise a version named by a heading that no heading's version exceeds (chogg.py:101-108 is the same search, returning the tuple) |
| Changelog.InsertionIndexUnique | chlog/main.py:70-76 | there is only one first heading after line 0 |
| Changelog.FindInsertionIndex | chlog/main.py:70-76 | the index of the first heading after line 0, with line 0 skipped; NoRecords exactly when no later line is a heading (chogg.py:121-127 is the same) |
| Changelog.CompareStartUnique | chlog/main.py:79-92 | the start of the block of links ending at the last link is unique |
| Changelog.FindCompareGroup | chlog/main.py:79-92 | it returns the start of the link block that ends at the last link. With two or more lines it fails exactly when no line after line 0 is a link (NoCompareLinks). The guard testing `last` fails a one-line file (CompareAtStart). chogg.py:130-143 is the same |
| Changelog.CreateCompareGroup | chlog/main.py:95-99 | NoCompareMarker exactly when the line has no `/compare/`; NoLabelColon exactly when no `:` comes before the first `/compare/`; no other failure (chogg.py:146-150 is the same) |
| Changelog.CompareLineParts | chlog/main.py:96-97 | a line both cuts succeed on reads `tag:url/compare/rest`, with no colon in the tag and no earlier `/compare/` |
| Changelog.CompareGroupOf | chlog/main.py:95-99 | on `tag:url/compare/rest` the rewrite is `[next]:url/compare/vcurrent...vnext\n`: the URL is kept, the tag and the range are replaced |
| Changelog.RewrittenLine | chlog/main.py:97-99 | the line written starts with `[` and ends with the newline of the new range |
| Changelog.RewrittenLineIsLink | chlog/main.py:97-99 | when `next` is a version text, a rewritten line starts with the link `[next]` |
| Changelog.RewrittenMarkerFirst | chlog/main.py:96-99 | in a rewritten line, the first `/compare/` is the one written after the URL |
| Changelog.CompareGroupRechain | chlog/main.py:95-99 | rewriting a rewritten link for the following release succeeds, and equals rewriting the original line for that release |
| Changelog.CompareGroupIsLink | chlog/main.py:95-99 | when the new version is a version text, a successful rewrite is a compare link naming it |
| Changelog.Slice | chlog/main.py:124 | `lines[i:j]` has `j - i` lines, or none when `i` is past `j` |
| Changelog.Splice | chlog/main.py:119-128 | the output has two more pieces than the input, plus the lines written twice when the block starts before the insertion index. The entry sits at the insertion index, and the link sits just before the copy of the lines from the block start on |
| Changelog.SpliceInOrder | chlog/main.py:119-128 | when the entry goes before the block, the output is two pieces longer. The entry sits at the insertion index and the link just before the old block start. Every old line keeps its order |
| Changelog.SpliceRemoval | chlog/main.py:119-128 | taking the entry and the link out of such an output gives the input lines |
| Changelog.SpliceOverlap | chlog/main.py:119-128 | when the block starts before the insertion index, the lines from the block start to the index are written twice |
| Changelog.SpliceMembers | chlog/main.py:119-128 | every written piece is the entry, the link or an input line from one of the copied ranges |
| Changelog.UpdateOf | chlog/main.py:113-128 | the splice at the first heading and at the block start, with the rewritten link, is an update |
| Changelog.UpdateFile | chlog/main.py:103-128 | on any file whose title line is not a link (the empty file included), success gives the splice at the first heading and the block start. The first failing step decides the error: NoRecords when no heading follows line 0, NoCompareLinks when no link does, or else the rewrite's error at the block start. The only errors are NoRecords, NoCompareLinks, NoCompareMarker and NoLabelColon, so CompareAtStart cannot come out |
| Changelog.CurrentVersion | chlog/main.py:137-140 | a usable argument gives `from_string` of it. Without one, the result is None exactly when no line is a heading, and otherwise a version named by a heading that no heading's version exceeds. Components are below 1000 |
| Changelog.ExplicitVersionWins | chlog/main.py:137-140 | any valid `--version` text, leading zeros and one trailing newline included, gives the version `from_string` reads, whatever the file holds. The printed text of `v`, with or without that newline, gives `v` |
| Changelog.Run | chlog/main.py:131-150 | NoVersionFound exactly when there is no current version; EmptyEntry exactly when there is one but no items. With both, the update decides: NoRecords exactly when no heading follows line 0, NoCompareLinks exactly when no link does, and any other error is the rewrite's error at the block start for the current and the incremented version. Success writes the entry for the incremented version and the link from the current version to it |
| Changelog.UpdateWritesRelease | chlog/main.py:113-128 | for components below 1000, after an update for `v` a written piece is a heading naming `v` and one is a compare link naming `v` |
| Chogg.NewChoggEntry | chogg.py:12-18 | the entry stores the version text and the lists as given, with no emptiness check |
| Chogg.ChoggEmptyRender | chogg.py:20-38 | an entry without items renders to its header and a blank line |
| Chogg.ChoggEntryAgrees | chogg.py:12-18 | the two entry classes agree wherever the package's constructor succeeds; it fails exactly when the entry renders to its header alone |
| Chogg.TupleToStr | chogg.py:97-98 | `tuple_to_str` gives the empty text exactly for the empty tuple |
| Chogg.TupleToStrParts | chogg.py:97-98 | `tuple_to_str` splits back at `.` into each component's decimal text |
| Chogg.TupleToStrOfVersion | chogg.py:97-98 | on a three-part tuple it is the package's `str(v)` |
| Chogg.BumpLast | chogg.py:115 | the last component grows by one and the others are kept |
| Chogg.BumpLastIsPatchBump | chogg.py:115 | the tuple step printed is the package's patch increment printed |
| Chogg.GetNextVersion | chogg.py:111-118 | both texts are empty exactly when the file names no version |
| Chogg.ChoggNextIsValid | chogg.py:111-118 | the patch bump passes `is_valid_version` exactly when the greatest patch part is below 999 |
| Chogg.GetNextVersionIsPatchBump | chogg.py:111-118 | the pair is the greatest version in the file and its patch bump, both printed; empty texts exactly when no line is a heading |
| Chogg.ChoggMain | chogg.py:153-177 | NoRecords exactly when no heading follows line 0, and always when the file names no version; NoCompareLinks exactly when there are headings but no link after line 0; any other error is the rewrite's error at the block start. Success writes the link from the greatest version to its patch bump, and an entry for that bump when its patch part is below 1000, or for the prompted version otherwise |

## Left out

- Files, `readlines`, `writelines` and the output file name (`filename + '_'`) are
  not modelled. The lines read are a parameter, and the result is the list of
  pieces written in order.
- The `print` calls that echo the entry and the link are left out.
- argparse is left out. The options arrive as parameters, and the date's default
  of today is a parameter too, because the model has no clock.
- `LogEntry.from_user_input` is left out in both copies, because it is interactive.
  Its loop `while not added or fixed or changed` asks for the three lists again
  only when all three answers were empty. It also passes `added` and
  `changed` to a constructor whose parameter order is `changed, added`, so the two
  answers trade places. `Run` covers only the non-interactive branch of `main`.
  `ChoggMain` takes the three lists as the constructor receives them.
- `Chogg.ChoggMain` takes the first valid answer to chogg's version prompt as the
  parameter `prompted`. That prompt is reached when the next version is not valid:
  when the file names no version, or when the greatest patch part is 999. The
  invalid answers the loop asks again for are not modelled.
- `is_valid_date` (chlog/logentry.py:40, chogg.py:45) is defined but called
  nowhere, in the package or in chogg.py, so it is not modelled.
- `find_version_in_file` runs `re.findall` with `MULTILINE` over the whole text.
  The model tests each line instead, so a `\s+` that spans a line break is not
  modelled. `\s` takes its `re.ASCII` reading (space, tab, line feed, vertical tab,
  form feed, carriage return). Python's default `\s` also matches `\x1c` to `\x1f`
  and the Unicode spaces.
- `Changelog.FindCompareGroup` requires `ScanStaysInList`: a non-empty file whose
  title line is a link only when it is the only line. On an empty file the scan
  raises `IndexError`, and on a one-line file that is not a link it indexes
  `lines[-1]` and walks through Python's negative indices.
- `Changelog.UpdateFile`, `Changelog.Run` and `Chogg.ChoggMain` require only
  `TitleNotLink`: a file of two or more lines whose first line is a compare link
  is excluded by choice. The empty file and a one-line file are handled, because
  `find_insertion_index` raises NoRecords on them before the backward scan runs.
- A bump past a 999 part prints a four-digit part (`1.2.999` to `1.2.1000`). The
  tool writes that entry and that link anyway, but neither matches the heading or
  link pattern, so a later run does not read that release back. The properties
  that a written entry and link name the new release (`HeadingVersionOf`,
  `RenderedEntryIsHeading`, `RewrittenLineIsLink`, `CompareGroupIsLink`,
  `UpdateWritesRelease`) are stated for components below 1000 only.
- `Versions.Version`: components are non-negative integers. The source asserts
  only `int`, but every version it builds comes from digits or from an increment.
- `Changelog.Run`: the source crashes on `None.increment` when there is no current
  version. The model returns the error NoVersionFound instead.
- Python exceptions are modelled as the `Error` values of a `Result`, one per
  raise site.
- `setup.py` (packaging) is not part of this model.
