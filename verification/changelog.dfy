/** The line-buffer surgery of chlog/main.py (repeated verbatim in chogg.py): find
    the latest release in a changelog, find where the new entry goes and where the
    trailing block of compare links starts, rewrite the first compare link for the
    new release, and splice both into the list of lines. */
module Changelog {
  import opened Wrappers
  import opened Text
  import opened Patterns
  import opened Versions
  import opened LogEntries

  // ---------------------------------------------------------------- line kinds

  /** The line starts with a release heading `##<whitespace>[x.y.z]`. A heading
      starts with `#` and a link with `[`, so no line is both. */
  predicate IsHeading(line: string)
    ensures IsHeading(line) ==> |line| >= 2 && line[..2] == "##" && !IsLink(line)
  {
    HeadingText(line).Some?
  }

  /** The line starts with a compare link `[x.y.z]`; what it captures is a
      version text. */
  predicate IsLink(line: string)
    ensures IsLink(line) ==> LinkText(line).Some? && line[0] == '[' && VersionText(LinkText(line).value)
  {
    match LinkText(line)
    case None => false
    case Some(g) => LinkTextIff(line, g); true
  }

  /** The version a heading line names, read as integers. */
  function HeadingVersion(line: string): (r: Option<Version>)
    ensures r.Some? <==> IsHeading(line)
    ensures r.Some? ==> r.value.major < 1000 && r.value.minor < 1000 && r.value.patch < 1000
  {
    match HeadingText(line)
    case None => None
    case Some(g) =>
      HeadingTextMatch(line);
      Some(FromString(g))
  }

  /** `##`, whitespace, a bracketed version text, anything: a heading naming that version. */
  lemma HeadingVersionOf(w: string, v: Version, t: string)
    requires w != [] && forall i :: 0 <= i < |w| ==> IsSpace(w[i])
    requires v.major < 1000 && v.minor < 1000 && v.patch < 1000
    ensures HeadingVersion("##" + w + "[" + ToString(v) + "]" + t) == Some(v)
  {
    var g := ToString(v);
    ToStringRoundTrip(v);
    ToStringParts(v);
    assert StripNewline(g) == g;
    ValidVersionIffText(g);
    HeadingOf(w, g, t);
  }

  /** A text that starts with `## [g] - date` regrouped around its bracketed part. */
  lemma HeaderPrefix(g: string, date: string, r: string)
    requires |r| >= |"## [" + g + "] - " + date|
    requires r[..|"## [" + g + "] - " + date|] == "## [" + g + "] - " + date
    ensures r == "##" + " " + "[" + g + "]" + (" - " + date + r[|"## [" + g + "] - " + date|..])
  {
    var h := "## [" + g + "] - " + date;
    assert r == h + r[|h|..];
  }

  /** Any text that starts with an entry header is a heading naming its version. */
  lemma HeaderPrefixIsHeading(v: Version, date: string, r: string)
    requires v.major < 1000 && v.minor < 1000 && v.patch < 1000
    requires |r| >= |"## [" + ToString(v) + "] - " + date|
    requires r[..|"## [" + ToString(v) + "] - " + date|] == "## [" + ToString(v) + "] - " + date
    ensures HeadingVersion(r) == Some(v)
  {
    HeaderPrefix(ToString(v), date, r);
    HeadingVersionOf(" ", v, " - " + date + r[|"## [" + ToString(v) + "] - " + date|..]);
  }

  /** A rendered entry starts with a heading that names the entry's version: a
      later scan of the written file finds the release this run wrote. */
  lemma RenderedEntryIsHeading(v: Version, date: string, added: seq<string>,
                               changed: seq<string>, fixed: seq<string>)
    requires v.major < 1000 && v.minor < 1000 && v.patch < 1000
    ensures HeadingVersion(Render(LogEntry(ToString(v), date, added, changed, fixed))) == Some(v)
  {
    var e := LogEntry(ToString(v), date, added, changed, fixed);
    HeaderPrefixIsHeading(v, date, Render(e));
  }

  // ---------------------------------------------------------------- find_version_in_file

  /** The versions of all heading lines, in file order. */
  function HeadingVersions(lines: seq<string>): (vs: seq<Version>)
    ensures |vs| <= |lines|
    ensures forall k :: 0 <= k < |vs| ==> vs[k].major < 1000 && vs[k].minor < 1000 && vs[k].patch < 1000
    decreases |lines|
  {
    if lines == [] then []
    else
      match HeadingVersion(lines[0])
      case None => HeadingVersions(lines[1..])
      case Some(v) => [v] + HeadingVersions(lines[1..])
  }

  lemma HeadingVersionsComplete(lines: seq<string>)
    ensures forall i :: 0 <= i < |lines| && IsHeading(lines[i]) ==>
      HeadingVersion(lines[i]).value in HeadingVersions(lines)
  {
    forall i | 0 <= i < |lines| && IsHeading(lines[i])
      ensures HeadingVersion(lines[i]).value in HeadingVersions(lines)
    {
      HeadingVersionAt(lines, i);
    }
  }

  lemma {:induction false} HeadingVersionAt(lines: seq<string>, i: nat)
    requires i < |lines| && IsHeading(lines[i])
    ensures HeadingVersion(lines[i]).value in HeadingVersions(lines)
    decreases i
  {
    HeadingVersionsStep(lines);
    if i > 0 {
      assert lines[1..][i - 1] == lines[i];
      HeadingVersionAt(lines[1..], i - 1);
    }
  }

  /** The versions of a list are those of its first line, then those of the rest. */
  lemma HeadingVersionsStep(lines: seq<string>)
    requires lines != []
    ensures HeadingVersions(lines) ==
      (if IsHeading(lines[0]) then [HeadingVersion(lines[0]).value] else []) + HeadingVersions(lines[1..])
  {
  }

  lemma {:induction false} HeadingVersionsSound(lines: seq<string>)
    ensures forall v :: v in HeadingVersions(lines) ==>
      exists i :: 0 <= i < |lines| && HeadingVersion(lines[i]) == Some(v)
    decreases |lines|
  {
    if lines != [] {
      HeadingVersionsSound(lines[1..]);
      forall v | v in HeadingVersions(lines)
        ensures exists i :: 0 <= i < |lines| && HeadingVersion(lines[i]) == Some(v)
      {
        if HeadingVersion(lines[0]) != Some(v) {
          assert v in HeadingVersions(lines[1..]);
          var i :| 0 <= i < |lines| - 1 && HeadingVersion(lines[1..][i]) == Some(v);
          assert lines[i + 1] == lines[1..][i];
        }
      }
    }
  }

  /** `find_version_in_file`: the greatest version named by a heading line, in the
      integer tuple order (so 1.10.0 is above 1.9.0), or None when no line is a
      heading. Unlike the insertion search, line 0 is scanned too. */
  function FindVersionInFile(lines: seq<string>): (r: Option<Version>)
    ensures r.None? <==> forall i :: 0 <= i < |lines| ==> !IsHeading(lines[i])
    ensures r.Some? ==> exists i :: 0 <= i < |lines| && HeadingVersion(lines[i]) == Some(r.value)
    ensures r.Some? ==> r.value.major < 1000 && r.value.minor < 1000 && r.value.patch < 1000
    ensures r.Some? ==> forall i :: 0 <= i < |lines| && IsHeading(lines[i]) ==>
      !Less(r.value, HeadingVersion(lines[i]).value)
  {
    HeadingVersionsComplete(lines);
    HeadingVersionsSound(lines);
    MaxVersion(HeadingVersions(lines))
  }

  // ---------------------------------------------------------------- find_insertion_index

  /** `i` is the first heading after line 0. */
  predicate IsInsertionIndex(lines: seq<string>, i: int)
  {
    1 <= i < |lines| && IsHeading(lines[i]) && forall k :: 1 <= k < i ==> !IsHeading(lines[k])
  }

  /** There is at most one first heading. */
  lemma InsertionIndexUnique(lines: seq<string>, i: int, j: int)
    requires IsInsertionIndex(lines, i) && IsInsertionIndex(lines, j)
    ensures i == j
  {
  }

  /** `find_insertion_index`: the first heading line after line 0; line 0 is
      skipped even when it is a heading. Fails when there is none. */
  method FindInsertionIndex(lines: seq<string>) returns (r: Result<nat, Error>)
    ensures r.Ok? ==> IsInsertionIndex(lines, r.value)
    ensures r.Err? ==> r.error == NoRecords
    ensures r.Err? <==> forall k :: 1 <= k < |lines| ==> !IsHeading(lines[k])
  {
    for i := 0 to |lines|
      invariant forall k :: 1 <= k < i ==> !IsHeading(lines[k])
    {
      if i == 0 {
        continue;
      }
      if IsHeading(lines[i]) {
        return Ok(i);
      }
    }
    return Err(NoRecords);
  }

  // ---------------------------------------------------------------- find_compare_group

  /** The backward scan never steps before line 0: the file is not empty, a
      one-line file is a link, and in a longer file the title line is not a link. */
  predicate ScanStaysInList(lines: seq<string>)
  {
    |lines| >= 1 && (|lines| == 1 ==> IsLink(lines[0])) && (|lines| >= 2 ==> !IsLink(lines[0]))
  }

  /** The title line of a file with more lines is not a compare link. */
  predicate TitleNotLink(lines: seq<string>)
  {
    |lines| >= 2 ==> !IsLink(lines[0])
  }

  /** `last` is the last link line after line 0. */
  predicate IsLastLink(lines: seq<string>, last: int)
  {
    1 <= last < |lines| && IsLink(lines[last]) && forall k :: last < k < |lines| ==> !IsLink(lines[k])
  }

  /** `c` starts the contiguous block of link lines that ends at the last link. */
  predicate IsCompareStart(lines: seq<string>, c: int)
  {
    1 <= c < |lines| && !IsLink(lines[c - 1])
    && exists last :: c <= last < |lines| && IsLastLink(lines, last) && forall k :: c <= k <= last ==> IsLink(lines[k])
  }

  /** The block start is unique. */
  lemma CompareStartUnique(lines: seq<string>, c1: int, c2: int)
    requires IsCompareStart(lines, c1) && IsCompareStart(lines, c2)
    ensures c1 == c2
  {
    var l1 :| c1 <= l1 < |lines| && IsLastLink(lines, l1) && forall k :: c1 <= k <= l1 ==> IsLink(lines[k]);
    var l2 :| c2 <= l2 < |lines| && IsLastLink(lines, l2) && forall k :: c2 <= k <= l2 ==> IsLink(lines[k]);
    assert l1 == l2;
  }

  /** A non-link line followed by link lines up to the last link: the block starts
      right after it. */
  lemma CompareStartOf(lines: seq<string>, first: int, last: int)
    requires 0 <= first < last < |lines|
    requires IsLink(lines[last]) && forall k :: last < k < |lines| ==> !IsLink(lines[k])
    requires !IsLink(lines[first]) && forall k :: first < k <= last ==> IsLink(lines[k])
    ensures IsCompareStart(lines, first + 1)
  {
    assert IsLastLink(lines, last);
  }

  /** One more non-link line above the tail extends it. */
  lemma NonLinkTailGrows(lines: seq<string>, last: int)
    requires 0 <= last < |lines|
    requires !IsLink(lines[last]) && forall k :: last < k < |lines| ==> !IsLink(lines[k])
    ensures forall k :: last - 1 < k < |lines| ==> !IsLink(lines[k])
  {
  }

  /** One more link line below the block extends it. */
  lemma LinkBlockGrows(lines: seq<string>, first: int, last: int)
    requires 0 <= first <= last < |lines|
    requires IsLink(lines[first]) && forall k :: first < k <= last ==> IsLink(lines[k])
    ensures forall k :: first - 1 < k <= last ==> IsLink(lines[k])
  {
  }

  /** `find_compare_group`: walk back from the end to the last link line, failing
      if line 0 is reached; then walk back over the block of link lines and return
      where it starts. The start-of-file guard tests `last`, not the index that
      moves, so it fires only for a file that is one link line. */
  method FindCompareGroup(lines: seq<string>) returns (r: Result<nat, Error>)
    requires ScanStaysInList(lines)
    ensures |lines| == 1 ==> r == Err(CompareAtStart)
    ensures |lines| >= 2 ==> (r.Err? <==> forall k :: 1 <= k < |lines| ==> !IsLink(lines[k]))
    ensures |lines| >= 2 && r.Err? ==> r.error == NoCompareLinks
    ensures r.Ok? ==> IsCompareStart(lines, r.value)
  {
    var last := |lines| - 1;
    while !IsLink(lines[last])
      invariant 0 <= last < |lines|
      invariant |lines| >= 2 ==> 1 <= last
      invariant forall k :: last < k < |lines| ==> !IsLink(lines[k])
      decreases last
    {
      NonLinkTailGrows(lines, last);
      last := last - 1;
      if last == 0 {
        return Err(NoCompareLinks);
      }
    }
    var first := last;
    while IsLink(lines[first])
      invariant 0 <= first <= last
      invariant forall k :: first < k <= last ==> IsLink(lines[k])
      decreases first
    {
      LinkBlockGrows(lines, first, last);
      first := first - 1;
      if last == 0 {
        return Err(CompareAtStart);
      }
    }
    CompareStartOf(lines, first, last);
    return Ok(first + 1);
  }

  // ---------------------------------------------------------------- create_compare_group

  /** What separates a compare link's repository URL from its version range. */
  const Marker: string := "/compare/"

  /** The range written for a release: `v{current}...v{next}` and a line break. */
  function RangeTail(current: string, next: string): string
  {
    "v" + current + "...v" + next + "\n"
  }

  /** `create_compare_group`: cut the line at its first `/compare/`, cut the part
      before that at its first `:`, and write `[next]:`, what followed that colon,
      `/compare/` and the new range; the old range is dropped. Fails when the line
      holds no `/compare/` (the two-way unpacking raises) or no `:` before it (the
      index `[1]` raises). */
  function CreateCompareGroup(line: string, current: string, next: string): (r: Result<string, Error>)
    ensures r == Err(NoCompareMarker) <==> IndexOf(line, Marker).None?
    ensures r == Err(NoLabelColon) <==>
      IndexOf(line, Marker).Some? && ':' !in line[..IndexOf(line, Marker).value]
    ensures r.Err? ==> r.error == NoCompareMarker || r.error == NoLabelColon
  {
    match SplitOnce(line, Marker)
    case None => Err(NoCompareMarker)
    case Some((head, _)) =>
      OccursChar(head, ':');
      assert [':'] == ":";
      match SplitOnce(head, ":")
      case None => Err(NoLabelColon)
      case Some((_, url)) => Ok(RewrittenLine(url, current, next))
  }

  /** The line `create_compare_group` writes: `[next]:`, the kept URL, `/compare/`
      and the new range. */
  function RewrittenLine(url: string, current: string, next: string): (s: string)
    ensures |s| > 0 && s[0] == '[' && s[|s| - 1] == '\n'
  {
    "[" + next + "]" + ":" + url + Marker + RangeTail(current, next)
  }

  /** The written line is a compare link for the new release. */
  lemma RewrittenLineIsLink(url: string, current: string, next: string)
    requires VersionText(next)
    ensures LinkText(RewrittenLine(url, current, next)) == Some(next)
  {
    var t := ":" + url + Marker + RangeTail(current, next);
    assert RewrittenLine(url, current, next) == "[" + next + "]" + t;
    LinkOf(next, t);
  }

  /** A line that both cuts succeed on reads `tag:url/compare/rest`, where the tag
      has no colon and `/compare/` does not occur before the one shown. */
  lemma CompareLineParts(line: string) returns (tag: string, url: string, rest: string)
    requires IndexOf(line, Marker).Some? && ':' in line[..IndexOf(line, Marker).value]
    ensures line == tag + ":" + url + Marker + rest
    ensures ':' !in tag
    ensures forall j :: 0 <= j < |tag| + 1 + |url| ==> !OccursAt(line, Marker, j)
  {
    var head := MarkerCut(line);
    rest := line[|head| + |Marker|..];
    tag, url := ColonCut(head);
  }

  /** The cut at the first `/compare/`. */
  lemma MarkerCut(line: string) returns (head: string)
    requires IndexOf(line, Marker).Some?
    ensures head == line[..IndexOf(line, Marker).value]
    ensures line == head + Marker + line[|head| + |Marker|..]
    ensures forall j :: 0 <= j < |head| ==> !OccursAt(line, Marker, j)
  {
    var i := IndexOf(line, Marker).value;
    head := line[..i];
    assert line[i..i + |Marker|] == Marker;
  }

  /** The cut at the first colon: the part before it has no colon. */
  lemma ColonCut(head: string) returns (tag: string, url: string)
    requires ':' in head
    ensures head == tag + ":" + url
    ensures ':' !in tag
  {
    OccursChar(head, ':');
    assert [':'] == ":";
    var cut := SplitOnce(head, ":").value;
    tag, url := cut.0, cut.1;
    forall j | 0 <= j < |tag| ensures tag[j] != ':' {
      assert !OccursAt(head, ":", j);
      assert head[j..j + 1] == [tag[j]];
    }
  }

  /** The result on a line `tag:url/compare/rest` whose tag has no colon and
      where `/compare/` does not occur before the one shown: the URL is kept, the
      tag and the range are replaced. */
  lemma CompareGroupOf(tag: string, url: string, rest: string, current: string, next: string)
    requires ':' !in tag
    requires forall j :: 0 <= j < |tag| + 1 + |url| ==>
      !OccursAt(tag + ":" + url + Marker + rest, Marker, j)
    ensures CreateCompareGroup(tag + ":" + url + Marker + rest, current, next)
      == Ok(RewrittenLine(url, current, next))
  {
    var line := tag + ":" + url + Marker + rest;
    var head := tag + ":" + url;
    assert line == head + Marker + rest;
    SplitOnceUnique(line, Marker, head, rest);
    forall j | 0 <= j < |tag| ensures !OccursAt(head, ":", j) {
      assert head[j] == tag[j];
    }
    SplitOnceUnique(head, ":", tag, url);
  }

  /** In a rewritten line, `/compare/` first occurs where it was written, provided
      the version text holds no `/`. */
  lemma RewrittenMarkerFirst(tag: string, url: string, rest: string, current: string, next: string)
    requires forall j :: 0 <= j < |tag| + 1 + |url| ==> !OccursAt(tag + ":" + url + Marker + rest, Marker, j)
    requires '/' !in next
    ensures forall j :: 0 <= j < |next| + 3 + |url| ==>
      !OccursAt(RewrittenLine(url, current, next), Marker, j)
  {
    var line := tag + ":" + url + Marker + rest;
    var tag' := "[" + next + "]";
    var out := RewrittenLine(url, current, next);
    var o, o' := |tag| + 1, |tag'| + 1;
    var len := |url| + |Marker|;
    assert line[o..o + len] == url + Marker;
    assert out[o'..o' + len] == url + Marker;
    forall j | 0 <= j < o' + |url| ensures !OccursAt(out, Marker, j) {
      if j < o' {
        assert out[j] == (tag' + ":")[j];
        assert Marker[0] == '/';
      } else {
        OccursShift(out, o', line, o, len, Marker, j - o');
      }
    }
  }

  /** Rewriting a rewritten link for the following release is the same as
      rewriting the original line for it: the repository URL survives a rewrite,
      as long as the version text holds no `:` and no `/`. */
  lemma CompareGroupRechain(line: string, a: string, b: string, c: string)
    requires CreateCompareGroup(line, a, b).Ok?
    requires ':' !in b && '/' !in b
    ensures CreateCompareGroup(CreateCompareGroup(line, a, b).value, b, c).Ok?
    ensures CreateCompareGroup(CreateCompareGroup(line, a, b).value, b, c)
      == CreateCompareGroup(line, b, c)
  {
    var tag, url, rest := CompareLineParts(line);
    CompareGroupOf(tag, url, rest, a, b);
    CompareGroupOf(tag, url, rest, b, c);
    RewrittenMarkerFirst(tag, url, rest, a, b);
    var tag' := "[" + b + "]";
    CompareGroupOf(tag', url, RangeTail(a, b), b, c);
  }

  /** The rewritten line is a compare link for the new release. */
  lemma CompareGroupIsLink(line: string, current: string, next: string)
    requires CreateCompareGroup(line, current, next).Ok?
    requires VersionText(next)
    ensures LinkText(CreateCompareGroup(line, current, next).value) == Some(next)
  {
    var tag, url, rest := CompareLineParts(line);
    CompareGroupOf(tag, url, rest, current, next);
    RewrittenLineIsLink(url, current, next);
  }

  // ---------------------------------------------------------------- update_file

  /** Python's `lines[i:j]` for indices inside the list: empty when `i` is past `j`. */
  function Slice(lines: seq<string>, i: nat, j: nat): (r: seq<string>)
    requires i <= |lines| && j <= |lines|
    ensures |r| == if i <= j then j - i else 0
  {
    if i <= j then lines[i..j] else []
  }

  /** What `update_file` writes, piece by piece: the lines before the insertion
      index, the rendered entry, the lines from there up to the compare block, the
      rewritten compare line, and the lines from the compare block on. */
  function Splice(lines: seq<string>, ins: nat, cmp: nat, entry: string, link: string): (out: seq<string>)
    requires ins <= |lines| && cmp <= |lines|
    ensures |out| == |lines| + 2 + (if cmp < ins then ins - cmp else 0)
    ensures out[ins] == entry
    ensures out[|out| - (|lines| - cmp) - 1] == link
  {
    lines[..ins] + [entry] + Slice(lines, ins, cmp) + [link] + lines[cmp..]
  }

  /** When the entry goes before the compare block, the entry lands at `ins`, the
      rewritten link at `cmp + 1`, and every old line keeps its relative order. */
  lemma SpliceInOrder(lines: seq<string>, ins: nat, cmp: nat, entry: string, link: string,
                      out: seq<string>)
    requires ins <= cmp <= |lines|
    requires out == Splice(lines, ins, cmp, entry, link)
    ensures |out| == |lines| + 2
    ensures out[ins] == entry && out[cmp + 1] == link
    ensures forall k :: 0 <= k < ins ==> out[k] == lines[k]
    ensures forall k :: ins <= k < cmp ==> out[k + 1] == lines[k]
    ensures forall k :: cmp <= k < |lines| ==> out[k + 2] == lines[k]
  {
  }

  /** When the entry goes before the compare block, taking the two new pieces out
      gives the file back: nothing else changes. */
  lemma SpliceRemoval(lines: seq<string>, ins: nat, cmp: nat, entry: string, link: string,
                      out: seq<string>)
    requires ins <= cmp <= |lines|
    requires out == Splice(lines, ins, cmp, entry, link)
    ensures out[..ins] + out[ins + 1..cmp + 1] + out[cmp + 2..] == lines
  {
    assert out[..ins] == lines[..ins];
    assert out[ins + 1..cmp + 1] == lines[ins..cmp];
    assert out[cmp + 2..] == lines[cmp..];
    assert lines[..ins] + lines[ins..cmp] + lines[cmp..] == lines;
  }

  /** When the compare block starts before the insertion index, the link is written
      right after the entry and the lines from the block up to the insertion index
      are written twice. */
  lemma SpliceOverlap(lines: seq<string>, ins: nat, cmp: nat, entry: string, link: string,
                      out: seq<string>)
    requires cmp < ins <= |lines|
    requires out == Splice(lines, ins, cmp, entry, link)
    ensures |out| == |lines| + 2 + (ins - cmp)
    ensures out[..ins] == lines[..ins] && out[ins] == entry && out[ins + 1] == link
    ensures out[ins + 2..] == lines[cmp..]
  {
  }

  /** Every piece written is an old line or one of the two new pieces. */
  lemma SpliceMembers(lines: seq<string>, ins: nat, cmp: nat, entry: string, link: string, x: string)
    requires ins <= |lines| && cmp <= |lines|
    ensures x in Splice(lines, ins, cmp, entry, link) <==>
      x == entry || x == link || x in lines[..ins] || x in Slice(lines, ins, cmp) || x in lines[cmp..]
  {
  }

  /** An output of `update_file`: the splice at the first heading after the title
      and at the start of the compare block, with the block's first line rewritten. */
  predicate IsUpdate(lines: seq<string>, entry: string, current: string, next: string, out: seq<string>)
  {
    exists ins, cmp :: 0 <= ins < |lines| && 0 <= cmp < |lines|
      && IsInsertionIndex(lines, ins) && IsCompareStart(lines, cmp)
      && CreateCompareGroup(lines[cmp], current, next).Ok?
      && out == Splice(lines, ins, cmp, entry, CreateCompareGroup(lines[cmp], current, next).value)
  }

  /** The splice at a found insertion index and compare block start is an update. */
  lemma UpdateOf(lines: seq<string>, ins: nat, cmp: nat, entry: string, current: string,
                 next: string, out: seq<string>)
    requires IsInsertionIndex(lines, ins) && IsCompareStart(lines, cmp)
    requires CreateCompareGroup(lines[cmp], current, next).Ok?
    requires out == Splice(lines, ins, cmp, entry, CreateCompareGroup(lines[cmp], current, next).value)
    ensures IsUpdate(lines, entry, current, next, out)
  {
  }

  /** No line after the title is a release heading. */
  predicate NoRecordLines(lines: seq<string>)
  {
    forall k :: 1 <= k < |lines| ==> !IsHeading(lines[k])
  }

  /** `update_file` on the lines `readlines` gives: locate the insertion index and
      the compare block, rewrite the block's first line, then write the pieces out
      in order. The first failing step decides the error, so a one-line file fails
      on the missing records before the compare scan could reach its guard. */
  method UpdateFile(lines: seq<string>, entry: LogEntry, current: string, next: string)
    returns (r: Result<seq<string>, Error>)
    requires TitleNotLink(lines)
    ensures r.Ok? ==> IsUpdate(lines, Render(entry), current, next, r.value)
    ensures r == Err(NoRecords) <==> NoRecordLines(lines)
    ensures r == Err(NoCompareLinks) <==>
      !NoRecordLines(lines) && forall k :: 1 <= k < |lines| ==> !IsLink(lines[k])
    ensures r != Err(CompareAtStart)
    ensures r.Err? ==> r.error in {NoRecords, NoCompareLinks, NoCompareMarker, NoLabelColon}
    ensures r.Err? && r.error != NoRecords && r.error != NoCompareLinks ==>
      exists cmp :: IsCompareStart(lines, cmp) && CreateCompareGroup(lines[cmp], current, next) == Err(r.error)
  {
    var ins := FindInsertionIndex(lines);
    if ins.Err? {
      return Err(ins.error);
    }
    assert ScanStaysInList(lines);
    var cmp := FindCompareGroup(lines);
    if cmp.Err? {
      return Err(cmp.error);
    }
    var link := CreateCompareGroup(lines[cmp.value], current, next);
    if link.Err? {
      return Err(link.error);
    }
    var out := lines[..ins.value];
    out := out + [Render(entry)];
    out := out + Slice(lines, ins.value, cmp.value);
    out := out + [link.value];
    out := out + lines[cmp.value..];
    assert out == Splice(lines, ins.value, cmp.value, Render(entry), link.value);
    UpdateOf(lines, ins.value, cmp.value, Render(entry), current, next, out);
    return Ok(out);
  }

  // ---------------------------------------------------------------- main

  /** The `--version` argument is used when it is given, non-empty and valid. */
  predicate UsesArgument(arg: Option<string>)
  {
    arg.Some? && arg.value != [] && IsValidVersion(arg.value)
  }

  /** The current version `main` settles on: the argument when it is used, otherwise
      the greatest version named in the file, or None when there is neither. */
  function CurrentVersion(arg: Option<string>, lines: seq<string>): (r: Option<Version>)
    ensures r.None? <==> !UsesArgument(arg) && forall i :: 0 <= i < |lines| ==> !IsHeading(lines[i])
    ensures r.Some? ==> r.value.major < 1000 && r.value.minor < 1000 && r.value.patch < 1000
    ensures r.Some? && !UsesArgument(arg) ==> forall i :: 0 <= i < |lines| && IsHeading(lines[i]) ==>
      !Less(r.value, HeadingVersion(lines[i]).value)
    ensures r.Some? && !UsesArgument(arg) ==> exists i :: 0 <= i < |lines| && HeadingVersion(lines[i]) == r
    ensures UsesArgument(arg) ==> r == Some(FromString(arg.value))
  {
    if UsesArgument(arg) then Some(FromString(arg.value))
    else FindVersionInFile(lines)
  }

  /** A valid `--version` text is the version used, whatever the file says: leading
      zeros and one trailing newline are accepted and read by `from_string`, and the
      printed text of a version, with or without that newline, gives the version. */
  lemma ExplicitVersionWins(s: string, lines: seq<string>, other: seq<string>)
    requires IsValidVersion(s)
    ensures CurrentVersion(Some(s), lines) == CurrentVersion(Some(s), other) == Some(FromString(s))
    ensures forall v: Version ::
      (v.major < 1000 && v.minor < 1000 && v.patch < 1000 && (s == ToString(v) || s == ToString(v) + "\n"))
      ==> CurrentVersion(Some(s), lines) == Some(v)
  {
    forall v: Version |
      v.major < 1000 && v.minor < 1000 && v.patch < 1000 && (s == ToString(v) || s == ToString(v) + "\n")
      ensures FromString(s) == v
    {
      ToStringRoundTrip(v);
      ToStringParts(v);
      assert StripNewline(s) == StripNewline(ToString(v)) == ToString(v);
    }
  }

  /** `main`: settle the current version, bump it, build the entry and update the
      file. A missing current version, which makes the source fail on
      `None.increment`, is the error NoVersionFound. */
  method Run(arg: Option<string>, date: string, minor: bool, added: seq<string>,
             changed: seq<string>, fixed: seq<string>, lines: seq<string>)
    returns (r: Result<seq<string>, Error>)
    requires TitleNotLink(lines)
    ensures r == Err(NoVersionFound) <==> CurrentVersion(arg, lines).None?
    ensures r == Err(EmptyEntry) <==>
      CurrentVersion(arg, lines).Some? && added == [] && changed == [] && fixed == []
    ensures r.Ok? ==> CurrentVersion(arg, lines).Some? && (added != [] || changed != [] || fixed != [])
    ensures CurrentVersion(arg, lines).Some? && (added != [] || changed != [] || fixed != []) ==>
      (r == Err(NoRecords) <==> NoRecordLines(lines))
    ensures CurrentVersion(arg, lines).Some? && (added != [] || changed != [] || fixed != []) ==>
      (r == Err(NoCompareLinks) <==>
        !NoRecordLines(lines) && forall k :: 1 <= k < |lines| ==> !IsLink(lines[k]))
    ensures r.Err? && r.error !in {NoVersionFound, EmptyEntry, NoRecords, NoCompareLinks} ==>
      CurrentVersion(arg, lines).Some? &&
      var current := CurrentVersion(arg, lines).value;
      var next := Increment(current, minor);
      exists cmp :: IsCompareStart(lines, cmp)
        && CreateCompareGroup(lines[cmp], ToString(current), ToString(next)) == Err(r.error)
    ensures r.Ok? ==>
      var current := CurrentVersion(arg, lines).value;
      var next := Increment(current, minor);
      IsUpdate(lines, Render(LogEntry(ToString(next), date, added, changed, fixed)),
               ToString(current), ToString(next), r.value)
  {
    var current := CurrentVersion(arg, lines);
    if current.None? {
      return Err(NoVersionFound);
    }
    var next := Increment(current.value, minor);
    var entry := NewLogEntry(next, date, changed, added, fixed);
    if entry.Err? {
      return Err(entry.error);
    }
    r := UpdateFile(lines, entry.value, ToString(current.value), ToString(next));
  }

  /** After an update for version `v`, the written pieces hold a heading naming `v`
      (the new entry) and a compare link naming `v` (the rewritten line). */
  lemma UpdateWritesRelease(lines: seq<string>, v: Version, date: string, added: seq<string>,
                            changed: seq<string>, fixed: seq<string>, current: string,
                            out: seq<string>)
    requires v.major < 1000 && v.minor < 1000 && v.patch < 1000
    requires IsUpdate(lines, Render(LogEntry(ToString(v), date, added, changed, fixed)),
                      current, ToString(v), out)
    ensures exists k :: 0 <= k < |out| && HeadingVersion(out[k]) == Some(v)
    ensures exists k :: 0 <= k < |out| && LinkText(out[k]) == Some(ToString(v))
  {
    var entry := Render(LogEntry(ToString(v), date, added, changed, fixed));
    var ins, cmp :| 0 <= ins < |lines| && 0 <= cmp < |lines|
      && IsInsertionIndex(lines, ins) && IsCompareStart(lines, cmp)
      && CreateCompareGroup(lines[cmp], current, ToString(v)).Ok?
      && out == Splice(lines, ins, cmp, entry, CreateCompareGroup(lines[cmp], current, ToString(v)).value);
    var link := CreateCompareGroup(lines[cmp], current, ToString(v)).value;
    RenderedEntryIsHeading(v, date, added, changed, fixed);
    CompareGroupIsLink(lines[cmp], current, ToString(v));
    assert HeadingVersion(out[ins]) == Some(v);
    assert LinkText(out[|out| - (|lines| - cmp) - 1]) == Some(ToString(v));
  }
}
