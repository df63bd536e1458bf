/** One changelog entry and its rendering in the Keep a Changelog layout
    (chlog/logentry.py): a `## [version] - date` header, then `### Added`,
    `### Changed` and `### Fixed` sections listing their items as `- item`. */
module LogEntries {
  import opened Wrappers
  import opened Text
  import opened Versions

  /** The fields of a `LogEntry`; the version is kept as text. */
  datatype LogEntry = LogEntry(
    version: string,
    date: string,
    added: seq<string>,
    changed: seq<string>,
    fixed: seq<string>)

  /** The constructor `LogEntry(version, date, changed, added, fixed)` (note the
      positional order): it stores `str(version)` and the three lists, and raises
      when all three lists are empty. */
  function NewLogEntry(version: Version, date: string, changed: seq<string>,
                       added: seq<string>, fixed: seq<string>): (r: Result<LogEntry, Error>)
    ensures r.Err? <==> added == [] && changed == [] && fixed == []
    ensures r.Err? ==> r.error == EmptyEntry
    ensures r.Ok? ==> r.value == LogEntry(ToString(version), date, added, changed, fixed)
  {
    if added == [] && changed == [] && fixed == [] then Err(EmptyEntry)
    else Ok(LogEntry(ToString(version), date, added, changed, fixed))
  }

  // ---------------------------------------------------------------- render

  /** The class template `## [{version}] - {date}`: one line when the version
      and the date hold no newline. */
  function Header(e: LogEntry): (h: string)
    ensures '\n' !in e.version && '\n' !in e.date <==> '\n' !in h
  {
    "## [" + e.version + "] - " + e.date
  }

  /** Each item formatted with the template `- {}`, in input order. */
  function Bullets(items: seq<string>): (lines: seq<string>)
  {
    seq(|items|, k requires 0 <= k < |items| => "- " + items[k])
  }

  /** One category's text: its heading line and one line per item, or nothing at
      all when the list is empty. */
  function Section(title: string, items: seq<string>): (s: string)
    ensures s == [] <==> items == []
  {
    if items == [] then "" else "### " + title + "\n" + Join(Bullets(items), '\n')
  }

  /** `render()`: the header and the non-empty sections, in the order Added,
      Changed, Fixed, joined by newlines, then a blank line. */
  function Render(e: LogEntry): (r: string)
    ensures |Header(e)| + 2 <= |r|
    ensures r[..|Header(e)|] == Header(e)
    ensures r[|r| - 2..] == "\n\n"
  {
    var content := [Header(e), Section("Added", e.added), Section("Changed", e.changed),
                    Section("Fixed", e.fixed)];
    assert NonEmpty(content)[0] == Header(e);
    Join(NonEmpty(content), '\n') + "\n\n"
  }

  // ---------------------------------------------------------------- the rendered lines

  /** The lines of one category: heading then items, or none when it is empty. */
  function SectionLines(title: string, items: seq<string>): (lines: seq<string>)
    ensures items == [] ==> lines == []
    ensures items != [] ==> |lines| == |items| + 1 && lines[0] == "### " + title
    ensures forall k :: 0 <= k < |items| ==> lines[k + 1] == "- " + items[k]
  {
    if items == [] then [] else ["### " + title] + Bullets(items)
  }

  /** The lines a rendered entry consists of, header first. */
  function Lines(e: LogEntry): seq<string>
  {
    [Header(e)] + SectionLines("Added", e.added) + SectionLines("Changed", e.changed)
      + SectionLines("Fixed", e.fixed)
  }

  /** A section's text is its lines joined by newlines. */
  lemma SectionIsJoin(title: string, items: seq<string>)
    ensures Section(title, items) == Join(SectionLines(title, items), '\n')
  {
    if items != [] {
      JoinAppend(["### " + title], Bullets(items), '\n');
      assert ["### " + title] + Bullets(items) == SectionLines(title, items);
    }
  }

  /** The nested joins of `render` flatten out: the rendered text is the entry's
      lines joined by newlines, followed by a blank line. */
  lemma RenderIsLines(e: LogEntry)
    ensures Render(e) == Join(Lines(e), '\n') + "\n\n"
  {
    SectionIsJoin("Added", e.added);
    SectionIsJoin("Changed", e.changed);
    SectionIsJoin("Fixed", e.fixed);
    JoinOfFour(Header(e), SectionLines("Added", e.added), SectionLines("Changed", e.changed),
               SectionLines("Fixed", e.fixed), '\n');
  }

  /** No field of the entry holds a line break. */
  predicate NoNewlines(e: LogEntry)
  {
    '\n' !in e.version && '\n' !in e.date
    && NoneContain(e.added, '\n') && NoneContain(e.changed, '\n') && NoneContain(e.fixed, '\n')
  }

  lemma SectionLinesHaveNoNewlines(title: string, items: seq<string>)
    requires '\n' !in title && NoneContain(items, '\n')
    ensures NoneContain(SectionLines(title, items), '\n')
  {
    var lines := SectionLines(title, items);
    forall k | 0 <= k < |lines| ensures '\n' !in lines[k] {
      if k > 0 {
        assert lines[k] == "- " + items[k - 1];
      }
    }
  }

  lemma LinesHaveNoNewlines(e: LogEntry)
    requires NoNewlines(e)
    ensures NoneContain(Lines(e), '\n')
  {
    var h := Header(e);
    assert '\n' !in h;
    SectionLinesHaveNoNewlines("Added", e.added);
    SectionLinesHaveNoNewlines("Changed", e.changed);
    SectionLinesHaveNoNewlines("Fixed", e.fixed);
    NoneContainAppend([h], SectionLines("Added", e.added), '\n');
    NoneContainAppend([h] + SectionLines("Added", e.added), SectionLines("Changed", e.changed), '\n');
    NoneContainAppend([h] + SectionLines("Added", e.added) + SectionLines("Changed", e.changed),
                      SectionLines("Fixed", e.fixed), '\n');
  }

  /** Reading the rendered text back line by line gives the header, each non-empty
      section's heading followed by its items as `- item` in input order, and the
      two empty strings of the closing blank line. */
  lemma RenderDecodes(e: LogEntry)
    requires NoNewlines(e)
    ensures Split(Render(e), '\n') == Lines(e) + ["", ""]
  {
    RenderIsLines(e);
    LinesHaveNoNewlines(e);
    var ls := Lines(e);
    var blank: seq<string> := ["", ""];
    assert Join(blank, '\n') == "\n" by {
      assert blank[1..] == [""];
    }
    JoinAppend(ls, blank, '\n');
    assert Render(e) == Join(ls + blank, '\n');
    NoneContainAppend(ls, blank, '\n');
    SplitJoin(ls + blank, '\n');
  }

  /** `### x` is a line of a category exactly when the category is `x` and has items. */
  lemma TitleInSection(title: string, items: seq<string>, x: string)
    ensures "### " + x in SectionLines(title, items) <==> items != [] && x == title
  {
    var lines := SectionLines(title, items);
    var t := "### " + x;
    assert forall i :: 1 <= i < |lines| ==> lines[i][0] == '-' by {
      forall i | 1 <= i < |lines| ensures lines[i][0] == '-' {
        assert lines[(i - 1) + 1] == "- " + items[i - 1];
      }
    }
    if t in lines {
      var k :| 0 <= k < |lines| && lines[k] == t;
      if k > 0 {
        assert false;
      } else {
        assert x == t[4..] && title == lines[0][4..];
      }
    }
  }

  /** A line `### x` of a rendered entry is the heading of a non-empty category
      named `x`: the header line and the item lines never look like one. */
  lemma HeadingInLines(e: LogEntry, x: string)
    ensures "### " + x in Lines(e) <==>
      (x == "Added" && e.added != []) || (x == "Changed" && e.changed != [])
      || (x == "Fixed" && e.fixed != [])
  {
    var t := "### " + x;
    assert Header(e)[2] == ' ' && t[2] == '#';
    TitleInSection("Added", e.added, x);
    TitleInSection("Changed", e.changed, x);
    TitleInSection("Fixed", e.fixed, x);
  }

  /** Each category heading appears exactly when its list is non-empty. */
  lemma SectionHeadingIff(e: LogEntry)
    ensures "### Added" in Lines(e) <==> e.added != []
    ensures "### Changed" in Lines(e) <==> e.changed != []
    ensures "### Fixed" in Lines(e) <==> e.fixed != []
  {
    HeadingInLines(e, "Added");
    HeadingInLines(e, "Changed");
    HeadingInLines(e, "Fixed");
    assert "### " + "Added" == "### Added";
    assert "### " + "Changed" == "### Changed";
    assert "### " + "Fixed" == "### Fixed";
  }
}
