/** The standalone script chogg.py. Its searches, its link rewrite and its output
    splice are the ones of the package (module Changelog); what differs is an entry
    class without the emptiness check, versions handled as integer tuples, and a
    version step that is always a patch bump. */
module Chogg {
  import opened Wrappers
  import opened Text
  import opened Patterns
  import opened Versions
  import opened LogEntries
  import opened Changelog

  // ---------------------------------------------------------------- LogEntry

  /** This copy's `LogEntry(version, date, changed, added, fixed)`: the version text
      is stored as given and nothing is checked, so an entry may have no items. */
  function NewChoggEntry(version: string, date: string, changed: seq<string>,
                         added: seq<string>, fixed: seq<string>): (e: LogEntry)
    ensures e.version == version && e.date == date
    ensures e.added == added && e.changed == changed && e.fixed == fixed
  {
    LogEntry(version, date, added, changed, fixed)
  }

  /** An entry with no items renders to its header followed by a blank line. */
  lemma ChoggEmptyRender(version: string, date: string)
    ensures Render(NewChoggEntry(version, date, [], [], [])) == "## [" + version + "] - " + date + "\n\n"
  {
    var e := NewChoggEntry(version, date, [], [], []);
    var h := Header(e);
    assert NonEmpty([""]) == [] by {
      assert [""][1..] == [];
    }
    assert NonEmpty(["", ""]) == [] by {
      assert ["", ""][1..] == [""];
    }
    assert NonEmpty(["", "", ""]) == [] by {
      assert ["", "", ""][1..] == ["", ""];
    }
    assert NonEmpty([h, "", "", ""]) == [h] by {
      assert [h, "", "", ""][1..] == ["", "", ""];
    }
  }

  /** Where the package's constructor succeeds, the two classes build the same
      entry from the printed version. */
  lemma ChoggEntryAgrees(v: Version, date: string, changed: seq<string>, added: seq<string>,
                         fixed: seq<string>)
    ensures NewLogEntry(v, date, changed, added, fixed).Ok? ==>
      NewLogEntry(v, date, changed, added, fixed).value == NewChoggEntry(ToString(v), date, changed, added, fixed)
    ensures NewLogEntry(v, date, changed, added, fixed).Err? <==>
      Lines(NewChoggEntry(ToString(v), date, changed, added, fixed)) == [Header(NewChoggEntry(ToString(v), date, changed, added, fixed))]
  {
    var e := NewChoggEntry(ToString(v), date, changed, added, fixed);
    assert |Lines(e)| == 1 + |SectionLines("Added", added)| + |SectionLines("Changed", changed)|
      + |SectionLines("Fixed", fixed)|;
  }

  // ---------------------------------------------------------------- versions as tuples

  /** `tuple_to_str`: the decimal text of each component, joined by `.`. Only the
      empty tuple prints as the empty text. */
  function TupleToStr(t: seq<nat>): (s: string)
    ensures s == [] <==> t == []
  {
    var parts := seq(|t|, i requires 0 <= i < |t| => NatToString(t[i]));
    assert t != [] ==> |parts[0]| >= 1;
    Join(parts, '.')
  }

  /** Reading the text back: splitting at `.` gives each component's digits. */
  lemma TupleToStrParts(t: seq<nat>)
    requires t != []
    ensures Split(TupleToStr(t), '.') == seq(|t|, i requires 0 <= i < |t| => NatToString(t[i]))
  {
    var parts := seq(|t|, i requires 0 <= i < |t| => NatToString(t[i]));
    forall k | 0 <= k < |parts| ensures '.' !in parts[k] {
      NoDotInDigits(parts[k]);
    }
    SplitJoin(parts, '.');
  }

  /** On a three-part tuple it is the package's `str(v)`. */
  lemma TupleToStrOfVersion(v: Version)
    ensures TupleToStr([v.major, v.minor, v.patch]) == ToString(v)
  {
    var t := [v.major, v.minor, v.patch];
    assert seq(|t|, i requires 0 <= i < |t| => NatToString(t[i]))
      == [NatToString(v.major), NatToString(v.minor), NatToString(v.patch)];
  }

  /** `last_version[:-1] + (last_version[-1] + 1,)`: the last component plus one. */
  function BumpLast(t: seq<nat>): (r: seq<nat>)
    requires t != []
    ensures |r| == |t| && r[|t| - 1] == t[|t| - 1] + 1
    ensures forall i :: 0 <= i < |t| - 1 ==> r[i] == t[i]
  {
    t[..|t| - 1] + [t[|t| - 1] + 1]
  }

  /** `get_next_version`: the greatest version in the file and its patch bump, as
      text, or two empty texts when the file names no version. A version tuple is
      never empty, so only the missing version gives the empty pair. */
  function GetNextVersion(lines: seq<string>): (r: (string, string))
    ensures r.0 == [] <==> FindVersionInFile(lines).None?
    ensures r.1 == [] <==> r.0 == []
  {
    match FindVersionInFile(lines)
    case None => ("", "")
    case Some(v) =>
      var t := [v.major, v.minor, v.patch];
      (TupleToStr(t), TupleToStr(BumpLast(t)))
  }

  /** The tuple step on a version's components is the package's patch increment. */
  lemma BumpLastIsPatchBump(v: Version)
    ensures TupleToStr(BumpLast([v.major, v.minor, v.patch])) == ToString(Increment(v, false))
  {
    var w := Increment(v, false);
    assert BumpLast([v.major, v.minor, v.patch]) == [w.major, w.minor, w.patch];
    TupleToStrOfVersion(w);
  }

  /** The pair is the current version and its patch bump, both as `str` prints
      them; the empty pair means that no line is a heading. */
  lemma GetNextVersionIsPatchBump(lines: seq<string>)
    ensures FindVersionInFile(lines).None? ==> GetNextVersion(lines) == ("", "")
    ensures FindVersionInFile(lines).Some? ==>
      GetNextVersion(lines).0 == ToString(FindVersionInFile(lines).value)
      && GetNextVersion(lines).1 == ToString(Increment(FindVersionInFile(lines).value, false))
    ensures GetNextVersion(lines).0 == [] <==> forall i :: 0 <= i < |lines| ==> !IsHeading(lines[i])
  {
    var r := FindVersionInFile(lines);
    if r.Some? {
      TupleToStrOfVersion(r.value);
      BumpLastIsPatchBump(r.value);
      ToStringParts(r.value);
    }
  }

  /** The patch bump passes `is_valid_version` exactly when the patch part of the
      greatest version is below 999; after `x.y.999` it prints `x.y.1000`. */
  lemma ChoggNextIsValid(lines: seq<string>)
    requires FindVersionInFile(lines).Some?
    ensures IsValidVersion(GetNextVersion(lines).1) <==> FindVersionInFile(lines).value.patch < 999
  {
    var v := FindVersionInFile(lines).value;
    GetNextVersionIsPatchBump(lines);
    if v.patch < 999 {
      ToStringRoundTrip(Increment(v, false));
    } else {
      IncrementPastLimit(v, false);
    }
  }

  // ---------------------------------------------------------------- main

  /** chogg.py's `main`: take the next version from the file, build the entry from
      the answers to the prompts, and update the file with the package's steps.
      `from_user_input` keeps the next version when it is valid and otherwise asks
      until it gets a valid one; `prompted` is that answer. The compare link is made
      from the next version either way, so when the greatest patch part is 999 the
      entry names `prompted` while the link names `x.y.1000`. */
  method ChoggMain(lines: seq<string>, prompted: string, date: string, added: seq<string>,
                   changed: seq<string>, fixed: seq<string>)
    returns (r: Result<seq<string>, Error>)
    requires TitleNotLink(lines)
    requires IsValidVersion(prompted)
    ensures r == Err(NoRecords) <==> NoRecordLines(lines)
    ensures FindVersionInFile(lines).None? ==> r == Err(NoRecords)
    ensures r == Err(NoCompareLinks) <==>
      !NoRecordLines(lines) && forall k :: 1 <= k < |lines| ==> !IsLink(lines[k])
    ensures r != Err(CompareAtStart)
    ensures r.Err? && r.error != NoRecords && r.error != NoCompareLinks ==>
      FindVersionInFile(lines).Some? &&
      var v := FindVersionInFile(lines).value;
      exists cmp :: IsCompareStart(lines, cmp)
        && CreateCompareGroup(lines[cmp], ToString(v), ToString(Increment(v, false))) == Err(r.error)
    ensures r.Ok? ==> FindVersionInFile(lines).Some?
    ensures r.Ok? ==>
      var v := FindVersionInFile(lines).value;
      var next := ToString(Increment(v, false));
      var version := if v.patch < 999 then next else prompted;
      IsUpdate(lines, Render(LogEntry(version, date, added, changed, fixed)), ToString(v), next, r.value)
  {
    var (current, next) := GetNextVersion(lines);
    GetNextVersionIsPatchBump(lines);
    if FindVersionInFile(lines).Some? {
      ChoggNextIsValid(lines);
    }
    var version := next;
    if !IsValidVersion(version) {
      version := prompted;
    }
    var entry := NewChoggEntry(version, date, changed, added, fixed);
    r := UpdateFile(lines, entry, current, next);
  }
}
