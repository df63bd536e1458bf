/** A three-part integer version `major.minor.patch` (chlog/version.py): validity of
    its text, parsing, dotted formatting, the tuple order, and the increment that
    follows items 6 and 7 of Semantic Versioning 2.0.0. */
module Versions {
  import opened Wrappers
  import opened Text
  import opened Patterns

  /** `Version(major, minor, patch)`. Components are non-negative: every version the
      tool builds comes from digits, from the file scan or from an increment. The
      class has no equality of its own; `values` equality is equality of this value. */
  datatype Version = Version(major: nat, minor: nat, patch: nat)

  // ---------------------------------------------------------------- text

  /** The text with one trailing newline removed, if it has one. */
  function StripNewline(s: string): string
  {
    if |s| > 0 && s[|s| - 1] == '\n' then s[..|s| - 1] else s
  }

  /** `is_valid_version`: `re.match('^[0-9]{1,3}\.[0-9]{1,3}\.[0-9]{1,3}$', s)`.
      Python's `$` also matches just before a final newline, so one trailing `\n`
      is let through. */
  predicate IsValidVersion(s: string)
    ensures IsValidVersion(s) ==> VersionText(StripNewline(s))
  {
    match MatchVersion(s)
    case None => false
    case Some(n) =>
      MatchIsVersionText(s);
      MatchVersionEnd(s);
      assert n == |s| ==> s[..n] == s;
      assert n + 1 == |s| && s[n] == '\n' ==> StripNewline(s) == s[..n];
      n == |s| || (n + 1 == |s| && s[n] == '\n')
  }

  lemma TextIsValidVersion(s: string)
    requires VersionText(StripNewline(s))
    ensures IsValidVersion(s)
  {
    var core := StripNewline(s);
    if |s| > 0 && s[|s| - 1] == '\n' {
      assert core + "\n" == s;
      TextThenNewline(core);
    } else {
      assert core == s;
      TextAlone(core);
    }
  }

  lemma TextThenNewline(core: string)
    requires VersionText(core)
    ensures IsValidVersion(core + "\n")
  {
    MatchVersionOfText(core, "\n");
  }

  lemma TextAlone(core: string)
    requires VersionText(core)
    ensures IsValidVersion(core)
  {
    MatchVersionOfText(core, []);
    assert core + [] == core;
  }

  /** A valid version is exactly three dot-separated groups of one to three ASCII
      digits, after at most one trailing newline is set aside. */
  lemma ValidVersionIffText(s: string)
    ensures IsValidVersion(s) <==> VersionText(StripNewline(s))
  {
    if VersionText(StripNewline(s)) {
      TextIsValidVersion(s);
    }
  }

  /** A group of at most three digits denotes a value below 1000. */
  lemma GroupValueBound(g: string)
    requires IsDigitGroup(g)
    ensures ParseNat(g) < 1000
  {
    assert Pow10(1) == 10 && Pow10(2) == 100 && Pow10(3) == 1000;
  }

  /** `from_string`: the caller must hand it a valid version (the source asserts
      it); each dot-separated group is read as a decimal integer. `int()` ignores
      the trailing newline that validity lets through. */
  function FromString(s: string): (v: Version)
    requires IsValidVersion(s)
    ensures v.major < 1000 && v.minor < 1000 && v.patch < 1000
  {
    ValidVersionIffText(s);
    var p := Split(StripNewline(s), '.');
    GroupValueBound(p[0]);
    GroupValueBound(p[1]);
    GroupValueBound(p[2]);
    Version(ParseNat(p[0]), ParseNat(p[1]), ParseNat(p[2]))
  }

  /** `str(v)` and `to_string()`: the decimal components joined by `.`. */
  function ToString(v: Version): (s: string)
    ensures v.major < 1000 && v.minor < 1000 && v.patch < 1000 ==> VersionText(s)
  {
    var a, b, c := NatToString(v.major), NatToString(v.minor), NatToString(v.patch);
    JoinThree(a, b, c, '.');
    if v.major < 1000 && v.minor < 1000 && v.patch < 1000 then
      GroupsFormVersionText(a, b, c);
      Join([a, b, c], '.')
    else
      Join([a, b, c], '.')
  }

  /** Three digit groups joined by dots are a valid version, parsed group by group. */
  lemma FromGroups(a: string, b: string, c: string)
    requires IsDigitGroup(a) && IsDigitGroup(b) && IsDigitGroup(c)
    ensures IsValidVersion(a + "." + b + "." + c)
    ensures FromString(a + "." + b + "." + c) == Version(ParseNat(a), ParseNat(b), ParseNat(c))
  {
    var s := a + "." + b + "." + c;
    GroupsFormVersionText(a, b, c);
    TextAlone(s);
    assert StripNewline(s) == s by {
      assert s[|s| - 1] == c[|c| - 1];
    }
  }

  /** The text of a version is its three decimal components, in order, between two dots. */
  lemma {:induction false} ToStringParts(v: Version)
    ensures Split(ToString(v), '.') == [NatToString(v.major), NatToString(v.minor), NatToString(v.patch)]
    ensures |ToString(v)| > 0 && IsDigit(ToString(v)[|ToString(v)| - 1])
  {
    var a, b, c := NatToString(v.major), NatToString(v.minor), NatToString(v.patch);
    JoinThree(a, b, c, '.');
    NoDotInDigits(a);
    NoDotInDigits(b);
    NoDotInDigits(c);
    SplitJoin([a, b, c], '.');
  }

  /** Round trip: a version whose components are all below 1000 prints to a valid
      version text, and parsing that text gives the same components back. */
  lemma {:induction false} ToStringRoundTrip(v: Version)
    requires v.major < 1000 && v.minor < 1000 && v.patch < 1000
    ensures IsValidVersion(ToString(v))
    ensures FromString(ToString(v)) == v
  {
    var a, b, c := NatToString(v.major), NatToString(v.minor), NatToString(v.patch);
    JoinThree(a, b, c, '.');
    FromGroups(a, b, c);
  }

  /** A leading zero does not change the value of a digit string. */
  lemma {:induction false} ParseNatLeadingZero(g: string)
    requires IsDigits(g)
    ensures ParseNat("0" + g) == ParseNat(g)
    decreases |g|
  {
    if g != [] {
      var z := "0" + g;
      assert z[..|z| - 1] == "0" + g[..|g| - 1];
      ParseNatLeadingZero(g[..|g| - 1]);
    }
  }

  /** The validity check accepts leading zeros, which item 2 of Semantic Versioning
      forbids: "0" put in front of a printed version is still accepted, denotes the
      same version, and so is not what printing that version gives back. */
  lemma {:induction false} LeadingZeroAccepted(v: Version)
    requires v.major < 100 && v.minor < 1000 && v.patch < 1000
    ensures IsValidVersion("0" + ToString(v))
    ensures FromString("0" + ToString(v)) == v
    ensures ToString(FromString("0" + ToString(v))) != "0" + ToString(v)
  {
    var a, b, c := NatToString(v.major), NatToString(v.minor), NatToString(v.patch);
    JoinThree(a, b, c, '.');
    assert "0" + ToString(v) == ("0" + a) + "." + b + "." + c;
    ParseNatLeadingZero(a);
    FromGroups("0" + a, b, c);
  }

  // ---------------------------------------------------------------- order

  /** Python's order on the tuples `values`: lexicographic, on integers. */
  predicate Less(a: Version, b: Version)
    ensures Less(a, b) ==> a != b && a.major <= b.major && (a.major == b.major ==> a.minor <= b.minor)
  {
    a.major < b.major
    || (a.major == b.major && a.minor < b.minor)
    || (a.major == b.major && a.minor == b.minor && a.patch < b.patch)
  }

  /** The tuple order is a strict total order. */
  lemma LessIsStrictTotal(a: Version, b: Version, c: Version)
    ensures !Less(a, a)
    ensures Less(a, b) && Less(b, c) ==> Less(a, c)
    ensures a == b || Less(a, b) || Less(b, a)
  {
  }

  /** `max(versions)`: the greatest version of a list under the tuple order, or
      None for an empty list. */
  function MaxVersion(vs: seq<Version>): (r: Option<Version>)
    ensures r.None? <==> vs == []
    ensures r.Some? ==> r.value in vs && forall w :: w in vs ==> !Less(r.value, w)
  {
    if vs == [] then None
    else
      assert forall w :: w in vs ==> w == vs[0] || w in vs[1..];
      match MaxVersion(vs[1..])
      case None => Some(vs[0])
      case Some(m) => if Less(m, vs[0]) then Some(vs[0]) else Some(m)
  }

  // ---------------------------------------------------------------- increment

  /** `increment(minor)`: a minor bump adds one to minor and resets patch to 0, a
      patch bump adds one to patch; major never changes. The result is a new value
      strictly above the old one in the tuple order. */
  function Increment(v: Version, bumpMinor: bool): (r: Version)
    ensures r.major == v.major
    ensures bumpMinor ==> r.minor == v.minor + 1 && r.patch == 0
    ensures !bumpMinor ==> r.minor == v.minor && r.patch == v.patch + 1
    ensures Less(v, r)
  {
    if bumpMinor then Version(v.major, v.minor + 1, 0)
    else Version(v.major, v.minor, v.patch + 1)
  }

  /** A patch bump gives the very next version: nothing lies strictly between. A
      minor bump skips only patch releases of the current minor. */
  lemma IncrementIsNext(v: Version, w: Version)
    ensures !(Less(v, w) && Less(w, Increment(v, false)))
    ensures Less(v, w) && Less(w, Increment(v, true)) ==> w.major == v.major && w.minor == v.minor
  {
  }

  /** Incrementing a component that is already 999 gives a version whose text the
      validity check rejects: the tool cannot read back what it wrote. */
  lemma {:induction false} IncrementPastLimit(v: Version, bumpMinor: bool)
    requires if bumpMinor then v.minor == 999 else v.patch == 999
    ensures !IsValidVersion(ToString(Increment(v, bumpMinor)))
  {
    var w := Increment(v, bumpMinor);
    var s := ToString(w);
    ToStringParts(w);
    assert StripNewline(s) == s;
    ValidVersionIffText(s);
    var p := Split(s, '.');
    if bumpMinor {
      assert !IsDigitGroup(p[1]);
    } else {
      assert !IsDigitGroup(p[2]);
    }
  }
}
