/** The version pattern `[0-9]{1,3}\.[0-9]{1,3}\.[0-9]{1,3}` that every regular
    expression of the tool is built around, as a hand-written matcher.

    In each use the last group is followed by a character that is not a digit
    (`]`, a newline or the end of the text), and the first two by `.`.  Digits and
    those terminators are disjoint, so a group matches exactly when the maximal run
    of digits at its position is one to three long: greedy matching and
    backtracking give the same answer, and the matcher needs no backtracking. */
module Patterns {
  import opened Wrappers
  import opened Text

  predicate IsDigitGroup(g: string) { 1 <= |g| <= 3 && IsDigits(g) }

  /** The declarative reading of the pattern: three `.`-separated groups of one
      to three digits. */
  predicate VersionText(s: string)
  {
    var p := Split(s, '.');
    |p| == 3 && IsDigitGroup(p[0]) && IsDigitGroup(p[1]) && IsDigitGroup(p[2])
  }

  lemma NoDotInDigits(g: string)
    requires IsDigits(g)
    ensures '.' !in g
  {
  }

  /** Three digit groups joined by dots form a version text, and split back into the same groups. */
  lemma GroupsFormVersionText(g1: string, g2: string, g3: string)
    requires IsDigitGroup(g1) && IsDigitGroup(g2) && IsDigitGroup(g3)
    ensures Split(g1 + "." + g2 + "." + g3, '.') == [g1, g2, g3]
    ensures VersionText(g1 + "." + g2 + "." + g3)
  {
    JoinThree(g1, g2, g3, '.');
    NoDotInDigits(g1);
    NoDotInDigits(g2);
    NoDotInDigits(g3);
    SplitJoin([g1, g2, g3], '.');
  }

  /** The three groups a successful match walks over, with dots at `p` and `q`. */
  lemma MatchShape(s: string, p: nat, q: nat, n: nat)
    requires p < q < n <= |s|
    requires IsDigitGroup(s[..p]) && s[p] == '.'
    requires IsDigitGroup(s[p + 1..q]) && s[q] == '.'
    requires IsDigitGroup(s[q + 1..n])
    ensures VersionText(s[..n])
  {
    assert s[..n] == s[..p] + "." + s[p + 1..q] + "." + s[q + 1..n];
    GroupsFormVersionText(s[..p], s[p + 1..q], s[q + 1..n]);
  }

  /** Length of the match of `[0-9]{1,3}\.` at the start of `s`, if any. */
  function MatchDotGroup(s: string): (r: Option<nat>)
    ensures r.Some? ==> 2 <= r.value <= 4 && r.value <= |s| && s[r.value - 1] == '.'
  {
    var a := DigitRun(s);
    if 1 <= a <= 3 && a < |s| && s[a] == '.' then Some(a + 1) else None
  }

  /** A dotted group is digits up to its dot. */
  lemma DotGroupDigits(s: string)
    requires MatchDotGroup(s).Some?
    ensures forall k :: 0 <= k < MatchDotGroup(s).value - 1 ==> IsDigit(s[k])
  {
    DigitRunSpan(s);
  }

  /** Length of the match of the version pattern at the start of `s`, if any: two
      dotted groups, then a last group of one to three digits. */
  function MatchVersion(s: string): (r: Option<nat>)
    ensures r.Some? ==> 5 <= r.value <= |s|
  {
    match MatchDotGroup(s)
    case None => None
    case Some(i) =>
      match MatchDotGroup(s[i..])
      case None => None
      case Some(j) =>
        var c := DigitRun(s[i..][j..]);
        if 1 <= c <= 3 then Some(i + j + c) else None
  }

  /** The three steps of a successful match. */
  lemma MatchSteps(s: string, n: nat) returns (i: nat, j: nat, c: nat)
    requires MatchVersion(s) == Some(n)
    ensures MatchDotGroup(s) == Some(i) && i <= |s|
    ensures MatchDotGroup(s[i..]) == Some(j) && j <= |s[i..]|
    ensures DigitRun(s[i..][j..]) == c && 1 <= c <= 3
    ensures n == i + j + c
  {
    i := MatchDotGroup(s).value;
    j := MatchDotGroup(s[i..]).value;
    c := DigitRun(s[i..][j..]);
  }

  /** A version match ends on a digit, and the character after it is not a digit. */
  lemma MatchVersionEnd(s: string)
    requires MatchVersion(s).Some?
    ensures IsDigit(s[MatchVersion(s).value - 1])
    ensures MatchVersion(s).value < |s| ==> !IsDigit(s[MatchVersion(s).value])
  {
    var n := MatchVersion(s).value;
    var i, j, c := MatchSteps(s, n);
    var u := s[i..][j..];
    DigitRunSpan(u);
    assert u == s[i + j..];
    assert s[n - 1] == u[c - 1];
    if n < |s| {
      assert s[n] == u[c];
    }
  }

  /** The text a match covers is a version text. */
  lemma MatchIsVersionText(s: string)
    requires MatchVersion(s).Some?
    ensures VersionText(s[..MatchVersion(s).value])
  {
    var n := MatchVersion(s).value;
    var i, j, c := MatchSteps(s, n);
    var t := s[i..];
    var u := t[j..];
    DotGroupDigits(s);
    DotGroupDigits(t);
    DigitRunSpan(u);
    var p, q := i - 1, i + j - 1;
    assert u == s[q + 1..];
    assert IsDigitGroup(s[..p]);
    assert IsDigitGroup(s[p + 1..q]) by {
      assert t[..j - 1] == s[p + 1..q];
    }
    assert IsDigitGroup(s[q + 1..n]) by {
      assert u[..c] == s[q + 1..n];
    }
    assert s[q] == t[j - 1];
    MatchShape(s, p, q, n);
  }

  /** The maximal digit run is determined by where the digits stop. */
  lemma DigitRunAt(s: string, n: nat)
    requires n <= |s| && forall i :: 0 <= i < n ==> IsDigit(s[i])
    requires n == |s| || !IsDigit(s[n])
    ensures DigitRun(s) == n
  {
    DigitRunSpan(s);
  }

  /** A group of one to three digits followed by a dot. */
  lemma DotGroupAt(s: string, a: nat)
    requires 1 <= a <= 3 && a < |s|
    requires forall i :: 0 <= i < a ==> IsDigit(s[i])
    requires s[a] == '.'
    ensures MatchDotGroup(s) == Some(a + 1)
  {
    DigitRunAt(s, a);
  }

  /** The matcher put together from its three steps. */
  lemma MatchOfSteps(s: string, i: nat, j: nat, c: nat)
    requires MatchDotGroup(s) == Some(i)
    requires MatchDotGroup(s[i..]) == Some(j)
    requires DigitRun(s[i + j..]) == c && 1 <= c <= 3
    ensures MatchVersion(s) == Some(i + j + c)
  {
    assert s[i..][j..] == s[i + j..];
  }

  /** Digits at positions `off..off + len` of `s` are digits at `0..len` of `s[off..]`. */
  lemma DigitsShift(s: string, off: nat, len: nat)
    requires off + len <= |s|
    requires forall i :: off <= i < off + len ==> IsDigit(s[i])
    ensures forall i :: 0 <= i < len ==> IsDigit(s[off..][i])
  {
    forall i | 0 <= i < len ensures IsDigit(s[off..][i]) {
      assert s[off..][i] == s[off + i];
    }
  }

  /** Three groups of one to three digits separated by dots, and then no digit,
      are matched up to the end of the third group. */
  lemma MatchGroupsAt(s: string, a: nat, b: nat, c: nat)
    requires 1 <= a <= 3 && 1 <= b <= 3 && 1 <= c <= 3 && a + b + c + 2 <= |s|
    requires forall i :: 0 <= i < a ==> IsDigit(s[i])
    requires s[a] == '.'
    requires forall i :: a + 1 <= i < a + 1 + b ==> IsDigit(s[i])
    requires s[a + 1 + b] == '.'
    requires forall i :: a + b + 2 <= i < a + b + 2 + c ==> IsDigit(s[i])
    requires a + b + 2 + c == |s| || !IsDigit(s[a + b + 2 + c])
    ensures MatchVersion(s) == Some(a + b + 2 + c)
  {
    DotGroupAt(s, a);
    DotGroupShifted(s, a + 1, b);
    DigitRunShifted(s, a + b + 2, c);
    MatchOfSteps(s, a + 1, b + 1, c);
  }

  /** A dotted group found at `off` is matched at the start of `s[off..]`. */
  lemma DotGroupShifted(s: string, off: nat, b: nat)
    requires 1 <= b <= 3 && off + b < |s|
    requires forall i :: off <= i < off + b ==> IsDigit(s[i])
    requires s[off + b] == '.'
    ensures MatchDotGroup(s[off..]) == Some(b + 1)
  {
    DigitsShift(s, off, b);
    assert s[off..][b] == s[off + b];
    DotGroupAt(s[off..], b);
  }

  /** A digit run found at `off` and ended by a non-digit is the run of `s[off..]`. */
  lemma DigitRunShifted(s: string, off: nat, c: nat)
    requires off + c <= |s|
    requires forall i :: off <= i < off + c ==> IsDigit(s[i])
    requires off + c == |s| || !IsDigit(s[off + c])
    ensures DigitRun(s[off..]) == c
  {
    DigitsShift(s, off, c);
    assert off + c < |s| ==> s[off..][c] == s[off + c];
    DigitRunAt(s[off..], c);
  }

  /** A version text is three digit groups joined by dots. */
  lemma VersionTextGroups(g: string) returns (g1: string, g2: string, g3: string)
    requires VersionText(g)
    ensures IsDigitGroup(g1) && IsDigitGroup(g2) && IsDigitGroup(g3)
    ensures g == g1 + "." + g2 + "." + g3
  {
    var p := Split(g, '.');
    SplitJoinsBack(g, '.');
    g1, g2, g3 := p[0], p[1], p[2];
    assert p == [g1, g2, g3];
    JoinThree(g1, g2, g3, '.');
  }

  /** Three digit groups joined by dots, then a non-digit or nothing, are matched
      up to the end of the third group. */
  lemma MatchOfGroups(g1: string, g2: string, g3: string, t: string)
    requires IsDigitGroup(g1) && IsDigitGroup(g2) && IsDigitGroup(g3)
    requires t == [] || !IsDigit(t[0])
    ensures MatchVersion(g1 + "." + g2 + "." + g3 + t) == Some(|g1| + |g2| + |g3| + 2)
  {
    var s := g1 + "." + g2 + "." + g3 + t;
    var a, b, n := |g1|, |g2|, |g1| + |g2| + |g3| + 2;
    forall i | 0 <= i < a ensures IsDigit(s[i]) { assert s[i] == g1[i]; }
    forall i | a + 1 <= i < a + 1 + b ensures IsDigit(s[i]) { assert s[i] == g2[i - a - 1]; }
    forall i | a + b + 2 <= i < n ensures IsDigit(s[i]) { assert s[i] == g3[i - a - b - 2]; }
    assert n < |s| ==> s[n] == t[0];
    MatchGroupsAt(s, a, b, |g3|);
  }

  /** Conversely, a version text followed by a non-digit (or by nothing) is matched
      in full. */
  lemma MatchVersionOfText(g: string, t: string)
    requires VersionText(g)
    requires t == [] || !IsDigit(t[0])
    ensures MatchVersion(g + t) == Some(|g|)
  {
    var g1, g2, g3 := VersionTextGroups(g);
    assert g + t == g1 + "." + g2 + "." + g3 + t;
    assert |g| == |g1| + |g2| + |g3| + 2;
    MatchOfGroups(g1, g2, g3, t);
  }

  /** The text a successful match covers is matched in full on its own. */
  lemma MatchedPrefix(s: string)
    requires MatchVersion(s).Some?
    ensures MatchVersion(s[..MatchVersion(s).value]) == Some(MatchVersion(s).value)
  {
    var n := MatchVersion(s).value;
    MatchIsVersionText(s);
    MatchVersionOfText(s[..n], []);
    assert s[..n] + [] == s[..n];
  }

  // ---------------------------------------------------------------- line prefixes

  /** `\s` as `re.ASCII` reads it: space, tab, line feed, vertical tab, form feed
      and carriage return. Without that flag Python's `\s` also matches `\x1c` to
      `\x1f` and Unicode spaces, which this model does not. */
  predicate IsSpace(c: char) { c == ' ' || '\t' <= c <= '\r' }

  /** Length of the longest prefix of `s` made of whitespace. */
  function SpaceRun(s: string): (n: nat)
    ensures n <= |s|
  {
    if s == [] || !IsSpace(s[0]) then 0 else 1 + SpaceRun(s[1..])
  }

  lemma {:induction false} SpaceRunSpan(s: string)
    ensures forall i :: 0 <= i < SpaceRun(s) ==> IsSpace(s[i])
    decreases |s|
  {
    if s != [] && IsSpace(s[0]) {
      SpaceRunSpan(s[1..]);
      assert forall i :: 1 <= i < SpaceRun(s) ==> s[i] == s[1..][i - 1];
    }
  }

  lemma {:induction false} SpaceRunOf(w: string, t: string)
    requires forall i :: 0 <= i < |w| ==> IsSpace(w[i])
    requires t == [] || !IsSpace(t[0])
    ensures SpaceRun(w + t) == |w|
    decreases |w|
  {
    if w == [] {
      assert w + t == t;
    } else {
      assert (w + t)[1..] == w[1..] + t;
      SpaceRunOf(w[1..], t);
    }
  }

  /** The version captured by `^\[([0-9]{1,3}\.[0-9]{1,3}\.[0-9]{1,3})\]`, the
      start of a compare-link line, or None when the line does not start so. */
  function LinkText(line: string): (r: Option<string>)
    ensures r.Some? ==> line != [] && line[0] == '['
  {
    if line == [] || line[0] != '[' then None else Bracketed(line[1..])
  }

  /** A version match closed by `]`, after the opening bracket. */
  function Bracketed(m: string): (r: Option<string>)
  {
    match MatchVersion(m)
    case None => None
    case Some(n) => if n < |m| && m[n] == ']' then Some(m[..n]) else None
  }

  /** What a link captures is matched in full by the version pattern. */
  lemma LinkTextMatch(line: string)
    requires LinkText(line).Some?
    ensures MatchVersion(LinkText(line).value) == Some(|LinkText(line).value|)
  {
    MatchedPrefix(line[1..]);
  }

  /** A line is accepted with capture `g` exactly when it starts with `[`, a
      version text `g` and `]`. */
  lemma LinkTextIff(line: string, g: string)
    ensures LinkText(line) == Some(g) <==>
      VersionText(g) && |g| + 2 <= |line| && line[..|g| + 2] == "[" + g + "]"
  {
    if LinkText(line) == Some(g) {
      var m := line[1..];
      var n := MatchVersion(m).value;
      MatchIsVersionText(m);
      assert g == m[..n];
      assert line[..n + 2] == "[" + g + "]" by {
        assert line[..n + 2] == [line[0]] + m[..n] + [m[n]];
      }
    }
    if VersionText(g) && |g| + 2 <= |line| && line[..|g| + 2] == "[" + g + "]" {
      assert line == "[" + g + "]" + line[|g| + 2..];
      LinkOf(g, line[|g| + 2..]);
    }
  }

  /** The version captured by `^##\s+\[([0-9]{1,3}\.[0-9]{1,3}\.[0-9]{1,3})\]`, the
      start of a release heading. Whitespace and `[` are disjoint, so the greedy
      `\s+` is the maximal whitespace run. */
  function HeadingText(line: string): (r: Option<string>)
    ensures r.Some? ==> |line| >= 2 && line[0] == '#' && line[1] == '#'
  {
    if |line| < 2 || line[0] != '#' || line[1] != '#' then None
    else
      var w := SpaceRun(line[2..]);
      if w == 0 then None else LinkText(line[2 + w..])
  }

  /** What a heading captures is matched in full by the version pattern. */
  lemma HeadingTextMatch(line: string)
    requires HeadingText(line).Some?
    ensures MatchVersion(HeadingText(line).value) == Some(|HeadingText(line).value|)
  {
    var w := SpaceRun(line[2..]);
    LinkTextMatch(line[2 + w..]);
  }

  /** An accepted heading line starts with `##`, a non-empty run of whitespace,
      `[`, the captured version text and `]`; `HeadingOf` is the converse. */
  lemma HeadingTextShape(line: string) returns (w: string)
    requires HeadingText(line).Some?
    ensures w != [] && forall i :: 0 <= i < |w| ==> IsSpace(w[i])
    ensures var g := HeadingText(line).value;
      VersionText(g) && |w| + |g| + 4 <= |line| && line[..|w| + |g| + 4] == "##" + w + "[" + g + "]"
  {
    var n := SpaceRun(line[2..]);
    SpaceRunSpan(line[2..]);
    w := line[2..2 + n];
    forall i | 0 <= i < |w| ensures IsSpace(w[i]) {
      assert w[i] == line[2..][i];
    }
    var g := HeadingTextRest(line);
    LinkTextIff(line[2 + n..], g);
    HeadingPrefix(line, w, g);
  }

  /** The pieces of a heading's prefix, put together. */
  lemma HeadingPrefix(line: string, w: string, g: string)
    requires |w| + |g| + 4 <= |line|
    requires line[0] == '#' && line[1] == '#' && line[2..2 + |w|] == w
    requires line[2 + |w|..][..|g| + 2] == "[" + g + "]"
    ensures line[..|w| + |g| + 4] == "##" + w + "[" + g + "]"
  {
    var k := |w| + |g| + 4;
    forall i | 0 <= i < k ensures line[..k][i] == ("##" + w + "[" + g + "]")[i] {
      if 2 <= i < 2 + |w| {
        assert line[i] == line[2..2 + |w|][i - 2];
      } else if 2 + |w| <= i {
        assert line[i] == line[2 + |w|..][..|g| + 2][i - 2 - |w|];
      }
    }
  }

  /** The capture of a heading is the link capture after its whitespace run. */
  lemma HeadingTextRest(line: string) returns (g: string)
    requires HeadingText(line).Some?
    ensures g == HeadingText(line).value
    ensures LinkText(line[2 + SpaceRun(line[2..])..]) == Some(g)
  {
    g := HeadingText(line).value;
  }


  /** A bracket before a matched version that is closed by `]`. */
  lemma LinkAt(m: string, n: nat)
    requires n < |m| && m[n] == ']' && MatchVersion(m) == Some(n)
    ensures LinkText("[" + m) == Some(m[..n])
  {
    assert ("[" + m)[1..] == m;
  }

  /** A version text in brackets starts a compare-link line, whatever follows. */
  lemma LinkOf(g: string, t: string)
    requires VersionText(g)
    ensures LinkText("[" + g + "]" + t) == Some(g)
  {
    var u := "]" + t;
    var line := "[" + g + "]" + t;
    assert line == "[" + (g + u);
    var m := g + u;
    assert u[0] == ']';
    MatchVersionOfText(g, u);
    assert m[..|g|] == g;
    assert m[|g|] == ']';
    LinkAt(m, |g|);
  }

  /** `##`, whitespace, then a bracketed version text start a release heading
      capturing that version, whatever follows. */
  lemma HeadingOf(w: string, g: string, t: string)
    requires w != [] && forall i :: 0 <= i < |w| ==> IsSpace(w[i])
    requires VersionText(g)
    ensures HeadingText("##" + w + "[" + g + "]" + t) == Some(g)
  {
    var line := "##" + w + "[" + g + "]" + t;
    var rest := "[" + g + "]" + t;
    assert line[2..] == w + rest;
    SpaceRunOf(w, rest);
    assert line[2 + |w|..] == rest;
    LinkOf(g, t);
  }
}
