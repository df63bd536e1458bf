/** The string operations the tool borrows from Python: `str.split`, `str.join`,
    `str(n)` and `int(s)` on decimal digits, and the first occurrence of a substring. */
module Text {
  import opened Wrappers

  // ---------------------------------------------------------------- split / join

  /** `sep.join(parts)` for a one-character separator. */
  function Join(parts: seq<string>, sep: char): (s: string)
    ensures parts != [] ==> |parts[0]| <= |s| && s[..|parts[0]|] == parts[0]
  {
    if parts == [] then []
    else if |parts| == 1 then parts[0]
    else parts[0] + [sep] + Join(parts[1..], sep)
  }

  /** `s.split(sep)`: cut at every occurrence of `sep`. */
  function Split(s: string, sep: char): (parts: seq<string>)
    ensures |parts| >= 1
    decreases |s|
  {
    if s == [] then [[]]
    else
      var rest := Split(s[1..], sep);
      if s[0] == sep then [[]] + rest
      else [[s[0]] + rest[0]] + rest[1..]
  }

  /** No part holds the separator, and Join puts the parts back together. */
  lemma {:induction false} SplitJoinsBack(s: string, sep: char)
    ensures NoneContain(Split(s, sep), sep)
    ensures Join(Split(s, sep), sep) == s
    decreases |s|
  {
    if s != [] {
      var c, t := s[0], s[1..];
      assert s == [c] + t;
      SplitCons(c, t, sep);
      SplitJoinsBack(t, sep);
      var rest := Split(t, sep);
      if c == sep {
        JoinCons([], rest, sep);
      } else {
        var parts := Split(s, sep);
        forall k | 0 <= k < |parts| ensures sep !in parts[k] {
          if k > 0 {
            assert parts[k] == rest[k];
          }
        }
        if |rest| > 1 {
          assert [rest[0]] + rest[1..] == rest;
          JoinCons(rest[0], rest[1..], sep);
          JoinCons([c] + rest[0], rest[1..], sep);
        }
      }
    }
  }

  /** Join of a first part and a non-empty rest. */
  lemma JoinCons(x: string, ys: seq<string>, sep: char)
    requires ys != []
    ensures Join([x] + ys, sep) == x + [sep] + Join(ys, sep)
  {
    assert ([x] + ys)[1..] == ys;
  }

  lemma {:induction false} SplitNoSep(s: string, sep: char)
    requires sep !in s
    ensures Split(s, sep) == [s]
    decreases |s|
  {
    if s != [] {
      assert s == [s[0]] + s[1..];
      SplitCons(s[0], s[1..], sep);
      SplitNoSep(s[1..], sep);
    }
  }

  /** A first part without the separator, then the separator: the part comes
      first and the rest is split on its own. */
  lemma {:induction false} SplitPrefix(a: string, sep: char, b: string)
    requires sep !in a
    ensures Split(a + [sep] + b, sep) == [a] + Split(b, sep)
    decreases |a|
  {
    if a == [] {
      SplitCons(sep, b, sep);
      assert [sep] + b == a + [sep] + b;
    } else {
      var c, t := a[0], a[1..];
      assert a + [sep] + b == [c] + (t + [sep] + b);
      SplitCons(c, t + [sep] + b, sep);
      SplitPrefix(t, sep, b);
      assert [c] + t == a;
    }
  }

  /** One step of Split: a separator starts a new part, any other character
      joins the first part. */
  lemma SplitCons(c: char, t: string, sep: char)
    ensures Split([c] + t, sep) ==
      if c == sep then [[]] + Split(t, sep) else [[c] + Split(t, sep)[0]] + Split(t, sep)[1..]
  {
    assert ([c] + t)[1..] == t;
  }

  /** Split is a left inverse of Join when no part holds the separator. */
  lemma {:induction false} SplitJoin(parts: seq<string>, sep: char)
    requires parts != []
    requires NoneContain(parts, sep)
    ensures Split(Join(parts, sep), sep) == parts
    decreases |parts|
  {
    if |parts| == 1 {
      SplitNoSep(parts[0], sep);
    } else {
      SplitJoin(parts[1..], sep);
      SplitPrefix(parts[0], sep, Join(parts[1..], sep));
      assert [parts[0]] + parts[1..] == parts;
    }
  }

  /** Join of three parts, written out. */
  lemma JoinThree(a: string, b: string, c: string, sep: char)
    ensures Join([a, b, c], sep) == a + [sep] + b + [sep] + c
  {
    assert [a, b, c][1..] == [b, c];
    assert [b, c][1..] == [c];
    assert Join([c], sep) == c;
    assert Join([b, c], sep) == b + [sep] + c;
  }

  /** The concatenation of a sequence of lists, in order. */
  function Flatten(blocks: seq<seq<string>>): (lines: seq<string>)
  {
    if blocks == [] then [] else blocks[0] + Flatten(blocks[1..])
  }

  /** `[x for x in xs if x]`: drop the empty strings. */
  function NonEmpty(xs: seq<string>): (ys: seq<string>)
  {
    if xs == [] then []
    else if xs[0] == [] then NonEmpty(xs[1..])
    else [xs[0]] + NonEmpty(xs[1..])
  }

  /** Join each block on its own. */
  function JoinEach(blocks: seq<seq<string>>, sep: char): (ys: seq<string>)
    ensures |ys| == |blocks|
    ensures forall k :: 0 <= k < |blocks| ==> ys[k] == Join(blocks[k], sep)
  {
    if blocks == [] then [] else [Join(blocks[0], sep)] + JoinEach(blocks[1..], sep)
  }

  /** Joining two non-empty lists is joining each and gluing with the separator. */
  lemma {:induction false} JoinAppend(xs: seq<string>, ys: seq<string>, sep: char)
    requires xs != [] && ys != []
    ensures Join(xs + ys, sep) == Join(xs, sep) + [sep] + Join(ys, sep)
    decreases |xs|
  {
    if |xs| == 1 {
      assert (xs + ys)[1..] == ys;
    } else {
      assert (xs + ys)[1..] == xs[1..] + ys;
      JoinAppend(xs[1..], ys, sep);
    }
  }

  /** Joining the joined blocks, leaving out the empty ones, is joining the
      concatenated blocks, as long as no block starts with an empty string. */
  lemma {:induction false} JoinOfBlocks(blocks: seq<seq<string>>, sep: char)
    requires forall k :: 0 <= k < |blocks| ==> blocks[k] == [] || blocks[k][0] != []
    ensures Join(NonEmpty(JoinEach(blocks, sep)), sep) == Join(Flatten(blocks), sep)
    ensures NonEmpty(JoinEach(blocks, sep)) == [] <==> Flatten(blocks) == []
    decreases |blocks|
  {
    if blocks != [] {
      var b := blocks[0];
      var rest := blocks[1..];
      assert JoinEach(blocks, sep) == [Join(b, sep)] + JoinEach(rest, sep);
      assert ([Join(b, sep)] + JoinEach(rest, sep))[1..] == JoinEach(rest, sep);
      assert Flatten(blocks) == b + Flatten(rest);
      JoinOfBlocks(rest, sep);
      if b == [] {
        assert Join(b, sep) == [];
        assert NonEmpty(JoinEach(blocks, sep)) == NonEmpty(JoinEach(rest, sep));
        assert Flatten(blocks) == Flatten(rest);
      } else {
        assert Join(b, sep) != [];
        if Flatten(rest) != [] {
          JoinAppend(b, Flatten(rest), sep);
          JoinAppend([Join(b, sep)], NonEmpty(JoinEach(rest, sep)), sep);
        } else {
          assert b + Flatten(rest) == b;
        }
      }
    }
  }

  /** The blocks of a rendered text: a first line, then three blocks of lines. The
      joined non-empty blocks are the joined lines. */
  lemma JoinOfFour(h: string, a: seq<string>, b: seq<string>, c: seq<string>, sep: char)
    requires h != []
    requires a == [] || a[0] != []
    requires b == [] || b[0] != []
    requires c == [] || c[0] != []
    ensures Join(NonEmpty([h, Join(a, sep), Join(b, sep), Join(c, sep)]), sep) == Join([h] + a + b + c, sep)
  {
    var blocks := [[h], a, b, c];
    FlattenFour([h], a, b, c);
    JoinEachFour([h], a, b, c, sep);
    assert Join([h], sep) == h;
    JoinOfBlocks(blocks, sep);
  }

  lemma FlattenFour(a: seq<string>, b: seq<string>, c: seq<string>, d: seq<string>)
    ensures Flatten([a, b, c, d]) == a + b + c + d
  {
    var blocks := [a, b, c, d];
    assert blocks[1..] == [b, c, d] && blocks[2..] == [c, d] && blocks[3..] == [d];
    assert Flatten(blocks[3..]) == d;
    assert Flatten(blocks[2..]) == c + d;
    assert Flatten(blocks[1..]) == b + c + d;
  }

  lemma JoinEachFour(a: seq<string>, b: seq<string>, c: seq<string>, d: seq<string>, sep: char)
    ensures JoinEach([a, b, c, d], sep) == [Join(a, sep), Join(b, sep), Join(c, sep), Join(d, sep)]
  {
  }

  /** No part holds the character `c`. */
  predicate NoneContain(parts: seq<string>, c: char)
  {
    forall k :: 0 <= k < |parts| ==> c !in parts[k]
  }

  lemma NoneContainAppend(xs: seq<string>, ys: seq<string>, c: char)
    requires NoneContain(xs, c) && NoneContain(ys, c)
    ensures NoneContain(xs + ys, c)
  {
    forall k | 0 <= k < |xs + ys| ensures c !in (xs + ys)[k] {
      if k >= |xs| { assert (xs + ys)[k] == ys[k - |xs|]; }
    }
  }

  // ---------------------------------------------------------------- decimal digits

  predicate IsDigit(c: char) { '0' <= c <= '9' }

  predicate IsDigits(s: string) { forall i :: 0 <= i < |s| ==> IsDigit(s[i]) }

  function DigitValue(c: char): (d: nat)
    requires IsDigit(c)
    ensures d < 10
  {
    c as int - '0' as int
  }

  function DigitChar(d: nat): (c: char)
    requires d < 10
    ensures IsDigit(c) && DigitValue(c) == d
  {
    ('0' as int + d) as char
  }

  function Pow10(k: nat): (p: nat)
    ensures p >= 1
  {
    if k == 0 then 1 else 10 * Pow10(k - 1)
  }

  /** `int(s)` on a string of decimal digits (leading zeros allowed). */
  function ParseNat(s: string): (n: nat)
    requires IsDigits(s)
    ensures n < Pow10(|s|)
  {
    if s == [] then 0 else ParseNat(s[..|s| - 1]) * 10 + DigitValue(s[|s| - 1])
  }

  /** `str(n)` for a non-negative integer: decimal, no leading zeros. */
  function NatToString(n: nat): (s: string)
    ensures 1 <= |s| && IsDigits(s)
    ensures ParseNat(s) == n
    ensures |s| <= 1 <==> n < 10
    ensures |s| <= 2 <==> n < 100
    ensures |s| <= 3 <==> n < 1000
    ensures s[0] == '0' ==> n == 0
  {
    if n < 10 then [DigitChar(n)]
    else
      var t := NatToString(n / 10);
      var s := t + [DigitChar(n % 10)];
      assert s[..|s| - 1] == t;
      s
  }

  /** Length of the longest prefix of `s` made of decimal digits. */
  function DigitRun(s: string): (n: nat)
    ensures n <= |s|
  {
    if s == [] || !IsDigit(s[0]) then 0 else 1 + DigitRun(s[1..])
  }

  /** The run is made of digits and is followed by a non-digit or the end. */
  lemma {:induction false} DigitRunSpan(s: string)
    ensures forall i :: 0 <= i < DigitRun(s) ==> IsDigit(s[i])
    ensures DigitRun(s) < |s| ==> !IsDigit(s[DigitRun(s)])
    decreases |s|
  {
    if s != [] && IsDigit(s[0]) {
      DigitRunSpan(s[1..]);
      forall i | 1 <= i < DigitRun(s) ensures IsDigit(s[i]) {
        assert s[i] == s[1..][i - 1];
      }
    }
  }

  /** The digit run of `g + t` is `g` when `g` is all digits and `t` does not start with one. */
  lemma {:induction false} DigitRunOf(g: string, t: string)
    requires IsDigits(g)
    requires t == [] || !IsDigit(t[0])
    ensures DigitRun(g + t) == |g|
    decreases |g|
  {
    if g == [] {
      assert g + t == t;
    } else {
      assert (g + t)[1..] == g[1..] + t;
      DigitRunOf(g[1..], t);
    }
  }

  // ---------------------------------------------------------------- substrings

  predicate OccursAt(s: string, pat: string, j: int)
  {
    0 <= j && j + |pat| <= |s| && s[j..j + |pat|] == pat
  }

  /** Index of the first occurrence of `pat` in `s` at or after `from`. */
  function IndexFrom(s: string, pat: string, from: nat): (r: Option<nat>)
    ensures r.Some? ==> from <= r.value && OccursAt(s, pat, r.value)
    ensures r.Some? ==> forall j :: from <= j < r.value ==> !OccursAt(s, pat, j)
    ensures r.None? ==> forall j :: from <= j ==> !OccursAt(s, pat, j)
    decreases |s| - from
  {
    if from + |pat| > |s| then None
    else if s[from..from + |pat|] == pat then Some(from)
    else IndexFrom(s, pat, from + 1)
  }

  /** `s.find(pat)`, as an option: the first occurrence, the one `split(pat, 1)` cuts at. */
  function IndexOf(s: string, pat: string): (r: Option<nat>)
    ensures r.Some? ==> OccursAt(s, pat, r.value)
    ensures r.Some? ==> forall j :: 0 <= j < r.value ==> !OccursAt(s, pat, j)
    ensures r.None? ==> forall j :: 0 <= j ==> !OccursAt(s, pat, j)
  {
    IndexFrom(s, pat, 0)
  }

  /** `s.split(pat, 1)` unpacked into two parts: the text before the first
      occurrence of `pat` and the text after it, or None when `pat` does not occur. */
  function SplitOnce(s: string, pat: string): (r: Option<(string, string)>)
    ensures r.None? <==> forall j :: 0 <= j ==> !OccursAt(s, pat, j)
    ensures r.Some? ==> s == r.value.0 + pat + r.value.1
    ensures r.Some? ==> forall j :: 0 <= j < |r.value.0| ==> !OccursAt(s, pat, j)
  {
    match IndexOf(s, pat)
    case None => None
    case Some(j) =>
      assert s == s[..j] + pat + s[j + |pat|..];
      Some((s[..j], s[j + |pat|..]))
  }

  /** The cut is determined by the first occurrence: whatever split of `s` around
      `pat` leaves no earlier occurrence is the one `SplitOnce` returns. */
  lemma SplitOnceUnique(s: string, pat: string, a: string, b: string)
    requires s == a + pat + b
    requires forall j :: 0 <= j < |a| ==> !OccursAt(s, pat, j)
    ensures SplitOnce(s, pat) == Some((a, b))
  {
    assert OccursAt(s, pat, |a|) by {
      assert s[|a|..|a| + |pat|] == pat;
    }
    var r := SplitOnce(s, pat);
    var a', b' := r.value.0, r.value.1;
    assert !(|a| < |a'|);
    assert |a'| == |a|;
    assert a' == s[..|a|] == a;
    assert b' == s[|a| + |pat|..] == b;
  }

  /** A one-character pattern occurs exactly where that character is. */
  lemma OccursChar(s: string, c: char)
    ensures (forall j :: 0 <= j ==> !OccursAt(s, [c], j)) <==> c !in s
  {
    if c in s {
      var j :| 0 <= j < |s| && s[j] == c;
      assert s[j..j + 1] == [c];
      assert OccursAt(s, [c], j);
    }
    forall j | OccursAt(s, [c], j) ensures c in s {
      assert s[j] == s[j..j + 1][0];
    }
  }

  /** Whether a pattern occurs depends only on the characters it would cover. */
  lemma OccursShift(s: string, i: nat, t: string, k: nat, len: nat, pat: string, j: nat)
    requires i + len <= |s| && k + len <= |t| && s[i..i + len] == t[k..k + len]
    requires j + |pat| <= len
    ensures OccursAt(s, pat, i + j) <==> OccursAt(t, pat, k + j)
  {
    var u := s[i..i + len][j..j + |pat|];
    assert s[i + j..i + j + |pat|] == u by {
      forall m | 0 <= m < |pat| ensures s[i + j + m] == u[m] {
        assert u[m] == s[i..i + len][j + m];
      }
    }
    assert t[k + j..k + j + |pat|] == u by {
      forall m | 0 <= m < |pat| ensures t[k + j + m] == u[m] {
        assert u[m] == t[k..k + len][j + m];
      }
    }
  }
}
