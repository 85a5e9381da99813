/** The Python string methods the line parsers use: `rstrip`, `strip`,
    `in`, `replace` and `rsplit`, with the facts about them that the
    parsers' round trips need. */
module Text {
  import opened Values

  /** The characters `str.isspace` accepts, which bare `strip()` removes. */
  const Whitespace: set<char> :=
    {' ', '\t', '\n', '\r', '\U{000B}', '\U{000C}', '\U{001C}', '\U{001D}', '\U{001E}', '\U{001F}',
     '\U{0085}', '\U{00A0}', '\U{1680}', '\U{2000}', '\U{2001}', '\U{2002}', '\U{2003}', '\U{2004}',
     '\U{2005}', '\U{2006}', '\U{2007}', '\U{2008}', '\U{2009}', '\U{200A}', '\U{2028}', '\U{2029}',
     '\U{202F}', '\U{205F}', '\U{3000}'}

  /** `s.rstrip(chars)` */
  function RStrip(s: string, chars: set<char>): (r: string)
    ensures |r| <= |s| && r == s[..|r|]
    ensures forall k :: |r| <= k < |s| ==> s[k] in chars
    ensures r == "" || r[|r| - 1] !in chars
  {
    if |s| > 0 && s[|s| - 1] in chars then RStrip(s[..|s| - 1], chars) else s
  }

  /** `s.lstrip(chars)` */
  function LStrip(s: string, chars: set<char>): (r: string)
    ensures |r| <= |s| && r == s[|s| - |r|..]
    ensures forall k :: 0 <= k < |s| - |r| ==> s[k] in chars
    ensures r == "" || r[0] !in chars
  {
    if |s| > 0 && s[0] in chars then LStrip(s[1..], chars) else s
  }

  /** `s.strip()`: a piece of `s` with only whitespace cut on either
      side, and neither end of the result is whitespace. */
  function Strip(s: string): (r: string)
    ensures exists i :: TrimmedAt(s, r, i)
    ensures r == "" || (r[0] !in Whitespace && r[|r| - 1] !in Whitespace)
  {
    var t := RStrip(s, Whitespace);
    var r := LStrip(t, Whitespace);
    assert TrimmedAt(s, r, |t| - |r|);
    r
  }

  /** `r` stands at `i` in `s`, and everything of `s` around it is whitespace. */
  predicate TrimmedAt(s: string, r: string, i: int) {
    && 0 <= i <= |s| - |r| && r == s[i..i + |r|]
    && (forall k :: 0 <= k < i ==> s[k] in Whitespace)
    && (forall k :: i + |r| <= k < |s| ==> s[k] in Whitespace)
  }

  predicate OccursAt(s: string, sub: string, i: int) {
    0 <= i && i + |sub| <= |s| && s[i..i + |sub|] == sub
  }

  /** `sub in s` */
  predicate Contains(s: string, sub: string) {
    exists i :: 0 <= i <= |s| - |sub| && OccursAt(s, sub, i)
  }

  /** `s.replace(pat, repl)`: every occurrence, found left to right
      without overlaps, is replaced. */
  function Replace(s: string, pat: string, repl: string): string
    requires |pat| > 0
    decreases |s|
  {
    if |s| < |pat| then s
    else if s[..|pat|] == pat then repl + Replace(s[|pat|..], pat, repl)
    else [s[0]] + Replace(s[1..], pat, repl)
  }

  /** The start of the rightmost occurrence of `sep` in `s`. */
  function LastIndexOf(s: string, sep: string): (r: Option<nat>)
    requires |sep| > 0
    ensures r.Some? ==> OccursAt(s, sep, r.value)
    ensures r.Some? ==> forall j :: r.value < j ==> !OccursAt(s, sep, j)
    ensures r.None? ==> !Contains(s, sep)
  {
    if |s| < |sep| then None
    else if s[|s| - |sep|..] == sep then Some(|s| - |sep|)
    else
      var r := LastIndexOf(s[..|s| - 1], sep);
      assert forall j :: OccursAt(s, sep, j) && j != |s| - |sep| ==> OccursAt(s[..|s| - 1], sep, j) by {
        forall j | OccursAt(s, sep, j) && j != |s| - |sep| ensures OccursAt(s[..|s| - 1], sep, j) {
          assert s[..|s| - 1][j..j + |sep|] == s[j..j + |sep|];
        }
      }
      if r.Some? then
        assert OccursAt(s, sep, r.value) by {
          assert s[..|s| - 1][r.value..r.value + |sep|] == s[r.value..r.value + |sep|];
        }
        r
      else r
  }

  /** `s.rsplit(sep)`: split at the rightmost occurrence, then go on in
      what lies to its left. */
  function RSplit(s: string, sep: string): (parts: seq<string>)
    requires |sep| > 0
    ensures |parts| >= 1
    ensures Join(parts, sep) == s
    ensures forall k :: 0 <= k < |parts| ==> !Contains(parts[k], sep)
    decreases |s|
  {
    match LastIndexOf(s, sep)
    case None => [s]
    case Some(i) =>
      var init, last := RSplit(s[..i], sep), s[i + |sep|..];
      assert !Contains(last, sep) by {
        forall j | OccursAt(last, sep, j) ensures false {
          assert s[i + |sep| + j..i + |sep| + j + |sep|] == last[j..j + |sep|];
          assert OccursAt(s, sep, i + |sep| + j);
        }
      }
      JoinSnoc(init, last, sep);
      assert s == s[..i] + sep + last;
      init + [last]
  }

  lemma JoinSnoc(names: seq<string>, last: string, sep: string)
    requires |names| > 0
    ensures Join(names + [last], sep) == Join(names, sep) + sep + last
  {
    assert (names + [last])[..|names|] == names;
  }

  /** `sep.join(names)` for a non-empty list of names. */
  function Join(names: seq<string>, sep: string): string
    requires |names| > 0
  {
    if |names| == 1 then names[0]
    else Join(names[..|names| - 1], sep) + sep + names[|names| - 1]
  }

  /** A string without `c`. */
  predicate Free(s: string, c: char) {
    forall k :: 0 <= k < |s| ==> s[k] != c
  }

  /** A string with no `c` before its last character. */
  predicate FreeButLast(s: string, c: char) {
    forall k :: 0 <= k < |s| - 1 ==> s[k] != c
  }

  /** The occurrence found at `i` is the rightmost one. */
  lemma LastIndexOfIs(s: string, sep: string, i: nat)
    requires |sep| > 0 && OccursAt(s, sep, i)
    requires forall j :: i < j ==> !OccursAt(s, sep, j)
    ensures LastIndexOf(s, sep) == Some(i)
  {
  }

  /** A string without the first character of a separator of two or more
      characters, except perhaps at its very end, splits into itself. */
  lemma RSplitFree(s: string, sep: string)
    requires |sep| >= 2 && FreeButLast(s, sep[0])
    ensures RSplit(s, sep) == [s]
  {
    forall j | 0 <= j ensures !OccursAt(s, sep, j) {
      if j + |sep| <= |s| {
        assert s[j] != sep[0];
        assert s[j..j + |sep|][0] == s[j];
      }
    }
  }

  /** In `a + "; " + b` with no `;` in `b` before its last character, the
      separator between the two is the rightmost one. */
  lemma LastSeparator(a: string, b: string)
    requires FreeButLast(b, ';')
    ensures LastIndexOf(a + "; " + b, "; ") == Some(|a|)
  {
    var s := a + "; " + b;
    assert s[|a|] == ';' && s[|a| + 1] == ' ';
    assert s[|a|..|a| + 2] == "; ";
    forall j | |a| < j ensures !OccursAt(s, "; ", j) {
      SeparatorStart(s, j);
      assert j == |a| + 1 ==> s[j] == ' ';
      assert j >= |a| + 2 && j < |s| ==> s[j] == b[j - |a| - 2];
      assert OccursAt(s, "; ", j) ==> j + 2 <= |s|;
    }
    LastIndexOfIs(s, "; ", |a|);
  }

  lemma SeparatorStart(s: string, j: int)
    ensures OccursAt(s, "; ", j) ==> s[j] == ';'
  {
    if OccursAt(s, "; ", j) {
      assert s[j..j + 2][0] == s[j];
    }
  }

  lemma FreeButLastConcat(s: string, t: string, c: char)
    requires Free(s, c) && FreeButLast(t, c)
    ensures FreeButLast(s + t, c)
  {
    forall k | 0 <= k < |s + t| - 1 ensures (s + t)[k] != c {
      if k < |s| { assert (s + t)[k] == s[k]; } else { assert (s + t)[k] == t[k - |s|]; }
    }
  }

  /** `rsplit("; ")` undoes `"; ".join` when no name holds a `;`. */
  lemma {:induction false} RSplitJoinExact(names: seq<string>)
    requires |names| > 0
    requires forall k :: 0 <= k < |names| ==> Free(names[k], ';')
    ensures RSplit(Join(names, "; "), "; ") == names
  {
    var last := names[|names| - 1];
    if |names| == 1 {
      assert "; "[0] == ';' && FreeButLast(last, ';');
      RSplitFree(last, "; ");
    } else {
      var init := names[..|names| - 1];
      assert names == init + [last];
      var a := Join(init, "; ");
      assert Join(names, "; ") == a + "; " + last;
      assert forall k :: 0 <= k < |init| ==> Free(init[k], ';') by {
        forall k | 0 <= k < |init| ensures Free(init[k], ';') { assert init[k] == names[k]; }
      }
      RSplitJoinExact(init);
      assert FreeButLast(last, ';');
      SplitOffLast(a, last);
    }
  }

  /** The same with text after the last name, which stays attached to it;
      the text may end on a `;`. */
  lemma RSplitJoin(names: seq<string>, tail: string)
    requires |names| > 0
    requires forall k :: 0 <= k < |names| ==> Free(names[k], ';')
    requires FreeButLast(tail, ';')
    ensures RSplit(Join(names, "; ") + tail, "; ")
         == names[..|names| - 1] + [names[|names| - 1] + tail]
  {
    var last := names[|names| - 1];
    assert Free(last, ';');
    FreeButLastConcat(last, tail, ';');
    if |names| == 1 {
      assert "; "[0] == ';';
      RSplitFree(last + tail, "; ");
      assert names[..0] == [];
    } else {
      var init := names[..|names| - 1];
      assert forall k :: 0 <= k < |init| ==> Free(init[k], ';') by {
        forall k | 0 <= k < |init| ensures Free(init[k], ';') { assert init[k] == names[k]; }
      }
      RSplitJoinExact(init);
      JoinTail(names, tail);
      SplitOffLast(Join(init, "; "), last + tail);
    }
  }

  lemma JoinTail(names: seq<string>, tail: string)
    requires |names| > 1
    ensures Join(names, "; ") + tail == Join(names[..|names| - 1], "; ") + "; " + (names[|names| - 1] + tail)
  {
  }

  /** Splitting `a + "; " + b` splits `a` and adds `b`. */
  lemma SplitOffLast(a: string, b: string)
    requires FreeButLast(b, ';')
    ensures RSplit(a + "; " + b, "; ") == RSplit(a, "; ") + [b]
  {
    var s := a + "; " + b;
    LastSeparator(a, b);
    assert s[..|a|] == a && s[|a| + 2..] == b;
  }

  /** Characters of `chars` at the end of a string are removed, and
      nothing before them when the string ends on another character. */
  lemma {:induction false} RStripSuffix(s: string, t: string, chars: set<char>)
    requires |s| > 0 ==> s[|s| - 1] !in chars
    requires forall k :: 0 <= k < |t| ==> t[k] in chars
    ensures RStrip(s + t, chars) == s
    decreases |t|
  {
    if t == [] {
      assert s + t == s;
    } else {
      assert (s + t)[..|s + t| - 1] == s + t[..|t| - 1];
      RStripSuffix(s, t[..|t| - 1], chars);
    }
  }

  /** `replace` leaves a string without occurrences unchanged. */
  lemma {:induction false} ReplaceAbsent(s: string, pat: string)
    requires |pat| > 0 && !Contains(s, pat)
    ensures Replace(s, pat, "") == s
    decreases |s|
  {
    if |s| >= |pat| {
      assert s[..|pat|] != pat by { assert !OccursAt(s, pat, 0); }
      assert !Contains(s[1..], pat) by {
        forall i | OccursAt(s[1..], pat, i) ensures false {
          assert s[1..][i..i + |pat|] == s[i + 1..i + 1 + |pat|];
          assert OccursAt(s, pat, i + 1);
        }
      }
      ReplaceAbsent(s[1..], pat);
      assert s == [s[0]] + s[1..];
    }
  }

  /** `replace` of a leading occurrence takes it away. */
  lemma ReplacePrefix(pat: string, t: string)
    requires |pat| > 0 && !Contains(t, pat)
    ensures Replace(pat + t, pat, "") == t
  {
    assert (pat + t)[..|pat|] == pat;
    assert (pat + t)[|pat|..] == t;
    ReplaceAbsent(t, pat);
  }

  /** A string that neither starts nor ends with whitespace is its own `strip()`. */
  lemma StripTrimmed(s: string)
    requires |s| > 0 ==> s[0] !in Whitespace && s[|s| - 1] !in Whitespace
    ensures Strip(s) == s
  {
  }

  /** `[x.rstrip(";") for x in xs]`: each element loses exactly its
      trailing `;`, and length and order are kept. */
  function StripSemicolons(xs: seq<string>): (r: seq<string>)
    ensures |r| == |xs| && forall k :: 0 <= k < |xs| ==> EndCut(xs[k], r[k], ';')
  {
    seq(|xs|, k requires 0 <= k < |xs| => RStrip(xs[k], {';'}))
  }

  /** `r` is `s` without its trailing run of `c`: a prefix of `s` that does
      not end on `c`, and only `c` was cut. */
  predicate EndCut(s: string, r: string, c: char) {
    && |r| <= |s| && r == s[..|r|]
    && (forall k :: |r| <= k < |s| ==> s[k] == c)
    && (r == "" || r[|r| - 1] != c)
  }

  /** Names free of `;`, the last with one `;` added, strip back to the names. */
  lemma StripNames(names: seq<string>, raw: seq<string>)
    requires |names| > 0 && |raw| == |names|
    requires forall k :: 0 <= k < |names| - 1 ==> raw[k] == names[k]
    requires raw[|names| - 1] == names[|names| - 1] + ";"
    requires forall k :: 0 <= k < |names| ==> Free(names[k], ';')
    ensures StripSemicolons(raw) == names
  {
    var n := |names|;
    var stripped := StripSemicolons(raw);
    forall k | 0 <= k < n ensures stripped[k] == names[k] {
      StripName(names[k], if k < n - 1 then "" else ";");
    }
  }

  lemma StripName(name: string, t: string)
    requires Free(name, ';') && (t == "" || t == ";")
    ensures RStrip(name + t, {';'}) == name
  {
    RStripSuffix(name, t, {';'});
  }
}
