/** dash_data_processing.py: the voivodeship file, one line per
    voivodeship written `name - region; region; region;`, read into a
    dictionary from voivodeship name to the list of its regions. The file
    is given as the sequence of its lines, each with its line end. */
module DashDataProcessing {
  import opened Values
  import opened Text

  /** The characters line 19 trims from the end of a line. */
  const LineEnd: set<char> := {' ', '\n'}
  const Dash: string := " - "
  const Semicolon: string := "; "

  /** Line 19 splits the trimmed line at every `" - "`; line 20 keeps the
      first part, stripped, as the name, and splits the second part into
      regions. A line without `" - "` has no second part, and the index
      raises. */
  function ParseLine(line: string): (r: Result<(string, seq<string>)>)
    ensures r.Err? <==> !Contains(RStrip(line, LineEnd), Dash)
    ensures r.Err? ==> r.failure == IndexOutOfRange
    ensures r.Ok? ==> exists i :: NameAt(RStrip(line, LineEnd), r.value.0, i)
    ensures r.Ok? ==> |r.value.1| >= 1
    ensures r.Ok? ==> forall k :: 0 <= k < |r.value.1| ==> Region(r.value.1[k])
  {
    var t := RStrip(line, LineEnd);
    var parts := RSplit(t, Dash);
    SplitCount(t, Dash);
    if |parts| < 2 then Err(IndexOutOfRange)
    else
      NameOfParts(t, parts);
      RegionsOf(RSplit(parts[1], Semicolon));
      Ok((Strip(parts[0]), StripSemicolons(RSplit(parts[1], Semicolon))))
  }

  lemma NameOfParts(t: string, parts: seq<string>)
    requires |parts| >= 2 && Join(parts, Dash) == t && !Contains(parts[0], Dash)
    ensures NameAt(t, Strip(parts[0]), |parts[0]|)
  {
    JoinHead(parts, Dash);
    assert t[..|parts[0]| + 3][..|parts[0]|] == parts[0];
    assert t[..|parts[0]| + 3][|parts[0]|..] == Dash;
    assert t[..|parts[0]|] == parts[0];
  }

  lemma RegionsOf(raw: seq<string>)
    requires forall k :: 0 <= k < |raw| ==> !Contains(raw[k], Semicolon)
    ensures forall k :: 0 <= k < |raw| ==> Region(StripSemicolons(raw)[k])
  {
    var regions := StripSemicolons(raw);
    forall k | 0 <= k < |raw| ensures Region(regions[k]) {
      NoSeparatorInPrefix(raw[k], regions[k], Semicolon);
    }
  }

  /** The name is the stripped text in front of a `" - "`, and that text
      holds no `" - "` itself. */
  predicate NameAt(t: string, name: string, i: int) {
    OccursAt(t, Dash, i) && !Contains(t[..i], Dash) && name == Strip(t[..i])
  }

  /** A region holds no `"; "` and does not end on `;`. */
  predicate Region(x: string) {
    !Contains(x, Semicolon) && (x == "" || x[|x| - 1] != ';')
  }

  /** A prefix of a string without `sep` is without `sep`. */
  lemma NoSeparatorInPrefix(s: string, r: string, sep: string)
    requires !Contains(s, sep) && |r| <= |s| && r == s[..|r|]
    ensures !Contains(r, sep)
  {
    forall i | OccursAt(r, sep, i) ensures OccursAt(s, sep, i) {
      assert r[i..i + |sep|] == s[i..i + |sep|];
    }
  }

  /** `rsplit` gives more than one part exactly when the separator occurs. */
  lemma SplitCount(s: string, sep: string)
    requires |sep| > 0
    ensures |RSplit(s, sep)| >= 2 <==> Contains(s, sep)
  {
    var i := LastIndexOf(s, sep);
    if i.Some? {
      assert OccursAt(s, sep, i.value);
    }
  }

  /** What line 20 makes of each line, in file order. */
  function ParseAll(lines: seq<string>): (r: seq<Result<(string, seq<string>)>>)
    ensures |r| == |lines| && forall k :: 0 <= k < |lines| ==> r[k] == ParseLine(lines[k])
  {
    seq(|lines|, k requires 0 <= k < |lines| => ParseLine(lines[k]))
  }

  /** The dictionary the parsed lines fill in order, or the first error. */
  function Entries(parsed: seq<Result<(string, seq<string>)>>): Result<map<string, seq<string>>> {
    if parsed == [] then Ok(map[])
    else
      match Entries(parsed[..|parsed| - 1])
      case Err(f) => Err(f)
      case Ok(m) =>
        match parsed[|parsed| - 1]
        case Err(f) => Err(f)
        case Ok((name, regions)) => Ok(m[name := regions])
  }

  /** Lines 15-22 as a value. */
  function Voivodeships(lines: seq<string>): Result<map<string, seq<string>>> {
    Entries(ParseAll(lines))
  }

  /** Lines 15-22. */
  method ReadVoivodeshipData(lines: seq<string>) returns (r: Result<map<string, seq<string>>>)
    ensures r == Voivodeships(lines)
  {
    ghost var parsed := ParseAll(lines);
    var voivodeships: map<string, seq<string>> := map[];
    for i := 0 to |lines|
      invariant Entries(parsed[..i]) == Ok(voivodeships)
    {
      var rawLine := ParseLine(lines[i]);
      assert rawLine == parsed[i];
      EntriesStep(parsed, i, voivodeships);
      if rawLine.Err? {
        r := Err(rawLine.failure);
        EntriesStop(parsed, i + 1);
        return;
      }
      voivodeships := voivodeships[rawLine.value.0 := rawLine.value.1];
    }
    assert parsed[..|lines|] == parsed;
    r := Ok(voivodeships);
  }

  /** One more line: its pair is written, or its error is the result. */
  lemma EntriesStep(parsed: seq<Result<(string, seq<string>)>>, i: nat, m: map<string, seq<string>>)
    requires i < |parsed| && Entries(parsed[..i]) == Ok(m)
    ensures parsed[i].Err? ==> Entries(parsed[..i + 1]) == Err(parsed[i].failure)
    ensures parsed[i].Ok? ==> Entries(parsed[..i + 1]) == Ok(m[parsed[i].value.0 := parsed[i].value.1])
  {
    assert parsed[..i + 1][..i] == parsed[..i];
    assert parsed[..i + 1][i] == parsed[i];
  }

  lemma {:induction false} EntriesStop(parsed: seq<Result<(string, seq<string>)>>, i: nat)
    requires i <= |parsed| && Entries(parsed[..i]).Err?
    ensures Entries(parsed) == Entries(parsed[..i])
    decreases |parsed| - i
  {
    if i < |parsed| {
      assert parsed[..i + 1][..i] == parsed[..i];
      EntriesStop(parsed, i + 1);
    } else {
      assert parsed[..i] == parsed;
    }
  }

  /** The fold fails exactly when some line failed, with the error of the
      first one. */
  lemma {:induction false} EntriesFail(parsed: seq<Result<(string, seq<string>)>>)
    ensures Entries(parsed).Err? <==> exists k :: 0 <= k < |parsed| && parsed[k].Err?
    ensures Entries(parsed).Err? ==> exists k :: (0 <= k < |parsed| && parsed[k].Err? && Entries(parsed).failure == parsed[k].failure
      && forall j :: 0 <= j < k ==> parsed[j].Ok?)
  {
    if parsed != [] {
      var front := parsed[..|parsed| - 1];
      EntriesFail(front);
      assert forall k :: 0 <= k < |front| ==> front[k] == parsed[k];
    }
  }

  /** The names in the dictionary are exactly those the lines carry. */
  lemma {:induction false} EntriesKeys(parsed: seq<Result<(string, seq<string>)>>)
    requires Entries(parsed).Ok?
    ensures forall k :: 0 <= k < |parsed| ==> parsed[k].Ok?
    ensures forall name :: name in Entries(parsed).value <==>
      exists k :: 0 <= k < |parsed| && parsed[k].Ok? && parsed[k].value.0 == name
  {
    if parsed != [] {
      var front := parsed[..|parsed| - 1];
      EntriesKeys(front);
      assert forall k :: 0 <= k < |front| ==> front[k] == parsed[k];
    }
  }

  /** A name holds the regions of the last line carrying it. */
  lemma {:induction false} EntriesLastWins(parsed: seq<Result<(string, seq<string>)>>, k: nat)
    requires Entries(parsed).Ok? && k < |parsed| && parsed[k].Ok?
    requires forall m :: k < m < |parsed| ==> parsed[m].Err? || parsed[m].value.0 != parsed[k].value.0
    ensures parsed[k].value.0 in Entries(parsed).value
    ensures Entries(parsed).value[parsed[k].value.0] == parsed[k].value.1
  {
    var front := parsed[..|parsed| - 1];
    if k < |parsed| - 1 {
      assert front[k] == parsed[k];
      assert forall m :: k < m < |front| ==> front[m] == parsed[m];
      assert Entries(front).Ok?;
      EntriesLastWins(front, k);
    }
  }

  /** Reading fails exactly when some line holds no `" - "` once its end
      is trimmed, and the error is then the index error of line 20. */
  lemma VoivodeshipsFail(lines: seq<string>)
    ensures Voivodeships(lines).Err? <==> exists k :: 0 <= k < |lines| && !Contains(RStrip(lines[k], LineEnd), Dash)
    ensures Voivodeships(lines).Err? ==> Voivodeships(lines).failure == IndexOutOfRange
  {
    var parsed := ParseAll(lines);
    EntriesFail(parsed);
    if Voivodeships(lines).Err? {
      var k :| 0 <= k < |parsed| && parsed[k].Err? && Entries(parsed).failure == parsed[k].failure;
      assert parsed[k] == ParseLine(lines[k]);
    }
  }

  /** The names in the dictionary are exactly the names of the lines. */
  lemma VoivodeshipsKeys(lines: seq<string>, name: string)
    requires Voivodeships(lines).Ok?
    ensures name in Voivodeships(lines).value <==>
      exists k :: 0 <= k < |lines| && ParseLine(lines[k]).Ok? && ParseLine(lines[k]).value.0 == name
  {
    var parsed := ParseAll(lines);
    EntriesKeys(parsed);
  }

  /** A later line with the same name overwrites an earlier one: a name
      holds the regions of the last line that carries it. */
  lemma VoivodeshipsLastWins(lines: seq<string>, k: nat)
    requires Voivodeships(lines).Ok? && k < |lines| && ParseLine(lines[k]).Ok?
    requires forall m :: k < m < |lines| ==> ParseLine(lines[m]).Err? || ParseLine(lines[m]).value.0 != ParseLine(lines[k]).value.0
    ensures ParseLine(lines[k]).value.0 in Voivodeships(lines).value
    ensures Voivodeships(lines).value[ParseLine(lines[k]).value.0] == ParseLine(lines[k]).value.1
  {
    EntriesLastWins(ParseAll(lines), k);
  }

  /** Trailing spaces and line ends are trimmed before the split: they
      change nothing. */
  lemma ParseLineTrailing(line: string, t: string)
    requires forall k :: 0 <= k < |t| ==> t[k] in LineEnd
    ensures ParseLine(line + t) == ParseLine(line)
  {
    RStripAppend(line, t, LineEnd);
  }

  lemma {:induction false} RStripAppend(s: string, t: string, chars: set<char>)
    requires forall k :: 0 <= k < |t| ==> t[k] in chars
    ensures RStrip(s + t, chars) == RStrip(s, chars)
    decreases |t|
  {
    if t == [] {
      assert s + t == s;
    } else {
      assert (s + t)[..|s + t| - 1] == s + t[..|t| - 1];
      RStripAppend(s, t[..|t| - 1], chars);
    }
  }

  /** A part that a `" - "` may follow without being mistaken for the
      separator: it holds no `" - "` and does not start with `"- "`. */
  predicate Segment(s: string) {
    !Contains(s, Dash) && !DashStart(s)
  }

  predicate DashStart(s: string) {
    |s| >= 2 && s[0] == '-' && s[1] == ' '
  }

  /** A string without `" - "` is its own split. */
  lemma DashFree(s: string)
    requires !Contains(s, Dash)
    ensures RSplit(s, Dash) == [s]
  {
    SplitCount(s, Dash);
  }

  /** `rsplit(" - ")` undoes `" - ".join` when no part holds a `" - "`
      and no part after the first starts with `"- "`: hyphenated names
      such as `kujawsko-pomorskie` are split like any other. */
  lemma {:induction false} DashSplitJoin(parts: seq<string>)
    requires |parts| > 0 && !Contains(parts[0], Dash)
    requires forall k :: 1 <= k < |parts| ==> Segment(parts[k])
    ensures RSplit(Join(parts, Dash), Dash) == parts
  {
    var last := parts[|parts| - 1];
    if |parts| == 1 {
      DashFree(last);
      assert Join(parts, Dash) == last && parts == [last];
    } else {
      var init := parts[..|parts| - 1];
      assert parts == init + [last];
      assert init[0] == parts[0];
      assert forall k :: 1 <= k < |init| ==> Segment(init[k]) by {
        forall k | 1 <= k < |init| ensures Segment(init[k]) { assert init[k] == parts[k]; }
      }
      DashSplitJoin(init);
      DashSplitOffLast(Join(init, Dash), last);
    }
  }

  /** Splitting `a + " - " + b` splits `a` and adds `b`. */
  lemma DashSplitOffLast(a: string, b: string)
    requires Segment(b)
    ensures RSplit(a + Dash + b, Dash) == RSplit(a, Dash) + [b]
  {
    var s := a + Dash + b;
    LastDashSeparator(a, b);
    assert s[..|a|] == a && s[|a| + 3..] == b;
  }

  /** In `key + " - " + rest` the separator after `key` is the rightmost
      `" - "` when `rest` is a segment. */
  lemma LastDashSeparator(key: string, rest: string)
    requires Segment(rest)
    ensures LastIndexOf(key + " - " + rest, " - ") == Some(|key|)
  {
    var s := key + " - " + rest;
    DashJoined(key, rest, s);
    NoDashAfter(s, |key|, rest);
    LastIndexOfIs(s, " - ", |key|);
  }

  lemma DashJoined(key: string, rest: string, s: string)
    requires s == key + " - " + rest
    ensures |s| == |key| + 3 + |rest| && OccursAt(s, Dash, |key|)
    ensures s[|key| + 1] == '-' && s[|key| + 2] == ' ' && s[|key| + 3..|s|] == rest
  {
    assert s[|key|..|key| + 3] == " - ";
  }

  lemma NoDashAfter(s: string, n: nat, rest: string)
    requires Segment(rest) && n + 3 + |rest| == |s|
    requires s[n + 1] == '-' && s[n + 2] == ' ' && s[n + 3..|s|] == rest
    ensures forall j :: n < j ==> !OccursAt(s, Dash, j)
  {
    forall j | n < j ensures !OccursAt(s, Dash, j) {
      if j + 3 <= |s| {
        if j == n + 1 {
          NotDashAt(s, j, 0);
        } else if j == n + 2 {
          if rest[0] != '-' { NotDashAt(s, j, 1); } else { NotDashAt(s, j, 2); }
        } else {
          DashShift(s, rest, n + 3, j);
        }
      }
    }
  }

  /** A character that differs from the separator's rules out an occurrence. */
  lemma NotDashAt(s: string, j: int, k: int)
    requires 0 <= j && j + 3 <= |s| && 0 <= k < 3 && s[j + k] != Dash[k]
    ensures !OccursAt(s, Dash, j)
  {
    assert s[j..j + 3][k] == s[j + k];
  }

  /** An occurrence inside an embedded piece `t` is an occurrence in `t`. */
  lemma DashShift(s: string, t: string, off: int, j: int)
    requires 0 <= off <= j && j + 3 <= off + |t| <= |s| && s[off..off + |t|] == t
    ensures OccursAt(s, Dash, j) ==> OccursAt(t, Dash, j - off)
  {
    var k := j - off;
    assert t[k] == s[j] && t[k + 1] == s[j + 1] && t[k + 2] == s[j + 2];
    assert t[k..k + 3] == [t[k], t[k + 1], t[k + 2]];
    assert s[j..j + 3] == [s[j], s[j + 1], s[j + 2]];
  }

  /** `"; "` between two parts creates no `" - "` unless the second starts
      with `"- "`. */
  lemma DashAcross(a: string, b: string)
    requires !Contains(a, Dash) && Segment(b)
    ensures !Contains(a + Semicolon + b, Dash)
  {
    var s := a + Semicolon + b;
    var off := |a| + 2;
    assert s[0..|a|] == a && s[off..|s|] == b && s[|a|] == ';';
    forall j | 0 <= j <= |s| - 3 ensures !OccursAt(s, Dash, j) {
      if j + 3 <= |a| {
        DashShift(s, a, 0, j);
      } else if j <= |a| {
        NotDashAt(s, j, |a| - j);
      } else if j == |a| + 1 {
        if b[0] != '-' { NotDashAt(s, j, 1); } else { NotDashAt(s, j, 2); }
      } else {
        DashShift(s, b, off, j);
      }
    }
  }

  /** A final `;` creates no `" - "`. */
  lemma DashBeforeSemicolon(a: string)
    requires !Contains(a, Dash)
    ensures !Contains(a + ";", Dash)
  {
    var s := a + ";";
    assert s[0..|a|] == a && s[|a|] == ';';
    forall j | 0 <= j <= |s| - 3 ensures !OccursAt(s, Dash, j) {
      if j + 3 <= |a| {
        DashShift(s, a, 0, j);
      } else {
        NotDashAt(s, j, 2);
      }
    }
  }

  /** Regions that are segments join into a list without `" - "`. */
  lemma {:induction false} RegionsDashFree(regions: seq<string>)
    requires |regions| > 0 && forall k :: 0 <= k < |regions| ==> Segment(regions[k])
    ensures !Contains(Join(regions, Semicolon), Dash)
  {
    if |regions| > 1 {
      var init := regions[..|regions| - 1];
      assert forall k :: 0 <= k < |init| ==> Segment(init[k]) by {
        forall k | 0 <= k < |init| ensures Segment(init[k]) { assert init[k] == regions[k]; }
      }
      RegionsDashFree(init);
      DashAcross(Join(init, Semicolon), regions[|regions| - 1]);
    }
  }

  /** A joined list starts with its first part and the separator. */
  lemma {:induction false} JoinHead(parts: seq<string>, sep: string)
    requires |parts| >= 2
    ensures var j := Join(parts, sep); |j| >= |parts[0]| + |sep| && j[..|parts[0]| + |sep|] == parts[0] + sep
  {
    var init := parts[..|parts| - 1];
    if |parts| > 2 {
      JoinHead(init, sep);
      var j := Join(init, sep);
      assert j[..|parts[0]| + |sep|] == parts[0] + sep;
      assert (j + sep + parts[|parts| - 1])[..|parts[0]| + |sep|] == j[..|parts[0]| + |sep|];
    }
  }

  /** The region list `a; b; c;` of a line is a segment. */
  lemma BodySegment(regions: seq<string>)
    requires |regions| > 0 && forall k :: 0 <= k < |regions| ==> Segment(regions[k])
    ensures Segment(Join(regions, Semicolon) + ";")
  {
    var j := Join(regions, Semicolon);
    RegionsDashFree(regions);
    DashBeforeSemicolon(j);
    BodyStart(regions);
    SemicolonAfter(regions[0], j + ";");
  }

  /** The region list starts with the first region and a `;`. */
  lemma BodyStart(regions: seq<string>)
    requires |regions| > 0
    ensures var body := Join(regions, Semicolon) + ";";
      |body| > |regions[0]| && body[..|regions[0]|] == regions[0] && body[|regions[0]|] == ';'
  {
    var j := Join(regions, Semicolon);
    var r0 := regions[0];
    if |regions| > 1 {
      JoinHead(regions, Semicolon);
      assert j[..|r0| + 2][..|r0|] == r0 && j[..|r0| + 2][|r0|] == ';';
    }
  }

  /** A string made of a segment and then a `;` does not start with `"- "`. */
  lemma SemicolonAfter(r: string, body: string)
    requires !DashStart(r) && |body| > |r| && body[..|r|] == r && body[|r|] == ';'
    ensures !DashStart(body)
  {
    if |r| >= 2 {
      assert body[..|r|][0] == body[0] && body[..|r|][1] == body[1];
    }
  }

  /** A line written `name - a; b; c;`, perhaps followed by more
      `" - "` segments, reads back as the name and the regions: the
      segments after the second are ignored. */
  lemma ParseLineRoundTrip(name: string, regions: seq<string>, more: seq<string>)
    requires !Contains(name, Dash) && (name == "" || (name[0] !in Whitespace && name[|name| - 1] !in Whitespace))
    requires |regions| > 0
    requires forall k :: 0 <= k < |regions| ==> Free(regions[k], ';') && Segment(regions[k])
    requires forall k :: 0 <= k < |more| ==> Segment(more[k]) && more[k] != "" && more[k][|more[k]| - 1] !in LineEnd
    ensures ParseLine(Join([name, Join(regions, Semicolon) + ";"] + more, Dash) + "\n") == Ok((name, regions))
  {
    var body := Join(regions, Semicolon) + ";";
    var segments := [name, body] + more;
    BodySegment(regions);
    SegmentsAfterName(name, body, more);
    SegmentsEnd(name, body, more);
    LineSegments(segments);
    StripTrimmed(name);
    RegionsRoundTrip(regions);
  }

  /** The trimmed line splits back into its `" - "` segments. */
  lemma LineSegments(segments: seq<string>)
    requires |segments| > 1 && !Contains(segments[0], Dash)
    requires forall k :: 1 <= k < |segments| ==> Segment(segments[k])
    requires var last := segments[|segments| - 1]; last != "" && last[|last| - 1] !in LineEnd
    ensures RSplit(RStrip(Join(segments, Dash) + "\n", LineEnd), Dash) == segments
  {
    var text := Join(segments, Dash);
    LastChar(segments);
    assert RStrip(text + "\n", LineEnd) == text by {
      RStripSuffix(text, "\n", LineEnd);
    }
    DashSplitJoin(segments);
  }

  /** The last segment is not empty and does not end on a line end. */
  lemma SegmentsEnd(name: string, body: string, more: seq<string>)
    requires body != "" && body[|body| - 1] == ';'
    requires forall k :: 0 <= k < |more| ==> more[k] != "" && more[k][|more[k]| - 1] !in LineEnd
    ensures var segments := [name, body] + more;
      var last := segments[|segments| - 1];
      last != "" && last[|last| - 1] !in LineEnd
  {
    var segments := [name, body] + more;
    if more != [] {
      assert segments[|segments| - 1] == more[|more| - 1];
    }
  }

  lemma SegmentsAfterName(name: string, body: string, more: seq<string>)
    requires Segment(body)
    requires forall k :: 0 <= k < |more| ==> Segment(more[k])
    ensures var segments := [name, body] + more;
      segments[0] == name && forall k :: 1 <= k < |segments| ==> Segment(segments[k])
  {
    var segments := [name, body] + more;
    forall k | 1 <= k < |segments| ensures Segment(segments[k]) {
      if k >= 2 { assert segments[k] == more[k - 2]; }
    }
  }

  /** The region list `a; b; c;` reads back as its regions. */
  lemma RegionsRoundTrip(regions: seq<string>)
    requires |regions| > 0
    requires forall k :: 0 <= k < |regions| ==> Free(regions[k], ';')
    ensures StripSemicolons(RSplit(Join(regions, Semicolon) + ";", Semicolon)) == regions
  {
    var raw := regions[..|regions| - 1] + [regions[|regions| - 1] + ";"];
    RegionsSplit(regions);
    RawNames(regions, raw);
    StripNames(regions, raw);
  }

  lemma RawNames(regions: seq<string>, raw: seq<string>)
    requires |regions| > 0 && raw == regions[..|regions| - 1] + [regions[|regions| - 1] + ";"]
    ensures |raw| == |regions| && raw[|regions| - 1] == regions[|regions| - 1] + ";"
    ensures forall k :: 0 <= k < |regions| - 1 ==> raw[k] == regions[k]
  {
  }

  /** The split of the region list keeps the final `;` on the last region. */
  lemma RegionsSplit(regions: seq<string>)
    requires |regions| > 0
    requires forall k :: 0 <= k < |regions| ==> Free(regions[k], ';')
    ensures RSplit(Join(regions, Semicolon) + ";", Semicolon) == regions[..|regions| - 1] + [regions[|regions| - 1] + ";"]
  {
    assert FreeButLast(";", ';');
    RSplitJoin(regions, ";");
  }

  /** The joined line ends on the last segment's last character. */
  lemma LastChar(segments: seq<string>)
    requires |segments| > 1 && segments[|segments| - 1] != ""
    ensures var s := Join(segments, Dash); |s| > 0 && s[|s| - 1] == segments[|segments| - 1][|segments[|segments| - 1]| - 1]
  {
  }
}
