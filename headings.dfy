/**
 * normalize_heading_levels (openevidence_converter.py:456-491): the distinct
 * heading depths found in the document are mapped, in increasing order, onto
 * 2, 3, ... (never beyond 6), so that the body starts at H2 under the H1 title.
 *
 * The heading pattern `^(#{2,6})\s+(.+)$` (MULTILINE) is modelled by a scanner
 * with the regular-expression engine's greedy and backtracking behaviour
 * written out. The whitespace class between the hashes and the text is a
 * parameter `gap`: the code uses `\s` (IsSpace), which also matches line
 * breaks; IsBlank (`[ \t]`) keeps a heading on its own line.
 */
module Headings {
  import opened Wrappers
  import opened Text

  /** One match: the span it covers, the number of hashes and the captured text. */
  datatype Heading = Heading(start: nat, end: nat, level: nat, content: string)

  /** A match attempt may only begin at the start of a line. */
  predicate LineStart(text: string, pos: nat) {
    pos == 0 || (pos <= |text| && text[pos - 1] == '\n')
  }

  /** The number of `#` characters from `pos` on. */
  function HashRun(text: string, pos: nat): (r: nat)
    requires pos <= |text|
    ensures pos + r <= |text|
    ensures forall i :: pos <= i < pos + r ==> text[i] == '#'
    ensures pos + r == |text| || text[pos + r] != '#'
    decreases |text| - pos
  {
    if pos < |text| && text[pos] == '#' then 1 + HashRun(text, pos + 1) else 0
  }

  /** The number of `gap` characters from `pos` on. */
  function GapRun(text: string, pos: nat, gap: char -> bool): (r: nat)
    requires pos <= |text|
    ensures pos + r <= |text|
    ensures forall i :: pos <= i < pos + r ==> gap(text[i])
    ensures pos + r == |text| || !gap(text[pos + r])
    decreases |text| - pos
  {
    if pos < |text| && gap(text[pos]) then 1 + GapRun(text, pos + 1, gap) else 0
  }

  /** Where `.+` stops: the next line break at or after `pos`, or the end. */
  function LineEnd(text: string, pos: nat): (r: nat)
    requires pos <= |text|
    ensures pos <= r <= |text|
    ensures forall i :: pos <= i < r ==> text[i] != '\n'
    ensures r == |text| || text[r] == '\n'
    decreases |text| - pos
  {
    if pos < |text| && text[pos] != '\n' then LineEnd(text, pos + 1) else pos
  }

  /**
   * How much of the gap run of length `w` after position `q` the greedy gap
   * pattern keeps: the longest prefix after which `.+` can take a character.
   */
  function GapTaken(text: string, q: nat, w: nat): (r: Option<nat>)
    requires q + w <= |text|
    ensures r.Some? ==> 1 <= r.value <= w && q + r.value < |text| && text[q + r.value] != '\n'
    ensures r.None? ==> forall i :: q < i <= q + w ==> i == |text| || text[i] == '\n'
    decreases w
  {
    if w == 0 then None
    else if q + w < |text| && text[q + w] != '\n' then Some(w)
    else GapTaken(text, q, w - 1)
  }

  /** The match of the heading pattern that begins at `pos`, if any. */
  function MatchAt(text: string, pos: nat, gap: char -> bool): (r: Option<Heading>)
    requires pos <= |text|
    ensures r.Some? ==> r.value.start == pos < r.value.end <= |text| && 2 <= r.value.level <= 6
  {
    if !LineStart(text, pos) then None
    else
      var h := HashRun(text, pos);
      if h < 2 || h > 6 then None
      else
        var w := GapRun(text, pos + h, gap);
        match GapTaken(text, pos + h, w)
        case None => None
        case Some(taken) =>
          var c := pos + h + taken;
          var e := LineEnd(text, c);
          Some(Heading(pos, e, h, text[c..e]))
  }

  /**
   * A match is: 2..6 hashes at a line start, a non-empty run of `gap`
   * characters, then the captured text, non-empty and without line breaks,
   * running to the end of its line.
   */
  lemma MatchShape(text: string, pos: nat, gap: char -> bool)
    requires pos <= |text| && MatchAt(text, pos, gap).Some?
    ensures var m := MatchAt(text, pos, gap).value;
      && LineStart(text, pos)
      && 0 < |m.content| && pos + m.level < m.end - |m.content|
      && (forall i :: pos <= i < pos + m.level ==> text[i] == '#')
      && (forall i :: pos + m.level <= i < m.end - |m.content| ==> gap(text[i]))
      && m.content == text[m.end - |m.content|..m.end]
      && (forall i :: 0 <= i < |m.content| ==> m.content[i] != '\n')
      && (m.end == |text| || text[m.end] == '\n')
  {
  }

  /** `findall`: the matches from `pos` on, left to right, never overlapping. */
  function Scan(text: string, pos: nat, gap: char -> bool): seq<Heading>
    requires pos <= |text|
    decreases |text| - pos
  {
    if pos == |text| then []
    else match MatchAt(text, pos, gap)
      case Some(m) => [m] + Scan(text, m.end, gap)
      case None => Scan(text, pos + 1, gap)
  }

  function Hashes(n: nat): (r: string)
    ensures |r| == n && forall i :: 0 <= i < n ==> r[i] == '#'
  {
    if n == 0 then "" else Hashes(n - 1) + "#"
  }

  /** `replace_heading`: the mapped level (a level outside the map stays), one space, the text. */
  function Render(h: Heading, levelMap: map<nat, nat>): string {
    var newLevel := if h.level in levelMap then levelMap[h.level] else h.level;
    Hashes(newLevel) + " " + h.content
  }

  /** `sub`: every match from `pos` on replaced by its rendering. */
  function Rewrite(text: string, pos: nat, gap: char -> bool, levelMap: map<nat, nat>): string
    requires pos <= |text|
    decreases |text| - pos
  {
    if pos == |text| then ""
    else match MatchAt(text, pos, gap)
      case Some(m) => Render(m, levelMap) + Rewrite(text, m.end, gap, levelMap)
      case None => [text[pos]] + Rewrite(text, pos + 1, gap, levelMap)
  }

  function LevelSet(headings: seq<Heading>): set<nat> {
    set h | h in headings :: h.level
  }

  /** The depths 2..6 (the only ones the pattern matches) of `levels`, from `d` up, in order. */
  function LevelsFrom(levels: set<nat>, d: nat): seq<nat>
    decreases 7 - d
  {
    if d > 6 then [] else (if d in levels then [d] else []) + LevelsFrom(levels, d + 1)
  }

  /** `sorted(set(...))` on heading depths. */
  function SortedLevels(levels: set<nat>): seq<nat> {
    LevelsFrom(levels, 2)
  }

  function Min(a: nat, b: nat): nat {
    if a <= b then a else b
  }

  /** The map the loop builds: `level_map[levels[i]] = min(2 + i, 6)`. */
  function LevelMap(levels: seq<nat>): (r: map<nat, nat>)
    ensures forall i :: 0 <= i < |levels| ==> levels[i] in r
  {
    if |levels| == 0 then map[]
    else LevelMap(levels[..|levels| - 1])[levels[|levels| - 1] := Min(2 + |levels| - 1, 6)]
  }

  /** normalize_heading_levels, as a function of the text and the gap class. */
  function Normalize(text: string, gap: char -> bool): string {
    var headings := Scan(text, 0, gap);
    if headings == [] then text
    else
      var levels := SortedLevels(LevelSet(headings));
      if |levels| > 0 && levels[0] <= 2 then text
      else Rewrite(text, 0, gap, LevelMap(levels))
  }

  /** The `for i, level in enumerate(unique_levels)` loop. */
  method BuildLevelMap(levels: seq<nat>) returns (levelMap: map<nat, nat>)
    ensures levelMap == LevelMap(levels)
  {
    levelMap := map[];
    for i := 0 to |levels|
      invariant levelMap == LevelMap(levels[..i])
    {
      assert levels[..i + 1][..i] == levels[..i];
      levelMap := levelMap[levels[i] := Min(2 + i, 6)];
    }
    assert levels[..|levels|] == levels;
  }

  /** normalize_heading_levels with the pattern as written (`\s+`). */
  method NormalizeHeadingLevels(text: string) returns (result: string)
    ensures result == Normalize(text, IsSpace)
  {
    var headings := Scan(text, 0, IsSpace);
    if headings == [] {
      return text;
    }
    var levels := SortedLevels(LevelSet(headings));
    if |levels| > 0 && levels[0] <= 2 {
      return text;
    }
    var levelMap := BuildLevelMap(levels);
    result := Rewrite(text, 0, IsSpace, levelMap);
  }

  // ----- Properties -----

  /** The matches are in order, inside the text, and each is what the pattern finds at its start. */
  predicate Ordered(headings: seq<Heading>, pos: nat, n: nat)
    decreases |headings|
  {
    pos <= n &&
    (|headings| > 0 ==>
      pos <= headings[0].start < headings[0].end <= n && Ordered(headings[1..], headings[0].end, n))
  }

  lemma {:induction false} ScanOrdered(text: string, pos: nat, gap: char -> bool)
    requires pos <= |text|
    ensures Ordered(Scan(text, pos, gap), pos, |text|)
    decreases |text| - pos
  {
    if pos < |text| {
      match MatchAt(text, pos, gap)
      case Some(m) =>
        ScanOrdered(text, m.end, gap);
      case None =>
        ScanOrdered(text, pos + 1, gap);
    }
  }

  /** Every match `findall` reports is the one the pattern finds at its start. */
  lemma {:induction false} ScanMatches(text: string, pos: nat, gap: char -> bool)
    requires pos <= |text|
    ensures forall h :: h in Scan(text, pos, gap) ==> pos <= h.start <= |text| && MatchAt(text, h.start, gap) == Some(h)
    decreases |text| - pos
  {
    if pos < |text| {
      match MatchAt(text, pos, gap)
      case Some(m) =>
        ScanMatches(text, m.end, gap);
      case None =>
        ScanMatches(text, pos + 1, gap);
    }
  }

  /** The text from `pos` with the given spans replaced by their renderings, everything between kept. */
  function Splice(text: string, pos: nat, headings: seq<Heading>, levelMap: map<nat, nat>): string
    requires Ordered(headings, pos, |text|)
    decreases |headings|
  {
    if |headings| == 0 then text[pos..]
    else text[pos..headings[0].start] + Render(headings[0], levelMap) + Splice(text, headings[0].end, headings[1..], levelMap)
  }

  /**
   * `sub` changes the text only inside the spans `findall` reports: each span
   * becomes its heading re-rendered, every character outside the spans is kept.
   */
  lemma {:induction false} RewriteIsSplice(text: string, pos: nat, gap: char -> bool, levelMap: map<nat, nat>)
    requires pos <= |text|
    ensures Ordered(Scan(text, pos, gap), pos, |text|)
    ensures Rewrite(text, pos, gap, levelMap) == Splice(text, pos, Scan(text, pos, gap), levelMap)
    decreases |text| - pos
  {
    if pos < |text| {
      var r := Step(text, pos, gap, levelMap);
      if r.Some? {
        RewriteIsSplice(text, r.value.end, gap, levelMap);
        SpliceCons(text, pos, r.value, Scan(text, r.value.end, gap), levelMap);
      } else {
        RewriteIsSplice(text, pos + 1, gap, levelMap);
        SpliceSkip(text, pos, Scan(text, pos + 1, gap), levelMap);
      }
    } else {
      assert Scan(text, pos, gap) == [];
    }
  }

  /**
   * Where the pattern matches, both `findall` and `sub` take the match and go
   * on after it; where it does not, both move on by one character, `sub`
   * keeping that character.
   */
  lemma Step(text: string, pos: nat, gap: char -> bool, levelMap: map<nat, nat>) returns (r: Option<Heading>)
    requires pos < |text|
    ensures r == MatchAt(text, pos, gap)
    ensures r.Some? ==> r.value.start == pos < r.value.end <= |text|
    ensures r.Some? ==> Scan(text, pos, gap) == [r.value] + Scan(text, r.value.end, gap)
    ensures r.Some? ==> Rewrite(text, pos, gap, levelMap) == Render(r.value, levelMap) + Rewrite(text, r.value.end, gap, levelMap)
    ensures r.None? ==> Scan(text, pos, gap) == Scan(text, pos + 1, gap)
    ensures r.None? ==> Rewrite(text, pos, gap, levelMap) == [text[pos]] + Rewrite(text, pos + 1, gap, levelMap)
  {
    r := MatchAt(text, pos, gap);
  }

  /** One more span in front of an ordered list: still ordered, and spliced first. */
  lemma SpliceCons(text: string, pos: nat, m: Heading, rest: seq<Heading>, levelMap: map<nat, nat>)
    requires pos == m.start < m.end <= |text| && Ordered(rest, m.end, |text|)
    ensures Ordered([m] + rest, pos, |text|)
    ensures Splice(text, pos, [m] + rest, levelMap) == Render(m, levelMap) + Splice(text, m.end, rest, levelMap)
  {
    assert ([m] + rest)[0] == m && ([m] + rest)[1..] == rest;
    assert text[pos..m.start] == "";
  }

  /** Starting one character earlier keeps the list ordered and copies that character first. */
  lemma SpliceSkip(text: string, pos: nat, hs: seq<Heading>, levelMap: map<nat, nat>)
    requires pos < |text| && Ordered(hs, pos + 1, |text|)
    ensures Ordered(hs, pos, |text|)
    ensures Splice(text, pos, hs, levelMap) == [text[pos]] + Splice(text, pos + 1, hs, levelMap)
  {
    if |hs| == 0 {
      assert text[pos..] == [text[pos]] + text[pos + 1..];
    } else {
      assert text[pos..hs[0].start] == [text[pos]] + text[pos + 1..hs[0].start];
    }
  }

  // ----- The level map -----

  predicate Increasing(levels: seq<nat>) {
    forall i, j :: 0 <= i < j < |levels| ==> levels[i] < levels[j]
  }

  lemma {:induction false} LevelsFromSpec(levels: set<nat>, d: nat)
    ensures Increasing(LevelsFrom(levels, d))
    ensures forall x :: x in LevelsFrom(levels, d) <==> x in levels && d <= x <= 6
    decreases 7 - d
  {
    if d <= 6 {
      LevelsFromSpec(levels, d + 1);
      var rest := LevelsFrom(levels, d + 1);
      assert forall i :: 0 <= i < |rest| ==> d < rest[i] by {
        forall i | 0 <= i < |rest| ensures d < rest[i] {
          assert rest[i] in rest;
        }
      }
    }
  }

  /** The sorted distinct depths: increasing, and exactly the depths present. */
  lemma SortedLevelsSpec(levels: set<nat>)
    requires forall x :: x in levels ==> 2 <= x <= 6
    ensures Increasing(SortedLevels(levels))
    ensures forall x :: x in SortedLevels(levels) <==> x in levels
  {
    LevelsFromSpec(levels, 2);
  }

  /** The loop maps the i-th level (from 0) to min(2 + i, 6) and nothing else. */
  lemma {:induction false} LevelMapSpec(levels: seq<nat>)
    requires Increasing(levels)
    ensures forall x :: x in LevelMap(levels) <==> x in levels
    ensures forall i :: 0 <= i < |levels| ==> LevelMap(levels)[levels[i]] == Min(2 + i, 6)
  {
    if |levels| > 0 {
      var init := levels[..|levels| - 1];
      LevelMapSpec(init);
      assert forall x :: x in levels <==> x in init || x == levels[|levels| - 1];
    }
  }

  /** Strictly increasing depths that start at `levels[0]` are at least `levels[0] + i` at index `i`. */
  lemma {:induction false} IncreasingFloor(levels: seq<nat>, i: nat)
    requires Increasing(levels) && i < |levels|
    ensures levels[i] >= levels[0] + i
  {
    if i > 0 {
      IncreasingFloor(levels, i - 1);
    }
  }

  // ----- normalize_heading_levels on a document -----

  /** The depths found are among 2..6. */
  lemma ScanLevels(text: string, gap: char -> bool)
    ensures forall x :: x in LevelSet(Scan(text, 0, gap)) ==> 2 <= x <= 6
  {
    ScanMatches(text, 0, gap);
  }

  /** No heading, or a heading already at H2: the text comes back unchanged. */
  lemma NormalizeUnchanged(text: string, gap: char -> bool)
    requires Scan(text, 0, gap) == [] || exists h :: h in Scan(text, 0, gap) && h.level == 2
    ensures Normalize(text, gap) == text
  {
    var headings := Scan(text, 0, gap);
    if headings != [] {
      var levels := SortedLevels(LevelSet(headings));
      ScanLevels(text, gap);
      SortedLevelsSpec(LevelSet(headings));
      var h :| h in headings && h.level == 2;
      assert 2 in levels;
      var k :| 0 <= k < |levels| && levels[k] == 2;
      assert levels[0] <= 2;
    }
  }

  lemma LevelIndex(levels: seq<nat>, x: nat) returns (i: nat)
    requires x in levels
    ensures i < |levels| && levels[i] == x
  {
    i :| 0 <= i < |levels| && levels[i] == x;
  }

  /** Read on a set of depths 3..6: every depth is mapped into 2..6, strictly shallower. */
  lemma LevelMapBounds(depths: set<nat>)
    requires forall x :: x in depths ==> 3 <= x <= 6
    ensures forall x :: x in depths ==>
      x in LevelMap(SortedLevels(depths)) && 2 <= LevelMap(SortedLevels(depths))[x] <= 6 && LevelMap(SortedLevels(depths))[x] < x
  {
    var levels := SortedLevels(depths);
    SortedLevelsSpec(depths);
    LevelMapSpec(levels);
    forall x | x in depths
      ensures x in LevelMap(levels) && 2 <= LevelMap(levels)[x] <= 6 && LevelMap(levels)[x] < x
    {
      var i := LevelIndex(levels, x);
      IncreasingFloor(levels, i);
      assert levels[0] in depths;
    }
  }

  /** Deeper depths never map shallower. */
  lemma LevelMapMonotone(depths: set<nat>)
    requires forall x :: x in depths ==> 2 <= x <= 6
    ensures forall x, y :: x in depths && y in depths && x <= y ==>
      x in LevelMap(SortedLevels(depths)) && y in LevelMap(SortedLevels(depths)) &&
      LevelMap(SortedLevels(depths))[x] <= LevelMap(SortedLevels(depths))[y]
  {
    var levels := SortedLevels(depths);
    SortedLevelsSpec(depths);
    forall x, y | x in depths && y in depths && x <= y
      ensures x in LevelMap(levels) && y in LevelMap(levels) && LevelMap(levels)[x] <= LevelMap(levels)[y]
    {
      LevelMapOrder(levels, x, y);
    }
  }

  /** The map of an increasing list keeps the order of its elements. */
  lemma LevelMapOrder(levels: seq<nat>, x: nat, y: nat)
    requires Increasing(levels) && x in levels && y in levels && x <= y
    ensures x in LevelMap(levels) && y in LevelMap(levels) && LevelMap(levels)[x] <= LevelMap(levels)[y]
  {
    LevelMapSpec(levels);
    var i := LevelIndex(levels, x);
    var j := LevelIndex(levels, y);
    assert i <= j;
  }

  /** The shallowest depth present maps to 2. */
  lemma LevelMapShallowest(depths: set<nat>, x: nat)
    requires forall y :: y in depths ==> 2 <= y <= 6
    requires x in depths && forall y :: y in depths ==> x <= y
    ensures x in LevelMap(SortedLevels(depths)) && LevelMap(SortedLevels(depths))[x] == 2
  {
    var levels := SortedLevels(depths);
    SortedLevelsSpec(depths);
    LevelMapSpec(levels);
    var i := LevelIndex(levels, x);
    assert levels[0] in depths;
    assert i == 0;
  }

  /** A document whose headings are all below H2 is rewritten through the map of its sorted depths. */
  lemma NormalizeRewrites(text: string, gap: char -> bool)
    requires Scan(text, 0, gap) != []
    requires forall h :: h in Scan(text, 0, gap) ==> h.level != 2
    ensures Normalize(text, gap) == Rewrite(text, 0, gap, LevelMap(SortedLevels(LevelSet(Scan(text, 0, gap)))))
  {
    var headings := Scan(text, 0, gap);
    var depths := LevelSet(headings);
    ScanLevels(text, gap);
    SortedLevelsSpec(depths);
    assert headings[0].level in SortedLevels(depths);
    assert SortedLevels(depths)[0] in depths;
  }

  /**
   * There every heading is re-rendered through that map: the shallowest depth
   * present becomes 2, deeper depths never map shallower, no depth exceeds 6,
   * and every heading moves up.
   */
  lemma NormalizeLevels(text: string, gap: char -> bool)
    requires forall h :: h in Scan(text, 0, gap) ==> h.level != 2
    ensures var headings := Scan(text, 0, gap);
      var levelMap := LevelMap(SortedLevels(LevelSet(headings)));
      && (forall h :: h in headings ==> h.level in levelMap && 2 <= levelMap[h.level] <= 6 && levelMap[h.level] < h.level)
      && (forall h, h' :: h in headings && h' in headings && h.level <= h'.level ==>
            levelMap[h.level] <= levelMap[h'.level])
      && (forall h :: h in headings && (forall h' :: h' in headings ==> h.level <= h'.level) ==> levelMap[h.level] == 2)
  {
    var headings := Scan(text, 0, gap);
    var depths := LevelSet(headings);
    ScanLevels(text, gap);
    assert forall h :: h in headings ==> h.level in depths;
    LevelMapBounds(depths);
    LevelMapMonotone(depths);
    forall h | h in headings && (forall h' :: h' in headings ==> h.level <= h'.level)
      ensures LevelMap(SortedLevels(depths))[h.level] == 2
    {
      LevelMapShallowest(depths, h.level);
    }
  }

  // ----- A bare `###` line -----

  /** With `\s+` a bare `###` line and the line after it form one heading ... */
  lemma BareHashesMatchNextLine()
    ensures MatchAt("###\nfoo", 0, IsSpace) == Some(Heading(0, 7, 3, "foo"))
    ensures Scan("###\nfoo", 0, IsSpace) == [Heading(0, 7, 3, "foo")]
  {
    var text := "###\nfoo";
    assert HashRun(text, 3) == 0;
    assert HashRun(text, 0) == 3;
    assert GapRun(text, 4, IsSpace) == 0;
    assert GapRun(text, 3, IsSpace) == 1;
    assert GapTaken(text, 3, 1) == Some(1);
    assert LineEnd(text, 7) == 7;
    assert LineEnd(text, 4) == 7;
    var m := Heading(0, 7, 3, "foo");
    assert text[4..7] == "foo";
    assert MatchAt(text, 0, IsSpace) == Some(m);
    assert Scan(text, 7, IsSpace) == [];
    assert Scan(text, 0, IsSpace) == [m];
  }

  /** ... which is rewritten as an H2 heading: the paragraph line becomes a heading. */
  lemma BareHashesTakeNextLine()
    ensures Normalize("###\nfoo", IsSpace) == "## foo"
  {
    var text := "###\nfoo";
    var m := Heading(0, 7, 3, "foo");
    BareHashesMatchNextLine();
    assert Scan(text, 7, IsSpace) == [];
    assert LevelSet([m]) == {3};
    assert SortedLevels({3}) == [3];
    assert LevelMap([3]) == map[3 := 2];
    assert Render(m, map[3 := 2]) == "## foo";
    assert Rewrite(text, 7, IsSpace, map[3 := 2]) == "";
    assert Rewrite(text, 0, IsSpace, map[3 := 2]) == "## foo";
  }

  /** With `[ \t]+` a heading never reaches past the end of its own line. */
  lemma HeadingsStayOnTheirLine(text: string, gap: char -> bool)
    requires !gap('\n')
    ensures forall h :: h in Scan(text, 0, gap) ==>
      h.start < h.end <= |text| && forall i :: h.start <= i < h.end ==> text[i] != '\n'
  {
    ScanMatches(text, 0, gap);
    forall h | h in Scan(text, 0, gap)
      ensures h.start < h.end <= |text| && forall i :: h.start <= i < h.end ==> text[i] != '\n'
    {
      MatchOnOneLine(text, h.start, gap);
    }
  }

  /** One match, when the gap class excludes line breaks, lies within one line. */
  lemma MatchOnOneLine(text: string, pos: nat, gap: char -> bool)
    requires !gap('\n')
    requires pos <= |text| && MatchAt(text, pos, gap).Some?
    ensures var m := MatchAt(text, pos, gap).value;
      m.start < m.end <= |text| && forall i :: m.start <= i < m.end ==> text[i] != '\n'
  {
    var m := MatchAt(text, pos, gap).value;
    MatchShape(text, pos, gap);
    var c := m.end - |m.content|;
    forall i | c <= i < m.end ensures text[i] != '\n' {
      assert text[i] == m.content[i - c];
    }
  }

  /** ... so the bare `###` line is left for the orphan clean-up that follows. */
  lemma BareHashesKeptWithBlanks()
    ensures Scan("###\nfoo", 0, IsBlank) == []
    ensures Normalize("###\nfoo", IsBlank) == "###\nfoo"
  {
    var text := "###\nfoo";
    assert HashRun(text, 3) == 0;
    assert HashRun(text, 0) == 3;
    assert GapRun(text, 3, IsBlank) == 0;
    assert MatchAt(text, 0, IsBlank) == None;
    assert Scan(text, 7, IsBlank) == [];
    assert Scan(text, 0, IsBlank) == [];
  }
}
