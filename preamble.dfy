/**
 * Phase 1, remove_preamble (openevidence_converter.py:20-87): keep the `---`
 * metadata block, drop the interface boilerplate between it and the first
 * content line, and drop one redundant `### ` title line.
 *
 * The document is a list of lines (`text.split('\n')`). The specification is the
 * function RemovePreambleLines; the method RemovePreamble runs the source's index
 * loops and is proved to compute it.
 */
module Preamble {
  import opened Text
  import opened Wrappers

  /** `line.strip() == '---'`. */
  predicate IsSeparator(line: string) {
    Strip(line) == "---"
  }

  /** `'Finished researching' in line`. */
  predicate HasResearchMarker(line: string) {
    Contains(line, "Finished researching")
  }

  /** `line.strip()` is non-empty. */
  predicate IsNonBlank(line: string) {
    Strip(line) != ""
  }

  /** `line.strip().startswith('####')`. */
  predicate IsH4Line(line: string) {
    StartsWith(Strip(line), "####")
  }

  /** `line.strip().startswith('### ')`. */
  predicate IsH3Line(line: string) {
    StartsWith(Strip(line), "### ")
  }

  /** The regular expression `\\\[\d+` finds a match in the line: a backslash, `[`, a digit. */
  predicate HasCitationStart(line: string)
    decreases |line|
  {
    |line| >= 3 &&
    ((line[0] == '\\' && line[1] == '[' && IsDigit(line[2])) || HasCitationStart(line[1..]))
  }

  /** The indices of the first two `---` lines, when there are two. */
  datatype Block = Block(start: nat, end: nat)

  function Frontmatter(lines: seq<string>): (r: Option<Block>)
    ensures r.Some? ==> r.value.start < r.value.end < |lines|
    ensures r.Some? ==> IsSeparator(lines[r.value.start]) && IsSeparator(lines[r.value.end])
  {
    match FirstFrom(lines, 0, IsSeparator)
    case None => None
    case Some(s) =>
      match FirstFrom(lines, s + 1, IsSeparator)
      case None => None
      case Some(e) => Some(Block(s, e))
  }

  /** `search_start`: the line after the metadata block, or 0. */
  function SearchStart(lines: seq<string>): (r: nat)
    ensures r <= |lines|
  {
    match Frontmatter(lines)
    case None => 0
    case Some(b) => b.end + 1
  }

  /** `yaml_section`: the metadata block, both `---` lines included, or nothing. */
  function HeaderLines(lines: seq<string>): (r: seq<string>)
    ensures Frontmatter(lines).None? ==> r == []
    ensures Frontmatter(lines).Some? ==> |r| >= 2 && IsSeparator(r[0]) && IsSeparator(r[|r| - 1])
  {
    match Frontmatter(lines)
    case None => []
    case Some(b) => lines[b.start..b.end + 1]
  }

  /** The primary rule: the next non-blank line after the first marker line. */
  function MarkerContent(lines: seq<string>, from: nat): Option<nat>
  {
    match FirstFrom(lines, from, HasResearchMarker)
    case None => None
    case Some(i) => FirstFrom(lines, i + 1, IsNonBlank)
  }

  /**
   * `content_start`: the marker rule, else the first `####` line, else the first
   * line with an escaped citation, else `from` itself.
   */
  function ContentStart(lines: seq<string>, from: nat): (r: nat)
    requires from <= |lines|
    ensures from <= r <= |lines|
    ensures r == from || (r < |lines| && (IsNonBlank(lines[r]) || IsH4Line(lines[r]) || HasCitationStart(lines[r])))
  {
    match MarkerContent(lines, from)
    case Some(j) => j
    case None =>
      match FirstFrom(lines, from, IsH4Line)
      case Some(h) => h
      case None =>
        match FirstFrom(lines, from, HasCitationStart)
        case Some(c) => c
        case None => from
  }

  /** The first kept content line: `content_start`, plus one when that line is a `### ` title. */
  function KeptFrom(lines: seq<string>): (r: nat)
    ensures SearchStart(lines) <= r <= |lines|
    ensures var cs := ContentStart(lines, SearchStart(lines));
      r == cs || (r == cs + 1 && IsH3Line(lines[cs]))
  {
    var cs := ContentStart(lines, SearchStart(lines));
    if cs < |lines| && IsH3Line(lines[cs]) then cs + 1 else cs
  }

  /** `yaml_section + lines[content_start:]`. */
  function RemovePreambleLines(lines: seq<string>): seq<string>
  {
    HeaderLines(lines) + lines[KeptFrom(lines)..]
  }

  /** The `for i, line in enumerate(lines)` scan for the first two `---` lines. */
  method FindFrontmatter(lines: seq<string>) returns (block: Option<Block>)
    ensures block == Frontmatter(lines)
  {
    var yamlStart, yamlEnd := -1, -1;
    var i := 0;
    while i < |lines|
      invariant 0 <= i <= |lines|
      invariant yamlEnd == -1
      invariant yamlStart == -1 ==> forall k :: 0 <= k < i ==> !IsSeparator(lines[k])
      invariant yamlStart != -1 ==> 0 <= yamlStart < i && IsSeparator(lines[yamlStart])
      invariant yamlStart != -1 ==> forall k :: 0 <= k < i && k != yamlStart ==> !IsSeparator(lines[k])
    {
      if IsSeparator(lines[i]) {
        if yamlStart == -1 {
          yamlStart := i;
        } else {
          yamlEnd := i;
          break;
        }
      }
      i := i + 1;
    }
    if yamlEnd == -1 {
      if yamlStart == -1 {
        FirstFromNone(lines, 0, IsSeparator);
      } else {
        FirstFromIs(lines, 0, IsSeparator, yamlStart);
        FirstFromNone(lines, yamlStart + 1, IsSeparator);
      }
      block := None;
    } else {
      FirstFromIs(lines, 0, IsSeparator, yamlStart);
      FirstFromIs(lines, yamlStart + 1, IsSeparator, yamlEnd);
      block := Some(Block(yamlStart, yamlEnd));
    }
  }

  /** One `for i in range(from, len(lines))` scan that stops at the first line satisfying `p`. */
  method FindFirst(lines: seq<string>, from: nat, p: string -> bool) returns (found: Option<nat>)
    ensures found == FirstFrom(lines, from, p)
  {
    found := None;
    var i := from;
    while i < |lines|
      invariant from <= i
      invariant forall k :: from <= k < i && k < |lines| ==> !p(lines[k])
    {
      if p(lines[i]) {
        FirstFromIs(lines, from, p, i);
        found := Some(i);
        return;
      }
      i := i + 1;
    }
    FirstFromNone(lines, from, p);
  }

  /** The content-start scans, in the source's priority order. */
  method FindContentStart(lines: seq<string>, searchStart: nat) returns (start: nat)
    requires searchStart <= |lines|
    ensures start == ContentStart(lines, searchStart)
  {
    // Primary rule: the first non-blank line after the "Finished researching" line.
    var contentStart: Option<nat> := None;
    var marker := FindFirst(lines, searchStart, HasResearchMarker);
    if marker.Some? {
      contentStart := FindFirst(lines, marker.value + 1, IsNonBlank);
    }
    assert contentStart == MarkerContent(lines, searchStart);
    // Fallback 1: the first `####` line.
    if contentStart == None {
      contentStart := FindFirst(lines, searchStart, IsH4Line);
    }
    // Fallback 2: the first line with an escaped citation.
    if contentStart == None {
      contentStart := FindFirst(lines, searchStart, HasCitationStart);
    }
    start := if contentStart == None then searchStart else contentStart.value;
  }

  /**
   * The source's steps, in its order. The output is the metadata block followed by
   * a suffix of the lines; lemma PreambleShape says which suffix.
   */
  method RemovePreamble(text: string) returns (result: string)
    ensures result == Join(RemovePreambleLines(Split(text, '\n')), "\n")
  {
    var lines := Split(text, '\n');

    var block := FindFrontmatter(lines);
    var yamlSection: seq<string>;
    var searchStart: nat;
    if block == None {
      yamlSection, searchStart := [], 0;
    } else {
      yamlSection, searchStart := lines[block.value.start..block.value.end + 1], block.value.end + 1;
    }
    assert yamlSection == HeaderLines(lines) && searchStart == SearchStart(lines);

    var start := FindContentStart(lines, searchStart);
    // A leading `### ` line duplicates the title.
    if start < |lines| && IsH3Line(lines[start]) {
      start := start + 1;
    }
    assert start == KeptFrom(lines);
    result := Join(yamlSection + lines[start..], "\n");
  }

  /**
   * The output is the metadata block (present only when two `---` lines exist)
   * followed by `lines[k..]`, where k is at least the search start and at most one
   * past the content start, the extra line being a `### ` line.
   */
  lemma PreambleShape(lines: seq<string>)
    ensures var k := KeptFrom(lines);
      var cs := ContentStart(lines, SearchStart(lines));
      && RemovePreambleLines(lines) == HeaderLines(lines) + lines[k..]
      && SearchStart(lines) <= cs <= k <= |lines|
      && (k == cs || (k == cs + 1 && IsH3Line(lines[cs])))
  {
  }

  /** Priority 1: the first non-blank line after the first marker line wins. */
  lemma MarkerRuleWins(lines: seq<string>, from: nat, i: nat, j: nat)
    requires from <= i < j < |lines|
    requires HasResearchMarker(lines[i]) && forall k :: from <= k < i ==> !HasResearchMarker(lines[k])
    requires IsNonBlank(lines[j]) && forall k :: i < k < j ==> !IsNonBlank(lines[k])
    ensures ContentStart(lines, from) == j
  {
    FirstFromIs(lines, from, HasResearchMarker, i);
    FirstFromIs(lines, i + 1, IsNonBlank, j);
  }

  /**
   * Priority 2: when no marker line is followed by a non-blank line (in
   * particular when there is no marker line), the first `####` line wins.
   */
  lemma H4RuleWins(lines: seq<string>, from: nat, h: nat)
    requires from <= h < |lines|
    requires forall i, j :: from <= i < j < |lines| && HasResearchMarker(lines[i]) ==> !IsNonBlank(lines[j])
    requires IsH4Line(lines[h]) && forall k :: from <= k < h ==> !IsH4Line(lines[k])
    ensures ContentStart(lines, from) == h
  {
    NoMarkerContent(lines, from);
    FirstFromIs(lines, from, IsH4Line, h);
  }

  /** Priority 3: with no marker content and no `####` line, the first escaped citation wins. */
  lemma CitationRuleWins(lines: seq<string>, from: nat, c: nat)
    requires from <= c < |lines|
    requires forall i, j :: from <= i < j < |lines| && HasResearchMarker(lines[i]) ==> !IsNonBlank(lines[j])
    requires forall k :: from <= k < |lines| ==> !IsH4Line(lines[k])
    requires HasCitationStart(lines[c]) && forall k :: from <= k < c ==> !HasCitationStart(lines[k])
    ensures ContentStart(lines, from) == c
  {
    NoMarkerContent(lines, from);
    FirstFromNone(lines, from, IsH4Line);
    FirstFromIs(lines, from, HasCitationStart, c);
  }

  /** Priority 4: nothing found, nothing removed after the search start. */
  lemma SearchStartFallback(lines: seq<string>, from: nat)
    requires from <= |lines|
    requires forall i, j :: from <= i < j < |lines| && HasResearchMarker(lines[i]) ==> !IsNonBlank(lines[j])
    requires forall k :: from <= k < |lines| ==> !IsH4Line(lines[k]) && !HasCitationStart(lines[k])
    ensures ContentStart(lines, from) == from
  {
    NoMarkerContent(lines, from);
    FirstFromNone(lines, from, IsH4Line);
    FirstFromNone(lines, from, HasCitationStart);
  }

  lemma NoMarkerContent(lines: seq<string>, from: nat)
    requires forall i, j :: from <= i < j < |lines| && HasResearchMarker(lines[i]) ==> !IsNonBlank(lines[j])
    ensures MarkerContent(lines, from) == None
  {
    match FirstFrom(lines, from, HasResearchMarker)
    case None =>
    case Some(i) =>
      FirstFromNone(lines, i + 1, IsNonBlank);
  }

  /**
   * Already-stripped content is left alone: when the metadata block (if any) opens
   * the document, no marker follows it and the content starts right after it with
   * a `####` heading, the lines come back unchanged.
   */
  lemma StrippedLinesUnchanged(lines: seq<string>)
    requires Frontmatter(lines).None? || Frontmatter(lines).value.start == 0
    requires SearchStart(lines) < |lines| && IsH4Line(lines[SearchStart(lines)])
    requires forall k :: SearchStart(lines) <= k < |lines| ==> !HasResearchMarker(lines[k])
    ensures RemovePreambleLines(lines) == lines
  {
    var ss := SearchStart(lines);
    FirstFromNone(lines, ss, HasResearchMarker);
    FirstFromIs(lines, ss, IsH4Line, ss);
    assert ContentStart(lines, ss) == ss;
    assert !IsH3Line(lines[ss]) by {
      var t := Strip(lines[ss]);
      assert t[..4] == "####";
      assert t[3] == '#';
    }
    assert KeptFrom(lines) == ss;
    match Frontmatter(lines)
    case None =>
    case Some(b) => assert lines[..b.end + 1] + lines[b.end + 1..] == lines;
  }

  /** The same, on the text: stripping an already-stripped document gives it back. */
  lemma StrippedDocumentUnchanged(text: string)
    requires var lines := Split(text, '\n');
      && (Frontmatter(lines).None? || Frontmatter(lines).value.start == 0)
      && SearchStart(lines) < |lines| && IsH4Line(lines[SearchStart(lines)])
      && forall k :: SearchStart(lines) <= k < |lines| ==> !HasResearchMarker(lines[k])
    ensures Join(RemovePreambleLines(Split(text, '\n')), "\n") == text
  {
    StrippedLinesUnchanged(Split(text, '\n'));
    JoinSplit(text, '\n');
  }
}
