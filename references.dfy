/**
 * Phase 4, format_reference_section (openevidence_converter.py:293-453): find the
 * reference list (a line `1.`, optionally preceded by an empty `###` heading), cut
 * it into entries at every `1.` line, turn each entry that has a `[title](url`
 * link into a footnote numbered 1, 2, ... in order, and append the footnotes
 * under `# References`.
 *
 * The `1.` lines are found on the list of lines (`text.split('\n')`). How the
 * journal, year and authors are read from an entry is a parameter (`journalOf`):
 * the source's heuristics for that are regular-expression guesses.
 */
module References {
  import opened Text
  import opened Wrappers
  import opened Urls
  import opened Citations

  /** A line the pattern `^1\.\s*$` matches: `1.` followed only by whitespace. */
  predicate IsMarkerLine(line: string) {
    StartsWith(line, "1.") && AllSpace(line[2..])
  }

  /** What the journal-line heuristics extract from an entry (given the entry and its title). */
  datatype JournalFields = JournalFields(journal: string, year: string, authors: string)

  /**
   * One parsed reference entry. `url` is the stripped URL span; the footnote
   * shows it through CleanUrl, as `url = clean_url(raw_url)` does.
   */
  datatype Reference = Reference(title: string, url: string, journal: string, year: string, authors: string)

  /** The text before the first `1.` line: its lines up to there, each ended by `\n`. */
  function Pre(lines: seq<string>, m: nat): string
    requires m <= |lines|
  {
    Join(lines[..m] + [""], "\n")
  }

  /**
   * `match.start()`: the start of a `###` that only whitespace separates from the
   * `1.` line, or else the start of the `1.` line itself.
   */
  function RefStart(pre: string): (r: nat)
    ensures r <= |pre|
  {
    RStripSpec(pre);
    var t := RStrip(pre);
    if EndsWith(t, "###") then |t| - 3 else |pre|
  }

  /** The entries after one `1.` line: the lines up to the next `1.` line, and so on. */
  function EntriesAfter(rest: seq<string>): (r: seq<string>)
    ensures |r| >= 1
    decreases |rest|
  {
    match FirstFrom(rest, 0, IsMarkerLine)
    case None => [Join([""] + rest, "\n")]
    case Some(k) => [Join([""] + rest[..k] + [""], "\n")] + EntriesAfter(rest[k + 1..])
  }

  /**
   * `re.search(r'\[([^\]]+)\]\(', entry)` from position `from`: the first `[`
   * whose next `]` is at least two further on and directly followed by `(`.
   * Gives the positions of that `[` and `]`.
   */
  function FindLink(entry: string, from: nat): (r: Option<(nat, nat)>)
    ensures r.Some? ==> var (o, c) := r.value;
      && from <= o && o + 1 < c && c + 1 < |entry|
      && entry[o] == '[' && entry[c] == ']' && entry[c + 1] == '('
    decreases |entry| - from
  {
    if from >= |entry| then None
    else if entry[from] == '[' then
      match IndexOf(entry[from + 1..], ']')
      case Some(k) =>
        if k >= 1 && from + k + 2 < |entry| && entry[from + k + 2] == '(' then Some((from, from + k + 1))
        else FindLink(entry, from + 1)
      case None => FindLink(entry, from + 1)
    else FindLink(entry, from + 1)
  }

  /** What one character adds to the parenthesis count. */
  function Delta(c: char): int {
    if c == '(' then 1 else if c == ')' then -1 else 0
  }

  /** Opening minus closing parentheses in `s`. */
  function Net(s: string): int {
    if |s| == 0 then 0 else Net(s[..|s| - 1]) + Delta(s[|s| - 1])
  }

  lemma NetSnoc(s: string, c: char)
    ensures Net(s + [c]) == Net(s) + Delta(c)
  {
    assert (s + [c])[..|s|] == s;
  }

  /** The scan stops at `i`: a `)` or line break while no parenthesis opened since `start` is still open. */
  predicate StopsAt(entry: string, start: nat, i: nat)
    requires start <= i < |entry|
  {
    (entry[i] == ')' || entry[i] == '\n' || entry[i] == '\r') && Net(entry[start..i]) == 0
  }

  function UrlEndFrom(entry: string, start: nat, i: nat): (r: nat)
    requires start <= i <= |entry|
    ensures start <= r <= |entry|
    decreases |entry| - i
  {
    if i == |entry| then start
    else if StopsAt(entry, start, i) then i
    else UrlEndFrom(entry, start, i + 1)
  }

  /** Where the URL that starts at `start` ends: the first stop, or `start` when there is none. */
  function UrlEnd(entry: string, start: nat): (r: nat)
    requires start <= |entry|
    ensures start <= r <= |entry|
  {
    UrlEndFrom(entry, start, start)
  }

  /** The balanced-parenthesis scan of the source, proved to find UrlEnd. */
  method ScanUrlEnd(entry: string, urlStart: nat) returns (urlEnd: nat)
    requires urlStart <= |entry|
    ensures urlEnd == UrlEnd(entry, urlStart)
  {
    var parenCount := 1;
    urlEnd := urlStart;
    var i := urlStart;
    while i < |entry|
      invariant urlStart <= i <= |entry|
      invariant parenCount == 1 + Net(entry[urlStart..i])
      invariant UrlEndFrom(entry, urlStart, i) == UrlEnd(entry, urlStart)
      decreases |entry| - i
    {
      var c := entry[i];
      assert entry[urlStart..i + 1] == entry[urlStart..i] + [c];
      NetSnoc(entry[urlStart..i], c);
      if c == '(' {
        parenCount := parenCount + 1;
      } else if c == ')' {
        parenCount := parenCount - 1;
        if parenCount == 0 {
          urlEnd := i;
          return;
        }
      } else if (c == '\n' || c == '\r') && parenCount == 1 {
        urlEnd := i;
        return;
      }
      i := i + 1;
    }
  }

  /**
   * One entry: skipped (None) when blank, without a `[title](` link, or with an
   * empty URL span; otherwise its title (stripped), its URL (stripped and
   * cleaned) and the journal fields.
   */
  function ParseEntry(entry: string, journalOf: (string, string) -> JournalFields): Option<Reference> {
    if Strip(entry) == "" then None
    else match FindLink(entry, 0)
      case None => None
      case Some((open, close)) => ParseLinked(entry, open, close, journalOf)
  }

  /** The rest of an entry once its link `[` is at `open` and `]` at `close`. */
  function ParseLinked(entry: string, open: nat, close: nat, journalOf: (string, string) -> JournalFields): Option<Reference>
    requires open < close && close + 2 <= |entry|
  {
    var urlStart := close + 2;
    var urlEnd := UrlEnd(entry, urlStart);
    if urlEnd <= urlStart then None
    else Some(MakeReference(entry, Strip(entry[open + 1..close]), entry[urlStart..urlEnd], journalOf))
  }

  /** The reference built from an entry, its stripped title and its raw URL span. */
  function MakeReference(entry: string, title: string, rawUrl: string, journalOf: (string, string) -> JournalFields): Reference {
    var f := journalOf(entry, title);
    Reference(title, Strip(rawUrl), f.journal, f.year, f.authors)
  }

  /** ParseEntry with the journal heuristics fixed, as the loop applies it to every entry. */
  function EntryParser(journalOf: (string, string) -> JournalFields): string -> Option<Reference> {
    entry => ParseEntry(entry, journalOf)
  }

  /** The reference an entry contributes: one when it parses, none when it is skipped. */
  function ParsedOne(entry: string, parse: string -> Option<Reference>): seq<Reference> {
    match parse(entry)
    case Some(r) => [r]
    case None => []
  }

  /** The entries that parse, in order. */
  function Parsed(entries: seq<string>, parse: string -> Option<Reference>): seq<Reference> {
    if |entries| == 0 then [] else ParsedOne(entries[0], parse) + Parsed(entries[1..], parse)
  }

  const PubmedPrefix := "pubmed.ncbi.nlm.nih.gov/"

  /** The leading run of digits of `s`. */
  function DigitRun(s: string): (r: string)
    ensures |r| <= |s| && r == s[..|r|]
    ensures forall i :: 0 <= i < |r| ==> IsDigit(r[i])
    ensures |r| == |s| || !IsDigit(s[|r|])
  {
    if |s| > 0 && IsDigit(s[0]) then [s[0]] + DigitRun(s[1..]) else ""
  }

  /** The PubMed prefix followed by a digit starts at `p`. */
  predicate PmidAt(url: string, p: nat) {
    p + |PubmedPrefix| < |url| && url[p..p + |PubmedPrefix|] == PubmedPrefix && IsDigit(url[p + |PubmedPrefix|])
  }

  /** `re.search(r'pubmed\.ncbi\.nlm\.nih\.gov/(\d+)', url)` from position `from`: the digits. */
  function FindPmid(url: string, from: nat): Option<string>
    decreases |url| - from
  {
    if from + |PubmedPrefix| >= |url| then None
    else if PmidAt(url, from) then Some(DigitRun(url[from + |PubmedPrefix|..]))
    else FindPmid(url, from + 1)
  }

  /** `[PMID <digits>](url)` for a PubMed URL, `[Link](url)` otherwise. */
  function Link(url: string): string {
    match FindPmid(url, 0)
    case Some(pmid) => "[PMID " + pmid + "](" + url + ")"
    case None => "[Link](" + url + ")"
  }

  /** `[^N]: ` followed by the footnote text. */
  function Footnote(n: nat, r: Reference): string {
    Marker(n) + ": " + FootnoteText(r)
  }

  /** `Authors. Title. Journal. Year. [PMID/Link](URL)`, the authors clause only when there are authors. */
  function FootnoteText(r: Reference): string {
    var authors := RStripChar(r.authors, '.');
    var title := RStripChar(r.title, '.');
    var journal := RStripChar(r.journal, '.');
    (if authors != "" then authors + ". " else "") + title + ". " + journal + ". " + r.year + ". " + Link(CleanUrl(r.url))
  }

  /** The footnotes, numbered 1, 2, ... in the order of the parsed entries. */
  function Footnotes(refs: seq<Reference>): (r: seq<string>)
    ensures |r| == |refs|
  {
    if |refs| == 0 then [] else Footnotes(refs[..|refs| - 1]) + [Footnote(|refs|, refs[|refs| - 1])]
  }

  /** The text with a formatted references section, as a function of the lines. */
  function FormatSpec(text: string, journalOf: (string, string) -> JournalFields): string {
    var lines := Split(text, '\n');
    match FirstFrom(lines, 0, IsMarkerLine)
    case None => text
    case Some(m) =>
      var pre := Pre(lines, m);
      var refStart := RefStart(pre);
      var body := RStrip(pre[..refStart]);
      Assemble(body, Parsed(Entries(lines, m), EntryParser(journalOf)))
  }

  /** The pieces `re.split` cuts the reference text into, the one before the first `1.` line included. */
  function Entries(lines: seq<string>, m: nat): seq<string>
    requires m < |lines|
  {
    var pre := Pre(lines, m);
    [pre[RefStart(pre)..]] + EntriesAfter(lines[m + 1..])
  }

  /** The `1.` lines that end the entries after one `1.` line, in order. */
  function MarkerLines(rest: seq<string>): (r: seq<string>)
    ensures |r| + 1 == |EntriesAfter(rest)|
    ensures forall i :: 0 <= i < |r| ==> IsMarkerLine(r[i])
    decreases |rest|
  {
    match FirstFrom(rest, 0, IsMarkerLine)
    case None => []
    case Some(k) => [rest[k]] + MarkerLines(rest[k + 1..])
  }

  /** The pieces of a split put back together, each separator between its two pieces. */
  function Interleave(pieces: seq<string>, seps: seq<string>): string
    requires |pieces| == |seps| + 1
    decreases |seps|
  {
    if |seps| == 0 then pieces[0] else pieces[0] + seps[0] + Interleave(pieces[1..], seps[1..])
  }

  /** The body, then the footnotes under `# References` when there are any. */
  function Assemble(body: string, refs: seq<Reference>): string {
    if refs == [] then body else body + "\n\n# References\n" + Join(Footnotes(refs), "\n\n") + "\n"
  }

  /** One loop iteration of the source: parse the entry, scanning its URL with ScanUrlEnd. */
  method ParseReference(entry: string, journalOf: (string, string) -> JournalFields) returns (ref: Option<Reference>)
    ensures ref == ParseEntry(entry, journalOf)
  {
    if Strip(entry) == "" {
      return None;
    }
    var link := FindLink(entry, 0);
    if link.None? {
      return None;
    }
    var (open, close) := link.value;
    var urlStart := close + 2;
    var urlEnd := ScanUrlEnd(entry, urlStart);
    if urlEnd <= urlStart {
      return None;
    }
    ref := Some(MakeReference(entry, Strip(entry[open + 1..close]), entry[urlStart..urlEnd], journalOf));
  }

  /** format_reference_section: the entry loop with its `ref_number` counter. */
  method FormatReferenceSection(text: string, journalOf: (string, string) -> JournalFields) returns (result: string)
    ensures result == FormatSpec(text, journalOf)
  {
    var lines := Split(text, '\n');
    var first := FirstFrom(lines, 0, IsMarkerLine);
    if first.None? {
      return text;
    }
    var m := first.value;
    var pre := Pre(lines, m);
    var refStart := RefStart(pre);
    var body := RStrip(pre[..refStart]);
    var entries := Entries(lines, m);
    var formattedRefs := FormatEntries(entries, journalOf);
    if formattedRefs != [] {
      result := body + "\n\n# References\n" + Join(formattedRefs, "\n\n") + "\n";
    } else {
      result := body;
    }
  }

  /** The loop over the entries: a footnote for each entry that parses, numbered by `ref_number`. */
  method FormatEntries(entries: seq<string>, journalOf: (string, string) -> JournalFields)
    returns (formattedRefs: seq<string>)
    ensures formattedRefs == Footnotes(Parsed(entries, EntryParser(journalOf)))
  {
    formattedRefs := [];
    var refNumber := 0;
    for i := 0 to |entries|
      invariant refNumber == |Parsed(entries[..i], EntryParser(journalOf))|
      invariant formattedRefs == Footnotes(Parsed(entries[..i], EntryParser(journalOf)))
    {
      ghost var before := Parsed(entries[..i], EntryParser(journalOf));
      ParsedPrefix(entries, i, EntryParser(journalOf));
      var ref := ParseReference(entries[i], journalOf);
      if ref.Some? {
        refNumber := refNumber + 1;
        FootnotesAppend(before, ref.value);
        formattedRefs := formattedRefs + [Footnote(refNumber, ref.value)];
      }
    }
    assert entries[..|entries|] == entries;
  }

  // ----- Properties -----

  /** One more entry adds its reference when it parses and nothing otherwise. */
  lemma ParsedPrefix(entries: seq<string>, i: nat, parse: string -> Option<Reference>)
    requires i < |entries|
    ensures parse(entries[i]).Some? ==>
      Parsed(entries[..i + 1], parse) == Parsed(entries[..i], parse) + [parse(entries[i]).value]
    ensures parse(entries[i]).None? ==> Parsed(entries[..i + 1], parse) == Parsed(entries[..i], parse)
  {
    ParsedConcat(entries[..i], [entries[i]], parse);
    assert entries[..i + 1] == entries[..i] + [entries[i]];
    ParsedSingle(entries[i], parse);
  }

  /** Parsing distributes over concatenation of entry lists. */
  lemma {:induction false} ParsedConcat(a: seq<string>, b: seq<string>, parse: string -> Option<Reference>)
    ensures Parsed(a + b, parse) == Parsed(a, parse) + Parsed(b, parse)
  {
    if |a| > 0 {
      assert (a + b)[0] == a[0] && (a + b)[1..] == a[1..] + b;
      ParsedConcat(a[1..], b, parse);
      assert Parsed(a + b, parse) == ParsedOne(a[0], parse) + Parsed(a[1..] + b, parse);
    } else {
      assert a + b == b;
    }
  }

  lemma FootnotesAppend(refs: seq<Reference>, r: Reference)
    ensures Footnotes(refs + [r]) == Footnotes(refs) + [Footnote(|refs| + 1, r)]
  {
    assert (refs + [r])[..|refs|] == refs;
  }

  /** The k-th footnote (from 0) is the footnote of the k-th reference under number k + 1. */
  lemma {:induction false} FootnotesAt(refs: seq<Reference>)
    ensures forall k :: 0 <= k < |refs| ==> Footnotes(refs)[k] == Footnote(k + 1, refs[k])
  {
    if |refs| > 0 {
      var init := refs[..|refs| - 1];
      FootnotesAt(init);
      assert Footnotes(refs) == Footnotes(init) + [Footnote(|refs|, refs[|refs| - 1])];
      forall k | 0 <= k < |refs| ensures Footnotes(refs)[k] == Footnote(k + 1, refs[k]) {
        if k < |init| {
          assert refs[k] == init[k];
        } else {
          assert k + 1 == |refs|;
        }
      }
    }
  }

  /** An entry that does not parse is dropped and takes no footnote number. */
  lemma SkippedEntry(a: seq<string>, bad: string, b: seq<string>, journalOf: (string, string) -> JournalFields)
    requires ParseEntry(bad, journalOf) == None
    ensures Parsed(a + [bad] + b, EntryParser(journalOf)) == Parsed(a, EntryParser(journalOf)) + Parsed(b, EntryParser(journalOf))
  {
    var parse := EntryParser(journalOf);
    assert parse(bad) == None;
    ParsedConcat(a + [bad], b, parse);
    ParsedConcat(a, [bad], parse);
    ParsedSingle(bad, parse);
  }

  lemma ParsedSingle(entry: string, parse: string -> Option<Reference>)
    ensures Parsed([entry], parse) == ParsedOne(entry, parse)
  {
    assert [entry][1..] == [];
  }

  /** The footnote for reference number `n` opens with the inline marker `[^n]` and reads back as `n`. */
  lemma FootnoteLabel(n: nat, r: Reference)
    ensures StartsWith(Footnote(n, r), Marker(n) + ": ")
    ensures ParseMarker(Footnote(n, r)[..|Marker(n)|]) == Some(n)
  {
    MarkerRoundTrip(n);
    assert Footnote(n, r)[..|Marker(n)|] == Marker(n);
  }

  /** Without a `1.` line the text is returned unchanged. */
  lemma NoReferenceList(text: string, journalOf: (string, string) -> JournalFields)
    requires forall i :: 0 <= i < |Split(text, '\n')| ==> !IsMarkerLine(Split(text, '\n')[i])
    ensures FormatSpec(text, journalOf) == text
  {
    FirstFromNone(Split(text, '\n'), 0, IsMarkerLine);
  }

  /** The text before line `m`, ended by a newline, is a prefix of the text. */
  lemma PreIsPrefix(text: string, m: nat)
    requires m < |Split(text, '\n')|
    ensures |Pre(Split(text, '\n'), m)| <= |text|
    ensures text[..|Pre(Split(text, '\n'), m)|] == Pre(Split(text, '\n'), m)
  {
    var lines := Split(text, '\n');
    JoinSplit(text, '\n');
    JoinSplitAt(lines, m, "\n");
  }

  /** Joining lines after a first line: that line, then the join of the rest as if after an empty line. */
  lemma JoinCons(x: string, rest: seq<string>)
    ensures Join([x] + rest, "\n") == x + Join([""] + rest, "\n")
  {
    if |rest| > 0 {
      assert ([x] + rest)[1..] == rest;
      assert ([""] + rest)[1..] == rest;
    }
  }

  /** Putting the entries after a `1.` line back between their `1.` lines gives back the text after that line. */
  lemma {:induction false} EntriesAfterRejoin(rest: seq<string>)
    ensures Interleave(EntriesAfter(rest), MarkerLines(rest)) == Join([""] + rest, "\n")
    decreases |rest|
  {
    match FirstFrom(rest, 0, IsMarkerLine)
    case None =>
    case Some(k) =>
      EntriesAfterRejoin(rest[k + 1..]);
      JoinAtLine(rest, k);
      var es := EntriesAfter(rest);
      var ms := MarkerLines(rest);
      assert es == [Join([""] + rest[..k] + [""], "\n")] + EntriesAfter(rest[k + 1..]);
      assert ms == [rest[k]] + MarkerLines(rest[k + 1..]);
      assert es[1..] == EntriesAfter(rest[k + 1..]) && ms[1..] == MarkerLines(rest[k + 1..]);
  }

  /** The join of the lines after a `1.` line, cut at line k. */
  lemma JoinAtLine(rest: seq<string>, k: nat)
    requires k < |rest|
    ensures Join([""] + rest, "\n") == Join([""] + rest[..k] + [""], "\n") + rest[k] + Join([""] + rest[k + 1..], "\n")
  {
    var parts := [""] + rest;
    CutAtLine(rest, k);
    JoinSplitAt(parts, k + 1, "\n");
    JoinCons(rest[k], rest[k + 1..]);
  }

  /** The two halves of the lines after a `1.` line, cut at line k. */
  lemma CutAtLine(rest: seq<string>, k: nat)
    requires k < |rest|
    ensures ([""] + rest)[..k + 1] + [""] == [""] + rest[..k] + [""]
    ensures ([""] + rest)[k + 1..] == [rest[k]] + rest[k + 1..]
  {
  }

  /**
   * The split of the reference list covers it: the entries, put back between the `1.` lines
   * they were cut at, give the text from the match start to the end.
   */
  lemma EntriesCover(text: string, m: nat)
    requires m < |Split(text, '\n')|
    ensures var lines := Split(text, '\n');
      var pre := Pre(lines, m);
      && |pre| <= |text|
      && Interleave(Entries(lines, m), [lines[m]] + MarkerLines(lines[m + 1..])) == text[RefStart(pre)..]
  {
    JoinSplit(text, '\n');
    EntriesCoverLines(Split(text, '\n'), m);
  }

  /** EntriesCover, stated on the lines. */
  lemma EntriesCoverLines(lines: seq<string>, m: nat)
    requires m < |lines|
    ensures var pre := Pre(lines, m);
      && |pre| <= |Join(lines, "\n")|
      && Interleave(Entries(lines, m), [lines[m]] + MarkerLines(lines[m + 1..])) == Join(lines, "\n")[RefStart(pre)..]
  {
    var pre := Pre(lines, m);
    var after := Join([""] + lines[m + 1..], "\n");
    EntriesRejoin(lines, m);
    JoinAtMarker(lines, m);
    SliceOfConcat(pre, lines[m] + after, RefStart(pre));
  }

  /** The entries put back between their `1.` lines: the head, the first `1.` line, then the lines after it. */
  lemma EntriesRejoin(lines: seq<string>, m: nat)
    requires m < |lines|
    ensures var pre := Pre(lines, m);
      Interleave(Entries(lines, m), [lines[m]] + MarkerLines(lines[m + 1..]))
        == pre[RefStart(pre)..] + (lines[m] + Join([""] + lines[m + 1..], "\n"))
  {
    var pre := Pre(lines, m);
    var rest := lines[m + 1..];
    var head := pre[RefStart(pre)..];
    assert Entries(lines, m) == [head] + EntriesAfter(rest);
    InterleaveCons(head, lines[m], EntriesAfter(rest), MarkerLines(rest));
    EntriesAfterRejoin(rest);
  }

  /** The text is the part before the first `1.` line, that line, and the lines after it. */
  lemma JoinAtMarker(lines: seq<string>, m: nat)
    requires m < |lines|
    ensures Join(lines, "\n") == Pre(lines, m) + (lines[m] + Join([""] + lines[m + 1..], "\n"))
  {
    JoinSplitAt(lines, m, "\n");
    LinesFrom(lines, m);
    JoinCons(lines[m], lines[m + 1..]);
  }

  /** The lines from m on are line m followed by the lines after it. */
  lemma LinesFrom(lines: seq<string>, m: nat)
    requires m < |lines|
    ensures lines[m..] == [lines[m]] + lines[m + 1..]
  {
  }

  /** Interleaving after a first piece and separator. */
  lemma InterleaveCons(first: string, sep: string, pieces: seq<string>, seps: seq<string>)
    requires |pieces| == |seps| + 1
    ensures Interleave([first] + pieces, [sep] + seps) == first + (sep + Interleave(pieces, seps))
  {
    assert ([first] + pieces)[1..] == pieces;
    assert ([sep] + seps)[1..] == seps;
  }

  /** Dropping a prefix of the first part of a concatenation. */
  lemma SliceOfConcat(a: string, b: string, i: nat)
    requires i <= |a|
    ensures (a + b)[i..] == a[i..] + b
  {
  }

  /** A `###` at k that only whitespace separates from the end of the text. */
  predicate HeaderAt(pre: string, k: nat) {
    k + 3 <= |pre| && pre[k..k + 3] == "###" && AllSpace(pre[k + 3..])
  }

  /**
   * `match.start()` is either the `1.` line or a `###` followed only by whitespace,
   * and whenever such a `###` exists the match starts there.
   */
  lemma RefStartSpec(pre: string)
    ensures RefStart(pre) == |pre| || HeaderAt(pre, RefStart(pre))
    ensures forall k :: HeaderAt(pre, k) ==> RefStart(pre) == k
  {
    RStripSpec(pre);
    var t := RStrip(pre);
    if EndsWith(t, "###") {
      assert pre[|t| - 3..|t|] == t[|t| - 3..];
    }
    forall k | HeaderAt(pre, k)
      ensures RefStart(pre) == k
    {
      HeaderAtStrip(pre, k);
    }
  }

  /** A `###` followed only by whitespace is where the right-stripped text ends. */
  lemma HeaderAtStrip(pre: string, k: nat)
    requires HeaderAt(pre, k)
    ensures |RStrip(pre)| == k + 3 && EndsWith(RStrip(pre), "###")
  {
    RStripSpec(pre);
    var t := RStrip(pre);
    forall i | k + 3 <= i < |pre|
      ensures IsSpace(pre[i])
    {
      assert pre[i] == pre[k + 3..][i - (k + 3)];
    }
    assert pre[k + 2] == pre[k..k + 3][2] == '#';
    assert |t| == k + 3;
    assert t[|t| - 3..] == pre[k..k + 3];
  }

  /**
   * When no entry parses, the result is exactly the text before the match, right-stripped
   * (BodyIsPrefix: that text is a prefix of the input).
   */
  lemma NothingParsed(text: string, journalOf: (string, string) -> JournalFields, m: nat)
    requires FirstFrom(Split(text, '\n'), 0, IsMarkerLine) == Some(m)
    requires Parsed(Entries(Split(text, '\n'), m), EntryParser(journalOf)) == []
    ensures var pre := Pre(Split(text, '\n'), m);
      FormatSpec(text, journalOf) == RStrip(pre[..RefStart(pre)])
  {
    FormatSpecAt(text, journalOf, m);
  }

  /** The text up to `match.start()` is a prefix of the text. */
  lemma BodyIsPrefix(text: string, m: nat)
    requires m < |Split(text, '\n')|
    ensures var pre := Pre(Split(text, '\n'), m);
      RefStart(pre) <= |text| && text[..RefStart(pre)] == pre[..RefStart(pre)]
  {
    var pre := Pre(Split(text, '\n'), m);
    PreIsPrefix(text, m);
    PrefixSlice(text, pre, RefStart(pre));
  }

  /** Once the `1.` line is found, the result is the stripped body followed by whatever footnotes the entries give. */
  lemma FormatSpecAt(text: string, journalOf: (string, string) -> JournalFields, m: nat)
    requires FirstFrom(Split(text, '\n'), 0, IsMarkerLine) == Some(m)
    ensures var lines := Split(text, '\n');
      FormatSpec(text, journalOf) == Assemble(RStrip(Pre(lines, m)[..RefStart(Pre(lines, m))]), Parsed(Entries(lines, m), EntryParser(journalOf)))
  {
  }

  lemma PrefixSlice(text: string, pre: string, k: nat)
    requires |pre| <= |text| && text[..|pre|] == pre && k <= |pre|
    ensures text[..k] == pre[..k]
  {
    assert text[..k] == text[..|pre|][..k];
  }

  /** Before the end the scan never closes more parentheses than it opened. */
  lemma {:induction false} UrlScanPrefix(entry: string, start: nat, i: nat)
    requires start <= i <= |entry|
    requires forall k :: start <= k < i ==> !StopsAt(entry, start, k)
    ensures forall k :: start <= k <= i ==> Net(entry[start..k]) >= 0
    decreases i - start
  {
    if i > start {
      UrlScanPrefix(entry, start, i - 1);
      assert entry[start..i] == entry[start..i - 1] + [entry[i - 1]];
      NetSnoc(entry[start..i - 1], entry[i - 1]);
      assert !StopsAt(entry, start, i - 1);
    }
  }

  lemma {:induction false} UrlEndFromSpec(entry: string, start: nat, i: nat)
    requires start <= i <= |entry|
    ensures var e := UrlEndFrom(entry, start, i);
      || (i <= e < |entry| && StopsAt(entry, start, e) && forall k :: i <= k < e ==> !StopsAt(entry, start, k))
      || (e == start && forall k :: i <= k < |entry| ==> !StopsAt(entry, start, k))
    decreases |entry| - i
  {
    if i < |entry| && !StopsAt(entry, start, i) {
      UrlEndFromSpec(entry, start, i + 1);
    }
  }

  /**
   * The URL ends at the first `)` or line break met while no parenthesis opened
   * inside the URL is still open; without one it ends where it starts (and the
   * entry is skipped).
   */
  lemma UrlEndSpec(entry: string, start: nat)
    requires start <= |entry|
    ensures var e := UrlEnd(entry, start);
      || (start <= e < |entry| && StopsAt(entry, start, e) && forall k :: start <= k < e ==> !StopsAt(entry, start, k))
      || (e == start && forall k :: start <= k < |entry| ==> !StopsAt(entry, start, k))
  {
    UrlEndFromSpec(entry, start, start);
  }

  /**
   * When the scan stops at a `)`, the URL between has balanced parentheses, and
   * every line break inside it lay within an open parenthesis.
   */
  lemma UrlSpanBalanced(entry: string, start: nat)
    requires start <= |entry|
    requires UrlEnd(entry, start) < |entry| && entry[UrlEnd(entry, start)] == ')'
    ensures Net(entry[start..UrlEnd(entry, start)]) == 0
    ensures forall k :: start <= k <= UrlEnd(entry, start) ==> Net(entry[start..k]) >= 0
    ensures forall k :: start <= k < UrlEnd(entry, start) && (entry[k] == '\n' || entry[k] == '\r') ==>
      Net(entry[start..k]) > 0
  {
    var e := UrlEnd(entry, start);
    UrlEndSpec(entry, start);
    assert StopsAt(entry, start, e);
    UrlScanPrefix(entry, start, e);
    forall k | start <= k < e && (entry[k] == '\n' || entry[k] == '\r')
      ensures Net(entry[start..k]) > 0
    {
      assert !StopsAt(entry, start, k);
      assert Net(entry[start..k]) >= 0;
    }
  }

  /** An entry parses only when it has a `[title](` link. */
  lemma ParsedEntryHasLink(entry: string, journalOf: (string, string) -> JournalFields)
    requires ParseEntry(entry, journalOf).Some?
    ensures FindLink(entry, 0).Some?
  {
  }

  /** A parsed entry's URL span is non-empty and ends at a stop; its URL and title come from the link. */
  lemma ParsedEntryUrl(entry: string, journalOf: (string, string) -> JournalFields, open: nat, close: nat)
    requires ParseEntry(entry, journalOf).Some?
    requires FindLink(entry, 0) == Some((open, close))
    ensures close + 2 < UrlEnd(entry, close + 2) < |entry|
    ensures StopsAt(entry, close + 2, UrlEnd(entry, close + 2))
    ensures ParseEntry(entry, journalOf).value.url == Strip(entry[close + 2..UrlEnd(entry, close + 2)])
    ensures ParseEntry(entry, journalOf).value.title == Strip(entry[open + 1..close])
  {
    assert ParseEntry(entry, journalOf) == ParseLinked(entry, open, close, journalOf);
    LinkedUrl(entry, open, close, journalOf);
  }

  /** ParsedEntryUrl, for the rest of the entry once its link is found. */
  lemma LinkedUrl(entry: string, open: nat, close: nat, journalOf: (string, string) -> JournalFields)
    requires open < close && close + 2 <= |entry|
    requires ParseLinked(entry, open, close, journalOf).Some?
    ensures close + 2 < UrlEnd(entry, close + 2) < |entry|
    ensures StopsAt(entry, close + 2, UrlEnd(entry, close + 2))
    ensures ParseLinked(entry, open, close, journalOf).value.url == Strip(entry[close + 2..UrlEnd(entry, close + 2)])
    ensures ParseLinked(entry, open, close, journalOf).value.title == Strip(entry[open + 1..close])
  {
    UrlEndFound(entry, close + 2);
  }

  /** A scan that ends after its start ended at a stop. */
  lemma UrlEndFound(entry: string, start: nat)
    requires start <= |entry| && UrlEnd(entry, start) > start
    ensures UrlEnd(entry, start) < |entry| && StopsAt(entry, start, UrlEnd(entry, start))
  {
    UrlEndSpec(entry, start);
  }

  /** The PubMed id is the run of digits after the first PubMed prefix that a digit follows. */
  lemma {:induction false} FindPmidSpec(url: string, from: nat)
    ensures FindPmid(url, from).Some? ==> IsDigits(FindPmid(url, from).value)
    ensures FindPmid(url, from).Some? ==>
      exists p :: && from <= p && PmidAt(url, p)
                  && (forall q :: from <= q < p ==> !PmidAt(url, q))
                  && FindPmid(url, from).value == DigitRun(url[p + |PubmedPrefix|..])
    ensures FindPmid(url, from).None? ==> forall p :: from <= p ==> !PmidAt(url, p)
    decreases |url| - from
  {
    if from + |PubmedPrefix| < |url| && !PmidAt(url, from) {
      FindPmidSpec(url, from + 1);
      if FindPmid(url, from + 1).Some? {
        var p :| && from + 1 <= p && PmidAt(url, p)
                 && (forall q :: from + 1 <= q < p ==> !PmidAt(url, q))
                 && FindPmid(url, from + 1).value == DigitRun(url[p + |PubmedPrefix|..]);
        assert forall q :: from <= q < p ==> !PmidAt(url, q);
      }
    }
  }

  /** A footnote's text begins with the authors clause when there are authors and with the title otherwise,
      no component keeps a trailing `.`, so no `..` appears where the `. ` joins, and the link comes last. */
  lemma FootnoteShape(r: Reference)
    ensures var a := RStripChar(r.authors, '.'); a == "" || a[|a| - 1] != '.'
    ensures var t := RStripChar(r.title, '.'); t == "" || t[|t| - 1] != '.'
    ensures var j := RStripChar(r.journal, '.'); j == "" || j[|j| - 1] != '.'
    ensures var a := RStripChar(r.authors, '.'); var t := RStripChar(r.title, '.');
      a != "" ==> a + ". " + t + ". " <= FootnoteText(r)
    ensures var a := RStripChar(r.authors, '.'); var t := RStripChar(r.title, '.'); var j := RStripChar(r.journal, '.');
      a == "" ==> t + ". " + j + ". " <= FootnoteText(r)
    ensures var l := Link(CleanUrl(r.url));
      |l| <= |FootnoteText(r)| && FootnoteText(r)[|FootnoteText(r)| - |l|..] == l
  {
    RStripCharSpec(r.authors, '.');
    RStripCharSpec(r.title, '.');
    RStripCharSpec(r.journal, '.');
    var a := RStripChar(r.authors, '.');
    var t := RStripChar(r.title, '.');
    var j := RStripChar(r.journal, '.');
    var l := Link(CleanUrl(r.url));
    var p := (if a != "" then a + ". " else "") + t + ". ";
    var q := p + j + ". " + r.year + ". ";
    assert FootnoteText(r) == q + l;
    SuffixOfConcat(q, l);
    if a != "" {
      PrefixThen(p, p, j);
      PrefixThen(p, p + j, ". ");
      PrefixThen(p, p + j + ". ", r.year);
      PrefixThen(p, p + j + ". " + r.year, ". ");
      PrefixThen(p, q, l);
    } else {
      var u := p + j + ". ";
      assert "" + t == t;
      PrefixThen(u, u, r.year);
      PrefixThen(u, u + r.year, ". ");
      PrefixThen(u, q, l);
    }
  }

  /** A prefix of a text stays a prefix when the text is extended. */
  lemma PrefixThen(x: string, y: string, z: string)
    requires x <= y
    ensures x <= y + z
  {
    assert (y + z)[..|x|] == y[..|x|];
  }

  /** A text is a suffix of anything it is appended to. */
  lemma SuffixOfConcat(x: string, y: string)
    ensures var w := x + y; w[|w| - |y|..] == y
  {
  }



}
