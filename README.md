# OpenEvidence converter: a verified model of its text passes

`openevidence_converter.py` turns a Markdown export of an OpenEvidence answer
into an Obsidian note. This project models the passes at the heart of that
conversion, and proves what each pass promises:

- **remove_preamble** keeps the `---` metadata block and drops the interface
  boilerplate before the first content line. It also drops one redundant
  `### ` title. (`preamble.dfy`)
- **parse_reference_numbers / extract_all_references** expand citation
  groups such as `7` and `11-13`. The module also builds the `[^N]` markers
  that replace one matched citation block. (`citations.dfy`)
- **clean_url** drops the eight tracking keys from a URL's query. (`urls.dfy`)
- **transform_images** turns each figure block into a span that points at a
  numbered local file. It also adds a manifest entry for that file.
  (`images.dfy`)
- **format_reference_section** turns the numbered reference list into
  footnotes `[^1]`, `[^2]`, … under `# References`. (`references.dfy`)
- **normalize_heading_levels** maps the distinct heading depths onto H2, H3,
  …, capped at H6. (`headings.dfy`)
- **the end of cleanup_misc** collapses runs of line breaks and removes blanks
  at line ends. It then ends the file with exactly one line break.
  (`cleanup.dfy`)

Shared string helpers are in `text.dfy`: `strip`, `split`, `join`, digits and
first-match search. `wrappers.dfy` holds `Option`.

Passes that work by stepping through indices are modelled as methods with
loops. Each method is proved to compute a specification function:

- `RemovePreamble`
- `ScanUrlEnd`
- `FormatReferenceSection`
- `TransformImages`
- `BuildLevelMap`
- `NormalizeHeadingLevels`

The properties are lemmas about those functions. Passes that are plain
expressions are modelled as functions.

Where the source relies on a regular expression, the model takes one of two
forms:

- It receives the text already cut at the matches. This applies to figure
  blocks and citation bracket groups.
- It writes the pattern out as a scanner. This applies to the `1.` reference
  lines, the PubMed id, the heading pattern and the cleanup substitutions.

Whitespace (`\s`, `str.strip`) is space, tab, line feed, vertical tab, form feed and carriage return.

## Model

| member | source | states |
|---|---|---|
| Text.RStripSpec | openevidence_converter.py:312 | `rstrip` gives a prefix of its input that does not end in whitespace; everything it removed was whitespace |
| Text.StripSpec | openevidence_converter.py:96 | `strip` is empty exactly when the input is all whitespace; otherwise it neither starts nor ends with whitespace |
| Text.JoinSplit | openevidence_converter.py:27 | joining the lines of `text.split('\n')` with `'\n'` gives the text back |
| Text.SplitJoin | openevidence_converter.py:87 | splitting a `'\n'`-join of lines that contain no `'\n'` gives the lines back |
| Text.NatToString | openevidence_converter.py:441 | the decimal numeral of n consists of digits, has no leading zero, and reads back as n |
| Text.NatToStringInjective | openevidence_converter.py:264 | different numbers have different numerals |
| Text.FirstFrom | openevidence_converter.py:52-74 | the first line at or after `from` that satisfies the test; every earlier line fails it; None means no line does |
| Citations.Range | openevidence_converter.py:101 | `range(a, b + 1)` has b - a + 1 elements, a, a+1, …, and is empty when a > b |
| Citations.ParseRange | openevidence_converter.py:97-101 | `"N-M"` with two digit strings expands to N, N+1, …, M |
| Citations.ParseSingle | openevidence_converter.py:102-103 | a digit string expands to the one number it spells |
| Citations.ParseOtherwiseEmpty | openevidence_converter.py:96-104 | any string that, once stripped, is neither a digit string nor a digit range expands to nothing |
| Citations.ExtractConcat | openevidence_converter.py:116-119 | the expansion of a group list is the concatenation of the groups' expansions, with no sorting or de-duplication |
| Citations.ExtractExample | openevidence_converter.py:108-110 | the groups `7` and `11-13` give [7, 11, 12, 13] |
| Citations.MarkersRoundTrip | openevidence_converter.py:153 | reading the space-separated `[^r]` markers back gives exactly the numbers they were written for |
| Citations.MarkerRoundTrip | openevidence_converter.py:153 | one `[^n]` marker has no space in it and reads back as n |
| Citations.CitationReplacement | openevidence_converter.py:148-154 | a block whose groups expand to something becomes markers that read back as that expansion; otherwise the block is kept |
| Citations.CollapseSpaces | openevidence_converter.py:188 | no two spaces in a row remain; the first character is kept |
| Citations.CollapseSpacesKeepsOthers | openevidence_converter.py:188 | collapsing removes only spaces: the other characters survive, in order |
| Citations.CollapseSpacesIdentity | openevidence_converter.py:188 | text without two adjacent spaces is left alone |
| Citations.CollapseSpaceRun | openevidence_converter.py:188 | a run of one or more spaces becomes a single space |
| Citations.CollapseSpacesSplit | openevidence_converter.py:188 | a character other than a space splits the text into parts that are collapsed independently |
| Preamble.Frontmatter | openevidence_converter.py:30-38 | the metadata block, when found, starts and ends at a `---` line, the end after the start |
| Preamble.HeaderLines | openevidence_converter.py:40-46 | `yaml_section` is empty without two `---` lines; otherwise it starts and ends with `---` |
| Preamble.ContentStart | openevidence_converter.py:49-77 | the content start is the search start or a line found by one of the three rules |
| Preamble.KeptFrom | openevidence_converter.py:79-83 | the first kept line is the content start, or the line after it when that line is a `### ` title |
| Preamble.FindFrontmatter | openevidence_converter.py:30-38 | the loop finds exactly the metadata block Frontmatter describes |
| Preamble.FindFirst | openevidence_converter.py:52-74 | the `for i in range(...)` scan returns the first line that satisfies the test |
| Preamble.FindContentStart | openevidence_converter.py:49-77 | the scans, in priority order, compute ContentStart |
| Preamble.RemovePreamble | openevidence_converter.py:20-87 | the method's result is the metadata block followed by the lines from KeptFrom onward, joined by `'\n'` |
| Preamble.PreambleShape | openevidence_converter.py:86 | the result is the metadata block followed by a suffix of the lines |
| Preamble.MarkerRuleWins | openevidence_converter.py:52-59 | after the first `Finished researching` line, the next non-blank line is the content start |
| Preamble.H4RuleWins | openevidence_converter.py:61-66 | with no content after a marker line, the first `####` line is the content start |
| Preamble.CitationRuleWins | openevidence_converter.py:68-74 | with neither of those, the first line that holds an escaped citation is the content start |
| Preamble.SearchStartFallback | openevidence_converter.py:76-77 | with none of the three, the content starts at the search start |
| Preamble.NoMarkerContent | openevidence_converter.py:52-59 | when no non-blank line follows a marker line, the primary rule finds nothing |
| Preamble.StrippedLinesUnchanged | openevidence_converter.py:20-87 | a document that starts with its metadata block and then a `####` line, with no marker line, keeps all its lines |
| Preamble.StrippedDocumentUnchanged | openevidence_converter.py:20-87 | the same, stated on the text: the pass gives that document back unchanged |
| Urls.FindKey | openevidence_converter.py:206 | the position of the first group with the key; None when there is none |
| Urls.NoQueryUnchanged | openevidence_converter.py:205-218 | a URL without a query comes back unchanged |
| Urls.ParseUnparse | openevidence_converter.py:204-216 | splitting a reassembled URL gives back its base, query and fragment |
| Urls.QueryRoundTrip | openevidence_converter.py:206-210 | parsing an encoded non-empty parameter list gives the list back |
| Urls.GroupParamsValues | openevidence_converter.py:206 | grouping by key keeps the keys distinct, and each key keeps all its values in order |
| Urls.GroupParamsKeys | openevidence_converter.py:206 | the groups' keys are the query's keys in first-occurrence order |
| Urls.FilterTrackingKeeps | openevidence_converter.py:208 | filtering keeps every value of an untracked key and no value of a tracked one |
| Urls.FilterTrackingSubset | openevidence_converter.py:208 | every kept group is one of the input groups and has an untracked key |
| Urls.FilterTrackingNone | openevidence_converter.py:208 | with no tracked key present, filtering changes nothing |
| Urls.FilterTrackingKeys | openevidence_converter.py:208 | the kept keys are the input keys without the tracked ones, in the same order |
| Urls.FilterTrackingOk | openevidence_converter.py:208 | filtering keeps every group's key and values well formed |
| Urls.KeptWellFormed | openevidence_converter.py:206-208 | the kept groups of any query are well formed, and none has a tracked key |
| Urls.ValuesOfFlatten | openevidence_converter.py:206-210 | in the pairs of distinct-key groups, a key's values are its group's values, or none when no group has it |
| Urls.GroupFlatten | openevidence_converter.py:206-210 | grouping the pairs of well-formed, distinct-key groups gives those groups back |
| Urls.CleanUrlParts | openevidence_converter.py:203-217 | with a query, the cleaned URL keeps base and fragment, and its query holds the kept groups' pairs |
| Urls.CleanUrlValues | openevidence_converter.py:193-220 | every untracked key keeps all its values in order; a tracked key keeps none; base and fragment are kept |
| Urls.CleanUrlKeyOrder | openevidence_converter.py:206-210 | the cleaned query lists the untracked keys in the order in which they first appeared |
| Urls.CleanUrlReparse | openevidence_converter.py:203-217 | the cleaned URL splits back into the same base and fragment and the re-encoded kept query, whose filtered groups are the kept groups again |
| Urls.CleanUrlIdempotent | openevidence_converter.py:193-220 | cleaning a cleaned URL changes nothing |
| Images.TransformImages | openevidence_converter.py:223-290 | the counter loop computes the rendered text and the manifest |
| Images.ManifestByFigure | openevidence_converter.py:252-271 | the manifest has one entry per figure block; entry n describes block n under file number n + 1 |
| Images.LocalFilenameInjective | openevidence_converter.py:264 | different image numbers give different file names |
| Images.ManifestFilenamesDistinct | openevidence_converter.py:252-264 | no two manifest entries of one document share a file name |
| Images.NoFiguresUnchanged | openevidence_converter.py:288-290 | without figure blocks the text is unchanged and the manifest is empty |
| Images.DropDisallowedChars | openevidence_converter.py:262 | removal leaves only word characters, whitespace and `-`, and removes nothing from a string made of them |
| Images.CollapseWhitespaceSpec | openevidence_converter.py:263 | after collapsing, every whitespace character is a space and no two spaces are adjacent; other characters are kept |
| Images.CollapseWhitespaceIdentity | openevidence_converter.py:263 | a string with only single spaces is left alone |
| Images.SafeTitleShape | openevidence_converter.py:262-263 | the file-name title holds only word characters, `-` and single inner spaces |
| Images.CollapsedIsSafe | openevidence_converter.py:263 | collapsing whitespace in a stripped string of allowed characters gives a safe title |
| Images.SafeTitleOfSafe | openevidence_converter.py:262-263 | a title already in that form is its own file-name title |
| Images.SafeTitleIdempotent | openevidence_converter.py:262-263 | computing the file-name title twice gives the same title |
| References.RefStart | openevidence_converter.py:301-311 | the match start lies within the text before the `1.` line |
| References.RefStartSpec | openevidence_converter.py:301-312 | the match starts at the `1.` line or at a `###` followed only by whitespace and line breaks; whenever such a `###` exists, the match starts there, so `text[:ref_start]` loses it |
| References.HeaderAtStrip | openevidence_converter.py:302 | a `###` followed only by whitespace is exactly where the right-stripped text ends |
| References.UrlEnd | openevidence_converter.py:338-353 | the URL end lies between its start and the end of the entry |
| References.ScanUrlEnd | openevidence_converter.py:338-353 | the balanced-parenthesis loop computes UrlEnd |
| References.UrlScanPrefix | openevidence_converter.py:340-353 | before it stops, the scan never closes more parentheses than it opened |
| References.UrlEndSpec | openevidence_converter.py:338-353 | the URL ends at the first stop, a closing `)` or line break at depth one; with no stop, it ends at its start |
| References.UrlSpanBalanced | openevidence_converter.py:340-353 | a URL ended by `)` has balanced parentheses, never closes more than it opened, and holds no line break at depth one |
| References.UrlEndFound | openevidence_converter.py:355-356 | a non-empty URL span ended at a stop |
| References.ParseReference | openevidence_converter.py:325-359 | one loop iteration parses an entry exactly as ParseEntry |
| References.ParsedEntryHasLink | openevidence_converter.py:332-334 | an entry is parsed only when it has a `[title](` link |
| References.ParsedEntryUrl | openevidence_converter.py:336-359 | a parsed entry's URL span is non-empty and ends at a stop; its URL and title are the stripped link parts |
| References.DigitRun | openevidence_converter.py:426 | the longest digit prefix of the text |
| References.FindPmidSpec | openevidence_converter.py:426-429 | the PubMed id is the digit run after the leftmost PubMed prefix that a digit follows; no earlier position holds such a prefix; None when no prefix is followed by a digit |
| References.FootnoteShape | openevidence_converter.py:433-443 | after `rstrip('.')` no component ends in `.`; the footnote text begins with `authors. title. ` when there are authors and with `title. journal. ` otherwise, and ends with the link |
| References.FootnoteLabel | openevidence_converter.py:441-443 | footnote n starts with `[^n]: `, and its label reads back as n |
| References.Footnotes | openevidence_converter.py:445 | one footnote per parsed reference |
| References.FootnotesAt | openevidence_converter.py:362-445 | footnote k (from 0) is the footnote of parsed reference k under number k + 1 |
| References.FootnotesAppend | openevidence_converter.py:362-445 | appending a reference appends its footnote with the next number |
| References.FormatEntries | openevidence_converter.py:319-445 | the entry loop with its `ref_number` counter yields exactly Footnotes of the parsed entries |
| References.FormatReferenceSection | openevidence_converter.py:293-453 | the method computes FormatSpec |
| References.ParsedConcat | openevidence_converter.py:325-334 | parsing a list of entries distributes over concatenation |
| References.SkippedEntry | openevidence_converter.py:326-362 | an entry that does not parse adds no footnote and takes no number |
| References.ParsedSingle | openevidence_converter.py:325-445 | one entry contributes its reference when it parses and nothing otherwise |
| References.ParsedPrefix | openevidence_converter.py:325-362 | the entries up to and including entry i parse to those before it, plus entry i's reference when it parses |
| References.NoReferenceList | openevidence_converter.py:307-309 | without a `1.` line the text is returned unchanged |
| References.PreIsPrefix | openevidence_converter.py:311-313 | the lines before the `1.` line form a prefix of the text |
| References.MarkerLines | openevidence_converter.py:317 | the `1.` lines the split cuts at: one fewer than the entries after the first, each a `1.` line |
| References.EntriesAfterRejoin | openevidence_converter.py:317 | the entries after a `1.` line, put back between the `1.` lines they were cut at, give back the lines after it |
| References.EntriesCover | openevidence_converter.py:311-317 | the entries, put back between the `1.` lines they were cut at, give the text from the match start to the end |
| References.BodyIsPrefix | openevidence_converter.py:311-312 | `text[:ref_start]` is the text before the match start |
| References.FormatSpecAt | openevidence_converter.py:311-453 | the result is the right-stripped body, then the footnotes of the entries that parse |
| References.NothingParsed | openevidence_converter.py:448-451 | when no entry parses, the result is the right-stripped body alone |
| Headings.HashRun | openevidence_converter.py:463 | the greedy run of `#` from a position |
| Headings.LineEnd | openevidence_converter.py:463 | `.+` extends to the next line break or the end of the text |
| Headings.MatchAt | openevidence_converter.py:463 | a match starts where it was tried, ends after it, and has 2 to 6 hashes |
| Headings.MatchShape | openevidence_converter.py:463 | a match begins a line and has 2 to 6 hashes, then gap characters, then non-empty content that runs to the line end |
| Headings.ScanOrdered | openevidence_converter.py:464-490 | the matches do not overlap and come in text order |
| Headings.ScanMatches | openevidence_converter.py:464 | every match found is a match of the pattern at its start |
| Headings.Step | openevidence_converter.py:463-490 | one step of the search: at a match the rewrite emits its rendering and resumes after it; otherwise it copies one character and moves on |
| Headings.SpliceCons | openevidence_converter.py:483-490 | splicing a leading match renders it and continues after its end |
| Headings.SpliceSkip | openevidence_converter.py:483-490 | before the next match, splicing copies the character at the position |
| Headings.RewriteIsSplice | openevidence_converter.py:483-490 | the substitution copies the text between the matches and replaces each match by its rendering |
| Headings.LevelsFromSpec | openevidence_converter.py:470 | the levels are listed in increasing order, each one exactly once |
| Headings.SortedLevelsSpec | openevidence_converter.py:470 | `sorted(set(...))` is increasing and has exactly the depths present |
| Headings.LevelMapSpec | openevidence_converter.py:478-481 | the map's keys are the depths present; the i-th smallest depth maps to min(2 + i, 6) |
| Headings.BuildLevelMap | openevidence_converter.py:478-481 | the loop builds LevelMap |
| Headings.ScanLevels | openevidence_converter.py:463-470 | every depth found is between 2 and 6 |
| Headings.NormalizeUnchanged | openevidence_converter.py:466-474 | with no heading, or with some H2 heading, the text is returned unchanged |
| Headings.NormalizeRewrites | openevidence_converter.py:476-490 | otherwise every heading is rewritten through the level map |
| Headings.LevelMapBounds | openevidence_converter.py:478-481 | every depth of 3 or more maps to a level between 2 and 6 that is lower than itself |
| Headings.LevelMapMonotone | openevidence_converter.py:478-481 | the map keeps the order of depths |
| Headings.LevelMapOrder | openevidence_converter.py:478-481 | of two depths present, the smaller maps to a level no higher than the larger |
| Headings.LevelMapShallowest | openevidence_converter.py:473-481 | the shallowest depth maps to 2 |
| Headings.NormalizeLevels | openevidence_converter.py:456-491 | every heading's new level is between 2 and 6 and lower than its old one; order is kept; the shallowest becomes H2 |
| Headings.NormalizeHeadingLevels | openevidence_converter.py:456-491 | the method computes Normalize with the code's `\s` |
| Headings.BareHashesMatchNextLine | openevidence_converter.py:463 | on `###\nfoo` the pattern as written matches across the line break, with content `foo` |
| Headings.BareHashesTakeNextLine | openevidence_converter.py:463-490 | as written, `###\nfoo` becomes `## foo`: the next line is pulled up into the heading |
| Headings.HeadingsStayOnTheirLine | openevidence_converter.py:463 | with a gap class that excludes line breaks, every match lies within one line |
| Headings.MatchOnOneLine | openevidence_converter.py:463 | with a gap class that excludes line breaks, one match holds no line break |
| Headings.BareHashesKeptWithBlanks | openevidence_converter.py:463-490 | with `[ \t]+` as the gap, `###\nfoo` is left unchanged |
| Cleanup.NewlineRun | openevidence_converter.py:523 | the maximal run of line breaks at the start |
| Cleanup.BlankRun | openevidence_converter.py:526 | the maximal run of blanks at the start |
| Cleanup.CollapseNewlinesFirst | openevidence_converter.py:523 | collapsing keeps the first character |
| Cleanup.CollapseNewlinesSpec | openevidence_converter.py:523 | after collapsing, no three line breaks are adjacent |
| Cleanup.CollapseNewlinesIdentity | openevidence_converter.py:523 | text with no three adjacent line breaks is left alone |
| Cleanup.CollapseNewlinesKeepsLineEnds | openevidence_converter.py:523 | collapsing never makes a line end in a blank |
| Cleanup.StripLineEndsSpec | openevidence_converter.py:526 | after stripping, no line ends in a space or tab |
| Cleanup.StripLineEndsIdentity | openevidence_converter.py:526 | text with no line ending in a blank is left alone |
| Cleanup.StripNoBlanks | openevidence_converter.py:526 | text with no blanks at all is left alone |
| Cleanup.FinalNewlineSpec | openevidence_converter.py:529 | the text ends in one line break with no whitespace before it; neither property above is lost |
| Cleanup.CleanupTailSpec | openevidence_converter.py:522-529 | in the code's order, the result ends in one line break and no line ends in a blank |
| Cleanup.CollapseExample | openevidence_converter.py:523 | `a\n\n \n\nb` has no three adjacent line breaks, so collapsing leaves it alone |
| Cleanup.StripExample | openevidence_converter.py:526 | stripping line ends turns `a\n\n \n\nb` into `a\n\n\n\nb` |
| Cleanup.CleanupTailKeepsLongRuns | openevidence_converter.py:522-526 | in the code's order, `a\n\n \n\nb` ends with four adjacent line breaks |
| Cleanup.CleanupTailFixedSpec | openevidence_converter.py:522-529 | when stripping comes first: at most two adjacent line breaks, no line ending in a blank, one final line break |
| Cleanup.CleanupTailFixedIdempotent | openevidence_converter.py:522-529 | running the reordered steps twice gives the same text as running them once |

## Left out

- The command line, file reading and writing, `datetime` and the image downloads are I/O. They are not modelled.
- `extract_document_info` and the YAML metadata written into the note are not modelled. The date and title reach the image pass as parameters.
- transform_inline_citations is modelled only through its replacement function and the double-space collapse. The journal-prefix pattern, the favicon removal, and steps 4-6 (the incomplete and leftover citation rewrites, and the spacing between footnotes) are not modelled, because they are regular-expression substitutions over free text.
- The figure-block pattern of transform_images is not modelled. The text arrives already cut into plain runs and matched blocks, with the captured groups as matched.
- The journal, year and authors heuristics of format_reference_section (lines 364-422) and its favicon removal (line 366) are the parameter `journalOf`. Only their results are modelled.
- format_reference_section cuts its entries at whole `1.` lines. In the source, the greedy `\s*$` of the split pattern (line 317) backtracks only to the last line break before the next line that holds something other than whitespace. When whitespace-only lines follow a `1.` line, the source's entry therefore lacks the line break after `1.`, every whitespace-only line but the last, and the blanks on them. For `1.\n\n\n[T](u)` the source's entry is `\n[T](u)` and the model's is `\n\n\n[T](u)`. Only this leading whitespace differs; EntriesCover states that the model's entries, put back between their `1.` lines, give back the reference list. The link, URL and PubMed id are found the same way, and the difference reaches only the text handed to `journalOf`.
- `urlparse` is modelled by its `#` and `?` splits only. Scheme, netloc and path are one carried-through string. The normalisations that `urlsplit` and `urlunparse` apply to that part are not modelled. `urlsplit` lower-cases the scheme and removes tabs, carriage returns and line feeds. `urlunparse` writes `//` after a scheme that uses a network location when that location is empty, so `http:path?utm_source=x` becomes `http:///path`. The clauses of CleanUrlParts and CleanUrlValues that keep the base unchanged hold for the model's base only.
- Percent-decoding in `parse_qs` and percent-encoding in `urlencode` are taken as the identity. `+` is not read as a space.
- The `except Exception` fallback of clean_url is unreachable in the model.
- Whitespace in the model is space, tab, line feed, vertical tab, form feed and carriage return. Python's `str.strip` and `\s` also treat the separators `\x1c` to `\x1f` and Unicode whitespace as whitespace; the model does not. So `\x1c---` is a separator line in the source (line 32) but not in the model. `\w` and `str.isdigit` are ASCII in the model; Unicode digits and word characters are not.
- cleanup_misc lines 498-520 are not modelled, because they are regular-expression substitutions over free text. These are the bracket unescaping, the `S0735-1097` fix, the call to normalize_heading_levels (modelled on its own), the `Table N` italics and the removal of orphaned `###` lines.
- The method for normalize_heading_levels keeps the pattern as written, with `\s`. The fix appears only in the Findings below and is not substituted into the method.

## Findings

| source | as written | input that shows it | evidently intended | confidence | as-written member | corrected member |
|---|---|---|---|---|---|---|
| openevidence_converter.py:463 | `^(#{2,6})\s+(.+)$` with `\s`, which also matches a line break | `###\nfoo` becomes `## foo`: an empty `###` line swallows the next line as its heading text | headings stay on their own line (`[ \t]+`); an empty `###` line is not a heading | medium, not executed | Headings.BareHashesTakeNextLine | Headings.HeadingsStayOnTheirLine |
| openevidence_converter.py:523-526 | runs of 3+ line breaks are collapsed before blanks are removed from line ends | `a\n\n \n\nb` gives `a\n\n\n\nb\n`: the emptied line rejoins two pairs of line breaks | at most two adjacent line breaks in the output ("max 2 consecutive newlines") | high, not executed | Cleanup.CleanupTailKeepsLongRuns | Cleanup.CleanupTailFixedSpec |
