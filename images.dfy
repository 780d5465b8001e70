/**
 * transform_images (openevidence_converter.py:223-290): every matched figure
 * block becomes an HTML span pointing at a numbered local file, and a manifest
 * entry records which remote image to fetch under that name.
 *
 * The block regular expression is not modelled: the text arrives already cut
 * into plain runs and matched figure blocks, each figure carrying its five
 * captured groups as they were matched (before stripping).
 */
module Images {
  import opened Text
  import opened Urls

  datatype Segment =
    | Plain(text: string)
    | Figure(imageUrl: string, caption: string, articleTitle: string, sourceUrl: string, journalDate: string)

  /** One `{'source_url', 'local_filename', 'caption'}` dictionary of the manifest. */
  datatype ManifestEntry = ManifestEntry(sourceUrl: string, localFilename: string, caption: string)

  /** `\w` on ASCII. */
  predicate IsWordChar(c: char) {
    'a' <= c <= 'z' || 'A' <= c <= 'Z' || '0' <= c <= '9' || c == '_'
  }

  /** What `re.sub(r'[^\w\s-]', '', ...)` keeps. */
  predicate Allowed(c: char) {
    IsWordChar(c) || IsSpace(c) || c == '-'
  }

  function DropDisallowed(s: string): string {
    if |s| == 0 then "" else (if Allowed(s[0]) then [s[0]] else []) + DropDisallowed(s[1..])
  }

  /** `re.sub(r'\s+', ' ', s)`: every whitespace run becomes one space. */
  function CollapseWhitespace(s: string): string {
    if |s| == 0 then ""
    else if IsSpace(s[0]) then
      (if |s| > 1 && IsSpace(s[1]) then CollapseWhitespace(s[1..]) else " " + CollapseWhitespace(s[1..]))
    else [s[0]] + CollapseWhitespace(s[1..])
  }

  /** The document title as it appears in image file names. */
  function SafeTitle(docTitle: string): string {
    CollapseWhitespace(Strip(DropDisallowed(docTitle)))
  }

  /** `f"{safe_title}-{date}-{n}.png"`. */
  function LocalFilename(safeTitle: string, date: string, n: nat): string {
    safeTitle + "-" + date + "-" + NatToString(n) + ".png"
  }

  /** The span that replaces one figure block. */
  function Span(fig: Segment, localFilename: string): string
    requires fig.Figure?
  {
    "<span class=\"rightimg\"><a href=\"#\" tabindex=\"0\"><img src=\"" + localFilename + "\" ></a>"
    + Strip(fig.caption) + " Ref: " + RStripChar(Strip(fig.articleTitle), '.') + ". "
    + Strip(fig.journalDate) + " " + CleanUrl(Strip(fig.sourceUrl)) + "</span>"
  }

  function Entry(fig: Segment, localFilename: string): ManifestEntry
    requires fig.Figure?
  {
    ManifestEntry(fig.imageUrl, localFilename, Strip(fig.caption))
  }

  /** The figure blocks in document order. */
  function Figures(segs: seq<Segment>): seq<Segment> {
    if |segs| == 0 then []
    else Figures(segs[..|segs| - 1]) + (if segs[|segs| - 1].Figure? then [segs[|segs| - 1]] else [])
  }

  /** The output text: plain runs verbatim, the n-th figure block (from 1) as its span. */
  function Rendered(segs: seq<Segment>, safeTitle: string, date: string): string {
    if |segs| == 0 then ""
    else
      var init, last := segs[..|segs| - 1], segs[|segs| - 1];
      Rendered(init, safeTitle, date) +
        match last
        case Plain(t) => t
        case Figure(_, _, _, _, _) => Span(last, LocalFilename(safeTitle, date, |Figures(init)| + 1))
  }

  /** The manifest: one entry per figure block, numbered by its position. */
  function Manifest(segs: seq<Segment>, safeTitle: string, date: string): seq<ManifestEntry> {
    if |segs| == 0 then []
    else
      var init, last := segs[..|segs| - 1], segs[|segs| - 1];
      Manifest(init, safeTitle, date) +
        if last.Figure? then [Entry(last, LocalFilename(safeTitle, date, |Figures(init)| + 1))] else []
  }

  /** transform_images: one pass over the blocks with a running image counter. */
  method TransformImages(segs: seq<Segment>, docTitle: string, date: string)
    returns (text: string, manifest: seq<ManifestEntry>)
    ensures text == Rendered(segs, SafeTitle(docTitle), date)
    ensures manifest == Manifest(segs, SafeTitle(docTitle), date)
  {
    var safeTitle := SafeTitle(docTitle);
    text, manifest := "", [];
    var counter := 0;
    for i := 0 to |segs|
      invariant counter == |Figures(segs[..i])|
      invariant text == Rendered(segs[..i], safeTitle, date)
      invariant manifest == Manifest(segs[..i], safeTitle, date)
    {
      assert segs[..i + 1][..i] == segs[..i];
      match segs[i]
      case Plain(t) =>
        text := text + t;
      case Figure(_, _, _, _, _) =>
        counter := counter + 1;
        var localFilename := LocalFilename(safeTitle, date, counter);
        manifest := manifest + [Entry(segs[i], localFilename)];
        text := text + Span(segs[i], localFilename);
    }
    assert segs[..|segs|] == segs;
  }

  // ----- Properties -----

  /** The n-th manifest entry (from 0) describes the n-th figure block under number n + 1. */
  lemma {:induction false} ManifestByFigure(segs: seq<Segment>, safeTitle: string, date: string)
    ensures |Manifest(segs, safeTitle, date)| == |Figures(segs)|
    ensures forall n :: 0 <= n < |Figures(segs)| ==> Figures(segs)[n].Figure?
    ensures forall n :: 0 <= n < |Figures(segs)| ==>
      Manifest(segs, safeTitle, date)[n] == Entry(Figures(segs)[n], LocalFilename(safeTitle, date, n + 1))
  {
    if |segs| > 0 {
      ManifestByFigure(segs[..|segs| - 1], safeTitle, date);
    }
  }

  /** Different image numbers give different file names. */
  lemma LocalFilenameInjective(safeTitle: string, date: string, m: nat, n: nat)
    requires LocalFilename(safeTitle, date, m) == LocalFilename(safeTitle, date, n)
    ensures m == n
  {
    var prefix := safeTitle + "-" + date + "-";
    var a, b := LocalFilename(safeTitle, date, m), LocalFilename(safeTitle, date, n);
    assert a[|prefix|..|a| - 4] == NatToString(m);
    assert b[|prefix|..|b| - 4] == NatToString(n);
    NatToStringInjective(m, n);
  }

  /** No two images of one document are saved under the same name. */
  lemma ManifestFilenamesDistinct(segs: seq<Segment>, safeTitle: string, date: string)
    ensures forall i, j :: 0 <= i < j < |Manifest(segs, safeTitle, date)| ==>
      Manifest(segs, safeTitle, date)[i].localFilename != Manifest(segs, safeTitle, date)[j].localFilename
  {
    ManifestByFigure(segs, safeTitle, date);
    forall i, j | 0 <= i < j < |Manifest(segs, safeTitle, date)|
      ensures Manifest(segs, safeTitle, date)[i].localFilename != Manifest(segs, safeTitle, date)[j].localFilename
    {
      if LocalFilename(safeTitle, date, i + 1) == LocalFilename(safeTitle, date, j + 1) {
        LocalFilenameInjective(safeTitle, date, i + 1, j + 1);
      }
    }
  }

  /** The plain runs, concatenated. */
  function PlainText(segs: seq<Segment>): string {
    if |segs| == 0 then ""
    else PlainText(segs[..|segs| - 1]) + (match segs[|segs| - 1] case Plain(t) => t case Figure(_, _, _, _, _) => "")
  }

  /** Without figure blocks the text comes back unchanged and the manifest is empty. */
  lemma {:induction false} NoFiguresUnchanged(segs: seq<Segment>, safeTitle: string, date: string)
    requires Figures(segs) == []
    ensures Rendered(segs, safeTitle, date) == PlainText(segs)
    ensures Manifest(segs, safeTitle, date) == []
  {
    if |segs| > 0 {
      var init := segs[..|segs| - 1];
      assert Figures(init) == [];
      NoFiguresUnchanged(init, safeTitle, date);
    }
  }

  // ----- The file-name title -----

  /** A title in the form SafeTitle gives: word characters, `-` and single inner spaces. */
  predicate IsSafeTitle(s: string) {
    && (forall i :: 0 <= i < |s| ==> IsWordChar(s[i]) || s[i] == '-' || s[i] == ' ')
    && (forall i :: 0 <= i < |s| - 1 ==> !(s[i] == ' ' && s[i + 1] == ' '))
    && (|s| > 0 ==> s[0] != ' ' && s[|s| - 1] != ' ')
  }

  lemma {:induction false} DropDisallowedChars(s: string)
    ensures forall i :: 0 <= i < |DropDisallowed(s)| ==> Allowed(DropDisallowed(s)[i])
    ensures (forall i :: 0 <= i < |s| ==> Allowed(s[i])) ==> DropDisallowed(s) == s
  {
    if |s| > 0 {
      DropDisallowedChars(s[1..]);
    }
  }

  /** Collapsing keeps non-space characters, writes every space as `' '`, never two in a row. */
  lemma {:induction false} CollapseWhitespaceSpec(s: string)
    ensures var r := CollapseWhitespace(s);
      && (forall i :: 0 <= i < |r| ==> r[i] == ' ' || (!IsSpace(r[i]) && r[i] in s))
      && (forall i :: 0 <= i < |r| - 1 ==> !(r[i] == ' ' && r[i + 1] == ' '))
      && (|s| > 0 ==> |r| > 0)
      && (|s| > 0 && !IsSpace(s[0]) ==> r[0] == s[0])
      && (|s| > 0 && IsSpace(s[0]) ==> r[0] == ' ')
      && (|s| > 0 && !IsSpace(s[|s| - 1]) ==> r[|r| - 1] == s[|s| - 1])
  {
    if |s| > 0 {
      CollapseWhitespaceSpec(s[1..]);
      assert forall c :: c in s[1..] ==> c in s;
    }
  }

  /** A string already in that form is left alone. */
  lemma {:induction false} CollapseWhitespaceIdentity(s: string)
    requires forall i :: 0 <= i < |s| ==> IsSpace(s[i]) ==> s[i] == ' '
    requires forall i :: 0 <= i < |s| - 1 ==> !(s[i] == ' ' && s[i + 1] == ' ')
    ensures CollapseWhitespace(s) == s
  {
    if |s| > 0 {
      CollapseWhitespaceIdentity(s[1..]);
    }
  }

  /** The title in file names holds only word characters, `-` and single inner spaces. */
  lemma SafeTitleShape(docTitle: string)
    ensures IsSafeTitle(SafeTitle(docTitle))
  {
    var d := DropDisallowed(docTitle);
    DropDisallowedChars(docTitle);
    StripKeepsChars(d);
    StripSpec(d);
    CollapsedIsSafe(Strip(d));
  }

  /** `strip` only removes characters. */
  lemma StripKeepsChars(d: string)
    ensures forall c :: c in Strip(d) ==> c in d
  {
    RStripSpec(d);
    LStripSpec(RStrip(d));
  }

  /** Collapsing the whitespace of an allowed string with no space at either end gives a safe title. */
  lemma CollapsedIsSafe(u: string)
    requires forall c :: c in u ==> Allowed(c)
    requires u == [] || (!IsSpace(u[0]) && !IsSpace(u[|u| - 1]))
    ensures IsSafeTitle(CollapseWhitespace(u))
  {
    var r := CollapseWhitespace(u);
    CollapseWhitespaceSpec(u);
    forall i | 0 <= i < |r| ensures IsWordChar(r[i]) || r[i] == '-' || r[i] == ' ' {
      if r[i] != ' ' {
        assert Allowed(r[i]);
      }
    }
  }

  /** A title already in that form is its own SafeTitle. */
  lemma SafeTitleOfSafe(s: string)
    requires IsSafeTitle(s)
    ensures SafeTitle(s) == s
  {
    DropDisallowedChars(s);
    StripTrimmed(s);
    CollapseWhitespaceIdentity(s);
  }

  lemma SafeTitleIdempotent(docTitle: string)
    ensures SafeTitle(SafeTitle(docTitle)) == SafeTitle(docTitle)
  {
    SafeTitleShape(docTitle);
    SafeTitleOfSafe(SafeTitle(docTitle));
  }
}
