/**
 * Citation-number expansion (openevidence_converter.py, parse_reference_numbers and
 * extract_all_references) and the footnote markers the inline-citation pass writes
 * for one matched citation block.
 *
 * The regular expressions that find citation blocks are not modelled: a block is
 * handed over already split into its bracket groups, the texts between `\[` and `\]`.
 */
module Citations {
  import opened Text
  import opened Wrappers

  /** `list(range(a, b + 1))`: the inclusive run a..b, empty when a > b. */
  function Range(a: nat, b: nat): (r: seq<nat>)
    ensures |r| == if a <= b then b - a + 1 else 0
    ensures forall k :: 0 <= k < |r| ==> r[k] == a + k
    decreases b + 1 - a
  {
    if a > b then [] else [a] + Range(a + 1, b)
  }

  /** A bracket group of the form `N-M` with both sides all digits. */
  ghost predicate IsRangeForm(t: string) {
    exists i :: 0 <= i < |t| && t[i] == '-' && IsDigits(t[..i]) && IsDigits(t[i + 1..])
  }

  /**
   * parse_reference_numbers: `"N-M"` gives N..M, a bare number gives [N],
   * anything else gives [].
   */
  function ParseReferenceNumbers(refString: string): seq<nat>
  {
    var t := Strip(refString);
    var parts := Split(t, '-');
    if '-' in t && |parts| == 2 && IsDigits(parts[0]) && IsDigits(parts[1]) then
      Range(DigitsToNat(parts[0]), DigitsToNat(parts[1]))
    else if IsDigits(t) then
      [DigitsToNat(t)]
    else
      []
  }

  lemma DigitsStripped(s: string)
    requires IsDigits(s)
    ensures Strip(s) == s
  {
    StripTrimmed(s);
  }

  /** `"N-M"` expands to the inclusive list N..M (empty when N > M). */
  lemma {:induction false} ParseRange(a: string, b: string)
    requires IsDigits(a) && IsDigits(b)
    ensures ParseReferenceNumbers(a + "-" + b) == Range(DigitsToNat(a), DigitsToNat(b))
    ensures |ParseReferenceNumbers(a + "-" + b)| ==
      if DigitsToNat(a) <= DigitsToNat(b) then DigitsToNat(b) - DigitsToNat(a) + 1 else 0
  {
    var t := a + "-" + b;
    assert !IsSpace(t[0]) && !IsSpace(t[|t| - 1]);
    StripTrimmed(t);
    assert '-' !in a by { assert forall k :: 0 <= k < |a| ==> a[k] != '-'; }
    assert '-' !in b by { assert forall k :: 0 <= k < |b| ==> b[k] != '-'; }
    SplitPrefix(a, b, '-');
    SplitNoSep(b, '-');
    assert t[|a|] == '-';
  }

  /** A bare number expands to the one-element list holding it. */
  lemma ParseSingle(a: string)
    requires IsDigits(a)
    ensures ParseReferenceNumbers(a) == [DigitsToNat(a)]
  {
    DigitsStripped(a);
    assert '-' !in a by { assert forall k :: 0 <= k < |a| ==> a[k] != '-'; }
  }

  /** Anything that is neither a number nor a range of numbers expands to nothing. */
  lemma {:induction false} ParseOtherwiseEmpty(s: string)
    ensures ParseReferenceNumbers(s) != [] ==> IsDigits(Strip(s)) || IsRangeForm(Strip(s))
  {
    var t := Strip(s);
    var parts := Split(t, '-');
    if '-' in t && |parts| == 2 && IsDigits(parts[0]) && IsDigits(parts[1]) {
      JoinSplit(t, '-');
      assert Join(parts, "-") == parts[0] + "-" + Join(parts[1..], "-");
      assert parts[1..] == [parts[1]];
      var i := |parts[0]|;
      assert t[..i] == parts[0] && t[i] == '-' && t[i + 1..] == parts[1];
    }
  }

  /** extract_all_references: the groups' expansions concatenated left to right. */
  function ExtractAllReferences(groups: seq<string>): seq<nat>
  {
    if |groups| == 0 then [] else ParseReferenceNumbers(groups[0]) + ExtractAllReferences(groups[1..])
  }

  /** Expansion distributes over concatenation: no sorting, no de-duplication. */
  lemma {:induction false} ExtractConcat(g1: seq<string>, g2: seq<string>)
    ensures ExtractAllReferences(g1 + g2) == ExtractAllReferences(g1) + ExtractAllReferences(g2)
  {
    if |g1| > 0 {
      var g := g1 + g2;
      assert g[0] == g1[0] && g[1..] == g1[1..] + g2;
      ExtractConcat(g1[1..], g2);
      assert ExtractAllReferences(g) == ParseReferenceNumbers(g1[0]) + ExtractAllReferences(g1[1..] + g2);
    } else {
      assert g1 + g2 == g2;
    }
  }

  /** The `\[7\]\[11-13\]` example: [7, 11, 12, 13], in order. */
  lemma ExtractExample(groups: seq<string>)
    requires groups == ["7", "11-13"]
    ensures ExtractAllReferences(groups) == [7, 11, 12, 13]
  {
    ParseExampleSingle(groups[0]);
    ParseExampleRange(groups[1]);
    ExtractPair(groups[0], groups[1]);
    assert groups == [groups[0], groups[1]];
  }

  lemma ParseExampleSingle(seven: string)
    requires seven == "7"
    ensures ParseReferenceNumbers(seven) == [7]
  {
    assert IsDigits(seven) && DigitsToNat(seven) == 7;
    ParseSingle(seven);
  }

  lemma ParseExampleRange(group: string)
    requires group == "11-13"
    ensures ParseReferenceNumbers(group) == [11, 12, 13]
  {
    var eleven, thirteen := "11", "13";
    assert IsDigits(eleven) && IsDigits(thirteen);
    assert DigitsToNat(eleven) == 11 by { assert eleven[..1] == "1"; }
    assert DigitsToNat(thirteen) == 13 by { assert thirteen[..1] == "1"; }
    ParseRange(eleven, thirteen);
    assert eleven + "-" + thirteen == group;
    assert Range(11, 13) == [11, 12, 13];
  }

  lemma ExtractPair(x: string, y: string)
    ensures ExtractAllReferences([x, y]) == ParseReferenceNumbers(x) + ParseReferenceNumbers(y)
  {
    var g := [x, y];
    assert g[1..] == [y] && g[1..][1..] == [];
    assert ExtractAllReferences(g[1..]) == ParseReferenceNumbers(y) + ExtractAllReferences([]);
  }

  /** `f'[^{r}]'`. */
  function Marker(n: nat): string {
    "[^" + NatToString(n) + "]"
  }

  /** `' '.join(f'[^{r}]' for r in refs)`. */
  function Markers(refs: seq<nat>): string {
    Join(seq(|refs|, k requires 0 <= k < |refs| => Marker(refs[k])), " ")
  }

  /**
   * The replacement for one matched citation block: the markers of every
   * number its groups expand to, or the matched text unchanged when they
   * expand to nothing.
   */
  function ReplaceCitation(matched: string, groups: seq<string>): string
  {
    var refs := ExtractAllReferences(groups);
    if refs != [] then Markers(refs) else matched
  }

  /** Reads one `[^N]` marker back. */
  function ParseMarker(p: string): Option<nat>
  {
    if |p| >= 4 && p[..2] == "[^" && p[|p| - 1] == ']' && IsDigits(p[2..|p| - 1])
    then Some(DigitsToNat(p[2..|p| - 1]))
    else None
  }

  /** Reads a space-separated run of markers back. */
  function ParseMarkers(s: string): Option<seq<nat>>
  {
    var pieces := Split(s, ' ');
    if forall k :: 0 <= k < |pieces| ==> ParseMarker(pieces[k]).Some?
    then Some(seq(|pieces|, k requires 0 <= k < |pieces| => ParseMarker(pieces[k]).value))
    else None
  }

  /**
   * One marker per expanded number, in order: reading the replacement back
   * gives exactly the expansion of the groups.
   */
  lemma MarkersRoundTrip(refs: seq<nat>)
    requires refs != []
    ensures ParseMarkers(Markers(refs)) == Some(refs)
  {
    var ms := seq(|refs|, k requires 0 <= k < |refs| => Marker(refs[k]));
    forall k | 0 <= k < |ms|
      ensures ' ' !in ms[k]
      ensures ParseMarker(ms[k]) == Some(refs[k])
    {
      MarkerRoundTrip(refs[k]);
    }
    assert Markers(refs) == Join(ms, [' ']);
    SplitJoin(ms, ' ');
    var pieces := Split(Markers(refs), ' ');
    assert pieces == ms;
    assert forall k :: 0 <= k < |pieces| ==> ParseMarker(pieces[k]).Some?;
    assert seq(|pieces|, k requires 0 <= k < |pieces| => ParseMarker(pieces[k]).value) == refs;
  }

  /** One marker holds no space and reads back as its number. */
  lemma MarkerRoundTrip(n: nat)
    ensures ' ' !in Marker(n)
    ensures ParseMarker(Marker(n)) == Some(n)
  {
    var d := NatToString(n);
    var m := Marker(n);
    assert m[2..|m| - 1] == d;
    assert m[..2] == "[^";
    forall i | 0 <= i < |m| ensures m[i] != ' ' {
      if 2 <= i < |m| - 1 { assert m[i] == d[i - 2]; }
    }
  }

  /** A block that expands to numbers becomes markers reading back as them; any other block is kept. */
  lemma CitationReplacement(matched: string, groups: seq<string>)
    ensures ExtractAllReferences(groups) != [] ==>
      ParseMarkers(ReplaceCitation(matched, groups)) == Some(ExtractAllReferences(groups))
    ensures ExtractAllReferences(groups) == [] ==> ReplaceCitation(matched, groups) == matched
  {
    if ExtractAllReferences(groups) != [] {
      MarkersRoundTrip(ExtractAllReferences(groups));
    }
  }

  /** `re.sub(r'  +', ' ', text)`: every run of two or more spaces becomes one. */
  function CollapseSpaces(s: string): (r: string)
    ensures forall i :: 0 <= i < |r| - 1 ==> !(r[i] == ' ' && r[i + 1] == ' ')
    ensures |r| > 0 ==> |s| > 0 && r[0] == s[0]
    decreases |s|
  {
    if |s| >= 2 && s[0] == ' ' && s[1] == ' ' then CollapseSpaces(s[1..])
    else if |s| == 0 then ""
    else [s[0]] + CollapseSpaces(s[1..])
  }

  /** The text with every space removed. */
  function NoSpaces(s: string): string {
    if |s| == 0 then "" else (if s[0] == ' ' then "" else [s[0]]) + NoSpaces(s[1..])
  }

  /** Collapsing touches only spaces: every other character survives, in order. */
  lemma {:induction false} CollapseSpacesKeepsOthers(s: string)
    ensures NoSpaces(CollapseSpaces(s)) == NoSpaces(s)
    decreases |s|
  {
    if |s| > 0 {
      CollapseSpacesKeepsOthers(s[1..]);
      var r := CollapseSpaces(s[1..]);
      if !(|s| >= 2 && s[0] == ' ' && s[1] == ' ') {
        assert ([s[0]] + r)[1..] == r;
      }
    }
  }

  /** Text without two adjacent spaces is left alone. */
  lemma {:induction false} CollapseSpacesIdentity(s: string)
    requires forall i :: 0 <= i < |s| - 1 ==> !(s[i] == ' ' && s[i + 1] == ' ')
    ensures CollapseSpaces(s) == s
    decreases |s|
  {
    if |s| > 0 {
      CollapseSpacesIdentity(s[1..]);
      assert [s[0]] + s[1..] == s;
    }
  }

  /** A run of one or more spaces becomes a single space. */
  lemma {:induction false} CollapseSpaceRun(n: nat)
    requires n >= 1
    ensures CollapseSpaces(seq(n, _ => ' ')) == " "
  {
    var run := seq(n, _ => ' ');
    if n >= 2 {
      assert run[1..] == seq(n - 1, _ => ' ');
      CollapseSpaceRun(n - 1);
    } else {
      assert run[1..] == "";
    }
  }

  /** A character other than a space separates the text into parts collapsed independently. */
  lemma {:induction false} CollapseSpacesSplit(x: string, c: char, y: string)
    requires c != ' '
    ensures CollapseSpaces(x + [c] + y) == CollapseSpaces(x) + [c] + CollapseSpaces(y)
    decreases |x|
  {
    var s := x + [c] + y;
    if |x| == 0 {
      assert s == [c] + y;
      assert s[1..] == y;
    } else {
      assert s[1..] == x[1..] + [c] + y;
      assert s[0] == x[0];
      assert |s| >= 2 && s[1] == (if |x| >= 2 then x[1] else c);
      CollapseSpacesSplit(x[1..], c, y);
    }
  }
}
