/**
 * The whitespace steps that end cleanup_misc (openevidence_converter.py:522-529):
 * runs of three or more line breaks become two, blanks at the end of every
 * line are removed, and the text ends in exactly one line break.
 */
module Cleanup {
  import opened Text

  /** The number of line breaks `s` starts with. */
  function NewlineRun(s: string): (r: nat)
    ensures r <= |s|
    ensures forall i :: 0 <= i < r ==> s[i] == '\n'
    ensures r == |s| || s[r] != '\n'
  {
    if |s| > 0 && s[0] == '\n' then 1 + NewlineRun(s[1..]) else 0
  }

  /** The number of blanks (`[ \t]`) `s` starts with. */
  function BlankRun(s: string): (r: nat)
    ensures r <= |s|
    ensures forall i :: 0 <= i < r ==> IsBlank(s[i])
    ensures r == |s| || !IsBlank(s[r])
  {
    if |s| > 0 && IsBlank(s[0]) then 1 + BlankRun(s[1..]) else 0
  }

  /** `re.sub(r'\n{3,}', '\n\n', s)`. */
  function CollapseNewlines(s: string): string
    decreases |s|
  {
    if |s| == 0 then ""
    else if s[0] == '\n' then
      var n := NewlineRun(s);
      (if n >= 3 then "\n\n" else s[..n]) + CollapseNewlines(s[n..])
    else [s[0]] + CollapseNewlines(s[1..])
  }

  /** `re.sub(r'[ \t]+$', '', s, flags=re.MULTILINE)`: a blank run before a line break or the end goes. */
  function StripLineEnds(s: string): string
    decreases |s|
  {
    if |s| == 0 then ""
    else if IsBlank(s[0]) then
      var n := BlankRun(s);
      (if n == |s| || s[n] == '\n' then "" else s[..n]) + StripLineEnds(s[n..])
    else [s[0]] + StripLineEnds(s[1..])
  }

  /** `s.rstrip() + '\n'`. */
  function FinalNewline(s: string): string {
    RStrip(s) + "\n"
  }

  /** The three steps in the order the code runs them. */
  function CleanupTail(s: string): string {
    FinalNewline(StripLineEnds(CollapseNewlines(s)))
  }

  /** The same steps with the line-end stripping first, so that no emptied line can rejoin a run. */
  function CleanupTailFixed(s: string): string {
    FinalNewline(CollapseNewlines(StripLineEnds(s)))
  }

  // ----- What the steps promise -----

  /** "max 2 consecutive newlines". */
  predicate NoTripleNewline(s: string) {
    forall i :: 0 <= i && i + 2 < |s| ==> !(s[i] == '\n' && s[i + 1] == '\n' && s[i + 2] == '\n')
  }

  /** No line ends in a blank: every blank is followed by something other than a line break. */
  predicate NoTrailingBlank(s: string) {
    forall i :: 0 <= i < |s| && IsBlank(s[i]) ==> i + 1 < |s| && s[i + 1] != '\n'
  }

  /** The text ends in one line break, with no whitespace before it. */
  predicate EndsInOneNewline(s: string) {
    |s| > 0 && s[|s| - 1] == '\n' && (|s| == 1 || !IsSpace(s[|s| - 2]))
  }

  /** Collapsing keeps the first character. */
  lemma CollapseNewlinesFirst(s: string)
    requires |s| > 0
    ensures |CollapseNewlines(s)| > 0 && CollapseNewlines(s)[0] == s[0]
  {
    if s[0] == '\n' {
      var n := NewlineRun(s);
      var head := if n >= 3 then "\n\n" else s[..n];
      assert CollapseNewlines(s) == head + CollapseNewlines(s[n..]);
      assert head[0] == '\n';
    }
  }

  /** Collapsing never leaves three line breaks in a row. */
  lemma {:induction false} CollapseNewlinesSpec(s: string)
    ensures NoTripleNewline(CollapseNewlines(s))
    decreases |s|
  {
    if |s| > 0 {
      if s[0] == '\n' {
        var n := NewlineRun(s);
        CollapseNewlinesSpec(s[n..]);
        if n < |s| {
          CollapseNewlinesFirst(s[n..]);
        }
        RunThenCollapsed(if n >= 3 then "\n\n" else s[..n], CollapseNewlines(s[n..]));
      } else {
        CollapseNewlinesSpec(s[1..]);
        CharThenCollapsed(s[0], CollapseNewlines(s[1..]));
      }
    }
  }

  /** At most two line breaks followed by text that neither starts with one nor holds three. */
  lemma RunThenCollapsed(head: string, rest: string)
    requires |head| <= 2 && forall i :: 0 <= i < |head| ==> head[i] == '\n'
    requires |rest| == 0 || rest[0] != '\n'
    requires NoTripleNewline(rest)
    ensures NoTripleNewline(head + rest)
  {
    var out := head + rest;
    forall i | 0 <= i && i + 2 < |out|
      ensures !(out[i] == '\n' && out[i + 1] == '\n' && out[i + 2] == '\n')
    {
      if i >= |head| {
        assert out[i] == rest[i - |head|] && out[i + 1] == rest[i + 1 - |head|] && out[i + 2] == rest[i + 2 - |head|];
      } else if i + 1 == |head| {
        assert out[i + 1] == rest[0];
      } else {
        assert out[i + 2] == rest[0];
      }
    }
  }

  /** One character in front of text with no three line breaks in a row. */
  lemma CharThenCollapsed(c: char, rest: string)
    requires c != '\n'
    requires NoTripleNewline(rest)
    ensures NoTripleNewline([c] + rest)
  {
    var out := [c] + rest;
    forall i | 0 <= i && i + 2 < |out|
      ensures !(out[i] == '\n' && out[i + 1] == '\n' && out[i + 2] == '\n')
    {
      if i > 0 {
        assert out[i] == rest[i - 1] && out[i + 1] == rest[i] && out[i + 2] == rest[i + 1];
      }
    }
  }

  /** Collapsing keeps every line free of trailing blanks. */
  lemma {:induction false} CollapseNewlinesKeepsLineEnds(s: string)
    requires NoTrailingBlank(s)
    ensures NoTrailingBlank(CollapseNewlines(s))
    decreases |s|
  {
    if |s| > 0 {
      var out := CollapseNewlines(s);
      if s[0] == '\n' {
        var n := NewlineRun(s);
        var rest := CollapseNewlines(s[n..]);
        var head := if n >= 3 then "\n\n" else s[..n];
        assert NoTrailingBlank(s[n..]);
        CollapseNewlinesKeepsLineEnds(s[n..]);
        assert out == head + rest;
        forall i | 0 <= i < |out| && IsBlank(out[i])
          ensures i + 1 < |out| && out[i + 1] != '\n'
        {
          assert out[i] == rest[i - |head|];
        }
      } else {
        var rest := CollapseNewlines(s[1..]);
        assert NoTrailingBlank(s[1..]);
        CollapseNewlinesKeepsLineEnds(s[1..]);
        if |s| > 1 {
          CollapseNewlinesFirst(s[1..]);
        }
        assert out == [s[0]] + rest;
        forall i | 0 <= i < |out| && IsBlank(out[i])
          ensures i + 1 < |out| && out[i + 1] != '\n'
        {
          if i > 0 {
            assert out[i] == rest[i - 1];
          } else {
            assert 1 < |s| && s[1] != '\n';
            assert out[1] == rest[0];
          }
        }
      }
    }
  }

  /** Text already free of long line-break runs is left alone. */
  lemma {:induction false} CollapseNewlinesIdentity(s: string)
    requires NoTripleNewline(s)
    ensures CollapseNewlines(s) == s
    decreases |s|
  {
    if |s| > 0 {
      if s[0] == '\n' {
        if |s| >= 3 {
          assert !(s[0] == '\n' && s[1] == '\n' && s[2] == '\n');
        }
        var n := NewlineRun(s);
        assert NoTripleNewline(s[n..]);
        CollapseNewlinesIdentity(s[n..]);
        assert s == s[..n] + s[n..];
      } else {
        assert NoTripleNewline(s[1..]);
        CollapseNewlinesIdentity(s[1..]);
        assert s == [s[0]] + s[1..];
      }
    }
  }

  /** Stripping line ends keeps a non-blank first character and leaves no line ending in a blank. */
  lemma {:induction false} StripLineEndsSpec(s: string)
    ensures |s| > 0 && !IsBlank(s[0]) ==> |StripLineEnds(s)| > 0 && StripLineEnds(s)[0] == s[0]
    ensures NoTrailingBlank(StripLineEnds(s))
    decreases |s|
  {
    if |s| > 0 {
      var out := StripLineEnds(s);
      if IsBlank(s[0]) {
        var n := BlankRun(s);
        var rest := StripLineEnds(s[n..]);
        StripLineEndsSpec(s[n..]);
        if n == |s| || s[n] == '\n' {
          assert out == rest;
        } else {
          assert out == s[..n] + rest;
          assert rest[0] == s[n];
          forall i | 0 <= i < |out| && IsBlank(out[i])
            ensures i + 1 < |out| && out[i + 1] != '\n'
          {
            if i >= n {
              assert out[i] == rest[i - n];
            } else if i + 1 < n {
              assert out[i + 1] == s[i + 1];
            } else {
              assert out[i + 1] == rest[0];
            }
          }
        }
      } else {
        var rest := StripLineEnds(s[1..]);
        StripLineEndsSpec(s[1..]);
        assert out == [s[0]] + rest;
        forall i | 0 <= i < |out| && IsBlank(out[i])
          ensures i + 1 < |out| && out[i + 1] != '\n'
        {
          assert i > 0;
          assert out[i] == rest[i - 1];
        }
      }
    }
  }

  /** Text with no line ending in a blank is left alone. */
  lemma {:induction false} StripLineEndsIdentity(s: string)
    requires NoTrailingBlank(s)
    ensures StripLineEnds(s) == s
    decreases |s|
  {
    if |s| > 0 {
      if IsBlank(s[0]) {
        var n := BlankRun(s);
        assert IsBlank(s[n - 1]);
        assert NoTrailingBlank(s[n..]);
        StripLineEndsIdentity(s[n..]);
        assert s == s[..n] + s[n..];
      } else {
        assert NoTrailingBlank(s[1..]);
        StripLineEndsIdentity(s[1..]);
        assert s == [s[0]] + s[1..];
      }
    }
  }

  /** The final step ends the text in one line break and keeps both properties. */
  lemma FinalNewlineSpec(s: string)
    ensures EndsInOneNewline(FinalNewline(s))
    ensures NoTripleNewline(s) ==> NoTripleNewline(FinalNewline(s))
    ensures NoTrailingBlank(s) ==> NoTrailingBlank(FinalNewline(s))
  {
    var r := RStrip(s);
    RStripSpec(s);
    var out := r + "\n";
    assert out[|out| - 1] == '\n';
    if NoTripleNewline(s) {
      forall i | 0 <= i && i + 2 < |out|
        ensures !(out[i] == '\n' && out[i + 1] == '\n' && out[i + 2] == '\n')
      {
        if i + 2 < |r| {
          assert out[i] == s[i] && out[i + 1] == s[i + 1] && out[i + 2] == s[i + 2];
        } else {
          assert out[|r| - 1] == r[|r| - 1];
        }
      }
    }
    if NoTrailingBlank(s) {
      forall i | 0 <= i < |out| && IsBlank(out[i])
        ensures i + 1 < |out| && out[i + 1] != '\n'
      {
        assert i < |r| && out[i] == r[i];
        assert i + 1 < |r|;
        assert out[i] == s[i] && out[i + 1] == s[i + 1];
      }
    }
  }

  /** In the code's order the text still ends in one line break and no line ends in a blank. */
  lemma CleanupTailSpec(s: string)
    ensures EndsInOneNewline(CleanupTail(s))
    ensures NoTrailingBlank(CleanupTail(s))
  {
    StripLineEndsSpec(CollapseNewlines(s));
    FinalNewlineSpec(StripLineEnds(CollapseNewlines(s)));
  }

  /** A character that is not a blank passes through line-end stripping. */
  lemma StripKeeps(c: char, t: string)
    requires !IsBlank(c)
    ensures StripLineEnds([c] + t) == [c] + StripLineEnds(t)
  {
    assert ([c] + t)[1..] == t;
  }

  /** A lone blank before a line break vanishes. */
  lemma StripBlankBeforeBreak(t: string)
    requires |t| > 0 && t[0] == '\n'
    ensures StripLineEnds([' '] + t) == StripLineEnds(t)
  {
    var u := [' '] + t;
    assert u[1..] == t;
    assert BlankRun(u[1..]) == 0;
    assert BlankRun(u) == 1;
  }

  /** Text without blanks passes through line-end stripping unchanged. */
  lemma {:induction false} StripNoBlanks(t: string)
    requires forall i :: 0 <= i < |t| ==> !IsBlank(t[i])
    ensures StripLineEnds(t) == t
  {
    if |t| > 0 {
      StripNoBlanks(t[1..]);
      StripKeeps(t[0], t[1..]);
      assert [t[0]] + t[1..] == t;
    }
  }

  /** Stripping line ends in the example empties the blank line between two line breaks. */
  lemma StripExample(s: string)
    requires s == "a\n\n \n\nb"
    ensures StripLineEnds(s) == "a\n\n\n\nb"
  {
    var tail := s[4..];
    assert tail == "\n\nb";
    StripNoBlanks(tail);
    StripBlankBeforeBreak(tail);
    assert s[3..] == [' '] + tail;
    StripKeeps('\n', s[3..]);
    assert s[2..] == ['\n'] + s[3..];
    StripKeeps('\n', s[2..]);
    assert s[1..] == ['\n'] + s[2..];
    StripKeeps('a', s[1..]);
    assert s == ['a'] + s[1..];
  }

  /** The example has no three adjacent line breaks, so collapsing leaves it alone. */
  lemma CollapseExample(s: string)
    requires s == "a\n\n \n\nb"
    ensures CollapseNewlines(s) == s
  {
    assert NoTripleNewline(s) by {
      forall i | 0 <= i && i + 2 < |s|
        ensures !(s[i] == '\n' && s[i + 1] == '\n' && s[i + 2] == '\n')
      {
        assert i < 5;
      }
    }
    CollapseNewlinesIdentity(s);
  }

  /** ... but a line of blanks between two blank lines leaves four line breaks in a row. */
  lemma CleanupTailKeepsLongRuns(s: string)
    requires s == "a\n\n \n\nb"
    ensures CleanupTail(s) == "a\n\n\n\nb\n"
    ensures !NoTripleNewline(CleanupTail(s))
  {
    CollapseExample(s);
    StripExample(s);
    var t := StripLineEnds(s);
    assert t[|t| - 1] == 'b';
    assert RStrip(t) == t;
    var out := CleanupTail(s);
    assert out == t + "\n";
    assert out[1] == '\n' && out[2] == '\n' && out[3] == '\n';
  }

  /** Stripping first: at most two line breaks in a row, no line ending in a blank, one final line break. */
  lemma CleanupTailFixedSpec(s: string)
    ensures NoTripleNewline(CleanupTailFixed(s))
    ensures NoTrailingBlank(CleanupTailFixed(s))
    ensures EndsInOneNewline(CleanupTailFixed(s))
  {
    var t := StripLineEnds(s);
    StripLineEndsSpec(s);
    CollapseNewlinesSpec(t);
    CollapseNewlinesKeepsLineEnds(t);
    FinalNewlineSpec(CollapseNewlines(t));
  }

  /** A text already in that shape goes through the fixed tail unchanged. */
  lemma CleanupTailFixedIdempotent(s: string)
    ensures CleanupTailFixed(CleanupTailFixed(s)) == CleanupTailFixed(s)
  {
    var out := CleanupTailFixed(s);
    CleanupTailFixedSpec(s);
    StripLineEndsIdentity(out);
    CollapseNewlinesIdentity(out);
    RStripSpec(out);
    assert RStrip(out) == out[..|out| - 1];
  }
}
