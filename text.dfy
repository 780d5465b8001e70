/**
 * String helpers shared by every phase of the converter: Python's `strip`,
 * `rstrip`, `split`, `join`, `isdigit` and `int`/`str` on decimal numbers,
 * over `string` (a sequence of `char`).
 */
module Text {
  import opened Wrappers

  /** The ASCII whitespace class of Python's `\s` and `str.strip()`. */
  predicate IsSpace(c: char) {
    c == ' ' || c == '\t' || c == '\n' || c == '\r' || c as int == 0x0B || c as int == 0x0C
  }

  /** `[ \t]`: the blanks that may end a line. */
  predicate IsBlank(c: char) {
    c == ' ' || c == '\t'
  }

  predicate IsDigit(c: char) {
    '0' <= c <= '9'
  }

  /** Python's `s.isdigit()` on ASCII: non-empty and all digits. */
  predicate IsDigits(s: string) {
    |s| > 0 && forall i :: 0 <= i < |s| ==> IsDigit(s[i])
  }

  predicate AllSpace(s: string) {
    forall i :: 0 <= i < |s| ==> IsSpace(s[i])
  }

  /** `s.rstrip()`. Its properties are lemma RStripSpec. */
  function RStrip(s: string): string
  {
    if |s| > 0 && IsSpace(s[|s| - 1]) then RStrip(s[..|s| - 1]) else s
  }

  /** `s.lstrip()`. Its properties are lemma LStripSpec. */
  function LStrip(s: string): string
  {
    if |s| > 0 && IsSpace(s[0]) then LStrip(s[1..]) else s
  }

  /** `s.strip()`. Its properties are lemma StripSpec. */
  function Strip(s: string): string
  {
    LStrip(RStrip(s))
  }

  /** `s.rstrip(c)` for a single character `c`. Its properties are lemma RStripCharSpec. */
  function RStripChar(s: string, c: char): string
  {
    if |s| > 0 && s[|s| - 1] == c then RStripChar(s[..|s| - 1], c) else s
  }

  /** `rstrip` removes exactly the trailing whitespace: what is left is a prefix that ends in a non-space. */
  lemma {:induction false} RStripSpec(s: string)
    ensures var r := RStrip(s);
      && |r| <= |s| && r == s[..|r|]
      && (r == [] || !IsSpace(r[|r| - 1]))
      && forall i :: |r| <= i < |s| ==> IsSpace(s[i])
  {
    if |s| > 0 && IsSpace(s[|s| - 1]) {
      RStripSpec(s[..|s| - 1]);
    }
  }

  /** `lstrip` removes exactly the leading whitespace. */
  lemma {:induction false} LStripSpec(s: string)
    ensures var r := LStrip(s);
      && |r| <= |s| && r == s[|s| - |r|..]
      && (r == [] || !IsSpace(r[0]))
      && forall i :: 0 <= i < |s| - |r| ==> IsSpace(s[i])
  {
    if |s| > 0 && IsSpace(s[0]) {
      LStripSpec(s[1..]);
    }
  }

  /** `strip` is empty exactly on all-whitespace strings and otherwise has no space at either end. */
  lemma StripSpec(s: string)
    ensures Strip(s) == [] <==> AllSpace(s)
    ensures Strip(s) != [] ==> !IsSpace(Strip(s)[0]) && !IsSpace(Strip(s)[|Strip(s)| - 1])
  {
    var t := RStrip(s);
    RStripSpec(s);
    LStripSpec(t);
    if Strip(s) != [] {
      var r := Strip(s);
      assert r == t[|t| - |r|..];
      assert r[|r| - 1] == t[|t| - 1];
    }
  }

  /** A string with no whitespace at either end is its own `strip()`. */
  lemma StripTrimmed(s: string)
    requires s == [] || (!IsSpace(s[0]) && !IsSpace(s[|s| - 1]))
    ensures Strip(s) == s
  {
  }

  /** `rstrip(c)` removes exactly the trailing run of `c`. */
  lemma {:induction false} RStripCharSpec(s: string, c: char)
    ensures var r := RStripChar(s, c);
      && |r| <= |s| && r == s[..|r|]
      && (r == [] || r[|r| - 1] != c)
      && forall i :: |r| <= i < |s| ==> s[i] == c
  {
    if |s| > 0 && s[|s| - 1] == c {
      RStripCharSpec(s[..|s| - 1], c);
    }
  }

  predicate StartsWith(s: string, p: string) {
    |p| <= |s| && s[..|p|] == p
  }

  predicate EndsWith(s: string, p: string) {
    |p| <= |s| && s[|s| - |p|..] == p
  }

  /** The substring test `p in s`. */
  predicate Contains(s: string, p: string)
    decreases |s|
  {
    StartsWith(s, p) || (|s| > 0 && Contains(s[1..], p))
  }

  /**
   * `s.split(sep)`: always at least one piece, no piece holds `sep`,
   * and joining the pieces with `sep` gives `s` back (lemma JoinSplit).
   */
  function Split(s: string, sep: char): (r: seq<string>)
    ensures |r| >= 1
    ensures forall k :: 0 <= k < |r| ==> sep !in r[k]
  {
    if |s| == 0 then [""]
    else
      var rest := Split(s[1..], sep);
      if s[0] == sep then [""] + rest
      else [[s[0]] + rest[0]] + rest[1..]
  }

  /** `sep.join(parts)`. */
  function Join(parts: seq<string>, sep: string): string
  {
    if |parts| == 0 then ""
    else if |parts| == 1 then parts[0]
    else parts[0] + sep + Join(parts[1..], sep)
  }

  lemma {:induction false} JoinSplit(s: string, sep: char)
    ensures Join(Split(s, sep), [sep]) == s
  {
    if |s| > 0 {
      JoinSplit(s[1..], sep);
      var rest := Split(s[1..], sep);
      if s[0] == sep {
        assert Split(s, sep) == [""] + rest;
      } else {
        var r := Split(s, sep);
        assert r == [[s[0]] + rest[0]] + rest[1..];
        if |rest| == 1 {
          assert Join(r, [sep]) == [s[0]] + rest[0];
        } else {
          assert r[1..] == rest[1..];
          assert Join(r, [sep]) == [s[0]] + rest[0] + [sep] + Join(rest[1..], [sep]);
        }
      }
    }
  }

  lemma {:induction false} SplitJoin(parts: seq<string>, sep: char)
    requires |parts| >= 1
    requires forall k :: 0 <= k < |parts| ==> sep !in parts[k]
    ensures Split(Join(parts, [sep]), sep) == parts
  {
    if |parts| == 1 {
      SplitNoSep(parts[0], sep);
    } else {
      SplitJoin(parts[1..], sep);
      SplitPrefix(parts[0], Join(parts[1..], [sep]), sep);
    }
  }

  lemma {:induction false} SplitNoSep(s: string, sep: char)
    requires sep !in s
    ensures Split(s, sep) == [s]
  {
    if |s| > 0 {
      assert sep !in s[1..] by { assert forall c :: c in s[1..] ==> c in s; }
      SplitNoSep(s[1..], sep);
      assert s[0] != sep by { assert s[0] in s; }
      assert [s[0]] + s[1..] == s;
    }
  }

  /** Splitting `a + [sep] + b` puts `a` first when `a` holds no separator. */
  lemma {:induction false} SplitPrefix(a: string, b: string, sep: char)
    requires sep !in a
    ensures Split(a + [sep] + b, sep) == [a] + Split(b, sep)
  {
    var s := a + [sep] + b;
    if |a| == 0 {
      assert s[0] == sep && s[1..] == b;
    } else {
      SplitPrefix(a[1..], b, sep);
      assert s[0] == a[0] && s[1..] == a[1..] + [sep] + b;
      var rest := Split(s[1..], sep);
      assert rest == [a[1..]] + Split(b, sep);
      assert rest[0] == a[1..] && rest[1..] == Split(b, sep);
      assert Split(s, sep) == [[a[0]] + rest[0]] + rest[1..];
      assert [a[0]] + a[1..] == a;
    }
  }

  /** Every character of every piece of a split comes from the string split. */
  lemma {:induction false} SplitChars(s: string, sep: char)
    ensures forall k, c :: 0 <= k < |Split(s, sep)| && c in Split(s, sep)[k] ==> c in s
  {
    if |s| > 0 {
      SplitChars(s[1..], sep);
      assert forall c :: c in s[1..] ==> c in s;
    }
  }

  /** A character in no piece and not in the separator is not in the join. */
  lemma {:induction false} JoinExcludes(parts: seq<string>, sep: string, c: char)
    requires c !in sep
    requires forall k :: 0 <= k < |parts| ==> c !in parts[k]
    ensures c !in Join(parts, sep)
  {
    if |parts| > 1 {
      JoinExcludes(parts[1..], sep, c);
    }
  }

  lemma {:induction false} JoinAppend(parts: seq<string>, last: string, sep: string)
    requires |parts| >= 1
    ensures Join(parts + [last], sep) == Join(parts, sep) + sep + last
  {
    if |parts| == 1 {
      assert parts + [last] == [parts[0], last];
    } else {
      assert (parts + [last])[1..] == parts[1..] + [last];
      JoinAppend(parts[1..], last, sep);
    }
  }

  /** Cutting a join before piece `m`: the pieces before it, each followed by the separator, then the rest. */
  lemma {:induction false} JoinSplitAt(parts: seq<string>, m: nat, sep: string)
    requires m < |parts|
    ensures Join(parts, sep) == Join(parts[..m] + [""], sep) + Join(parts[m..], sep)
  {
    if m > 0 {
      JoinSplitAt(parts[1..], m - 1, sep);
      assert parts[1..][..m - 1] == parts[..m][1..];
      assert parts[1..][m - 1..] == parts[m..];
      assert (parts[..m] + [""])[1..] == parts[1..][..m - 1] + [""];
    } else {
      assert parts[..0] + [""] == [""];
    }
  }

  function DigitValue(c: char): nat
    requires IsDigit(c)
  {
    (c as int - '0' as int) as nat
  }

  function DigitChar(d: nat): (c: char)
    requires d < 10
    ensures IsDigit(c) && DigitValue(c) == d
  {
    ('0' as int + d) as char
  }

  /** `int(s)` on a string of ASCII digits (leading zeros allowed). */
  function DigitsToNat(s: string): nat
    requires forall i :: 0 <= i < |s| ==> IsDigit(s[i])
  {
    if |s| == 0 then 0 else 10 * DigitsToNat(s[..|s| - 1]) + DigitValue(s[|s| - 1])
  }

  /** `str(n)`: the shortest decimal spelling, which `int` reads back as `n`. */
  function NatToString(n: nat): (r: string)
    ensures IsDigits(r)
    ensures |r| == 1 || r[0] != '0'
    ensures DigitsToNat(r) == n
  {
    if n < 10 then [DigitChar(n)]
    else
      var r := NatToString(n / 10) + [DigitChar(n % 10)];
      assert r[..|r| - 1] == NatToString(n / 10);
      r
  }

  lemma NatToStringInjective(m: nat, n: nat)
    requires NatToString(m) == NatToString(n)
    ensures m == n
  {
  }

  /** The first position of `c` in `s`: `s.find(c)` when it is not -1. */
  function IndexOf(s: string, c: char): (r: Option<nat>)
    ensures r.Some? ==> r.value < |s| && s[r.value] == c && c !in s[..r.value]
    ensures r.None? ==> c !in s
  {
    if |s| == 0 then None
    else if s[0] == c then Some(0)
    else match IndexOf(s[1..], c)
      case None => None
      case Some(i) => assert s[..i + 1] == [s[0]] + s[1..][..i]; Some(i + 1)
  }

  lemma IndexOfAt(a: string, c: char, rest: string)
    requires c !in a
    ensures IndexOf(a + [c] + rest, c) == Some(|a|)
  {
    var s := a + [c] + rest;
    assert s[|a|] == c;
    assert s[..|a|] == a;
    assert c in s;
  }

  /** The first index at or after `from` whose line satisfies `p`. */
  function FirstFrom(lines: seq<string>, from: nat, p: string -> bool): (r: Option<nat>)
    ensures r.Some? ==> from <= r.value < |lines| && p(lines[r.value])
    ensures r.Some? ==> forall k :: from <= k < r.value ==> !p(lines[k])
    ensures r.None? ==> forall k :: from <= k < |lines| ==> !p(lines[k])
    decreases |lines| - from
  {
    if from >= |lines| then None
    else if p(lines[from]) then Some(from)
    else FirstFrom(lines, from + 1, p)
  }

  lemma {:induction false} FirstFromIs(lines: seq<string>, from: nat, p: string -> bool, i: nat)
    requires from <= i < |lines| && p(lines[i])
    requires forall k :: from <= k < i ==> !p(lines[k])
    ensures FirstFrom(lines, from, p) == Some(i)
    decreases i - from
  {
    if from < i {
      FirstFromIs(lines, from + 1, p, i);
    }
  }

  lemma {:induction false} FirstFromNone(lines: seq<string>, from: nat, p: string -> bool)
    requires forall k :: from <= k < |lines| ==> !p(lines[k])
    ensures FirstFrom(lines, from, p) == None
    decreases |lines| - from
  {
    if from < |lines| {
      FirstFromNone(lines, from + 1, p);
    }
  }
}
