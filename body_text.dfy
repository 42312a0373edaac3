/** The text half of `clean_body_content` in scrapy.py: the text that the
    HTML parser extracted is split into lines, each line is stripped, blank
    lines are dropped and the rest are joined with a single newline.  A
    boilerplate filter is computed beside it and its result is discarded. */
module BodyText {
  import opened Strings

  /** The characters Python's `str.strip()` removes (`str.isspace`). */
  predicate IsSpace(c: char) {
    ('\t' <= c <= '\r') || ('\U{001C}' <= c <= ' ') || c == '\U{0085}' || c == '\U{00A0}'
    || c == '\U{1680}' || ('\U{2000}' <= c <= '\U{200A}') || c == '\U{2028}' || c == '\U{2029}'
    || c == '\U{202F}' || c == '\U{205F}' || c == '\U{3000}'
  }

  /** The line boundaries of Python's `str.splitlines()`; `"\r\n"` counts as one. */
  predicate IsLineBreak(c: char) {
    ('\n' <= c <= '\r') || ('\U{001C}' <= c <= '\U{001E}') || c == '\U{0085}' || c == '\U{2028}' || c == '\U{2029}'
  }

  /** No line boundary inside `s`. */
  predicate NoBreak(s: string) {
    forall k :: 0 <= k < |s| ==> !IsLineBreak(s[k])
  }

  /** Neither end of `s` is whitespace. */
  predicate Trimmed(s: string) {
    s == [] || (!IsSpace(s[0]) && !IsSpace(s[|s| - 1]))
  }

  // ---------------------------------------------------------------------
  // str.strip()

  /** `r` is the slice of `s` at `a`, with only whitespace before and after it. */
  predicate SpaceFramed(s: string, r: string, a: nat) {
    a + |r| <= |s| && s[a..a + |r|] == r
    && (forall k :: 0 <= k < a ==> IsSpace(s[k]))
    && (forall k :: a + |r| <= k < |s| ==> IsSpace(s[k]))
  }

  /** `line.strip()`: the slice of `s` left once the whitespace at both ends
      is removed, one character at a time. */
  function Strip(s: string): (r: string)
    decreases |s|
    ensures Trimmed(r)
    ensures exists a :: SpaceFramed(s, r, a)
  {
    if s != [] && IsSpace(s[0]) then
      var r := Strip(s[1..]);
      FramedAfterSpace(s, s[1..], r);
      r
    else if s != [] && IsSpace(s[|s| - 1]) then
      var r := Strip(s[..|s| - 1]);
      FramedBeforeSpace(s, s[..|s| - 1], r);
      r
    else
      assert SpaceFramed(s, s, 0);
      s
  }

  lemma FramedAfterSpace(s: string, tail: string, r: string)
    requires s != [] && IsSpace(s[0]) && tail == s[1..]
    requires exists a :: SpaceFramed(tail, r, a)
    ensures exists a :: SpaceFramed(s, r, a)
  {
    var a: nat :| SpaceFramed(tail, r, a);
    assert s[1..][a..a + |r|] == s[a + 1..a + 1 + |r|];
    forall k | 0 < k < a + 1 ensures IsSpace(s[k]) {
      assert s[k] == s[1..][k - 1];
    }
    forall k | a + 1 + |r| <= k < |s| ensures IsSpace(s[k]) {
      assert s[k] == s[1..][k - 1];
    }
    assert SpaceFramed(s, r, a + 1);
  }

  lemma FramedBeforeSpace(s: string, init: string, r: string)
    requires s != [] && IsSpace(s[|s| - 1]) && init == s[..|s| - 1]
    requires exists a :: SpaceFramed(init, r, a)
    ensures exists a :: SpaceFramed(s, r, a)
  {
    var a: nat :| SpaceFramed(init, r, a);
    assert s[..|s| - 1][a..a + |r|] == s[a..a + |r|];
    forall k | 0 <= k < a ensures IsSpace(s[k]) {
      assert s[k] == s[..|s| - 1][k];
    }
    forall k | a + |r| <= k < |s| - 1 ensures IsSpace(s[k]) {
      assert s[k] == s[..|s| - 1][k];
    }
    assert SpaceFramed(s, r, a);
  }

  /** A trimmed string is its own `strip()`. */
  lemma StripTrimmed(s: string)
    requires Trimmed(s)
    ensures Strip(s) == s
  {
  }

  /** `strip()` is the only non-empty trimmed slice with nothing but
      whitespace around it. */
  lemma StripUnique(s: string, r: string, a: nat)
    requires r != [] && Trimmed(r) && SpaceFramed(s, r, a)
    ensures Strip(s) == r
  {
    var r' := Strip(s);
    var a': nat :| SpaceFramed(s, r', a');
    assert s[a..a + |r|][0] == s[a] && s[a..a + |r|][|r| - 1] == s[a + |r| - 1];
    if r' != [] {
      assert s[a'..a' + |r'|][0] == s[a'] && s[a'..a' + |r'|][|r'| - 1] == s[a' + |r'| - 1];
      assert a == a';
      assert a + |r| == a' + |r'|;
    }
  }

  /** Only whitespace strips to the empty string. */
  lemma StripEmpty(s: string)
    ensures Strip(s) == [] <==> forall k :: 0 <= k < |s| ==> IsSpace(s[k])
  {
    var r := Strip(s);
    var a: nat :| SpaceFramed(s, r, a);
    if r != [] {
      assert s[a..a + |r|][0] == s[a];
    }
  }

  /** A slice of a string without line boundaries has none either. */
  lemma StripNoBreak(s: string)
    requires NoBreak(s)
    ensures NoBreak(Strip(s))
  {
    var r := Strip(s);
    var a: nat :| SpaceFramed(s, r, a);
    assert s[a..a + |r|] == r;
    forall k | 0 <= k < |r| ensures !IsLineBreak(r[k]) {
      assert r[k] == s[a..a + |r|][k] == s[a + k];
    }
  }

  // ---------------------------------------------------------------------
  // str.splitlines()

  /** The index of the first line boundary at or after `i`, or `|s|`. */
  function LineEnd(s: string, i: nat): (n: nat)
    requires i <= |s|
    decreases |s| - i
    ensures i <= n <= |s|
    ensures forall k :: i <= k < n ==> !IsLineBreak(s[k])
    ensures n < |s| ==> IsLineBreak(s[n])
  {
    if i == |s| || IsLineBreak(s[i]) then i else LineEnd(s, i + 1)
  }

  /** Where the next line starts after the boundary at `n`. */
  function BreakEnd(s: string, n: nat): (e: nat)
    requires n < |s|
    ensures n < e <= |s|
    ensures e == n + 1 || e == n + 2
    ensures e == n + 2 <==> OccursAt(s, "\r\n", n)
  {
    if s[n] == '\r' && n + 1 < |s| && s[n + 1] == '\n' then n + 2 else n + 1
  }

  /** `s.splitlines()`: the lines, without their boundaries; a final boundary
      does not open one more (empty) line. */
  function SplitLines(s: string): (lines: seq<string>)
    decreases |s|
    ensures forall k :: 0 <= k < |lines| ==> NoBreak(lines[k])
  {
    if s == [] then []
    else
      var n := LineEnd(s, 0);
      if n == |s| then [s]
      else [s[..n]] + SplitLines(s[BreakEnd(s, n)..])
  }

  /** `b` is one line boundary in front of `rest`: `"\r\n"`, or a single
      boundary character that is not a `\r` followed by `\n`. */
  predicate Boundary(b: string, rest: string) {
    b == "\r\n" || (|b| == 1 && IsLineBreak(b[0]) && !(b[0] == '\r' && rest != [] && rest[0] == '\n'))
  }

  /** A line ended by any boundary is split off the front, and the boundary
      is dropped; with `rest == ""`, a final boundary opens no further line. */
  lemma SplitLinesStep(l: string, b: string, rest: string)
    requires NoBreak(l) && Boundary(b, rest)
    ensures SplitLines(l + b + rest) == [l] + SplitLines(rest)
  {
    var s := l + b + rest;
    assert forall k :: 0 <= k < |l| ==> s[k] == l[k];
    assert s[|l|] == b[0];
    assert LineEnd(s, 0) == |l|;
    assert |b| == 2 ==> s[|l| + 1] == b[1];
    assert |b| == 1 && rest != [] ==> s[|l| + 1] == rest[0];
    assert BreakEnd(s, |l|) == |l| + |b|;
    assert s[..|l|] == l && s[|l| + |b|..] == rest;
  }

  /** Joining non-empty lines that hold no boundary with `"\n"` and splitting
      the result again gives the lines back. */
  lemma {:induction false} SplitJoin(lines: seq<string>)
    requires forall k :: 0 <= k < |lines| ==> lines[k] != [] && NoBreak(lines[k])
    ensures SplitLines(Join(lines, "\n")) == lines
  {
    if |lines| == 1 {
      assert LineEnd(lines[0], 0) == |lines[0]|;
    } else if |lines| > 1 {
      var s := Join(lines, "\n");
      var l0 := lines[0];
      var rest := Join(lines[1..], "\n");
      assert s == l0 + "\n" + rest;
      assert s[|l0|] == '\n';
      assert forall k :: 0 <= k < |l0| ==> s[k] == l0[k];
      assert LineEnd(s, 0) == |l0|;
      assert s[..|l0|] == l0;
      assert BreakEnd(s, |l0|) == |l0| + 1;
      assert s[|l0| + 1..] == rest;
      SplitJoin(lines[1..]);
    }
  }

  // ---------------------------------------------------------------------
  // The normalisation

  /** `line.strip() for line in lines if line.strip()`. */
  function StrippedNonBlank(lines: seq<string>): (r: seq<string>)
    ensures |r| <= |lines|
    ensures forall k :: 0 <= k < |r| ==> r[k] != [] && Trimmed(r[k])
  {
    if lines == [] then []
    else
      var t := Strip(lines[0]);
      (if t != [] then [t] else []) + StrippedNonBlank(lines[1..])
  }

  /** A line is in the result exactly when it is the non-empty `strip()` of an input line. */
  lemma {:induction false} StrippedNonBlankMembers(lines: seq<string>, t: string)
    ensures t in StrippedNonBlank(lines) <==> t != [] && exists l :: l in lines && Strip(l) == t
  {
    if lines != [] {
      StrippedNonBlankMembers(lines[1..], t);
      var t0 := Strip(lines[0]);
      var rest := StrippedNonBlank(lines[1..]);
      assert StrippedNonBlank(lines) == (if t0 != [] then [t0] else []) + rest;
      if t in StrippedNonBlank(lines) {
        if t !in rest {
          assert t == t0 && lines[0] in lines;
        } else {
          var l :| l in lines[1..] && Strip(l) == t;
          assert l in lines;
        }
      }
      if t != [] && exists l :: l in lines && Strip(l) == t {
        var l :| l in lines && Strip(l) == t;
        if l != lines[0] {
          assert l in lines[1..];
        }
      }
    }
  }

  /** Lines that are already stripped and non-blank pass through unchanged. */
  lemma {:induction false} StrippedNonBlankFixed(lines: seq<string>)
    requires forall k :: 0 <= k < |lines| ==> lines[k] != [] && Trimmed(lines[k])
    ensures StrippedNonBlank(lines) == lines
  {
    if lines != [] {
      StripTrimmed(lines[0]);
      StrippedNonBlankFixed(lines[1..]);
    }
  }

  lemma {:induction false} StrippedNonBlankNoBreak(lines: seq<string>)
    requires forall k :: 0 <= k < |lines| ==> NoBreak(lines[k])
    ensures forall k :: 0 <= k < |StrippedNonBlank(lines)| ==> NoBreak(StrippedNonBlank(lines)[k])
  {
    if lines != [] {
      StripNoBreak(lines[0]);
      StrippedNonBlankNoBreak(lines[1..]);
    }
  }

  /** A `"\n"`-join of non-blank trimmed lines is trimmed itself. */
  lemma {:induction false} JoinTrimmed(lines: seq<string>)
    requires forall k :: 0 <= k < |lines| ==> lines[k] != [] && Trimmed(lines[k])
    ensures Trimmed(Join(lines, "\n"))
  {
    if |lines| > 1 {
      var rest := Join(lines[1..], "\n");
      JoinTrimmed(lines[1..]);
      assert rest != [] by { JoinNonEmpty(lines[1..]); }
      assert Join(lines, "\n") == lines[0] + "\n" + rest;
    }
  }

  /** Lines without boundaries joined by `"\n"`: the only boundaries are the
      separators. */
  lemma {:induction false} JoinOnlyNewlines(lines: seq<string>)
    requires forall k :: 0 <= k < |lines| ==> NoBreak(lines[k])
    ensures forall k :: 0 <= k < |Join(lines, "\n")| && IsLineBreak(Join(lines, "\n")[k]) ==>
      Join(lines, "\n")[k] == '\n'
  {
    if |lines| > 1 {
      JoinOnlyNewlines(lines[1..]);
      var rest := Join(lines[1..], "\n");
      var s := Join(lines, "\n");
      assert s == lines[0] + "\n" + rest;
      forall k | 0 <= k < |s| ensures IsLineBreak(s[k]) ==> s[k] == '\n' {
        if k < |lines[0]| {
          assert s[k] == lines[0][k] && NoBreak(lines[0]);
        } else if k > |lines[0]| {
          var m := k - |lines[0]| - 1;
          assert s[k] == rest[m] && 0 <= m < |rest|;
        } else {
          assert s[k] == "\n"[0];
        }
      }
    }
  }

  lemma {:induction false} JoinNonEmpty(lines: seq<string>)
    requires |lines| > 0 && lines[0] != []
    ensures Join(lines, "\n") != []
  {
  }

  // ---------------------------------------------------------------------
  // The boilerplate filter

  /** The characters that `str.lower()` can turn into a letter of the
      filter's ASCII terms: `A`-`Z`, and the Kelvin sign, which lowers to `k`. */
  predicate IsUpper(c: char) {
    ('A' <= c <= 'Z') || c == '\U{212A}'
  }

  /** `str.lower()` on one character, as far as the filter's terms can tell. */
  function LowerChar(c: char): char {
    if 'A' <= c <= 'Z' then (c as int + 32) as char
    else if c == '\U{212A}' then 'k'
    else c
  }

  /** `line.lower()`: no upper-case letter is left, every other character
      stays where it is, `A`-`Z` become letters of `a`-`z` and the Kelvin sign
      becomes `k`. */
  function Lower(s: string): (r: string)
    ensures |r| == |s|
    ensures forall k :: 0 <= k < |r| ==> !IsUpper(r[k])
    ensures forall k :: 0 <= k < |s| && !IsUpper(s[k]) ==> r[k] == s[k]
    ensures forall k :: 0 <= k < |s| && 'A' <= s[k] <= 'Z' ==> 'a' <= r[k] <= 'z'
    ensures forall k :: 0 <= k < |s| && 'A' <= s[k] <= 'Z' ==> r[k] as int == s[k] as int + 32
    ensures forall k :: 0 <= k < |s| && s[k] == '\U{212A}' ==> r[k] == 'k'
  {
    seq(|s|, k requires 0 <= k < |s| => LowerChar(s[k]))
  }

  /** Lowering lowered text changes nothing, so the filter's test ignores
      case: a line is boilerplate exactly when its lowered form is. */
  lemma BoilerplateOfLower(line: string)
    ensures Lower(Lower(line)) == Lower(line)
    ensures IsBoilerplate(Lower(line)) <==> IsBoilerplate(line)
  {
    assert Lower(Lower(line)) == Lower(line);
  }

  const BoilerplateTerms: seq<string> := ["cookie", "privacy policy", "consent"]

  /** `any(unwanted in line.lower() for unwanted in [...])`. */
  predicate IsBoilerplate(line: string) {
    exists w | w in BoilerplateTerms :: Contains(Lower(line), w)
  }

  /** `c` is the filter-term character `w` in either case: `w` itself, the
      upper-case form of a letter `a`-`z`, or the Kelvin sign for `k`. */
  predicate CaseMatch(c: char, w: char) {
    c == w || ('a' <= w <= 'z' && c as int == w as int - 32) || (w == 'k' && c == '\U{212A}')
  }

  /** `w` occurs in `line` at `i`, in any mix of cases. */
  predicate CaseOccursAt(line: string, w: string, i: nat) {
    i + |w| <= |line| && forall k :: 0 <= k < |w| ==> CaseMatch(line[i + k], w[k])
  }

  lemma LowerCharMatch(c: char, w: char)
    requires 'a' <= w <= 'z' || w == ' '
    ensures LowerChar(c) == w <==> CaseMatch(c, w)
  {
  }

  lemma LowerOccursAt(line: string, w: string, i: nat)
    requires forall k :: 0 <= k < |w| ==> 'a' <= w[k] <= 'z' || w[k] == ' '
    ensures OccursAt(Lower(line), w, i) <==> CaseOccursAt(line, w, i)
  {
    if i + |w| <= |line| {
      var low := Lower(line);
      forall k | 0 <= k < |w| ensures low[i + k] == w[k] <==> CaseMatch(line[i + k], w[k]) {
        LowerCharMatch(line[i + k], w[k]);
      }
      if CaseOccursAt(line, w, i) {
        assert forall k :: 0 <= k < |w| ==> low[i..i + |w|][k] == w[k];
      }
      if OccursAt(low, w, i) {
        forall k | 0 <= k < |w| ensures low[i + k] == w[k] {
          assert low[i..i + |w|][k] == w[k];
        }
      }
    }
  }

  lemma TermsLowerCase(w: string)
    requires w in BoilerplateTerms
    ensures forall k :: 0 <= k < |w| ==> 'a' <= w[k] <= 'z' || w[k] == ' '
  {
  }

  /** The filter's test ignores case: a line is boilerplate exactly when one
      of the terms occurs in it, in any mix of cases. */
  lemma BoilerplateAnyCase(line: string)
    ensures IsBoilerplate(line) <==>
      exists w: string, i: nat :: w in BoilerplateTerms && CaseOccursAt(line, w, i)
  {
    if IsBoilerplate(line) {
      var w :| w in BoilerplateTerms && Contains(Lower(line), w);
      var i :| 0 <= i <= |Lower(line)| && OccursAt(Lower(line), w, i);
      TermsLowerCase(w);
      LowerOccursAt(line, w, i);
    }
    if exists w: string, i: nat :: w in BoilerplateTerms && CaseOccursAt(line, w, i) {
      var w: string, i: nat :| w in BoilerplateTerms && CaseOccursAt(line, w, i);
      TermsLowerCase(w);
      LowerOccursAt(line, w, i);
      assert 0 <= i <= |Lower(line)| && OccursAt(Lower(line), w, i);
    }
  }

  /** `filtered_lines`: the lines of `cleaned` that hold none of the terms. */
  function FilteredLines(lines: seq<string>): (r: seq<string>)
    ensures |r| <= |lines|
  {
    if lines == [] then []
    else (if IsBoilerplate(lines[0]) then [] else [lines[0]]) + FilteredLines(lines[1..])
  }

  /** `clean_body_content` after `get_text`: the normalised text.  The filtered
      lines are computed, as in the source, and not returned. */
  function CleanBodyContent(text: string): (cleaned: string)
    ensures SplitLines(cleaned) == StrippedNonBlank(SplitLines(text))
    ensures forall k :: 0 <= k < |SplitLines(cleaned)| ==> SplitLines(cleaned)[k] != [] && Trimmed(SplitLines(cleaned)[k])
    ensures Trimmed(cleaned)
    ensures cleaned == Join(SplitLines(cleaned), "\n")
    ensures forall k :: 0 <= k < |cleaned| && IsLineBreak(cleaned[k]) ==> cleaned[k] == '\n'
  {
    var lines := StrippedNonBlank(SplitLines(text));
    var cleaned := Join(lines, "\n");
    var filtered := FilteredLines(SplitLines(cleaned));
    StrippedNonBlankNoBreak(SplitLines(text));
    SplitJoin(lines);
    JoinTrimmed(lines);
    JoinOnlyNewlines(lines);
    cleaned
  }

  // ---------------------------------------------------------------------
  // Properties

  /** Normalising normalised text changes nothing. */
  lemma CleanIdempotent(text: string)
    ensures CleanBodyContent(CleanBodyContent(text)) == CleanBodyContent(text)
  {
    var cleaned := CleanBodyContent(text);
    StrippedNonBlankFixed(SplitLines(cleaned));
    SplitJoin(SplitLines(cleaned));
  }

  /** An output line is exactly a non-blank input line, stripped. */
  lemma CleanLines(text: string, t: string)
    ensures t in SplitLines(CleanBodyContent(text)) <==>
      t != [] && exists l :: l in SplitLines(text) && Strip(l) == t
  {
    StrippedNonBlankMembers(SplitLines(text), t);
  }

  lemma {:induction false} FilteredLinesMembers(lines: seq<string>, l: string)
    ensures l in FilteredLines(lines) <==> l in lines && !IsBoilerplate(l)
  {
    if lines != [] {
      FilteredLinesMembers(lines[1..], l);
      assert forall x :: x in lines <==> x == lines[0] || x in lines[1..];
    }
  }

  lemma {:induction false} FilteredLinesShorter(lines: seq<string>, i: nat)
    requires i < |lines| && IsBoilerplate(lines[i])
    ensures |FilteredLines(lines)| < |lines|
  {
    if i > 0 {
      FilteredLinesShorter(lines[1..], i - 1);
    }
  }

  /** Boilerplate lines are still in the returned text. */
  lemma BoilerplateKept(text: string, l: string)
    requires l in SplitLines(text) && Strip(l) != [] && IsBoilerplate(Strip(l))
    ensures Strip(l) in SplitLines(CleanBodyContent(text))
  {
    CleanLines(text, Strip(l));
  }

  /** The filter has no effect on the result: when some line is boilerplate,
      joining the filtered lines would give a different string from the one returned. */
  lemma FilterDiscarded(text: string, i: nat)
    requires i < |SplitLines(CleanBodyContent(text))| && IsBoilerplate(SplitLines(CleanBodyContent(text))[i])
    ensures Join(FilteredLines(SplitLines(CleanBodyContent(text))), "\n") != CleanBodyContent(text)
  {
    var cleaned := CleanBodyContent(text);
    var lines := SplitLines(cleaned);
    var filtered := FilteredLines(lines);
    FilteredLinesShorter(lines, i);
    forall k | 0 <= k < |filtered| ensures filtered[k] != [] && NoBreak(filtered[k]) {
      FilteredLinesMembers(lines, filtered[k]);
    }
    SplitJoin(filtered);
  }

  // ---------------------------------------------------------------------
  // A worked example


  const PaddedLine := "  Hi "
  const TabbedLine := "\tYo"
  const ExampleText := PaddedLine + "\n\n" + TabbedLine + "\n"

  lemma ExampleLines()
    ensures SplitLines(ExampleText) == [PaddedLine, "", TabbedLine]
  {
    assert ExampleText == PaddedLine + "\n" + ("" + "\n" + (TabbedLine + "\n" + ""));
    SplitLinesStep(TabbedLine, "\n", "");
    SplitLinesStep("", "\n", TabbedLine + "\n" + "");
    SplitLinesStep(PaddedLine, "\n", "" + "\n" + (TabbedLine + "\n" + ""));
  }

  lemma PaddedLineStrip()
    ensures Strip(PaddedLine) == "Hi"
  {
    assert PaddedLine[2..4] == "Hi";
    assert IsSpace(PaddedLine[0]) && IsSpace(PaddedLine[1]) && IsSpace(PaddedLine[4]);
    StripUnique(PaddedLine, "Hi", 2);
  }

  lemma TabbedLineStrip()
    ensures Strip(TabbedLine) == "Yo"
  {
    assert TabbedLine[1..3] == "Yo";
    assert IsSpace(TabbedLine[0]);
    StripUnique(TabbedLine, "Yo", 1);
  }

  /** One step of the generator: the first line, stripped, if it is not blank. */
  lemma StrippedNonBlankStep(l: string, rest: seq<string>)
    ensures StrippedNonBlank([l] + rest)
      == (if Strip(l) != [] then [Strip(l)] else []) + StrippedNonBlank(rest)
  {
    assert ([l] + rest)[1..] == rest;
  }

  /** Surrounding whitespace and the blank line go; the two remaining lines are
      joined by one newline. */
  lemma CleanBodyContentExample()
    ensures CleanBodyContent(ExampleText) == "Hi" + "\n" + "Yo"
  {
    ExampleLines();
    PaddedLineStrip();
    TabbedLineStrip();
    var lines := [PaddedLine, "", TabbedLine];
    assert lines == [PaddedLine] + ([""] + ([TabbedLine] + []));
    StrippedNonBlankStep(TabbedLine, []);
    StrippedNonBlankStep("", [TabbedLine] + []);
    StrippedNonBlankStep(PaddedLine, [""] + ([TabbedLine] + []));
    assert StrippedNonBlank(lines) == ["Hi", "Yo"];
    assert Join(["Hi", "Yo"], "\n") == "Hi" + "\n" + Join(["Yo"], "\n");
  }

  const CookieLine := "Accept Cookies"

  /** The filter's test is case-insensitive: "Accept Cookies" holds "cookie". */
  lemma CookieLineIsBoilerplate()
    ensures IsBoilerplate(CookieLine)
  {
    var low := Lower(CookieLine);
    assert CookieLine[7..13] == "Cookie";
    assert low[7..13] == "cookie";
    assert OccursAt(low, BoilerplateTerms[0], 7);
    assert Contains(low, BoilerplateTerms[0]);
    assert BoilerplateTerms[0] in BoilerplateTerms;
  }

  /** ... and so the line survives normalisation, while the filtered list drops it. */
  lemma CookieLineKept()
    ensures CleanBodyContent(CookieLine) == CookieLine
    ensures FilteredLines(SplitLines(CleanBodyContent(CookieLine))) == []
  {
    assert forall k :: 0 <= k < |CookieLine| ==> CookieLine[k] != '\n' && !IsLineBreak(CookieLine[k]);
    assert LineEnd(CookieLine, 0) == |CookieLine|;
    assert SplitLines(CookieLine) == [CookieLine];
    StripTrimmed(CookieLine);
    assert StrippedNonBlank([CookieLine]) == [CookieLine];
    CookieLineIsBoilerplate();
  }
}
