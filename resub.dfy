/** The scanning discipline of Python's `re.sub` for a pattern that never
    matches the empty string and uses no anchors or look-behind: the string is
    searched left to right, each match found is replaced, and the search
    resumes right after it.  For such a pattern, whether a match starts at
    index k, and what it spans, depends only on the suffix that starts at k,
    so a pattern is given here as a `Matcher` on suffixes. */
module ReSub {
  import opened Strings

  /** A match at the start of a string: how many characters it spans and the
      text that replaces them. */
  datatype Hit = Hit(len: nat, text: string)

  /** A fixed pattern, seen as the match (if any) that starts each string. */
  type Matcher = string -> Option<Hit>

  /** Every match is non-empty and lies inside the string. */
  ghost predicate Progresses(f: Matcher) {
    forall u :: f(u).Some? ==> 0 < f(u).value.len <= |u|
  }

  /** Every match is replaced by nothing. */
  ghost predicate Deletes(f: Matcher) {
    forall u :: f(u).Some? ==> f(u).value.text == ""
  }

  /** `re.sub(pattern, repl, t)`. */
  function Sub(f: Matcher, t: string): string
    requires Progresses(f)
    decreases |t|
  {
    if t == [] then []
    else match f(t)
      case Some(h) => h.text + Sub(f, t[h.len..])
      case None => [t[0]] + Sub(f, t[1..])
  }

  /** No match starts in the first `i` characters of `t`. */
  ghost predicate NoMatchBefore(f: Matcher, t: string, i: nat)
    requires i <= |t|
  {
    forall k :: 0 <= k < i ==> f(t[k..]).None?
  }

  lemma {:induction false} NoMatchShift(f: Matcher, t: string, i: nat)
    requires 0 < i <= |t| && NoMatchBefore(f, t, i)
    ensures f(t).None? && NoMatchBefore(f, t[1..], i - 1)
  {
    assert t[0..] == t;
    forall k | 0 <= k < i - 1 ensures f(t[1..][k..]).None? {
      assert t[1..][k..] == t[k + 1..];
    }
  }

  lemma {:induction false} SubStepNone(f: Matcher, t: string)
    requires Progresses(f) && t != [] && f(t).None?
    ensures Sub(f, t) == [t[0]] + Sub(f, t[1..])
  {
  }

  lemma SplitAfterHead(t: string, i: nat)
    requires 0 < i <= |t|
    ensures [t[0]] + t[1..][..i - 1] == t[..i] && t[1..][i - 1..] == t[i..]
  {
  }

  lemma ConsAssoc(s: string, c: char, s1: string, x: string, r: string, p: string)
    requires s == [c] + s1 && s1 == x + r && p == [c] + x
    ensures s == p + r
  {
  }

  /** A prefix in which no match starts is copied verbatim. */
  lemma {:induction false} SubCopiesPrefix(f: Matcher, t: string, i: nat)
    requires Progresses(f)
    requires i <= |t| && NoMatchBefore(f, t, i)
    ensures Sub(f, t) == t[..i] + Sub(f, t[i..])
    decreases i
  {
    if i > 0 {
      NoMatchShift(f, t, i);
      SubStepNone(f, t);
      SubCopiesPrefix(f, t[1..], i - 1);
      SplitAfterHead(t, i);
      ConsAssoc(Sub(f, t), t[0], Sub(f, t[1..]), t[1..][..i - 1], Sub(f, t[i..]), t[..i]);
    }
  }

  /** With no match starting anywhere, `re.sub` returns its input. */
  lemma {:induction false} SubNoMatch(f: Matcher, t: string)
    requires Progresses(f) && NoMatchBefore(f, t, |t|)
    ensures Sub(f, t) == t
  {
    SubCopiesPrefix(f, t, |t|);
    assert t[|t|..] == [] && t[..|t|] == t;
  }

  /** The leftmost match is the first one replaced: what precedes it is kept
      verbatim, then comes its replacement, then `re.sub` of what follows it. */
  lemma {:induction false} SubLeftmost(f: Matcher, t: string, i: nat, h: Hit)
    requires Progresses(f)
    requires i <= |t| && NoMatchBefore(f, t, i) && f(t[i..]) == Some(h)
    ensures i + h.len <= |t|
    ensures Sub(f, t) == t[..i] + h.text + Sub(f, t[i + h.len..])
  {
    SubCopiesPrefix(f, t, i);
    assert t[i..][h.len..] == t[i + h.len..];
  }

  /** The same, for text `pre + u` in which the match opens `u`. */
  lemma {:induction false} SubAround(f: Matcher, pre: string, u: string, h: Hit)
    requires Progresses(f)
    requires NoMatchBefore(f, pre + u, |pre|) && f(u) == Some(h)
    ensures h.len <= |u| && Sub(f, pre + u) == pre + h.text + Sub(f, u[h.len..])
  {
    var t := pre + u;
    var i := |pre|;
    assert t[i..] == u;
    assert t[..i] == pre;
    SubLeftmost(f, t, i, h);
    assert t[i + h.len..] == u[h.len..];
  }

  /** A string that is one whole match becomes that match's replacement. */
  lemma {:induction false} SubWhole(f: Matcher, t: string, x: string)
    requires Progresses(f) && t != [] && f(t) == Some(Hit(|t|, x))
    ensures Sub(f, t) == x
  {
    assert t[|t|..] == [];
  }

  /** A substitution whose replacements are all empty only removes characters. */
  lemma {:induction false} SubDeletes(f: Matcher, t: string)
    requires Progresses(f) && Deletes(f)
    ensures IsSubsequence(Sub(f, t), t)
    decreases |t|
  {
    if t != [] {
      match f(t)
      case Some(h) =>
        assert Sub(f, t) == Sub(f, t[h.len..]);
        SubDeletes(f, t[h.len..]);
        SubsequenceOfSuffix(Sub(f, t[h.len..]), t, h.len);
      case None =>
        SubDeletes(f, t[1..]);
        assert ([t[0]] + Sub(f, t[1..]))[1..] == Sub(f, t[1..]);
    }
  }

  /** When every match starts with `c`, text without `c` is left alone. */
  lemma {:induction false} SubWithoutLead(f: Matcher, t: string, c: char)
    requires Progresses(f)
    requires forall u :: f(u).Some? ==> u != [] && u[0] == c
    requires c !in t
    ensures Sub(f, t) == t
  {
    forall k | 0 <= k < |t| ensures f(t[k..]).None? {
      assert t[k..] != [] && t[k..][0] == t[k];
    }
    SubNoMatch(f, t);
  }
}
