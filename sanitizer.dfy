/** The HTML sanitizer of reader.py: five deleting substitutions, then the
    optional SVG and base64-image rewrites.

    Each `re.sub` is modelled by `Sub`, which walks the input from the left:
    where a match of the pattern starts it emits the replacement and resumes
    after the match, elsewhere it copies one character.  None of the patterns
    uses anchors or look-behind, so whether a match starts at index k depends
    only on the suffix that starts there, and `MatchLen` describes the match
    at the start of a string.  None of the patterns matches the empty string. */
module Sanitizer {
  import opened Strings
  import ReSub

  /** The seven fixed patterns of reader.py:19-25.  `Svg` carries the text that
      replaces an SVG body (`new_content` of `replace_svg`). */
  datatype Pattern =
    | Script      // <[ ]*script.*?\/[ ]*script[ ]*>   (case-insensitive)
    | Style       // <[ ]*style.*?\/[ ]*style[ ]*>     (case-insensitive)
    | Meta        // <[ ]*meta.*?>                     (case-insensitive)
    | Comment     // <[ ]*!--.*?--[ ]*>
    | Link        // <[ ]*link.*?>                     (case-insensitive)
    | Svg(content: string)   // (<svg[^>]*>)(.*?)(<\/svg>)
    | Base64Img   // <img[^>]+src="data:image/[^;]+;base64,[^"]+"[^>]*>

  /** The patterns `clean_html` deletes. */
  predicate Deleting(p: Pattern) {
    p.Script? || p.Style? || p.Meta? || p.Comment? || p.Link?
  }

  const Placeholder := "this is a placeholder"
  const SvgClose := "</svg>"
  const ImgOpen := "<img"
  const DataUri := "src=\"data:image/"
  const Base64Marker := ";base64,"
  const ImgReplacement := "<img src=\"#\"/>"

  /** The letter after `<[ ]*` in a deleting pattern. */
  function Word(p: Pattern): string
    requires Deleting(p)
  {
    match p
    case Script => "script"
    case Style => "style"
    case Meta => "meta"
    case Comment => "!--"
    case Link => "link"
  }

  /** Does text character `c` match pattern character `w` under `re.IGNORECASE`?
      For an ASCII letter this is either case, plus the four non-ASCII letters
      Python's `re` documents as matching ASCII letters case-insensitively:
      U+0130 and U+0131 match `i`, U+017F matches `s`, U+212A matches `k`. */
  predicate FoldEq(c: char, w: char) {
    c == w
    || ('a' <= w <= 'z' && c as int == w as int - 32)
    || (w == 'i' && (c == '\U{0130}' || c == '\U{0131}'))
    || (w == 's' && c == '\U{017F}')
    || (w == 'k' && c == '\U{212A}')
  }

  /** The literal `w` matches `t` at `i`, case-insensitively. */
  predicate FoldOccursAt(t: string, w: string, i: nat) {
    i + |w| <= |t| && forall k :: 0 <= k < |w| ==> FoldEq(t[i + k], w[k])
  }

  /** `<[ ]*w` at the start of `t`, for the word `w` of a deleting pattern:
      `<`, the spaces in `[1, a)`, then `w` at `a`, case-insensitively. */
  predicate OpenShape(p: Pattern, t: string, a: nat)
    requires Deleting(p)
  {
    0 < |t| && t[0] == '<' && Spaces(t, 1, a) && FoldOccursAt(t, Word(p), a)
  }

  /** `\/[ ]*w[ ]*>` from `j` to `n`: `/`, the spaces in `[j + 1, a)`, `w` at
      `a` case-insensitively, the spaces up to `n - 1`, and `>` there. */
  predicate TagCloserShape(t: string, j: nat, w: string, a: nat, n: nat) {
    j < a && a + |w| < n <= |t| && t[j] == '/' && Spaces(t, j + 1, a)
    && FoldOccursAt(t, w, a) && Spaces(t, a + |w|, n - 1) && t[n - 1] == '>'
  }

  /** End of the opening part of a match at the start of `t`: the index where
      the lazy `.*?` begins.  For `Svg` this is the end of the `<svg…>` tag. */
  function OpenEnd(p: Pattern, t: string): (r: Option<nat>)
    requires !p.Base64Img?
    ensures r.Some? ==> 0 < r.value <= |t| && t[0] == '<'
    ensures r.Some? && p.Svg? ==>
      StartsWith(t, "<svg") && 5 <= r.value && t[r.value - 1] == '>'
      && forall k :: 4 <= k < r.value - 1 ==> t[k] != '>'
    ensures r.Some? && Deleting(p) ==>
      OpenShape(p, t, SkipSpaces(t, 1)) && r.value == SkipSpaces(t, 1) + |Word(p)|
  {
    if p.Svg? then
      if StartsWith(t, "<svg") then
        match FindChar(t, '>', 4)
        case Some(g) => Some(g + 1)
        case None => None
      else None
    else if |t| > 0 && t[0] == '<' then
      var a := SkipSpaces(t, 1);
      if FoldOccursAt(t, Word(p), a) then Some(a + |Word(p)|) else None
    else None
  }

  /** End of the closing part of a match when it starts at `j`. */
  function CloserEnd(p: Pattern, t: string, j: nat): (r: Option<nat>)
    requires !p.Base64Img?
    ensures r.Some? ==> j < r.value <= |t| && t[r.value - 1] == '>'
    ensures r.Some? && p.Svg? ==> OccursAt(t, SvgClose, j) && r.value == j + |SvgClose|
  {
    if j >= |t| then None
    else match p
      case Script => TagCloserEnd(t, j, "script")
      case Style => TagCloserEnd(t, j, "style")
      case Meta => if t[j] == '>' then Some(j + 1) else None
      case Link => if t[j] == '>' then Some(j + 1) else None
      case Comment =>
        if OccursAt(t, "--", j) then
          var b := SkipSpaces(t, j + 2);
          if b < |t| && t[b] == '>' then Some(b + 1) else None
        else None
      case Svg(_) => if OccursAt(t, SvgClose, j) then Some(j + |SvgClose|) else None
  }

  /** `\/[ ]*w[ ]*>` at `j`, with `w` matched case-insensitively. */
  function TagCloserEnd(t: string, j: nat, w: string): (r: Option<nat>)
    requires j < |t|
    ensures r.Some? ==> j < r.value <= |t| && t[r.value - 1] == '>' && t[j] == '/'
    ensures r.Some? ==> TagCloserShape(t, j, w, SkipSpaces(t, j + 1), r.value)
  {
    if t[j] == '/' then
      var a := SkipSpaces(t, j + 1);
      if FoldOccursAt(t, w, a) then
        var b := SkipSpaces(t, a + |w|);
        if b < |t| && t[b] == '>' then Some(b + 1) else None
      else None
    else None
  }

  /** Where the lazy `.*?` stops: the first index at or after `j` at which the
      closing part matches. */
  function NearestCloser(p: Pattern, t: string, j: nat): (r: Option<nat>)
    requires !p.Base64Img?
    decreases |t| - j
    ensures r.Some? ==> j <= r.value < |t| && CloserEnd(p, t, r.value).Some?
    ensures r.Some? ==> forall k :: j <= k < r.value ==> CloserEnd(p, t, k).None?
    ensures r.None? ==> forall k :: j <= k < |t| ==> CloserEnd(p, t, k).None?
  {
    if j >= |t| then None
    else if CloserEnd(p, t, j).Some? then Some(j)
    else NearestCloser(p, t, j + 1)
  }

  /** Conversely, the first closer at or after `j` is the one `NearestCloser` finds. */
  lemma {:induction false} NearestCloserIs(p: Pattern, t: string, j: nat, m: nat)
    requires !p.Base64Img? && j <= m
    requires forall k :: j <= k < m ==> CloserEnd(p, t, k).None?
    requires CloserEnd(p, t, m).Some?
    ensures NearestCloser(p, t, j) == Some(m)
    decreases m - j
  {
    if j < m {
      NearestCloserSkip(p, t, j);
      NearestCloserIs(p, t, j + 1, m);
    } else {
      NearestCloserHit(p, t, j);
    }
  }

  lemma NearestCloserSkip(p: Pattern, t: string, j: nat)
    requires !p.Base64Img? && CloserEnd(p, t, j).None?
    ensures NearestCloser(p, t, j) == NearestCloser(p, t, j + 1)
  {
    assert j < |t| ==> CloserEnd(p, t, j).None?;
  }

  lemma NearestCloserHit(p: Pattern, t: string, j: nat)
    requires !p.Base64Img? && CloserEnd(p, t, j).Some?
    ensures NearestCloser(p, t, j) == Some(j)
  {
  }

  /** `u` opens with `src="data:image/X;base64,Y"Z>`, where `X` is a non-empty
      run without `;` ending at `e`, `Y` a non-empty run without `"` ending
      at the quote at `q`, `Z` a run without `>`, and that `>` is the last of
      the first `n` characters. */
  predicate TailShape(u: string, e: nat, q: nat, n: nat) {
    |DataUri| < e && e + |Base64Marker| < q < n <= |u|
    && StartsWith(u, DataUri) && OccursAt(u, Base64Marker, e)
    && u[q] == '"' && u[n - 1] == '>'
    && (forall k :: |DataUri| <= k < e ==> u[k] != ';')
    && (forall k :: e + |Base64Marker| <= k < q ==> u[k] != '"')
    && (forall k :: q < k < n - 1 ==> u[k] != '>')
  }

  /** Length of `src="data:image/[^;]+;base64,[^"]+"[^>]*>` at the start of `u`.
      Every quantifier here is followed by a character it cannot consume, so
      this part of the pattern never backtracks. */
  function DataUriTail(u: string): (r: Option<nat>)
    ensures r.Some? ==> StartsWith(u, DataUri) && |DataUri| < r.value <= |u| && u[r.value - 1] == '>'
  {
    if !StartsWith(u, DataUri) then None
    else match FindChar(u, ';', |DataUri|)
      case None => None
      case Some(e) =>
        if e == |DataUri| || !OccursAt(u, Base64Marker, e) then None
        else match FindChar(u, '"', e + |Base64Marker|)
          case None => None
          case Some(q) =>
            if q == e + |Base64Marker| then None
            else match FindChar(u, '>', q + 1)
              case None => None
              case Some(h) => Some(h + 1)
  }

  /** A match of the data-URI part has that shape. */
  lemma DataUriTailShape(u: string)
    requires DataUriTail(u).Some?
    ensures exists e: nat, q: nat :: TailShape(u, e, q, DataUriTail(u).value)
  {
    var e := FindChar(u, ';', |DataUri|).value;
    var q := FindChar(u, '"', e + |Base64Marker|).value;
    assert TailShape(u, e, q, DataUriTail(u).value);
  }

  /** Conversely, text of that shape is matched, through its `>`; so the
      data-URI part fails exactly where no such shape exists. */
  lemma DataUriTailIs(u: string, e: nat, q: nat, n: nat)
    requires TailShape(u, e, q, n)
    ensures DataUriTail(u) == Some(n)
  {
    FindCharFirst(u, ';', |DataUri|, e);
    FindCharFirst(u, '"', e + |Base64Marker|, q);
    FindCharFirst(u, '>', q + 1, n - 1);
  }

  /** What follows the match plays no part in it. */
  lemma TailShapeExtend(u: string, rest: string, e: nat, q: nat, n: nat)
    requires TailShape(u, e, q, n)
    ensures TailShape(u + rest, e, q, n)
  {
    var v := u + rest;
    assert v[..|u|] == u;
    assert v[..|DataUri|] == u[..|DataUri|];
    assert v[e..e + |Base64Marker|] == u[e..e + |Base64Marker|];
  }

  /** A well-formed data URI is matched whole:
      `src="data:image/X;base64,Y"Z>` with `X` non-empty and free of `;`,
      `Y` non-empty and free of `"`, `Z` free of `>`. */
  lemma DataUriTailOf(x: string, y: string, z: string, rest: string)
    requires x != "" && ';' !in x && y != "" && '"' !in y && '>' !in z
    ensures var tag := DataUri + x + Base64Marker + y + "\"" + z + ">";
      DataUriTail(tag + rest) == Some(|tag|)
  {
    var tag := DataUri + x + Base64Marker + y + "\"" + z + ">";
    var e := |DataUri| + |x|;
    var q := e + |Base64Marker| + |y|;
    assert tag[..|DataUri|] == DataUri;
    assert tag[e..e + |Base64Marker|] == Base64Marker;
    forall k | |DataUri| <= k < e ensures tag[k] != ';' {
      assert tag[k] == x[k - |DataUri|];
    }
    forall k | e + |Base64Marker| <= k < q ensures tag[k] != '"' {
      assert tag[k] == y[k - e - |Base64Marker|];
    }
    forall k | q < k < |tag| - 1 ensures tag[k] != '>' {
      assert tag[k] == z[k - q - 1];
    }
    assert TailShape(tag, e, q, |tag|);
    TailShapeExtend(tag, rest, e, q, |tag|);
    DataUriTailIs(tag + rest, e, q, |tag|);
  }

  /** The greedy `[^>]+` after `<img` backtracks from the right: the largest
      `p <= hi` (and `p >= 5`) where the data-URI part matches wins. */
  function LastDataUri(t: string, hi: nat): (r: Option<nat>)
    requires hi <= |t|
    ensures r.Some? ==> exists p :: 5 <= p <= hi && p + |DataUri| < r.value <= |t| && OccursAt(t, DataUri, p)
    ensures r.Some? ==> t[r.value - 1] == '>'
  {
    if hi < 5 then None
    else match DataUriTail(t[hi..])
      case Some(m) =>
        DataUriTailInPlace(t, hi);
        Some(hi + m)
      case None => LastDataUri(t, hi - 1)
  }

  /** Where the data-URI part starts, for a match `LastDataUri` found at `p`. */
  predicate LastStart(t: string, hi: nat, p: nat, n: nat)
    requires hi <= |t|
  {
    5 <= p <= hi && DataUriTail(t[p..]).Some? && n == p + DataUriTail(t[p..]).value
    && forall q: nat :: p < q <= hi ==> DataUriTail(t[q..]).None?
  }

  /** What `LastDataUri` finds comes from the largest start in `[5, hi]` where
      the data-URI part matches. */
  lemma {:induction false} LastDataUriLargest(t: string, hi: nat)
    requires hi <= |t| && LastDataUri(t, hi).Some?
    ensures exists p: nat :: LastStart(t, hi, p, LastDataUri(t, hi).value)
  {
    if DataUriTail(t[hi..]).Some? {
      LastStartAtHi(t, hi);
    } else {
      LastDataUriSkip(t, hi);
      LastDataUriLargest(t, hi - 1);
      var p: nat :| LastStart(t, hi - 1, p, LastDataUri(t, hi - 1).value);
      LastStartBelowHi(t, hi, p, LastDataUri(t, hi - 1).value);
    }
  }

  lemma LastStartAtHi(t: string, hi: nat)
    requires 5 <= hi <= |t| && DataUriTail(t[hi..]).Some?
    ensures LastDataUri(t, hi).Some? && LastStart(t, hi, hi, LastDataUri(t, hi).value)
  {
    LastDataUriHit(t, hi);
  }

  lemma LastStartBelowHi(t: string, hi: nat, p: nat, n: nat)
    requires 1 <= hi <= |t| && DataUriTail(t[hi..]).None? && LastStart(t, hi - 1, p, n)
    ensures LastStart(t, hi, p, n)
  {
    NoneAbove(t, p, hi);
  }

  /** `LastDataUri` finds nothing only when no start in `[5, hi]` matches. */
  lemma {:induction false} LastDataUriNone(t: string, hi: nat)
    requires hi <= |t| && LastDataUri(t, hi).None?
    ensures forall q: nat :: 4 < q <= hi ==> DataUriTail(t[q..]).None?
  {
    if hi >= 5 {
      if DataUriTail(t[hi..]).Some? {
        LastDataUriHit(t, hi);
      } else {
        LastDataUriSkip(t, hi);
        LastDataUriNone(t, hi - 1);
        NoneAbove(t, 4, hi);
      }
    }
  }

  /** No start in `(lo, hi - 1]` matches and none at `hi`: none in `(lo, hi]`. */
  lemma NoneAbove(t: string, lo: nat, hi: nat)
    requires 1 <= hi <= |t| && DataUriTail(t[hi..]).None?
    requires forall q: nat :: lo < q <= hi - 1 ==> DataUriTail(t[q..]).None?
    ensures forall q: nat :: lo < q <= hi ==> DataUriTail(t[q..]).None?
  {
    forall q: nat | lo < q <= hi ensures DataUriTail(t[q..]).None? {
      if q < hi {
        assert lo < q <= hi - 1;
      }
    }
  }

  /** A tail match on the suffix at `hi`, in terms of `t` itself. */
  lemma DataUriTailInPlace(t: string, hi: nat)
    requires hi <= |t| && DataUriTail(t[hi..]).Some?
    ensures var m := DataUriTail(t[hi..]).value;
      OccursAt(t, DataUri, hi) && hi + |DataUri| < hi + m <= |t| && t[hi + m - 1] == '>'
  {
    var u := t[hi..];
    var m := DataUriTail(u).value;
    assert u[0..|DataUri|] == t[hi..hi + |DataUri|];
    assert u[m - 1] == t[hi + m - 1];
  }

  /** Conversely, the largest `p <= hi` where the data-URI part matches is the
      one `LastDataUri` finds. */
  lemma {:induction false} LastDataUriIs(t: string, hi: nat, p: nat)
    requires 5 <= p <= hi <= |t|
    requires forall q :: p < q <= hi ==> DataUriTail(t[q..]).None?
    requires DataUriTail(t[p..]).Some?
    ensures LastDataUri(t, hi) == Some(p + DataUriTail(t[p..]).value)
    decreases hi - p
  {
    if p < hi {
      LastDataUriSkip(t, hi);
      LastDataUriIs(t, hi - 1, p);
    } else {
      LastDataUriHit(t, hi);
    }
  }

  lemma LastDataUriHit(t: string, hi: nat)
    requires 5 <= hi <= |t| && DataUriTail(t[hi..]).Some?
    ensures LastDataUri(t, hi) == Some(hi + DataUriTail(t[hi..]).value)
  {
  }

  lemma LastDataUriSkip(t: string, hi: nat)
    requires 5 <= hi <= |t| && DataUriTail(t[hi..]).None?
    ensures LastDataUri(t, hi) == LastDataUri(t, hi - 1)
  {
  }

  /** `p` is a start that the greedy `[^>]+` after `<img` can give back to:
      at least one character after `<img`, no `>` before it, and the data-URI
      part matches there. */
  predicate UriStart(t: string, p: nat) {
    5 <= p <= |t| && (forall k :: 4 <= k < p ==> t[k] != '>') && DataUriTail(t[p..]).Some?
  }

  /** A start the pattern can use lies before the first `>` after `<img`. */
  lemma UriStartBeforeGt(t: string, g: nat, p: nat)
    requires g == |t| || (4 <= g < |t| && t[g] == '>')
    requires UriStart(t, p)
    ensures p < g
  {
    if g == |t| {
      assert p < |t|;
    }
  }

  /** Length of the base64 `<img>` match at the start of `t`. */
  function Base64Len(t: string): (r: Option<nat>)
    ensures r.Some? ==> StartsWith(t, ImgOpen) && 0 < r.value <= |t| && t[0] == '<' && t[r.value - 1] == '>'
    ensures r.Some? ==> exists p :: 5 <= p && p + |DataUri| < r.value && OccursAt(t, DataUri, p)
                          && forall k :: 4 <= k < p ==> t[k] != '>'
  {
    if !StartsWith(t, ImgOpen) then None
    else
      assert t[0] == t[..4][0];
      var g := FirstGt(t);
      if g < 5 then None else LastDataUri(t, g - 1)
  }

  /** Where `[^>]+` after `<img` must stop: the first `>` from index 4 on, or the end. */
  function FirstGt(t: string): (g: nat)
    ensures g == |t| || (4 <= g < |t| && t[g] == '>')
    ensures forall k :: 4 <= k < g ==> t[k] != '>'
  {
    match FindChar(t, '>', 4) case Some(g) => g case None => |t|
  }

  /** Every usable start lies before `FirstGt`. */
  lemma UriStartBelowFirstGt(t: string)
    ensures forall p: nat :: UriStart(t, p) ==> p < FirstGt(t)
  {
    forall p: nat | UriStart(t, p) ensures p < FirstGt(t) {
      UriStartBeforeGt(t, FirstGt(t), p);
    }
  }

  /** A base64 match ends where the data-URI part at the last usable start ends. */
  lemma Base64LenLargest(t: string)
    requires Base64Len(t).Some?
    ensures exists p: nat :: UriStart(t, p) && Base64Len(t).value == p + DataUriTail(t[p..]).value
                          && forall q: nat :: p < q ==> !UriStart(t, q)
  {
    var g := FirstGt(t);
    Base64LenUnfold(t);
    LastDataUriLargest(t, g - 1);
    var p: nat :| LastStart(t, g - 1, p, LastDataUri(t, g - 1).value);
    LastStartUsable(t, p, LastDataUri(t, g - 1).value);
  }

  /** The largest start below the first `>` is the last usable one. */
  lemma LastStartUsable(t: string, p: nat, n: nat)
    requires 5 <= FirstGt(t) && LastStart(t, FirstGt(t) - 1, p, n)
    ensures UriStart(t, p) && n == p + DataUriTail(t[p..]).value
    ensures forall q: nat :: p < q ==> !UriStart(t, q)
  {
    UriStartBelowFirstGt(t);
  }

  /** There is no base64 match only when `t` does not open with `<img` or no
      start is usable. */
  lemma Base64LenNone(t: string)
    requires Base64Len(t).None?
    ensures !StartsWith(t, ImgOpen) || forall p: nat :: !UriStart(t, p)
  {
    if StartsWith(t, ImgOpen) {
      var g := FirstGt(t);
      UriStartBelowFirstGt(t);
      if g >= 5 {
        LastDataUriNone(t, g - 1);
      }
    }
  }

  /** Length of the match of `p` at the start of `t`, if one starts there.
      Every match begins with `<` and ends with `>`. */
  function MatchLen(p: Pattern, t: string): (r: Option<nat>)
    ensures r.Some? ==> 0 < r.value <= |t| && t[0] == '<' && t[r.value - 1] == '>'
  {
    if p.Base64Img? then
      Base64Len(t)
    else match OpenEnd(p, t)
      case None => None
      case Some(o) =>
        match NearestCloser(p, t, o)
        case None => None
        case Some(j) => CloserEnd(p, t, j)
  }

  /** The text that replaces a match of length `n` at the start of `t`. */
  function Replacement(p: Pattern, t: string, n: nat): string
    requires MatchLen(p, t) == Some(n)
  {
    match p
    case Svg(c) => t[..OpenEnd(p, t).value] + c + SvgClose
    case Base64Img => ImgReplacement
    case _ => ""
  }

  /** The pattern as `re.sub` uses it: the match at the start of a string and
      its replacement. */
  function Matcher(p: Pattern): ReSub.Matcher {
    u => match MatchLen(p, u)
         case Some(n) => Some(ReSub.Hit(n, Replacement(p, u, n)))
         case None => None
  }

  lemma MatcherProgresses(p: Pattern)
    ensures ReSub.Progresses(Matcher(p))
  {
    forall u | Matcher(p)(u).Some? ensures 0 < Matcher(p)(u).value.len <= |u| {
      MatchLenBounds(p, u);
    }
  }

  lemma MatchLenBounds(p: Pattern, u: string)
    requires Matcher(p)(u).Some?
    ensures MatchLen(p, u).Some? && Matcher(p)(u).value.len == MatchLen(p, u).value <= |u|
  {
  }

  /** `re.sub(pattern, replacement, t)` for one of the fixed patterns. */
  function Sub(p: Pattern, t: string): string {
    MatcherProgresses(p);
    ReSub.Sub(Matcher(p), t)
  }

  /** `replace_svg(html, new_content)`. */
  function ReplaceSvg(html: string, newContent: string): string {
    Sub(Svg(newContent), html)
  }

  /** `replace_base64_images(html)` with its default `new_image_src` of `#`. */
  function ReplaceBase64Images(html: string): string {
    Sub(Base64Img, html)
  }

  /** The five unconditional deletions of `clean_html`, in their order. */
  function RemoveTags(html: string): string {
    Sub(Link, Sub(Comment, Sub(Meta, Sub(Style, Sub(Script, html)))))
  }

  /** `clean_html(html, clean_svg, clean_base64)`. */
  function CleanHtml(html: string, cleanSvg: bool, cleanBase64: bool): string {
    var h := RemoveTags(html);
    var h := if cleanSvg then ReplaceSvg(h, Placeholder) else h;
    if cleanBase64 then ReplaceBase64Images(h) else h
  }

  // ---------------------------------------------------------------------
  // Properties of the substitutions

  lemma MatcherDeletes(p: Pattern)
    requires Deleting(p)
    ensures ReSub.Deletes(Matcher(p))
  {
    forall u | Matcher(p)(u).Some? ensures Matcher(p)(u).value.text == "" {
      var n := MatchLen(p, u).value;
      assert Replacement(p, u, n) == "";
    }
  }

  /** A deleting pattern only removes characters. */
  lemma {:induction false} SubDeletes(p: Pattern, t: string)
    requires Deleting(p)
    ensures IsSubsequence(Sub(p, t), t)
  {
    MatcherProgresses(p);
    MatcherDeletes(p);
    ReSub.SubDeletes(Matcher(p), t);
  }

  /** Every pattern starts with `<`, so text without `<` is left alone. */
  lemma NoAngleUnchanged(p: Pattern, t: string)
    requires '<' !in t
    ensures Sub(p, t) == t
  {
    MatcherProgresses(p);
    ReSub.SubWithoutLead(Matcher(p), t, '<');
  }

  /** No deleting pattern matches anywhere in `t`. */
  ghost predicate FreeOfRemovable(t: string) {
    forall k :: 0 <= k < |t| ==>
      MatchLen(Script, t[k..]).None? && MatchLen(Style, t[k..]).None? && MatchLen(Meta, t[k..]).None?
      && MatchLen(Comment, t[k..]).None? && MatchLen(Link, t[k..]).None?
  }

  lemma NoMatchUnchanged(p: Pattern, t: string)
    requires forall k :: 0 <= k < |t| ==> MatchLen(p, t[k..]).None?
    ensures Sub(p, t) == t
  {
    MatcherProgresses(p);
    ReSub.SubNoMatch(Matcher(p), t);
  }

  // ---------------------------------------------------------------------
  // clean_html

  /** With both flags false `clean_html` only deletes characters, so its
      result is never longer than its input. */
  lemma CleanHtmlDeletes(html: string)
    ensures IsSubsequence(CleanHtml(html, false, false), html)
    ensures |CleanHtml(html, false, false)| <= |html|
  {
    var h1 := Sub(Script, html);
    var h2 := Sub(Style, h1);
    var h3 := Sub(Meta, h2);
    var h4 := Sub(Comment, h3);
    var h5 := Sub(Link, h4);
    SubDeletes(Script, html);
    SubDeletes(Style, h1);
    SubDeletes(Meta, h2);
    SubDeletes(Comment, h3);
    SubDeletes(Link, h4);
    SubsequenceTrans(h2, h1, html);
    SubsequenceTrans(h3, h2, html);
    SubsequenceTrans(h4, h3, html);
    SubsequenceTrans(h5, h4, html);
    SubsequenceLength(h5, html);
  }

  /** Input without `<` comes back unchanged, whatever the flags. */
  lemma CleanHtmlNoAngle(html: string, cleanSvg: bool, cleanBase64: bool)
    requires '<' !in html
    ensures CleanHtml(html, cleanSvg, cleanBase64) == html
  {
    NoAngleUnchanged(Script, html);
    NoAngleUnchanged(Style, html);
    NoAngleUnchanged(Meta, html);
    NoAngleUnchanged(Comment, html);
    NoAngleUnchanged(Link, html);
    NoAngleUnchanged(Svg(Placeholder), html);
    NoAngleUnchanged(Base64Img, html);
  }

  /** On input that holds no script, style, meta, comment or link construct,
      `clean_html` with both flags false is the identity. */
  lemma CleanHtmlFreeUnchanged(html: string)
    requires FreeOfRemovable(html)
    ensures CleanHtml(html, false, false) == html
  {
    NoMatchUnchanged(Script, html);
    NoMatchUnchanged(Style, html);
    NoMatchUnchanged(Meta, html);
    NoMatchUnchanged(Comment, html);
    NoMatchUnchanged(Link, html);
  }

  // ---------------------------------------------------------------------
  // replace_svg and replace_base64_images

  /** A matched SVG element keeps its `<svg…>` opening tag and the nearest
      following `</svg>` verbatim; only what lies between them is replaced. */
  lemma SvgKeepsTags(c: string, t: string, n: nat)
    requires MatchLen(Svg(c), t) == Some(n)
    ensures var o := OpenEnd(Svg(c), t).value;
      && StartsWith(t, "<svg") && 5 <= o <= n - |SvgClose| && t[o - 1] == '>'
      && (forall k :: 4 <= k < o - 1 ==> t[k] != '>')
      && OccursAt(t, SvgClose, n - |SvgClose|)
      && (forall j :: o <= j < n - |SvgClose| ==> !OccursAt(t, SvgClose, j))
      && Replacement(Svg(c), t, n) == t[..o] + c + t[n - |SvgClose|..n]
  {
    var o := OpenEnd(Svg(c), t).value;
    var j := NearestCloser(Svg(c), t, o).value;
    assert n == j + |SvgClose|;
    forall k | o <= k < j ensures !OccursAt(t, SvgClose, k) {
      assert CloserEnd(Svg(c), t, k).None?;
    }
  }

  /** An `<svg…>` tag followed, anywhere after it, by `</svg>` is matched, and
      the match ends no later than that `</svg>`. */
  lemma SvgMatched(c: string, t: string, g: nat, j: nat)
    requires StartsWith(t, "<svg") && FindChar(t, '>', 4) == Some(g)
    requires g + 1 <= j && OccursAt(t, SvgClose, j)
    ensures MatchLen(Svg(c), t).Some? && MatchLen(Svg(c), t).value <= j + |SvgClose|
  {
    assert OpenEnd(Svg(c), t) == Some(g + 1);
    assert CloserEnd(Svg(c), t, j).Some?;
    var m := NearestCloser(Svg(c), t, g + 1);
    assert m.Some? && m.value <= j;
  }

  lemma OccursInSuffix(t: string, w: string, k: nat, i: nat)
    requires k <= |t| && OccursAt(t[k..], w, i)
    ensures OccursAt(t, w, k + i)
  {
    assert t[k..][i..i + |w|] == t[k + i..k + i + |w|];
  }

  /** Text in which `<svg` never occurs is left alone by `replace_svg`. */
  lemma ReplaceSvgNoSvg(t: string, c: string)
    requires !Contains(t, "<svg")
    ensures ReplaceSvg(t, c) == t
  {
    forall k | 0 <= k < |t| ensures MatchLen(Svg(c), t[k..]).None? {
      if MatchLen(Svg(c), t[k..]).Some? {
        OccursInSuffix(t, "<svg", k, 0);
      }
    }
    NoMatchUnchanged(Svg(c), t);
  }

  /** Text in which `src="data:image/` never occurs is left alone by
      `replace_base64_images`. */
  lemma ReplaceBase64NoDataUri(t: string)
    requires !Contains(t, DataUri)
    ensures ReplaceBase64Images(t) == t
  {
    forall k | 0 <= k < |t| ensures MatchLen(Base64Img, t[k..]).None? {
      if MatchLen(Base64Img, t[k..]).Some? {
        var p :| 5 <= p && OccursAt(t[k..], DataUri, p);
        OccursInSuffix(t, DataUri, k, p);
      }
    }
    NoMatchUnchanged(Base64Img, t);
  }

  // ---------------------------------------------------------------------
  // Which tags replace_base64_images rewrites

  /** Conversely, when `t` opens with `<img`, the last usable start decides the match. */
  lemma Base64LenIs(t: string, p: nat)
    requires StartsWith(t, ImgOpen) && UriStart(t, p)
    requires forall q: nat :: p < q ==> !UriStart(t, q)
    ensures Base64Len(t) == Some(p + DataUriTail(t[p..]).value)
  {
    var g := FirstGt(t);
    UriStartBeforeGt(t, g, p);
    NoLaterTail(t, p, g);
    Base64LenFromLast(t, p, g);
  }

  lemma NoLaterTail(t: string, p: nat, g: nat)
    requires g == FirstGt(t) && 5 <= p < g
    requires forall q: nat :: p < q ==> !UriStart(t, q)
    ensures forall q: nat :: p < q <= g - 1 ==> DataUriTail(t[q..]).None?
  {
    forall q: nat | p < q <= g - 1 ensures DataUriTail(t[q..]).None? {
      assert !UriStart(t, q);
    }
  }

  lemma Base64LenFromLast(t: string, p: nat, g: nat)
    requires StartsWith(t, ImgOpen) && g == FirstGt(t) && 5 <= p < g
    requires DataUriTail(t[p..]).Some?
    requires forall q: nat :: p < q <= g - 1 ==> DataUriTail(t[q..]).None?
    ensures Base64Len(t) == Some(p + DataUriTail(t[p..]).value)
  {
    LastDataUriIs(t, g - 1, p);
    Base64LenUnfold(t);
  }

  lemma Base64LenUnfold(t: string)
    requires StartsWith(t, ImgOpen) && FirstGt(t) >= 5
    ensures Base64Len(t) == LastDataUri(t, FirstGt(t) - 1)
  {
  }

  lemma MatchLenOfBase64(t: string, n: nat)
    requires Base64Len(t) == Some(n)
    ensures MatchLen(Base64Img, t) == Some(n)
  {
  }

  /** `t` opens with an `<img …>` tag of `n` characters that `[^>]+` reaches
      through at least one character free of `>`, whose data URI starts at `p`
      and is well formed through the tag's closing `>`, and after which no
      second `src="data:image/` starts before the first `>` past `<img`. */
  predicate ImgTag(t: string, p: nat, n: nat) {
    StartsWith(t, ImgOpen) && 5 <= p < n <= |t|
    && (forall k :: 4 <= k < p ==> t[k] != '>')
    && DataUriTail(t[p..]) == Some(n - p)
    && forall q :: p < q < FirstGt(t) ==> !OccursAt(t, DataUri, q)
  }

  lemma ImgTagStart(t: string, p: nat, n: nat)
    requires ImgTag(t, p, n)
    ensures UriStart(t, p)
  {
  }

  lemma NoTailWithoutUri(t: string, q: nat)
    requires q <= |t| && !OccursAt(t, DataUri, q)
    ensures DataUriTail(t[q..]).None?
  {
  }

  /** No start after `p` is usable: before the first `>` none begins, and
      from that `>` on `[^>]+` cannot reach one. */
  lemma ImgTagNoLaterStart(t: string, p: nat)
    requires forall q :: p < q < FirstGt(t) ==> !OccursAt(t, DataUri, q)
    ensures forall q: nat :: p < q ==> !UriStart(t, q)
  {
    forall q: nat | p < q ensures !UriStart(t, q) {
      if q < FirstGt(t) {
        NoTailWithoutUri(t, q);
      } else if UriStart(t, q) {
        UriStartBeforeGt(t, FirstGt(t), q);
      }
    }
  }

  lemma Base64LenAt(t: string, p: nat, n: nat)
    requires StartsWith(t, ImgOpen) && UriStart(t, p) && DataUriTail(t[p..]) == Some(n - p)
    requires forall q: nat :: p < q ==> !UriStart(t, q)
    ensures Base64Len(t) == Some(n)
  {
    Base64LenIs(t, p);
  }

  /** Such a tag is one whole match of the base64 pattern. */
  lemma Base64TagMatched(t: string, p: nat, n: nat)
    requires ImgTag(t, p, n)
    ensures MatchLen(Base64Img, t) == Some(n)
  {
    ImgTagStart(t, p, n);
    ImgTagNoLaterStart(t, p);
    Base64LenAt(t, p, n);
    MatchLenOfBase64(t, n);
  }

  lemma NoMatchBeforeOf(p: Pattern, t: string, i: nat)
    requires i <= |t| && forall k :: 0 <= k < i ==> MatchLen(p, t[k..]).None?
    ensures ReSub.NoMatchBefore(Matcher(p), t, i)
  {
    forall k | 0 <= k < i ensures Matcher(p)(t[k..]).None? {
      assert MatchLen(p, t[k..]).None?;
    }
  }

  lemma MatcherHit(p: Pattern, u: string, n: nat)
    requires MatchLen(p, u) == Some(n)
    ensures Matcher(p)(u) == Some(ReSub.Hit(n, Replacement(p, u, n)))
  {
  }

  /** Where the first match of `p` in `pre + u` opens `u`, `re.sub` keeps
      `pre`, emits the replacement and resumes after the match. */
  lemma SubAfter(p: Pattern, pre: string, u: string, n: nat)
    requires forall k :: 0 <= k < |pre| ==> MatchLen(p, (pre + u)[k..]).None?
    requires MatchLen(p, u) == Some(n)
    ensures n <= |u| && Sub(p, pre + u) == pre + Replacement(p, u, n) + Sub(p, u[n..])
  {
    MatcherProgresses(p);
    NoMatchBeforeOf(p, pre + u, |pre|);
    MatcherHit(p, u, n);
    ReSub.SubAround(Matcher(p), pre, u, ReSub.Hit(n, Replacement(p, u, n)));
  }

  /** `replace_base64_images` turns such a tag into `<img src="#"/>`: the text
      before it, in which no match starts, is kept, and the scan resumes after
      the tag. */
  lemma ReplaceBase64Tag(pre: string, u: string, p: nat, n: nat)
    requires forall k :: 0 <= k < |pre| ==> MatchLen(Base64Img, (pre + u)[k..]).None?
    requires ImgTag(u, p, n)
    ensures ReplaceBase64Images(pre + u) == pre + ImgReplacement + ReplaceBase64Images(u[n..])
  {
    Base64TagMatched(u, p, n);
    SubAfter(Base64Img, pre, u, n);
  }

  // The deleting patterns, stated by the shape of what they match.

  /** `OpenEnd` finds every `<[ ]*w` opening, where `w` is the pattern's word
      matched case-insensitively. */
  lemma OpenEndIs(p: Pattern, t: string, a: nat)
    requires Deleting(p) && OpenShape(p, t, a)
    ensures OpenEnd(p, t) == Some(a + |Word(p)|)
  {
    assert FoldEq(t[a + 0], Word(p)[0]);
    SkipSpacesIs(t, 1, a);
  }

  /** `TagCloserEnd` finds every `\/[ ]*w[ ]*>` closer whose word does not
      begin with a space. */
  lemma TagCloserEndIs(t: string, j: nat, w: string, a: nat, n: nat)
    requires TagCloserShape(t, j, w, a, n) && 0 < |w| && w[0] != ' '
    ensures TagCloserEnd(t, j, w) == Some(n)
  {
    assert FoldEq(t[a + 0], w[0]);
    SkipSpacesIs(t, j + 1, a);
    SkipSpacesIs(t, a + |w|, n - 1);
  }

  /** The closing part of a deleting pattern spans `[j, n)`: `\/[ ]*script[ ]*>`
      or `\/[ ]*style[ ]*>` (case-insensitive), `>` alone for meta and link,
      and `--[ ]*>` for a comment. */
  ghost predicate CloserShape(p: Pattern, t: string, j: nat, n: nat)
    requires Deleting(p)
  {
    match p
    case Script => exists a :: TagCloserShape(t, j, "script", a, n)
    case Style => exists a :: TagCloserShape(t, j, "style", a, n)
    case Meta => j < |t| && t[j] == '>' && n == j + 1
    case Link => j < |t| && t[j] == '>' && n == j + 1
    case Comment =>
      OccursAt(t, "--", j) && j + 2 < n <= |t| && Spaces(t, j + 2, n - 1) && t[n - 1] == '>'
  }

  /** A closer `CloserEnd` finds has that shape. */
  lemma CloserEndShape(p: Pattern, t: string, j: nat)
    requires Deleting(p) && CloserEnd(p, t, j).Some?
    ensures CloserShape(p, t, j, CloserEnd(p, t, j).value)
  {
    if p.Script? || p.Style? {
      assert TagCloserShape(t, j, Word(p), SkipSpaces(t, j + 1), CloserEnd(p, t, j).value);
    }
  }

  lemma CloserEndIs(p: Pattern, t: string, j: nat, n: nat)
    requires Deleting(p) && CloserShape(p, t, j, n)
    ensures CloserEnd(p, t, j) == Some(n)
  {
    match p
    case Script =>
      var a :| TagCloserShape(t, j, "script", a, n);
      TagCloserEndIs(t, j, "script", a, n);
    case Style =>
      var a :| TagCloserShape(t, j, "style", a, n);
      TagCloserEndIs(t, j, "style", a, n);
    case Meta =>
    case Link =>
    case Comment =>
      SkipSpacesIs(t, j + 2, n - 1);
  }

  /** A match of a deleting pattern spans `[0, n)` of `t`: the opening
      `<[ ]*w` with `w` at `a`, the lazy `.*?` up to `j`, and the closer in
      `[j, n)`, with no closer starting anywhere between the word and `j`. */
  ghost predicate DeletingShape(p: Pattern, t: string, a: nat, j: nat, n: nat)
    requires Deleting(p)
  {
    OpenShape(p, t, a) && a + |Word(p)| <= j && CloserShape(p, t, j, n)
    && forall k, m :: a + |Word(p)| <= k < j ==> !CloserShape(p, t, k, m)
  }

  /** Every match of a deleting pattern has that shape... */
  lemma DeletingMatchShape(p: Pattern, t: string)
    requires Deleting(p) && MatchLen(p, t).Some?
    ensures exists a, j :: DeletingShape(p, t, a, j, MatchLen(p, t).value)
  {
    var a := SkipSpaces(t, 1);
    var o := OpenEnd(p, t).value;
    var j := NearestCloser(p, t, o).value;
    var n := CloserEnd(p, t, j).value;
    assert MatchLen(p, t).value == n;
    assert o == a + |Word(p)|;
    CloserEndShape(p, t, j);
    NoCloserShape(p, t, o, j);
    assert DeletingShape(p, t, a, j, n);
  }

  lemma NoCloserShape(p: Pattern, t: string, o: nat, j: nat)
    requires Deleting(p) && forall k :: o <= k < j ==> CloserEnd(p, t, k).None?
    ensures forall k, m :: o <= k < j ==> !CloserShape(p, t, k, m)
  {
    forall k, m | o <= k < j ensures !CloserShape(p, t, k, m) {
      if CloserShape(p, t, k, m) {
        CloserEndIs(p, t, k, m);
      }
    }
  }

  /** ...and everything of that shape is the match. */
  lemma DeletingMatchIs(p: Pattern, t: string, a: nat, j: nat, n: nat)
    requires Deleting(p) && DeletingShape(p, t, a, j, n)
    ensures MatchLen(p, t) == Some(n)
  {
    var o := a + |Word(p)|;
    OpenEndIs(p, t, a);
    NoCloserEnd(p, t, o, j);
    CloserEndIs(p, t, j, n);
    MatchLenOfParts(p, t, o, j, n);
  }

  lemma MatchLenOfParts(p: Pattern, t: string, o: nat, j: nat, n: nat)
    requires !p.Base64Img? && OpenEnd(p, t) == Some(o) && o <= j
    requires forall k :: o <= k < j ==> CloserEnd(p, t, k).None?
    requires CloserEnd(p, t, j) == Some(n)
    ensures MatchLen(p, t) == Some(n)
  {
    NearestCloserIs(p, t, o, j);
  }

  lemma NoCloserEnd(p: Pattern, t: string, o: nat, j: nat)
    requires Deleting(p) && forall k, m :: o <= k < j ==> !CloserShape(p, t, k, m)
    ensures forall k :: o <= k < j ==> CloserEnd(p, t, k).None?
  {
    forall k | o <= k < j ensures CloserEnd(p, t, k).None? {
      if CloserEnd(p, t, k).Some? {
        CloserEndShape(p, t, k);
      }
    }
  }

  /** `re.sub(p, "", …)` deletes such a construct: the text before it, in
      which no match starts, is kept, and the scan resumes after it. */
  lemma DeleteConstruct(p: Pattern, pre: string, u: string, a: nat, j: nat, n: nat)
    requires Deleting(p)
    requires forall k :: 0 <= k < |pre| ==> MatchLen(p, (pre + u)[k..]).None?
    requires DeletingShape(p, u, a, j, n)
    ensures n <= |u| && Sub(p, pre + u) == pre + Sub(p, u[n..])
  {
    DeletingMatchIs(p, u, a, j, n);
    SubAfter(p, pre, u, n);
    DeletedReplacement(p, u, n);
    assert pre + "" == pre;
  }

  lemma DeletedReplacement(p: Pattern, u: string, n: nat)
    requires Deleting(p) && MatchLen(p, u) == Some(n)
    ensures Replacement(p, u, n) == ""
  {
  }

  const ImgAttrs := "<img alt=\"a\" "
  const ImgData := "gif"
  const ImgTail := "R0\">"
  const ImgUri := DataUri + ImgData + Base64Marker + ImgTail
  const ImgPart := ImgAttrs + ImgUri

  /** A data-URI part cannot start where the next 16 characters hold no `s`. */
  lemma DataUriNeedsS(t: string, lo: nat, hi: nat)
    requires lo <= hi <= |t| && 's' !in t[lo..hi]
    ensures forall q :: lo <= q < hi ==> DataUriTail(t[q..]).None?
  {
    forall q | lo <= q < hi ensures DataUriTail(t[q..]).None? {
      assert t[q] in t[lo..hi];
      assert t[q..][0] == t[q];
    }
  }

  lemma ImgExampleFirstGt()
    ensures |ImgPart| == 44 && FindChar(ImgPart, '>', 4) == Some(43)
  {
    var t := ImgPart;
    assert '>' !in t[4..43] && t[43] == '>';
    FindCharAt(t, '>', 4, 43);
  }

  /** The data-URI part of the example matches through its closing `>`. */
  lemma ImgUriTail()
    ensures DataUriTail(ImgUri) == Some(31)
  {
    var u := ImgUri;
    assert |u| == 31 && u[..|DataUri|] == DataUri;
    assert u[16] == 'g' && u[17] == 'i' && u[18] == 'f' && u[19] == ';';
    FindCharAt(u, ';', |DataUri|, 19);
    assert u[19..27] == Base64Marker;
    assert u[27] == 'R' && u[28] == '0' && u[29] == '"' && u[30] == '>';
    FindCharAt(u, '"', 27, 29);
    FindCharAt(u, '>', 30, 30);
  }

  lemma ImgExampleDataUri()
    ensures ImgPart[13..] == ImgUri
    ensures DataUriTail(ImgPart[13..]) == Some(31)
  {
    assert |ImgAttrs| == 13;
    ImgUriTail();
  }

  lemma ImgExampleNoLaterUri()
    ensures forall q :: 13 < q <= 42 ==> DataUriTail(ImgPart[q..]).None?
  {
    var t := ImgPart;
    assert |t| == 44;
    assert 's' !in t[14..29];
    DataUriNeedsS(t, 14, 29);
  }

  /** The whole tag is one match: `[^>]+` gives back characters until the
      data URI lines up. */
  lemma Base64ExampleSpan()
    ensures MatchLen(Base64Img, ImgPart) == Some(|ImgPart|)
  {
    ImgExampleFirstGt();
    ImgExampleDataUri();
    ImgExampleNoLaterUri();
    LastDataUriIs(ImgPart, 42, 13);
  }

  /** A string that is one match becomes its replacement. */
  lemma {:induction false} SubWholeMatch(p: Pattern, t: string)
    requires MatchLen(p, t) == Some(|t|)
    ensures Sub(p, t) == Replacement(p, t, |t|)
  {
    MatcherProgresses(p);
    ReSub.SubWhole(Matcher(p), t, Replacement(p, t, |t|));
  }

  /** `replace_base64_images` turns the example tag into `<img src="#"/>`. */
  lemma ReplaceBase64Example()
    ensures ReplaceBase64Images(ImgPart) == ImgReplacement
  {
    Base64ExampleSpan();
    SubWholeMatch(Base64Img, ImgPart);
  }

  // ---------------------------------------------------------------------
  // A worked example

  /** A deleting match needs `<` followed by a space or by the first letter of
      its word. */
  lemma DeletingMatchStart(p: Pattern, t: string)
    requires Deleting(p) && MatchLen(p, t).Some?
    ensures |t| >= 2 && t[0] == '<' && (t[1] == ' ' || FoldEq(t[1], Word(p)[0]))
  {
    var a := SkipSpaces(t, 1);
    assert FoldOccursAt(t, Word(p), a);
    assert FoldEq(t[a], Word(p)[0]);
  }

  lemma NoDeletingMatch(p: Pattern, t: string)
    requires Deleting(p)
    requires |t| < 2 || t[0] != '<' || (t[1] != ' ' && !FoldEq(t[1], Word(p)[0]))
    ensures MatchLen(p, t).None?
  {
    if MatchLen(p, t).Some? {
      DeletingMatchStart(p, t);
    }
  }

  /** `<p>Hello</p>` holds no `<` followed by a space, `s`, `m`, `!` or `l`. */
  lemma ParagraphUntouched(p: Pattern)
    requires Deleting(p)
    ensures Sub(p, Paragraph) == Paragraph
  {
    var u := Paragraph;
    var w := Word(p)[0];
    assert w == 's' || w == 'm' || w == '!' || w == 'l';
    forall k | 0 <= k < |u| ensures MatchLen(p, u[k..]).None? {
      var v := u[k..];
      if k == 0 || k == 8 {
        assert v[1] == 'p' || v[1] == '/';
      } else {
        assert v[0] != '<';
      }
      NoDeletingMatch(p, v);
    }
    NoMatchUnchanged(p, u);
  }

  const ScriptPart := "<script>alert(1)</script>"
  const Paragraph := "<p>Hello</p>"

  lemma ScriptExampleOpen()
    ensures OpenEnd(Script, ScriptPart + Paragraph) == Some(7)
  {
    var s := ScriptPart + Paragraph;
    assert s[0] == '<' && s[1] == 's';
    assert FoldOccursAt(s, "script", 1);
  }

  lemma ScriptExampleCloser()
    ensures forall k :: 7 <= k < 17 ==> CloserEnd(Script, ScriptPart + Paragraph, k).None?
    ensures CloserEnd(Script, ScriptPart + Paragraph, 17) == Some(25)
  {
    var s := ScriptPart + Paragraph;
    assert |ScriptPart| == 25;
    forall k | 7 <= k < 17 ensures CloserEnd(Script, s, k).None? {
      assert s[k] != '/';
    }
    assert s[17] == '/' && s[18] == 's' && s[24] == '>';
    assert FoldOccursAt(s, "script", 18);
    assert SkipSpaces(s, 18) == 18 && SkipSpaces(s, 24) == 24;
  }

  /** The script span of the example runs from its `<` to the `>` of `</script>`. */
  lemma ScriptExampleSpan()
    ensures MatchLen(Script, ScriptPart + Paragraph) == Some(|ScriptPart|)
  {
    ScriptExampleOpen();
    ScriptExampleCloser();
    NearestCloserIs(Script, ScriptPart + Paragraph, 7, 17);
  }

  lemma CleanHtmlExample()
    ensures CleanHtml(ScriptPart + Paragraph, false, false) == Paragraph
  {
    var s := ScriptPart + Paragraph;
    ScriptExampleSpan();
    MatcherProgresses(Script);
    var f := Matcher(Script);
    assert s[0..] == s && s[..0] == [] && s[|ScriptPart|..] == Paragraph;
    assert Replacement(Script, s, 25) == "";
    assert f(s) == Some(ReSub.Hit(25, ""));
    ReSub.SubLeftmost(f, s, 0, ReSub.Hit(25, ""));
    assert ReSub.Sub(f, s) == ReSub.Sub(f, Paragraph);
    ParagraphUntouched(Script);
    ParagraphUntouched(Style);
    ParagraphUntouched(Meta);
    ParagraphUntouched(Comment);
    ParagraphUntouched(Link);
  }

  const UpperScript := "<SCRIPT >x</ Script >"

  lemma UpperScriptOpen()
    ensures OpenEnd(Script, UpperScript) == Some(7)
  {
    var s := UpperScript;
    assert s[0] == '<' && s[1] == 'S';
    assert SkipSpaces(s, 1) == 1 && FoldOccursAt(s, "script", 1);
  }

  lemma UpperScriptCloser()
    ensures forall k :: 7 <= k < 11 ==> CloserEnd(Script, UpperScript, k).None?
    ensures CloserEnd(Script, UpperScript, 11) == Some(21)
  {
    var s := UpperScript;
    assert |s| == 21;
    forall k | 7 <= k < 11 ensures CloserEnd(Script, s, k).None? {
      assert s[k] != '/';
    }
    assert s[11] == '/' && s[12] == ' ' && s[13] == 'S';
    assert SkipSpaces(s, 12) == 13 && FoldOccursAt(s, "script", 13);
    assert s[19] == ' ' && s[20] == '>';
    assert SkipSpaces(s, 19) == 20;
  }

  /** Matching is case-insensitive and allows spaces where the pattern has `[ ]*`. */
  lemma UpperScriptSpan()
    ensures MatchLen(Script, UpperScript) == Some(|UpperScript|)
  {
    UpperScriptOpen();
    UpperScriptCloser();
    NearestCloserIs(Script, UpperScript, 7, 11);
  }

  const SvgOpen := "<svg width=\"1\">"
  const SvgBody := "<path/>"

  lemma SvgExampleSpan()
    ensures MatchLen(Svg(Placeholder), SvgOpen + SvgBody + SvgClose) == Some(28)
    ensures OpenEnd(Svg(Placeholder), SvgOpen + SvgBody + SvgClose) == Some(|SvgOpen|)
  {
    var p := Svg(Placeholder);
    var t := SvgOpen + SvgBody + SvgClose;
    assert |SvgOpen| == 15 && |t| == 28;
    assert StartsWith(t, "<svg");
    assert '>' !in t[4..14] && t[14] == '>';
    assert FindChar(t, '>', 4) == Some(14);
    assert OpenEnd(p, t) == Some(15);
    assert t[16] == 'p' && '<' !in t[16..22];
    forall k | 15 <= k < 22 ensures CloserEnd(p, t, k).None? {
      if k == 15 {
        assert t[k + 1] != '/';
      } else {
        assert t[k] in t[16..22];
      }
    }
    assert t[22..28] == SvgClose;
    assert CloserEnd(p, t, 22) == Some(28);
    NearestCloserIs(p, t, 15, 22);
  }

  /** `replace_svg` keeps the example's tags and swaps its body for the placeholder. */
  lemma ReplaceSvgExample()
    ensures ReplaceSvg(SvgOpen + SvgBody + SvgClose, Placeholder) == SvgOpen + Placeholder + SvgClose
  {
    var t := SvgOpen + SvgBody + SvgClose;
    SvgExampleSpan();
    SubWholeMatch(Svg(Placeholder), t);
    assert t[..|SvgOpen|] == SvgOpen;
  }

}
