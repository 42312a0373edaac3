/** `split_dom_content` of scrapy.py: the text is cut into consecutive
    slices of `max_length` characters, as the list comprehension
    `[dom_content[i : i + max_length] for i in range(0, len(dom_content), max_length)]`
    produces them. */
module Chunker {
  import opened Strings

  const DefaultMaxLength := 6000

  /** What the comprehension evaluates to: the list of chunks, or the
      `ValueError` that `range` raises for a step of zero. */
  datatype Outcome = Chunks(parts: seq<string>) | ValueError

  /** The chunks whose start indices are `i, i + step, ...` below `|s|`; the
      slice end is clamped to `|s|`, as Python slicing does.  Every chunk is
      non-empty and at most `step` long. */
  function ChunksFrom(s: string, step: nat, i: nat): (r: seq<string>)
    requires step > 0
    decreases |s| - i
    ensures forall k :: 0 <= k < |r| ==> 0 < |r[k]| <= step
  {
    if i >= |s| then [] else [s[i..Min(i + step, |s|)]] + ChunksFrom(s, step, i + step)
  }

  /** `split_dom_content(dom_content, max_length)`. */
  function SplitDomContent(s: string, maxLength: int): (r: Outcome)
    ensures r.ValueError? <==> maxLength == 0
    ensures maxLength < 0 ==> r == Chunks([])
    ensures maxLength > 0 ==> r.Chunks? && Concat(r.parts) == s
    ensures maxLength > 0 ==> r.Chunks? && forall k :: 0 <= k < |r.parts| ==> 0 < |r.parts[k]| <= maxLength
  {
    if maxLength == 0 then ValueError
    else if maxLength < 0 then Chunks([])
    else
      ChunksConcat(s, maxLength, 0);
      assert s[0..] == s;
      Chunks(ChunksFrom(s, maxLength, 0))
  }

  /** `split_dom_content(dom_content)`, with `max_length` left at its default
      of 6000: never an error, and a text of at most 6000 characters is one
      chunk (none when it is empty). */
  function SplitDomContentDefault(s: string): (r: Outcome)
    ensures r.Chunks? && Concat(r.parts) == s
    ensures |r.parts| == (|s| + DefaultMaxLength - 1) / DefaultMaxLength
    ensures 0 < |s| <= DefaultMaxLength ==> r.parts == [s]
  {
    ChunkCount(s, DefaultMaxLength);
    assert 0 < |s| <= DefaultMaxLength ==> SplitDomContent(s, DefaultMaxLength) == Chunks([s]) by {
      if 0 < |s| <= DefaultMaxLength {
        ShortTextOneChunk(s, DefaultMaxLength);
      }
    }
    SplitDomContent(s, DefaultMaxLength)
  }

  // ---------------------------------------------------------------------
  // Properties of the chunks

  /** The chunks from `i` on concatenate back to `s[i..]`. */
  lemma {:induction false} ChunksConcat(s: string, step: nat, i: nat)
    requires step > 0 && i <= |s|
    ensures Concat(ChunksFrom(s, step, i)) == s[i..]
    decreases |s| - i
  {
    if i < |s| {
      var e := Min(i + step, |s|);
      var rest := ChunksFrom(s, step, i + step);
      assert ChunksFrom(s, step, i)[1..] == rest;
      if i + step <= |s| {
        ChunksConcat(s, step, i + step);
      } else {
        assert rest == [];
      }
      assert s[i..] == s[i..e] + s[e..];
    }
  }

  /** The `k`-th chunk from `i` is the slice that starts at `i + k * step`. */
  lemma {:induction false} ChunkAt(s: string, step: nat, i: nat, k: nat)
    requires step > 0 && k < |ChunksFrom(s, step, i)|
    ensures i + k * step < |s|
    ensures ChunksFrom(s, step, i)[k] == s[i + k * step..Min(i + k * step + step, |s|)]
    decreases k
  {
    if k > 0 {
      assert i < |s|;
      assert ChunksFrom(s, step, i)[k] == ChunksFrom(s, step, i + step)[k - 1];
      ChunkAt(s, step, i + step, k - 1);
      MulPred(k, step);
    }
  }

  lemma MulPred(k: int, d: int)
    ensures (k - 1) * d + d == k * d
  {
  }

  lemma DivStep(x: int, d: int)
    requires d > 0
    ensures (x + d) / d == x / d + 1
  {
    var q, r := x / d, x % d;
    var q', r' := (x + d) / d, (x + d) % d;
    assert (q' - q - 1) * d == r - r' by {
      assert x == q * d + r && x + d == q' * d + r';
    }
    MulAwayFromZero(q' - q - 1, d);
  }

  lemma MulAwayFromZero(m: int, d: int)
    requires d > 0
    ensures m >= 1 ==> m * d >= d
    ensures m <= -1 ==> m * d <= -d
  {
  }

  /** Chunking from `i` yields the ceiling of `(|s| - i) / step` chunks. */
  lemma {:induction false} ChunksCountFrom(s: string, step: nat, i: nat)
    requires step > 0 && i < |s| + step
    ensures |ChunksFrom(s, step, i)| == (|s| - i + step - 1) / step
    decreases |s| - i
  {
    if i < |s| {
      ChunksCountFrom(s, step, i + step);
      DivStep(|s| - (i + step) + step - 1, step);
    } else {
      assert 0 <= |s| - i + step - 1 < step;
    }
  }

  // ---------------------------------------------------------------------
  // Properties of split_dom_content

  /** The chunk count is the ceiling of `|s| / maxLength`. */
  lemma ChunkCount(s: string, maxLength: int)
    requires maxLength > 0
    ensures SplitDomContent(s, maxLength).Chunks?
    ensures |SplitDomContent(s, maxLength).parts| == (|s| + maxLength - 1) / maxLength
  {
    ChunksCountFrom(s, maxLength, 0);
  }

  /** An empty text gives no chunk at all, not one empty chunk. */
  lemma EmptyTextNoChunks(maxLength: int)
    requires maxLength != 0
    ensures SplitDomContent("", maxLength) == Chunks([])
  {
  }

  /** Chunk `k` is `s[k * maxLength .. min((k + 1) * maxLength, |s|)]`; every
      chunk but the last is exactly `maxLength` long, and the last one holds
      what remains. */
  lemma ChunkContents(s: string, maxLength: int, k: nat)
    requires maxLength > 0
    requires k < |SplitDomContent(s, maxLength).parts|
    ensures k * maxLength < |s|
    ensures SplitDomContent(s, maxLength).parts[k] == s[k * maxLength..Min((k + 1) * maxLength, |s|)]
    ensures k + 1 < |SplitDomContent(s, maxLength).parts| ==> |SplitDomContent(s, maxLength).parts[k]| == maxLength
    ensures k + 1 == |SplitDomContent(s, maxLength).parts| ==>
      |SplitDomContent(s, maxLength).parts[k]| == |s| - k * maxLength
  {
    ChunkSlice(s, maxLength, k);
    if k + 1 < |ChunksFrom(s, maxLength, 0)| {
      FullChunkLength(s, maxLength, k);
    } else {
      LastChunkLengthFrom(s, maxLength, k);
    }
  }

  /** Chunk `k` from index 0 is the clamped slice from `k * step` to `(k + 1) * step`. */
  lemma ChunkSlice(s: string, step: nat, k: nat)
    requires step > 0 && k < |ChunksFrom(s, step, 0)|
    ensures k * step < |s|
    ensures ChunksFrom(s, step, 0)[k] == s[k * step..Min((k + 1) * step, |s|)]
  {
    ChunkAt(s, step, 0, k);
    MulPred(k + 1, step);
  }

  lemma FullChunkLength(s: string, step: nat, k: nat)
    requires step > 0 && k + 1 < |ChunksFrom(s, step, 0)|
    ensures |ChunksFrom(s, step, 0)[k]| == step
  {
    ChunkSlice(s, step, k);
    ChunkSlice(s, step, k + 1);
  }

  lemma LastChunkLengthFrom(s: string, step: nat, k: nat)
    requires step > 0 && k + 1 == |ChunksFrom(s, step, 0)|
    ensures |ChunksFrom(s, step, 0)[k]| == |s| - k * step
  {
    ChunkSlice(s, step, k);
    LastChunkEnd(s, step, k);
  }

  /** The last chunk from index 0 reaches the end of `s`. */
  lemma LastChunkEnd(s: string, step: nat, k: nat)
    requires step > 0 && k + 1 == |ChunksFrom(s, step, 0)|
    ensures |s| <= (k + 1) * step
  {
    ChunksCountFrom(s, step, 0);
    LastChunkReachesEnd(|s|, step, k);
  }

  /** If the index `k` is the last of `ceil(n / d)` chunks, chunk `k` reaches the end. */
  lemma LastChunkReachesEnd(n: nat, d: int, k: nat)
    requires d > 0 && k + 1 == (n + d - 1) / d
    ensures n <= (k + 1) * d
  {
    var q, r := (n + d - 1) / d, (n + d - 1) % d;
    assert n + d - 1 == q * d + r && 0 <= r < d;
  }

  /** Division is determined by quotient and remainder. */
  lemma DivUnique(x: int, d: int, q: int, r: int)
    requires d > 0 && x == q * d + r && 0 <= r < d
    ensures x / d == q && x % d == r
  {
    var q', r' := x / d, x % d;
    assert (q' - q) * d == r - r' by {
      assert x == q' * d + r';
    }
    MulAwayFromZero(q' - q, d);
  }

  /** The last chunk of a non-empty text holds `|s| % maxLength` characters,
      or a full `maxLength` when that remainder is zero. */
  lemma LastChunkLength(s: string, maxLength: int)
    requires maxLength > 0 && s != []
    ensures |SplitDomContent(s, maxLength).parts| > 0
    ensures var parts := SplitDomContent(s, maxLength).parts;
      |parts[|parts| - 1]| == if |s| % maxLength == 0 then maxLength else |s| % maxLength
  {
    var parts := SplitDomContent(s, maxLength).parts;
    ChunkCount(s, maxLength);
    CeilingRemainder(|s|, maxLength);
    ChunkContents(s, maxLength, |parts| - 1);
  }

  /** What the last of `ceil(n / d)` pieces of `d` leaves of `n`. */
  lemma CeilingRemainder(n: int, d: int)
    requires n > 0 && d > 0
    ensures (n + d - 1) / d >= 1
    ensures n - ((n + d - 1) / d - 1) * d == if n % d == 0 then d else n % d
  {
    var q, r := n / d, n % d;
    assert n == q * d + r;
    if r == 0 {
      DivUnique(n + d - 1, d, q, d - 1);
      assert q >= 1;
    } else {
      DivUnique(n + d - 1, d, q + 1, r - 1);
    }
  }

  /** A non-empty text no longer than `maxLength` is one chunk, the text itself. */
  lemma ShortTextOneChunk(s: string, maxLength: int)
    requires 0 < |s| <= maxLength
    ensures SplitDomContent(s, maxLength) == Chunks([s])
  {
    assert s[0..Min(0 + maxLength, |s|)] == s;
    assert ChunksFrom(s, maxLength, 0 + maxLength) == [];
  }
}
