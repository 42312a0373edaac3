# ReaderLM text pipeline in Dafny

This project models the deterministic text-processing core of a small
web-page-to-Markdown demo. That core is the HTML sanitizer and prompt builders
of `reader.py`, and the chunker and line normaliser of `scrapy.py`. Each part is
modelled as pure functions, and lemmas prove what each part guarantees. The
source code is made of `re.sub` expressions, f-strings and comprehensions,
with no loops and no mutable state, so the model has no classes or methods.

* `strings.dfy` (module `Strings`) holds the shared definitions: `Option`,
  occurrence of a word at an index, `str.find` for one character, the run of
  spaces a greedy `[ ]*` consumes, subsequence, `sep.join` and `"".join`.
* `resub.dfy` (module `ReSub`) models `re.sub` for a pattern that never
  matches the empty string and has no anchors. The string is scanned from the
  left. Wherever a match starts, its replacement is emitted and the scan
  resumes after the match; everywhere else one character is copied.
  The lemmas cover three things:
  * a prefix with no match is copied unchanged;
  * the leftmost match is the first one replaced;
  * a pattern whose replacements are all empty only deletes characters.
* `sanitizer.dfy` (module `Sanitizer`) holds the seven fixed patterns of
  `reader.py`, `replace_svg`, `replace_base64_images` and `clean_html`. No
  general regular-expression engine is modelled. Each pattern has a
  hand-written matcher:
  * the opening part of the match;
  * the lazy `.*?` as the *nearest* closing part;
  * for the base64 `<img>` pattern, the backtracking of `[^>]+`, which picks
    the *last* `src="data:image/` before the first `>` whose tail matches.

  `re.IGNORECASE` is Python's rule for ASCII letters in a pattern. Either case
  matches, as do U+0130 and U+0131 for `i`, U+017F for `s` and U+212A for `k`.
* `prompts.dfy` (module `Prompts`) holds `create_conversion_prompt` and
  `create_summary_prompt`. Python truthiness is modelled as `Given`, so `None`
  and `""` both count as absent.
* `chunker.dfy` (module `Chunker`) holds `split_dom_content`. Its outcome is
  either the chunk list or the `ValueError` that `range` raises for a step of
  zero. A negative `max_length` gives an empty range, hence no chunks.
* `body_text.dfy` (module `BodyText`) holds the part of `clean_body_content`
  that runs after `get_text`. It takes the extracted text as input and models
  Python's `str.strip`, `str.splitlines` and the boilerplate test.
  * `strip` removes exactly the characters for which `str.isspace` holds.
  * `splitlines` breaks lines at `\n`, `\r`, `\r\n`, `\x0b`, `\x0c`, `\x1c`,
    `\x1d`, `\x1e`, `\x85`, U+2028 and U+2029. A final line boundary opens no
    further line.
  * The boilerplate test lowers only `A`-`Z` and the Kelvin sign (U+212A).
    These are the only characters whose `str.lower()` can supply a letter to a
    match of the all-ASCII terms `cookie`, `privacy policy` and `consent`.
    U+0130 lowers to `i` followed by U+0307, and none of the terms has an `i`
    followed by a non-ASCII character or ends in `i`.
  * `CleanBodyContent` computes `filtered_lines` and returns the unfiltered
    text, as the source does.

Three behaviours of the code are easy to miss:
* `<svg` in `SVG_PATTERN` is case-sensitive, because `replace_svg` passes only
  `re.DOTALL` (reader.py:27-31).
* The base64 replacement tag is `<img src="#"/>`, with a slash (reader.py:35).
* The returned text still holds boilerplate lines, because `filtered_lines` is
  computed and then discarded (scrapy.py:71-76). `BodyText.BoilerplateKept`
  and `BodyText.FilterDiscarded` prove this.

## Model

| member | source | states |
|---|---|---|
| ReSub.SubCopiesPrefix | reader.py:39-43 | a prefix in which no match starts is copied verbatim by `re.sub` |
| ReSub.SubNoMatch | reader.py:39-43 | with no match anywhere, `re.sub` returns its input |
| ReSub.Sub | reader.py:39-43 | `re.sub` as a left-to-right scan; its properties are the `ReSub` lemmas below (SubCopiesPrefix, SubNoMatch, SubLeftmost, SubAround, SubDeletes, SubWithoutLead) |
| ReSub.SubLeftmost | reader.py:39-43 | the result is the text before the leftmost match, its replacement, then `re.sub` of the rest after the match |
| ReSub.SubAround | reader.py:39-43 | the same for a text written as a match-free prefix followed by a text that starts with a match |
| ReSub.SubDeletes | reader.py:39-43 | a substitution with an empty replacement yields a subsequence of its input |
| ReSub.SubWithoutLead | reader.py:39-43 | if every match starts with `c`, a text without `c` is unchanged |
| Sanitizer.OpenEnd | reader.py:19-25 | the opening part starts with `<`; for SVG it is `<svg` up to the first `>`; for a deleting pattern it is `<`, the run of spaces after it, and the pattern's word (`script`, `style`, `meta`, `!--`, `link`) in any case |
| Sanitizer.OpenEndIs | reader.py:19-23 | conversely, every `<[ ]*word` opening, in any case, is found, and it ends right after the word |
| Sanitizer.CloserEnd | reader.py:19-25 | a closing part ends in `>`; for SVG it is exactly `</svg>`; CloserEndShape and CloserEndIs give the exact closer of each deleting pattern |
| Sanitizer.CloserEndShape | reader.py:19-23 | a found closer of a deleting pattern is `>` alone for meta and link, `--`, spaces and `>` for a comment, and `/`, spaces, the word in any case, spaces and `>` for script and style |
| Sanitizer.CloserEndIs | reader.py:19-23 | conversely, every closer of those shapes is found, with its exact end |
| Sanitizer.TagCloserEnd | reader.py:19-20 | a match of `\/[ ]*script[ ]*>` or `\/[ ]*style[ ]*>`: `/`, a run of spaces, the word in any case, a run of spaces, and the `>` it ends with |
| Sanitizer.TagCloserEndIs | reader.py:19-20 | conversely, every closer of that shape is matched, up to its `>` |
| Sanitizer.NearestCloser | reader.py:19-25 | the lazy `.*?` stops at the first index where the closing part matches; no closing part matches before it, and if none exists, none matches anywhere |
| Sanitizer.NearestCloserIs | reader.py:19-25 | conversely, the first index where the closing part matches is the one found |
| Sanitizer.DataUriTail | reader.py:24 | the `src="data:image/…;base64,…"…>` tail starts with `src="data:image/` and ends with `>`; DataUriTailShape and DataUriTailIs give its exact shape in both directions |
| Sanitizer.DataUriTailShape | reader.py:24 | a tail match is `src="data:image/`, a non-empty run without `;`, `;base64,`, a non-empty run without `"`, `"`, a run without `>`, and `>` |
| Sanitizer.DataUriTailIs | reader.py:24 | conversely, a text that begins with that shape matches, and the match is exactly that long |
| Sanitizer.DataUriTailOf | reader.py:24 | `src="data:image/` + x + `;base64,` + y + `"` + z + `>` matches whole whatever follows, for any non-empty x without `;`, non-empty y without `"` and z without `>` |
| Sanitizer.LastDataUri | reader.py:24 | backtracking `[^>]+` finds a `src="data:image/` at index ≥ 5 whose tail ends the match in `>`; LastDataUriLargest, LastDataUriNone and LastDataUriIs say which one |
| Sanitizer.LastDataUriLargest | reader.py:24 | what is found is the end of the tail at the largest start in `[5, hi]` whose tail matches; no start above it matches |
| Sanitizer.LastDataUriNone | reader.py:24 | nothing is found only when no start in `[5, hi]` has a matching tail |
| Sanitizer.LastDataUriIs | reader.py:24 | the largest index whose tail matches is the one found |
| Sanitizer.FirstGt | reader.py:24 | the first `>` after `<img`, or the end of the text: where `[^>]+` must stop |
| Sanitizer.UriStartBelowFirstGt | reader.py:24 | every start the backtracking can use lies before that first `>` |
| Sanitizer.Base64Len | reader.py:24 | a base64 match starts with `<img`, ends with `>`, and holds `src="data:image/` with no `>` between `<img` and it; Base64LenLargest, Base64LenNone and Base64LenIs say exactly when and how long |
| Sanitizer.Base64LenLargest | reader.py:24 | a match ends where the tail at the last usable start ends (usable: index ≥ 5, no `>` after `<img` before it, tail matches), and no later start is usable |
| Sanitizer.Base64LenNone | reader.py:24 | there is no match only when the text does not open with `<img` or no start is usable |
| Sanitizer.Base64LenIs | reader.py:24 | conversely, for a text opening with `<img`, the last usable start gives the match |
| Sanitizer.Base64TagMatched | reader.py:24 | an `<img …>` tag with a well-formed data URI and no `>` before it is matched whole, provided no second `src="data:image/` starts after that URI and before the first `>` past `<img` (otherwise the backtracking picks the later one) |
| Sanitizer.MatchLen | reader.py:19-25 | every match is non-empty and lies inside the text, starts with `<` and ends with `>`; DeletingMatchShape and DeletingMatchIs give the exact shape of a deleting match |
| Sanitizer.DeletingMatchShape | reader.py:19-23 | every match of a deleting pattern is `<[ ]*word` (any case), any text, then the first closer after the word (DeletingShape) |
| Sanitizer.DeletingMatchIs | reader.py:19-23 | conversely, text of that shape is matched, and the match ends where that first closer ends |
| Sanitizer.MatchLenOfParts | reader.py:19-23 | an opening, no closer before `j`, and a closer at `j` make a match that ends where that closer ends |
| Sanitizer.DeleteConstruct | reader.py:39-43 | with no match starting before it, one `re.sub(p, "", …)` deletes a construct of that shape and keeps everything before it |
| Sanitizer.Replacement | reader.py:27-43 | the replacement of a match: `group(1) + new_content + group(3)` for SVG, `<img src="#"/>` for base64, `""` for the five removals; SvgKeepsTags and ReplaceBase64Tag state what it gives |
| Sanitizer.Sub | reader.py:28-43 | `re.sub` with one of the fixed patterns; SubAfter, SubDeletes, NoAngleUnchanged and NoMatchUnchanged state its properties |
| Sanitizer.SubAfter | reader.py:28-43 | after a stretch in which no match starts, the next match is replaced and the substitution goes on after it |
| Sanitizer.RemoveTags | reader.py:39-43 | the five removals in the code's order; SubDeletes and CleanHtmlDeletes show they only delete |
| Sanitizer.ReplaceSvg | reader.py:27-31 | `replace_svg`; SvgKeepsTags, SvgMatched, ReplaceSvgNoSvg and ReplaceSvgExample state what it does |
| Sanitizer.ReplaceBase64Images | reader.py:33-36 | `replace_base64_images`; ReplaceBase64Tag, ReplaceBase64NoDataUri and ReplaceBase64Example state what it does |
| Sanitizer.CleanHtml | reader.py:38-48 | the five removals, then `replace_svg` and `replace_base64_images` when their flags are set; CleanHtmlDeletes (only deletes), CleanHtmlNoAngle, CleanHtmlFreeUnchanged and CleanHtmlExample state what the whole pipeline does, and DeleteConstruct what each removal does to a construct |
| Sanitizer.SubDeletes | reader.py:39-43 | each of the five removals yields a subsequence of its input |
| Sanitizer.NoAngleUnchanged | reader.py:19-25 | any of the seven substitutions leaves a text without `<` unchanged |
| Sanitizer.NoMatchUnchanged | reader.py:28-43 | a text in which the pattern matches nowhere is unchanged |
| Sanitizer.CleanHtmlDeletes | reader.py:38-48 | with both flags false, `clean_html` returns a subsequence of its input and is never longer than it |
| Sanitizer.CleanHtmlNoAngle | reader.py:38-48 | with any flags, an input without `<` is returned unchanged |
| Sanitizer.CleanHtmlFreeUnchanged | reader.py:38-48 | with both flags false, an input with no script, style, meta, comment or link construct is returned unchanged |
| Sanitizer.SvgKeepsTags | reader.py:25-31 | a matched SVG element keeps its `<svg…>` opening tag and the nearest `</svg>` verbatim, and only the interior becomes the new content |
| Sanitizer.SvgMatched | reader.py:25-31 | any `<svg…>` tag followed by a `</svg>` is matched, and the match ends no later than that `</svg>` |
| Sanitizer.ReplaceSvgNoSvg | reader.py:25-31 | a text without `<svg` is unchanged by `replace_svg` |
| Sanitizer.ReplaceBase64Tag | reader.py:33-36 | such a tag, after text in which no match starts, becomes `<img src="#"/>` and the rest is processed from just after the tag |
| Sanitizer.ReplaceBase64NoDataUri | reader.py:33-36 | a text without `src="data:image/` is unchanged by `replace_base64_images` |
| Sanitizer.DeletingMatchStart | reader.py:19-23 | a deleting match begins with `<` followed by a space or the first letter of its tag word |
| Sanitizer.NoDeletingMatch | reader.py:19-23 | no deleting match starts where `<` is missing or is followed by neither a space nor the first letter of the tag word |
| Sanitizer.ParagraphUntouched | reader.py:19-23 | `<p>Hello</p>` is unchanged by each of the five removals |
| Sanitizer.ScriptExampleSpan | reader.py:19 | the script match on `<script>alert(1)</script>…` spans exactly that element |
| Sanitizer.UpperScriptSpan | reader.py:19 | `<SCRIPT >x</ Script >` is matched whole, whatever the case and the inner spaces |
| Sanitizer.CleanHtmlExample | reader.py:38-48 | `clean_html("<script>alert(1)</script><p>Hello</p>")` is `<p>Hello</p>` |
| Sanitizer.SvgExampleSpan | reader.py:25 | the SVG match on `<svg width="1"><path/></svg>` spans the whole element |
| Sanitizer.ReplaceSvgExample | reader.py:27-31 | `replace_svg` on that element keeps both tags around the placeholder |
| Sanitizer.Base64ExampleSpan | reader.py:24 | the base64 match on a data-URI `<img>` spans the whole tag |
| Sanitizer.ReplaceBase64Example | reader.py:33-36 | that tag becomes `<img src="#"/>` |
| Prompts.ConversionPrompt | reader.py:54-67 | the prompt starts with the chosen instruction, which is followed by the fenced `html` block holding the text verbatim, and ends with `Output:\n`; with a schema, the schema block precedes that ending |
| Prompts.SummaryPrompt | reader.py:69-76 | the prompt starts with the summary instruction, which is followed by the fenced block holding the text verbatim, and ends with `Summary:\n` |
| Prompts.ConversionPromptLayout | reader.py:65-66 | with no (or an empty) schema the prompt is exactly `instruction + "\n```html\n" + text + "\n```\nOutput:\n"` |
| Prompts.JsonPromptLayout | reader.py:61-64 | with a non-empty schema the prompt is exactly the JSON instruction, the `html` block, the schema block and `Output:\n` |
| Prompts.SummaryPromptLayout | reader.py:74-75 | the summary prompt is exactly the instruction, `"\n```\n" + text + "\n```\nSummary:\n"` |
| Prompts.Instruction | reader.py:59-63 | the instruction the conversion prompt opens with; InstructionDefault states the three cases |
| Prompts.InstructionDefault | reader.py:59-63 | a missing or empty instruction becomes the Markdown instruction, a given one is kept, and a schema forces the JSON instruction |
| Prompts.SchemaOverridesInstruction | reader.py:61-64 | with a schema the instruction argument has no effect, and the prompt starts with the JSON instruction and never with the Markdown one |
| Prompts.EmptyArgumentsAreMissing | reader.py:59-61 | an empty schema behaves like none, and an empty instruction like none |
| Prompts.ConversionTextRecoverable | reader.py:64-66 | the text is the slice between the fixed head and tail of the conversion prompt |
| Prompts.ConversionPromptInjective | reader.py:64-66 | distinct texts give distinct conversion prompts |
| Prompts.SummaryTextRecoverable | reader.py:75 | the text is the slice between the fixed head and tail of the summary prompt |
| Prompts.SummaryPromptInjective | reader.py:75 | distinct texts give distinct summary prompts |
| Chunker.SplitDomContent | scrapy.py:78-86 | `max_length == 0` raises `ValueError`, and a negative one gives no chunks; otherwise the chunks concatenate to the input and each is non-empty and at most `max_length` long |
| Chunker.SplitDomContentDefault | scrapy.py:78-86 | with `max_length` at its default of 6000: never an error, the chunks concatenate to the input, there are `ceil(len(s) / 6000)` of them, and a non-empty text of at most 6000 characters is one chunk |
| Chunker.ChunksConcat | scrapy.py:86 | the chunks from index `i` on concatenate to `s[i..]` |
| Chunker.ChunksFrom | scrapy.py:86 | every chunk is non-empty and at most one step long |
| Chunker.ChunkAt | scrapy.py:86 | chunk `k` is the clamped slice starting at `i + k * step` |
| Chunker.ChunksCountFrom | scrapy.py:86 | chunking from `i` gives `ceil((len(s) - i) / step)` chunks |
| Chunker.ChunkCount | scrapy.py:86 | there are `ceil(len(s) / max_length)` chunks |
| Chunker.EmptyTextNoChunks | scrapy.py:86 | the empty text gives no chunk, not one empty chunk |
| Chunker.ChunkContents | scrapy.py:86 | chunk `k` is `s[k*L .. min((k+1)*L, len(s))]`; every chunk but the last has length `L`, and the last holds the rest |
| Chunker.LastChunkLength | scrapy.py:86 | the last chunk has `len(s) % L` characters, or `L` when the remainder is zero |
| Chunker.ShortTextOneChunk | scrapy.py:86 | a non-empty text of at most `max_length` characters is a single chunk equal to the text |
| BodyText.IsSpace | scrapy.py:68 | the characters `str.strip()` removes; Strip, StripUnique and StripEmpty use it |
| BodyText.Strip | scrapy.py:68 | `line.strip()` is a trimmed slice of the line with only whitespace around it |
| BodyText.StripUnique | scrapy.py:68 | any non-empty trimmed slice with only whitespace around it is the `strip()` |
| BodyText.StripTrimmed | scrapy.py:68 | a line with no whitespace at either end strips to itself |
| BodyText.StripEmpty | scrapy.py:68 | a line strips to `""` exactly when it is all whitespace |
| BodyText.StripNoBreak | scrapy.py:68 | stripping a line keeps it free of line boundaries |
| BodyText.IsLineBreak | scrapy.py:68 | the line boundaries of `str.splitlines()`; LineEnd, SplitLines and SplitJoin use it |
| BodyText.BreakEnd | scrapy.py:68 | the next line starts two characters on exactly when the boundary is `\r\n`, and one character on otherwise |
| BodyText.LineEnd | scrapy.py:68 | finds the first line boundary at or after `i` |
| BodyText.SplitLines | scrapy.py:68 | no line from `splitlines()` holds a line boundary; SplitLinesStep shows where each line ends and SplitJoin that non-empty `\n`-joined lines come back |
| BodyText.SplitJoin | scrapy.py:68 | splitting the `"\n"`-join of non-empty, boundary-free lines gives the lines back |
| BodyText.SplitLinesStep | scrapy.py:68 | a line ended by any one boundary (`\r\n`, or a single boundary character that is not `\r` before `\n`) is split off the front and the boundary dropped; a final boundary opens no further line |
| BodyText.StrippedNonBlank | scrapy.py:68 | the generator yields non-empty trimmed lines, at most one per input line |
| BodyText.StrippedNonBlankMembers | scrapy.py:68 | a line is yielded exactly when it is the non-empty `strip()` of an input line |
| BodyText.StrippedNonBlankFixed | scrapy.py:68 | non-blank trimmed lines pass through unchanged |
| BodyText.StrippedNonBlankNoBreak | scrapy.py:68 | the yielded lines hold no line boundary |
| BodyText.JoinTrimmed | scrapy.py:68 | the `"\n"`-join of non-blank trimmed lines has no whitespace at either end |
| BodyText.CleanBodyContent | scrapy.py:68-76 | the lines of the result are exactly the stripped non-blank input lines, in order; no line is empty or padded; the result is those lines joined by `\n`, the only line boundary it holds; it has no whitespace at either end |
| BodyText.JoinOnlyNewlines | scrapy.py:68 | joining lines that hold no boundary with `\n` leaves `\n` as the only boundary |
| BodyText.CleanIdempotent | scrapy.py:68 | normalising the result again changes nothing |
| BodyText.CleanLines | scrapy.py:68 | a line is in the result exactly when it is the non-empty `strip()` of an input line |
| BodyText.CleanBodyContentExample | scrapy.py:68 | `"  Hi \n\n\tYo\n"` normalises to `"Hi\nYo"` |
| BodyText.Lower | scrapy.py:73 | the lowered line has the same length and no upper-case letter; other characters stay in place, each of `A`-`Z` becomes the letter 32 code points above it and the Kelvin sign becomes `k` |
| BodyText.IsBoilerplate | scrapy.py:73 | a line holds `cookie`, `privacy policy` or `consent` once lowered; BoilerplateOfLower and CookieLineIsBoilerplate state its properties |
| BodyText.BoilerplateAnyCase | scrapy.py:73 | a line is boilerplate exactly when `cookie`, `privacy policy` or `consent` occurs in it in any mix of cases |
| BodyText.LowerOccursAt | scrapy.py:73 | a lower-case term occurs in the lowered line at `i` exactly when it occurs there in any mix of cases |
| BodyText.BoilerplateOfLower | scrapy.py:73 | lowering twice is lowering once, so a line is boilerplate exactly when its lowered form is |
| BodyText.FilteredLines | scrapy.py:71-74 | the filtered list is no longer than the list of lines |
| BodyText.FilteredLinesMembers | scrapy.py:71-74 | a line is kept by the filter exactly when it is a line and not boilerplate |
| BodyText.FilteredLinesShorter | scrapy.py:71-74 | if some line is boilerplate, the filtered list is shorter |
| BodyText.BoilerplateKept | scrapy.py:71-76 | a boilerplate line that is not blank is still in the returned text |
| BodyText.FilterDiscarded | scrapy.py:71-76 | when a line is boilerplate, the join of the filtered lines differs from the returned text, so the filter has no effect on the result |
| BodyText.CookieLineIsBoilerplate | scrapy.py:73 | `Accept Cookies` counts as boilerplate, case-insensitively |
| BodyText.CookieLineKept | scrapy.py:71-76 | `Accept Cookies` is returned as it is, while the filtered list drops it |

## Left out

- Model loading, tokenisation, sampling with `model.generate`, and decoding
  (reader.py:82-143) are left out. They are calls into torch and transformers,
  with GPU and floating-point sampling and no stateable result.
- `scrape_website` (scrapy.py:7-37) is left out. It drives Selenium and a
  Chrome process and sleeps.
- `extract_body_content` and the parser half of `clean_body_content`
  (scrapy.py:39-66: BeautifulSoup parsing, `decompose`, `get_text`) are left
  out. They belong to a foreign HTML parser. The text `get_text` returns is
  the input of `BodyText.CleanBodyContent`.
- `readerlm_app.py` is not part of this model. It is Streamlit UI and session
  state.
- General Python regular-expression semantics are not modelled. Only the seven
  fixed patterns of reader.py:19-25 are, each by its own matcher.
- Sanitizer.ReplaceBase64Images: models only the default `new_image_src` of
  `#`. For other values the replacement is a `re` template whose escapes
  (`\1`, `\g<…>`) are not modelled.
- Sanitizer.ReplaceSvg: takes `new_content` as a plain parameter. The one
  caller in the core passes the default placeholder.
- BodyText.Lower: lowers only `A`-`Z` and U+212A, not the whole of Unicode
  `str.lower()`. It agrees with `str.lower()` on whether a line contains one
  of the three ASCII terms, which is the only use the source makes of it.
- Lone surrogates: a Python `str` can hold lone surrogate code points
  (U+D800 to U+DFFF), and a Dafny `char` cannot. Text holding them is outside
  the model.
