# groq-cookbook content pipeline, modelled in Dafny

This project models the text-processing core of the groq-cookbook site: the
code that turns recipe Markdown into HTML and the helpers around it.

- `CodeBlockProcessor` (`src/utils/codeBlockProcessor.ts`) renders in two passes.
  - The extraction pass scans the document with the fence pattern ```` ```(\w+)?\n([\s\S]*?)``` ```` (`exec` with the global flag).
  - It highlights each body, numbers its lines, and stores the result under `code-block-N`, counting from 0.
  - The render pass resets the counter and lets the Markdown renderer call its hooks.
  - The fenced-code hook uses the counter as a read cursor into the map.
  - The inline-code hook escapes the span's text.
- `preprocessReadme` (`src/pages/api/recipe.ts`) makes `images/` references root-relative. It can also cut the text up to the header after the first level-one header.
- `convertToRawUrls` (`src/pages/api/gh.ts`) lists the raw-content URLs to try for a GitHub page URL.
- `parseProps` and the component handling of `processMDXContent` (`src/utils/mdxProcessor.ts`):
  - the `key="value"` scanner;
  - the test for self-closing tags;
  - the placeholder rewrite.

Modules, one file each:

| Module | What it holds |
|---|---|
| `Text` | JavaScript string primitives: `\s`, `\w`, `indexOf`/`includes`, `replace` with a string pattern (first occurrence only), global one-character `replace`, `split`/`join`, `trim`, decimal rendering. |
| `Scan` | Repeated `exec` with the global flag for any pattern. |
| `Fences` | The fence pattern. |
| `HtmlEscape` | The two escaping chains. |
| `LineNumbers` | `addLineNumbers` and the fallback rendering when highlighting fails. |
| `CodeBlocks` | The processor class and its specification. |
| `Readme` | `preprocessReadme`. |
| `RawUrls` | `convertToRawUrls`. |
| `Mdx` | `parseProps` and the component handling. |

Three pieces of foreign code are not modelled. They enter the model as inputs instead:

- The syntax highlighter is a function value, `(code, language) -> Highlighted(html) | HighlightFailed`. A thrown error is `HighlightFailed`.
- The Markdown lexer is a function value from the source text to a sequence of tokens: fenced code, code span, or other markup that is already rendered.
- MDX compilation is a boolean saying whether it succeeded.

Every regular expression is modelled as two things:

- a function telling whether, and how, the pattern matches at one fixed position;
- a leftmost search built on it.

The comments explain why greedy and lazy quantifiers leave each pattern only one way to match at a fixed position. The `exec` loops (`codeBlockProcessor.ts:42`, `mdxProcessor.ts:80`) are `while` loops whose invariants tie `lastIndex` to the list of remaining matches.

The rendering is proved against a specification, `ProcessedHtml`:

- the map is built from the list of matches;
- the `k`-th fenced token of the render pass reads `code-block-k`.

The processor's methods are proved to compute exactly that. `ProcessTwice` shows that a processor reused for a second document renders it as a fresh processor would.

Three behaviours of the code are worth stating outright, since a reader might expect otherwise:

- **Missing cache entry.** When the fenced-code hook finds no entry for the current id, it emits the token's text without escaping it (`codeBlockProcessor.ts:148`). `CodeBlocks.MissingBlockHtml` states it that way.
- **Fallback line count.** The highlighter-failure rendering numbers every element of `code.split('\n')`, including a final empty line (`codeBlockProcessor.ts:66-74`). `addLineNumbers` would drop that line, so a body ending in a newline gets one more row on the fallback path than it would after highlighting.
- **`__proto__` props.** `parseProps` assigns into a plain object (`mdxProcessor.ts:73`, `:81`). For the key `__proto__` the assignment calls the setter inherited from `Object.prototype`, which ignores a string, so that prop is never stored. `Mdx.Store` models the assignment that way.

## Model

| member | source | states |
|---|---|---|
| Text.ReplaceFirst | src/pages/api/gh.ts:13 | `replace` with a string pattern changes nothing when the pattern is absent; otherwise the length changes by the replacement's length minus the pattern's length. |
| Text.IndexFrom | src/pages/api/gh.ts:26 | The search result is an occurrence at or after the start, with no occurrence before it; no result means no occurrence at all. |
| Text.ReplaceChar | src/utils/codeBlockProcessor.ts:70-72 | A global one-character replace leaves a text without that character unchanged. When the replacement lacks the character, none remains. |
| Text.ReplaceCharConcat | src/utils/codeBlockProcessor.ts:70-72 | A global one-character replace distributes over concatenation. |
| Text.Split | src/utils/codeBlockProcessor.ts:96 | `split('\n')` returns at least one part, no part holds a newline, and joining the parts with newlines gives back the text. |
| Text.SplitJoin | src/utils/codeBlockProcessor.ts:121 | Splitting a newline-join of newline-free parts gives back the parts. |
| Text.TrimEnd | src/utils/codeBlockProcessor.ts:93 | `replace(/\s+$/, '')` keeps a prefix, removes only whitespace, and leaves no trailing whitespace. |
| Text.TrimStart | src/utils/mdxProcessor.ts:75 | Leading whitespace is removed: the result is a suffix preceded only by whitespace and does not start with whitespace. |
| Text.TrimEmptyIffAllSpace | src/utils/mdxProcessor.ts:75 | `trim()` is empty exactly when every character is whitespace. |
| Text.NatToString | src/utils/codeBlockProcessor.ts:45 | A counter renders as decimal digits, at least one. The first digit is `0` only for zero itself, and numbers of ten or more take at least two digits. |
| Text.NatToStringValue | src/utils/codeBlockProcessor.ts:45 | Reading the rendering back as a decimal numeral gives the counter. With the previous row, the rendering is the counter's canonical decimal form. |
| Text.NatToStringInjective | src/utils/codeBlockProcessor.ts:45 | Distinct counter values render differently. |
| Text.WordRun | src/utils/codeBlockProcessor.ts:39 | `\w+` read greedily: every character of the run is a word character, and the character after it is not. |
| Scan.FirstAt | src/utils/codeBlockProcessor.ts:42 | One `exec` call returns the leftmost match at or after `lastIndex`, with no match in between. It returns nothing only when no match starts in the range. |
| Scan.SuccessiveCons | src/utils/codeBlockProcessor.ts:42 | A leftmost match followed by the calls from its end is the sequence of calls from the earlier `lastIndex`. |
| Fences.Language | src/utils/codeBlockProcessor.ts:43 | `match[1] \|\| 'text'` is never empty. |
| Fences.FenceAt | src/utils/codeBlockProcessor.ts:39 | A match found at `i` starts at `i` and ends inside the text, after `i`. |
| Fences.FenceAtSound | src/utils/codeBlockProcessor.ts:39 | A match at `i` is, in order: ticks, a word-character tag that is `None` rather than empty, a newline, a body with no ticks inside, and closing ticks. |
| Fences.FenceAtComplete | src/utils/codeBlockProcessor.ts:39 | Conversely, any reading of the text at `i` in that shape is the match at `i`, with those captures. |
| Fences.NextFence | src/utils/codeBlockProcessor.ts:42 | `exec` from `lastIndex` returns the leftmost match at or after it; nothing means no match at or after it. |
| Fences.FencesFromSound | src/utils/codeBlockProcessor.ts:42 | The match list is the successive `exec` results: genuine, non-overlapping, and nothing skipped before, between or after them. |
| Fences.FencesFromAt | src/utils/codeBlockProcessor.ts:42 | Every element of the match list is the pattern's match at its start. |
| Fences.NextFenceStep | src/utils/codeBlockProcessor.ts:42 | Each `exec` call either ends the list, or returns its head and moves `lastIndex` strictly forward to where the tail begins. |
| Fences.FenceMatchShape | src/utils/codeBlockProcessor.ts:43-44 | Every fence found has the shape of ticks, a tag, a newline, the body and ticks, at its own start. |
| HtmlEscape.EscapeCodeIsPerChar | src/utils/codeBlockProcessor.ts:69-72 | Replacing `&`, then `<`, then `>` equals escaping each character independently. Putting `&` first means no entity is escaped twice. |
| HtmlEscape.EscapeInlineIsPerChar | src/utils/codeBlockProcessor.ts:198-203 | The same holds for the five-step chain of the inline hook. |
| HtmlEscape.UnescapeEscapeEach | src/utils/codeBlockProcessor.ts:198-203 | Decoding the entities of the per-character escape gives back the text. |
| HtmlEscape.EscapeCodeSound | src/utils/codeBlockProcessor.ts:69-72 | The fallback escape leaves no `<` or `>`, adds no newline, and decodes to the original line. |
| HtmlEscape.EscapeInlineSound | src/utils/codeBlockProcessor.ts:198-203 | The inline escape leaves no `<`, `>`, `"` or `'` and decodes to the original text. |
| LineNumbers.CodeElementAt | src/utils/codeBlockProcessor.ts:87 | A match at `i` has the following parts: `<code` at `i`; an opening tag ending at its first `>`; content with no `</code>` inside; and the first `</code>` after the content. |
| LineNumbers.FindCodeElementFrom | src/utils/codeBlockProcessor.ts:87 | `match` without the global flag finds the leftmost code element, or none exists. |
| LineNumbers.StripTags | src/utils/codeBlockProcessor.ts:103 | Stripping tags never lengthens a line, and a line with no `<` or no `>` comes back unchanged. No `<` is left with a `>` anywhere after it. |
| LineNumbers.StripTagsTag | src/utils/codeBlockProcessor.ts:103 | A tag `<…>` is cut out of the line, and the text before it, which has no `<`, is kept as it is. |
| LineNumbers.IsBlankLine | src/utils/codeBlockProcessor.ts:103-104 | A line counts as blank when nothing but whitespace is left once its tags are stripped. |
| LineNumbers.DropTrailingBlank | src/utils/codeBlockProcessor.ts:100-109 | The trimming loop keeps a prefix of the lines. Every dropped line is blank once its tags are stripped, and the last kept line is not blank. Blank lines in the middle are therefore kept. |
| LineNumbers.Label | src/utils/codeBlockProcessor.ts:122 | `currentLanguage \|\| 'text'` is never empty. |
| LineNumbers.NumberLinesRows | src/utils/codeBlockProcessor.ts:111-121 | The numbered block has exactly one row per kept line. The `k`-th row carries number `k + 1` and the line's content. |
| LineNumbers.Annotated | src/utils/codeBlockProcessor.ts:85-123 | What `addLineNumbers` returns: the first code element rebuilt around the numbered kept lines. AnnotatedFrame and AnnotatedRows state its shape. |
| LineNumbers.AnnotatedFrame | src/utils/codeBlockProcessor.ts:87-122 | Without a code element the html comes back unchanged. Otherwise only the first element is replaced: the text before it is kept, followed by `<code class="language-…">`, and the result ends with `</code>` and the text after the element. |
| LineNumbers.AnnotatedRows | src/utils/codeBlockProcessor.ts:90-121 | The new element's content is one numbered row per kept line, or empty when no line is kept. |
| LineNumbers.FallbackHtml | src/utils/codeBlockProcessor.ts:66-77 | The highlighter-failure html: a `pre` and `code` pair around the numbered, escaped lines of the code. FallbackRows states its rows. |
| LineNumbers.FallbackRows | src/utils/codeBlockProcessor.ts:66-74 | The fallback rendering gives one row per element of `code.split('\n')`, numbered from 1. Each row's content has no `<` or `>` and decodes to its line, and the lines join back to the code. |
| CodeBlocks.BlockIdInjective | src/utils/codeBlockProcessor.ts:45 | Distinct counter values give distinct `code-block-N` keys. |
| CodeBlocks.BlockOf | src/utils/codeBlockProcessor.ts:43-81 | A stored block keeps the captured body verbatim and the resolved language, on both the highlighted and the fallback path. |
| CodeBlocks.ExecStep | src/utils/codeBlockProcessor.ts:42-45 | One iteration of the extraction loop either finishes after the last match, or consumes the next match, whose block is the next extracted block. |
| CodeBlocks.StoredBlockFields | src/utils/codeBlockProcessor.ts:43-63 | The `k`-th stored block holds the `k`-th fence's body and its tag, or `text` when the tag is absent. The body sits between the tag's newline and the closing ticks in the source. |
| CodeBlocks.BlockTableShape | src/utils/codeBlockProcessor.ts:38-83 | After extraction, `code-block-k` holds the `k`-th block for every match, there are no other keys, and there is one entry per match. |
| CodeBlocks.BlockTableMiss | src/utils/codeBlockProcessor.ts:133-135 | A cursor at or beyond the number of extracted blocks finds no entry. |
| CodeBlocks.RenderCodeBlock | src/utils/codeBlockProcessor.ts:163-182 | The block's html appears unmodified after a header labelled with the block's language. |
| CodeBlocks.MissingBlockHtml | src/utils/codeBlockProcessor.ts:135-150 | The miss rendering is labelled `lang \|\| 'text'` and embeds the token's text verbatim. |
| CodeBlocks.InlineText | src/utils/codeBlockProcessor.ts:186-196 | The inline text: a string as it is; else an object's non-empty `text`, else its non-empty `raw`; else `String(code \|\| '')`. |
| CodeBlocks.RenderInlineCode | src/utils/codeBlockProcessor.ts:184-206 | The inline element's body has no raw `<`, `>`, `"` or `'`. It decodes to the span's text after string, `text`, `raw` and `String(…)` normalisation. |
| CodeBlocks.FencedCount | src/utils/codeBlockProcessor.ts:132 | The cursor advances at most once per token. |
| CodeBlocks.PieceStep | src/utils/codeBlockProcessor.ts:129-158 | Each render step emits the token's piece at the current cursor and advances the cursor by one exactly for fenced code. |
| CodeBlocks.FencedCountMonotone | src/utils/codeBlockProcessor.ts:132 | Later fenced tokens read strictly later keys, so no two fenced tokens read the same entry. |
| CodeBlocks.CursorPairing | src/utils/codeBlockProcessor.ts:129-158 | The fenced token with `o` fenced tokens before it renders the `o`-th extracted block when there is one, and the unhighlighted miss rendering otherwise. Code spans and other tokens are unaffected by the map. |
| CodeBlocks.CodeBlockProcessor.constructor | src/utils/codeBlockProcessor.ts:10-13 | A new processor has an empty map, counter 0 and language `text`. |
| CodeBlocks.CodeBlockProcessor.ProcessContent | src/utils/codeBlockProcessor.ts:15-36 | After a call, the map is exactly the table of this document's blocks and the counter equals its number of fenced tokens. The html equals `ProcessedHtml` of the content, whatever the processor held before. |
| CodeBlocks.CodeBlockProcessor.PreprocessCodeBlocks | src/utils/codeBlockProcessor.ts:38-83 | The loop stores the `k`-th match's block under the `k`-th counter value after the starting one and advances the counter by the number of matches. |
| CodeBlocks.CodeBlockProcessor.HighlightMatch | src/utils/codeBlockProcessor.ts:43-81 | The language is remembered for `addLineNumbers`, and the stored block is `BlockOf` the match. |
| CodeBlocks.CodeBlockProcessor.AddLineNumbers | src/utils/codeBlockProcessor.ts:85-123 | The in-place trimming loop computes `Annotated`, the frame and rows proved by the `LineNumbers` lemmas. |
| CodeBlocks.CodeBlockProcessor.RenderFencedCode | src/utils/codeBlockProcessor.ts:129-153 | The hook renders the entry under the cursor, or the miss html when the entry is absent, and advances the cursor by one. |
| CodeBlocks.CodeBlockProcessor.RenderToken | src/utils/codeBlockProcessor.ts:129-158 | A token's piece is its hook's output. Only fenced code moves the cursor. |
| CodeBlocks.CodeBlockProcessor.RenderTokens | src/utils/codeBlockProcessor.ts:24-35 | The walk concatenates the pieces of the specification in token order and advances the cursor by the number of fenced tokens. |
| CodeBlocks.ProcessMarkdownWithCodeBlocks | src/utils/codeBlockProcessor.ts:210-213 | The one-off helper returns `ProcessedHtml` of its content. |
| CodeBlocks.ProcessTwice | src/utils/codeBlockProcessor.ts:15-18 | The reset at the start of `processContent` isolates documents: a reused processor renders the second document as a fresh one would. |
| Readme.FixImagePaths | src/pages/api/recipe.ts:17 | The image-path rewrite, scanned left to right over the input. FixIsSlashed and the lemmas after it state what it does. |
| Readme.FixIsSlashed | src/pages/api/recipe.ts:17 | The global replace equals inserting `/` before every `images/` not preceded by `/` in the input. The look-behind reads the input, never the output. |
| Readme.SlashedMatch | src/pages/api/recipe.ts:17 | At a reference, the output is `/images/` followed by the rest of the scan. |
| Readme.NoRefInside | src/pages/api/recipe.ts:17 | Matches cannot overlap. |
| Readme.EraseInserted | src/pages/api/recipe.ts:17 | Deleting the inserted characters from the output gives back the input, so nothing else is changed. |
| Readme.InsertedAreSlashes | src/pages/api/recipe.ts:17 | Every inserted character is a `/` immediately followed by `images/`. |
| Readme.FirstHeaderFrom | src/pages/api/recipe.ts:22 | `^#\s+.*$/m` finds the first line start with `#` and whitespace, or none exists. |
| Readme.NextHeaderFrom | src/pages/api/recipe.ts:28 | `\n(#{1,6}\s+.*$)/m` finds the first newline followed by one to six `#` and whitespace, or none exists. |
| Readme.NextHeaderInSlice | src/pages/api/recipe.ts:27-28 | Searching the slice from the first header is searching the text from that index. |
| Readme.PreprocessReadme | src/pages/api/recipe.ts:13-42 | The result is a suffix of the image-fixed text. It equals that text when header removal is off. |
| Readme.NoFirstHeaderKeepsText | src/pages/api/recipe.ts:22-23 | Without a first header, only the image rewrite applies. |
| Readme.CutsAtNextHeader | src/pages/api/recipe.ts:28-33 | With a first header and a later header line, the result starts at that header's `#`, just after its newline. |
| Readme.NoNextHeaderEmpties | src/pages/api/recipe.ts:34-37 | With a first header and no header after it, the result is empty. |
| RawUrls.RefsHeadsUrl | src/pages/api/gh.ts:12-15 | The first candidate: the first `github.com`, then the first `/blob/`, then the first `/tree/` is replaced, the last two by `/refs/heads/`. Its value on page URLs is in BlobUrlCandidates and TreeUrlCandidates. |
| RawUrls.DirectUrl | src/pages/api/gh.ts:19-22 | The second candidate: the same three replacements, with `/` in place of `/refs/heads/`. |
| RawUrls.ConvertToRawUrls | src/pages/api/gh.ts:8-31 | The list is the `refs/heads/` candidate and the direct candidate. A third candidate, the input itself, appears exactly when the input names the raw host. |
| RawUrls.HostReplaced | src/pages/api/gh.ts:13 | In a page URL the first `github.com` is the host, and it becomes the raw host. |
| RawUrls.SegmentReplaced | src/pages/api/gh.ts:14-15 | In a file or directory page URL, the first `/blob/` or `/tree/` is the one after owner and repository, whatever the path holds. |
| RawUrls.NoRawHost | src/pages/api/gh.ts:26 | A file page URL does not already name the raw host, so it gets no third candidate. |
| RawUrls.NoRawHostInTree | src/pages/api/gh.ts:26 | Neither does a directory page URL. |
| RawUrls.NoBlobInTree | src/pages/api/gh.ts:14 | A directory page URL whose path has no `blob` segment passes the `/blob/` rewrite unchanged. |
| RawUrls.RefsHeadsHasNoTree | src/pages/api/gh.ts:15 | After the `refs/heads/` rewrite no `/tree/` is left to rewrite. |
| RawUrls.BlobUrlCandidates | src/pages/api/gh.ts:8-31 | For `https://github.com/<owner>/<repo>/blob/<path>` whose path has no `tree` segment, the candidates are exactly `https://raw.githubusercontent.com/<owner>/<repo>/refs/heads/<path>` and `…/<owner>/<repo>/<path>`. |
| RawUrls.TreeUrlCandidates | src/pages/api/gh.ts:8-31 | For `https://github.com/<owner>/<repo>/tree/<path>` whose path has no `blob` segment, the candidates are the same two raw URLs as for the file page, and there is no third. |
| RawUrls.CookbookReadme | src/pages/api/gh.ts:2 | The usage example: the cookbook's own README page URL gives its `refs/heads/main` and `main` raw URLs. |
| RawUrls.NoPatternsUnchanged | src/pages/api/gh.ts:12-22 | A URL holding none of the three patterns comes back unchanged in both candidates. |
| Mdx.NonQuoteRun | src/utils/mdxProcessor.ts:77 | `[^"']+` read greedily: the run holds no quote, and a quote follows it. |
| Mdx.PropAt | src/utils/mdxProcessor.ts:77 | A match at `i` has a non-empty word-character key and a non-empty value with no quote. |
| Mdx.PropAtComplete | src/utils/mdxProcessor.ts:77 | Conversely, key, `=`, any quote, value and any quote at `i` is the match at `i`. The two quotes need not agree. |
| Mdx.NextProp | src/utils/mdxProcessor.ts:80 | `exec` returns the leftmost match at or after `lastIndex`; nothing means no match at or after it. |
| Mdx.PropsFromSound | src/utils/mdxProcessor.ts:77-82 | The match list is the successive `exec` results, left to right and without overlap. Unmatched text is skipped, never an error. |
| Mdx.PropStep | src/utils/mdxProcessor.ts:80-82 | Each `exec` call either ends the list, or returns its next element and moves `lastIndex` strictly forward. |
| Mdx.ParsedProps | src/utils/mdxProcessor.ts:72-85 | The object `parseProps` builds: empty for a blank string, otherwise the matches stored in order through `Store`. |
| Mdx.ParseProps | src/utils/mdxProcessor.ts:72-85 | The `exec` loop returns `ParsedProps`. A blank string gives an empty object; otherwise each match is assigned in order, and a `__proto__` key stores nothing. |
| Mdx.PropMatchesWellFormed | src/utils/mdxProcessor.ts:77 | Every match has a non-empty word-character key and a non-empty quote-free value. |
| Mdx.PropEntries | src/utils/mdxProcessor.ts:81 | Every entry of the result has such a key and such a value. |
| Mdx.LastWins | src/utils/mdxProcessor.ts:81 | A repeated key other than `__proto__` keeps the value of its last occurrence. |
| Mdx.ProtoNeverStored | src/utils/mdxProcessor.ts:81 | However often it occurs, `__proto__` never becomes an entry of the result. |
| Mdx.ProtoPropMatch | src/utils/mdxProcessor.ts:77 | The pattern matches `__proto__="x"` once, as a prop named `__proto__`. |
| Mdx.ProtoProp | src/utils/mdxProcessor.ts:72-85 | Yet `parseProps('__proto__="x"')` returns an empty object. |
| Mdx.AssignedFrom | src/utils/mdxProcessor.ts:81 | Every key of the result comes from some match. |
| Mdx.MixedQuotes | src/utils/mdxProcessor.ts:77 | `parseProps('a="x\'')` gives `{a: "x"}`, because the quotes need not match. |
| Text.CharFrom | src/utils/mdxProcessor.ts:11 | `[^>]*` cannot cross a `>`: the search returns the first `>` at or after the start, or none exists. The same search ends `<code[^>]*>` and the tags that StripTags removes. |
| Mdx.ComponentAt | src/utils/mdxProcessor.ts:11 | A self-closing tag at `i` is `<`, a non-empty word-character name, no `>` until its closing `/>`. |
| Mdx.ComponentAtComplete | src/utils/mdxProcessor.ts:11 | Conversely, `<`, a word character and a later `/>` with no `>` in between is a match, ending at that `/>`. |
| Mdx.HasComponents | src/utils/mdxProcessor.ts:11 | `test` on a fresh pattern: true exactly when some self-closing tag occurs. |
| Mdx.NextComponent | src/utils/mdxProcessor.ts:11 | `test` finds the leftmost self-closing tag, or none exists. |
| Mdx.ComponentsFromSound | src/utils/mdxProcessor.ts:40 | The matches the global replace meets are the leftmost ones, left to right and without overlap; no match starts in the text between or after them. |
| Mdx.ReplaceIsSplice | src/utils/mdxProcessor.ts:40 | From any position, the rewrite copies the text between matches and replaces each match with the placeholder naming its component. |
| Mdx.ReplaceComponentsSpec | src/utils/mdxProcessor.ts:40 | The rewrite replaces every self-closing tag, and only those, with its placeholder. All other text is kept in order. |
| Mdx.ReplaceComponents | src/utils/mdxProcessor.ts:40 | The global placeholder rewrite from the start of the content. ReplaceComponentsSpec states what it does. |
| Mdx.NoComponentsUnchanged | src/utils/mdxProcessor.ts:40 | Content without a self-closing tag is left unchanged by the placeholder rewrite. |
| Mdx.PlaceholderIsInert | src/utils/mdxProcessor.ts:40 | A placeholder naming a word-character component contains no self-closing tag of its own. |
| Mdx.RouteMdx | src/utils/mdxProcessor.ts:9-48 | Without components the content goes to plain Markdown. The placeholder page is produced exactly when there are components and compilation succeeds, and its body is the rewrite of the content. |

## Left out

- Asynchrony: the `async`/`await` structure is not modelled. Each call runs to completion in order, which is how a single `processContent` call behaves.
- The highlighter (Shiki) and the Markdown renderer (marked) are not modelled:
  - their internals, their options (`setOptions`, `breaks`, `gfm`) and `createCustomRenderer`'s object wiring;
  - they are parameters: a highlighting function and a lexer producing fenced-code, code-span and markup tokens;
  - marked's own nesting of rendered output is reduced to concatenating the tokens' pieces in order.
- Markup chrome is reduced to fixed strings:
  - the Tailwind classes, the copy button's SVG icons, and the whitespace of the template literals;
  - the MDX page wrapper around the placeholders.

  The structure and the embedded values are modelled.
- CodeBlocks.CodeBlockProcessor.ProcessContent: does not state the final value of `currentLanguage`, which the source leaves at the last extracted language. Nothing reads it after rendering.
- CodeBlocks.CodeBlockProcessor.AddLineNumbers: the replacement string at `codeBlockProcessor.ts:122` goes through `String.prototype.replace`, which expands `$&`, `$1`, `` $` `` and `$'`. The model inserts the numbered code literally, so highlighter output containing such sequences is not modelled.
- Text.ReplaceFirst: models `replace` with a string pattern whose replacement contains no `$` pattern, which holds for every call in `gh.ts`.
- Strings are sequences of Unicode scalar values, not UTF-16 code units. Surrogate pairs and lone surrogates, which `\s`, `\w` and `[^…]` see as separate units in JavaScript, are not modelled.
- The `GET` handlers of `recipe.ts` and `gh.ts` are not modelled: fetching, file reading, responses and logging are I/O.
- MDX compilation (`compile`), the dynamic `import('marked')` and `renderComponentFromFile` are not modelled. Compilation enters `RouteMdx` as a success flag.
- `src/pages/api/examples.ts` and `astro.config.mjs` are not part of this model.
