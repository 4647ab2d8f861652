/**
 * The two-pass code-fence renderer `CodeBlockProcessor`
 * (src/utils/codeBlockProcessor.ts).
 *
 * Pass one scans the Markdown source with the fence pattern, highlights each
 * body and stores the result under `code-block-N` in a map, N counting up
 * from 0. Pass two lets the Markdown renderer walk its own tokens; the
 * fenced-code hook reuses the counter, reset to 0, as a read cursor into the
 * map, and the inline-code hook escapes the span's text.
 *
 * The highlighter and the Markdown lexer are foreign code, so the processor
 * receives them as function values: the highlighter either returns html or
 * fails, and the lexer turns the source into a sequence of tokens whose
 * rendered pieces make up the output in order.
 */
module CodeBlocks {
  import opened Text
  import opened HtmlEscape
  import opened Fences
  import opened LineNumbers

  /** A stored block: the highlighted (or escaped) html, the language and the raw body. */
  datatype CodeBlock = CodeBlock(html: string, language: string, code: string)

  /** What the highlighter does with a body and a language: html, or a thrown error. */
  datatype HighlightResult = Highlighted(html: string) | HighlightFailed

  type Highlighter = (string, string) -> HighlightResult

  /** The JavaScript value the inline-code hook receives: a string, an object
      with (possibly empty or missing, here "") `text` and `raw` properties,
      a falsy value, or another truthy value with its `String(…)` rendering. */
  datatype JsValue =
    | JsString(s: string)
    | JsObject(text: string, raw: string)
    | JsFalsy
    | JsPrimitive(display: string)

  /** The Markdown renderer's tokens, as far as the hooks see them: a fenced
      block (its text and info-string language, "" when absent), an inline
      code span, or anything else, already rendered to markup. */
  datatype MdToken =
    | FencedCode(text: string, lang: string)
    | CodeSpan(code: JsValue)
    | Markup(html: string)

  type Lexer = string -> seq<MdToken>

  /** `code-block-${n}` */
  function BlockId(n: nat): string {
    "code-block-" + NatToString(n)
  }

  /** Distinct counter values give distinct ids. */
  lemma BlockIdInjective(a: nat, b: nat)
    requires BlockId(a) == BlockId(b)
    ensures a == b
  {
    assert NatToString(a) == BlockId(a)[11..];
    assert NatToString(b) == BlockId(b)[11..];
    NatToStringInjective(a, b);
  }

  // ---------------------------------------------------------------------
  // Extraction pass, as a specification
  // ---------------------------------------------------------------------

  /** What the extraction loop stores for one fence match
      (codeBlockProcessor.ts:43-81). */
  function BlockOf(f: Fence, highlight: Highlighter): (b: CodeBlock)
    ensures b.code == f.code && b.language == Language(f)
  {
    var language := Language(f);
    match highlight(f.code, language)
    case Highlighted(h) => CodeBlock(Annotated(h, language), language, f.code)
    case HighlightFailed => CodeBlock(FallbackHtml(f.code, language), language, f.code)
  }

  /** The blocks of all fence matches, in match order. */
  function ExtractedBlocks(content: string, highlight: Highlighter): (blocks: seq<CodeBlock>)
    ensures |blocks| == |FenceMatches(content)|
  {
    BlocksOf(FenceMatches(content), highlight)
  }

  function BlocksOf(fs: seq<Fence>, highlight: Highlighter): (blocks: seq<CodeBlock>)
    ensures |blocks| == |fs|
  {
    if fs == [] then [] else [BlockOf(fs[0], highlight)] + BlocksOf(fs[1..], highlight)
  }

  /** The k-th block is the k-th match's. */
  lemma {:induction false} BlocksOfAt(fs: seq<Fence>, highlight: Highlighter, k: nat)
    requires k < |fs|
    ensures BlocksOf(fs, highlight)[k] == BlockOf(fs[k], highlight)
  {
    if k > 0 {
      BlocksOfAt(fs[1..], highlight, k - 1);
    }
  }

  /** The map after storing the first `n` of `blocks` one after another
      under the ids that follow `base`, starting from `m`. */
  function Entries(base: nat, blocks: seq<CodeBlock>, n: nat, m: map<string, CodeBlock>): map<string, CodeBlock>
    requires n <= |blocks|
  {
    if n == 0 then m
    else Entries(base, blocks, n - 1, m)[BlockId(base + n - 1) := blocks[n - 1]]
  }

  /** One iteration of the extraction loop, seen from the list of matches:
      the `exec` result is the next match in the list and its block is the
      next extracted block; no result means the list is exhausted. */
  lemma ExecStep(content: string, highlight: Highlighter, lastIndex: nat, k: nat)
    requires k <= |FenceMatches(content)| && FencesFrom(content, lastIndex) == FenceMatches(content)[k..]
    ensures NextFence(content, lastIndex).None? ==>
      k == |ExtractedBlocks(content, highlight)|
    ensures NextFence(content, lastIndex).Some? ==>
      var f := NextFence(content, lastIndex).value;
      && lastIndex < f.end <= |content|
      && k < |FenceMatches(content)|
      && FencesFrom(content, f.end) == FenceMatches(content)[k + 1..]
      && ExtractedBlocks(content, highlight)[k] == BlockOf(f, highlight)
  {
    var all := FenceMatches(content);
    NextFenceStep(content, lastIndex);
    if NextFence(content, lastIndex).Some? {
      BlocksOfAt(all, highlight, k);
      assert all[k] == NextFence(content, lastIndex).value && all[k + 1..] == all[k..][1..];
    }
  }

  /** Storing the next block adds exactly its entry. */
  lemma EntriesSnoc(base: nat, blocks: seq<CodeBlock>, n: nat, m: map<string, CodeBlock>, counter: nat, block: CodeBlock)
    requires n < |blocks| && counter == base + n && block == blocks[n]
    ensures Entries(base, blocks, n + 1, m) == Entries(base, blocks, n, m)[BlockId(counter) := block]
  {
    assert base + (n + 1) - 1 == counter;
  }

  /** The map a fresh extraction leaves behind. */
  function BlockTable(blocks: seq<CodeBlock>): map<string, CodeBlock> {
    Entries(0, blocks, |blocks|, map[])
  }

  /** Each stored entry holds the captured body verbatim, and its language is
      the fence's word-character tag, or `text` when the tag is absent, on
      the highlighted and the fallback path alike. */
  lemma StoredBlockFields(content: string, highlight: Highlighter, k: nat)
    requires k < |FenceMatches(content)|
    ensures var f := FenceMatches(content)[k];
      var b := ExtractedBlocks(content, highlight)[k];
      && OccursAt(content, Ticks + TagText(f) + "\n" + b.code + Ticks, f.start)
      && WordChars(TagText(f))
      && b.language == (if TagText(f) == [] then "text" else TagText(f))
  {
    var fs := FenceMatches(content);
    BlocksOfAt(fs, highlight, k);
    FenceMatchShape(content, k);
  }

  /** Every key of the map after storing n blocks is one of the first n ids. */
  lemma {:induction false} EntriesOnly(blocks: seq<CodeBlock>, n: nat, key: string)
    requires n <= |blocks|
    requires key in Entries(0, blocks, n, map[])
    ensures exists k :: 0 <= k < n && key == BlockId(k)
  {
    if key != BlockId(n - 1) {
      EntriesOnly(blocks, n - 1, key);
    }
  }

  /** `code-block-k` holds the k-th block once n > k blocks are stored. */
  lemma {:induction false} EntriesHas(blocks: seq<CodeBlock>, n: nat, k: nat)
    requires k < n <= |blocks|
    ensures BlockId(k) in Entries(0, blocks, n, map[]) && Entries(0, blocks, n, map[])[BlockId(k)] == blocks[k]
  {
    if k < n - 1 {
      EntriesHas(blocks, n - 1, k);
      if BlockId(k) == BlockId(n - 1) { BlockIdInjective(k, n - 1); }
    }
  }

  /** Storing n blocks gives n distinct entries. */
  lemma {:induction false} EntriesCard(blocks: seq<CodeBlock>, n: nat)
    requires n <= |blocks|
    ensures |Entries(0, blocks, n, map[])| == n
  {
    if n > 0 {
      EntriesCard(blocks, n - 1);
      if BlockId(n - 1) in Entries(0, blocks, n - 1, map[]) {
        EntriesOnly(blocks, n - 1, BlockId(n - 1));
        var k :| 0 <= k < n - 1 && BlockId(n - 1) == BlockId(k);
        BlockIdInjective(n - 1, k);
      }
    }
  }

  /** The map after extraction holds exactly one entry per match: `code-block-k`
      holds the k-th block, and there are no other keys. */
  lemma BlockTableShape(blocks: seq<CodeBlock>)
    ensures forall k :: 0 <= k < |blocks| ==> BlockId(k) in BlockTable(blocks) && BlockTable(blocks)[BlockId(k)] == blocks[k]
    ensures forall key :: key in BlockTable(blocks) ==> exists k :: 0 <= k < |blocks| && key == BlockId(k)
    ensures |BlockTable(blocks)| == |blocks|
  {
    forall k | 0 <= k < |blocks|
      ensures BlockId(k) in BlockTable(blocks) && BlockTable(blocks)[BlockId(k)] == blocks[k]
    {
      EntriesHas(blocks, |blocks|, k);
    }
    forall key | key in BlockTable(blocks)
      ensures exists k :: 0 <= k < |blocks| && key == BlockId(k)
    {
      EntriesOnly(blocks, |blocks|, key);
    }
    EntriesCard(blocks, |blocks|);
  }

  /** No id at or beyond the number of blocks is in the table. */
  lemma BlockTableMiss(blocks: seq<CodeBlock>, o: nat)
    requires o >= |blocks|
    ensures BlockId(o) !in BlockTable(blocks)
  {
    if BlockId(o) in BlockTable(blocks) {
      EntriesOnly(blocks, |blocks|, BlockId(o));
      var k :| 0 <= k < |blocks| && BlockId(o) == BlockId(k);
      BlockIdInjective(o, k);
    }
  }


  // ---------------------------------------------------------------------
  // Render pass, as a specification
  // ---------------------------------------------------------------------

  /** The fence chrome around the language label and the content (the
      Tailwind classes and the copy button's icons are not modelled). */
  const FenceHead := "<div class=\"code-fence-container\"><div class=\"code-fence-header\"><span class=\"language-label\">"
  const CopyButton := "</span><button class=\"fence-copy-btn\" onclick=\"copyFenceCode(this)\" title=\"Copy code\"></button></div>"
  const CodeContentOpen := "<div class=\"code-content\">"
  const InlineOpen := "<code class=\"inline-code\" onclick=\"copyInlineCode(this)\" title=\"Click to copy\">"

  /** `renderCodeBlock` (codeBlockProcessor.ts:163-182): the block's html,
      unmodified, under a header labelled with the block's language. */
  function RenderCodeBlock(block: CodeBlock): (r: string)
    ensures FenceHead + block.language + CopyButton + CodeContentOpen <= r
    ensures OccursAt(r, block.html, |FenceHead + block.language + CopyButton + CodeContentOpen|)
  {
    var head := FenceHead + block.language + CopyButton + CodeContentOpen;
    var r := head + block.html + "</div></div>";
    assert r[|head|..|head| + |block.html|] == block.html;
    r
  }

  /** The fenced-code hook's miss branch (codeBlockProcessor.ts:135-150): the
      token's text, not escaped, labelled `token.lang || 'text'`. */
  function MissingBlockHtml(text: string, lang: string): (r: string)
    ensures FenceHead + Label(lang) + CopyButton <= r
    ensures OccursAt(r, text, |FenceHead + Label(lang) + CopyButton + "<pre><code class=\"language-" + Label(lang) + "\">"|)
  {
    var head := FenceHead + Label(lang) + CopyButton + "<pre><code class=\"language-" + Label(lang) + "\">";
    var r := head + text + "</code></pre></div>";
    assert r[|head|..|head| + |text|] == text;
    assert (FenceHead + Label(lang) + CopyButton) <= head;
    r
  }

  /** The text the inline-code hook escapes (codeBlockProcessor.ts:186-196):
      a string as is, else a truthy `text`, else a truthy `raw`, else `String(code || '')`. */
  function InlineText(v: JsValue): string {
    match v
    case JsString(s) => s
    case JsObject(text, raw) => if text != [] then text else if raw != [] then raw else "[object Object]"
    case JsFalsy => ""
    case JsPrimitive(display) => display
  }

  /** `renderInlineCode` (codeBlockProcessor.ts:184-206): the span's text is
      escaped so that no raw `< > " '` is left, and decoding the entities
      gives the text back. */
  function RenderInlineCode(v: JsValue): (r: string)
    ensures InlineOpen <= r && |r| >= |InlineOpen| + 7 && r[|r| - 7..] == "</code>"
    ensures var body := r[|InlineOpen|..|r| - 7];
      && '<' !in body && '>' !in body && '"' !in body && '\'' !in body
      && Unescape(body) == InlineText(v)
  {
    var escaped := EscapeInline(InlineText(v));
    EscapeInlineSound(InlineText(v));
    var r := InlineOpen + escaped + "</code>";
    assert r[|InlineOpen|..|r| - 7] == escaped;
    r
  }

  /** What the fenced-code hook emits when the cursor stands at `c`. */
  function FencedPiece(table: map<string, CodeBlock>, c: nat, text: string, lang: string): string {
    if BlockId(c) in table then RenderCodeBlock(table[BlockId(c)]) else MissingBlockHtml(text, lang)
  }

  /** The piece one token contributes when the cursor stands at `c`. */
  function Piece(t: MdToken, table: map<string, CodeBlock>, c: nat): string {
    match t
    case FencedCode(text, lang) => FencedPiece(table, c, text, lang)
    case CodeSpan(v) => RenderInlineCode(v)
    case Markup(html) => html
  }

  /** The number of fenced-code tokens, i.e. how far the cursor moves over `tokens`. */
  function FencedCount(tokens: seq<MdToken>): (n: nat)
    ensures n <= |tokens|
    decreases |tokens|
  {
    if tokens == [] then 0
    else FencedCount(tokens[..|tokens| - 1]) + (if tokens[|tokens| - 1].FencedCode? then 1 else 0)
  }

  /** The pieces of the render pass, in token order: each token rendered with
      the cursor moved past the fenced tokens before it. */
  function Pieces(tokens: seq<MdToken>, table: map<string, CodeBlock>, c: nat): (ps: seq<string>)
    ensures |ps| == |tokens|
  {
    seq(|tokens|, j requires 0 <= j < |tokens| => Piece(tokens[j], table, c + FencedCount(tokens[..j])))
  }

  function Concat(ps: seq<string>): string
    decreases |ps|
  {
    if ps == [] then [] else Concat(ps[..|ps| - 1]) + ps[|ps| - 1]
  }

  /** The output of a whole `processContent` call. */
  function ProcessedHtml(highlight: Highlighter, lexer: Lexer, content: string): string {
    Concat(Pieces(lexer(content), BlockTable(ExtractedBlocks(content, highlight)), 0))
  }

  /** One step of the render walk: the piece at `i` is the token's own piece
      at the current cursor, and the cursor moves on by one exactly for a
      fenced token. */
  lemma PieceStep(tokens: seq<MdToken>, table: map<string, CodeBlock>, c: nat, i: nat, counter: nat)
    requires i < |tokens| && counter == c + FencedCount(tokens[..i])
    ensures Pieces(tokens, table, c)[i] == Piece(tokens[i], table, counter)
    ensures c + FencedCount(tokens[..i + 1]) == counter + (if tokens[i].FencedCode? then 1 else 0)
  {
    PiecesAt(tokens, table, c, i);
    FencedCountSnoc(tokens, i);
  }

  lemma PiecesAt(tokens: seq<MdToken>, table: map<string, CodeBlock>, c: nat, i: nat)
    requires i < |tokens|
    ensures Pieces(tokens, table, c)[i] == Piece(tokens[i], table, c + FencedCount(tokens[..i]))
  {
  }

  lemma FencedCountSnoc(tokens: seq<MdToken>, i: nat)
    requires i < |tokens|
    ensures FencedCount(tokens[..i + 1]) == FencedCount(tokens[..i]) + (if tokens[i].FencedCode? then 1 else 0)
  {
    var t := tokens[..i + 1];
    assert t[..|t| - 1] == tokens[..i] && t[|t| - 1] == tokens[i];
  }

  lemma ConcatSnoc(ps: seq<string>, i: nat, p: string)
    requires i < |ps| && ps[i] == p
    ensures Concat(ps[..i + 1]) == Concat(ps[..i]) + p
  {
    assert ps[..i + 1][..i] == ps[..i];
  }

  /** Fenced tokens get consecutive cursor positions: a later fenced token has
      a larger one, and every position is below the total count. */
  lemma {:induction false} FencedCountMonotone(tokens: seq<MdToken>, i: nat, j: nat)
    requires i < j <= |tokens| && tokens[i].FencedCode?
    ensures FencedCount(tokens[..i]) < FencedCount(tokens[..j])
    decreases j
  {
    if j == i + 1 {
      assert tokens[..j][..i] == tokens[..i];
    } else {
      FencedCountMonotone(tokens, i, j - 1);
      assert tokens[..j][..j - 1] == tokens[..j - 1];
    }
  }

  /** The cursor pairing: the fenced token with ordinal o (the number of
      fenced tokens before it) reads `code-block-o`. When the extraction found
      more than o fences it emits the o-th extracted block, otherwise the miss
      rendering of its own text. Code spans and other tokens are unaffected. */
  lemma CursorPairing(tokens: seq<MdToken>, blocks: seq<CodeBlock>, j: nat)
    requires j < |tokens|
    ensures var o := FencedCount(tokens[..j]);
      var p := Pieces(tokens, BlockTable(blocks), 0)[j];
      match tokens[j]
      case FencedCode(text, lang) =>
        p == (if o < |blocks| then RenderCodeBlock(blocks[o]) else MissingBlockHtml(text, lang))
      case CodeSpan(v) => p == RenderInlineCode(v)
      case Markup(html) => p == html
  {
    var table := BlockTable(blocks);
    var o := FencedCount(tokens[..j]);
    assert 0 + o == o;
    if tokens[j].FencedCode? {
      if o < |blocks| {
        EntriesHas(blocks, |blocks|, o);
      } else {
        BlockTableMiss(blocks, o);
      }
    }
  }


  // ---------------------------------------------------------------------
  // The processor
  // ---------------------------------------------------------------------

  class CodeBlockProcessor {
    var codeBlocks: map<string, CodeBlock>
    var codeBlockCounter: nat
    var currentLanguage: string
    const highlight: Highlighter
    const lexer: Lexer

    constructor (highlight: Highlighter, lexer: Lexer)
      ensures codeBlocks == map[] && codeBlockCounter == 0 && currentLanguage == "text"
      ensures this.highlight == highlight && this.lexer == lexer
    {
      codeBlocks := map[];
      codeBlockCounter := 0;
      currentLanguage := "text";
      this.highlight := highlight;
      this.lexer := lexer;
    }

    /** `processContent` (codeBlockProcessor.ts:15-36). The map and the
        counter are reset first and the counter again before rendering, so
        the result and the map depend on `content` alone. */
    method ProcessContent(content: string) returns (html: string)
      modifies this
      ensures codeBlocks == BlockTable(ExtractedBlocks(content, highlight))
      ensures codeBlockCounter == FencedCount(lexer(content))
      ensures html == ProcessedHtml(highlight, lexer, content)
    {
      codeBlocks := map[];
      codeBlockCounter := 0;
      PreprocessCodeBlocks(content);
      codeBlockCounter := 0;
      html := RenderTokens(lexer(content));
    }

    /** The extraction loop (codeBlockProcessor.ts:38-83): one `exec` per
        iteration, each match stored under the next counter value. */
    method PreprocessCodeBlocks(content: string)
      modifies this
      ensures codeBlocks == Entries(old(codeBlockCounter), ExtractedBlocks(content, highlight), |FenceMatches(content)|, old(codeBlocks))
      ensures codeBlockCounter == old(codeBlockCounter) + |FenceMatches(content)|
    {
      ghost var base := codeBlockCounter;
      ghost var start := codeBlocks;
      ghost var blocks := ExtractedBlocks(content, highlight);
      ghost var k: nat := 0;
      var lastIndex: nat := 0;
      while true
        invariant k <= |blocks| && FencesFrom(content, lastIndex) == FenceMatches(content)[k..]
        invariant codeBlockCounter == base + k
        invariant codeBlocks == Entries(base, blocks, k, start)
        decreases |content| - lastIndex
      {
        var match_ := NextFence(content, lastIndex);
        ExecStep(content, highlight, lastIndex, k);
        if match_.None? {
          break;
        }
        var f := match_.value;
        lastIndex := f.end;
        var counter := codeBlockCounter;
        var id := BlockId(counter);
        codeBlockCounter := counter + 1;
        var block := HighlightMatch(f);
        EntriesSnoc(base, blocks, k, start, counter, block);
        codeBlocks := codeBlocks[id := block];
        k := k + 1;
      }
    }

    /** The body of the extraction loop for one match (codeBlockProcessor.ts:43-81):
        the language is remembered for `addLineNumbers`, then the body is
        highlighted and numbered, or escaped and numbered when the
        highlighter fails. */
    method HighlightMatch(f: Fence) returns (block: CodeBlock)
      modifies this`currentLanguage
      ensures currentLanguage == Language(f)
      ensures block == BlockOf(f, highlight)
    {
      var language := Language(f);
      var code := f.code;
      currentLanguage := language;
      match highlight(code, language) {
        case Highlighted(h) =>
          var withNumbers := AddLineNumbers(h);
          block := CodeBlock(withNumbers, language, code);
        case HighlightFailed =>
          block := CodeBlock(FallbackHtml(code, language), language, code);
      }
    }

    /** `addLineNumbers` (codeBlockProcessor.ts:85-123), with its in-place
        trimming loop. */
    method AddLineNumbers(html: string) returns (r: string)
      ensures r == Annotated(html, currentLanguage)
    {
      var codeMatch := FindCodeElement(html);
      if codeMatch.None? {
        return html;
      }
      var e := codeMatch.value;
      var codeContent := TrimEnd(html[e.contentStart..e.contentEnd]);
      var lines := Split(codeContent, '\n');
      ghost var original := lines;
      while |lines| > 0
        invariant DropTrailingBlank(lines) == DropTrailingBlank(original)
        decreases |lines|
      {
        var lastLine := lines[|lines| - 1];
        var strippedLine := Trim(StripTags(lastLine));
        if strippedLine == [] {
          lines := lines[..|lines| - 1];
        } else {
          break;
        }
      }
      var numberedCode := NumberLines(lines);
      r := html[..e.start] + CodeTag(Label(currentLanguage)) + numberedCode + CodeClose + html[e.end..];
    }

    /** The fenced-code hook (codeBlockProcessor.ts:129-153): read the entry
        under the cursor and advance it. */
    method RenderFencedCode(text: string, lang: string) returns (out: string)
      modifies this`codeBlockCounter
      ensures codeBlockCounter == old(codeBlockCounter) + 1
      ensures out == FencedPiece(codeBlocks, old(codeBlockCounter), text, lang)
    {
      var id := BlockId(codeBlockCounter);
      codeBlockCounter := codeBlockCounter + 1;
      if id !in codeBlocks {
        out := MissingBlockHtml(text, lang);
      } else {
        out := RenderCodeBlock(codeBlocks[id]);
      }
    }

    /** One token through the renderer: the fenced-code hook, the inline-code
        hook, or the renderer's own html for any other token. */
    method RenderToken(t: MdToken) returns (piece: string)
      modifies this`codeBlockCounter
      ensures codeBlockCounter == old(codeBlockCounter) + (if t.FencedCode? then 1 else 0)
      ensures piece == Piece(t, codeBlocks, old(codeBlockCounter))
    {
      match t {
        case FencedCode(text, lang) =>
          piece := RenderFencedCode(text, lang);
        case CodeSpan(v) =>
          piece := RenderInlineCode(v);
        case Markup(html) =>
          piece := html;
      }
    }

    /** The Markdown renderer's walk over its tokens, calling the hooks in
        document order and concatenating what they return. */
    method RenderTokens(tokens: seq<MdToken>) returns (out: string)
      modifies this`codeBlockCounter
      ensures codeBlockCounter == old(codeBlockCounter) + FencedCount(tokens)
      ensures out == Concat(Pieces(tokens, codeBlocks, old(codeBlockCounter)))
    {
      ghost var base := codeBlockCounter;
      ghost var ps := Pieces(tokens, codeBlocks, base);
      out := "";
      var i := 0;
      while i < |tokens|
        invariant i <= |tokens|
        invariant codeBlockCounter == base + FencedCount(tokens[..i])
        invariant out == Concat(ps[..i])
      {
        var counter := codeBlockCounter;
        PieceStep(tokens, codeBlocks, base, i, counter);
        var piece := RenderToken(tokens[i]);
        ConcatSnoc(ps, i, piece);
        out := out + piece;
        i := i + 1;
      }
      assert ps[..i] == ps && tokens[..i] == tokens;
    }
  }

  /** `processMarkdownWithCodeBlocks` (codeBlockProcessor.ts:210-213): a fresh
      processor per call. */
  method ProcessMarkdownWithCodeBlocks(highlight: Highlighter, lexer: Lexer, content: string) returns (html: string)
    ensures html == ProcessedHtml(highlight, lexer, content)
  {
    var processor := new CodeBlockProcessor(highlight, lexer);
    html := processor.ProcessContent(content);
  }

  /** Session isolation: a processor that already rendered one document
      renders the next exactly as a fresh processor would. */
  method ProcessTwice(highlight: Highlighter, lexer: Lexer, first: string, second: string)
    returns (html: string)
    ensures html == ProcessedHtml(highlight, lexer, second)
  {
    var processor := new CodeBlockProcessor(highlight, lexer);
    var _ := processor.ProcessContent(first);
    html := processor.ProcessContent(second);
  }
}
