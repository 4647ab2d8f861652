/**
 * The line-number annotator (`addLineNumbers`,
 * src/utils/codeBlockProcessor.ts:85-123) and the escaped fallback rendering
 * used when the highlighter fails (:66-77). Both annotate code the same way:
 * each line goes into a `line` span that holds a `line-number` span with its
 * 1-based number and a `line-content` span with the line, and the spans are
 * joined with newlines.
 *
 * This module holds the pure parts. The in-place trimming loop of
 * `addLineNumbers` is `CodeBlocks.CodeBlockProcessor.AddLineNumbers`, which
 * is proved to compute `Annotated`.
 */
module LineNumbers {
  import opened Text
  import opened HtmlEscape

  /** The first `<code…>…</code>` element: where it starts, where its content
      starts and ends, and where the element ends. */
  datatype CodeElement = CodeElement(start: nat, contentStart: nat, contentEnd: nat, end: nat)

  const CodeOpen := "<code"
  const CodeClose := "</code>"

  /** The match of /<code[^>]*>([\s\S]*?)<\/code>/ starting exactly at `i`.
      `[^>]*` cannot pass a `>`, so the opening tag ends at the first `>`
      after `<code`; the lazy content ends at the first `</code>` after that. */
  function CodeElementAt(html: string, i: nat): (r: Option<CodeElement>)
    ensures r.Some? ==> r.value.start == i < r.value.contentStart <= r.value.contentEnd
    ensures r.Some? ==> r.value.end == r.value.contentEnd + 7 <= |html|
    ensures r.Some? ==> OccursAt(html, CodeOpen, i) && i + 5 < r.value.contentStart
    ensures r.Some? ==> html[r.value.contentStart - 1] == '>'
    ensures r.Some? ==> forall j :: i + 5 <= j < r.value.contentStart - 1 ==> html[j] != '>'
    ensures r.Some? ==> OccursAt(html, CodeClose, r.value.contentEnd)
    ensures r.Some? ==> forall j :: r.value.contentStart <= j < r.value.contentEnd ==> !OccursAt(html, CodeClose, j)
  {
    if !OccursAt(html, CodeOpen, i) then None
    else
      match CharFrom(html, '>', i + 5)
      case None => None
      case Some(g) =>
        match IndexFrom(html, CodeClose, g + 1)
        case None => None
        case Some(c) => Some(CodeElement(i, g + 1, c, c + 7))
  }

  /** `html.match(…)` without the global flag: the leftmost match. */
  function FindCodeElementFrom(html: string, from: nat): (r: Option<CodeElement>)
    ensures r.Some? ==> from <= r.value.start && CodeElementAt(html, r.value.start) == r
    ensures r.Some? ==> forall j :: from <= j < r.value.start ==> CodeElementAt(html, j).None?
    ensures r.None? ==> forall j :: from <= j ==> CodeElementAt(html, j).None?
    decreases |html| - from
  {
    if from >= |html| then None
    else match CodeElementAt(html, from)
      case Some(e) => Some(e)
      case None => FindCodeElementFrom(html, from + 1)
  }

  function FindCodeElement(html: string): Option<CodeElement> {
    FindCodeElementFrom(html, 0)
  }

  /** `line.replace(/<[^>]*>/g, '')`: a `<` with a `>` somewhere after it
      starts a tag that runs to the first such `>`, and the tag is removed.
      A `<` with no `>` after it stays, and so does all other text. What is
      left holds no `<` followed, however far on, by a `>`. */
  function StripTags(s: string): (r: string)
    ensures |r| <= |s|
    ensures '<' !in s || '>' !in s ==> r == s
    ensures forall i, j :: 0 <= i < j < |r| && r[i] == '<' ==> r[j] != '>'
    decreases |s|
  {
    if s == [] then []
    else if s[0] == '<' then
      match CharFrom(s, '>', 1)
      case Some(g) => StripTags(s[g + 1..])
      // No `>` follows, so no tag starts here or anywhere later.
      case None => s
    else
      var rest := StripTags(s[1..]);
      assert forall j :: 0 < j < |[s[0]] + rest| ==> ([s[0]] + rest)[j] == rest[j - 1];
      [s[0]] + rest
  }

  /** A tag is cut out of the line, and the text before it is kept. */
  lemma {:induction false} StripTagsTag(a: string, t: string, b: string)
    requires '<' !in a && '>' !in t
    ensures StripTags(a + ("<" + t + ">") + b) == a + StripTags(b)
    decreases |a|
  {
    var s := a + ("<" + t + ">") + b;
    if a == [] {
      assert s == "<" + t + ">" + b;
      assert s[|t| + 1] == '>';
      assert forall k :: 1 <= k <= |t| ==> s[k] == t[k - 1];
      assert CharFrom(s, '>', 1) == Some(|t| + 1);
      assert s[|t| + 2..] == b;
    } else {
      assert s[0] == a[0] && s[1..] == a[1..] + ("<" + t + ">") + b;
      StripTagsTag(a[1..], t, b);
      assert a == [a[0]] + a[1..];
    }
  }

  /** `lastLine.replace(/<[^>]*>/g, '').trim() === ''` */
  predicate IsBlankLine(line: string) {
    Trim(StripTags(line)) == []
  }

  /** The lines that survive the trimming loop (codeBlockProcessor.ts:100-109):
      the trailing lines that are blank once tags are stripped are dropped, and
      nothing else. The last kept line is not blank, so a blank line between
      two non-blank lines is always kept. */
  function DropTrailingBlank(lines: seq<string>): (kept: seq<string>)
    ensures kept <= lines
    ensures kept == [] || !IsBlankLine(kept[|kept| - 1])
    ensures forall k :: |kept| <= k < |lines| ==> IsBlankLine(lines[k])
  {
    DropTrailing(lines, IsBlankLine)
  }

  function DropTrailing(lines: seq<string>, blank: string -> bool): (kept: seq<string>)
    ensures kept <= lines
    ensures kept == [] || !blank(kept[|kept| - 1])
    ensures forall k :: |kept| <= k < |lines| ==> blank(lines[k])
  {
    if lines == [] then []
    else if blank(lines[|lines| - 1]) then
      var kept := DropTrailing(lines[..|lines| - 1], blank);
      assert forall k :: |kept| <= k < |lines| - 1 ==> lines[k] == lines[..|lines| - 1][k];
      kept
    else lines
  }

  const LineOpen := "<span class=\"line\">"
  const NumberOpen := "<span class=\"line-number\">"
  const ContentOpen := "</span><span class=\"line-content\">"
  const RowClose := "</span></span>"

  /** One numbered line, `n` being its 1-based number (codeBlockProcessor.ts:73, :113-117). */
  function Row(n: nat, content: string): string {
    LineOpen + NumberOpen + NatToString(n) + ContentOpen + content + RowClose
  }

  function Rows(lines: seq<string>): (rows: seq<string>)
    ensures |rows| == |lines|
  {
    seq(|lines|, k requires 0 <= k < |lines| => Row(k + 1, lines[k]))
  }

  /** `lines.map(…).join('\n')` */
  function NumberLines(lines: seq<string>): string {
    Join(Rows(lines), '\n')
  }

  lemma RowHasNoNewline(n: nat, content: string)
    requires '\n' !in content
    ensures '\n' !in Row(n, content)
  {
    assert '\n' !in LineOpen && '\n' !in NumberOpen;
    assert '\n' !in ContentOpen && '\n' !in RowClose;
    assert '\n' !in NatToString(n);
  }

  /** The numbered block has exactly one line per input line, the k-th being
      the row numbered k + 1 that holds the k-th input line unmodified. */
  lemma NumberLinesRows(lines: seq<string>)
    requires forall k :: 0 <= k < |lines| ==> '\n' !in lines[k]
    ensures |lines| > 0 ==> Split(NumberLines(lines), '\n') == Rows(lines)
    ensures |lines| == 0 ==> NumberLines(lines) == []
  {
    var rows := Rows(lines);
    forall k | 0 <= k < |rows| ensures '\n' !in rows[k] {
      RowHasNoNewline(k + 1, lines[k]);
    }
    if |lines| > 0 {
      SplitJoin(rows, '\n');
    }
  }

  /** `this.currentLanguage || 'text'` */
  function Label(language: string): (l: string)
    ensures l != []
  {
    if language == [] then "text" else language
  }

  function CodeTag(language: string): string {
    "<code class=\"language-" + language + "\">"
  }

  /** The lines `addLineNumbers` numbers: the element's content with trailing
      whitespace removed, split on newlines, trailing blank lines dropped. */
  function KeptLines(content: string): seq<string> {
    DropTrailingBlank(Split(TrimEnd(content), '\n'))
  }

  /** What `addLineNumbers` returns for highlighter output `html`. */
  function Annotated(html: string, currentLanguage: string): string {
    match FindCodeElement(html)
    case None => html
    case Some(e) =>
      html[..e.start] + CodeTag(Label(currentLanguage))
      + NumberLines(KeptLines(html[e.contentStart..e.contentEnd])) + CodeClose + html[e.end..]
  }

  /** codeBlockProcessor.ts:87-122. Without a code element the html is
      returned unchanged. Otherwise only the first code element is replaced:
      the text before it is kept and followed by the new opening tag carrying
      the language, and the result ends with `</code>` and the text after the
      element. */
  lemma AnnotatedFrame(html: string, currentLanguage: string)
    ensures FindCodeElement(html).None? ==> Annotated(html, currentLanguage) == html
    ensures FindCodeElement(html).Some? ==>
      var e := FindCodeElement(html).value;
      var a := Annotated(html, currentLanguage);
      var post := CodeClose + html[e.end..];
      && html[..e.start] + CodeTag(Label(currentLanguage)) <= a
      && |post| <= |a| && a[|a| - |post|..] == post
  {
    match FindCodeElement(html)
    case None =>
    case Some(e) =>
      var pre := html[..e.start] + CodeTag(Label(currentLanguage));
      var body := NumberLines(KeptLines(html[e.contentStart..e.contentEnd]));
      var post := CodeClose + html[e.end..];
      AnnotatedSplit(html, currentLanguage, e);
      Framed(pre, body, post);
  }

  lemma AnnotatedSplit(html: string, currentLanguage: string, e: CodeElement)
    requires FindCodeElement(html) == Some(e)
    ensures Annotated(html, currentLanguage)
      == (html[..e.start] + CodeTag(Label(currentLanguage)))
       + NumberLines(KeptLines(html[e.contentStart..e.contentEnd])) + (CodeClose + html[e.end..])
  {
  }

  lemma Framed(pre: string, body: string, post: string)
    ensures pre <= pre + body + post
    ensures |post| <= |pre + body + post| && (pre + body + post)[|pre + body + post| - |post|..] == post
  {
    assert (pre + body + post)[|pre + body|..] == post;
  }

  lemma KeptLinesNoNewline(content: string)
    ensures forall k :: 0 <= k < |KeptLines(content)| ==> '\n' !in KeptLines(content)[k]
  {
    var kept := KeptLines(content);
    var lines := Split(TrimEnd(content), '\n');
    forall k | 0 <= k < |kept| ensures '\n' !in kept[k] {
      assert kept[k] == lines[k];
    }
  }

  /** The new element's content has one row per kept line, numbered from 1,
      each holding its line as the highlighter produced it. */
  lemma AnnotatedRows(content: string)
    ensures KeptLines(content) != [] ==> Split(NumberLines(KeptLines(content)), '\n') == Rows(KeptLines(content))
    ensures KeptLines(content) == [] ==> NumberLines(KeptLines(content)) == []
  {
    KeptLinesNoNewline(content);
    NumberLinesRows(KeptLines(content));
  }

  /** The highlighter-failure rendering (codeBlockProcessor.ts:66-77): every
      element of `code.split('\n')`, escaped, as a numbered line. */
  function FallbackHtml(code: string, language: string): string {
    "<pre class=\"shiki github-light\">" + CodeTag(language)
    + NumberLines(EscapedLines(Split(code, '\n'))) + "</code></pre>"
  }

  function EscapedLines(lines: seq<string>): (r: seq<string>)
    ensures |r| == |lines|
  {
    seq(|lines|, k requires 0 <= k < |lines| => EscapeCode(lines[k]))
  }

  /** The fallback emits exactly one row per element of `code.split('\n')`
      (a trailing newline gives a trailing empty row); row k is numbered k + 1,
      contains no raw `<` or `>`, and decodes back to the k-th source line. */
  lemma FallbackRows(code: string, language: string)
    ensures var lines := Split(code, '\n');
      var escaped := EscapedLines(lines);
      && Split(NumberLines(escaped), '\n') == Rows(escaped)
      && |Rows(escaped)| == |lines|
      && Join(lines, '\n') == code
      && forall k :: 0 <= k < |lines| ==>
           && Rows(escaped)[k] == Row(k + 1, escaped[k])
           && '<' !in escaped[k] && '>' !in escaped[k]
           && Unescape(escaped[k]) == lines[k]
  {
    var lines := Split(code, '\n');
    var escaped := EscapedLines(lines);
    forall k | 0 <= k < |lines|
      ensures '\n' !in escaped[k] && '<' !in escaped[k] && '>' !in escaped[k]
      ensures Unescape(escaped[k]) == lines[k]
    {
      EscapeCodeSound(lines[k]);
    }
    NumberLinesRows(escaped);
  }
}
