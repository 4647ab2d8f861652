/**
 * HTML escaping as the code-block processor does it: a chain of global
 * single-character replacements with `&` replaced first. The three-character
 * chain is used for the highlighter fallback, the five-character chain for
 * inline code spans. Each chain is proved equal to a per-character entity
 * mapping, which is then shown to be safe (no raw markup characters survive)
 * and reversible (decoding the entities gives back the text).
 */
module HtmlEscape {
  import opened Text

  /** The entity a character is escaped to; `quotes` also escapes `"` and `'`. */
  function Entity(c: char, quotes: bool): string {
    if c == '&' then "&amp;"
    else if c == '<' then "&lt;"
    else if c == '>' then "&gt;"
    else if quotes && c == '"' then "&quot;"
    else if quotes && c == '\'' then "&#39;"
    else [c]
  }

  /** Reference definition: every character replaced by its entity, independently. */
  function EscapeEach(s: string, quotes: bool): string {
    if s == [] then [] else Entity(s[0], quotes) + EscapeEach(s[1..], quotes)
  }

  /** The fallback escaper: `&`, then `<`, then `>`, each replaced globally. */
  function EscapeCode(s: string): string {
    ReplaceChar(ReplaceChar(ReplaceChar(s, '&', "&amp;"), '<', "&lt;"), '>', "&gt;")
  }

  /** The inline-code escaper: the same chain followed by `"` and `'`. */
  function EscapeInline(s: string): string {
    ReplaceChar(ReplaceChar(EscapeCode(s), '"', "&quot;"), '\'', "&#39;")
  }

  /** Decodes the five entities the escapers produce; anything else is copied. */
  function Unescape(s: string): string
    decreases |s|
  {
    if s == [] then []
    else if "&amp;" <= s then "&" + Unescape(s[5..])
    else if "&lt;" <= s then "<" + Unescape(s[4..])
    else if "&gt;" <= s then ">" + Unescape(s[4..])
    else if "&quot;" <= s then "\"" + Unescape(s[6..])
    else if "&#39;" <= s then "'" + Unescape(s[5..])
    else [s[0]] + Unescape(s[1..])
  }

  lemma EscapeCodeConcat(a: string, b: string)
    ensures EscapeCode(a + b) == EscapeCode(a) + EscapeCode(b)
  {
    ReplaceCharConcat(a, b, '&', "&amp;");
    var a1, b1 := ReplaceChar(a, '&', "&amp;"), ReplaceChar(b, '&', "&amp;");
    ReplaceCharConcat(a1, b1, '<', "&lt;");
    var a2, b2 := ReplaceChar(a1, '<', "&lt;"), ReplaceChar(b1, '<', "&lt;");
    ReplaceCharConcat(a2, b2, '>', "&gt;");
  }

  lemma EscapeInlineConcat(a: string, b: string)
    ensures EscapeInline(a + b) == EscapeInline(a) + EscapeInline(b)
  {
    EscapeCodeConcat(a, b);
    var a1, b1 := EscapeCode(a), EscapeCode(b);
    ReplaceCharConcat(a1, b1, '"', "&quot;");
    var a2, b2 := ReplaceChar(a1, '"', "&quot;"), ReplaceChar(b1, '"', "&quot;");
    ReplaceCharConcat(a2, b2, '\'', "&#39;");
  }

  lemma ReplaceCharSingle(x: char, c: char, rep: string)
    ensures ReplaceChar([x], c, rep) == if x == c then rep else [x]
  {
    assert [x][1..] == [];
  }

  lemma EscapeCodeChar(c: char)
    ensures EscapeCode([c]) == Entity(c, false)
  {
    ReplaceCharSingle(c, '&', "&amp;");
    if c == '&' {
      assert '<' !in "&amp;" && '>' !in "&amp;";
    } else {
      ReplaceCharSingle(c, '<', "&lt;");
      if c == '<' {
        assert '>' !in "&lt;";
      } else {
        ReplaceCharSingle(c, '>', "&gt;");
      }
    }
  }

  lemma EscapeInlineChar(c: char)
    ensures EscapeInline([c]) == Entity(c, true)
  {
    EscapeCodeChar(c);
    if c == '&' {
      assert '"' !in "&amp;" && '\'' !in "&amp;";
    } else if c == '<' {
      assert '"' !in "&lt;" && '\'' !in "&lt;";
    } else if c == '>' {
      assert '"' !in "&gt;" && '\'' !in "&gt;";
    } else {
      ReplaceCharSingle(c, '"', "&quot;");
      if c == '"' {
        assert '\'' !in "&quot;";
      } else {
        ReplaceCharSingle(c, '\'', "&#39;");
      }
    }
  }

  /** The replacement chain with `&` first is the per-character mapping: no
      character is escaped twice. */
  lemma {:induction false} EscapeCodeIsPerChar(s: string)
    ensures EscapeCode(s) == EscapeEach(s, false)
  {
    if s != [] {
      assert s == [s[0]] + s[1..];
      EscapeCodeConcat([s[0]], s[1..]);
      EscapeCodeChar(s[0]);
      EscapeCodeIsPerChar(s[1..]);
    }
  }

  lemma {:induction false} EscapeInlineIsPerChar(s: string)
    ensures EscapeInline(s) == EscapeEach(s, true)
  {
    if s != [] {
      assert s == [s[0]] + s[1..];
      EscapeInlineConcat([s[0]], s[1..]);
      EscapeInlineChar(s[0]);
      EscapeInlineIsPerChar(s[1..]);
    }
  }

  lemma UnescapeEntity(c: char, quotes: bool, t: string)
    ensures Unescape(Entity(c, quotes) + t) == [c] + Unescape(t)
  {
    var s := Entity(c, quotes) + t;
    if c == '&' {
      assert "&amp;" <= s && s[5..] == t;
    } else if c == '<' {
      assert s[1] == 'l' && !("&amp;" <= s);
      assert "&lt;" <= s && s[4..] == t;
    } else if c == '>' {
      assert s[1] == 'g' && !("&amp;" <= s) && !("&lt;" <= s);
      assert "&gt;" <= s && s[4..] == t;
    } else if quotes && c == '"' {
      assert s[1] == 'q' && !("&amp;" <= s) && !("&lt;" <= s) && !("&gt;" <= s);
      assert "&quot;" <= s && s[6..] == t;
    } else if quotes && c == '\'' {
      assert s[1] == '#' && !("&amp;" <= s) && !("&lt;" <= s) && !("&gt;" <= s) && !("&quot;" <= s);
      assert "&#39;" <= s && s[5..] == t;
    } else {
      assert s[0] == c && s[1..] == t;
    }
  }

  /** Decoding the entities recovers the original text. */
  lemma {:induction false} UnescapeEscapeEach(s: string, quotes: bool)
    ensures Unescape(EscapeEach(s, quotes)) == s
  {
    if s != [] {
      UnescapeEntity(s[0], quotes, EscapeEach(s[1..], quotes));
      UnescapeEscapeEach(s[1..], quotes);
    }
  }

  lemma EntityHasNoMarkup(c: char, quotes: bool)
    ensures '<' !in Entity(c, quotes) && '>' !in Entity(c, quotes)
    ensures quotes ==> '"' !in Entity(c, quotes) && '\'' !in Entity(c, quotes)
    ensures '\n' in Entity(c, quotes) ==> c == '\n'
  {
  }

  lemma {:induction false} EscapeEachHasNoMarkup(s: string, quotes: bool)
    ensures '<' !in EscapeEach(s, quotes) && '>' !in EscapeEach(s, quotes)
    ensures quotes ==> '"' !in EscapeEach(s, quotes) && '\'' !in EscapeEach(s, quotes)
    ensures '\n' in EscapeEach(s, quotes) ==> '\n' in s
  {
    if s != [] {
      EntityHasNoMarkup(s[0], quotes);
      EscapeEachHasNoMarkup(s[1..], quotes);
      assert EscapeEach(s, quotes) == Entity(s[0], quotes) + EscapeEach(s[1..], quotes);
      assert s == [s[0]] + s[1..];
    }
  }

  /** codeBlockProcessor.ts:69-72: the fallback escaping leaves no `<` or `>`,
      keeps the line free of newlines, and decodes back to the code line. */
  lemma EscapeCodeSound(s: string)
    ensures '<' !in EscapeCode(s) && '>' !in EscapeCode(s)
    ensures '\n' !in s ==> '\n' !in EscapeCode(s)
    ensures Unescape(EscapeCode(s)) == s
  {
    EscapeCodeIsPerChar(s);
    EscapeEachHasNoMarkup(s, false);
    UnescapeEscapeEach(s, false);
  }

  /** codeBlockProcessor.ts:198-203: the inline escaping leaves none of
      `< > " '` and decodes back to the span's text. */
  lemma EscapeInlineSound(s: string)
    ensures '<' !in EscapeInline(s) && '>' !in EscapeInline(s)
    ensures '"' !in EscapeInline(s) && '\'' !in EscapeInline(s)
    ensures Unescape(EscapeInline(s)) == s
  {
    EscapeInlineIsPerChar(s);
    EscapeEachHasNoMarkup(s, true);
    UnescapeEscapeEach(s, true);
  }
}
