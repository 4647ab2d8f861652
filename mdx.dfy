/**
 * The string logic of src/utils/mdxProcessor.ts: `parseProps`, the scanner
 * that fills a props dictionary from `key="value"` pairs, and the component
 * handling of `processMDXContent` (the self-closing-tag test and the
 * placeholder rewrite).
 */
module Mdx {
  import opened Text
  import opened Scan

  // ---------------------------------------------------------------------
  // parseProps: `(\w+)=["']([^"']+)["']` with the global flag
  // ---------------------------------------------------------------------

  predicate IsQuote(c: char) {
    c == '"' || c == '\''
  }

  /** Length of the longest run of non-quote characters in `s` starting at `i`. */
  function NonQuoteRun(s: string, i: nat): (n: nat)
    ensures i + n <= |s| || (i >= |s| && n == 0)
    ensures forall k :: i <= k < i + n ==> !IsQuote(s[k])
    ensures i + n < |s| ==> IsQuote(s[i + n])
    decreases |s| - i
  {
    if i < |s| && !IsQuote(s[i]) then 1 + NonQuoteRun(s, i + 1) else 0
  }

  /** One match: its span, the key (group 1) and the value (group 2). */
  datatype PropMatch = PropMatch(start: nat, key: string, value: string, end: nat)

  predicate NoQuotes(t: string) {
    forall k :: 0 <= k < |t| ==> !IsQuote(t[k])
  }

  /** The match of the prop pattern starting exactly at `i`, if any. Both
      greedy runs must be maximal: a shorter key is followed by a word
      character, not `=`, and a shorter value by a non-quote, not the closing
      quote. The two quotes need not be the same character. */
  function PropAt(s: string, i: nat): (r: Option<PropMatch>)
    ensures r.Some? ==> r.value.start == i && i < r.value.end <= |s|
    ensures r.Some? ==> r.value.key != [] && WordChars(r.value.key)
    ensures r.Some? ==> r.value.value != [] && NoQuotes(r.value.value)
  {
    var eq := i + WordRun(s, i);
    if eq == i || eq + 1 >= |s| || s[eq] != '=' || !IsQuote(s[eq + 1]) then None
    else PropValueAt(s, i, eq)
  }

  /** The rest of the match once the key run `s[i..eq]`, the `=` and the
      opening quote are read. */
  function PropValueAt(s: string, i: nat, eq: nat): (r: Option<PropMatch>)
    requires i < eq && eq == i + WordRun(s, i) && eq + 1 < |s|
    ensures r.Some? ==> r.value.start == i && i < r.value.end <= |s|
    ensures r.Some? ==> r.value.key != [] && WordChars(r.value.key)
    ensures r.Some? ==> r.value.value != [] && NoQuotes(r.value.value)
  {
    var close := eq + 2 + NonQuoteRun(s, eq + 2);
    if close == eq + 2 || close >= |s| then None
    else
      var key, value := s[i..eq], s[eq + 2..close];
      assert forall k :: 0 <= k < |key| ==> key[k] == s[i + k];
      assert forall k :: 0 <= k < |value| ==> value[k] == s[eq + 2 + k];
      Some(PropMatch(i, key, value, close + 1))
  }

  lemma {:induction false} NonQuoteRunExact(s: string, i: nat, n: nat)
    requires i + n < |s|
    requires forall k :: i <= k < i + n ==> !IsQuote(s[k])
    requires IsQuote(s[i + n])
    ensures NonQuoteRun(s, i) == n
    decreases n
  {
    if n > 0 {
      NonQuoteRunExact(s, i + 1, n - 1);
    }
  }

  /** A quote-free text that occurs at `i` and is followed by a quote is the
      longest non-quote run there. */
  lemma NonQuoteRunOf(s: string, i: nat, t: string)
    requires NoQuotes(t) && i + |t| < |s| && s[i..i + |t|] == t && IsQuote(s[i + |t|])
    ensures NonQuoteRun(s, i) == |t|
  {
    forall k | i <= k < i + |t| ensures !IsQuote(s[k]) {
      assert s[k] == s[i..i + |t|][k - i];
    }
    NonQuoteRunExact(s, i, |t|);
  }

  lemma PropParts(s: string, i: nat, key: string, q1: char, value: string, q2: char)
    requires OccursAt(s, key + "=" + [q1] + value + [q2], i)
    ensures s[i..i + |key|] == key
    ensures s[i + |key|] == '=' && s[i + |key| + 1] == q1
    ensures s[i + |key| + 2..i + |key| + 2 + |value|] == value
    ensures s[i + |key| + 2 + |value|] == q2
  {
    var a := key + "=";
    var b := a + [q1];
    OccursConcat(s, b + value, [q2], i);
    OccursConcat(s, b, value, i);
    OccursConcat(s, a, [q1], i);
    OccursConcat(s, key, "=", i);
  }

  /** Conversely, a key of word characters, `=`, a quote, a non-empty value
      without quotes and a quote, starting at `i`, is the match there. */
  lemma PropAtComplete(s: string, i: nat, key: string, q1: char, value: string, q2: char)
    requires key != [] && WordChars(key) && value != [] && NoQuotes(value) && IsQuote(q1) && IsQuote(q2)
    requires OccursAt(s, key + "=" + [q1] + value + [q2], i)
    ensures PropAt(s, i) == Some(PropMatch(i, key, value, i + |key| + |value| + 3))
  {
    PropParts(s, i, key, q1, value, q2);
    PropAtOfParts(s, i, key, value);
  }

  lemma PropAtOfParts(s: string, i: nat, key: string, value: string)
    requires key != [] && WordChars(key) && value != [] && NoQuotes(value)
    requires i + |key| + 2 + |value| < |s|
    requires s[i..i + |key|] == key && s[i + |key|] == '=' && IsQuote(s[i + |key| + 1])
    requires s[i + |key| + 2..i + |key| + 2 + |value|] == value && IsQuote(s[i + |key| + 2 + |value|])
    ensures PropAt(s, i) == Some(PropMatch(i, key, value, i + |key| + |value| + 3))
  {
    WordRunOf(s, i, key);
    NonQuoteRunOf(s, i + |key| + 2, value);
    PropAtUnfold(s, i, key, value);
  }

  /** `PropAt` when the key run, the `=`, the opening quote and the value run
      are all found. */
  lemma PropAtUnfold(s: string, i: nat, key: string, value: string)
    requires WordRun(s, i) == |key| && key != [] && i + |key| + 1 < |s|
    requires s[i..i + |key|] == key && s[i + |key|] == '=' && IsQuote(s[i + |key| + 1])
    requires NonQuoteRun(s, i + |key| + 2) == |value| && value != [] && i + |key| + 2 + |value| < |s|
    requires s[i + |key| + 2..i + |key| + 2 + |value|] == value
    ensures PropAt(s, i) == Some(PropMatch(i, key, value, i + |key| + |value| + 3))
  {
    assert PropAt(s, i) == PropValueAt(s, i, i + |key|);
  }

  /** The pattern as a function of the start position, and a match's span. */
  function PropMatcher(s: string): nat -> Option<PropMatch> {
    (j: nat) => PropAt(s, j)
  }

  const PropStart: PropMatch -> nat := (m: PropMatch) => m.start
  const PropEnd: PropMatch -> nat := (m: PropMatch) => m.end

  /** The leftmost match at or after `from` (one `exec` call). */
  function NextProp(s: string, from: nat): (r: Option<PropMatch>)
    ensures r.Some? ==> from <= r.value.start && PropAt(s, r.value.start) == r
    ensures r.Some? ==> forall j :: from <= j < r.value.start ==> PropAt(s, j).None?
    ensures r.None? ==> forall j :: from <= j ==> PropAt(s, j).None?
    decreases |s| - from
  {
    if from >= |s| then None
    else match PropAt(s, from)
      case Some(m) => Some(m)
      case None => NextProp(s, from + 1)
  }

  /** All matches repeated `exec` calls find from `lastIndex = from`. */
  function PropsFrom(s: string, from: nat): seq<PropMatch>
    decreases |s| - from
  {
    match NextProp(s, from)
    case None => []
    case Some(m) => [m] + PropsFrom(s, m.end)
  }

  function PropMatches(s: string): seq<PropMatch> {
    PropsFrom(s, 0)
  }

  /** `r` is what repeated `exec` calls from `lastIndex = from` return. */
  ghost predicate PropScan(s: string, from: nat, r: seq<PropMatch>) {
    Successive(PropMatcher(s), PropStart, PropEnd, from, r)
  }

  /** The matches are found left to right without overlap; text that does not
      match is skipped, never an error. */
  lemma {:induction false} PropsFromSound(s: string, from: nat)
    ensures PropScan(s, from, PropsFrom(s, from))
    decreases |s| - from
  {
    match NextProp(s, from)
    case None =>
    case Some(m) =>
      PropsFromSound(s, m.end);
      SuccessiveCons(PropMatcher(s), PropStart, PropEnd, from, m, PropsFrom(s, m.end));
  }

  /** The k-th element of the list is a genuine match. */
  lemma {:induction false} PropsFromAt(s: string, from: nat, k: nat)
    requires k < |PropsFrom(s, from)|
    ensures PropAt(s, PropsFrom(s, from)[k].start) == Some(PropsFrom(s, from)[k])
    decreases |s| - from
  {
    var m := NextProp(s, from).value;
    if k > 0 {
      PropsFromAt(s, m.end, k - 1);
    }
  }

  /** `props` is a plain object literal, so it inherits the `__proto__`
      accessor of `Object.prototype`. Assigning a string to that key calls the
      setter, which ignores a value that is not an object: nothing is stored.
      Every other word-character key becomes an own property. */
  const ProtoKey := "__proto__"

  /** `props[key] = value` on that object. */
  function Store(props: map<string, string>, key: string, value: string): map<string, string> {
    if key == ProtoKey then props else props[key := value]
  }

  /** The dictionary after assigning the first `n` matches in order. */
  function Assigned(ms: seq<PropMatch>, n: nat): map<string, string>
    requires n <= |ms|
  {
    if n == 0 then map[] else Store(Assigned(ms, n - 1), ms[n - 1].key, ms[n - 1].value)
  }

  /** What `parseProps` returns: nothing for a blank string, otherwise every
      match assigned in order. */
  function ParsedProps(s: string): map<string, string> {
    if Trim(s) == [] then map[] else Assigned(PropMatches(s), |PropMatches(s)|)
  }

  /** One iteration of the `exec` loop, seen from the list of matches. */
  lemma PropStep(s: string, lastIndex: nat, k: nat)
    requires k <= |PropMatches(s)| && PropsFrom(s, lastIndex) == PropMatches(s)[k..]
    ensures NextProp(s, lastIndex).None? ==> k == |PropMatches(s)|
    ensures NextProp(s, lastIndex).Some? ==>
      && lastIndex < NextProp(s, lastIndex).value.end <= |s|
      && k < |PropMatches(s)| && PropMatches(s)[k] == NextProp(s, lastIndex).value
      && PropsFrom(s, NextProp(s, lastIndex).value.end) == PropMatches(s)[k + 1..]
  {
    var all := PropMatches(s);
    if NextProp(s, lastIndex).Some? {
      assert all[k + 1..] == all[k..][1..];
    }
  }

  /** `parseProps` (mdxProcessor.ts:72-85), with its `exec` loop filling the
      dictionary in place. A blank string gives an empty dictionary. */
  method ParseProps(propsString: string) returns (props: map<string, string>)
    ensures props == ParsedProps(propsString)
    ensures AllSpace(propsString) ==> props == map[]
  {
    TrimEmptyIffAllSpace(propsString);
    props := map[];
    if Trim(propsString) == [] {
      return;
    }
    ghost var k: nat := 0;
    var lastIndex: nat := 0;
    while true
      invariant k <= |PropMatches(propsString)| && PropsFrom(propsString, lastIndex) == PropMatches(propsString)[k..]
      invariant props == Assigned(PropMatches(propsString), k)
      decreases |propsString| - lastIndex
    {
      var match_ := NextProp(propsString, lastIndex);
      PropStep(propsString, lastIndex, k);
      if match_.None? {
        break;
      }
      var m := match_.value;
      props := Store(props, m.key, m.value);
      lastIndex := m.end;
      k := k + 1;
    }
  }

  /** Every match has a non-empty word-character key and a non-empty value
      free of quotes. */
  ghost predicate WellFormed(ms: seq<PropMatch>) {
    forall k :: 0 <= k < |ms| ==>
      ms[k].key != [] && WordChars(ms[k].key) && ms[k].value != [] && NoQuotes(ms[k].value)
  }

  lemma PropMatchesWellFormed(s: string)
    ensures WellFormed(PropMatches(s))
  {
    forall k | 0 <= k < |PropMatches(s)|
      ensures PropMatches(s)[k].key != [] && WordChars(PropMatches(s)[k].key)
      ensures PropMatches(s)[k].value != [] && NoQuotes(PropMatches(s)[k].value)
    {
      PropsFromAt(s, 0, k);
    }
  }

  /** Assigning well-formed matches keeps every entry well formed. */
  lemma {:induction false} AssignedEntries(ms: seq<PropMatch>, n: nat, key: string)
    requires n <= |ms| && WellFormed(ms) && key in Assigned(ms, n)
    ensures key != [] && WordChars(key)
    ensures Assigned(ms, n)[key] != [] && NoQuotes(Assigned(ms, n)[key])
  {
    if key != ms[n - 1].key || key == ProtoKey {
      AssignedEntries(ms, n - 1, key);
    }
  }

  /** Every key of the result is a non-empty run of word characters and every
      value is non-empty and free of quotes. */
  lemma PropEntries(s: string, key: string)
    requires key in ParsedProps(s)
    ensures key != [] && WordChars(key)
    ensures ParsedProps(s)[key] != [] && NoQuotes(ParsedProps(s)[key])
  {
    PropMatchesWellFormed(s);
    AssignedEntries(PropMatches(s), |PropMatches(s)|, key);
  }

  /** When a key occurs more than once, the value of its last occurrence wins
      (`__proto__` aside, which is never stored). */
  lemma {:induction false} LastWins(ms: seq<PropMatch>, n: nat, j: nat)
    requires j < n <= |ms| && ms[j].key != ProtoKey
    requires forall i :: j < i < n ==> ms[i].key != ms[j].key
    ensures ms[j].key in Assigned(ms, n) && Assigned(ms, n)[ms[j].key] == ms[j].value
  {
    if j < n - 1 {
      LastWins(ms, n - 1, j);
    }
  }

  /** Every key of the result comes from some match. */
  lemma {:induction false} AssignedFrom(ms: seq<PropMatch>, n: nat, key: string)
    requires n <= |ms| && key in Assigned(ms, n)
    ensures exists i :: 0 <= i < n && ms[i].key == key
  {
    if key != ms[n - 1].key || key == ProtoKey {
      AssignedFrom(ms, n - 1, key);
    }
  }

  /** However often it occurs, `__proto__` never becomes an entry. */
  lemma {:induction false} ProtoNeverStored(ms: seq<PropMatch>, n: nat)
    requires n <= |ms|
    ensures ProtoKey !in Assigned(ms, n)
  {
    if n > 0 {
      ProtoNeverStored(ms, n - 1);
    }
  }

  /** The pattern matches `__proto__="x"` once, with key `__proto__`. */
  lemma ProtoPropMatch()
    ensures PropMatches("__proto__=\"x\"") == [PropMatch(0, ProtoKey, "x", 13)]
  {
    var s := "__proto__=\"x\"";
    var m := PropMatch(0, ProtoKey, "x", 13);
    assert PropAt(s, 0) == Some(m) by {
      assert s == ProtoKey + "=" + ['"'] + "x" + ['"'];
      PropAtComplete(s, 0, ProtoKey, '"', "x", '"');
    }
    assert NextProp(s, 0) == Some(m);
    assert PropsFrom(s, 13) == [];
  }

  /** Yet `parseProps('__proto__="x"')` gives an empty dictionary. */
  lemma ProtoProp()
    ensures ParsedProps("__proto__=\"x\"") == map[]
  {
    var s := "__proto__=\"x\"";
    assert Trim(s) != [] by {
      TrimEmptyIffAllSpace(s);
      assert !IsSpace(s[0]);
    }
    ProtoPropMatch();
    SingleProp(s, PropMatch(0, ProtoKey, "x", 13));
  }

  /** The quotes need not match: `a="x'` is one match, key `a`, value `x`. */
  lemma MixedQuotesMatch()
    ensures PropMatches("a=\"x'") == [PropMatch(0, "a", "x", 5)]
  {
    var s := "a=\"x'";
    var m := PropMatch(0, "a", "x", 5);
    assert PropAt(s, 0) == Some(m) by {
      assert s == "a" + "=" + ['"'] + "x" + ['\''];
      PropAtComplete(s, 0, "a", '"', "x", '\'');
    }
    assert NextProp(s, 0) == Some(m);
    assert PropsFrom(s, 5) == [];
  }

  /** So `parseProps('a="x\'')` gives `a` the value `x`. */
  lemma MixedQuotes()
    ensures ParsedProps("a=\"x'") == map["a" := "x"]
  {
    var s := "a=\"x'";
    assert Trim(s) != [] by {
      TrimEmptyIffAllSpace(s);
      assert !IsSpace(s[0]);
    }
    MixedQuotesMatch();
    SingleProp(s, PropMatch(0, "a", "x", 5));
  }

  lemma SingleProp(s: string, m: PropMatch)
    requires Trim(s) != [] && PropMatches(s) == [m]
    ensures ParsedProps(s) == Store(map[], m.key, m.value)
  {
    assert Assigned([m], 0) == map[];
  }

  // ---------------------------------------------------------------------
  // Components: `<\w+([^>]*?)\/>` (mdxProcessor.ts:11 and :40)
  // ---------------------------------------------------------------------

  /** One self-closing tag: its span and its name (group 1). */
  datatype TagMatch = TagMatch(start: nat, name: string, end: nat)

  /** The match of the component pattern starting exactly at `i`, if any.
      The lazy `[^>]*?` cannot cross a `>`, so the match exists exactly when
      the first `>` after the name's first character is preceded by `/`.
      `\w+` then holds the whole run of word characters: `/` is not one, so
      that run ends before the `/>`. */
  function ComponentAt(s: string, i: nat): (r: Option<TagMatch>)
    ensures r.Some? ==> r.value.start == i && i + 4 <= r.value.end <= |s|
    ensures r.Some? ==> s[i] == '<' && s[r.value.end - 2] == '/' && s[r.value.end - 1] == '>'
    ensures r.Some? ==> r.value.name != [] && WordChars(r.value.name)
    ensures r.Some? ==> forall k :: i < k < r.value.end - 1 ==> s[k] != '>'
  {
    if i + 1 >= |s| || s[i] != '<' || !IsWordChar(s[i + 1]) then None
    else
      match CharFrom(s, '>', i + 2)
      case None => None
      case Some(g) =>
        if s[g - 1] != '/' then None
        else
          var w := WordRun(s, i + 1);
          var name := s[i + 1..i + 1 + w];
          assert forall k :: 0 <= k < |name| ==> name[k] == s[i + 1 + k];
          Some(TagMatch(i, name, g + 1))
  }

  /** Conversely, a `<`, a word character and a `/>` with no `>` in between
      is a match, and it ends right after that `/>`. */
  lemma ComponentAtComplete(s: string, i: nat, p: nat)
    requires i + 1 < |s| && s[i] == '<' && IsWordChar(s[i + 1])
    requires i + 2 <= p && p + 1 < |s| && s[p] == '/' && s[p + 1] == '>'
    requires forall k :: i + 2 <= k < p ==> s[k] != '>'
    ensures ComponentAt(s, i).Some? && ComponentAt(s, i).value.end == p + 2
  {
    assert CharFrom(s, '>', i + 2) == Some(p + 1);
  }

  function ComponentMatcher(s: string): nat -> Option<TagMatch> {
    (j: nat) => ComponentAt(s, j)
  }

  /** The leftmost match at or after `from`. */
  function NextComponent(s: string, from: nat): (r: Option<TagMatch>)
    ensures r.Some? ==> from <= r.value.start && ComponentAt(s, r.value.start) == r
    ensures r.Some? ==> forall j :: from <= j < r.value.start ==> ComponentAt(s, j).None?
    ensures r.None? ==> forall j :: from <= j ==> ComponentAt(s, j).None?
  {
    var p := FirstAt(ComponentMatcher(s), from, |s|);
    assert forall j :: ComponentMatcher(s)(j) == ComponentAt(s, j);
    if p.None? then None else ComponentAt(s, p.value)
  }

  /** `/<\w+([^>]*?)\/>/g.test(content)` on a fresh pattern (`lastIndex` 0). */
  predicate HasComponents(content: string) {
    NextComponent(content, 0).Some?
  }

  // The placeholder's opening markup, kept in short pieces so that the
  // verifier can check each one character by character.
  const PlaceholderDiv := "<div class=\"component-placeholder "
  const PlaceholderColours := "bg-blue-50 border border-blue-200 "
  const PlaceholderSpacing := "rounded p-4 my-4\">"
  const PlaceholderLabel := "<p class=\"text-blue-700\">Component: "
  const PlaceholderHead := PlaceholderDiv + PlaceholderColours + PlaceholderSpacing + PlaceholderLabel
  const PlaceholderTail := " would render here</p></div>"

  function Placeholder(name: string): string {
    PlaceholderHead + name + PlaceholderTail
  }

  /** The global replace from `from`: the text between matches is copied and
      each match becomes the placeholder naming its component. */
  function ReplaceComponentsFrom(s: string, from: nat): string
    requires from <= |s|
    decreases |s| - from
  {
    match NextComponent(s, from)
    case None => s[from..]
    case Some(t) => s[from..t.start] + Placeholder(t.name) + ReplaceComponentsFrom(s, t.end)
  }

  function ReplaceComponents(content: string): string {
    ReplaceComponentsFrom(content, 0)
  }

  const TagStart: TagMatch -> nat := (t: TagMatch) => t.start
  const TagEnd: TagMatch -> nat := (t: TagMatch) => t.end

  /** Every self-closing tag the global replace meets from `from`, in order. */
  function ComponentsFrom(s: string, from: nat): seq<TagMatch>
    decreases |s| - from
  {
    match NextComponent(s, from)
    case None => []
    case Some(t) => [t] + ComponentsFrom(s, t.end)
  }

  /** The list holds the leftmost matches, none overlapping and none skipped. */
  lemma {:induction false} ComponentsFromSound(s: string, from: nat)
    ensures Successive(ComponentMatcher(s), TagStart, TagEnd, from, ComponentsFrom(s, from))
    decreases |s| - from
  {
    match NextComponent(s, from)
    case None =>
    case Some(t) =>
      ComponentsFromSound(s, t.end);
      SuccessiveCons(ComponentMatcher(s), TagStart, TagEnd, from, t, ComponentsFrom(s, t.end));
  }

  /** `ms` are spans of `s` lying after `from`, in order and apart. */
  predicate Spans(s: string, from: nat, ms: seq<TagMatch>)
    decreases |ms|
  {
    if ms == [] then from <= |s|
    else from <= ms[0].start <= ms[0].end <= |s| && Spans(s, ms[0].end, ms[1..])
  }

  /** `s` from `from` on, with each span of `ms` cut out and the placeholder
      naming its component put in its place; the rest is copied. */
  function Spliced(s: string, from: nat, ms: seq<TagMatch>): string
    requires Spans(s, from, ms)
    decreases |ms|
  {
    if ms == [] then s[from..]
    else s[from..ms[0].start] + Placeholder(ms[0].name) + Spliced(s, ms[0].end, ms[1..])
  }

  lemma {:induction false} ReplaceIsSplice(s: string, from: nat)
    requires from <= |s|
    ensures Spans(s, from, ComponentsFrom(s, from))
    ensures ReplaceComponentsFrom(s, from) == Spliced(s, from, ComponentsFrom(s, from))
    decreases |s| - from
  {
    match NextComponent(s, from)
    case None =>
    case Some(t) =>
      ReplaceIsSplice(s, t.end);
      var ms := ComponentsFrom(s, from);
      assert ms[0] == t && ms[1..] == ComponentsFrom(s, t.end);
  }

  /** The replace turns every match of the global pattern, and nothing else,
      into its placeholder: the text between and around the matches is kept. */
  lemma ReplaceComponentsSpec(content: string)
    ensures var ms := ComponentsFrom(content, 0);
      && Successive(ComponentMatcher(content), TagStart, TagEnd, 0, ms)
      && Spans(content, 0, ms)
      && ReplaceComponents(content) == Spliced(content, 0, ms)
  {
    ComponentsFromSound(content, 0);
    ReplaceIsSplice(content, 0);
  }

  /** Content without a self-closing tag is left as it is. */
  lemma NoComponentsUnchanged(content: string)
    requires !HasComponents(content)
    ensures ReplaceComponents(content) == content
  {
    assert content[0..] == content;
  }

  /** The placeholder's opening markup has no `/`. */
  lemma HeadHasNoSlash(k: nat)
    requires k < |PlaceholderHead|
    ensures PlaceholderHead[k] != '/'
  {
    NoSlashInHead();
    assert PlaceholderHead[k] in PlaceholderHead;
  }

  lemma NoSlashInHead()
    ensures '/' !in PlaceholderHead
  {
    NoSlashInOpening();
    NoSlashInLabel();
  }

  lemma NoSlashInOpening()
    ensures '/' !in PlaceholderDiv + PlaceholderColours
  {
    assert '/' !in PlaceholderDiv;
    assert '/' !in PlaceholderColours;
  }

  lemma NoSlashInLabel()
    ensures '/' !in PlaceholderSpacing && '/' !in PlaceholderLabel
  {
    assert '/' !in PlaceholderSpacing;
  }

  /** The `/` characters of the closing markup open the closing tags. */
  lemma TailSlashes(t: nat)
    requires t + 1 < |PlaceholderTail| && PlaceholderTail[t] == '/'
    ensures PlaceholderTail[t + 1] != '>'
  {
    var a, b, c := " would render here<", "/p><", "/div>";
    assert PlaceholderTail == a + b + c;
    if t < |a| {
      assert false;
    } else if t < |a| + |b| {
      assert PlaceholderTail[t] == b[t - |a|];
      assert t == |a| && PlaceholderTail[t + 1] == 'p';
    } else {
      assert PlaceholderTail[t] == c[t - |a| - |b|];
      assert t == |a| + |b| && PlaceholderTail[t + 1] == 'd';
    }
  }

  /** The only `/` characters of the placeholder are in its closing tags,
      and none of them is followed by `>`. */
  lemma PlaceholderSlashes(name: string, k: nat)
    requires WordChars(name)
    requires k + 1 < |Placeholder(name)| && Placeholder(name)[k] == '/'
    ensures Placeholder(name)[k + 1] != '>'
  {
    var s := Placeholder(name);
    var h, n := |PlaceholderHead|, |name|;
    if k < h {
      assert s[k] == PlaceholderHead[k];
      HeadHasNoSlash(k);
      assert false;
    } else if k < h + n {
      assert false;
    } else {
      var t := k - h - n;
      assert s[k] == PlaceholderTail[t] && s[k + 1] == PlaceholderTail[t + 1];
      TailSlashes(t);
    }
  }

  /** The placeholder contains no self-closing tag of its own. */
  lemma PlaceholderIsInert(name: string)
    requires WordChars(name)
    ensures !HasComponents(Placeholder(name))
  {
    var s := Placeholder(name);
    if HasComponents(s) {
      var t := NextComponent(s, 0).value;
      PlaceholderSlashes(name, t.end - 2);
      assert false;
    }
  }

  /** What `processMDXContent` does with the content: plain Markdown when no
      component is found or the MDX compiler fails, otherwise the page with
      every component replaced by its placeholder. */
  datatype MdxRoute = MarkdownPath | PlaceholderPath(body: string)

  function RouteMdx(content: string, compiles: bool): (r: MdxRoute)
    ensures !HasComponents(content) ==> r == MarkdownPath
    ensures r.PlaceholderPath? <==> HasComponents(content) && compiles
    ensures r.PlaceholderPath? ==> r.body == ReplaceComponents(content)
  {
    if HasComponents(content) && compiles then PlaceholderPath(ReplaceComponents(content))
    else MarkdownPath
  }
}
