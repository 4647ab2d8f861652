/**
 * String primitives shared by the model: the character classes the source's
 * regular expressions use, substring search with JavaScript's first-occurrence
 * semantics, single-character global replacement, `split('\n')` and its
 * inverse `join('\n')`, trailing-whitespace trimming and decimal rendering
 * of natural numbers (template-literal interpolation of a counter).
 */
module Text {

  datatype Option<T> = None | Some(value: T)

  /** ECMAScript `\s`, which is also the set `String.prototype.trim` removes:
      the WhiteSpace and LineTerminator code points. */
  predicate IsSpace(c: char) {
    c == ' ' || c == '\t' || c == '\n' || c == '\r' || c == '\U{B}' || c == '\U{C}'
    || c == '\U{A0}' || c == '\U{1680}' || ('\U{2000}' <= c <= '\U{200A}')
    || c == '\U{2028}' || c == '\U{2029}' || c == '\U{202F}' || c == '\U{205F}'
    || c == '\U{3000}' || c == '\U{FEFF}'
  }

  /** ECMAScript `\w`. */
  predicate IsWordChar(c: char) {
    ('a' <= c <= 'z') || ('A' <= c <= 'Z') || ('0' <= c <= '9') || c == '_'
  }

  /** ECMAScript LineTerminator: where `^`/`$` match under the `m` flag and what `.` refuses. */
  predicate IsLineTerminator(c: char) {
    c == '\n' || c == '\r' || c == '\U{2028}' || c == '\U{2029}'
  }

  predicate AllSpace(s: string) {
    forall i :: 0 <= i < |s| ==> IsSpace(s[i])
  }

  /** Length of the longest run of word characters in `s` starting at `i`. */
  function WordRun(s: string, i: nat): (n: nat)
    ensures i + n <= |s| || (i >= |s| && n == 0)
    ensures forall k :: i <= k < i + n ==> IsWordChar(s[k])
    ensures i + n < |s| ==> !IsWordChar(s[i + n])
    decreases |s| - i
  {
    if i < |s| && IsWordChar(s[i]) then 1 + WordRun(s, i + 1) else 0
  }

  predicate WordChars(t: string) {
    forall k :: 0 <= k < |t| ==> IsWordChar(t[k])
  }

  /** A run of `n` word characters followed by a non-word character is the longest run. */
  lemma {:induction false} WordRunExact(s: string, i: nat, n: nat)
    requires i + n < |s|
    requires forall k :: i <= k < i + n ==> IsWordChar(s[k])
    requires !IsWordChar(s[i + n])
    ensures WordRun(s, i) == n
    decreases n
  {
    if n > 0 {
      WordRunExact(s, i + 1, n - 1);
    }
  }

  /** A word that occurs at `i` and is followed by a non-word character is
      the longest run there. */
  lemma WordRunOf(s: string, i: nat, word: string)
    requires WordChars(word) && i + |word| < |s| && s[i..i + |word|] == word
    requires !IsWordChar(s[i + |word|])
    ensures WordRun(s, i) == |word|
  {
    forall k | i <= k < i + |word| ensures IsWordChar(s[k]) {
      assert s[k] == s[i..i + |word|][k - i];
    }
    WordRunExact(s, i, |word|);
  }

  predicate OccursAt(s: string, pat: string, i: nat) {
    i + |pat| <= |s| && s[i..i + |pat|] == pat
  }

  /** Inside a stretch of `s` equal to `w`, occurrences in `s` are occurrences in `w`. */
  lemma OccursWithin(s: string, b: nat, w: string, pat: string, j: nat)
    requires b + |w| <= |s| && s[b..b + |w|] == w && j + |pat| <= |w|
    ensures OccursAt(s, pat, b + j) <==> OccursAt(w, pat, j)
  {
    var x, y := s[b + j..b + j + |pat|], w[j..j + |pat|];
    forall k | 0 <= k < |pat| ensures x[k] == y[k] {
      assert w[j + k] == s[b..b + |w|][j + k];
    }
    assert x == y;
  }

  /** An occurrence of `a + b` is an occurrence of `a` followed by one of `b`. */
  lemma OccursConcat(s: string, a: string, b: string, i: nat)
    requires OccursAt(s, a + b, i)
    ensures OccursAt(s, a, i) && OccursAt(s, b, i + |a|)
  {
    var w := s[i..i + |a| + |b|];
    assert s[i..i + |a|] == w[..|a|] && w[..|a|] == (a + b)[..|a|];
    assert s[i + |a|..i + |a| + |b|] == w[|a|..] && w[|a|..] == (a + b)[|a|..];
  }

  /** The least position at or after `from` where `pat` occurs in `s`. */
  function IndexFrom(s: string, pat: string, from: nat): (r: Option<nat>)
    ensures r.Some? ==> from <= r.value && OccursAt(s, pat, r.value)
    ensures r.Some? ==> forall j :: from <= j < r.value ==> !OccursAt(s, pat, j)
    ensures r.None? ==> forall j :: from <= j ==> !OccursAt(s, pat, j)
    decreases |s| - from
  {
    if from + |pat| > |s| then None
    else if s[from..from + |pat|] == pat then Some(from)
    else IndexFrom(s, pat, from + 1)
  }

  /** The first `c` at or after `from`: how far a negated class such as
      `[^>]*` can run before the character it excludes. */
  function CharFrom(s: string, c: char, from: nat): (r: Option<nat>)
    ensures r.Some? ==> from <= r.value < |s| && s[r.value] == c
    ensures r.Some? ==> forall k :: from <= k < r.value ==> s[k] != c
    ensures r.None? ==> forall k :: from <= k < |s| ==> s[k] != c
    decreases |s| - from
  {
    if from >= |s| then None
    else if s[from] == c then Some(from)
    else CharFrom(s, c, from + 1)
  }

  function IndexOf(s: string, pat: string): Option<nat> {
    IndexFrom(s, pat, 0)
  }

  /** `s.includes(pat)` */
  predicate Contains(s: string, pat: string) {
    IndexOf(s, pat).Some?
  }

  lemma ContainsIff(s: string, pat: string)
    ensures Contains(s, pat) <==> exists j :: OccursAt(s, pat, j)
  {
    if Contains(s, pat) {
      assert OccursAt(s, pat, IndexOf(s, pat).value);
    }
  }

  /** `s.replace(pat, rep)` with a string pattern: only the first occurrence is
      replaced (the replacement strings used by the model contain no `$`). */
  function ReplaceFirst(s: string, pat: string, rep: string): (r: string)
    ensures !Contains(s, pat) ==> r == s
    ensures Contains(s, pat) ==> |r| == |s| - |pat| + |rep|
  {
    match IndexOf(s, pat)
    case None => s
    case Some(i) => s[..i] + rep + s[i + |pat|..]
  }

  /** The search result is determined by where `pat` occurs. */
  lemma IndexFromIs(s: string, pat: string, from: nat, i: nat)
    requires from <= i && OccursAt(s, pat, i)
    requires forall j :: from <= j < i ==> !OccursAt(s, pat, j)
    ensures IndexFrom(s, pat, from) == Some(i)
  {
  }

  /** No occurrence of `pat` in `a + b` starts inside `a`. */
  ghost predicate NoneStartIn(a: string, b: string, pat: string) {
    forall j :: 0 <= j < |a| ==> !OccursAt(a + b, pat, j)
  }

  /** Searching `a + b` is searching `b` when no occurrence starts in `a`. */
  lemma IndexSkip(a: string, b: string, pat: string)
    requires NoneStartIn(a, b, pat)
    ensures IndexOf(b, pat).None? ==> IndexOf(a + b, pat).None?
    ensures IndexOf(b, pat).Some? ==> IndexOf(a + b, pat) == Some(|a| + IndexOf(b, pat).value)
  {
    OccursShift(a, b, pat);
    if IndexOf(b, pat).Some? {
      IndexFromIs(a + b, pat, 0, |a| + IndexOf(b, pat).value);
    }
  }

  /** Occurrences in `a + b` past `a` are the occurrences in `b`. */
  lemma OccursShift(a: string, b: string, pat: string)
    ensures forall j :: |a| <= j ==> (OccursAt(a + b, pat, j) <==> OccursAt(b, pat, j - |a|))
  {
    var s := a + b;
    assert s[|a|..|a| + |b|] == b;
    forall j | |a| <= j ensures OccursAt(s, pat, j) <==> OccursAt(b, pat, j - |a|) {
      if j + |pat| <= |s| {
        OccursWithin(s, |a|, b, pat, j - |a|);
      }
    }
  }

  /** `(a + b).replace(pat, rep)` leaves `a` alone when no occurrence starts in it. */
  lemma ReplaceFirstSkip(a: string, b: string, pat: string, rep: string)
    requires NoneStartIn(a, b, pat)
    ensures ReplaceFirst(a + b, pat, rep) == a + ReplaceFirst(b, pat, rep)
    ensures Contains(a + b, pat) <==> Contains(b, pat)
  {
    IndexSkip(a, b, pat);
    if IndexOf(b, pat).Some? {
      var k := IndexOf(b, pat).value;
      var x, y := b[..k], b[k + |pat|..];
      assert ReplaceFirst(a + b, pat, rep) == (a + b)[..|a| + k] + rep + (a + b)[|a| + k + |pat|..];
      assert (a + b)[..|a| + k] == a + x;
      assert (a + b)[|a| + k + |pat|..] == y;
      AppendAssoc(a, x, rep);
      AppendAssoc(a, x + rep, y);
    }
  }

  lemma AppendAssoc<T>(a: seq<T>, b: seq<T>, c: seq<T>)
    ensures (a + b) + c == a + (b + c)
  {
  }

  /** An occurrence at the very start is the one replaced. */
  lemma ReplaceFirstHere(pat: string, b: string, rep: string)
    ensures ReplaceFirst(pat + b, pat, rep) == rep + b
  {
    assert (pat + b)[0..|pat|] == pat;
    IndexFromIs(pat + b, pat, 0, 0);
    assert (pat + b)[|pat|..] == b;
  }

  /** Too short to hold the pattern. */
  lemma ShortNoContains(s: string, pat: string)
    requires |s| < |pat|
    ensures !Contains(s, pat)
  {
  }

  /** No occurrence starts in a text without the pattern's first character. */
  lemma NoneStartInByHead(a: string, b: string, pat: string)
    requires pat != [] && pat[0] !in a
    ensures NoneStartIn(a, b, pat)
  {
    forall j | 0 <= j < |a| ensures !OccursAt(a + b, pat, j) {
      assert a[j] in a;
    }
  }

  /** `a + b` lacks `pat` when `b` does and `a` holds no first character of it. */
  lemma NoContainsByHead(a: string, b: string, pat: string)
    requires pat != [] && pat[0] !in a && !Contains(b, pat)
    ensures !Contains(a + b, pat)
  {
    NoneStartInByHead(a, b, pat);
    IndexSkip(a, b, pat);
  }

  /** A lone character not followed by the pattern's second character. */
  lemma NoneStartInBySecond(c: char, b: string, pat: string)
    requires |pat| >= 2 && b != [] && b[0] != pat[1]
    ensures NoneStartIn([c], b, pat)
  {
    assert ([c] + b)[1] == b[0];
  }

  /** The `/` opening a path segment `seg` (no `/` inside, then the end or
      another `/`) does not start `/w/` when the segment is not `w`. */
  lemma NoneStartInSegment(seg: string, rest: string, w: string)
    requires '/' !in seg && '/' !in w && seg != w
    requires rest == [] || rest[0] == '/'
    ensures NoneStartIn("/", seg + rest, "/" + w + "/")
  {
    var s := "/" + (seg + rest);
    var pat := "/" + w + "/";
    if |pat| <= |s| {
      var x := s[0..|pat|];
      if |seg| < |w| {
        assert x[|seg| + 1] == rest[0] && pat[|seg| + 1] == w[|seg|];
        assert w[|seg|] in w;
      } else if |seg| > |w| {
        assert x[|w| + 1] == seg[|w|] && pat[|w| + 1] == '/';
        assert seg[|w|] in seg;
      } else {
        assert x[1..|w| + 1] == seg && pat[1..|w| + 1] == w;
      }
    }
  }

  /** An occurrence of a `/`-free pattern starting in a `/`-free segment lies
      inside that segment. */
  lemma NoneStartInSlashFree(seg: string, rest: string, pat: string)
    requires '/' !in seg && '/' !in pat && !Contains(seg, pat)
    requires rest == [] || rest[0] == '/'
    ensures NoneStartIn(seg, rest, pat)
  {
    forall j | 0 <= j < |seg| ensures !OccursAt(seg + rest, pat, j) {
      if j + |pat| <= |seg| {
        assert (seg + rest)[0..|seg|] == seg;
        OccursWithin(seg + rest, 0, seg, pat, j);
        ContainsIff(seg, pat);
      } else if j + |pat| <= |seg + rest| {
        assert (seg + rest)[j..j + |pat|][|seg| - j] == rest[0];
        assert pat[|seg| - j] in pat;
      }
    }
  }

  /** A path segment `/seg` other than `w`, followed by a rest without `/w/`. */
  lemma NoContainsSegment(seg: string, rest: string, w: string)
    requires '/' !in seg && '/' !in w && seg != w
    requires rest == [] || rest[0] == '/'
    requires !Contains(rest, "/" + w + "/")
    ensures !Contains("/" + (seg + rest), "/" + w + "/")
  {
    var pat := "/" + w + "/";
    assert pat[0] == '/';
    NoContainsByHead(seg, rest, pat);
    NoneStartInSegment(seg, rest, w);
    IndexSkip("/", seg + rest, pat);
  }

  /** A slash-free segment without `pat`, followed by the end or a `/`. */
  lemma NoContainsSlashFree(seg: string, rest: string, pat: string)
    requires '/' !in seg && '/' !in pat && !Contains(seg, pat)
    requires rest == [] || rest[0] == '/'
    requires !Contains(rest, pat)
    ensures !Contains(seg + rest, pat)
  {
    NoneStartInSlashFree(seg, rest, pat);
    IndexSkip(seg, rest, pat);
  }

  /** `s.replace(/c/g, rep)`: every occurrence of the character `c` replaced. */
  function ReplaceChar(s: string, c: char, rep: string): (r: string)
    ensures c !in s ==> r == s
    ensures c !in rep ==> c !in r
  {
    if s == [] then []
    else (if s[0] == c then rep else [s[0]]) + ReplaceChar(s[1..], c, rep)
  }

  lemma {:induction false} ReplaceCharConcat(a: string, b: string, c: char, rep: string)
    ensures ReplaceChar(a + b, c, rep) == ReplaceChar(a, c, rep) + ReplaceChar(b, c, rep)
  {
    if a != [] {
      var head := if a[0] == c then rep else [a[0]];
      assert (a + b)[0] == a[0];
      assert (a + b)[1..] == a[1..] + b;
      assert ReplaceChar(a + b, c, rep) == head + ReplaceChar(a[1..] + b, c, rep);
      ReplaceCharConcat(a[1..], b, c, rep);
      assert ReplaceChar(a, c, rep) == head + ReplaceChar(a[1..], c, rep);
    } else {
      assert a + b == b;
    }
  }

  /** `s.split(d)` for a one-character separator: never empty; the empty
      string splits into `[""]`, and a trailing separator yields a trailing `""`. */
  function Split(s: string, d: char): (parts: seq<string>)
    ensures |parts| >= 1
    ensures forall k :: 0 <= k < |parts| ==> d !in parts[k]
    ensures Join(parts, d) == s
    decreases |s|
  {
    if s == [] then [[]]
    else
      var rest := Split(s[1..], d);
      if s[0] == d then
        assert Join([[]] + rest, d) == [d] + Join(rest, d);
        [[]] + rest
      else
        JoinCons(s[0], rest, d);
        [[s[0]] + rest[0]] + rest[1..]
  }

  /** `parts.join(d)` */
  function Join(parts: seq<string>, d: char): string
    decreases |parts|
  {
    if parts == [] then []
    else if |parts| == 1 then parts[0]
    else parts[0] + [d] + Join(parts[1..], d)
  }

  lemma JoinCons(c: char, parts: seq<string>, d: char)
    requires |parts| >= 1
    ensures Join([[c] + parts[0]] + parts[1..], d) == [c] + Join(parts, d)
  {
    var ps := [[c] + parts[0]] + parts[1..];
    assert ps[1..] == parts[1..];
  }

  /** Splitting undoes joining, as long as no part contains the separator. */
  lemma {:induction false} SplitJoin(parts: seq<string>, d: char)
    requires |parts| >= 1
    requires forall k :: 0 <= k < |parts| ==> d !in parts[k]
    ensures Split(Join(parts, d), d) == parts
    decreases |parts|, |parts[0]|
  {
    if |parts| == 1 {
      SplitNoSeparator(parts[0], d);
    } else if parts[0] == [] {
      var s := Join(parts, d);
      assert s == [d] + Join(parts[1..], d);
      assert s[1..] == Join(parts[1..], d);
      SplitJoin(parts[1..], d);
      assert [[]] + parts[1..] == parts;
    } else {
      var s := Join(parts, d);
      var p0 := parts[0];
      var tail := [p0[1..]] + parts[1..];
      assert tail[1..] == parts[1..];
      assert Join(tail, d) == p0[1..] + [d] + Join(parts[1..], d);
      assert s == [p0[0]] + Join(tail, d);
      assert s[1..] == Join(tail, d);
      assert p0[0] != d by { assert p0[0] in p0; }
      assert d !in p0[1..] by {
        forall x | x in p0[1..] ensures x != d { assert x in p0; }
      }
      assert forall k :: 0 <= k < |tail| ==> d !in tail[k] by {
        forall k | 0 <= k < |tail| ensures d !in tail[k] {
          if k > 0 { assert tail[k] == parts[k]; }
        }
      }
      SplitJoin(tail, d);
      assert s[0] == p0[0];
      assert [p0[0]] + p0[1..] == p0;
      assert [[p0[0]] + tail[0]] + tail[1..] == parts;
    }
  }

  lemma {:induction false} SplitNoSeparator(s: string, d: char)
    requires d !in s
    ensures Split(s, d) == [s]
    decreases |s|
  {
    if s != [] {
      assert d !in s[1..] by {
        forall x | x in s[1..] ensures x != d { assert x in s; }
      }
      SplitNoSeparator(s[1..], d);
      assert s[0] != d by { assert s[0] in s; }
    }
  }

  /** `s.replace(/\s+$/, '')`: the longest prefix not ending in whitespace,
      everything after it being whitespace. */
  function TrimEnd(s: string): (r: string)
    ensures r <= s
    ensures AllSpace(s[|r|..])
    ensures r == [] || !IsSpace(r[|r| - 1])
    decreases |s|
  {
    if s != [] && IsSpace(s[|s| - 1]) then
      var r := TrimEnd(s[..|s| - 1]);
      assert s[|r|..] == s[..|s| - 1][|r|..] + [s[|s| - 1]];
      r
    else s
  }

  /** The longest suffix not starting with whitespace. */
  function TrimStart(s: string): (r: string)
    ensures |r| <= |s| && r == s[|s| - |r|..]
    ensures AllSpace(s[..|s| - |r|])
    ensures r == [] || !IsSpace(r[0])
    decreases |s|
  {
    if s != [] && IsSpace(s[0]) then
      var r := TrimStart(s[1..]);
      assert s[..|s| - |r|] == [s[0]] + s[1..][..|s| - 1 - |r|];
      r
    else s
  }

  /** `s.trim()` */
  function Trim(s: string): string {
    TrimStart(TrimEnd(s))
  }

  /** `s.trim() === ''` exactly when every character of `s` is whitespace. */
  lemma TrimEmptyIffAllSpace(s: string)
    ensures Trim(s) == [] <==> AllSpace(s)
  {
    var e := TrimEnd(s);
    if Trim(s) == [] {
      assert AllSpace(e) by { assert e[..|e| - 0] == e; }
      assert s == e + s[|e|..];
    }
  }

  function DigitChar(d: nat): (c: char)
    requires d < 10
    ensures '0' <= c <= '9' && c as int - '0' as int == d
  {
    ['0', '1', '2', '3', '4', '5', '6', '7', '8', '9'][d]
  }

  predicate Digits(s: string) {
    forall k :: 0 <= k < |s| ==> '0' <= s[k] <= '9'
  }

  /** The number a string of decimal digits denotes, most significant first. */
  function DecimalValue(s: string): nat
    requires Digits(s)
  {
    if s == [] then 0
    else DecimalValue(s[..|s| - 1]) * 10 + (s[|s| - 1] as int - '0' as int)
  }

  /** Decimal rendering, as template literals print a non-negative integer:
      digits only, and a leading `0` only for zero itself. */
  function NatToString(n: nat): (s: string)
    ensures |s| >= 1 && Digits(s)
    ensures s[0] == '0' <==> n == 0
    ensures n >= 10 ==> |s| >= 2
  {
    if n < 10 then [DigitChar(n)] else NatToString(n / 10) + [DigitChar(n % 10)]
  }

  /** Reading the rendering back as a decimal numeral gives `n`. */
  lemma {:induction false} NatToStringValue(n: nat)
    ensures DecimalValue(NatToString(n)) == n
  {
    var s := NatToString(n);
    if n >= 10 {
      NatToStringValue(n / 10);
      assert s[..|s| - 1] == NatToString(n / 10);
    } else {
      assert s[..|s| - 1] == [];
    }
  }

  lemma DigitCharInjective(a: nat, b: nat)
    requires a < 10 && b < 10 && DigitChar(a) == DigitChar(b)
    ensures a == b
  {
  }

  /** Distinct numbers print differently, so `code-block-N` keys never collide. */
  lemma {:induction false} NatToStringInjective(a: nat, b: nat)
    requires NatToString(a) == NatToString(b)
    ensures a == b
  {
    var sa, sb := NatToString(a), NatToString(b);
    if a < 10 && b < 10 {
      DigitCharInjective(a, b);
    } else if a >= 10 && b >= 10 {
      assert sa[|sa| - 1] == DigitChar(a % 10) && sb[|sb| - 1] == DigitChar(b % 10);
      DigitCharInjective(a % 10, b % 10);
      assert sa[..|sa| - 1] == NatToString(a / 10);
      assert sb[..|sb| - 1] == NatToString(b / 10);
      NatToStringInjective(a / 10, b / 10);
    } else {
      assert false;
    }
  }
}
