/**
 * `preprocessReadme` (src/pages/api/recipe.ts:13-42): the transform applied to
 * a recipe's README before rendering. It first makes every relative
 * `images/` reference root-relative, then, when asked, cuts the text up to the
 * header that follows the first level-one header.
 */
module Readme {
  import opened Text

  /** `REMOVE_FIRST_HEADER_SECTION`, the default of `removeFirstHeader`. */
  const RemoveFirstHeaderSection := true

  const ImagesDir := "images/"

  /** `(?<!\/)images\/` matches at `i`: the text `images/` not preceded by `/`.
      The look-behind reads the text being scanned, never the replacement. */
  predicate ImageRefAt(s: string, i: nat) {
    OccursAt(s, ImagesDir, i) && (i == 0 || s[i - 1] != '/')
  }

  /** `replace(/(?<!\/)images\//g, '/images/')` scanning from `i`: a match is
      replaced and the scan resumes after it; any other character is copied. */
  function FixFrom(s: string, i: nat): string
    decreases |s| - i
  {
    if i >= |s| then []
    else if ImageRefAt(s, i) then "/images/" + FixFrom(s, i + 7)
    else [s[i]] + FixFrom(s, i + 1)
  }

  function FixImagePaths(s: string): string {
    FixFrom(s, 0)
  }

  /** Where an unslashed `images/` starts, position by position. */
  function ImageRefs(s: string): (at: seq<bool>)
    ensures |at| == |s|
  {
    seq(|s|, i requires 0 <= i < |s| => ImageRefAt(s, i))
  }

  /** Reference definition: each character of the input from `i` on, preceded
      by one `/` exactly where `at` is set. */
  function SlashedFrom(s: string, at: seq<bool>, i: nat): string
    requires |at| == |s|
    decreases |s| - i
  {
    if i >= |s| then []
    else (if at[i] then ['/', s[i]] else [s[i]]) + SlashedFrom(s, at, i + 1)
  }

  /** Which characters of `SlashedFrom(s, at, i)` were inserted. */
  function InsertedFrom(s: string, at: seq<bool>, i: nat): (mask: seq<bool>)
    requires |at| == |s|
    ensures |mask| == |SlashedFrom(s, at, i)|
    decreases |s| - i
  {
    if i >= |s| then []
    else (if at[i] then [true, false] else [false]) + InsertedFrom(s, at, i + 1)
  }

  /** Deletes the characters the mask marks. */
  function Erase(t: string, mask: seq<bool>): string
    requires |mask| == |t|
    decreases |t|
  {
    if t == [] then []
    else (if mask[0] then [] else [t[0]]) + Erase(t[1..], mask[1..])
  }

  /** No match starts inside `images/` after its first character. */
  lemma NoRefInside(s: string, i: nat, k: nat)
    requires ImageRefAt(s, i) && i < k < i + 7
    ensures !ImageRefAt(s, k)
  {
    assert s[i..i + 7] == ImagesDir;
    assert s[k] == ImagesDir[k - i];
    assert s[k] != 'i';
    assert !OccursAt(s, ImagesDir, k) by {
      if k + 7 <= |s| {
        assert s[k..k + 7][0] == s[k];
      }
    }
  }

  lemma {:induction false} SlashedPlain(s: string, at: seq<bool>, i: nat, n: nat)
    requires |at| == |s| && i + n <= |s|
    requires forall k :: i <= k < i + n ==> !at[k]
    ensures SlashedFrom(s, at, i) == s[i..i + n] + SlashedFrom(s, at, i + n)
    decreases n
  {
    if n > 0 {
      var x := SlashedFrom(s, at, i + n);
      assert SlashedFrom(s, at, i + 1) == s[i + 1..i + n] + x by {
        SlashedPlain(s, at, i + 1, n - 1);
      }
      assert SlashedFrom(s, at, i) == [s[i]] + SlashedFrom(s, at, i + 1) by {
        assert !at[i];
      }
      assert s[i..i + n] == [s[i]] + s[i + 1..i + n];
      AppendAssoc([s[i]], s[i + 1..i + n], x);
    } else {
      assert s[i..i + n] == [];
    }
  }

  /** No match starts in the six positions after a match's first character. */
  lemma NoRefsInside(s: string, i: nat)
    requires ImageRefAt(s, i)
    ensures i + 7 <= |s| && forall k :: i + 1 <= k < i + 7 ==> !ImageRefs(s)[k]
  {
    forall k | i + 1 <= k < i + 7 ensures !ImageRefs(s)[k] {
      NoRefInside(s, i, k);
    }
  }

  /** The global scan is the per-character insertion: a replacement never
      overlaps the next match. */
  lemma {:induction false} FixIsSlashed(s: string, i: nat)
    ensures FixFrom(s, i) == SlashedFrom(s, ImageRefs(s), i)
    decreases |s| - i
  {
    if i < |s| {
      if ImageRefAt(s, i) {
        FixIsSlashed(s, i + 7);
        SlashedMatch(s, i);
      } else {
        FixIsSlashed(s, i + 1);
      }
    }
  }

  /** At a match the reference emits `/images/` and continues after it, as
      the scan does. */
  lemma SlashedMatch(s: string, i: nat)
    requires i < |s| && ImageRefAt(s, i)
    ensures SlashedFrom(s, ImageRefs(s), i) == "/images/" + SlashedFrom(s, ImageRefs(s), i + 7)
  {
    var at := ImageRefs(s);
    var rest := SlashedFrom(s, at, i + 7);
    var body := s[i + 1..i + 7];
    assert SlashedFrom(s, at, i + 1) == body + rest by {
      NoRefsInside(s, i);
      SlashedPlain(s, at, i + 1, 6);
    }
    assert [s[i]] + body == ImagesDir by {
      assert s[i..i + 7] == ImagesDir;
      assert [s[i]] + body == s[i..i + 7];
    }
    assert ['/', s[i]] + body == "/images/" by {
      assert ['/', s[i]] + body == ['/'] + ([s[i]] + body);
      assert ['/'] + ImagesDir == "/images/";
    }
    AppendAssoc(['/', s[i]], body, rest);
    assert at[i];
  }

  /** Deleting the inserted characters gives back the input. */
  lemma {:induction false} EraseInserted(s: string, at: seq<bool>, i: nat)
    requires |at| == |s| && i <= |s|
    ensures Erase(SlashedFrom(s, at, i), InsertedFrom(s, at, i)) == s[i..]
    decreases |s| - i
  {
    if i < |s| {
      EraseInserted(s, at, i + 1);
      EraseStep(s, at, i);
      assert s[i..] == [s[i]] + s[i + 1..];
    }
  }

  /** Erasing one position's output leaves its input character. */
  lemma EraseStep(s: string, at: seq<bool>, i: nat)
    requires |at| == |s| && i < |s|
    ensures Erase(SlashedFrom(s, at, i), InsertedFrom(s, at, i))
      == [s[i]] + Erase(SlashedFrom(s, at, i + 1), InsertedFrom(s, at, i + 1))
  {
    var t, m := SlashedFrom(s, at, i + 1), InsertedFrom(s, at, i + 1);
    EraseCons(s[i], false, t, m);
    if at[i] {
      assert ['/', s[i]] + t == ['/'] + ([s[i]] + t);
      assert [true, false] + m == [true] + ([false] + m);
      EraseCons('/', true, [s[i]] + t, [false] + m);
    }
  }

  lemma EraseCons(c: char, b: bool, t: string, m: seq<bool>)
    requires |m| == |t|
    ensures Erase([c] + t, [b] + m) == (if b then [] else [c]) + Erase(t, m)
  {
    assert ([c] + t)[1..] == t && ([b] + m)[1..] == m;
  }

  /** Every inserted character is a `/` standing right before the `images/`
      it was inserted for. */
  lemma {:induction false} InsertedAreSlashes(s: string, i: nat, k: nat)
    requires k < |InsertedFrom(s, ImageRefs(s), i)| && InsertedFrom(s, ImageRefs(s), i)[k]
    ensures SlashedFrom(s, ImageRefs(s), i)[k] == '/'
    ensures OccursAt(SlashedFrom(s, ImageRefs(s), i), ImagesDir, k + 1)
    decreases |s| - i
  {
    var at := ImageRefs(s);
    var t := SlashedFrom(s, at, i);
    var rest := SlashedFrom(s, at, i + 1);
    var w := if at[i] then 2 else 1;
    assert t == (if at[i] then ['/', s[i]] else [s[i]]) + rest;
    assert InsertedFrom(s, at, i) == (if at[i] then [true, false] else [false]) + InsertedFrom(s, at, i + 1);
    if k < w {
      assert at[i] && k == 0;
      var u := SlashedFrom(s, at, i + 7);
      assert t == "/images/" + u by {
        SlashedMatch(s, i);
      }
      assert t[1..8] == ImagesDir;
    } else {
      var j := k - w;
      assert InsertedFrom(s, at, i + 1)[j];
      InsertedAreSlashes(s, i + 1, j);
      OccursAfter(if at[i] then ['/', s[i]] else [s[i]], rest, ImagesDir, j + 1);
    }
  }

  /** An occurrence in `b` is one in `a + b`, shifted by `|a|`. */
  lemma OccursAfter(a: string, b: string, pat: string, j: nat)
    requires OccursAt(b, pat, j)
    ensures OccursAt(a + b, pat, |a| + j)
  {
    assert (a + b)[|a| + j..|a| + j + |pat|] == b[j..j + |pat|];
  }

  /** `^#\s+.*$` under the `m` flag matches at `p`: a line start, `#`, then
      whitespace (`.*$` always completes the match). A `##` line does not
      match, since `#` is not whitespace. */
  predicate FirstHeaderAt(s: string, p: nat) {
    p + 1 < |s| && s[p] == '#' && IsSpace(s[p + 1]) && (p == 0 || IsLineTerminator(s[p - 1]))
  }

  /** The index of the first match of `^#\s+.*$`, searching from `from`. */
  function FirstHeaderFrom(s: string, from: nat): (r: Option<nat>)
    ensures r.Some? ==> from <= r.value && FirstHeaderAt(s, r.value)
    ensures r.Some? ==> forall p :: from <= p < r.value ==> !FirstHeaderAt(s, p)
    ensures r.None? ==> forall p :: from <= p ==> !FirstHeaderAt(s, p)
    decreases |s| - from
  {
    if from + 1 >= |s| then None
    else if FirstHeaderAt(s, from) then Some(from)
    else FirstHeaderFrom(s, from + 1)
  }

  /** `k` number signs from `a`, then whitespace. */
  predicate HashesThenSpace(s: string, a: nat, k: nat) {
    a + k < |s| && (forall m :: a <= m < a + k ==> s[m] == '#') && IsSpace(s[a + k])
  }

  /** `\n(#{1,6}\s+.*$)` under the `m` flag matches at `q`. */
  predicate NextHeaderAt(s: string, q: nat) {
    && q < |s| && s[q] == '\n'
    && (|| HashesThenSpace(s, q + 1, 1) || HashesThenSpace(s, q + 1, 2) || HashesThenSpace(s, q + 1, 3)
        || HashesThenSpace(s, q + 1, 4) || HashesThenSpace(s, q + 1, 5) || HashesThenSpace(s, q + 1, 6))
  }

  /** The index of the first match of `\n(#{1,6}\s+.*$)`, searching from `from`. */
  function NextHeaderFrom(s: string, from: nat): (r: Option<nat>)
    ensures r.Some? ==> from <= r.value && NextHeaderAt(s, r.value)
    ensures r.Some? ==> forall q :: from <= q < r.value ==> !NextHeaderAt(s, q)
    ensures r.None? ==> forall q :: from <= q ==> !NextHeaderAt(s, q)
    decreases |s| - from
  {
    if from >= |s| then None
    else if NextHeaderAt(s, from) then Some(from)
    else NextHeaderFrom(s, from + 1)
  }

  /** `preprocessReadme(content, removeFirstHeader)`: the image rewrite, then,
      when asked and when a first header exists, everything before the line
      of the next header is cut (or everything, when there is none). */
  function PreprocessReadme(content: string, removeFirstHeader: bool): (r: string)
    ensures |r| <= |FixImagePaths(content)|
    ensures r == FixImagePaths(content)[|FixImagePaths(content)| - |r|..]
    ensures !removeFirstHeader ==> r == FixImagePaths(content)
  {
    var processed := FixImagePaths(content);
    if !removeFirstHeader then processed
    else
      match FirstHeaderFrom(processed, 0)
      case None => processed
      case Some(first) =>
        var remaining := processed[first..];
        match NextHeaderFrom(remaining, 0)
        case Some(next) => processed[first + next + 1..]
        case None => []
  }

  /** The call with the default argument. */
  function PreprocessReadmeDefault(content: string): string {
    PreprocessReadme(content, RemoveFirstHeaderSection)
  }

  /** Searching the slice from the first header is searching the text from it. */
  lemma NextHeaderInSlice(s: string, p: nat, q: nat)
    requires p <= |s|
    ensures NextHeaderAt(s[p..], q) <==> NextHeaderAt(s, p + q)
  {
    HashesInSlice(s, p, q, 1);
    HashesInSlice(s, p, q, 2);
    HashesInSlice(s, p, q, 3);
    HashesInSlice(s, p, q, 4);
    HashesInSlice(s, p, q, 5);
    HashesInSlice(s, p, q, 6);
  }

  lemma HashesInSlice(s: string, p: nat, q: nat, k: nat)
    requires p <= |s|
    ensures HashesThenSpace(s[p..], q + 1, k) <==> HashesThenSpace(s, p + q + 1, k)
  {
    var t := s[p..];
    if p + q + 1 + k < |s| {
      assert forall m :: q + 1 <= m < q + 1 + k ==> t[m] == s[p + m];
    }
  }

  /** Without a line starting with `#` and whitespace, only the image rewrite applies. */
  lemma NoFirstHeaderKeepsText(content: string, removeFirstHeader: bool)
    requires forall p :: !FirstHeaderAt(FixImagePaths(content), p)
    ensures PreprocessReadme(content, removeFirstHeader) == FixImagePaths(content)
  {
  }

  /** With a first header at `first` and the next header's newline at `next`,
      the result is the text from the next header's line on: it starts with
      `#`, and what preceded it, the first header included, is gone. */
  lemma CutsAtNextHeader(content: string, first: nat, next: nat)
    requires FirstHeaderAt(FixImagePaths(content), first)
    requires forall p :: 0 <= p < first ==> !FirstHeaderAt(FixImagePaths(content), p)
    requires first <= next && NextHeaderAt(FixImagePaths(content), next)
    requires forall q :: first <= q < next ==> !NextHeaderAt(FixImagePaths(content), q)
    ensures PreprocessReadme(content, true) == FixImagePaths(content)[next + 1..]
    ensures first < next && PreprocessReadme(content, true)[0] == '#'
  {
    var s := FixImagePaths(content);
    assert FirstHeaderFrom(s, 0) == Some(first);
    var t := s[first..];
    NextHeaderInSlice(s, first, next - first);
    forall q | 0 <= q < next - first ensures !NextHeaderAt(t, q) {
      NextHeaderInSlice(s, first, q);
    }
    assert NextHeaderFrom(t, 0) == Some(next - first);
    assert s[next + 1] == '#';
  }

  /** A first header with no header after it: the whole text is cut. */
  lemma NoNextHeaderEmpties(content: string, first: nat)
    requires FirstHeaderAt(FixImagePaths(content), first)
    requires forall p :: 0 <= p < first ==> !FirstHeaderAt(FixImagePaths(content), p)
    requires forall q :: first <= q ==> !NextHeaderAt(FixImagePaths(content), q)
    ensures PreprocessReadme(content, true) == []
  {
    var s := FixImagePaths(content);
    assert FirstHeaderFrom(s, 0) == Some(first);
    var t := s[first..];
    forall q | 0 <= q ensures !NextHeaderAt(t, q) {
      NextHeaderInSlice(s, first, q);
    }
    assert NextHeaderFrom(t, 0).None?;
  }
}
