/**
 * The extraction pass's fence pattern ```(\w+)?\n([\s\S]*?)``` applied with
 * the global flag, as `RegExp.prototype.exec` walks it
 * (src/utils/codeBlockProcessor.ts:39-42).
 *
 * At a fixed start the pattern has exactly one way to match. The optional
 * group `(\w+)?` can only succeed with the longest run of word characters:
 * any shorter run is followed by a word character, not the newline the
 * pattern needs next. The lazy body `[\s\S]*?` ends at the first ``` at or
 * after the body's start. So `FenceAt` tries one start, `NextFence` finds the
 * leftmost start at or after `lastIndex`, and `Fences` lists the successive
 * matches.
 */
module Fences {
  import opened Text
  import opened Scan

  const Ticks := "```"

  /** One match: where it starts and ends, the captured info-string tag (group 1,
      `None` when the group did not participate) and the captured body (group 2). */
  datatype Fence = Fence(start: nat, tag: Option<string>, code: string, end: nat)

  function TagText(f: Fence): string {
    match f.tag
    case None => ""
    case Some(t) => t
  }

  /** `match[1] || 'text'` (codeBlockProcessor.ts:43). */
  function Language(f: Fence): (lang: string)
    ensures lang != []
  {
    match f.tag
    case None => "text"
    case Some(t) => if t == [] then "text" else t
  }

  /** No ``` starts inside `code`, counting one that would run into the closing ticks. */
  predicate ShortestBody(code: string) {
    forall j :: 0 <= j < |code| ==> !OccursAt(code + Ticks, Ticks, j)
  }

  /** The match of the pattern starting exactly at `i`, if any. */
  function FenceAt(s: string, i: nat): (r: Option<Fence>)
    ensures r.Some? ==> r.value.start == i && i < r.value.end <= |s|
  {
    if !OccursAt(s, Ticks, i) then None
    else FenceAfterTag(s, i, i + 3 + WordRun(s, i + 3))
  }

  /** The rest of the match once the opening ticks and the longest tag are
      read and the newline is expected at `nl`. */
  function FenceAfterTag(s: string, i: nat, nl: nat): (r: Option<Fence>)
    requires i + 3 <= nl
    ensures r.Some? ==> r.value.start == i && i < r.value.end <= |s|
  {
    if nl >= |s| || s[nl] != '\n' then None
    else
      match IndexFrom(s, Ticks, nl + 1)
      case None => None
      case Some(close) => Some(MakeFence(s, i, nl, close))
  }

  /** The match with its tag between `i + 3` and `nl` and its body between
      `nl + 1` and `close`. */
  function MakeFence(s: string, i: nat, nl: nat, close: nat): (f: Fence)
    requires i + 3 <= nl < close <= |s| - 3
    ensures f.start == i && f.end == close + 3
  {
    Fence(i, if nl == i + 3 then None else Some(s[i + 3..nl]), s[nl + 1..close], close + 3)
  }

  /** A match is ticks, a tag of word characters, a newline, a body in which
      no ticks start, and the closing ticks. */
  lemma FenceAtSound(s: string, i: nat)
    requires FenceAt(s, i).Some?
    ensures var f := FenceAt(s, i).value;
      && s[i..f.end] == Ticks + TagText(f) + "\n" + f.code + Ticks
      && WordChars(TagText(f)) && (f.tag.Some? ==> f.tag.value != [])
      && ShortestBody(f.code)
  {
    var nl := i + 3 + WordRun(s, i + 3);
    assert FenceAt(s, i) == FenceAfterTag(s, i, nl);
    var close := IndexFrom(s, Ticks, nl + 1).value;
    assert FenceAt(s, i) == Some(MakeFence(s, i, nl, close));
    FenceShape(s, i, nl, close);
  }

  lemma FenceShape(s: string, i: nat, nl: nat, close: nat)
    requires OccursAt(s, Ticks, i) && i + 3 <= nl < |s| && s[nl] == '\n'
    requires forall k :: i + 3 <= k < nl ==> IsWordChar(s[k])
    requires nl + 1 <= close && OccursAt(s, Ticks, close)
    requires forall j :: nl + 1 <= j < close ==> !OccursAt(s, Ticks, j)
    ensures s[i..close + 3] == Ticks + s[i + 3..nl] + "\n" + s[nl + 1..close] + Ticks
    ensures WordChars(s[i + 3..nl])
    ensures ShortestBody(s[nl + 1..close])
  {
    assert s[i..close + 3] == s[i..i + 3] + s[i + 3..nl] + [s[nl]] + s[nl + 1..close] + s[close..close + 3];
    var code := s[nl + 1..close];
    assert code + Ticks == s[nl + 1..close + 3];
    forall j | 0 <= j < |code| ensures !OccursAt(code + Ticks, Ticks, j) {
      OccursWithin(s, nl + 1, code + Ticks, Ticks, j);
    }
  }

  /** The converse of `FenceAt`'s contract: any way of reading the text at `i` as
      ticks, a word-character tag, a newline, a shortest body and ticks is the
      one match the pattern finds there. */
  lemma FenceAtComplete(s: string, i: nat, tag: string, code: string)
    requires WordChars(tag) && ShortestBody(code)
    requires i + |Ticks + tag + "\n" + code + Ticks| <= |s|
    requires s[i..i + |Ticks + tag + "\n" + code + Ticks|] == Ticks + tag + "\n" + code + Ticks
    ensures FenceAt(s, i) == Some(Fence(i, if tag == [] then None else Some(tag), code, i + |tag| + |code| + 7))
  {
    FenceParts(s, i, tag, code);
    TagAndClose(s, i, tag, code);
    FenceAtOfParts(s, i, tag, code);
  }

  /** The tag is the longest word run after the ticks, and the body ends at
      the first ticks after the newline. */
  lemma TagAndClose(s: string, i: nat, tag: string, code: string)
    requires WordChars(tag) && ShortestBody(code)
    requires i + 3 + |tag| + 1 + |code| + 3 <= |s|
    requires s[i + 3..i + 3 + |tag|] == tag && s[i + 3 + |tag|] == '\n'
    requires s[i + 3 + |tag| + 1..i + 3 + |tag| + 1 + |code| + 3] == code + Ticks
    ensures WordRun(s, i + 3) == |tag|
    ensures IndexFrom(s, Ticks, i + 3 + |tag| + 1) == Some(i + 3 + |tag| + 1 + |code|)
  {
    WordRunOf(s, i + 3, tag);
    ClosingTicks(s, i + 3 + |tag| + 1, code);
  }

  /** `FenceAt` once the tag run and the closing ticks are located. */
  lemma FenceAtOfParts(s: string, i: nat, tag: string, code: string)
    requires OccursAt(s, Ticks, i) && i + 3 + |tag| + 1 + |code| + 3 <= |s|
    requires WordRun(s, i + 3) == |tag| && s[i + 3 + |tag|] == '\n'
    requires IndexFrom(s, Ticks, i + 3 + |tag| + 1) == Some(i + 3 + |tag| + 1 + |code|)
    requires s[i + 3..i + 3 + |tag|] == tag && s[i + 3 + |tag| + 1..i + 3 + |tag| + 1 + |code|] == code
    ensures FenceAt(s, i) == Some(Fence(i, if tag == [] then None else Some(tag), code, i + |tag| + |code| + 7))
  {
    FenceAtUnfold(s, i, i + 3 + |tag|, i + 3 + |tag| + 1 + |code|);
    MakeFenceOf(s, i, tag, code);
  }

  lemma MakeFenceOf(s: string, i: nat, tag: string, code: string)
    requires i + 3 + |tag| + 1 + |code| + 3 <= |s|
    requires s[i + 3..i + 3 + |tag|] == tag && s[i + 3 + |tag| + 1..i + 3 + |tag| + 1 + |code|] == code
    ensures MakeFence(s, i, i + 3 + |tag|, i + 3 + |tag| + 1 + |code|)
      == Fence(i, if tag == [] then None else Some(tag), code, i + |tag| + |code| + 7)
  {
  }

  /** `FenceAt` when each of its three steps succeeds. */
  lemma FenceAtUnfold(s: string, i: nat, nl: nat, close: nat)
    requires OccursAt(s, Ticks, i) && nl == i + 3 + WordRun(s, i + 3)
    requires nl < |s| && s[nl] == '\n' && IndexFrom(s, Ticks, nl + 1) == Some(close)
    ensures FenceAt(s, i) == Some(MakeFence(s, i, nl, close))
  {
    assert FenceAt(s, i) == FenceAfterTag(s, i, nl);
  }

  lemma FenceParts(s: string, i: nat, tag: string, code: string)
    requires i + |Ticks + tag + "\n" + code + Ticks| <= |s|
    requires s[i..i + |Ticks + tag + "\n" + code + Ticks|] == Ticks + tag + "\n" + code + Ticks
    ensures OccursAt(s, Ticks, i)
    ensures s[i + 3..i + 3 + |tag|] == tag
    ensures s[i + 3 + |tag|] == '\n'
    ensures s[i + 3 + |tag| + 1..i + 3 + |tag| + 1 + |code| + 3] == code + Ticks
    ensures s[i + 3 + |tag| + 1..i + 3 + |tag| + 1 + |code|] == code
  {
    var a := Ticks + tag;
    var b := a + "\n";
    assert Ticks + tag + "\n" + code + Ticks == b + (code + Ticks);
    OccursConcat(s, b, code + Ticks, i);
    OccursConcat(s, code, Ticks, i + |b|);
    OccursConcat(s, a, "\n", i);
    OccursConcat(s, Ticks, tag, i);
  }

  lemma ClosingTicks(s: string, b: nat, code: string)
    requires ShortestBody(code)
    requires b + |code| + 3 <= |s| && s[b..b + |code| + 3] == code + Ticks
    ensures IndexFrom(s, Ticks, b) == Some(b + |code|)
  {
    var close := b + |code|;
    forall j | b <= j < close ensures !OccursAt(s, Ticks, j) {
      OccursWithin(s, b, code + Ticks, Ticks, j - b);
    }
    assert OccursAt(s, Ticks, close) by {
      OccursWithin(s, b, code + Ticks, Ticks, |code|);
      assert (code + Ticks)[|code|..|code| + 3] == Ticks;
    }
  }

  /** The pattern as a function of the start position, and a match's span. */
  function Matcher(s: string): nat -> Option<Fence> {
    (j: nat) => FenceAt(s, j)
  }

  const FenceStart: Fence -> nat := (f: Fence) => f.start
  const FenceEnd: Fence -> nat := (f: Fence) => f.end

  /** The leftmost match starting at or after `from` (one `exec` call). */
  function NextFence(s: string, from: nat): (r: Option<Fence>)
    ensures r.Some? ==> from <= r.value.start && FenceAt(s, r.value.start) == r
    ensures r.Some? ==> forall j :: from <= j < r.value.start ==> FenceAt(s, j).None?
    ensures r.None? ==> forall j :: from <= j ==> FenceAt(s, j).None?
    decreases |s| - from
  {
    if from >= |s| then None
    else match FenceAt(s, from)
      case Some(f) => Some(f)
      case None => NextFence(s, from + 1)
  }

  /** `r` is what repeated `exec` calls from `lastIndex = from` return. */
  ghost predicate ExecSequence(s: string, from: nat, r: seq<Fence>) {
    Successive(Matcher(s), FenceStart, FenceEnd, from, r)
  }

  /** All matches found by repeated `exec` from `lastIndex = from`, in order. */
  function FencesFrom(s: string, from: nat): seq<Fence>
    decreases |s| - from
  {
    match NextFence(s, from)
    case None => []
    case Some(f) => [f] + FencesFrom(s, f.end)
  }

  /** The list of matches is exactly what the `exec` loop sees. */
  lemma {:induction false} FencesFromSound(s: string, from: nat)
    ensures ExecSequence(s, from, FencesFrom(s, from))
    decreases |s| - from
  {
    match NextFence(s, from)
    case None =>
    case Some(f) =>
      FencesFromSound(s, f.end);
      SuccessiveCons(Matcher(s), FenceStart, FenceEnd, from, f, FencesFrom(s, f.end));
  }

  /** The k-th element of the list is a genuine match. */
  lemma {:induction false} FencesFromAt(s: string, from: nat, k: nat)
    requires k < |FencesFrom(s, from)|
    ensures FenceAt(s, FencesFrom(s, from)[k].start) == Some(FencesFrom(s, from)[k])
    decreases |s| - from
  {
    var f := NextFence(s, from).value;
    if k > 0 {
      FencesFromAt(s, f.end, k - 1);
    }
  }

  /** One `exec` step: either no match is left, or the match ends after
      `lastIndex` and the rest of the list continues from its end. */
  lemma NextFenceStep(s: string, from: nat)
    ensures NextFence(s, from).None? ==> FencesFrom(s, from) == []
    ensures NextFence(s, from).Some? ==>
      && from < NextFence(s, from).value.end <= |s|
      && FencesFrom(s, from) == [NextFence(s, from).value] + FencesFrom(s, NextFence(s, from).value.end)
  {
  }

  /** Every fence the extraction pass finds, left to right. */
  function FenceMatches(s: string): seq<Fence> {
    FencesFrom(s, 0)
  }

  /** Each fence found is ticks, a word-character tag, a newline, its body
      and ticks, at its start position. */
  lemma FenceMatchShape(s: string, k: nat)
    requires k < |FenceMatches(s)|
    ensures var f := FenceMatches(s)[k];
      && OccursAt(s, Ticks + TagText(f) + "\n" + f.code + Ticks, f.start)
      && WordChars(TagText(f)) && ShortestBody(f.code)
  {
    var f := FenceMatches(s)[k];
    assert FenceAt(s, f.start) == Some(f) by {
      FencesFromAt(s, 0, k);
    }
    FenceAtSound(s, f.start);
  }
}
