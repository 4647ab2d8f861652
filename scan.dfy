/**
 * Repeated `RegExp.prototype.exec` with the global flag, for any pattern:
 * each call returns the leftmost match starting at or after `lastIndex`, and
 * the next call starts from that match's end. The pattern is given by `at`,
 * the match starting exactly at a position (if any), and a match's span by
 * `start` and `end`.
 */
module Scan {
  import opened Text

  /** No match starts in [a, b). */
  ghost predicate NoneBetween<M>(at: nat -> Option<M>, a: nat, b: nat) {
    forall j :: a <= j < b ==> at(j).None?
  }

  /** No match starts at or after a. */
  ghost predicate NoneFrom<M>(at: nat -> Option<M>, a: nat) {
    forall j :: a <= j ==> at(j).None?
  }

  /** The leftmost position in [from, limit) where a match starts: what one
      `exec` call finds when no match can start at or after `limit`. */
  function FirstAt<M>(at: nat -> Option<M>, from: nat, limit: nat): (p: Option<nat>)
    ensures p.Some? ==> from <= p.value < limit && at(p.value).Some?
    ensures p.Some? ==> NoneBetween(at, from, p.value)
    ensures p.None? ==> NoneBetween(at, from, limit)
    decreases limit - from
  {
    if from >= limit then None
    else if at(from).Some? then Some(from)
    else FirstAt(at, from + 1, limit)
  }

  /** `r` is what repeated `exec` calls from `lastIndex = from` return: each
      element is a genuine match, they do not overlap, and no match starts in
      the text skipped before, between or after them. */
  ghost predicate Successive<M>(at: nat -> Option<M>, start: M -> nat, end: M -> nat, from: nat, r: seq<M>) {
    && (forall k :: 0 <= k < |r| ==> from <= start(r[k]) && at(start(r[k])) == Some(r[k]))
    && (forall k :: 0 <= k < |r| - 1 ==> end(r[k]) <= start(r[k + 1]))
    && (|r| > 0 ==> NoneBetween(at, from, start(r[0])))
    && (forall k :: 0 <= k < |r| - 1 ==> NoneBetween(at, end(r[k]), start(r[k + 1])))
    && NoneFrom(at, if r == [] then from else end(r[|r| - 1]))
  }

  /** A leftmost match followed by the calls from its end is the sequence of
      calls from `from`. */
  lemma SuccessiveCons<M>(at: nat -> Option<M>, start: M -> nat, end: M -> nat, from: nat, m: M, rest: seq<M>)
    requires from <= start(m) <= end(m) && at(start(m)) == Some(m) && NoneBetween(at, from, start(m))
    requires Successive(at, start, end, end(m), rest)
    ensures Successive(at, start, end, from, [m] + rest)
  {
    var r := [m] + rest;
    assert r[0] == m;
    forall k | 0 <= k < |r| ensures from <= start(r[k]) && at(start(r[k])) == Some(r[k]) {
      if k > 0 {
        assert r[k] == rest[k - 1];
      }
    }
    forall k | 0 <= k < |r| - 1
      ensures end(r[k]) <= start(r[k + 1]) && NoneBetween(at, end(r[k]), start(r[k + 1]))
    {
      if k == 0 {
        assert r[1] == rest[0];
      } else {
        assert r[k] == rest[k - 1] && r[k + 1] == rest[k];
      }
    }
    if rest != [] {
      assert r[|r| - 1] == rest[|rest| - 1];
    }
  }
}
