/**
 * The parts of JavaScript's `String.prototype.indexOf`, `split` and
 * `Array.prototype.join` that the core relies on, for a non-empty separator.
 */
module JsString {
  import opened Basics

  /** `sep` occurs in `s` starting at index `i`. */
  predicate OccursAt(s: string, sep: string, i: nat)
  {
    i + |sep| <= |s| && s[i..i + |sep|] == sep
  }

  /** `sep` occurs nowhere in `s`. */
  predicate Free(s: string, sep: string)
  {
    forall i: nat :: i <= |s| ==> !OccursAt(s, sep, i)
  }

  /** `s.indexOf(sep, from)`: the first index at or after `from` where `sep` occurs, if any. */
  function IndexFrom(s: string, sep: string, from: nat): (r: Option<nat>)
    requires |sep| > 0
    ensures r.Some? ==> from <= r.value && OccursAt(s, sep, r.value)
    ensures r.Some? ==> forall k: nat :: from <= k < r.value ==> !OccursAt(s, sep, k)
    ensures r.None? ==> forall k: nat :: from <= k ==> !OccursAt(s, sep, k)
    decreases |s| - from
  {
    if from + |sep| > |s| then None
    else if OccursAt(s, sep, from) then Some(from)
    else IndexFrom(s, sep, from + 1)
  }

  /** `s.indexOf(sep)`. */
  function IndexOf(s: string, sep: string): (r: Option<nat>)
    requires |sep| > 0
    ensures r.None? <==> Free(s, sep)
    ensures r.Some? ==> OccursAt(s, sep, r.value) && r.value + |sep| <= |s|
    ensures r.Some? ==> Free(s[..r.value], sep)
  {
    var r := IndexFrom(s, sep, 0);
    if r.Some? then PrefixBeforeFirstIsFree(s, sep, r.value); r else r
  }

  lemma PrefixBeforeFirstIsFree(s: string, sep: string, i: nat)
    requires |sep| > 0 && i <= |s|
    requires forall k: nat :: k < i ==> !OccursAt(s, sep, k)
    ensures Free(s[..i], sep)
  {
    forall k: nat | k <= i
      ensures !OccursAt(s[..i], sep, k)
    {
      if k + |sep| <= i {
        assert s[..i][k..k + |sep|] == s[k..k + |sep|];
        assert !OccursAt(s, sep, k);
      }
    }
  }

  /** `s.split(sep)` for a non-empty separator. */
  function Split(s: string, sep: string): (parts: seq<string>)
    requires |sep| > 0
    ensures |parts| >= 1
    ensures forall k :: 0 <= k < |parts| ==> Free(parts[k], sep)
    decreases |s|
  {
    match IndexOf(s, sep)
    case None => [s]
    case Some(i) => [s[..i]] + Split(s[i + |sep|..], sep)
  }

  /** `parts.join(sep)`. */
  function Join(parts: seq<string>, sep: string): (s: string)
    ensures |parts| > 0 ==> parts[0] <= s
  {
    if |parts| == 0 then ""
    else if |parts| == 1 then parts[0]
    else parts[0] + sep + Join(parts[1..], sep)
  }

  /** Splitting and joining again with the same separator gives back the original text. */
  lemma {:induction false} JoinSplit(s: string, sep: string)
    requires |sep| > 0
    ensures Join(Split(s, sep), sep) == s
    decreases |s|
  {
    var found := IndexOf(s, sep);
    if found.Some? {
      var i := found.value;
      var rest := s[i + |sep|..];
      JoinSplit(rest, sep);
      var tail := Split(rest, sep);
      SplitFound(s, sep, i);
      JoinCons(s[..i], tail, sep);
      assert s[i..i + |sep|] == sep;
      assert s == s[..i] + s[i..i + |sep|] + rest;
    }
  }

  /** Text without the separator splits into itself alone. */
  lemma SplitFree(s: string, sep: string)
    requires |sep| > 0 && Free(s, sep)
    ensures Split(s, sep) == [s]
  {
  }

  lemma SplitFound(s: string, sep: string, i: nat)
    requires |sep| > 0 && IndexOf(s, sep) == Some(i)
    ensures Split(s, sep) == [s[..i]] + Split(s[i + |sep|..], sep)
  {
  }

  lemma JoinCons(head: string, tail: seq<string>, sep: string)
    requires |tail| >= 1
    ensures Join([head] + tail, sep) == head + sep + Join(tail, sep)
  {
    assert ([head] + tail)[1..] == tail;
  }

  /**
   * For a one-character separator, text that does not contain it followed by
   * the separator splits into that text and then the split of what follows.
   */
  lemma SplitAfterFirst(a: string, sep: string, b: string)
    requires |sep| == 1 && Free(a, sep)
    ensures Split(a + sep + b, sep) == [a] + Split(b, sep)
  {
    var s := a + sep + b;
    assert OccursAt(s, sep, |a|) by { assert s[|a|..|a| + 1] == sep; }
    forall k: nat | k < |a|
      ensures !OccursAt(s, sep, k)
    {
      assert s[k..k + 1] == a[k..k + 1];
      assert !OccursAt(a, sep, k);
    }
    assert IndexFrom(s, sep, 0) == Some(|a|) by { FirstOccurrenceIs(s, sep, 0, |a|); }
    assert s[..|a|] == a;
    assert s[|a| + |sep|..] == b;
  }

  /** `IndexFrom` finds an occurrence when no earlier one exists from `from` on. */
  lemma {:induction false} FirstOccurrenceIs(s: string, sep: string, from: nat, i: nat)
    requires |sep| > 0 && from <= i && OccursAt(s, sep, i)
    requires forall k: nat :: from <= k < i ==> !OccursAt(s, sep, k)
    ensures IndexFrom(s, sep, from) == Some(i)
    decreases i - from
  {
    if from < i {
      FirstOccurrenceIs(s, sep, from + 1, i);
    }
  }
}
