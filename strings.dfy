/** Python's `str.find` and `str.split` on a one-character separator, and the
    inverse of `split` (`sep.join`). Both scripts lean on these: the voice
    string is split on '-', and a manifest file is read back line by line. */
module Strings {

  /** Position of the first `c` in `s`; `|s|` when `c` does not occur
      (Python's `str.find` returns -1 there). */
  function IndexOf(s: string, c: char): (i: nat)
    ensures i <= |s|
    ensures i < |s| <==> c in s
    ensures i < |s| ==> s[i] == c
    ensures c !in s[..i]
  {
    if |s| == 0 then 0
    else if s[0] == c then 0
    else
      var j := IndexOf(s[1..], c);
      assert s[..1 + j] == [s[0]] + s[1..][..j];
      1 + j
  }

  /** `s.split(c)`: the maximal runs between occurrences of `c`, empty runs
      included, so "a--b" gives ["a", "", "b"] and "" gives [""]. */
  function Split(s: string, c: char): (parts: seq<string>)
    ensures |parts| >= 1
    ensures forall k :: 0 <= k < |parts| ==> c !in parts[k]
    ensures (|parts| == 1) == (c !in s)
    ensures parts[0] == s[..IndexOf(s, c)]
    decreases |s|
  {
    var i := IndexOf(s, c);
    if i == |s| then [s]
    else [s[..i]] + Split(s[i + 1..], c)
  }

  /** `c.join(parts)`. */
  function Join(parts: seq<string>, c: char): string
  {
    if |parts| == 0 then ""
    else if |parts| == 1 then parts[0]
    else parts[0] + [c] + Join(parts[1..], c)
  }

  /** Splitting loses nothing: joining the parts back gives the input. */
  lemma {:induction false} JoinSplit(s: string, c: char)
    ensures Join(Split(s, c), c) == s
    decreases |s|
  {
    if c in s {
      var i := IndexOf(s, c);
      var head, tail := s[..i], s[i + 1..];
      var rest := Split(tail, c);
      SplitUnfold(s, c, i);
      JoinSplit(tail, c);
      JoinCons(head, rest, c);
      Around(s, i);
    }
  }

  /** One step of `Split` when the separator occurs. */
  lemma SplitUnfold(s: string, c: char, i: nat)
    requires i == IndexOf(s, c) < |s|
    ensures Split(s, c) == [s[..i]] + Split(s[i + 1..], c)
  {
    Around(s, i);
    SplitAfterPrefix(s[..i], s[i + 1..], c);
  }

  /** A sequence is what comes before position `i`, the element there, and
      what comes after. */
  lemma Around<T>(s: seq<T>, i: nat)
    requires i < |s|
    ensures s == s[..i] + [s[i]] + s[i + 1..]
  {
  }

  /** Joining a part in front of at least one other puts a separator between. */
  lemma JoinCons(head: string, rest: seq<string>, c: char)
    requires |rest| >= 1
    ensures Join([head] + rest, c) == head + [c] + Join(rest, c)
  {
    assert ([head] + rest)[1..] == rest;
  }

  /** Splitting is the inverse of joining parts that do not contain the
      separator. */
  lemma {:induction false} SplitJoin(parts: seq<string>, c: char)
    requires |parts| >= 1
    requires forall k :: 0 <= k < |parts| ==> c !in parts[k]
    ensures Split(Join(parts, c), c) == parts
    decreases |parts|
  {
    if |parts| > 1 {
      var rest := Join(parts[1..], c);
      assert Join(parts, c) == parts[0] + [c] + rest;
      SplitAfterPrefix(parts[0], rest, c);
      SplitJoin(parts[1..], c);
      assert parts == [parts[0]] + parts[1..];
    } else {
      assert Join(parts, c) == parts[0];
    }
  }

  /** The first `c` of `p + [c] + t` is the one right after `p` when `p` has none. */
  lemma IndexOfAfterPrefix(p: string, t: string, c: char)
    requires c !in p
    ensures IndexOf(p + [c] + t, c) == |p|
  {
    var s := p + [c] + t;
    var i := IndexOf(s, c);
    assert s[|p|] == c;
    assert s[..|p|] == p;
  }

  /** Splitting `p + [c] + t` where `p` has no `c` peels `p` off the front. */
  lemma SplitAfterPrefix(p: string, t: string, c: char)
    requires c !in p
    ensures Split(p + [c] + t, c) == [p] + Split(t, c)
  {
    var s := p + [c] + t;
    IndexOfAfterPrefix(p, t, c);
    assert s[..|p|] == p;
    assert s[|p| + 1..] == t;
  }
}
