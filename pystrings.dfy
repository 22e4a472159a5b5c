/**
  The few Python `str` operations the email check relies on, for a single
  separator character: membership, `startswith`/`endswith`, `split(sep)` and
  `rsplit(sep, 1)`. `Join` is `sep.join(parts)`, the inverse of `Split`.
 */
module PyStrings {
  import opened Wrappers

  /** `s.startswith(c)` for a one-character prefix. */
  predicate StartsWith(s: string, c: char) {
    |s| > 0 && s[0] == c
  }

  /** `s.endswith(c)` for a one-character suffix. */
  predicate EndsWith(s: string, c: char) {
    |s| > 0 && s[|s| - 1] == c
  }

  /** Number of occurrences of `c` in `s` (`s.count(c)`). */
  function Count(s: string, c: char): (n: nat)
    ensures n == 0 <==> c !in s
    ensures n <= |s|
  {
    if s == [] then 0
    else (if s[0] == c then 1 else 0) + Count(s[1..], c)
  }

  /** `c.join(parts)`: the parts with one `c` between neighbours. */
  function Join(parts: seq<string>, c: char): string
    requires |parts| > 0
  {
    if |parts| == 1 then parts[0]
    else parts[0] + [c] + Join(parts[1..], c)
  }

  /**
    `s.split(c)`: the maximal runs of `s` that hold no `c`. There is one more
    piece than there are separators, and joining the pieces gives `s` back.
   */
  function Split(s: string, c: char): (parts: seq<string>)
    ensures |parts| == Count(s, c) + 1
    ensures forall i :: 0 <= i < |parts| ==> c !in parts[i]
    ensures Join(parts, c) == s
  {
    if s == [] then [[]]
    else
      var rest := Split(s[1..], c);
      if s[0] == c then
        JoinFront([], rest, c);
        [[]] + rest
      else
        JoinExtendFirst(s[0], rest, c);
        [[s[0]] + rest[0]] + rest[1..]
  }

  lemma JoinFront(x: string, rest: seq<string>, c: char)
    requires |rest| > 0
    ensures Join([x] + rest, c) == x + [c] + Join(rest, c)
  {
    assert ([x] + rest)[1..] == rest;
  }

  lemma JoinExtendFirst(h: char, parts: seq<string>, c: char)
    requires |parts| > 0
    ensures Join([[h] + parts[0]] + parts[1..], c) == [h] + Join(parts, c)
  {
    if |parts| > 1 {
      JoinFront([h] + parts[0], parts[1..], c);
      JoinFront(parts[0], parts[1..], c);
      assert [parts[0]] + parts[1..] == parts;
    }
  }

  /** Joining a piece without `c` in front of more pieces and splitting again gives the piece back first. */
  lemma {:induction false} SplitAfterPiece(a: string, c: char, rest: string)
    requires c !in a
    ensures Split(a + [c] + rest, c) == [a] + Split(rest, c)
  {
    var s := a + [c] + rest;
    if a == [] {
      assert s[1..] == rest;
    } else {
      assert s[1..] == a[1..] + [c] + rest;
      SplitAfterPiece(a[1..], c, rest);
      var tail := Split(s[1..], c);
      assert tail[0] == a[1..] && tail[1..] == Split(rest, c);
      assert Split(s, c) == [[a[0]] + tail[0]] + tail[1..];
      assert [a[0]] + a[1..] == a;
    }
  }

  /** Splitting a string without `c` gives the string as the only piece. */
  lemma SplitWithoutSeparator(s: string, c: char)
    requires c !in s
    ensures Split(s, c) == [s]
  {
  }

  /** Round trip: pieces free of `c` survive `Join` followed by `Split`. */
  lemma {:induction false} SplitJoin(parts: seq<string>, c: char)
    requires |parts| > 0
    requires forall i :: 0 <= i < |parts| ==> c !in parts[i]
    ensures Split(Join(parts, c), c) == parts
  {
    if |parts| == 1 {
      SplitWithoutSeparator(parts[0], c);
    } else {
      SplitJoin(parts[1..], c);
      SplitAfterPiece(parts[0], c, Join(parts[1..], c));
    }
  }

  /** The position of the last `c` in `s` (`s.rfind(c)`), `None` when there is none. */
  function RFind(s: string, c: char): (r: Option<nat>)
    ensures r.None? <==> c !in s
    ensures r.Some? ==> r.value < |s| && s[r.value] == c && c !in s[r.value + 1..]
  {
    if s == [] then None
    else if s[|s| - 1] == c then Some(|s| - 1)
    else
      var r := RFind(s[..|s| - 1], c);
      assert r.Some? ==> s[r.value + 1..] == s[..|s| - 1][r.value + 1..] + [s[|s| - 1]];
      r
  }

  /**
    `s.rsplit(c, 1)`: split at the last `c` only. Without a `c` the result is
    `[s]`; otherwise two pieces, the second free of `c`, that join back to `s`.
   */
  function RSplitOnce(s: string, c: char): (parts: seq<string>)
    ensures |parts| == if c in s then 2 else 1
    ensures c !in parts[|parts| - 1]
    ensures Join(parts, c) == s
  {
    match RFind(s, c)
    case None => [s]
    case Some(i) =>
      assert s[..i] + [c] + s[i + 1..] == s;
      [s[..i], s[i + 1..]]
  }

  /** `rsplit` finds the last separator: one followed by no other. */
  lemma RSplitAtLast(a: string, c: char, b: string)
    requires c !in b
    ensures RSplitOnce(a + [c] + b, c) == [a, b]
  {
    var s := a + [c] + b;
    var r := RFind(s, c);
    assert s[|a|] == c;
    assert r.value == |a|;
    assert s[..|a|] == a && s[|a| + 1..] == b;
  }
}
