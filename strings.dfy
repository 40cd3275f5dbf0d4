/** The few `str` operations the program uses: `contains` and `split` on a `char`. */
module Strings {

  /** `sub` occurs in `s` at position `i`. */
  predicate OccursAt(s: string, sub: string, i: nat)
  {
    i + |sub| <= |s| && s[i..i + |sub|] == sub
  }

  lemma OccursAtTail(s: string, sub: string, i: nat)
    requires |s| > 0 && OccursAt(s[1..], sub, i)
    ensures OccursAt(s, sub, i + 1)
  {
    assert s[1..][i..i + |sub|] == s[i + 1..i + 1 + |sub|];
  }

  lemma OccursAtShift(s: string, sub: string, i: nat)
    requires |s| > 0 && i > 0 && OccursAt(s, sub, i)
    ensures OccursAt(s[1..], sub, i - 1)
  {
    assert s[1..][i - 1..i - 1 + |sub|] == s[i..i + |sub|];
  }

  /** `str::contains` with a string pattern: true iff `sub` occurs somewhere in `s`. */
  function Contains(s: string, sub: string): (r: bool)
    ensures r <==> exists i: nat :: OccursAt(s, sub, i)
    decreases |s|
  {
    if |sub| <= |s| && s[..|sub|] == sub then
      assert OccursAt(s, sub, 0);
      true
    else if |s| == 0 then
      false
    else
      var r := Contains(s[1..], sub);
      if r then
        var i: nat :| OccursAt(s[1..], sub, i);
        OccursAtTail(s, sub, i);
        true
      else
        assert forall i: nat :: OccursAt(s, sub, i) ==> i > 0 && OccursAt(s[1..], sub, i - 1) by {
          forall i: nat | OccursAt(s, sub, i) ensures i > 0 && OccursAt(s[1..], sub, i - 1) {
            assert i != 0;
            OccursAtShift(s, sub, i);
          }
        }
        false
  }

  /** Index of the first `c` in `s`, or `|s|` when `s` holds no `c`. */
  function IndexOf(s: string, c: char): (i: nat)
    ensures i <= |s|
    ensures i < |s| ==> s[i] == c
    ensures forall j :: 0 <= j < i ==> s[j] != c
  {
    if |s| == 0 || s[0] == c then 0 else 1 + IndexOf(s[1..], c)
  }

  /** `str::split` on a `char`: the segments between the separators, in order. */
  function Split(s: string, c: char): (parts: seq<string>)
    ensures |parts| >= 1
    decreases |s|
  {
    var i := IndexOf(s, c);
    if i == |s| then [s] else [s[..i]] + Split(s[i + 1..], c)
  }

  /** The first segment runs up to the first separator; it is the only one iff there is none. */
  lemma SplitHead(s: string, c: char)
    ensures Split(s, c)[0] == s[..IndexOf(s, c)]
    ensures |Split(s, c)| == 1 <==> IndexOf(s, c) == |s|
  {
  }

  /** The second segment, when there is one, runs from after the first separator up to the next. */
  lemma SplitSecond(s: string, c: char)
    requires IndexOf(s, c) < |s|
    ensures |Split(s, c)| >= 2
    ensures Split(s, c)[1] == Split(s[IndexOf(s, c) + 1..], c)[0]
  {
  }

  /** No segment holds the separator. */
  lemma {:induction false} SplitSegmentsFree(s: string, c: char)
    ensures forall k :: 0 <= k < |Split(s, c)| ==> c !in Split(s, c)[k]
    decreases |s|
  {
    var i := IndexOf(s, c);
    if i < |s| {
      SplitSegmentsFree(s[i + 1..], c);
      assert Split(s, c) == [s[..i]] + Split(s[i + 1..], c);
    }
  }

  /** The inverse of `Split`: the segments glued back together with `c`. */
  function Join(parts: seq<string>, c: char): string
  {
    if parts == [] then ""
    else if |parts| == 1 then parts[0]
    else parts[0] + [c] + Join(parts[1..], c)
  }

  /** One unfolding of `Split` at a separator. */
  lemma SplitAtSeparator(s: string, c: char)
    requires IndexOf(s, c) < |s|
    ensures Split(s, c) == [s[..IndexOf(s, c)]] + Split(s[IndexOf(s, c) + 1..], c)
  {
  }

  /** One unfolding of `Join` on a segment followed by at least one more. */
  lemma JoinCons(h: string, tail: seq<string>, c: char)
    requires |tail| >= 1
    ensures Join([h] + tail, c) == h + [c] + Join(tail, c)
  {
    assert ([h] + tail)[1..] == tail;
  }

  /** A string is its part before position `i`, the character there, and the part after. */
  lemma AroundIndex(s: string, i: nat)
    requires i < |s|
    ensures s == s[..i] + [s[i]] + s[i + 1..]
  {
  }

  /** Splitting loses nothing: joining the segments again gives back the input. */
  lemma {:induction false} JoinSplit(s: string, c: char)
    ensures Join(Split(s, c), c) == s
    decreases |s|
  {
    var i := IndexOf(s, c);
    if i < |s| {
      var rest := s[i + 1..];
      var tail := Split(rest, c);
      JoinSplit(rest, c);
      SplitAtSeparator(s, c);
      JoinCons(s[..i], tail, c);
      AroundIndex(s, i);
    } else {
      assert Split(s, c) == [s];
    }
  }

  /** The first `c` in `a + t` is just after `a` when `a` holds none and `t` starts with one (or is empty). */
  lemma {:induction false} IndexOfAfterPrefix(a: string, t: string, c: char)
    requires c !in a
    requires t == [] || t[0] == c
    ensures IndexOf(a + t, c) == |a|
  {
    if a != [] {
      assert (a + t)[1..] == a[1..] + t;
      IndexOfAfterPrefix(a[1..], t, c);
    } else {
      assert a + t == t;
    }
  }
}
