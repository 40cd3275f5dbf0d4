/**
 * The data half of `render`: the relevant set is collected in its iteration order, sorted by
 * last update with the most recent first, and each pull request is paired with its diff
 * stat, `(0, 0)` when the map has none. Drawing the table is not modelled.
 */
module RenderRows {
  import opened Wrappers
  import opened GitHub
  import opened Identity
  import opened DiffStats

  /** Rust's order on `Option<T>`: `None` below every `Some`, and `Some`s by their values. */
  function OptionLe(a: Option<int>, b: Option<int>): (r: bool)
    ensures a.None? ==> r
    ensures a.Some? && b.None? ==> !r
    ensures a.Some? && b.Some? ==> (r <==> a.value <= b.value)
  {
    a.None? || (b.Some? && a.value <= b.value)
  }

  /** `OptionLe` is a total order, as `Ord for Option` is. */
  lemma OptionLeTotalOrder(a: Option<int>, b: Option<int>, c: Option<int>)
    ensures OptionLe(a, a)
    ensures OptionLe(a, b) || OptionLe(b, a)
    ensures OptionLe(a, b) && OptionLe(b, a) ==> a == b
    ensures OptionLe(a, b) && OptionLe(b, c) ==> OptionLe(a, c)
  {
  }

  /** `x` may precede `y` in the output: `y` was not updated later than `x`. */
  predicate NotOlder(x: GhPullRequest, y: GhPullRequest)
  {
    OptionLe(y.updatedAt, x.updatedAt)
  }

  /** Most recently updated first. */
  predicate NewestFirst(prs: seq<GhPullRequest>)
  {
    forall i, j | 0 <= i < j < |prs| :: NotOlder(prs[i], prs[j])
  }

  /** A pull request without a timestamp follows every one that has one. */
  lemma NewestFirstPutsUnknownLast(prs: seq<GhPullRequest>, i: nat, j: nat)
    requires NewestFirst(prs) && i < |prs| && j < |prs|
    requires prs[i].updatedAt.None? && prs[j].updatedAt.Some?
    ensures j < i
  {
  }

  /** The elements stored under the numbers `ks`. */
  function ValuesOf(s: PrSet, ks: set<nat>): set<GhPullRequest>
    requires ks <= s.Keys
  {
    set n | n in ks :: s[n]
  }

  /**
   * `prs.iter().collect()`: the elements of the set, each once, in an order the model leaves
   * open (the iteration order of a `HashSet`).
   */
  method Iterate(s: PrSet) returns (items: seq<GhPullRequest>)
    requires ValidSet(s)
    ensures multiset(items) == multiset(s.Values)
  {
    items := [];
    var left := s.Keys;
    while left != {}
      invariant left <= s.Keys
      invariant multiset(items) == multiset(ValuesOf(s, s.Keys - left))
      decreases |left|
    {
      var n :| n in left;
      var done := s.Keys - left;
      assert s[n] !in ValuesOf(s, done);
      assert ValuesOf(s, done + {n}) == ValuesOf(s, done) + {s[n]};
      assert s.Keys - (left - {n}) == done + {n};
      items := items + [s[n]];
      left := left - {n};
    }
    assert ValuesOf(s, s.Keys) == s.Values;
  }

  /** `ordered_prs.sort_by(|a, b| b.updated_at.cmp(&a.updated_at))`, as an insertion sort. */
  method SortNewestFirst(a: array<GhPullRequest>)
    modifies a
    ensures NewestFirst(a[..])
    ensures multiset(a[..]) == old(multiset(a[..]))
  {
    var i := 0;
    while i < a.Length
      invariant 0 <= i <= a.Length
      invariant forall p, q | 0 <= p < q < i :: NotOlder(a[p], a[q])
      invariant multiset(a[..]) == old(multiset(a[..]))
    {
      var j := i;
      while j > 0 && !NotOlder(a[j - 1], a[j])
        invariant 0 <= j <= i
        invariant forall p, q | 0 <= p < q <= i && p != j && q != j :: NotOlder(a[p], a[q])
        invariant forall q | j < q <= i :: NotOlder(a[j], a[q])
        invariant multiset(a[..]) == old(multiset(a[..]))
      {
        a[j - 1], a[j] := a[j], a[j - 1];
        j := j - 1;
      }
      i := i + 1;
    }
  }

  /** One row of the table: a pull request and its `(additions, deletions)`. */
  datatype Row = Row(pr: GhPullRequest, stat: DiffStat)

  /** `pr_additions_and_deletions.get(&n).map_or((0, 0), ..)`. */
  function StatFor(diff: map<nat, DiffStat>, n: nat): (r: DiffStat)
    ensures n in diff ==> r == diff[n]
    ensures n !in diff ==> r == DiffStat(0, 0)
  {
    if n in diff then diff[n] else DiffStat(0, 0)
  }

  function PrsOf(rows: seq<Row>): (prs: seq<GhPullRequest>)
    ensures |prs| == |rows| && forall k | 0 <= k < |rows| :: prs[k] == rows[k].pr
  {
    seq(|rows|, k requires 0 <= k < |rows| => rows[k].pr)
  }

  /**
   * The rows `render` prints: every element of the set exactly once, most recently updated
   * first, each with its diff stat or `(0, 0)` when the map has no entry for it.
   */
  method Render(s: PrSet, diff: map<nat, DiffStat>) returns (rows: seq<Row>)
    requires ValidSet(s)
    ensures multiset(PrsOf(rows)) == multiset(s.Values)
    ensures NewestFirst(PrsOf(rows))
    ensures forall k | 0 <= k < |rows| :: rows[k].pr.number in diff ==> rows[k].stat == diff[rows[k].pr.number]
    ensures forall k | 0 <= k < |rows| :: rows[k].pr.number !in diff ==> rows[k].stat == DiffStat(0, 0)
  {
    var items := Iterate(s);
    var a := new GhPullRequest[|items|](k requires 0 <= k < |items| => items[k]);
    assert a[..] == items;
    SortNewestFirst(a);
    rows := [];
    for k := 0 to a.Length
      invariant |rows| == k
      invariant forall m | 0 <= m < k :: rows[m] == Row(a[m], StatFor(diff, a[m].number))
    {
      rows := rows + [Row(a[k], StatFor(diff, a[k].number))];
    }
    assert PrsOf(rows) == a[..];
  }

  lemma TwoOccurrences(xs: seq<GhPullRequest>, i: nat, j: nat)
    requires i < j < |xs| && xs[i] == xs[j]
    ensures multiset(xs)[xs[i]] >= 2
  {
    assert xs == xs[..j] + [xs[j]] + xs[j + 1..];
    assert xs[i] in xs[..j];
    assert multiset(xs) == multiset(xs[..j]) + multiset{xs[j]} + multiset(xs[j + 1..]);
  }

  /**
   * A sequence holding the elements of a set, each once, shows every pull request number at
   * most once and misses none of the set's elements.
   */
  lemma EachPrOnce(s: PrSet, xs: seq<GhPullRequest>)
    requires ValidSet(s) && multiset(xs) == multiset(s.Values)
    ensures forall i, j | 0 <= i < j < |xs| :: xs[i].number != xs[j].number
    ensures forall n | n in s :: s[n] in xs
  {
    forall i, j | 0 <= i < j < |xs| ensures xs[i].number != xs[j].number {
      assert xs[i] in multiset(xs) && xs[j] in multiset(xs);
      assert xs[i] in s.Values && xs[j] in s.Values;
      if xs[i].number == xs[j].number {
        assert xs[i] == s[xs[i].number] == xs[j];
        TwoOccurrences(xs, i, j);
      }
    }
    forall n | n in s ensures s[n] in xs {
      assert s[n] in s.Values;
      assert s[n] in multiset(xs);
    }
  }

  /** Every row shows an element of the set. */
  lemma RowsFromSet(s: PrSet, rows: seq<Row>)
    requires multiset(PrsOf(rows)) == multiset(s.Values)
    ensures forall row | row in rows :: row.pr in s.Values
  {
    forall row | row in rows ensures row.pr in s.Values {
      var k :| 0 <= k < |rows| && rows[k] == row;
      assert PrsOf(rows)[k] in multiset(PrsOf(rows));
    }
  }

  /** The rows show exactly the numbers of the set. */
  lemma RowNumbers(s: PrSet, rows: seq<Row>)
    requires ValidSet(s) && multiset(PrsOf(rows)) == multiset(s.Values)
    ensures (set row | row in rows :: row.pr.number) == s.Keys
  {
    var xs := PrsOf(rows);
    forall row | row in rows ensures row.pr.number in s {
      var k :| 0 <= k < |rows| && rows[k] == row;
      assert xs[k] in multiset(xs);
    }
    forall n | n in s ensures n in set row | row in rows :: row.pr.number {
      EachPrOnce(s, xs);
      var k :| 0 <= k < |xs| && xs[k] == s[n];
      assert rows[k] in rows;
    }
  }
}
