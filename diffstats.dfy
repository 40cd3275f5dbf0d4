/**
 * `get_additions_deletions`: one task per pull request of the relevant set lists its changed
 * files and folds their line counts; the consumer loop puts each task's pair into a map.
 */
module DiffStats {
  import opened Wrappers
  import opened GitHub

  /** The `(additions, deletions)` pair of one pull request. */
  datatype DiffStat = DiffStat(additions: nat, deletions: nat)

  /** Reference sums over the changed files, defined independently of the fold. */
  function TotalAdditions(files: seq<DiffFile>): nat
  {
    if files == [] then 0 else files[0].additions + TotalAdditions(files[1..])
  }

  function TotalDeletions(files: seq<DiffFile>): nat
  {
    if files == [] then 0 else files[0].deletions + TotalDeletions(files[1..])
  }

  /** `files.into_iter().fold(acc, |(a, d), file| (a + file.additions, d + file.deletions))`. */
  function FoldFrom(acc: DiffStat, files: seq<DiffFile>): (r: DiffStat)
    ensures r == DiffStat(acc.additions + TotalAdditions(files), acc.deletions + TotalDeletions(files))
    decreases files
  {
    if files == [] then acc
    else FoldFrom(DiffStat(acc.additions + files[0].additions, acc.deletions + files[0].deletions), files[1..])
  }

  /** The task's fold, started from `(0, 0)`: the totals of additions and of deletions. */
  function SumFiles(files: seq<DiffFile>): (r: DiffStat)
    ensures r.additions == TotalAdditions(files) && r.deletions == TotalDeletions(files)
  {
    FoldFrom(DiffStat(0, 0), files)
  }

  /** Two changed files `(10, 2)` and `(3, 0)` give `(13, 2)`. */
  lemma SumFilesExample()
    ensures SumFiles([DiffFile("a", 10, 2), DiffFile("b", 3, 0)]) == DiffStat(13, 2)
  {
    var fs := [DiffFile("a", 10, 2), DiffFile("b", 3, 0)];
    assert fs[1..][1..] == [];
  }

  lemma {:induction false} TotalsAppend(a: seq<DiffFile>, b: seq<DiffFile>)
    ensures TotalAdditions(a + b) == TotalAdditions(a) + TotalAdditions(b)
    ensures TotalDeletions(a + b) == TotalDeletions(a) + TotalDeletions(b)
  {
    if a != [] {
      assert (a + b)[1..] == a[1..] + b;
      TotalsAppend(a[1..], b);
    } else {
      assert a + b == b;
    }
  }

  /** Taking out the file at `k` takes its counts out of the totals. */
  lemma TotalsRemoveAt(fs: seq<DiffFile>, k: nat)
    requires k < |fs|
    ensures TotalAdditions(fs) == TotalAdditions(fs[..k] + fs[k + 1..]) + fs[k].additions
    ensures TotalDeletions(fs) == TotalDeletions(fs[..k] + fs[k + 1..]) + fs[k].deletions
  {
    var a, x, b := fs[..k], fs[k], fs[k + 1..];
    assert fs == a + ([x] + b);
    assert ([x] + b)[1..] == b;
    TotalsAppend(a, [x] + b);
    TotalsAppend(a, b);
  }

  /** Removing one occurrence of the first element from both sides keeps the multisets equal. */
  lemma RemoveMatching(f1: seq<DiffFile>, f2: seq<DiffFile>, k: nat)
    requires f1 != [] && k < |f2| && f2[k] == f1[0]
    requires multiset(f1) == multiset(f2)
    ensures multiset(f1[1..]) == multiset(f2[..k] + f2[k + 1..])
  {
    var x := f1[0];
    var rest2 := f2[..k] + f2[k + 1..];
    assert f1 == [x] + f1[1..];
    assert f2 == f2[..k] + [x] + f2[k + 1..];
    assert multiset(f1) == multiset{x} + multiset(f1[1..]);
    assert multiset(f2) == multiset(f2[..k]) + multiset{x} + multiset(f2[k + 1..]);
    assert multiset(rest2) == multiset(f2[..k]) + multiset(f2[k + 1..]);
    assert multiset(f1[1..]) == multiset(f1) - multiset{x};
    assert multiset(rest2) == multiset(f2) - multiset{x};
  }

  /** The totals do not depend on the order of the files. */
  lemma {:induction false} TotalsPermutation(f1: seq<DiffFile>, f2: seq<DiffFile>)
    requires multiset(f1) == multiset(f2)
    ensures TotalAdditions(f1) == TotalAdditions(f2)
    ensures TotalDeletions(f1) == TotalDeletions(f2)
    decreases |f1|
  {
    if f1 != [] {
      assert f1[0] in multiset(f2);
      var k :| 0 <= k < |f2| && f2[k] == f1[0];
      RemoveMatching(f1, f2, k);
      TotalsPermutation(f1[1..], f2[..k] + f2[k + 1..]);
      TotalsRemoveAt(f2, k);
    } else {
      assert |f2| == |multiset(f2)| == 0;
    }
  }

  /** The order in which a pull request's files are listed does not change its pair. */
  lemma SumFilesPermutation(f1: seq<DiffFile>, f2: seq<DiffFile>)
    requires multiset(f1) == multiset(f2)
    ensures SumFiles(f1) == SumFiles(f2)
  {
    TotalsPermutation(f1, f2);
  }

  /** The spawned task: `list_files(n).await?`, then the fold. */
  function DiffTask(number: nat, files: Result<seq<DiffFile>, ApiError>): (r: Result<(nat, DiffStat), ApiError>)
    ensures files.Err? ==> r == Err(files.error)
    ensures files.Ok? ==> r == Ok((number, DiffStat(TotalAdditions(files.value), TotalDeletions(files.value))))
  {
    match files
    case Ok(fs) => Ok((number, SumFiles(fs)))
    case Err(e) => Err(e)
  }

  /** What awaiting one diff task yields. */
  type DiffOutcome = JoinOutcome<(nat, DiffStat)>

  /** The outcome is a finished task that succeeded. */
  predicate Succeeded(o: DiffOutcome)
  {
    o.Joined? && o.result.Ok?
  }

  /** The number a succeeded outcome reports. */
  function Key(o: DiffOutcome): nat
  {
    match o
    case Joined(Ok((n, _))) => n
    case _ => 0
  }

  /** The pair a succeeded outcome reports. */
  function Stat(o: DiffOutcome): DiffStat
  {
    match o
    case Joined(Ok((_, st))) => st
    case _ => DiffStat(0, 0)
  }

  /** One turn of the loop: `let (pr, (a, d)) = res.unwrap()?; results.insert(pr, (a, d))`. */
  function Step(acc: map<nat, DiffStat>, o: DiffOutcome): (r: Result<map<nat, DiffStat>, Failure>)
    ensures r.Ok? <==> Succeeded(o)
    ensures o.JoinFailed? ==> r == Err(Panic(TaskJoinFailed))
    ensures o.Joined? && o.result.Err? ==> r == Err(Api(o.result.error))
    ensures r.Ok? ==> r.value.Keys == acc.Keys + {Key(o)} && r.value[Key(o)] == Stat(o)
    ensures r.Ok? ==> forall n | n in acc && n != Key(o) :: r.value[n] == acc[n]
  {
    match o
    case JoinFailed => Err(Panic(TaskJoinFailed))
    case Joined(Err(e)) => Err(Api(e))
    case Joined(Ok((n, st))) => Ok(acc[n := st])
  }

  /** What the consumer loop returns after the outcomes `os`, taken in this order. */
  function Collect(os: seq<DiffOutcome>): Result<map<nat, DiffStat>, Failure>
  {
    if os == [] then Ok(map[])
    else
      match Collect(os[..|os| - 1])
      case Err(e) => Err(e)
      case Ok(acc) => Step(acc, os[|os| - 1])
  }

  lemma {:induction false} CollectStaysFailed(os: seq<DiffOutcome>, k: nat)
    requires k <= |os| && Collect(os[..k]).Err?
    ensures Collect(os) == Collect(os[..k])
    decreases |os|
  {
    if k < |os| {
      var init := os[..|os| - 1];
      assert init[..k] == os[..k];
      CollectStaysFailed(init, k);
    } else {
      assert os[..k] == os;
    }
  }

  /** The `while let` loop over the completed handles. */
  method AdditionsDeletions(outcomes: seq<DiffOutcome>) returns (r: Result<map<nat, DiffStat>, Failure>)
    ensures r == Collect(outcomes)
  {
    var results: map<nat, DiffStat> := map[];
    var i := 0;
    while i < |outcomes|
      invariant 0 <= i <= |outcomes|
      invariant Collect(outcomes[..i]) == Ok(results)
    {
      var res := outcomes[i];
      assert outcomes[..i + 1][..i] == outcomes[..i];
      if res.JoinFailed? {
        r := Err(Panic(TaskJoinFailed));
        CollectStaysFailed(outcomes, i + 1);
        return;
      }
      if res.result.Err? {
        r := Err(Api(res.result.error));
        CollectStaysFailed(outcomes, i + 1);
        return;
      }
      var (pr, stat) := res.result.value;
      results := results[pr := stat];
      i := i + 1;
    }
    assert outcomes[..i] == outcomes;
    r := Ok(results);
  }

  /** The loop succeeds iff every task was joined and succeeded: any failure is fatal. */
  lemma {:induction false} CollectOkIff(os: seq<DiffOutcome>)
    ensures Collect(os).Ok? <==> forall o | o in os :: Succeeded(o)
    decreases |os|
  {
    if os != [] {
      var init := os[..|os| - 1];
      var last := os[|os| - 1];
      CollectOkIff(init);
      assert os == init + [last];
      assert forall o | o in os :: o in init || o == last;
      match Collect(init)
      case Ok(acc) => assert Step(acc, last).Ok? <==> Succeeded(last);
      case Err(_) =>
    }
  }

  /** Fail fast: the first failing outcome decides the error of the whole call. */
  lemma CollectFailsFast(os: seq<DiffOutcome>, k: nat)
    requires k < |os| && Collect(os[..k]).Ok? && !Succeeded(os[k])
    ensures Collect(os) == if os[k].JoinFailed? then Err(Panic(TaskJoinFailed)) else Err(Api(os[k].result.error))
  {
    assert os[..k + 1][..k] == os[..k];
    CollectStaysFailed(os, k + 1);
  }

  /**
   * On success the map's keys are the reported numbers, and each number maps to the pair of
   * the last outcome reporting it (`HashMap::insert` replaces).
   */
  lemma {:induction false} CollectContents(os: seq<DiffOutcome>)
    requires Collect(os).Ok?
    ensures Collect(os).value.Keys == set o | o in os :: Key(o)
    ensures forall i | 0 <= i < |os| && LastWithKey(os, i) :: Collect(os).value[Key(os[i])] == Stat(os[i])
    decreases |os|
  {
    if os != [] {
      var init := os[..|os| - 1];
      var last := os[|os| - 1];
      assert os == init + [last];
      CollectContents(init);
      CollectOkIff(os);
      assert Succeeded(last);
      var m := Collect(os).value;
      assert m == Collect(init).value[Key(last) := Stat(last)];
      assert forall o | o in os :: o in init || o == last;
      forall i | 0 <= i < |os| - 1 && LastWithKey(os, i)
        ensures m[Key(os[i])] == Stat(os[i])
      {
        assert init[i] == os[i];
        assert LastWithKey(init, i);
      }
    }
  }

  /** No outcome after the `i`-th reports the same number. */
  predicate LastWithKey(os: seq<DiffOutcome>, i: nat)
    requires i < |os|
  {
    forall j | i < j < |os| :: Key(os[j]) != Key(os[i])
  }

  /** The tasks that succeeded report pairwise different numbers. */
  predicate DistinctNumbers(os: seq<DiffOutcome>)
  {
    forall i, j | 0 <= i < j < |os| && Succeeded(os[i]) && Succeeded(os[j]) :: Key(os[i]) != Key(os[j])
  }

  /** An outcome occurring twice in an order gives two positions of it in any reordering. */
  lemma TwoPositions(os: seq<DiffOutcome>, x: DiffOutcome)
    requires multiset(os)[x] >= 2
    ensures exists a, b :: 0 <= a < b < |os| && os[a] == x && os[b] == x
  {
    assert x in multiset(os);
    var a :| 0 <= a < |os| && os[a] == x;
    assert os == os[..a] + [x] + os[a + 1..];
    assert multiset(os) == multiset(os[..a]) + multiset{x} + multiset(os[a + 1..]);
    if x in multiset(os[..a]) {
      var b :| 0 <= b < a && os[..a][b] == x;
      assert os[b] == x;
    } else {
      assert x in multiset(os[a + 1..]);
      var b :| 0 <= b < |os| - a - 1 && os[a + 1..][b] == x;
      assert os[a + 1 + b] == x;
    }
  }

  /** Two positions holding the same outcome count it twice. */
  lemma CountsTwice(os: seq<DiffOutcome>, i: nat, j: nat)
    requires i < j < |os| && os[i] == os[j]
    ensures multiset(os)[os[i]] >= 2
  {
    assert os == os[..j] + [os[j]] + os[j + 1..];
    assert os[i] in os[..j];
    assert multiset(os) == multiset(os[..j]) + multiset{os[j]} + multiset(os[j + 1..]);
  }

  /** With distinct successful numbers, a succeeded outcome occurs at most once. */
  lemma SucceededOnce(os: seq<DiffOutcome>, x: DiffOutcome)
    requires DistinctNumbers(os) && Succeeded(x)
    ensures multiset(os)[x] <= 1
  {
    if multiset(os)[x] >= 2 {
      TwoPositions(os, x);
      assert false;
    }
  }

  /** With distinct successful numbers, two different succeeded outcomes report different numbers. */
  lemma DifferentOutcomesDiffer(os: seq<DiffOutcome>, x: DiffOutcome, y: DiffOutcome)
    requires DistinctNumbers(os) && Succeeded(x) && Succeeded(y)
    requires x in multiset(os) && y in multiset(os) && x != y
    ensures Key(x) != Key(y)
  {
    var a :| 0 <= a < |os| && os[a] == x;
    var b :| 0 <= b < |os| && os[b] == y;
    assert a < b || b < a;
  }

  /** Reordering keeps the successful numbers distinct. */
  lemma DistinctNumbersPermutation(os1: seq<DiffOutcome>, os2: seq<DiffOutcome>)
    requires multiset(os1) == multiset(os2) && DistinctNumbers(os1)
    ensures DistinctNumbers(os2)
  {
    forall i, j | 0 <= i < j < |os2| && Succeeded(os2[i]) && Succeeded(os2[j])
      ensures Key(os2[i]) != Key(os2[j])
    {
      if os2[i] == os2[j] {
        CountsTwice(os2, i, j);
        SucceededOnce(os1, os2[i]);
        assert false;
      } else {
        DifferentOutcomesDiffer(os1, os2[i], os2[j]);
      }
    }
  }

  /** Two orders of one multiset of outcomes hold the same outcomes. */
  lemma SameElements(os1: seq<DiffOutcome>, os2: seq<DiffOutcome>)
    requires multiset(os1) == multiset(os2)
    ensures forall o :: o in os1 <==> o in os2
  {
    forall o ensures o in os1 <==> o in os2 {
      assert o in os1 <==> o in multiset(os1);
      assert o in os2 <==> o in multiset(os2);
    }
  }

  /** With distinct numbers, the value under a number is the pair of the one outcome reporting it. */
  lemma CollectValueOf(os: seq<DiffOutcome>, o: DiffOutcome)
    requires Collect(os).Ok? && DistinctNumbers(os) && o in os
    ensures Key(o) in Collect(os).value && Collect(os).value[Key(o)] == Stat(o)
  {
    CollectOkIff(os);
    CollectContents(os);
    var i :| 0 <= i < |os| && os[i] == o;
    assert LastWithKey(os, i);
  }

  /**
   * Completion order does not matter: reordering outcomes whose successful tasks report
   * distinct numbers succeeds or fails alike, and gives the same map on success.
   */
  lemma CollectOrderIndependent(os1: seq<DiffOutcome>, os2: seq<DiffOutcome>)
    requires multiset(os1) == multiset(os2)
    requires DistinctNumbers(os1)
    ensures Collect(os1).Ok? <==> Collect(os2).Ok?
    ensures Collect(os1).Ok? ==> Collect(os2) == Collect(os1)
  {
    SameElements(os1, os2);
    DistinctNumbersPermutation(os1, os2);
    CollectOkIff(os1);
    CollectOkIff(os2);
    if Collect(os1).Ok? {
      SameKeys(os1, os2);
      SameValues(os1, os2);
      assert Collect(os1).value == Collect(os2).value;
    }
  }

  /** Two successful orders of the same outcomes build maps with the same keys. */
  lemma SameKeys(os1: seq<DiffOutcome>, os2: seq<DiffOutcome>)
    requires Collect(os1).Ok? && Collect(os2).Ok?
    requires forall o :: o in os1 <==> o in os2
    ensures Collect(os1).value.Keys == Collect(os2).value.Keys
  {
    CollectContents(os1);
    CollectContents(os2);
  }

  /** Two successful orders of the same outcomes agree on every value when successful tasks report distinct numbers. */
  lemma SameValues(os1: seq<DiffOutcome>, os2: seq<DiffOutcome>)
    requires Collect(os1).Ok? && Collect(os2).Ok? && DistinctNumbers(os1) && DistinctNumbers(os2)
    requires forall o :: o in os1 <==> o in os2
    requires Collect(os1).value.Keys == Collect(os2).value.Keys
    ensures forall n | n in Collect(os1).value :: Collect(os2).value[n] == Collect(os1).value[n]
  {
    CollectContents(os1);
    forall n | n in Collect(os1).value ensures Collect(os2).value[n] == Collect(os1).value[n] {
      var o :| o in os1 && Key(o) == n;
      CollectValueOf(os1, o);
      CollectValueOf(os2, o);
    }
  }

  /** The outcomes the tasks spawned for `order` (one per number) would yield, in that order. */
  predicate StreamOf(order: seq<nat>, fetch: map<nat, Result<seq<DiffFile>, ApiError>>, os: seq<DiffOutcome>)
  {
    |os| == |order| &&
    forall i | 0 <= i < |order| :: order[i] in fetch && os[i] == Joined(DiffTask(order[i], fetch[order[i]]))
  }

  /** Each outcome of such a stream succeeded with its own number and its files' totals. */
  lemma StreamSucceeds(keys: set<nat>, order: seq<nat>, fetch: map<nat, Result<seq<DiffFile>, ApiError>>, os: seq<DiffOutcome>)
    requires forall i, j | 0 <= i < j < |order| :: order[i] != order[j]
    requires keys <= fetch.Keys && forall n | n in keys :: fetch[n].Ok?
    requires (set n | n in order) == keys
    requires StreamOf(order, fetch, os)
    ensures forall i | 0 <= i < |os| ::
      Succeeded(os[i]) && Key(os[i]) == order[i] && Stat(os[i]) == SumFiles(fetch[order[i]].value)
    ensures DistinctNumbers(os)
  {
    assert forall i | 0 <= i < |os| :: order[i] in keys;
  }

  /** The keys of the map built from such a stream are the spawned numbers. */
  lemma StreamKeys(keys: set<nat>, order: seq<nat>, os: seq<DiffOutcome>)
    requires Collect(os).Ok? && |os| == |order| && (set n | n in order) == keys
    requires forall i | 0 <= i < |os| :: Key(os[i]) == order[i]
    ensures Collect(os).value.Keys == keys
  {
    CollectContents(os);
    var m := Collect(os).value;
    forall n | n in keys ensures n in m.Keys {
      var i :| 0 <= i < |order| && order[i] == n;
      assert os[i] in os;
    }
    forall n | n in m.Keys ensures n in keys {
      var o :| o in os && Key(o) == n;
      var i :| 0 <= i < |os| && os[i] == o;
      assert order[i] in order;
    }
  }

  /** Each spawned number maps to its files' totals. */
  lemma StreamValues(keys: set<nat>, order: seq<nat>, fetch: map<nat, Result<seq<DiffFile>, ApiError>>, os: seq<DiffOutcome>)
    requires Collect(os).Ok? && DistinctNumbers(os) && |os| == |order| && (set n | n in order) == keys
    requires keys <= fetch.Keys && forall n | n in keys :: fetch[n].Ok?
    requires forall i | 0 <= i < |os| :: Key(os[i]) == order[i] && Stat(os[i]) == SumFiles(fetch[order[i]].value)
    ensures forall n | n in keys :: n in Collect(os).value && Collect(os).value[n] == SumFiles(fetch[n].value)
  {
    forall n | n in keys ensures n in Collect(os).value && Collect(os).value[n] == SumFiles(fetch[n].value) {
      var i :| 0 <= i < |order| && order[i] == n;
      CollectValueOf(os, os[i]);
    }
  }

  /**
   * Spawning one task per number of the relevant set, and every file listing succeeding, the
   * map holds exactly those numbers, each with the totals of its files, whatever the order.
   */
  lemma DiffOfRelevantSet(keys: set<nat>, order: seq<nat>, fetch: map<nat, Result<seq<DiffFile>, ApiError>>, os: seq<DiffOutcome>)
    requires (set n | n in order) == keys
    requires forall i, j | 0 <= i < j < |order| :: order[i] != order[j]
    requires keys <= fetch.Keys && forall n | n in keys :: fetch[n].Ok?
    requires StreamOf(order, fetch, os)
    ensures Collect(os) == Ok(map n | n in keys :: SumFiles(fetch[n].value))
  {
    StreamSucceeds(keys, order, fetch, os);
    CollectOkIff(os);
    StreamKeys(keys, order, os);
    StreamValues(keys, order, fetch, os);
    assert Collect(os).value == map n | n in keys :: SumFiles(fetch[n].value);
  }
}
