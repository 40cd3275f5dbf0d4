/**
 * `comments_mention_me`: one task per listed pull request fetches its review comments; the
 * consumer loop takes the tasks' outcomes in completion order and collects the pull requests
 * whose comments mention the viewer or were written by the viewer.
 */
module CommentScan {
  import opened Wrappers
  import opened Strings
  import opened GitHub
  import opened Identity

  /** What one comment task hands back: the pull request number and its comments. */
  type CommentOutcome = JoinOutcome<(nat, seq<Comment>)>

  /** The comment quotes `@login`, or its author is `login`. */
  predicate MentionsOrBy(c: Comment, login: string)
  {
    Contains(c.body, "@" + login) || (c.user.Some? && c.user.value.login == login)
  }

  /** `comments.items.iter().any(..)`. */
  function AnyMention(cs: seq<Comment>, login: string): (r: bool)
    ensures r <==> exists c :: c in cs && MentionsOrBy(c, login)
  {
    if cs == [] then false
    else MentionsOrBy(cs[0], login) || AnyMention(cs[1..], login)
  }

  /** `prs.into_iter().find(|p| p.number == n)`: the first pull request numbered `n`. */
  function Find(prs: seq<GhPullRequest>, n: nat): (r: Option<GhPullRequest>)
    ensures r.Some? ==> FirstWithNumber(prs, n, r.value)
    ensures r.None? <==> forall pr | pr in prs :: pr.number != n
  {
    if prs == [] then None
    else if prs[0].number == n then
      Some(prs[0])
    else
      var r := Find(prs[1..], n);
      if r.Some? then
        ghost var i :| 0 <= i < |prs[1..]| && prs[1..][i] == r.value && r.value.number == n &&
          forall j :: 0 <= j < i ==> prs[1..][j].number != n;
        assert prs[i + 1] == r.value && forall j :: 0 <= j < i + 1 ==> prs[j].number != n;
        r
      else
        assert forall pr | pr in prs :: pr == prs[0] || pr in prs[1..];
        r
  }

  /** The outcome is a finished task whose comments mention the viewer. */
  predicate Matches(o: CommentOutcome, login: string)
  {
    o.Joined? && o.result.Ok? && AnyMention(o.result.value.1, login)
  }

  /**
   * Consuming the outcome aborts the loop: the task's own `Err` (the `?`), or a matching
   * number that is not in the listing (the `unwrap` of `find`).
   */
  predicate Aborts(prs: seq<GhPullRequest>, login: string, o: CommentOutcome)
  {
    o.Joined? && (o.result.Err? || (Matches(o, login) && Find(prs, o.result.value.0).None?))
  }

  /** One turn of the consumer loop on the list `acc` collected so far. */
  function Step(prs: seq<GhPullRequest>, login: string, acc: seq<GhPullRequest>, o: CommentOutcome): (r: Result<seq<GhPullRequest>, Failure>)
    ensures r.Ok? <==> !Aborts(prs, login, o)
    ensures o.Joined? && o.result.Err? ==> r == Err(Api(o.result.error))
    ensures r.Ok? && !Matches(o, login) ==> r.value == acc
    ensures r.Ok? && Matches(o, login) ==>
      Find(prs, o.result.value.0).Some? && r.value == acc + [Find(prs, o.result.value.0).value]
  {
    match o
    case JoinFailed => Ok(acc)
    case Joined(Err(e)) => Err(Api(e))
    case Joined(Ok((n, cs))) =>
      if AnyMention(cs, login) then
        match Find(prs, n)
        case None => Err(Panic(PrNotFound(n)))
        case Some(pr) => Ok(acc + [pr])
      else Ok(acc)
  }

  /** What the consumer loop returns after the outcomes `os`, taken in this order. */
  function Scan(prs: seq<GhPullRequest>, login: string, os: seq<CommentOutcome>): Result<seq<GhPullRequest>, Failure>
  {
    if os == [] then Ok([])
    else
      match Scan(prs, login, os[..|os| - 1])
      case Err(e) => Err(e)
      case Ok(acc) => Step(prs, login, acc, os[|os| - 1])
  }

  /** Once the loop has failed, later outcomes are never looked at. */
  lemma {:induction false} ScanStaysFailed(prs: seq<GhPullRequest>, login: string, os: seq<CommentOutcome>, k: nat)
    requires k <= |os| && Scan(prs, login, os[..k]).Err?
    ensures Scan(prs, login, os) == Scan(prs, login, os[..k])
    decreases |os|
  {
    if k < |os| {
      var init := os[..|os| - 1];
      assert init[..k] == os[..k];
      ScanStaysFailed(prs, login, init, k);
    } else {
      assert os[..k] == os;
    }
  }

  /**
   * The body of the `while let` loop over the join set: join failures are skipped, a task's
   * `Err` ends the call with that error, and a task whose comments mention the viewer adds the
   * listed pull request of that number.
   */
  method CommentsMentionMe(prs: seq<GhPullRequest>, login: string, outcomes: seq<CommentOutcome>)
    returns (r: Result<seq<GhPullRequest>, Failure>)
    ensures r == Scan(prs, login, outcomes)
  {
    var result: seq<GhPullRequest> := [];
    var i := 0;
    while i < |outcomes|
      invariant 0 <= i <= |outcomes|
      invariant Scan(prs, login, outcomes[..i]) == Ok(result)
    {
      var o := outcomes[i];
      assert outcomes[..i + 1][..i] == outcomes[..i];
      if o.Joined? {
        if o.result.Err? {
          r := Err(Api(o.result.error));
          ScanStaysFailed(prs, login, outcomes, i + 1);
          return;
        }
        var (n, cs) := o.result.value;
        if AnyMention(cs, login) {
          var pr := Find(prs, n);
          if pr.None? {
            r := Err(Panic(PrNotFound(n)));
            ScanStaysFailed(prs, login, outcomes, i + 1);
            return;
          }
          result := result + [pr.value];
        }
      }
      i := i + 1;
    }
    assert outcomes[..i] == outcomes;
    r := Ok(result);
  }

  /** The scan succeeds iff no outcome aborts it. */
  lemma {:induction false} ScanOkIff(prs: seq<GhPullRequest>, login: string, os: seq<CommentOutcome>)
    ensures Scan(prs, login, os).Ok? <==> forall o | o in os :: !Aborts(prs, login, o)
    decreases |os|
  {
    if os != [] {
      var init := os[..|os| - 1];
      var last := os[|os| - 1];
      ScanOkIff(prs, login, init);
      match Scan(prs, login, init)
      case Ok(acc) => assert Step(prs, login, acc, last).Ok? <==> !Aborts(prs, login, last);
      case Err(_) =>
      assert os == init + [last];
      assert forall o | o in os :: o in init || o == os[|os| - 1];
    }
  }

  /**
   * When it succeeds, the scan holds exactly the listed pull requests that some matching
   * outcome names, and nothing else.
   */
  lemma {:induction false} ScanContents(prs: seq<GhPullRequest>, login: string, os: seq<CommentOutcome>)
    requires Scan(prs, login, os).Ok?
    ensures forall pr :: pr in Scan(prs, login, os).value <==>
      exists o :: o in os && Matches(o, login) && Find(prs, o.result.value.0) == Some(pr)
    decreases |os|
  {
    if os != [] {
      var init := os[..|os| - 1];
      var last := os[|os| - 1];
      assert os == init + [last];
      ScanContents(prs, login, init);
      forall pr ensures pr in Scan(prs, login, os).value <==>
        exists o :: o in os && Matches(o, login) && Find(prs, o.result.value.0) == Some(pr)
      {
        if pr in Scan(prs, login, os).value {
          if pr !in Scan(prs, login, init).value {
            assert Matches(last, login) && Find(prs, last.result.value.0) == Some(pr);
          } else {
            var o :| o in init && Matches(o, login) && Find(prs, o.result.value.0) == Some(pr);
            assert o in os;
          }
        } else {
          forall o | o in os && Matches(o, login) ensures Find(prs, o.result.value.0) != Some(pr) {
            if o != last {
              assert o in init;
            }
          }
        }
      }
    }
  }

  /** The numbers collected are those of the matching outcomes. */
  lemma ScanNumbers(prs: seq<GhPullRequest>, login: string, os: seq<CommentOutcome>)
    requires Scan(prs, login, os).Ok?
    ensures (set pr | pr in Scan(prs, login, os).value :: pr.number) ==
            (set o | o in os && Matches(o, login) :: o.result.value.0)
  {
    ScanOkIff(prs, login, os);
    ScanContents(prs, login, os);
    var v := Scan(prs, login, os).value;
    forall o | o in os && Matches(o, login)
      ensures o.result.value.0 in set pr | pr in v :: pr.number
    {
      assert !Aborts(prs, login, o);
      var pr := Find(prs, o.result.value.0).value;
      assert pr in v && pr.number == o.result.value.0;
    }
  }

  /** Fail fast: the first task `Err` to complete is the error of the whole call. */
  lemma ScanFailsFast(prs: seq<GhPullRequest>, login: string, os: seq<CommentOutcome>, k: nat)
    requires k < |os| && Scan(prs, login, os[..k]).Ok?
    requires os[k].Joined? && os[k].result.Err?
    ensures Scan(prs, login, os) == Err(Api(os[k].result.error))
  {
    assert os[..k + 1][..k] == os[..k];
    ScanStaysFailed(prs, login, os, k + 1);
  }

  /**
   * Completion order does not matter: two orders of the same outcomes both succeed or both
   * fail, and when they succeed they collect the same pull requests.
   */
  lemma ScanOrderIndependent(prs: seq<GhPullRequest>, login: string, os1: seq<CommentOutcome>, os2: seq<CommentOutcome>)
    requires multiset(os1) == multiset(os2)
    ensures Scan(prs, login, os1).Ok? <==> Scan(prs, login, os2).Ok?
    ensures Scan(prs, login, os1).Ok? ==>
      forall pr :: pr in Scan(prs, login, os1).value <==> pr in Scan(prs, login, os2).value
  {
    assert forall o :: o in os1 <==> o in os2 by {
      forall o ensures o in os1 <==> o in os2 {
        assert o in os1 <==> o in multiset(os1);
        assert o in os2 <==> o in multiset(os2);
      }
    }
    ScanOkIff(prs, login, os1);
    ScanOkIff(prs, login, os2);
    if Scan(prs, login, os1).Ok? {
      ScanContents(prs, login, os1);
      ScanContents(prs, login, os2);
    }
  }

  /** A PR whose thread has a comment by the viewer is collected, whatever else its thread holds. */
  lemma ScanCollectsAuthoredThread(prs: seq<GhPullRequest>, login: string, os: seq<CommentOutcome>, k: nat, c: Comment)
    requires Scan(prs, login, os).Ok? && k < |os|
    requires os[k].Joined? && os[k].result.Ok? && c in os[k].result.value.1
    requires c.user == Some(User(login))
    ensures Find(prs, os[k].result.value.0).Some?
    ensures Find(prs, os[k].result.value.0).value in Scan(prs, login, os).value
  {
    assert MentionsOrBy(c, login);
    assert Matches(os[k], login);
    ScanOkIff(prs, login, os);
    assert !Aborts(prs, login, os[k]);
    ScanContents(prs, login, os);
  }

  /** Everything the scan collects is one of the listed pull requests. */
  lemma ScanElementsListed(prs: seq<GhPullRequest>, login: string, os: seq<CommentOutcome>)
    requires Scan(prs, login, os).Ok?
    ensures forall pr | pr in Scan(prs, login, os).value :: pr in prs
  {
    ScanContents(prs, login, os);
    forall pr | pr in Scan(prs, login, os).value ensures pr in prs {
      var o :| o in os && Matches(o, login) && Find(prs, o.result.value.0) == Some(pr);
      assert FirstWithNumber(prs, o.result.value.0, pr);
    }
  }

  /**
   * With one task spawned per listed pull request, every number a task reports is listed, so
   * the `unwrap` of `find` never panics: the only error left is a task's own `Err`.
   */
  lemma {:induction false} ScanOfListingNeverPanics(prs: seq<GhPullRequest>, login: string, os: seq<CommentOutcome>)
    requires forall o | o in os && o.Joined? && o.result.Ok? :: o.result.value.0 in Numbers(prs)
    ensures Scan(prs, login, os).Err? ==> Scan(prs, login, os).error.Api?
    decreases |os|
  {
    if os != [] {
      var init := os[..|os| - 1];
      var last := os[|os| - 1];
      assert forall o | o in init :: o in os;
      ScanOfListingNeverPanics(prs, login, init);
      if Scan(prs, login, init).Ok? && last.Joined? && last.result.Ok? {
        var n := last.result.value.0;
        assert n in Numbers(prs);
        var pr :| pr in prs && pr.number == n;
        assert Find(prs, n).Some?;
      }
    }
  }
}
