/**
 * The stages of `main` after the listing, chained: the relevant set (direct matches, then the
 * comment mentions when `--comments` is given), the diff stats of that set, and the rows.
 */
module Pipeline {
  import opened Wrappers
  import opened GitHub
  import opened Identity
  import opened Relevance
  import opened CommentScan
  import opened DiffStats
  import opened RenderRows

  /** The numbers of the pull requests that `process_pr` accepts. */
  function DirectNumbers(prs: seq<GhPullRequest>, myTeams: seq<Team>, me: User): set<nat>
  {
    set pr | pr in prs && ProcessPr(pr, myTeams, me) :: pr.number
  }

  /** The numbers the comment scan collects, when it succeeds. */
  function MentionNumbers(prs: seq<GhPullRequest>, login: string, os: seq<CommentOutcome>): set<nat>
  {
    match Scan(prs, login, os)
    case Ok(found) => set pr | pr in found :: pr.number
    case Err(_) => {}
  }

  /**
   * `prs_concerning_me`: without `--comments`, the direct matches; with it, their union by
   * number with the pull requests whose comments mention the viewer, or the scan's error.
   * Every element is a listed pull request.
   */
  method ConcerningMe(prs: seq<GhPullRequest>, myTeams: seq<Team>, me: User, comments: bool,
                      commentOutcomes: seq<CommentOutcome>)
    returns (r: Result<PrSet, Failure>)
    ensures !comments ==> r.Ok? && r.value.Keys == DirectNumbers(prs, myTeams, me)
    ensures comments ==> (r.Ok? <==> Scan(prs, me.login, commentOutcomes).Ok?)
    ensures comments && r.Err? ==> r == Err(Scan(prs, me.login, commentOutcomes).error)
    ensures comments && r.Ok? ==>
      r.value.Keys == DirectNumbers(prs, myTeams, me) + MentionNumbers(prs, me.login, commentOutcomes)
    ensures r.Ok? ==> ValidSet(r.value) && forall n | n in r.value :: r.value[n] in prs
    ensures r.Ok? ==> forall n | n in r.value && n in DirectNumbers(prs, myTeams, me) :: ProcessPr(r.value[n], myTeams, me)
  {
    var direct := SelectDirect(prs, myTeams, me);
    RelevantNumbers(prs, myTeams, me);
    forall n | n in direct ensures direct[n] in prs && ProcessPr(direct[n], myTeams, me) {
      assert FirstWithNumber(Relevant(prs, myTeams, me), n, direct[n]);
      assert direct[n] in Relevant(prs, myTeams, me);
    }
    if !comments {
      return Ok(direct);
    }
    var mentioning := CommentsMentionMe(prs, me.login, commentOutcomes);
    if mentioning.Err? {
      return Err(mentioning.error);
    }
    ScanElementsListed(prs, me.login, commentOutcomes);
    var merged := InsertAll(direct, mentioning.value);
    forall n | n in merged && n !in direct ensures merged[n] in prs {
      assert FirstWithNumber(mentioning.value, n, merged[n]);
    }
    r := Ok(merged);
  }

  /**
   * From the listing to the rows: a failure of either fan-out stage is the whole run's
   * failure and no row is produced; otherwise every relevant pull request is shown once,
   * most recently updated first, with its diff stat or `(0, 0)`.
   */
  method Report(prs: seq<GhPullRequest>, myTeams: seq<Team>, me: User, comments: bool,
                commentOutcomes: seq<CommentOutcome>, diffOutcomes: seq<DiffOutcome>)
    returns (r: Result<seq<Row>, Failure>)
    ensures comments && Scan(prs, me.login, commentOutcomes).Err? ==>
      r == Err(Scan(prs, me.login, commentOutcomes).error)
    ensures (!comments || Scan(prs, me.login, commentOutcomes).Ok?) ==>
      (r.Ok? <==> Collect(diffOutcomes).Ok?) &&
      (r.Err? ==> r == Err(Collect(diffOutcomes).error))
    ensures r.Ok? ==> NewestFirst(PrsOf(r.value))
    ensures r.Ok? ==> forall row | row in r.value :: row.pr in prs
    ensures r.Ok? ==>
      (set row | row in r.value :: row.pr.number) ==
      DirectNumbers(prs, myTeams, me) + (if comments then MentionNumbers(prs, me.login, commentOutcomes) else {})
    ensures r.Ok? ==> forall i, j | 0 <= i < j < |r.value| :: r.value[i].pr.number != r.value[j].pr.number
    ensures r.Ok? ==> Collect(diffOutcomes).Ok?
    ensures r.Ok? ==> forall row | row in r.value :: row.stat == StatFor(Collect(diffOutcomes).value, row.pr.number)
  {
    var relevant := ConcerningMe(prs, myTeams, me, comments, commentOutcomes);
    if relevant.Err? {
      return Err(relevant.error);
    }
    var stats := AdditionsDeletions(diffOutcomes);
    if stats.Err? {
      return Err(stats.error);
    }
    var rows := Render(relevant.value, stats.value);
    RowNumbers(relevant.value, rows);
    EachPrOnce(relevant.value, PrsOf(rows));
    RowsFromSet(relevant.value, rows);
    forall row | row in rows ensures row.pr in prs {
      var n :| n in relevant.value && relevant.value[n] == row.pr;
    }
    r := Ok(rows);
  }
}
