/**
 * The sequential part of `main`: reading the `--repo` argument, keeping the viewer's teams
 * of the repository's organization, and the relevance predicate `process_pr` applied to every
 * listed pull request.
 */
module Relevance {
  import opened Wrappers
  import opened Strings
  import opened GitHub
  import opened Identity

  // ---------------------------------------------------------------- the repository argument

  /** `main` stops with "Invalid repository name" when neither arm of its match applies. */
  datatype RepoError = RepoApi(error: ApiError) | InvalidRepositoryName

  /** The `k`-th item of the `split` iterator, as `next()` would hand it out. */
  function Nth(parts: seq<string>, k: nat): Option<string>
  {
    if k < |parts| then Some(parts[k]) else None
  }

  /** `owner` and `repo` are the first two `/`-separated fields of `arg`. */
  predicate LeadingFields(arg: string, owner: string, repo: string)
  {
    var n := |owner| + 1 + |repo|;
    '/' !in owner && '/' !in repo &&
    n <= |arg| && arg[..n] == owner + "/" + repo && (n == |arg| || arg[n] == '/')
  }

  /**
   * `--repo` is `owner/repo` or a bare `repo`; a bare name takes the viewer's login as owner,
   * which `main` asks the API for only in that case (`currentUser` is what that call returns).
   * The "Invalid repository name" arm is never taken.
   */
  function RepoArgs(arg: string, currentUser: Result<User, ApiError>): (r: Result<(string, string), RepoError>)
    ensures r != Err(InvalidRepositoryName)
    ensures '/' in arg ==> r.Ok? && LeadingFields(arg, r.value.0, r.value.1)
    ensures '/' !in arg ==> r == match currentUser
                                 case Ok(me) => Ok((me.login, arg))
                                 case Err(e) => Err(RepoApi(e))
  {
    var parts := Split(arg, '/');
    SplitHead(arg, '/');
    var first, second := Nth(parts, 0), Nth(parts, 1);
    if first.Some? && second.Some? then
      RepoFields(arg);
      Ok((first.value, second.value))
    else if first.Some? then
      assert arg[..|arg|] == arg;
      match currentUser
      case Ok(me) => Ok((me.login, first.value))
      case Err(e) => Err(RepoApi(e))
    else
      Err(InvalidRepositoryName)
  }

  lemma RepoFields(arg: string)
    requires '/' in arg
    ensures var parts := Split(arg, '/');
            |parts| >= 2 && LeadingFields(arg, parts[0], parts[1])
  {
    var i := IndexOf(arg, '/');
    SplitHead(arg, '/');
    var rest := arg[i + 1..];
    SplitSecond(arg, '/');
    SplitHead(rest, '/');
    FieldsAroundFirstSlash(arg, i, rest, IndexOf(rest, '/'));
  }

  lemma FieldsAroundFirstSlash(arg: string, i: nat, rest: string, j: nat)
    requires i < |arg| && arg[i] == '/' && forall k :: 0 <= k < i ==> arg[k] != '/'
    requires rest == arg[i + 1..]
    requires j <= |rest| && (j < |rest| ==> rest[j] == '/') && forall k :: 0 <= k < j ==> rest[k] != '/'
    ensures LeadingFields(arg, arg[..i], rest[..j])
  {
    var o, p := arg[..i], rest[..j];
    assert '/' !in o by {
      forall k | 0 <= k < |o| ensures o[k] != '/' { assert o[k] == arg[k]; }
    }
    assert '/' !in p by {
      forall k | 0 <= k < |p| ensures p[k] != '/' { assert p[k] == rest[k]; }
    }
    var n := i + 1 + j;
    assert arg[..n] == o + "/" + p by {
      assert arg[..n] == arg[..i] + [arg[i]] + arg[i + 1..n];
      assert arg[i + 1..n] == rest[..j];
    }
    assert n < |arg| ==> arg[n] == rest[j];
  }

  /** `"a/b"` and `"a/b/c/..."` give owner `a` and repo `b`; later fields are ignored. */
  lemma {:induction false} RepoArgsOwnerSlashRepo(a: string, b: string, tail: string, currentUser: Result<User, ApiError>)
    requires '/' !in a && '/' !in b
    requires tail == [] || tail[0] == '/'
    ensures RepoArgs(a + "/" + b + tail, currentUser) == Ok((a, b))
  {
    var arg := a + "/" + b + tail;
    var rest := b + tail;
    assert arg == a + ("/" + rest);
    IndexOfAfterPrefix(a, "/" + rest, '/');
    IndexOfAfterPrefix(b, tail, '/');
    assert arg[|a|] == '/';
    assert arg[|a| + 1..] == rest;
    SplitHead(arg, '/');
    SplitSecond(arg, '/');
    SplitHead(rest, '/');
    assert Split(arg, '/')[0] == a;
    assert Split(arg, '/')[1] == b;
  }

  /** A bare repository name keeps the whole argument as repo and the viewer as owner. */
  lemma RepoArgsBareName(arg: string, me: User)
    requires '/' !in arg
    ensures RepoArgs(arg, Ok(me)) == Ok((me.login, arg))
  {
  }

  // ---------------------------------------------------------------- the viewer's teams

  /** The team belongs to an organization whose login is `owner`. */
  predicate OwnedBy(t: Team, owner: string)
  {
    t.organization.Some? && t.organization.value.login == owner
  }

  /** `my_teams`: the viewer's teams whose organization is the repository owner, in order. */
  function MyTeams(teams: seq<Team>, owner: string): (r: seq<Team>)
    ensures forall t :: t in r <==> t in teams && OwnedBy(t, owner)
    ensures |r| <= |teams|
  {
    if teams == [] then []
    else (if OwnedBy(teams[0], owner) then [teams[0]] else []) + MyTeams(teams[1..], owner)
  }

  /** The filter keeps the original order: it distributes over concatenation. */
  lemma {:induction false} MyTeamsAppend(a: seq<Team>, b: seq<Team>, owner: string)
    ensures MyTeams(a + b, owner) == MyTeams(a, owner) + MyTeams(b, owner)
  {
    if a != [] {
      assert (a + b)[1..] == a[1..] + b;
      MyTeamsAppend(a[1..], b, owner);
    } else {
      assert a + b == b;
    }
  }

  // ---------------------------------------------------------------- process_pr

  /** `Option<Vec<T>>::iter().flatten()`: the list, or nothing when it is absent. */
  function Flatten<T>(o: Option<seq<T>>): seq<T>
  {
    match o
    case Some(xs) => xs
    case None => []
  }

  /** `users.any(|u| u.login == login)`. */
  function AnyLogin(users: seq<User>, login: string): (r: bool)
    ensures r <==> exists u :: u in users && u.login == login
  {
    if users == [] then false
    else users[0].login == login || AnyLogin(users[1..], login)
  }

  /** `my_teams.iter().any(|m| team.id.map_or(false, |id| id == m.id))`. */
  function TeamIsMine(team: RequestedTeam, myTeams: seq<Team>): (r: bool)
    ensures r <==> team.id.Some? && exists m :: m in myTeams && m.id == team.id.value
  {
    if myTeams == [] then false
    else (team.id.Some? && team.id.value == myTeams[0].id) || TeamIsMine(team, myTeams[1..])
  }

  /** `requested_teams.iter().flatten().any(|team| ...)`. */
  function AnyTeamIsMine(teams: seq<RequestedTeam>, myTeams: seq<Team>): (r: bool)
    ensures r <==> exists t :: t in teams && TeamIsMine(t, myTeams)
  {
    if teams == [] then false
    else
      var rest := AnyTeamIsMine(teams[1..], myTeams);
      assert rest ==> exists t :: t in teams && TeamIsMine(t, myTeams) by {
        if rest {
          var t :| t in teams[1..] && TeamIsMine(t, myTeams);
          assert t in teams;
        }
      }
      assert (exists t :: t in teams && TeamIsMine(t, myTeams)) ==> TeamIsMine(teams[0], myTeams) || rest by {
        forall t | t in teams && TeamIsMine(t, myTeams)
          ensures TeamIsMine(teams[0], myTeams) || rest
        {
          if t != teams[0] {
            assert t in teams[1..];
          }
        }
      }
      TeamIsMine(teams[0], myTeams) || rest
  }

  /** The body (or `""` when there is none) mentions `@login`. */
  function BodyOrEmpty(pr: GhPullRequest): string
  {
    match pr.body
    case Some(b) => b
    case None => ""
  }

  /**
   * `process_pr`: the pull request concerns the viewer iff the viewer is a requested reviewer,
   * or the body contains `@login`, or a requested team's id is one of `myTeams`' ids, or the
   * viewer is an assignee. An absent list, body or team id never matches.
   */
  function ProcessPr(pr: GhPullRequest, myTeams: seq<Team>, me: User): (r: bool)
    ensures r <==>
      (pr.requestedReviewers.Some? && exists u :: u in pr.requestedReviewers.value && u.login == me.login) ||
      (pr.body.Some? && exists i: nat :: OccursAt(pr.body.value, "@" + me.login, i)) ||
      (pr.requestedTeams.Some? &&
        exists t, m :: t in pr.requestedTeams.value && m in myTeams && t.id == Some(m.id)) ||
      (pr.assignees.Some? && exists u :: u in pr.assignees.value && u.login == me.login)
  {
    var requestedReview := AnyLogin(Flatten(pr.requestedReviewers), me.login);
    var mentionsMe := Contains(BodyOrEmpty(pr), "@" + me.login);
    var assignedToMyTeam := AnyTeamIsMine(Flatten(pr.requestedTeams), myTeams);
    var assignedToMe := AnyLogin(Flatten(pr.assignees), me.login);
    assert pr.body.None? ==> !mentionsMe by {
      assert forall i: nat :: !OccursAt("", "@" + me.login, i);
    }
    requestedReview || mentionsMe || assignedToMyTeam || assignedToMe
  }

  /** With every optional field absent and no team lists, nothing matches. */
  lemma ProcessPrAbsentFieldsNeverMatch(pr: GhPullRequest, myTeams: seq<Team>, me: User)
    requires pr.requestedReviewers.None? && pr.body.None? && pr.assignees.None?
    requires pr.requestedTeams.None? || myTeams == []
    ensures !ProcessPr(pr, myTeams, me)
  {
  }

  /** A requested team that is one of the viewer's teams is enough, whatever else holds. */
  lemma ProcessPrByTeam(pr: GhPullRequest, myTeams: seq<Team>, me: User, t: RequestedTeam)
    requires pr.requestedTeams.Some? && t in pr.requestedTeams.value
    requires t.id.Some? && exists m :: m in myTeams && m.id == t.id.value
    ensures ProcessPr(pr, myTeams, me)
  {
    var m :| m in myTeams && m.id == t.id.value;
    assert t.id == Some(m.id);
  }

  /** A body quoting `@login` is enough, wherever the mention stands. */
  lemma {:induction false} ProcessPrByMention(pr: GhPullRequest, myTeams: seq<Team>, me: User, before: string, after: string)
    requires pr.body == Some(before + "@" + me.login + after)
    ensures ProcessPr(pr, myTeams, me)
  {
    var b := pr.body.value;
    var sub := "@" + me.login;
    assert b == before + sub + after;
    assert b[|before|..|before| + |sub|] == sub;
    assert OccursAt(b, sub, |before|);
  }

  // ---------------------------------------------------------------- the relevance loop

  /** The pull requests of `prs` that concern the viewer, in listing order. */
  function Relevant(prs: seq<GhPullRequest>, myTeams: seq<Team>, me: User): (r: seq<GhPullRequest>)
    ensures forall pr :: pr in r <==> pr in prs && ProcessPr(pr, myTeams, me)
  {
    if prs == [] then []
    else
      var last := prs[|prs| - 1];
      Relevant(prs[..|prs| - 1], myTeams, me) + (if ProcessPr(last, myTeams, me) then [last] else [])
  }

  /**
   * The loop of `main` inserting every listed pull request that `process_pr` accepts: the set holds exactly the numbers of the relevant pull requests, each stored as the first
   * relevant pull request that carries it.
   */
  method SelectDirect(prs: seq<GhPullRequest>, myTeams: seq<Team>, me: User) returns (s: PrSet)
    ensures Collects(s, Relevant(prs, myTeams, me))
  {
    s := map[];
    var i := 0;
    while i < |prs|
      invariant 0 <= i <= |prs|
      invariant Collects(s, Relevant(prs[..i], myTeams, me))
    {
      SelectStep(prs, i, myTeams, me, s);
      if ProcessPr(prs[i], myTeams, me) {
        s := Insert(s, PullRequest(prs[i]));
      }
      i := i + 1;
    }
    assert prs[..i] == prs;
  }

  /** One turn of the loop extends what the set collects to one more listed pull request. */
  lemma SelectStep(prs: seq<GhPullRequest>, i: nat, myTeams: seq<Team>, me: User, s: PrSet)
    requires i < |prs| && Collects(s, Relevant(prs[..i], myTeams, me))
    ensures ValidSet(s)
    ensures Collects(if ProcessPr(prs[i], myTeams, me) then Insert(s, PullRequest(prs[i])) else s,
                     Relevant(prs[..i + 1], myTeams, me))
  {
    var rel := Relevant(prs[..i], myTeams, me);
    RelevantStep(prs, i, myTeams, me);
    if ProcessPr(prs[i], myTeams, me) {
      InsertStep(s, rel, prs[i]);
      assert Relevant(prs[..i + 1], myTeams, me) == rel + [prs[i]];
    } else {
      assert Relevant(prs[..i + 1], myTeams, me) == rel;
    }
  }

  /** One more listed pull request extends the relevant list by it, or by nothing. */
  lemma RelevantStep(prs: seq<GhPullRequest>, i: nat, myTeams: seq<Team>, me: User)
    requires i < |prs|
    ensures Relevant(prs[..i + 1], myTeams, me) ==
      Relevant(prs[..i], myTeams, me) + (if ProcessPr(prs[i], myTeams, me) then [prs[i]] else [])
  {
    assert prs[..i + 1][..i] == prs[..i];
  }

  /** The numbers of the relevant list are those of the listed pull requests `process_pr` accepts. */
  lemma RelevantNumbers(prs: seq<GhPullRequest>, myTeams: seq<Team>, me: User)
    ensures Numbers(Relevant(prs, myTeams, me)) == set pr | pr in prs && ProcessPr(pr, myTeams, me) :: pr.number
  {
  }
}
