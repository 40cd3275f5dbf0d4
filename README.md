# gh-pr-cli, modelled in Dafny

`gh-pr-cli` lists the pull requests (open by default, or the state `--state` selects) of a
GitHub repository that concern the viewer: those where the viewer is a requested reviewer or
an assignee, where a requested team is one of the viewer's teams in the repository's
organization, where the body mentions `@login`, and
(with `--comments`) those where the first page of review comments mentions the viewer or
holds a comment written by the viewer. It then fetches the first page of each such pull
request's changed files and shows the rows, most recently updated first, with
`+additions/-deletions`.

This project models the selection and aggregation core of `src/main.rs` and the `--state`
codec of `src/cli.rs`:

- `Identity` — the `PullRequest` wrapper, equal and hashed by number, and the `HashSet` of
  wrappers as a map from number to the element kept under it (insertion keeps an element
  already present).
- `Relevance` — the `--repo` split, the `my_teams` filter, `process_pr` and the loop that
  fills the set with direct matches.
- `CommentScan` — the consumer loop of `comments_mention_me`. The `JoinSet` completion stream
  is an arbitrary sequence of outcomes (join failure, the task's `Err`, or the number and its
  comments); a recursive function `Scan` gives the loop's result, and the method is proved
  equal to it.
- `DiffStats` — the per-pull-request fold of file counts and the consumer loop of
  `get_additions_deletions`, again over an arbitrary completion stream (`Collect`).
- `RenderRows` — the data half of `render`: set iteration, the in-place sort by `updated_at`
  descending (Rust's `Option` order, `None` lowest) and the `(0, 0)` default.
- `Pipeline` — the stages after the listing, chained as `main` chains them.
- `Cli`, `Params` — `ArgState`'s `from_str`, `to_possible_value`, `value_variants` and
  `Into<State>`.
- `Wrappers`, `Strings`, `GitHub` — `Option`/`Result`, `str::contains` and `str::split`, and
  the API records as plain datatypes.

All numbers (pull request numbers, team ids, line counts) are `nat`; timestamps are `int`.
API calls are not modelled: their results are parameters (the listing, the teams, the current
user, each task's outcome).

The sort adds no tie-break key, so equal `updated_at` values keep the set's iteration order.
A join failure in the comment scan is skipped (`if let Ok(r) = res`). A join failure in the
diff stage, and a comment-task number missing from the listing, end the run through an
`unwrap` panic, modelled as `Err(Panic(..))`.

## Model

| member | source | states |
|---|---|---|
| `Identity.Eq` | src/main.rs:32-36 | two wrappers are equal iff they feed the same value to the hasher, i.e. iff their numbers are equal |
| `Identity.EqIsEquivalence` | src/main.rs:32-38 | wrapper equality is reflexive, symmetric and transitive |
| `Identity.EqIgnoresOtherFields` | src/main.rs:32-36 | two wrappers are equal iff their numbers are; changing other fields does not change equality |
| `Identity.HashInput` | src/main.rs:26-30 | the hasher is fed the pull request number and nothing else |
| `Identity.HashAgreesWithEq` | src/main.rs:26-30 | equal wrappers feed the same value (the number) to the hasher |
| `Identity.Insert` | src/main.rs:111 | `HashSet::insert`: the numbers grow by the new number, elements already present are kept, a new number stores the inserted pull request; membership afterwards is old membership or equality with the inserted one |
| `Identity.InsertEqualTwice` | src/main.rs:104-124 | inserting two equal wrappers leaves one element, the first |
| `Identity.InsertCommutesOnKeys` | src/main.rs:104-124 | the numbers held do not depend on insertion order |
| `Identity.InsertIdempotent` | src/main.rs:111 | inserting the same wrapper twice is inserting it once |
| `Identity.InsertAll` | src/main.rs:121-123 | inserting a list adds exactly its numbers, keeps existing elements and stores each new number's first pull request |
| `Identity.InsertStep` | src/main.rs:104-113 | one more insertion extends what the set collects: exactly the numbers inserted so far, each stored as the first pull request inserted with it |
| `Strings.Contains` | src/main.rs:140-144 | `str::contains` is true iff the pattern occurs at some position |
| `Strings.Split` | src/main.rs:62 | `split` always yields at least one segment |
| `Strings.SplitHead` | src/main.rs:62-64 | the first segment ends at the first `/`, and it is the only segment iff there is no `/` |
| `Strings.SplitSecond` | src/main.rs:64-65 | the second segment runs from after the first `/` to the next |
| `Strings.SplitSegmentsFree` | src/main.rs:62 | no segment contains the separator |
| `Strings.JoinSplit` | src/main.rs:62 | joining the segments with the separator gives the input back |
| `Relevance.RepoArgs` | src/main.rs:61-78 | with a `/`, owner and repo are the first two `/`-free fields of the argument; without one, the owner is the current user's login (or that call's error) and the repo the whole argument; "Invalid repository name" is never the result |
| `Relevance.RepoArgsOwnerSlashRepo` | src/main.rs:64-65 | `a/b` and `a/b/...` give `(a, b)`, later fields ignored |
| `Relevance.RepoArgsBareName` | src/main.rs:66-73 | a bare name gives `(viewer login, name)` |
| `Relevance.MyTeams` | src/main.rs:84-91 | a team is kept iff its organization is present and its login is the owner |
| `Relevance.MyTeamsAppend` | src/main.rs:84-91 | the filter distributes over concatenation, so it keeps the original order |
| `Relevance.AnyLogin` | src/main.rs:134-138 | true iff some listed user has the viewer's login |
| `Relevance.TeamIsMine` | src/main.rs:147-150 | true iff the requested team has an id and some team of `my_teams` has that id |
| `Relevance.AnyTeamIsMine` | src/main.rs:146-150 | true iff some requested team is one of the viewer's |
| `Relevance.ProcessPr` | src/main.rs:133-159 | true iff the viewer is a requested reviewer, or the present body contains `@login`, or some requested team id is `Some` of a `my_teams` id, or the viewer is an assignee; absent lists, body and ids never match |
| `Relevance.ProcessPrAbsentFieldsNeverMatch` | src/main.rs:133-159 | with every list and the body absent nothing matches |
| `Relevance.ProcessPrByTeam` | src/main.rs:146-150 | a requested team that is one of the viewer's teams makes the pull request relevant |
| `Relevance.ProcessPrByMention` | src/main.rs:140-144 | a body containing `@login` anywhere makes the pull request relevant |
| `Relevance.Relevant` | src/main.rs:107-113 | the relevant pull requests are exactly the listed ones `process_pr` accepts |
| `Relevance.RelevantNumbers` | src/main.rs:107-113 | the numbers of the relevant list are those of the listed pull requests `process_pr` accepts |
| `Relevance.SelectDirect` | src/main.rs:104-113 | the set is what inserting the relevant pull requests in listing order builds: exactly their numbers, each stored as the first relevant one carrying it |
| `Relevance.SelectStep` | src/main.rs:107-113 | one turn of the loop extends the set to what inserting the relevant pull requests up to and including the current one builds |
| `CommentScan.AnyMention` | src/main.rs:197-204 | true iff some comment's body contains `@login` or its author is the viewer |
| `CommentScan.Find` | src/main.rs:205 | `find` gives the first listed pull request with the number, and `None` iff there is none |
| `CommentScan.Step` | src/main.rs:195-207 | one turn fails iff the outcome is the task's `Err` (that error) or a match whose number is not listed; a join failure or a non-matching outcome leaves the list as it is, and a match appends the first listed pull request with its number |
| `CommentScan.CommentsMentionMe` | src/main.rs:194-211 | the loop returns the scan of the completion stream, `Scan` |
| `CommentScan.ScanStaysFailed` | src/main.rs:196 | after the first failure later outcomes are never examined |
| `CommentScan.ScanOkIff` | src/main.rs:194-211 | the call succeeds iff no outcome is a task `Err` or an unlisted match; join failures do not fail it |
| `CommentScan.ScanContents` | src/main.rs:194-209 | on success a pull request is collected iff some joined, successful outcome whose comments mention the viewer names its number |
| `CommentScan.ScanNumbers` | src/main.rs:194-209 | the collected numbers are exactly the numbers of the matching outcomes |
| `CommentScan.ScanFailsFast` | src/main.rs:196 | the first task `Err` reached is the error of the whole call |
| `CommentScan.ScanOrderIndependent` | src/main.rs:193-209 | any reordering of the outcomes succeeds or fails alike and collects the same pull requests |
| `CommentScan.ScanCollectsAuthoredThread` | src/main.rs:199-200 | a thread with a comment by the viewer has its pull request collected |
| `CommentScan.ScanElementsListed` | src/main.rs:205-206 | everything collected is a listed pull request |
| `CommentScan.ScanOfListingNeverPanics` | src/main.rs:173-209 | when every task reports a listed number, as when one task is spawned per listed pull request, the `find(..).unwrap()` never panics: the only possible error is a task's own `Err` |
| `DiffStats.FoldFrom` | src/main.rs:234-236 | the fold adds the total additions and total deletions of the files to the accumulator |
| `DiffStats.SumFiles` | src/main.rs:234-236 | from `(0, 0)` the fold gives the total additions and total deletions |
| `DiffStats.SumFilesExample` | src/main.rs:234-236 | files `(10, 2)` and `(3, 0)` give `(13, 2)` |
| `DiffStats.TotalsPermutation` | src/main.rs:234-236 | the total additions and total deletions do not depend on the order of the files |
| `DiffStats.SumFilesPermutation` | src/main.rs:234-236 | the order of the files does not change the pair |
| `DiffStats.DiffTask` | src/main.rs:231-239 | a file-listing error is the task's `Err`; otherwise the task returns its number with the total additions and total deletions of its files |
| `DiffStats.Step` | src/main.rs:245-247 | one turn succeeds iff the outcome was joined and is `Ok`; a join failure is the `unwrap` panic and a task `Err` is returned; on success the map gains the reported number with its pair and keeps every other entry |
| `DiffStats.AdditionsDeletions` | src/main.rs:244-250 | the loop returns `Collect` of the completion stream |
| `DiffStats.CollectStaysFailed` | src/main.rs:245 | after the first failure later outcomes are never examined |
| `DiffStats.CollectOkIff` | src/main.rs:244-248 | the call succeeds iff every task was joined and returned `Ok` |
| `DiffStats.CollectFailsFast` | src/main.rs:245 | the first failing outcome decides the error: a join failure panics, a task `Err` is returned |
| `DiffStats.CollectContents` | src/main.rs:244-248 | on success the keys are the reported numbers and each maps to the pair of the last outcome reporting it |
| `DiffStats.CollectValueOf` | src/main.rs:247 | with distinct numbers each number maps to the pair its one outcome reported |
| `DiffStats.CollectOrderIndependent` | src/main.rs:244-248 | reordering outcomes whose successful tasks report distinct numbers succeeds or fails alike, and gives the same map on success |
| `DiffStats.DiffOfRelevantSet` | src/main.rs:225-248 | with one task per number of the set and every listing succeeding, the map is exactly the set's numbers, each with its files' totals, in any completion order |
| `RenderRows.OptionLe` | src/main.rs:290 | Rust's order on optional timestamps: `None` is below everything, `Some` is above `None`, and two `Some`s compare by value |
| `RenderRows.OptionLeTotalOrder` | src/main.rs:290 | that order is reflexive, total, antisymmetric and transitive, as `Ord` requires of the comparator `sort_by` uses |
| `RenderRows.NewestFirstPutsUnknownLast` | src/main.rs:290 | in the sorted order a pull request without `updated_at` follows every one that has it |
| `RenderRows.Iterate` | src/main.rs:289 | collecting the set yields each element exactly once |
| `RenderRows.SortNewestFirst` | src/main.rs:290 | the sort leaves a permutation of its input, non-increasing in `updated_at` |
| `RenderRows.StatFor` | src/main.rs:304-306 | the map's pair for the number, or `(0, 0)` when it has none |
| `RenderRows.Render` | src/main.rs:289-309 | the rows are a permutation of the set's elements, most recently updated first, each with its map entry or `(0, 0)` when it has none |
| `RenderRows.EachPrOnce` | src/main.rs:289 | such a permutation shows each number at most once and misses no element |
| `RenderRows.RowsFromSet` | src/main.rs:289-309 | every row shows an element of the set |
| `RenderRows.RowNumbers` | src/main.rs:289-309 | the rows show exactly the set's numbers |
| `Pipeline.ConcerningMe` | src/main.rs:104-124 | without `--comments` the set is the direct matches; with it, the scan's error or the union by number of direct and comment matches; every element is a listed pull request, and under a number found directly the element kept is a direct match (insertion does not replace it) |
| `Pipeline.Report` | src/main.rs:104-130 | a failing stage is the run's failure; otherwise the rows show exactly the relevant numbers, each once, newest first, all listed pull requests, each with its diff-stage pair or `(0, 0)` |
| `Cli.FromStr` | src/cli.rs:12-19 | accepts exactly `"open"`, `"closed"`, `"all"`, case-sensitively, as the variant whose name it is; every other string is the validation error |
| `Cli.ToPossibleValue` | src/cli.rs:21-27 | every variant has a possible value |
| `Cli.ValueVariants` | src/cli.rs:29-31 | three variants, pairwise distinct |
| `Cli.ValueVariantsEachOnce` | src/cli.rs:29-31 | every variant is listed exactly once |
| `Cli.IntoState` | src/cli.rs:34-41 | each variant maps to the state of the same name, and only it does |
| `Cli.RoundTrip` | src/cli.rs:12-27 | parsing a variant's possible value gives the variant back |
| `Cli.PossibleValuesDistinct` | src/cli.rs:21-27 | distinct variants have distinct names |
| `Cli.FromStrIgnoresFlag` | src/cli.rs:12-18 | the ignore-case flag changes nothing; `"Open"` is refused |
| `Cli.IntoStateInjective` | src/cli.rs:34-41 | the conversion to `State` is injective |

## Left out

- The octocrab calls (current user, `/user/teams`, `list`, `list_comments`, `list_files`): their results are parameters of the model.
- Paging: `list`, `list_comments` and `list_files` each return one page, and later pages are never fetched. The listing is that page of at most `--last` pull requests, a comment outcome's comments are that page's items, and a diff task's files are that page's items.
- Task spawning and scheduling in `JoinSet` and `FuturesUnordered`: a completion stream is an arbitrary sequence of outcomes.
- `serde_json` decoding of the teams, `dotenv`, `tracing`, the `GH_TOKEN` lookup and `process::exit`: input and output plumbing.
- `make_table_row`, prettytable, `colored` and chrono's local formatting: presentation through foreign libraries; `Render` returns the rows instead of printing them.
- clap's derived `Cli::parse`, its flag defaults and the text of the validation error: a library wrapper; the error is the constant `ValueValidation`.
- The `per_page(args.last)` and `state` arguments of the listing: they only shape the external call.
- `DiffStats.FoldFrom`: does not model u64 overflow of the sums, because counts are unbounded naturals.
- `RenderRows.Render`: does not promise an order among equal `updated_at` values, because the source's order there is the set's iteration order.
- `RenderRows.SortNewestFirst`: an insertion sort stands for Rust's stable merge sort; only the sorted-permutation result is modelled.
- `DiffStats.CollectOrderIndependent`: requires the successful outcomes to report distinct numbers, which spawning one task per number of the set ensures; with repeated numbers the last insertion wins. On failure it promises only that both orders fail, since the first failure reached decides the error and that depends on the order.
- `Pipeline.Report`: does not tie the diff-stage stream to the relevant set; `DiffStats.DiffOfRelevantSet` states what a stream spawned from the set gives.
- The `unwrap` panics (a join failure in the diff stage, a comment-task number that is not listed) are modelled as an `Err(Panic(..))` result, not as a crash.
