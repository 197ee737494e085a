# ghchain: a verified model of its stack and pull-request logic

ghchain manages a *stack* of commits that sit on a development branch
above a base branch. Each commit gets its own branch and GitHub pull request.
The program drives `git` and the GitHub CLI `gh`, and most of what it does is
running those commands. Between the commands sits a layer of deterministic
text and sequence logic, and this project models that layer in Dafny and
proves what it promises:

- **Pull-request descriptions.** The stack list and the workflow-badge
  section are regions of a description framed by HTML-comment markers. An
  update replaces every `start … end` span in the description, or appends
  the region when a marker is missing. `update_pr_descriptions` rewrites the
  description of every PR object in a list in place. `run_tests_on_branch`
  rewrites one PR's badges.
- **Stack bookkeeping over git output.** This covers:
  - parsing `git log --format='%H %s'` lines and dropping `fixup!` commits;
  - cleaning `git branch` listings;
  - counting how many stack commits each branch holds, and ordering the
    branches by that count (`get_stack`, `Stack.branches`);
  - the commits with no branch besides the development branch;
  - the branch whose newest commit is a given commit;
  - branch names from a `git rebase --update-refs` report;
  - branch names from a template.
- **Ids and lookups over gh output.** The next id is one more than the
  largest pull-request or issue number. There are first-match lookups over
  pull-request records, the repository URL, and the badge strings.
- **Status display.** This covers:
  - parsing a tab-separated workflow-run line;
  - the ANSI colouring of review decisions and mergeable states;
  - the colour of a (status, conclusion) pair;
  - a status-table row and a status dictionary.

Every command's output is a parameter. Examples are the stdout of `git log`,
`git branch --contains c`, `gh repo view` and `gh pr create`, and the
records `gh pr list` decodes to. The per-commit and per-branch queries are
functions from a commit or branch to that text (`Stacks.Git`). A Python
`set`'s iteration order is not fixed, so where the source iterates a set the
model takes an `order` parameter that lists the set's elements once.

Files:
- `common.dfy`: `Option` and `Result`.
- `text.dfy`: Python's string operations as used here. These are `in`,
  `split`, `"\n".join`, `splitlines`, `strip`, `rstrip`, `replace`,
  `lower`, `int()`, `str()`, and `re.sub` of a literal `start.*?end`
  pattern.
- `seqs.dfy`: filtering, first match, and a stable descending sort.
- `dicts.dfy`: insertion-ordered dictionaries.
- `commit.dfy`, `git_utils.dfy`, `stack.dfy`, `github_utils.dfy`,
  `pull_request.dfy` and `status.dfy`: one module per source file.

`PR` is a class whose `body` field the methods update in place.
The operations that create or update `PR` objects are methods:
`create_pull_request`, `update_pr_descriptions` and its loop step, and
`run_tests_on_branch`. So are the loops `update_pr_stacklist_description`
(its line-building loop as well), `run_workflows` and `get_stack`. Each
method is proved against the functions that specify it. Everything else is
functions and lemmas.

## Model

| member | source | states |
|---|---|---|
| Commits.PrId | ghchain/commit.py:59-63 | there is no id (`Ok(None)`) exactly when the URL is missing or empty |
| Commits.PrIdOfUrl | ghchain/commit.py:59-63 | a URL `<prefix>/<n>` followed by any number of `/` gives the id `n` |
| GitUtils.DroppedIsFixup | ghchain/commit.py:65-67 | every log line that `ignore_fixup` drops is a commit `is_fixup` holds for |
| GitUtils.SquashIsKept | ghchain/commit.py:65-67 | the converse fails: a `squash!` commit is a fixup but its log line is kept |
| GitUtils.CleanBranchLine | ghchain/git_utils.py:17 | a cleaned branch line has no `*` and no surrounding whitespace |
| GitUtils.GetAllBranches | ghchain/git_utils.py:13-18 | one cleaned name per line of the listing, each without `*` and stripped |
| GitUtils.GetAllBranchesOfListing | ghchain/git_utils.py:13-18 | reading back a `git branch` listing, with the current branch starred, gives exactly its branch names in order |
| GitUtils.CleanListingLine | ghchain/git_utils.py:17 | cleaning a listed line `  name` or `* name` gives back `name` |
| GitUtils.FindBranchesWithCommit | ghchain/git_utils.py:121-128 | one cleaned name per non-empty line of the output |
| GitUtils.FindBranchesOfListing | ghchain/git_utils.py:121-128 | `git branch --contains` output read back gives exactly the listed branch names in order |
| GitUtils.SplitOnce | ghchain/git_utils.py:240 | `split(" ", 1)` gives one piece exactly when there is no space; two pieces rejoin with one space to the line, and the first has no space |
| GitUtils.SplitOnceOfLine | ghchain/git_utils.py:240 | a `sha subject` line splits into `[sha, subject]` |
| GitUtils.ParseLines | ghchain/git_utils.py:238-245 | every entry has one or two fields, and exactly two when fixups are filtered |
| GitUtils.ParseLinesErr | ghchain/git_utils.py:238-243 | parsing fails (the `IndexError` of `[1]`) exactly when fixups are filtered and some line has no space |
| GitUtils.ParseLogOfLog | ghchain/git_utils.py:232-250 | the log of commits `(sha, subject)` parses back to exactly those pairs in order, with the `fixup!` subjects removed when `ignore_fixup` is set |
| GitUtils.ParseOneLine | ghchain/git_utils.py:238-245 | a single line is dropped exactly when fixups are filtered and its subject starts with `fixup!`; otherwise it becomes `[sha, subject]` |
| GitUtils.OnlySha | ghchain/git_utils.py:247-248 | `only_sha` keeps the first field of every entry, in order |
| GitUtils.RebaseBranches | ghchain/git_utils.py:70-74 | one branch per stderr line that is kept |
| GitUtils.RebaseBranchesOfReport | ghchain/git_utils.py:70-74 | a rebase report made of header lines and one `refs/heads/<b>` line per updated branch gives back exactly those branches in order |
| GitUtils.KeptRefLines | ghchain/git_utils.py:70-74 | of such a report, exactly the `refs/heads/` lines are kept, in order |
| GitUtils.RefLineKept | ghchain/git_utils.py:71-73 | a `refs/heads/<b>` line is kept and yields `b` |
| GitUtils.SuccessLineDropped | ghchain/git_utils.py:73 | the `Successfully rebased and updated refs/heads/<dev>.` line is not taken for a branch |
| GitUtils.Author | ghchain/git_utils.py:223 | each character of the user name is kept in place, a space becoming `_` and every other character lower-cased; so no space and no upper-case letter remain |
| GitUtils.FormatLiteral | ghchain/git_utils.py:225-227 | `str.format` copies text without braces unchanged |
| GitUtils.FormatField | ghchain/git_utils.py:225-227 | `{git_config_author}` is replaced by the author and `{pr_id}` by the id |
| GitUtils.FormatBothFields | ghchain/git_utils.py:221-229 | a template with both fields and brace-free text around them is filled in place |
| GitUtils.DefaultBranchName | ghchain/git_utils.py:221-229 | the default template `{git_config_author}-{pr_id}` gives `<author>-<id>` |
| GitUtils.GetStack | ghchain/git_utils.py:194-213 | the counting loop returns the branches of the specification order |
| GitUtils.CountAllKeys | ghchain/git_utils.py:208-209 | counting adds each branch as a key on first sight, keeping insertion order |
| GitUtils.CountAllCounts | ghchain/git_utils.py:208-209 | after counting a list, a branch's count went up by its number of occurrences in the list |
| GitUtils.TallyKeys | ghchain/git_utils.py:200-209 | the counter's keys are the distinct branches across all commits, first-seen order |
| GitUtils.TallyCounts | ghchain/git_utils.py:200-209 | each branch's count is its number of occurrences across all commits |
| GitUtils.StackOrderMembers | ghchain/git_utils.py:194-213 | the stack lists each branch once, and a branch is in it exactly when it is not the dev branch and contains one of the commits |
| GitUtils.StackOrderSorted | ghchain/git_utils.py:211-213 | the stack is in non-increasing order of the number of commits each branch contains |
| GitUtils.StackOrderStable | ghchain/git_utils.py:211 | the sort is stable: branches with equal counts stay in first-seen order |
| Stacks.StackOn | ghchain/stack.py:19-39 | a stack records the base branch it was built from and the current branch as dev branch |
| Stacks.Create | ghchain/stack.py:20-22 | a missing or empty `base_branch` is replaced by the configured one |
| Stacks.CreateKeepsBase | ghchain/stack.py:19-39 | a given non-empty base branch is the stack's base branch |
| Stacks.LegacyCreate | ghchain/git_utils.py:139-150 | the earlier `create` always yields base branch `main` |
| Stacks.LegacyCreateDropsBase | ghchain/git_utils.py:139-150 | the earlier `create` asked for base `develop` builds a stack whose base is not `develop` |
| Stacks.StackOnCommits | ghchain/stack.py:24-30 | `commits` are the log's shas with duplicates collapsed, first-seen order; they are the keys of both dictionaries, and each commit maps to the set of branches that contain it |
| Stacks.StackOnMessage | ghchain/stack.py:24-26 | each commit maps to the subject of its last log entry |
| Stacks.BranchSets | ghchain/stack.py:28-30 | `commit2branches` has the commits as keys, in order, with the set of their containing branches |
| Stacks.CommitsWithoutBranch | ghchain/stack.py:74-80 | a commit is listed exactly when it has no branch besides the dev branch |
| Stacks.CommitsWithoutBranchInOrder | ghchain/stack.py:74-80 | the listed commits keep the stack's order |
| Stacks.CommitsWithoutBranchIgnoresDev | ghchain/stack.py:74-80 | adding or removing the dev branch in any commit's branch set does not change the result |
| Stacks.BranchCommits | ghchain/stack.py:55-57 | a branch's commits are the shas of `base..branch` without fixups, and fail exactly when the log cannot be parsed |
| Stacks.Branch2Commits | ghchain/stack.py:52-61 | one entry per branch of the stack, in iteration order, holding that branch's commits; it fails exactly when one branch's log fails |
| Stacks.BranchesSorted | ghchain/stack.py:63-72 | `branches` is a permutation of the iteration order, lists every branch of the stack once, and is in non-increasing order of commit count |
| Stacks.BranchesStable | ghchain/stack.py:68-70 | branches of equal commit count keep their iteration order |
| Stacks.TipFrom | ghchain/stack.py:43-50 | the search returns a branch whose list ends with the commit, and `None` exactly when every list ends elsewhere |
| Stacks.Commit2BranchTip | ghchain/stack.py:41-50 | a returned branch belongs to the stack and its newest commit is the given one |
| Stacks.Commit2BranchNone | ghchain/stack.py:41-50 | `None` comes back exactly when every branch's newest commit is another one |
| Stacks.Commit2BranchListed | ghchain/stack.py:56-60 | a returned branch occurs in some commit's branch set |
| GitHub.RepoUrl | ghchain/github_utils.py:48-60 | the URL is the first `"`-separated piece containing `https`, and it fails exactly when no piece does |
| GitHub.RepoUrlOfJson | ghchain/github_utils.py:52-60 | the JSON `{"url":"<u>"}` printed by `gh repo view` gives back `u` |
| GitHub.BadgeMentions | ghchain/github_utils.py:39-43 | a badge starts with the image link for the workflow and names the branch |
| GitHub.RunWorkflows | ghchain/github_utils.py:23-45 | one badge per workflow id, in order; with no workflows nothing fails, otherwise it fails exactly when the repository URL cannot be found |
| GitHub.WorkflowPrStringLines | ghchain/github_utils.py:70-79 | the section has `len(badges) + 3` lines: start marker, header, the badges in order, end marker |
| GitHub.LatestIdIsMax | ghchain/github_utils.py:106-117 | `-1` for no numbers, otherwise the largest number |
| GitHub.NextGhIdFresh | ghchain/github_utils.py:120-121 | the next id exceeds every pull-request and issue number, and is non-negative when they are |
| GitHub.BranchNameForPrId | ghchain/github_utils.py:82-87 | the head branch of the first record with that number, `None` exactly when none has it |
| GitHub.PrUrlForBranch | ghchain/github_utils.py:90-95 | the URL of the first record with that head branch, `None` exactly when none has it |
| GitHub.PrUrlForId | ghchain/github_utils.py:98-103 | the URL of the first record with that number, `None` exactly when none has it |
| GitHub.LookupsAgree | ghchain/github_utils.py:82-103 | the URL and head branch found for one number come from the same record |
| GitHub.PrIdForBranch | ghchain/github_utils.py:124-128 | `None` exactly when the URL is missing or empty, otherwise a segment without `/` |
| GitHub.PrIdForBranchOfUrl | ghchain/github_utils.py:124-128 | a URL `<prefix>/<id>` gives `id` |
| Status.FromLine | ghchain/status.py:24-40 | it succeeds exactly when the line has nine tab-separated fields, and assigns them in order |
| Status.FromLineTabs | ghchain/status.py:26-28 | it succeeds exactly when the line has eight tabs |
| Status.FromLineJoin | ghchain/status.py:24-40 | the fields joined with tabs give the line back |
| Status.FromLineOfFields | ghchain/status.py:24-40 | a workflow status written as a tab-separated line is read back unchanged |
| Status.StringToAnsiColor | ghchain/status.py:106-120 | an unknown colour is an error (`KeyError`) |
| Status.AnsiUnwrap | ghchain/status.py:106-120 | the colouring is the colour's escape code, then the text, then the reset code |
| Status.ParseReviewDecision | ghchain/status.py:123-127 | a parsed decision has the parsed text as its value |
| Status.ReviewDecisionRoundTrip | ghchain/status.py:123-127 | each decision is parsed back from its value |
| Status.ReviewDecisionToAnsi | ghchain/status.py:138-148 | `NONE` is returned as its raw value, every other decision is coloured by its table entry |
| Status.ReviewDecisionColors | ghchain/status.py:130-148 | APPROVED is green, CHANGES_REQUESTED yellow, REVIEW_REQUIRED red |
| Status.MergeableStatusToAnsi | ghchain/status.py:157-165 | MERGEABLE is green, CONFLICTING red, UNKNOWN returned unchanged |
| Status.MergeableStatusColored | ghchain/status.py:157-165 | the text is left uncoloured exactly for UNKNOWN |
| Status.Status2Color | ghchain/status.py:247-257 | one of three colours: `bright_green` exactly for a `success` conclusion, `yellow` exactly for a queued or in-progress status or a neutral conclusion otherwise |
| Status.Status2ColorIgnoresCase | ghchain/status.py:249-250 | the colour does not depend on letter case |
| Status.Status2ColorOfCheck | ghchain/status.py:247-257 | GitHub's upper-case conclusions are recognised: `SUCCESS` is green for every status, `FAILURE` is red unless the run is queued or in progress, then yellow |
| Status.ToRowCells | ghchain/status.py:291-302 | the first cell is the bold gray branch, then a new line, a tab and the title; the id cell parses back to the id; the review cell is the decision (`None` when there is none) coloured bright green exactly when it is `APPROVED`, `default` otherwise; the draft cell is `True` exactly for drafts; the last two cells are the workflow and check texts |
| Status.ToDictEntries | ghchain/status.py:223-234 | exactly six keys in order, no `status_checks`; the branch name, id, draft flag and title stored as they are, the review decision and mergeable state by their values |
| PullRequests.UpsertAppends | ghchain/pull_request.py:124-135 | with a marker missing, the old description plus the separator is a prefix and the region follows |
| PullRequests.UpsertReplaces | ghchain/pull_request.py:124-133 | the leftmost start to the next end is replaced by the region, and the text before it is untouched |
| PullRequests.UpsertReplacesOnce | ghchain/pull_request.py:124-133 | with one marked span, only that span changes |
| PullRequests.UpsertNoSpan | ghchain/pull_request.py:124-133 | when no start marker is followed by an end marker, the description comes back unchanged |
| PullRequests.UpsertIdempotentSpan | ghchain/pull_request.py:124-133 | replacing a marked span twice is replacing it once |
| PullRequests.UpsertIdempotentAppend | ghchain/pull_request.py:124-135 | appending a region and then updating it again changes nothing |
| PullRequests.StackListLines | ghchain/pull_request.py:106-113 | one line per pull request, in reverse stack order |
| PullRequests.StackListLineArrow | ghchain/pull_request.py:110-113 | a line is `- -> <url>` exactly for the current pull request and `- <url>` otherwise |
| PullRequests.StackListArrows | ghchain/pull_request.py:106-113 | over the whole list, the arrow marks exactly the lines of the current pull request, and it appears when that pull request is in the stack |
| PullRequests.StackListMarkdownLines | ghchain/pull_request.py:115-122 | the region's lines are the start marker, the header, the stack lines, and the end marker |
| PullRequests.StackListIdempotent | ghchain/pull_request.py:104-136 | updating a description twice is updating it once |
| PullRequests.StackListReplaced | ghchain/pull_request.py:124-133 | an existing stack list is replaced by the new one, the rest of the description is kept, and a second update changes nothing |
| PullRequests.DescriptionAfterOnce | ghchain/pull_request.py:148-151 | for a description without a stack list, any positive number of updates leaves it as one update does |
| PullRequests.DescriptionAfterOnceReplaced | ghchain/pull_request.py:148-151 | for a description holding one stack list, any positive number of updates leaves it as one update does: the old list replaced by the new one, the text around it kept |
| PullRequests.BadgesIdempotent | ghchain/pull_request.py:184-199 | updating the badge section twice is updating it once |
| PullRequests.BadgesReplaced | ghchain/pull_request.py:188-197 | an existing badge section is replaced by the new one, and the rest of the description is kept |
| PullRequests.LineEnd | ghchain/pull_request.py:57 | `.+` stops at the next newline or the end of the output |
| PullRequests.DigitsEnd | ghchain/pull_request.py:57 | `\d+` takes the longest run of ASCII digits |
| PullRequests.MatchAtSound | ghchain/pull_request.py:57 | a match found at a position is a match of the pattern there |
| PullRequests.MatchAtGreedy | ghchain/pull_request.py:57 | the match is greedy: the last `/pull/` on the line is taken, then all its digits |
| PullRequests.MatchAtComplete | ghchain/pull_request.py:57 | wherever the pattern matches, the search at that position finds a match |
| PullRequests.SearchLeftmost | ghchain/pull_request.py:57 | `re.search` finds a match exactly when the pattern matches somewhere, and returns the leftmost one |
| PullRequests.UrlPrIdOfMatch | ghchain/pull_request.py:62-63 | the id parsed from a matched URL is the value of its trailing digits |
| PullRequests.SearchOfPrUrl | ghchain/pull_request.py:57-63 | the output `https://github.com/<repo>/pull/<n>` yields that URL and the id `n` |
| PullRequests.PR.constructor | ghchain/pull_request.py:21-33 | the record holds the given fields |
| PullRequests.Urls | ghchain/pull_request.py:108-110 | the URLs of the stack, in order |
| PullRequests.CreatePullRequest | ghchain/pull_request.py:35-75 | `None` exactly when the output holds no PR URL; otherwise a new record with the leftmost URL, its id, no status, the given branch, title and body, and `[commit_sha]` |
| PullRequests.BuildStackListLines | ghchain/pull_request.py:106-113 | the `insert(0, …)` loop builds the stack lines |
| PullRequests.UpdatePrStacklistDescription | ghchain/pull_request.py:104-136 | the result is the stack-list update of the description |
| PullRequests.UpdatePrDescriptions | ghchain/pull_request.py:139-158 | each PR's description becomes the stack-list update of its old description, applied once per occurrence of the object in the stack, using the stack's original URLs; no other field changes |
| PullRequests.UpdateOne | ghchain/pull_request.py:148-151 | one loop step writes the update into the object at position `i`, and every occurrence of that object sees it |
| PullRequests.RunTestsOnBranch | ghchain/pull_request.py:161-214 | no workflows: nothing changes; it fails exactly when the repository URL cannot be found; without a PR nothing changes; otherwise only the body changes, to the badge update of the old body |

## Left out

- Running `git` and `gh` is I/O. Their outputs are parameters, including
  the stdout of `git log`, `git branch`, `git branch --contains`,
  `git config user.name`, `gh repo view`, `gh pr create`, the stderr of
  `git rebase`, and the records of `gh pr list`. The `gh pr edit` call that
  publishes a description, the logging and the `click.echo` messages are
  not modelled.
- JSON decoding is not modelled. Pull-request lookups take the decoded
  records, and `get_latest_id` takes the decoded numbers.
- `get_repo_url` is called once per workflow in `run_workflows`.
  `GitHub.RunWorkflows` reads one `gh repo view` output for all of them,
  because the repository does not change between the calls.
- A failing `gh workflow run` (`check=True`) is not modelled.
- The order in which Python iterates a `set` is an `order` parameter that
  lists the set once. `Stacks.Commit2BranchTip` and
  `Stacks.Commit2BranchNone` hold for every such order.
- `config.base_branch`, the configured workflows and the branch-name
  template are parameters. TOML loading is not modelled.
- `int()` is modelled for an optional sign and ASCII digits after
  stripping whitespace. Underscores between digits and non-ASCII digits
  are not accepted. Likewise `\d` is ASCII only and `lower()` is ASCII
  only.
- In `create_branch_name`, `str.format` is modelled for literal text, `{{`,
  `}}`, `{git_config_author}` and `{pr_id}`. Every other replacement field,
  including format specs and conversions, is an error. The model does not
  distinguish `KeyError` from `ValueError`.
- `re.sub` with a `start.*?end` pattern is modelled as a literal search for
  the markers, which contain no regular-expression metacharacters. Escapes
  in the replacement are not processed, so badges and URLs are taken to
  contain no backslash.
- PullRequests.DescriptionAfterOnce, PullRequests.DescriptionAfterOnceReplaced:
  stated for a description without a stack-list start marker, or with one
  complete stack list and no later start marker, and for URLs without `<`.
  A description holding a start marker with no end marker after it, or
  several stack lists, is not covered.
- PullRequests.StackListIdempotent, PullRequests.BadgesIdempotent: stated
  for descriptions without a start marker, and URLs and badges without `<`.
  That way the new region itself holds no end marker.
- PullRequests.RunTestsOnBranch: returns `Ok(true)` when it updated a
  description, where the source returns `None`. The `draft` flag of
  `create_pull_request` only changes the `gh` command and a message.
- `get_open_prs` is not modelled. It calls `PrStatus.from_gh_cli_dict`,
  which does not exist, and stores the literal `"headRefName"` as the head
  branch.
- `StatusRow.from_pr_status` is not modelled. It reads
  `workflow_statuses`, which `PrStatus` lacks.
- `PrStatus.from_branchname`, `WorkflowStatus.create` and
  `WorkflowStatus.from_commit_id` only query `gh` and then call
  `from_line`, which is modelled.
- `update_stack`, `update_base_branch` and the conflict loop of
  `rebase_onto_branch` wait for user input. Only the branch list parsed
  from the rebase report is modelled.
- `Commit`'s constructor, its notes and its status queries read git notes
  and GitHub. Only `is_fixup` and `pr_id` are modelled.
- Stacks.CommitCount: a branch whose log cannot be read counts as 0. In
  that case `branches` itself fails, so the count is never used.

## Findings

| source | as written | input that shows it | evidently intended | confidence | as-written member | corrected member |
|---|---|---|---|---|---|---|
| ghchain/git_utils.py:139-150 | `Stack.create(base_branch)` uses `base_branch` for the log but does not pass it to the constructor, so the stack keeps the dataclass default `"main"`, and `branch2commits` then reads `main..branch` | `Stack.create("develop")` gives a stack whose `base_branch` is `"main"` | the stack keeps the base branch it was created from, as `ghchain/stack.py:33-39` does | not executed | Stacks.LegacyCreateDropsBase | Stacks.CreateKeepsBase |
