/**
 * The GitHub side of ghchain (`ghchain/github_utils.py`): the markers that
 * delimit ghchain's regions in a pull-request description, workflow badges,
 * id allocation and lookups over the records `gh pr list` returns.
 *
 * The JSON that `gh` prints is taken already decoded: a list of `PrRecord`s,
 * or a list of numbers for `get_latest_id`.
 */
module GitHub {
  import opened Common
  import opened Seqs
  import opened Text

  /** The markers are HTML comments, `<!-- NAME -->`, invisible in the rendered description. */
  const CommentOpen := "<!-- "
  const CommentClose := " -->"
  const StackListStart := CommentOpen + "STACK_LIST_START" + CommentClose
  const StackListEnd := CommentOpen + "STACK_LIST_END" + CommentClose
  const BadgesStart := CommentOpen + "WORKFLOW_BADGES_START" + CommentClose
  const BadgesEnd := CommentOpen + "WORKFLOW_BADGES_END" + CommentClose

  // ---------------------------------------------------------------------------
  // `get_repo_url`.

  function HasHttps(piece: string): bool {
    Contains(piece, "https")
  }

  /** The first `"`-separated piece of `gh repo view --json url` that mentions `https`. */
  function RepoUrl(stdout: string): (r: Result<string>)
    ensures r.Ok? ==> Contains(r.value, "https") && r.value in Split(Strip(stdout), '"')
    ensures r.Ok? ==> exists i :: 0 <= i < |Split(Strip(stdout), '"')| && Split(Strip(stdout), '"')[i] == r.value
                                 && forall j :: 0 <= j < i ==> !HasHttps(Split(Strip(stdout), '"')[j])
    ensures r.Err? <==> forall p :: p in Split(Strip(stdout), '"') ==> !Contains(p, "https")
  {
    var pieces := Split(Strip(stdout), '"');
    match First(HasHttps, pieces)
    case None => Err("Failed to get the repository url.")
    case Some(i) => Ok(pieces[i])
  }

  /** The JSON object `gh` prints for one `url` field. */
  function UrlJson(url: string): string {
    "{\"url\":\"" + url + "\"}"
  }

  /** The url comes back out of the JSON `gh repo view --json url` prints, followed by a newline. */
  lemma RepoUrlOfJson(url: string)
    requires Contains(url, "https") && '"' !in url
    ensures RepoUrl(UrlJson(url) + "\n") == Ok(url)
  {
    var j := UrlJson(url);
    var pieces := ["{", "url", ":", url, "}"];
    var q := "\"";
    assert Join(pieces[4..], q) == "}";
    assert Join(pieces[3..], q) == url + q + "}";
    assert Join(pieces[2..], q) == ":" + q + (url + q + "}");
    assert Join(pieces[1..], q) == "url" + q + (":" + q + (url + q + "}"));
    assert Join(pieces, q) == "{" + q + ("url" + q + (":" + q + (url + q + "}")));
    assert Join(pieces, q) == j;
    SplitJoin(pieces, '"');
    StripNewline(j);
    forall k | 0 <= k < 3 ensures !HasHttps(pieces[k]) {
      NotContainsShort(pieces[k], "https");
    }
    FirstIs(HasHttps, pieces, 3);
  }

  // ---------------------------------------------------------------------------
  // `run_workflows` and `get_workflow_pr_string`.

  function OverviewUrl(workflowId: string, branch: string, repoUrl: string): string {
    repoUrl + "/actions/workflows/" + workflowId + ".yml?query=branch%3A" + branch
  }

  /** The markdown badge of one workflow run on `branch`, linking to the run overview. */
  function Badge(workflowId: string, branch: string, repoUrl: string): string {
    BadgeImage(workflowId, branch, repoUrl) + ")](" + OverviewUrl(workflowId, branch, repoUrl) + ")"
  }

  /** The badge up to its image url's `branch` query value. */
  function BadgeImage(workflowId: string, branch: string, repoUrl: string): string {
    "[![" + workflowId + "](" + repoUrl + "/actions/workflows/" + workflowId + ".yml/badge.svg?branch=" + branch
  }

  /** A badge starts by naming its workflow, and its image url ends with the branch. */
  lemma BadgeMentions(workflowId: string, branch: string, repoUrl: string)
    ensures "[![" + workflowId + "](" <= Badge(workflowId, branch, repoUrl)
    ensures Contains(Badge(workflowId, branch, repoUrl), "?branch=" + branch + ")")
  {
    var image := BadgeImage(workflowId, branch, repoUrl);
    var x := "[![" + workflowId + "](" + repoUrl + "/actions/workflows/" + workflowId + ".yml/badge.svg";
    var b := Badge(workflowId, branch, repoUrl);
    var pat := "?branch=" + branch + ")";
    var rest := "](" + OverviewUrl(workflowId, branch, repoUrl) + ")";
    assert image == x + "?branch=" + branch by {
      assert ".yml/badge.svg?branch=" == ".yml/badge.svg" + "?branch=";
    }
    assert b == x + pat + rest by {
      assert ")](" == ")" + "](";
    }
    ContainsIn(x, pat, rest);
    var head := "[![" + workflowId + "](";
    assert b[..|head|] == head;
  }

  /**
   * `run_workflows`: starts each workflow on `branch` and collects one badge
   * per workflow, in order. `repoView` is the output of `gh repo view --json url`,
   * read again for each workflow, so an empty list never reads it.
   */
  method RunWorkflows(workflowIds: seq<string>, branch: string, repoView: string) returns (r: Result<seq<string>>)
    ensures workflowIds == [] ==> r == Ok([])
    ensures workflowIds != [] ==> (r.Err? <==> RepoUrl(repoView).Err?)
    ensures r.Ok? ==> |r.value| == |workflowIds|
    ensures r.Ok? ==> forall i :: 0 <= i < |workflowIds| ==> r.value[i] == Badge(workflowIds[i], branch, RepoUrl(repoView).value)
  {
    var badges: seq<string> := [];
    for i := 0 to |workflowIds|
      invariant |badges| == i
      invariant i > 0 ==> RepoUrl(repoView).Ok?
      invariant forall k :: 0 <= k < i ==> badges[k] == Badge(workflowIds[k], branch, RepoUrl(repoView).value)
    {
      var repoUrl := RepoUrl(repoView);
      if repoUrl.Err? {
        return Err(repoUrl.error);
      }
      badges := badges + [Badge(workflowIds[i], branch, repoUrl.value)];
    }
    return Ok(badges);
  }

  const WorkflowHeader := "# Workflow Results"

  /** The badges region: start marker, header, one line per badge, end marker. */
  function WorkflowPrString(badges: seq<string>): string {
    Join([BadgesStart, WorkflowHeader] + badges + [BadgesEnd], "\n")
  }

  /**
   * When no badge holds a line break, the region has `|badges| + 3` lines:
   * the start marker, the header, the badges in order and the end marker.
   */
  lemma WorkflowPrStringLines(badges: seq<string>)
    requires forall i :: 0 <= i < |badges| ==> '\n' !in badges[i]
    ensures var lines := Split(WorkflowPrString(badges), '\n');
            |lines| == |badges| + 3
            && lines[0] == BadgesStart && lines[1] == WorkflowHeader
            && lines[2..|badges| + 2] == badges
            && lines[|badges| + 2] == BadgesEnd
  {
    var xs := [BadgesStart, WorkflowHeader] + badges + [BadgesEnd];
    forall i | 0 <= i < |xs| ensures '\n' !in xs[i] {
      if 2 <= i < |badges| + 2 {
        assert xs[i] == badges[i - 2];
      }
    }
    SplitJoin(xs, '\n');
    assert xs[2..|badges| + 2] == badges;
  }

  // ---------------------------------------------------------------------------
  // Id allocation.

  function Identity(n: int): int {
    n
  }

  /** `get_latest_id`: the first number once sorted in decreasing order, `-1` when there is none. */
  function LatestId(numbers: seq<int>): int {
    if numbers == [] then -1 else SortDesc(numbers, Identity)[0]
  }

  /** The latest id is the largest number, and `-1` only for an empty list. */
  lemma LatestIdIsMax(numbers: seq<int>)
    ensures numbers == [] ==> LatestId(numbers) == -1
    ensures numbers != [] ==> LatestId(numbers) in numbers
    ensures forall n :: n in numbers ==> n <= LatestId(numbers)
  {
    if numbers != [] {
      var sorted := SortDesc(numbers, Identity);
      SortDescMembers(numbers, Identity);
      SortDescSorted(numbers, Identity);
      forall n | n in numbers ensures n <= sorted[0] {
        var k :| 0 <= k < |sorted| && sorted[k] == n;
        if k > 0 {
          assert Identity(sorted[0]) >= Identity(sorted[k]);
        }
      }
    }
  }

  /** `get_next_gh_id`: one past the larger of the latest pull-request and issue numbers. */
  function NextGhId(prNumbers: seq<int>, issueNumbers: seq<int>): int {
    var pr := LatestId(prNumbers);
    var issue := LatestId(issueNumbers);
    (if pr >= issue then pr else issue) + 1
  }

  /** The next id is fresh: above every pull-request and issue number, and never negative for GitHub's numbers. */
  lemma NextGhIdFresh(prNumbers: seq<int>, issueNumbers: seq<int>)
    ensures forall n :: n in prNumbers || n in issueNumbers ==> n < NextGhId(prNumbers, issueNumbers)
    ensures (forall n :: n in prNumbers || n in issueNumbers ==> n >= 0) ==> NextGhId(prNumbers, issueNumbers) >= 0
  {
    LatestIdIsMax(prNumbers);
    LatestIdIsMax(issueNumbers);
  }

  // ---------------------------------------------------------------------------
  // Lookups over the open pull requests.

  /** One record of `gh pr list --json url,number,headRefName`. */
  datatype PrRecord = PrRecord(number: int, url: string, headRefName: string)

  function HasNumber(id: int): PrRecord -> bool {
    (pr: PrRecord) => pr.number == id
  }

  function HasHead(branch: string): PrRecord -> bool {
    (pr: PrRecord) => pr.headRefName == branch
  }

  /** `get_branch_name_for_pr_id`: the head branch of the first pull request numbered `id`. */
  function BranchNameForPrId(prs: seq<PrRecord>, id: int): (r: Option<string>)
    ensures r.None? <==> forall i :: 0 <= i < |prs| ==> prs[i].number != id
    ensures r.Some? ==> exists i :: 0 <= i < |prs| && prs[i].number == id && prs[i].headRefName == r.value
                                  && forall j :: 0 <= j < i ==> prs[j].number != id
  {
    match First(HasNumber(id), prs)
    case None => None
    case Some(i) => Some(prs[i].headRefName)
  }

  /** `get_pr_url_for_branch`: the url of the first pull request whose head is `branch`. */
  function PrUrlForBranch(prs: seq<PrRecord>, branch: string): (r: Option<string>)
    ensures r.None? <==> forall i :: 0 <= i < |prs| ==> prs[i].headRefName != branch
    ensures r.Some? ==> exists i :: 0 <= i < |prs| && prs[i].headRefName == branch && prs[i].url == r.value
                                  && forall j :: 0 <= j < i ==> prs[j].headRefName != branch
  {
    match First(HasHead(branch), prs)
    case None => None
    case Some(i) => Some(prs[i].url)
  }

  /** `get_pr_url_for_id`: the url of the first pull request numbered `id`. */
  function PrUrlForId(prs: seq<PrRecord>, id: int): (r: Option<string>)
    ensures r.None? <==> forall i :: 0 <= i < |prs| ==> prs[i].number != id
    ensures r.Some? ==> exists i :: 0 <= i < |prs| && prs[i].number == id && prs[i].url == r.value
                                  && forall j :: 0 <= j < i ==> prs[j].number != id
  {
    match First(HasNumber(id), prs)
    case None => None
    case Some(i) => Some(prs[i].url)
  }

  /** The url and the head branch found for one number belong to the same record. */
  lemma LookupsAgree(prs: seq<PrRecord>, id: int)
    requires PrUrlForId(prs, id).Some?
    ensures exists i :: 0 <= i < |prs| && prs[i].url == PrUrlForId(prs, id).value
                        && prs[i].headRefName == BranchNameForPrId(prs, id).value
  {
    var i := First(HasNumber(id), prs).value;
    assert prs[i].url == PrUrlForId(prs, id).value;
  }

  /** `get_pr_id_for_branch`: the last `/`-separated segment of the branch's pull-request url. */
  function PrIdForBranch(prs: seq<PrRecord>, branch: string): (r: Option<string>)
    ensures r.None? <==> PrUrlForBranch(prs, branch) == None || PrUrlForBranch(prs, branch) == Some("")
    ensures r.Some? ==> '/' !in r.value
  {
    match PrUrlForBranch(prs, branch)
    case None => None
    case Some(url) => if url == "" then None else Some(Last(Split(url, '/')))
  }

  /** For a url `<anything>/<n>` the id is `n` as text; a trailing `/` would give `""`. */
  lemma PrIdForBranchOfUrl(prs: seq<PrRecord>, branch: string, prefix: string, id: string)
    requires PrUrlForBranch(prs, branch) == Some(prefix + "/" + id)
    requires '/' !in id
    ensures PrIdForBranch(prs, branch) == Some(id)
  {
    assert prefix + "/" + id == prefix + ['/'] + id;
    SplitLastAround(prefix, '/', id);
  }
}
