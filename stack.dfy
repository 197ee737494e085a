/**
 * The stack of commits between the base branch and the development branch,
 * and the branches that hold them (`ghchain/stack.py`, and its earlier copy in
 * `ghchain/git_utils.py`).
 *
 * The repository is seen only through the text git prints: `Git.log(base, target)`
 * is the output of `git log base..target --reverse --format='%H %s'` and
 * `Git.contains(c)` that of `git branch --contains c`.
 */
module Stacks {
  import opened Common
  import opened Seqs
  import opened Text
  import opened Dicts
  import opened GitUtils

  datatype Git = Git(current: string, log: (string, string) -> string, contains: string -> string)

  datatype Stack = Stack(
    commits: seq<string>,
    commit2message: Dict<string>,
    commit2branches: Dict<set<string>>,
    devBranch: string,
    baseBranch: string)

  function Elements(s: seq<string>): (r: set<string>)
    ensures forall x :: x in r <==> x in s
  {
    set x | x in s
  }

  /** `{e[0]: e[1] for e in entries}`. */
  function MessagePairs(entries: seq<seq<string>>): (r: seq<(string, string)>)
    requires forall i :: 0 <= i < |entries| ==> |entries[i]| == 2
    ensures |r| == |entries|
    ensures forall i :: 0 <= i < |r| ==> r[i] == (entries[i][0], entries[i][1])
  {
    seq(|entries|, i requires 0 <= i < |entries| => (entries[i][0], entries[i][1]))
  }

  /** `{commit: set(find_branches_with_commit(commit)) for commit in commits}`. */
  function BranchSets(commits: seq<string>, contains: string -> string): (r: Dict<set<string>>)
    requires NoDups(commits)
    ensures r.Valid() && r.keys == commits
    ensures forall c :: c in commits ==> r.entries[c] == Elements(FindBranchesWithCommit(contains(c)))
  {
    Dict(commits, map c | c in commits :: Elements(FindBranchesWithCommit(contains(c))))
  }

  /** The stack of the commits in `base..HEAD`, `fixup!` commits left out. */
  function StackOn(base: string, git: Git): (r: Result<Stack>)
    ensures r.Ok? ==> r.value.baseBranch == base && r.value.devBranch == git.current
  {
    match ParseLog(git.log(base, "HEAD"), true)
    case Err(e) => Err(e)
    case Ok(entries) =>
      var messages := FromPairs(MessagePairs(entries));
      FromPairsKeys(MessagePairs(entries));
      Ok(Stack(messages.keys, messages, BranchSets(messages.keys, git.contains), git.current, base))
  }

  /** `Stack.create`: a missing or empty base branch is replaced by the configured one. */
  function Create(baseBranch: Option<string>, configBase: string, git: Git): (r: Result<Stack>)
    ensures r.Ok? ==> r.value.baseBranch == if baseBranch == None || baseBranch == Some("") then configBase else baseBranch.value
  {
    var base := if baseBranch.None? || baseBranch.value == "" then configBase else baseBranch.value;
    StackOn(base, git)
  }

  /**
   * `Stack.create` in `ghchain/git_utils.py`: it reads the commits of `base..HEAD`
   * but never stores `base`, so the stack keeps the field's default `main`.
   */
  function LegacyCreate(base: string, git: Git): (r: Result<Stack>)
    ensures r.Ok? ==> r.value.baseBranch == "main"
  {
    match StackOn(base, git)
    case Err(e) => Err(e)
    case Ok(s) => Ok(s.(baseBranch := "main"))
  }

  /** The shas of the log's entries, in log order. */
  function LogShas(entries: seq<seq<string>>): (r: seq<string>)
    requires forall i :: 0 <= i < |entries| ==> |entries[i]| == 2
  {
    Firsts(MessagePairs(entries))
  }

  /**
   * A created stack lists each sha of the log once, in first-seen order; its
   * messages and branch sets are keyed by exactly those commits.
   */
  lemma StackOnCommits(base: string, git: Git)
    requires ParseLog(git.log(base, "HEAD"), true).Ok?
    ensures var entries := ParseLog(git.log(base, "HEAD"), true).value;
            var s := StackOn(base, git).value;
            (forall i :: 0 <= i < |entries| ==> |entries[i]| == 2)
            && s.commits == Dedup(LogShas(entries))
            && s.commit2message.keys == s.commits
            && s.commit2branches.keys == s.commits
            && forall c :: c in s.commits ==>
                 s.commit2branches.entries[c] == Elements(FindBranchesWithCommit(git.contains(c)))
  {
    var entries := ParseLog(git.log(base, "HEAD"), true).value;
    assert forall e :: e in entries ==> |e| == 2;
    assert forall i :: 0 <= i < |entries| ==> entries[i] in entries;
    FromPairsKeys(MessagePairs(entries));
  }

  /** The message stored for a commit is the subject of its last log line. */
  lemma StackOnMessage(base: string, git: Git, i: nat)
    requires ParseLog(git.log(base, "HEAD"), true).Ok?
    requires i < |ParseLog(git.log(base, "HEAD"), true).value|
    requires var entries := ParseLog(git.log(base, "HEAD"), true).value;
             forall j :: i < j < |entries| ==> entries[j][0] != entries[i][0]
    ensures var entries := ParseLog(git.log(base, "HEAD"), true).value;
            var s := StackOn(base, git).value;
            |entries[i]| == 2
            && entries[i][0] in s.commit2message.entries
            && s.commit2message.entries[entries[i][0]] == entries[i][1]
  {
    var entries := ParseLog(git.log(base, "HEAD"), true).value;
    assert entries[i] in entries;
    assert forall j :: 0 <= j < |entries| ==> entries[j] in entries;
    FromPairsLastWins(MessagePairs(entries), i);
  }

  /** `Stack.create` queries `git log` against the base branch it was given. */
  lemma CreateKeepsBase(base: string, configBase: string, git: Git)
    requires base != ""
    requires Create(Some(base), configBase, git).Ok?
    ensures Create(Some(base), configBase, git).value.baseBranch == base
  {
  }

  /** The legacy `create` reads `base..HEAD` but records `main` whatever base it was given. */
  lemma LegacyCreateDropsBase(git: Git)
    requires LegacyCreate("develop", git).Ok?
    ensures LegacyCreate("develop", git).value.baseBranch != "develop"
  {
  }

  // ---------------------------------------------------------------------------
  // `commits_without_branch`.

  /** `not (branches - {dev_branch})`, for the branch set recorded for `c`. */
  function Unbranched(d: Dict<set<string>>, dev: string): string -> bool {
    c => Get(d, c, {}) - {dev} == {}
  }

  /** `Stack.commits_without_branch`: the commits no branch other than the development branch contains. */
  function CommitsWithoutBranch(s: Stack): (r: seq<string>)
    requires s.commit2branches.Valid()
    ensures forall c :: c in r <==> c in s.commit2branches.keys && s.commit2branches.entries[c] <= {s.devBranch}
  {
    FilterMembers(Unbranched(s.commit2branches, s.devBranch), s.commit2branches.keys);
    Filter(Unbranched(s.commit2branches, s.devBranch), s.commit2branches.keys)
  }

  /** Unbranched commits keep the stack's order: a split of the commits splits the result. */
  lemma CommitsWithoutBranchInOrder(s: Stack, i: nat)
    requires s.commit2branches.Valid() && i <= |s.commit2branches.keys|
    ensures CommitsWithoutBranch(s)
         == Filter(Unbranched(s.commit2branches, s.devBranch), s.commit2branches.keys[..i])
          + Filter(Unbranched(s.commit2branches, s.devBranch), s.commit2branches.keys[i..])
  {
    var ks := s.commit2branches.keys;
    assert ks == ks[..i] + ks[i..];
    FilterConcat(Unbranched(s.commit2branches, s.devBranch), ks[..i], ks[i..]);
  }

  /** Whether the development branch is in a commit's branch set does not matter. */
  lemma {:induction false} UnbranchedIgnoresDev(d: Dict<set<string>>, e: Dict<set<string>>, dev: string, cs: seq<string>)
    requires d.Valid() && e.Valid() && d.keys == e.keys
    requires forall c :: c in d.entries ==> d.entries[c] - {dev} == e.entries[c] - {dev}
    ensures Filter(Unbranched(d, dev), cs) == Filter(Unbranched(e, dev), cs)
    decreases |cs|
  {
    if cs != [] {
      UnbranchedIgnoresDev(d, e, dev, cs[1..]);
      assert Unbranched(d, dev)(cs[0]) == Unbranched(e, dev)(cs[0]);
    }
  }

  /** Adding the development branch to, or removing it from, any branch set leaves the result unchanged. */
  lemma CommitsWithoutBranchIgnoresDev(s: Stack, branches: Dict<set<string>>)
    requires s.commit2branches.Valid() && branches.Valid()
    requires branches.keys == s.commit2branches.keys
    requires forall c :: c in branches.entries ==> branches.entries[c] - {s.devBranch} == s.commit2branches.entries[c] - {s.devBranch}
    ensures CommitsWithoutBranch(s.(commit2branches := branches)) == CommitsWithoutBranch(s)
  {
    UnbranchedIgnoresDev(branches, s.commit2branches, s.devBranch, s.commit2branches.keys);
  }

  // ---------------------------------------------------------------------------
  // `branch2commits`, `branches` and `commit2branch`.

  /** Every branch that contains some commit of the stack. */
  function BranchSet(s: Stack): set<string> {
    set c, b | c in s.commit2branches.entries && b in s.commit2branches.entries[c] :: b
  }

  /** `order` lists every element of `bs` once: the order in which Python iterates the set. */
  ghost predicate Enumerates(order: seq<string>, bs: set<string>) {
    NoDups(order) && forall b :: b in order <==> b in bs
  }

  /** `get_commits_not_in_base_branch(base, target_branch=b, only_sha=True)`. */
  function BranchCommits(s: Stack, git: Git, b: string): (r: Result<seq<string>>)
    ensures r.Ok? <==> ParseLog(git.log(s.baseBranch, b), true).Ok?
    ensures r.Ok? ==> r.value == OnlySha(ParseLog(git.log(s.baseBranch, b), true).value)
  {
    match ParseLog(git.log(s.baseBranch, b), true)
    case Err(e) => Err(e)
    case Ok(entries) => Ok(OnlySha(entries))
  }

  function LogFails(s: Stack, git: Git): string -> bool {
    b => BranchCommits(s, git, b).Err?
  }

  /** `Stack.branch2commits`, the branches taken in the iteration order `order`. */
  function Branch2Commits(s: Stack, git: Git, order: seq<string>): (r: Result<Dict<seq<string>>>)
    requires Enumerates(order, BranchSet(s))
    ensures r.Ok? ==> r.value.Valid() && r.value.keys == order
    ensures r.Ok? <==> forall b :: b in BranchSet(s) ==> BranchCommits(s, git, b).Ok?
    ensures r.Ok? ==> forall b :: b in order ==> r.value.entries[b] == BranchCommits(s, git, b).value
  {
    match First(LogFails(s, git), order)
    case Some(i) => Err(BranchCommits(s, git, order[i]).error)
    case None =>
      assert forall b :: b in order ==> BranchCommits(s, git, b).Ok? by {
        forall b | b in order ensures BranchCommits(s, git, b).Ok? {
          var j :| 0 <= j < |order| && order[j] == b;
          assert !LogFails(s, git)(order[j]);
        }
      }
      Ok(Dict(order, map b | b in order :: BranchCommits(s, git, b).value))
  }

  function LengthKey(d: Dict<seq<string>>): string -> int {
    b => |Get(d, b, [])|
  }

  /** `Stack.branches`: the branches ordered by how many commits `base..branch` holds, most first. */
  function Branches(s: Stack, git: Git, order: seq<string>): Result<seq<string>>
    requires Enumerates(order, BranchSet(s))
  {
    match Branch2Commits(s, git, order)
    case Err(e) => Err(e)
    case Ok(d) => Ok(SortDesc(d.keys, LengthKey(d)))
  }

  /** The number of commits `base..b` holds (none when the log cannot be read). */
  function CommitCount(s: Stack, git: Git): string -> int {
    b => if BranchCommits(s, git, b).Ok? then |BranchCommits(s, git, b).value| else 0
  }

  /**
   * The branches are every branch of the stack once, longest first, and
   * branches of equal length keep the iteration order.
   */
  lemma BranchesSorted(s: Stack, git: Git, order: seq<string>)
    requires Enumerates(order, BranchSet(s))
    requires Branch2Commits(s, git, order).Ok?
    ensures var r := Branches(s, git, order).value;
            multiset(r) == multiset(order)
            && Enumerates(r, BranchSet(s))
            && SortedDesc(r, CommitCount(s, git))
  {
    var d := Branch2Commits(s, git, order).value;
    var r := SortDesc(order, LengthKey(d));
    SortDescPerm(order, LengthKey(d));
    SortDescMembers(order, LengthKey(d));
    SortDescSorted(order, LengthKey(d));
    assert Enumerates(r, BranchSet(s));
    forall i | 0 <= i < |r| ensures LengthKey(d)(r[i]) == CommitCount(s, git)(r[i]) {
      assert r[i] in order;
    }
    SortedDescSameKey(r, LengthKey(d), CommitCount(s, git));
  }

  lemma BranchesStable(s: Stack, git: Git, order: seq<string>, v: int)
    requires Enumerates(order, BranchSet(s))
    requires Branch2Commits(s, git, order).Ok?
    ensures var d := Branch2Commits(s, git, order).value;
            WithKey(Branches(s, git, order).value, LengthKey(d), v) == WithKey(order, LengthKey(d), v)
  {
    var d := Branch2Commits(s, git, order).value;
    SortDescStable(d.keys, LengthKey(d), v);
  }

  /**
   * The first key, from `i` on, whose commit list ends with `c`; reading the
   * last commit of an empty list on the way raises `IndexError`.
   */
  function TipFrom(d: Dict<seq<string>>, c: string, i: nat): (r: Result<Option<string>>)
    requires d.Valid() && i <= |d.keys|
    ensures r.Ok? && r.value.Some? ==> exists j :: i <= j < |d.keys| && d.keys[j] == r.value.value
    ensures r.Ok? && r.value.Some? ==> var l := d.entries[r.value.value]; l != [] && l[|l| - 1] == c
    ensures r == Ok(None) <==> forall j :: i <= j < |d.keys| ==> var l := d.entries[d.keys[j]]; l != [] && l[|l| - 1] != c
    decreases |d.keys| - i
  {
    if i == |d.keys| then Ok(None)
    else
      var b := d.keys[i];
      var l := d.entries[b];
      if l == [] then Err("IndexError: list index out of range")
      else if l[|l| - 1] == c then Ok(Some(b))
      else TipFrom(d, c, i + 1)
  }

  /** `Stack.commit2branch`: the branch whose newest commit is `c`, if any. */
  function Commit2Branch(s: Stack, git: Git, order: seq<string>, c: string): Result<Option<string>>
    requires Enumerates(order, BranchSet(s))
  {
    match Branch2Commits(s, git, order)
    case Err(e) => Err(e)
    case Ok(d) => TipFrom(d, c, 0)
  }

  /** `c` is the newest commit of `base..b`. */
  predicate EndsWith(s: Stack, git: Git, b: string, c: string) {
    var l := BranchCommits(s, git, b);
    l.Ok? && l.value != [] && l.value[|l.value| - 1] == c
  }

  /** `base..b` holds commits and its newest is not `c`. */
  predicate EndsElsewhere(s: Stack, git: Git, b: string, c: string) {
    var l := BranchCommits(s, git, b);
    l.Ok? && l.value != [] && l.value[|l.value| - 1] != c
  }

  /**
   * Whatever the iteration order, a branch `commit2branch` returns is one of
   * the stack's branches and has `c` as its newest commit.
   */
  lemma Commit2BranchTip(s: Stack, git: Git, order: seq<string>, c: string)
    requires Enumerates(order, BranchSet(s))
    requires Commit2Branch(s, git, order, c).Ok? && Commit2Branch(s, git, order, c).value.Some?
    ensures Commit2Branch(s, git, order, c).value.value in BranchSet(s)
    ensures EndsWith(s, git, Commit2Branch(s, git, order, c).value.value, c)
  {
    var d := Branch2Commits(s, git, order).value;
    var b := TipFrom(d, c, 0).value.value;
    assert b in order;
  }

  predicate TipElsewhere(d: Dict<seq<string>>, b: string, c: string)
    requires d.Valid() && b in d.keys
  {
    var l := d.entries[b];
    l != [] && l[|l| - 1] != c
  }

  lemma TipNone(d: Dict<seq<string>>, c: string)
    requires d.Valid()
    ensures TipFrom(d, c, 0) == Ok(None) <==> forall b :: b in d.keys ==> TipElsewhere(d, b, c)
  {
    if forall b :: b in d.keys ==> TipElsewhere(d, b, c) {
      assert forall j :: 0 <= j < |d.keys| ==> TipElsewhere(d, d.keys[j], c);
    }
  }

  /** `commit2branch` finds no branch exactly when every branch has commits and none ends with `c`. */
  lemma Commit2BranchNone(s: Stack, git: Git, order: seq<string>, c: string)
    requires Enumerates(order, BranchSet(s))
    requires Branch2Commits(s, git, order).Ok?
    ensures Commit2Branch(s, git, order, c) == Ok(None)
        <==> forall b :: b in BranchSet(s) ==> EndsElsewhere(s, git, b, c)
  {
    var d := Branch2Commits(s, git, order).value;
    TipNone(d, c);
    assert forall b :: b in order ==> (TipElsewhere(d, b, c) <==> EndsElsewhere(s, git, b, c));
  }

  /** A branch returned by `commit2branch` is in the branch set of some commit of the stack. */
  lemma Commit2BranchListed(s: Stack, git: Git, order: seq<string>, c: string)
    requires Enumerates(order, BranchSet(s))
    requires Commit2Branch(s, git, order, c).Ok? && Commit2Branch(s, git, order, c).value.Some?
    ensures exists k :: k in s.commit2branches.entries
                     && Commit2Branch(s, git, order, c).value.value in s.commit2branches.entries[k]
  {
    Commit2BranchTip(s, git, order, c);
  }
}
