/**
 * The pull-request side of ghchain (`ghchain/pull_request.py`): the regions
 * ghchain keeps in a pull request's description (the list of the stack's
 * pull requests and the workflow badges), the loop that rewrites every
 * description of a stack, and reading the new pull request's url out of
 * `gh pr create`.
 */
module PullRequests {
  import opened Common
  import opened Seqs
  import opened Text
  import opened GitHub
  import opened Status

  // ---------------------------------------------------------------------------
  // Marked regions of a description.

  /** A marker whose first character occurs nowhere else in it. */
  predicate Marker(m: string) {
    m != "" && m[0] !in m[1..]
  }

  /**
   * Puts `region` into `body`. When both markers occur, every leftmost
   * `start ... end` span (the shortest, across lines) is replaced by `region`,
   * as `re.sub(start + ".*?" + end, region, body, flags=re.DOTALL)` does;
   * otherwise `region` is appended after `sep`.
   */
  function UpsertRegion(body: string, start: string, end: string, region: string, sep: string): string
    requires start != ""
  {
    if Contains(body, start) && Contains(body, end) then SubDelimited(body, start, end, region)
    else body + sep + region
  }

  /** Without both markers, the old body is kept as a prefix and the region follows the separator. */
  lemma UpsertAppends(body: string, start: string, end: string, region: string, sep: string)
    requires start != ""
    requires !Contains(body, start) || !Contains(body, end)
    ensures body + sep <= UpsertRegion(body, start, end, region, sep)
    ensures UpsertRegion(body, start, end, region, sep)[|body| + |sep|..] == region
  {
    PrefixOfConcat(body + sep, region);
    assert (body + sep + region)[|body| + |sep|..] == region;
  }

  /**
   * A marked span is replaced by the region: the text before it is kept, and
   * the text after it is processed the same way.
   */
  lemma UpsertReplaces(u: string, m: string, w: string, start: string, end: string, region: string, sep: string)
    requires Marker(start) && Marker(end)
    requires !Contains(u, start) && !Contains(m, end)
    ensures UpsertRegion(u + start + m + end + w, start, end, region, sep)
         == u + region + SubDelimited(w, start, end, region)
  {
    var body := u + start + m + end + w;
    assert body == u + start + (m + end + w);
    ContainsIn(u, start, m + end + w);
    assert body == (u + start + m) + end + w;
    ContainsIn(u + start + m, end, w);
    SubSplice(u, start, m, end, w, region);
  }

  /** With one marked span and no start marker after it, only that span changes. */
  lemma UpsertReplacesOnce(u: string, m: string, w: string, start: string, end: string, region: string, sep: string)
    requires Marker(start) && Marker(end)
    requires !Contains(u, start) && !Contains(m, end) && !Contains(w, start)
    ensures UpsertRegion(u + start + m + end + w, start, end, region, sep) == u + region + w
  {
    UpsertReplaces(u, m, w, start, end, region, sep);
    SubNoStart(w, start, end, region);
  }

  lemma SubNoStart(w: string, start: string, end: string, region: string)
    requires start != "" && !Contains(w, start)
    ensures SubDelimited(w, start, end, region) == w
  {
  }

  /** When no start marker is followed by an end marker, the body comes back unchanged. */
  lemma UpsertNoSpan(body: string, start: string, end: string, region: string, sep: string)
    requires start != ""
    requires Contains(body, start) && Contains(body, end)
    requires forall i :: OccursAt(body, start, i) ==> !Contains(body[i + |start|..], end)
    ensures UpsertRegion(body, start, end, region, sep) == body
  {
    SubWithoutRegion(body, start, end, region);
  }

  /**
   * Updating twice is updating once, for a body without marker text or with
   * one marked span, when the region is itself one marked span.
   */
  lemma UpsertIdempotentSpan(u: string, m: string, w: string, start: string, end: string, mid: string, sep: string)
    requires Marker(start) && Marker(end)
    requires !Contains(u, start) && !Contains(m, end) && !Contains(w, start) && !Contains(mid, end)
    ensures var region := start + mid + end;
            var once := UpsertRegion(u + start + m + end + w, start, end, region, sep);
            UpsertRegion(once, start, end, region, sep) == once
  {
    var region := start + mid + end;
    UpsertReplacesOnce(u, m, w, start, end, region, sep);
    assert u + region + w == u + start + mid + end + w;
    UpsertReplacesOnce(u, mid, w, start, end, region, sep);
  }

  lemma UpsertIdempotentAppend(body: string, start: string, end: string, mid: string, sep: string)
    requires Marker(start) && Marker(end)
    requires !Contains(body, start) && !Contains(mid, end)
    requires sep != "" && forall i :: 0 <= i < |sep| ==> sep[i] !in start
    ensures var region := start + mid + end;
            var once := UpsertRegion(body, start, end, region, sep);
            UpsertRegion(once, start, end, region, sep) == once
  {
    var region := start + mid + end;
    NotContainsShort("", start);
    NotContainsAcross(body, sep, "", start);
    assert body + sep + "" == body + sep;
    NotContainsShort("", start);
    UpsertReplacesOnce(body + sep, mid, "", start, end, region, sep);
    assert body + sep + start + mid + end + "" == body + sep + region;
  }

  // ---------------------------------------------------------------------------
  // The stack list (`update_pr_stacklist_description`).

  const StackListHeader := HeaderTitle + HeaderHost + HeaderRepo + HeaderNote
  const HeaderTitle := "Stack from [ghchain]"
  const HeaderHost := "(https://github.com/"
  const HeaderRepo := "Jimmy2027/ghchain)"
  const HeaderNote := " (oldest at the bottom):"

  /** The current pull request is marked with an arrow. */
  function StackListLine(url: string, prUrl: string): string {
    if url == prUrl then "- -> " + url else "- " + url
  }

  /** One line per pull request of the stack, newest first, so that the oldest is at the bottom. */
  function StackListLines(urls: seq<string>, prUrl: string): (r: seq<string>)
    ensures |r| == |urls|
    ensures forall k :: 0 <= k < |r| ==> r[k] == StackListLine(urls[|urls| - 1 - k], prUrl)
    decreases |urls|
  {
    if urls == [] then []
    else
      var init := urls[..|urls| - 1];
      var rest := StackListLines(init, prUrl);
      assert forall k :: 0 <= k < |rest| ==> rest[k] == StackListLine(urls[|urls| - 2 - k], prUrl) by {
        forall k | 0 <= k < |rest| ensures rest[k] == StackListLine(urls[|urls| - 2 - k], prUrl) {
          assert init[|init| - 1 - k] == urls[|urls| - 2 - k];
        }
      }
      [StackListLine(Last(urls), prUrl)] + rest
  }

  /** A line carries the arrow exactly when it is the line of the current pull request. */
  lemma StackListLineArrow(url: string, prUrl: string)
    ensures StackListLine(url, prUrl) == "- -> " + url <==> url == prUrl
    ensures url != prUrl ==> StackListLine(url, prUrl) == "- " + url
  {
    if url != prUrl {
      assert |"- " + url| != |"- -> " + url|;
    }
  }

  /**
   * The arrow marks exactly the lines of the current pull request, and a
   * stack holding the current pull request shows its arrow line.
   */
  lemma StackListArrows(urls: seq<string>, prUrl: string)
    ensures var lines := StackListLines(urls, prUrl);
            forall k :: 0 <= k < |lines| ==>
              (lines[k] == "- -> " + urls[|urls| - 1 - k] <==> urls[|urls| - 1 - k] == prUrl)
    ensures prUrl in urls ==> "- -> " + prUrl in StackListLines(urls, prUrl)
  {
    var lines := StackListLines(urls, prUrl);
    forall k | 0 <= k < |lines|
      ensures lines[k] == "- -> " + urls[|urls| - 1 - k] <==> urls[|urls| - 1 - k] == prUrl
    {
      StackListLineArrow(urls[|urls| - 1 - k], prUrl);
    }
    if prUrl in urls {
      var i :| 0 <= i < |urls| && urls[i] == prUrl;
      assert lines[|urls| - 1 - i] == "- -> " + prUrl;
    }
  }

  /** The region: start marker, header, the lines and the end marker, one per line. */
  function StackListMarkdown(lines: seq<string>): string {
    StackListStart + StackListMiddle(lines) + StackListEnd
  }

  /** The text between the markers. */
  function StackListMiddle(lines: seq<string>): string {
    "\n" + StackListHeader + "\n" + Join(lines, "\n") + "\n"
  }

  /**
   * When no line holds a line break, the region's lines are the start
   * marker, the header, the stack's lines (one empty line for an empty
   * stack) and the end marker.
   */
  lemma StackListMarkdownLines(lines: seq<string>)
    requires forall i :: 0 <= i < |lines| ==> '\n' !in lines[i]
    ensures Split(StackListMarkdown(lines), '\n')
         == [StackListStart, StackListHeader] + (if lines == [] then [""] else lines) + [StackListEnd]
  {
    var body := if lines == [] then [""] else lines;
    assert Join(body, "\n") == Join(lines, "\n");
    var xs := [StackListStart, StackListHeader] + body + [StackListEnd];
    JoinFrame(StackListStart, StackListHeader, body, StackListEnd);
    MarkersOneLine();
    forall i | 0 <= i < |xs| ensures '\n' !in xs[i] {
      if i == 0 {
        assert xs[i] == StackListStart;
      } else if i == 1 {
        assert xs[i] == StackListHeader;
      } else if i == |xs| - 1 {
        assert xs[i] == StackListEnd;
      } else {
        assert xs[i] == body[i - 2];
      }
    }
    SplitJoin(xs, '\n');
  }

  lemma JoinFrame(s: string, h: string, body: seq<string>, e: string)
    requires body != []
    ensures Join([s, h] + body + [e], "\n") == s + ("\n" + h + "\n" + Join(body, "\n") + "\n") + e
  {
    JoinConcat([s, h], body, "\n");
    JoinConcat([s, h] + body, [e], "\n");
    assert Join([s, h], "\n") == s + "\n" + h;
    assert Join([e], "\n") == e;
  }

  /** `update_pr_stacklist_description` over the urls of the stack's pull requests, in stack order. */
  function StackListDescription(body: string, prUrl: string, urls: seq<string>): string {
    UpsertRegion(body, StackListStart, StackListEnd, StackListMarkdown(StackListLines(urls, prUrl)), "\n\n")
  }

  /** A comment `<!-- name -->` whose name has no `<` (nor line break) is a one-line marker. */
  lemma CommentMarker(name: string)
    requires '<' !in name && '\n' !in name
    ensures Marker(CommentOpen + name + CommentClose)
    ensures '\n' !in CommentOpen + name + CommentClose
  {
    var m := CommentOpen + name + CommentClose;
    assert m[0] == CommentOpen[0] == '<';
    assert m[1..] == CommentOpen[1..] + name + CommentClose;
    assert '<' !in CommentOpen[1..] && '<' !in CommentClose;
    assert '\n' !in CommentOpen && '\n' !in CommentClose;
  }

  lemma StackMarkers()
    ensures Marker(StackListStart) && Marker(StackListEnd)
    ensures forall i :: 0 <= i < |"\n\n"| ==> "\n\n"[i] !in StackListStart
  {
    CommentMarker("STACK_LIST_START");
    CommentMarker("STACK_LIST_END");
  }

  lemma MarkersOneLine()
    ensures '\n' !in StackListStart && '\n' !in StackListHeader && '\n' !in StackListEnd
  {
    HeaderFree();
  }

  /** The header holds neither a line break nor the markers' first character. */
  lemma HeaderFree()
    ensures '<' !in StackListHeader && '\n' !in StackListHeader
  {
    TitleFree();
    HostFree();
    RepoFree();
    NoteFree();
    assert StackListHeader == HeaderTitle + HeaderHost + HeaderRepo + HeaderNote;
  }

  // The four pieces of the header, each free of `<` and line breaks.
  lemma TitleFree() ensures '<' !in HeaderTitle && '\n' !in HeaderTitle {}
  lemma HostFree() ensures '<' !in HeaderHost && '\n' !in HeaderHost {}
  lemma RepoFree() ensures '<' !in HeaderRepo && '\n' !in HeaderRepo {}
  lemma NoteFree() ensures '<' !in HeaderNote && '\n' !in HeaderNote {}

  lemma LinesNoMarker(urls: seq<string>, prUrl: string)
    requires forall i :: 0 <= i < |urls| ==> '<' !in urls[i]
    ensures '<' !in Join(StackListLines(urls, prUrl), "\n")
  {
    var lines := StackListLines(urls, prUrl);
    forall k | 0 <= k < |lines| ensures '<' !in lines[k] {
      assert '<' !in urls[|urls| - 1 - k];
    }
    JoinNoChar(lines, "\n", '<');
  }

  /** With urls free of `<` the region holds no end marker between its markers. */
  lemma StackListMiddleClean(urls: seq<string>, prUrl: string)
    requires forall i :: 0 <= i < |urls| ==> '<' !in urls[i]
    ensures !Contains(StackListMiddle(StackListLines(urls, prUrl)), StackListEnd)
  {
    var joined := Join(StackListLines(urls, prUrl), "\n");
    LinesNoMarker(urls, prUrl);
    HeaderFree();
    var mid := "\n" + StackListHeader + "\n" + joined + "\n";
    assert forall i :: 0 <= i < |mid| ==> mid[i] != '<';
    assert StackListEnd[0] == '<';
    NotContainsWithoutFirst(mid, StackListEnd);
  }

  /**
   * Updating a description twice gives the same text as updating it once,
   * for a description without marker text and urls free of `<`.
   */
  lemma StackListIdempotent(body: string, prUrl: string, urls: seq<string>)
    requires !Contains(body, StackListStart)
    requires forall i :: 0 <= i < |urls| ==> '<' !in urls[i]
    ensures StackListDescription(StackListDescription(body, prUrl, urls), prUrl, urls)
         == StackListDescription(body, prUrl, urls)
  {
    var lines := StackListLines(urls, prUrl);
    StackMarkers();
    StackListMiddleClean(urls, prUrl);
    UpsertIdempotentAppend(body, StackListStart, StackListEnd, StackListMiddle(lines), "\n\n");
  }

  /** An existing stack list is replaced in place, and the same holds on a second update. */
  lemma StackListReplaced(u: string, m: string, w: string, prUrl: string, urls: seq<string>)
    requires !Contains(u, StackListStart) && !Contains(m, StackListEnd) && !Contains(w, StackListStart)
    requires forall i :: 0 <= i < |urls| ==> '<' !in urls[i]
    ensures var once := StackListDescription(u + StackListStart + m + StackListEnd + w, prUrl, urls);
            once == u + StackListMarkdown(StackListLines(urls, prUrl)) + w
            && StackListDescription(once, prUrl, urls) == once
  {
    var lines := StackListLines(urls, prUrl);
    StackMarkers();
    StackListMiddleClean(urls, prUrl);
    UpsertReplacesOnce(u, m, w, StackListStart, StackListEnd, StackListMarkdown(lines), "\n\n");
    UpsertIdempotentSpan(u, m, w, StackListStart, StackListEnd, StackListMiddle(lines), "\n\n");
  }

  // ---------------------------------------------------------------------------
  // The workflow badges (`run_tests_on_branch`).

  /** The badges region put into a description: replaced in place, or appended after one newline. */
  function BadgesDescription(body: string, badges: seq<string>): string {
    UpsertRegion(body, BadgesStart, BadgesEnd, WorkflowPrString(badges), "\n")
  }

  /** The badges of `workflowIds` run on `branch`, in order. */
  function BadgesFor(workflowIds: seq<string>, branch: string, repoUrl: string): (r: seq<string>)
    ensures |r| == |workflowIds|
    ensures forall i :: 0 <= i < |r| ==> r[i] == Badge(workflowIds[i], branch, repoUrl)
  {
    seq(|workflowIds|, i requires 0 <= i < |workflowIds| => Badge(workflowIds[i], branch, repoUrl))
  }

  lemma BadgesStartMarker()
    ensures Marker(BadgesStart)
    ensures '\n' !in BadgesStart
  {
    CommentMarker("WORKFLOW_BADGES_START");
  }

  lemma BadgesEndMarker()
    ensures Marker(BadgesEnd)
  {
    CommentMarker("WORKFLOW_BADGES_END");
  }

  lemma BadgesStartOneLine()
    ensures forall i :: 0 <= i < |"\n"| ==> "\n"[i] !in BadgesStart
  {
    BadgesStartMarker();
  }

  lemma BadgesHeaderFree()
    ensures '<' !in WorkflowHeader
  {
  }

  /** Both markers start with a character found nowhere else in them, and `"\n"` is not in the start marker. */
  lemma BadgeMarkers()
    ensures Marker(BadgesStart) && Marker(BadgesEnd)
    ensures forall i :: 0 <= i < |"\n"| ==> "\n"[i] !in BadgesStart
    ensures '<' !in WorkflowHeader
  {
    BadgesStartMarker();
    BadgesEndMarker();
    BadgesStartOneLine();
    BadgesHeaderFree();
  }

  /** The text between the badge markers. */
  function BadgesMiddle(badges: seq<string>): string {
    if badges == [] then "\n" + WorkflowHeader + "\n"
    else "\n" + WorkflowHeader + "\n" + Join(badges, "\n") + "\n"
  }

  lemma WorkflowPrStringParts(badges: seq<string>)
    ensures WorkflowPrString(badges) == BadgesStart + BadgesMiddle(badges) + BadgesEnd
  {
    if badges == [] {
      assert [BadgesStart, WorkflowHeader] + badges + [BadgesEnd] == [BadgesStart, WorkflowHeader, BadgesEnd];
      JoinThree(BadgesStart, WorkflowHeader, BadgesEnd);
    } else {
      JoinFrame(BadgesStart, WorkflowHeader, badges, BadgesEnd);
    }
  }

  lemma JoinThree(a: string, b: string, c: string)
    ensures Join([a, b, c], "\n") == a + ("\n" + b + "\n") + c
  {
    assert [a, b, c][1..] == [b, c];
    assert [b, c][1..] == [c];
    assert Join([c], "\n") == c;
    assert Join([b, c], "\n") == b + "\n" + c;
  }

  lemma BadgesMiddleClean(badges: seq<string>)
    requires forall i :: 0 <= i < |badges| ==> '<' !in badges[i]
    ensures !Contains(BadgesMiddle(badges), BadgesEnd)
  {
    BadgeMarkers();
    var mid := BadgesMiddle(badges);
    if badges != [] {
      JoinNoChar(badges, "\n", '<');
    }
    assert forall i :: 0 <= i < |mid| ==> mid[i] != '<';
    assert BadgesEnd[0] == '<';
    NotContainsWithoutFirst(mid, BadgesEnd);
  }

  /**
   * Running the workflows twice on a pull request leaves the description as
   * after the first run, for a description without marker text and badges
   * free of `<`.
   */
  lemma BadgesIdempotent(body: string, badges: seq<string>)
    requires !Contains(body, BadgesStart)
    requires forall i :: 0 <= i < |badges| ==> '<' !in badges[i]
    ensures BadgesDescription(BadgesDescription(body, badges), badges) == BadgesDescription(body, badges)
  {
    BadgeMarkers();
    BadgesMiddleClean(badges);
    WorkflowPrStringParts(badges);
    UpsertIdempotentAppend(body, BadgesStart, BadgesEnd, BadgesMiddle(badges), "\n");
  }

  /** An existing badges region is replaced in place by the new badges; the rest of the description is kept. */
  lemma BadgesReplaced(u: string, m: string, w: string, badges: seq<string>)
    requires !Contains(u, BadgesStart) && !Contains(m, BadgesEnd) && !Contains(w, BadgesStart)
    ensures BadgesDescription(u + BadgesStart + m + BadgesEnd + w, badges) == u + WorkflowPrString(badges) + w
  {
    BadgeMarkers();
    UpsertReplacesOnce(u, m, w, BadgesStart, BadgesEnd, WorkflowPrString(badges), "\n");
  }

  // ---------------------------------------------------------------------------
  // The url in the output of `gh pr create`: `re.search(r"https://github\.com/.+/pull/\d+", out)`.

  const GitHubPrefix := "https://github.com/"
  const PullSegment := "/pull/"

  /** `/pull/` followed by a digit starts at `k`. */
  predicate PullAt(s: string, k: int) {
    OccursAt(s, PullSegment, k) && k + |PullSegment| < |s| && IsDigit(s[k + |PullSegment|])
  }

  /** The first line break at or after `j`, or the end of `s`: how far `.` can reach. */
  function LineEnd(s: string, j: nat): (e: nat)
    requires j <= |s|
    ensures j <= e <= |s| && (e == |s| || s[e] == '\n')
    ensures forall t :: j <= t < e ==> s[t] != '\n'
    decreases |s| - j
  {
    if j == |s| || s[j] == '\n' then j else LineEnd(s, j + 1)
  }

  /** The last `k` with `lo < k <= hi` where `PullAt` holds: greedy `.+` backs off from the longest span. */
  function LastPull(s: string, lo: nat, hi: nat): (r: Option<nat>)
    ensures r.Some? ==> lo < r.value <= hi && PullAt(s, r.value)
    ensures r.Some? ==> forall t :: r.value < t <= hi ==> !PullAt(s, t)
    ensures r.None? ==> forall t :: lo < t <= hi ==> !PullAt(s, t)
    decreases hi
  {
    if hi <= lo then None
    else if PullAt(s, hi) then Some(hi)
    else LastPull(s, lo, hi - 1)
  }

  /** The end of the run of digits starting at `j`: greedy `\d+`. */
  function DigitsEnd(s: string, j: nat): (e: nat)
    requires j <= |s|
    ensures j <= e <= |s| && AllDigits(s[j..e])
    ensures e == |s| || !IsDigit(s[e])
    decreases |s| - j
  {
    if j < |s| && IsDigit(s[j]) then
      var e := DigitsEnd(s, j + 1);
      assert s[j..e] == [s[j]] + s[j + 1..e];
      e
    else j
  }

  /** A match: `s[start..stop]`, with the pull request number in `s[digits..stop]`. */
  datatype UrlMatch = UrlMatch(start: nat, digits: nat, stop: nat)

  /** `s[m.start..m.stop]` matches the pattern, `.+` taking `s[m.start + 19..m.digits - 6]`. */
  predicate IsUrlMatch(s: string, m: UrlMatch) {
    OccursAt(s, GitHubPrefix, m.start)
    && m.start + |GitHubPrefix| < m.digits - |PullSegment|
    && OccursAt(s, PullSegment, m.digits - |PullSegment|)
    && m.digits < m.stop <= |s|
    && (forall t :: m.start + |GitHubPrefix| <= t < m.digits - |PullSegment| ==> s[t] != '\n')
    && AllDigits(s[m.digits..m.stop])
  }

  /** The match Python's regex engine finds when it tries position `i`. */
  function MatchAt(s: string, i: nat): (r: Option<UrlMatch>)
    requires i <= |s|
    ensures r.Some? ==> r.value.start == i
  {
    if !OccursAt(s, GitHubPrefix, i) then None
    else
      var j := i + |GitHubPrefix|;
      match LastPull(s, j, LineEnd(s, j))
      case None => None
      case Some(k) =>
        var d := k + |PullSegment|;
        Some(UrlMatch(i, d, DigitsEnd(s, d)))
  }

  /** What `MatchAt` finds is a match of the pattern. */
  lemma MatchAtSound(s: string, i: nat)
    requires i <= |s| && MatchAt(s, i).Some?
    ensures IsUrlMatch(s, MatchAt(s, i).value)
  {
  }

  /** A match found at `i` is the greedy one: no later `/pull/<digit>` on the line, no further digit. */
  lemma MatchAtGreedy(s: string, i: nat)
    requires i <= |s| && MatchAt(s, i).Some?
    ensures var m := MatchAt(s, i).value;
            (m.stop == |s| || !IsDigit(s[m.stop]))
            && forall t :: m.digits - |PullSegment| < t <= LineEnd(s, i + |GitHubPrefix|) ==> !PullAt(s, t)
  {
  }

  /** Whenever the pattern can match at `i`, `MatchAt` finds a match there. */
  lemma MatchAtComplete(s: string, m: UrlMatch)
    requires IsUrlMatch(s, m)
    ensures MatchAt(s, m.start).Some?
  {
    var j := m.start + |GitHubPrefix|;
    var k := m.digits - |PullSegment|;
    var e := LineEnd(s, j);
    assert s[m.digits..m.stop][0] == s[m.digits];
    assert PullAt(s, k);
  }

  /** `re.search`: the match at the leftmost position where the pattern matches. */
  function SearchFrom(s: string, i: nat): (r: Option<UrlMatch>)
    requires i <= |s|
    ensures r.Some? ==> i <= r.value.start <= |s|
    decreases |s| - i
  {
    var m := MatchAt(s, i);
    if m.Some? then m
    else if i == |s| then None
    else SearchFrom(s, i + 1)
  }

  function Search(s: string): (r: Option<UrlMatch>)
    ensures r.Some? ==> r.value.start <= |s|
  {
    SearchFrom(s, 0)
  }

  /** The search tries the positions in order and stops at the first that matches. */
  lemma {:induction false} SearchFromSome(s: string, i: nat, m: UrlMatch)
    requires i <= |s| && SearchFrom(s, i) == Some(m)
    ensures i <= m.start && MatchAt(s, m.start) == Some(m)
    ensures forall t :: i <= t < m.start ==> MatchAt(s, t).None?
    decreases |s| - i
  {
    if MatchAt(s, i).None? {
      SearchFromSome(s, i + 1, m);
      assert forall t :: i + 1 <= t < m.start ==> MatchAt(s, t).None?;
    } else {
      assert m == MatchAt(s, i).value && m.start == i;
    }
  }

  lemma {:induction false} SearchFromNone(s: string, i: nat)
    requires i <= |s| && SearchFrom(s, i).None?
    ensures forall t :: i <= t <= |s| ==> MatchAt(s, t).None?
    decreases |s| - i
  {
    assert MatchAt(s, i).None?;
    if i < |s| {
      SearchFromNone(s, i + 1);
      assert forall t :: i + 1 <= t <= |s| ==> MatchAt(s, t).None?;
    }
  }

  /** `re.search` finds nothing exactly when the pattern matches nowhere; else its match starts leftmost. */
  lemma SearchLeftmost(s: string)
    ensures Search(s).Some? ==> IsUrlMatch(s, Search(s).value)
    ensures Search(s).None? <==> forall m :: !IsUrlMatch(s, m)
    ensures Search(s).Some? ==> forall m :: IsUrlMatch(s, m) ==> Search(s).value.start <= m.start
  {
    if Search(s).None? {
      SearchFromNone(s, 0);
    } else {
      SearchFromSome(s, 0, Search(s).value);
      MatchAtSound(s, Search(s).value.start);
    }
    forall m | IsUrlMatch(s, m)
      ensures Search(s).Some? && Search(s).value.start <= m.start
    {
      MatchAtComplete(s, m);
    }
  }

  /** The matched url. */
  function MatchedUrl(s: string, m: UrlMatch): string
    requires IsUrlMatch(s, m)
  {
    s[m.start..m.stop]
  }

  /** `int(pr_url.rstrip("/").split("/")[-1])` on a matched url: its trailing digits, never an error. */
  function UrlPrId(url: string): Option<int> {
    ParseInt(Last(Split(RStripChar(url, '/'), '/')))
  }

  lemma UrlPrIdOfMatch(s: string, m: UrlMatch)
    requires IsUrlMatch(s, m)
    ensures UrlPrId(MatchedUrl(s, m)) == Some(DigitsValue(s[m.digits..m.stop]))
  {
    var url := MatchedUrl(s, m);
    var ds := s[m.digits..m.stop];
    var a := s[m.start..m.digits - 1];
    assert s[m.digits - 1] == PullSegment[|PullSegment| - 1] == '/';
    assert url == a + ['/'] + ds;
    assert Last(url) == Last(ds) && IsDigit(Last(ds));
    assert RStripChar(url, '/') == url;
    assert '/' !in ds;
    SplitLastAround(a, '/', ds);
    ParseIntDigits(ds);
  }

  /**
   * The usual output of `gh pr create`, the new pull request's url on a
   * line of its own, is read as that url with its number.
   */
  lemma SearchOfPrUrl(repo: string, n: string, rest: string)
    requires repo != "" && '\n' !in repo
    requires n != "" && AllDigits(n)
    requires rest == "" || rest[0] == '\n'
    ensures var s := GitHubPrefix + repo + PullSegment + n + rest;
            var d := |GitHubPrefix| + |repo| + |PullSegment|;
            var m := UrlMatch(0, d, d + |n|);
            Search(s) == Some(m) && IsUrlMatch(s, m)
            && MatchedUrl(s, m) == GitHubPrefix + repo + PullSegment + n
            && UrlPrId(MatchedUrl(s, m)) == Some(DigitsValue(n))
  {
    var s := GitHubPrefix + repo + PullSegment + n + rest;
    var d := |GitHubPrefix| + |repo| + |PullSegment|;
    var m := UrlMatch(0, d, d + |n|);
    PrOutputSlices(s, repo, n, rest);
    PrOutputMatch(s, repo, n, rest);
    SearchAtStart(s);
    assert s[m.start..m.stop] == GitHubPrefix + repo + PullSegment + n;
    UrlPrIdOfMatch(s, m);
  }

  /** A match at the very start is what the search returns. */
  lemma SearchAtStart(s: string)
    requires MatchAt(s, 0).Some?
    ensures Search(s) == MatchAt(s, 0) && IsUrlMatch(s, MatchAt(s, 0).value)
  {
    MatchAtSound(s, 0);
  }

  lemma PrOutputSlices(s: string, repo: string, n: string, rest: string)
    requires s == GitHubPrefix + repo + PullSegment + n + rest
    ensures var k := |GitHubPrefix| + |repo|;
            var d := k + |PullSegment|;
            |s| == d + |n| + |rest|
            && s[..|GitHubPrefix|] == GitHubPrefix && s[|GitHubPrefix|..k] == repo
            && s[k..d] == PullSegment && s[d..d + |n|] == n && s[d + |n|..] == rest
  {
    var k := |GitHubPrefix| + |repo|;
    var d := k + |PullSegment|;
    assert s == GitHubPrefix + (repo + (PullSegment + (n + rest)));
  }

  lemma PrOutputMatch(s: string, repo: string, n: string, rest: string)
    requires repo != "" && '\n' !in repo
    requires n != "" && AllDigits(n)
    requires rest == "" || rest[0] == '\n'
    requires var k := |GitHubPrefix| + |repo|;
             var d := k + |PullSegment|;
             |s| == d + |n| + |rest|
             && s[..|GitHubPrefix|] == GitHubPrefix && s[|GitHubPrefix|..k] == repo
             && s[k..d] == PullSegment && s[d..d + |n|] == n && s[d + |n|..] == rest
    ensures var d := |GitHubPrefix| + |repo| + |PullSegment|;
            MatchAt(s, 0) == Some(UrlMatch(0, d, d + |n|))
  {
    var j := |GitHubPrefix|;
    var k := j + |repo|;
    var d := k + |PullSegment|;
    PrOutputLineEnd(s, repo, n, rest);
    var e := d + |n|;
    assert PullAt(s, k) by {
      assert s[d] == s[d..d + |n|][0];
    }
    NoPullUpTo(s, k, n, rest);
    LastPullIs(s, j, e, k);
    assert s[d..e] == n;
    DigitsEndIs(s, d, e);
    assert OccursAt(s, GitHubPrefix, 0);
    MatchAtIs(s, 0, k, e);
  }

  lemma NoPullUpTo(s: string, k: nat, n: string, rest: string)
    requires n != "" && AllDigits(n)
    requires rest == "" || rest[0] == '\n'
    requires var d := k + |PullSegment|;
             |s| == d + |n| + |rest|
             && s[k..d] == PullSegment && s[d..d + |n|] == n && s[d + |n|..] == rest
    ensures forall t :: k < t <= k + |PullSegment| + |n| ==> !PullAt(s, t)
  {
    var e := k + |PullSegment| + |n|;
    forall t | k < t <= e ensures !PullAt(s, t) {
      if t == e && t < |s| {
        assert s[t] == rest[0];
      }
      NoPullAfter(s, k, n, t);
    }
  }

  /** How `MatchAt` is assembled from the line end, the last `/pull/` and the digit run. */
  lemma MatchAtIs(s: string, i: nat, k: nat, e: nat)
    requires i + |GitHubPrefix| <= |s| && OccursAt(s, GitHubPrefix, i)
    requires LastPull(s, i + |GitHubPrefix|, LineEnd(s, i + |GitHubPrefix|)) == Some(k)
    requires k + |PullSegment| <= |s| && DigitsEnd(s, k + |PullSegment|) == e
    ensures MatchAt(s, i) == Some(UrlMatch(i, k + |PullSegment|, e))
  {
  }

  lemma PrOutputLineEnd(s: string, repo: string, n: string, rest: string)
    requires '\n' !in repo && AllDigits(n)
    requires rest == "" || rest[0] == '\n'
    requires var k := |GitHubPrefix| + |repo|;
             var d := k + |PullSegment|;
             |s| == d + |n| + |rest|
             && s[|GitHubPrefix|..k] == repo
             && s[k..d] == PullSegment && s[d..d + |n|] == n && s[d + |n|..] == rest
    ensures LineEnd(s, |GitHubPrefix|) == |GitHubPrefix| + |repo| + |PullSegment| + |n|
  {
    var j := |GitHubPrefix|;
    var k := j + |repo|;
    var d := k + |PullSegment|;
    forall t | j <= t < d + |n| ensures s[t] != '\n' {
      if t < k {
        assert s[t] == s[j..k][t - j];
      } else if t < d {
        assert s[t] == s[k..d][t - k];
      } else {
        assert s[t] == s[d..d + |n|][t - d];
      }
    }
    if d + |n| < |s| {
      assert s[d + |n|] == s[d + |n|..][0];
    }
    LineEndIs(s, j, d + |n|);
  }

  lemma LineEndIs(s: string, j: nat, e: nat)
    requires j <= e <= |s| && (e == |s| || s[e] == '\n')
    requires forall t :: j <= t < e ==> s[t] != '\n'
    ensures LineEnd(s, j) == e
  {
  }

  lemma LastPullIs(s: string, lo: nat, hi: nat, k: nat)
    requires lo < k <= hi && PullAt(s, k)
    requires forall t :: k < t <= hi ==> !PullAt(s, t)
    ensures LastPull(s, lo, hi) == Some(k)
  {
    var r := LastPull(s, lo, hi);
    assert r.Some?;
    assert !(r.value < k);
  }

  lemma DigitsEndIs(s: string, j: nat, e: nat)
    requires j <= e <= |s| && AllDigits(s[j..e]) && (e == |s| || !IsDigit(s[e]))
    ensures DigitsEnd(s, j) == e
  {
  }

  /** After `/pull/<digits>` no later `/pull/<digit>` starts inside the segment or the digits. */
  lemma NoPullAfter(s: string, k: nat, n: string, t: nat)
    requires k + |PullSegment| + |n| <= |s|
    requires s[k..k + |PullSegment|] == PullSegment && s[k + |PullSegment|..k + |PullSegment| + |n|] == n
    requires n != "" && AllDigits(n)
    requires k < t <= k + |PullSegment| + |n|
    requires t == k + |PullSegment| + |n| ==> t == |s| || s[t] == '\n'
    ensures !PullAt(s, t)
  {
    var d := k + |PullSegment|;
    PullAtChars(s, t);
    if t < d - 1 {
      assert s[t] == s[k..d][t - k] == PullSegment[t - k];
    } else if t == d - 1 {
      assert s[t + 1] == s[d..d + |n|][0] == n[0];
    } else if t < d + |n| {
      assert s[t] == s[d..d + |n|][t - d] == n[t - d];
    }
  }

  lemma PullAtChars(s: string, t: int)
    ensures PullAt(s, t) ==> s[t] == '/' && s[t + 1] == 'p'
  {
    if PullAt(s, t) {
      assert s[t..t + |PullSegment|] == PullSegment;
    }
  }

  // ---------------------------------------------------------------------------
  // The `PR` record and the operations that change pull requests.

  /** A GitHub pull request as ghchain holds it; `update_pr_descriptions` and `run_tests_on_branch` rewrite its body. */
  class PR {
    var prId: int
    var prUrl: string
    var prStatus: Option<PrStatus>
    var headBranch: string
    var body: string
    var title: string
    var commits: seq<string>

    constructor(prId: int, prUrl: string, prStatus: Option<PrStatus>, headBranch: string,
                body: string, title: string, commits: seq<string>)
      ensures this.prId == prId && this.prUrl == prUrl && this.prStatus == prStatus
      ensures this.headBranch == headBranch && this.body == body && this.title == title
      ensures this.commits == commits
    {
      this.prId := prId;
      this.prUrl := prUrl;
      this.prStatus := prStatus;
      this.headBranch := headBranch;
      this.body := body;
      this.title := title;
      this.commits := commits;
    }
  }

  /** The urls of the pull requests, in stack order. */
  function Urls(prs: seq<PR>): (r: seq<string>)
    reads prs
    ensures |r| == |prs|
    ensures forall i :: 0 <= i < |prs| ==> r[i] == prs[i].prUrl
    decreases |prs|
  {
    if prs == [] then [] else Urls(prs[..|prs| - 1]) + [prs[|prs| - 1].prUrl]
  }

  /**
   * `PR.create_pull_request` after `gh pr create` printed `stdout`: no pull
   * request when the output holds no url, else one whose number is read
   * from the url, with no status and the one commit it was created for.
   */
  method CreatePullRequest(baseBranch: string, headBranch: string, title: string, body: string,
                           commitSha: string, stdout: string) returns (pr: PR?)
    ensures pr == null <==> Search(stdout).None?
    ensures pr != null ==> IsUrlMatch(stdout, Search(stdout).value)
    ensures pr != null ==> fresh(pr) && pr.prUrl == MatchedUrl(stdout, Search(stdout).value)
    ensures pr != null ==> UrlPrId(pr.prUrl) == Some(pr.prId)
    ensures pr != null ==> pr.prId == DigitsValue(stdout[Search(stdout).value.digits..Search(stdout).value.stop])
    ensures pr != null ==> pr.prStatus == None && pr.headBranch == headBranch && pr.body == body
    ensures pr != null ==> pr.title == title && pr.commits == [commitSha]
  {
    var m := Search(stdout);
    if m.None? {
      return null;
    }
    SearchLeftmost(stdout);
    UrlPrIdOfMatch(stdout, m.value);
    var url := stdout[m.value.start..m.value.stop];
    var id := UrlPrId(url);
    pr := new PR(id.value, url, None, headBranch, body, title, [commitSha]);
  }

  /** The loop of `update_pr_stacklist_description`: each url put in front, so the newest comes first. */
  method BuildStackListLines(prStack: seq<PR>, prUrl: string) returns (lines: seq<string>)
    ensures lines == StackListLines(Urls(prStack), prUrl)
  {
    lines := [];
    for i := 0 to |prStack|
      invariant lines == StackListLines(Urls(prStack[..i]), prUrl)
    {
      var url := prStack[i].prUrl;
      var line := if url == prUrl then "- -> " + url else "- " + url;
      UrlsSnoc(prStack, i);
      lines := [line] + lines;
    }
    assert prStack[..|prStack|] == prStack;
  }

  lemma UrlsSnoc(prStack: seq<PR>, i: nat)
    requires i < |prStack|
    ensures Urls(prStack[..i + 1]) == Urls(prStack[..i]) + [prStack[i].prUrl]
  {
    assert prStack[..i + 1][..i] == prStack[..i];
  }

  /** `update_pr_stacklist_description`. */
  method UpdatePrStacklistDescription(currentBody: string, prUrl: string, prStack: seq<PR>) returns (updated: string)
    ensures updated == StackListDescription(currentBody, prUrl, Urls(prStack))
  {
    var lines := BuildStackListLines(prStack, prUrl);
    var md := StackListMarkdown(lines);
    if Contains(currentBody, StackListStart) && Contains(currentBody, StackListEnd) {
      updated := SubDelimited(currentBody, StackListStart, StackListEnd, md);
    } else {
      updated := currentBody + "\n\n" + md;
    }
  }

  /** The stack-list update of one pull request's description, given its url and its current description. */
  function Updater(urls: seq<string>): (string, string) -> string {
    (prUrl: string, body: string) => StackListDescription(body, prUrl, urls)
  }

  /** `body` after `n` applications of `f` for the pull request at `prUrl`. */
  function Iterate(f: (string, string) -> string, prUrl: string, body: string, n: nat): string
    decreases n
  {
    if n == 0 then body else f(prUrl, Iterate(f, prUrl, body, n - 1))
  }

  /** A description after `n` stack-list updates. */
  function DescriptionAfter(body: string, prUrl: string, urls: seq<string>, n: nat): string {
    Iterate(Updater(urls), prUrl, body, n)
  }

  /** However often a pull request occurs in the stack, its description ends as after one update. */
  lemma DescriptionAfterOnce(body: string, prUrl: string, urls: seq<string>, n: nat)
    requires n >= 1
    requires !Contains(body, StackListStart)
    requires forall i :: 0 <= i < |urls| ==> '<' !in urls[i]
    ensures DescriptionAfter(body, prUrl, urls, n) == StackListDescription(body, prUrl, urls)
  {
    StackListIdempotent(body, prUrl, urls);
    IterateFixpoint(Updater(urls), prUrl, body, n);
  }

  /**
   * The same for a description that already holds a stack list, as on every
   * run after the first: however often the pull request occurs, the old list
   * is replaced once and the text around it is kept.
   */
  lemma DescriptionAfterOnceReplaced(u: string, m: string, w: string, prUrl: string, urls: seq<string>, n: nat)
    requires n >= 1
    requires !Contains(u, StackListStart) && !Contains(m, StackListEnd) && !Contains(w, StackListStart)
    requires forall i :: 0 <= i < |urls| ==> '<' !in urls[i]
    ensures var body := u + StackListStart + m + StackListEnd + w;
            DescriptionAfter(body, prUrl, urls, n) == StackListDescription(body, prUrl, urls)
            && DescriptionAfter(body, prUrl, urls, n) == u + StackListMarkdown(StackListLines(urls, prUrl)) + w
  {
    var body := u + StackListStart + m + StackListEnd + w;
    StackListReplaced(u, m, w, prUrl, urls);
    IterateFixpoint(Updater(urls), prUrl, body, n);
  }

  /** Applying an update whose result it leaves unchanged any positive number of times is applying it once. */
  lemma {:induction false} IterateFixpoint(f: (string, string) -> string, prUrl: string, body: string, n: nat)
    requires n >= 1 && f(prUrl, f(prUrl, body)) == f(prUrl, body)
    ensures Iterate(f, prUrl, body, n) == f(prUrl, body)
    decreases n
  {
    if n > 1 {
      IterateFixpoint(f, prUrl, body, n - 1);
    }
  }

  /** Everything a pull request holds except its description. */
  datatype PrFields = PrFields(prId: int, prUrl: string, prStatus: Option<PrStatus>, headBranch: string,
                               title: string, commits: seq<string>)

  function FieldsOf(pr: PR): PrFields
    reads pr
  {
    PrFields(pr.prId, pr.prUrl, pr.prStatus, pr.headBranch, pr.title, pr.commits)
  }

  function FieldsSeq(prs: seq<PR>): (r: seq<PrFields>)
    reads set p | p in prs
    ensures |r| == |prs| && forall k :: 0 <= k < |prs| ==> r[k] == FieldsOf(prs[k])
  {
    seq(|prs|, k reads prs requires 0 <= k < |prs| => FieldsOf(prs[k]))
  }

  /** The pull requests still hold `fields` and now have the descriptions `bodies`. */
  predicate Mirrors(prStack: seq<PR>, fields: seq<PrFields>, bodies: seq<string>)
    reads set p | p in prStack
  {
    |fields| == |bodies| == |prStack|
    && forall k :: 0 <= k < |prStack| ==> FieldsOf(prStack[k]) == fields[k] && prStack[k].body == bodies[k]
  }

  /**
   * `update_pr_descriptions`: every pull request of the stack gets the stack
   * list of the whole stack in its description, once per time it occurs in
   * the stack; nothing else about the pull requests changes.
   */
  method UpdatePrDescriptions(prStack: seq<PR>)
    modifies set p | p in prStack
    ensures forall k :: 0 <= k < |prStack| ==>
              prStack[k].body == DescriptionAfter(old(prStack[k].body), prStack[k].prUrl, old(Urls(prStack)),
                                                  multiset(prStack)[prStack[k]])
    ensures forall k :: 0 <= k < |prStack| ==> FieldsOf(prStack[k]) == old(FieldsOf(prStack[k]))
  {
    ghost var urls := Urls(prStack);
    ghost var fields := FieldsSeq(prStack);
    ghost var bodies0 := Bodies(prStack);
    ghost var bodies := bodies0;
    assert forall k :: 0 <= k < |prStack| ==> urls[k] == fields[k].prUrl;
    assert forall j, k :: 0 <= j < |prStack| && 0 <= k < |prStack| && prStack[j] == prStack[k] ==>
             bodies0[j] == bodies0[k];
    for i := 0 to |prStack|
      invariant Mirrors(prStack, fields, bodies)
      invariant UpdatedUpTo(bodies, bodies0, prStack, urls, Updater(urls), i)
    {
      var updated := UpdateOne(prStack, i, urls, fields, bodies, bodies0);
      bodies := Reassigned(bodies, prStack, prStack[i], updated);
    }
    assert prStack[..|prStack|] == prStack;
    forall k | 0 <= k < |prStack|
      ensures prStack[k].body == DescriptionAfter(old(prStack[k].body), prStack[k].prUrl, old(Urls(prStack)),
                                                  multiset(prStack)[prStack[k]])
    {
      assert BodyUpdated(bodies, bodies0, prStack, urls, Updater(urls), |prStack|, k);
    }
  }

  /** One step of `update_pr_descriptions`: the `i`th pull request gets the stack list. */
  method UpdateOne(prStack: seq<PR>, i: nat, ghost urls: seq<string>, ghost fields: seq<PrFields>,
                   ghost bodies: seq<string>, ghost bodies0: seq<string>) returns (updated: string)
    requires i < |prStack| && Mirrors(prStack, fields, bodies)
    requires UpdatedUpTo(bodies, bodies0, prStack, urls, Updater(urls), i)
    requires forall k :: 0 <= k < |prStack| ==> urls[k] == fields[k].prUrl
    requires forall j, k :: 0 <= j < |prStack| && 0 <= k < |prStack| && prStack[j] == prStack[k] ==>
               bodies0[j] == bodies0[k]
    modifies prStack[i]
    ensures Mirrors(prStack, fields, Reassigned(bodies, prStack, prStack[i], updated))
    ensures UpdatedUpTo(Reassigned(bodies, prStack, prStack[i], updated), bodies0, prStack, urls, Updater(urls), i + 1)
  {
    var pr := prStack[i];
    assert Urls(prStack) == urls;
    updated := UpdatePrStacklistDescription(pr.body, pr.prUrl, prStack);
    UpdatedStep(bodies, bodies0, prStack, urls, Updater(urls), i, updated);
    pr.body := updated;
    ghost var next := Reassigned(bodies, prStack, pr, updated);
    forall k | 0 <= k < |prStack| ensures FieldsOf(prStack[k]) == fields[k] && prStack[k].body == next[k] {
      assert old(FieldsOf(prStack[k])) == fields[k] && old(prStack[k].body) == bodies[k];
      if prStack[k] != pr {
        assert prStack[k].body == old(prStack[k].body);
      }
    }
  }

  /** The descriptions of the pull requests, in stack order. */
  function Bodies(prs: seq<PR>): (r: seq<string>)
    reads prs
    ensures |r| == |prs|
    ensures forall i :: 0 <= i < |prs| ==> r[i] == prs[i].body
    decreases |prs|
  {
    if prs == [] then [] else Bodies(prs[..|prs| - 1]) + [prs[|prs| - 1].body]
  }

  /** The descriptions after assigning `body` to the object `pr`, wherever it occurs in the stack. */
  function Reassigned(bodies: seq<string>, stack: seq<PR>, pr: PR, body: string): (r: seq<string>)
    requires |bodies| == |stack|
    ensures |r| == |bodies|
    ensures forall k :: 0 <= k < |r| ==> r[k] == if stack[k] == pr then body else bodies[k]
  {
    seq(|bodies|, k requires 0 <= k < |bodies| => if stack[k] == pr then body else bodies[k])
  }

  /** The `k`th pull request's description after the first `i` steps of the loop. */
  predicate BodyUpdated(bodies: seq<string>, bodies0: seq<string>, stack: seq<PR>, urls: seq<string>,
                        f: (string, string) -> string, i: nat, k: nat)
    requires |bodies| == |bodies0| == |stack| == |urls| && i <= |stack| && k < |stack|
  {
    bodies[k] == Iterate(f, urls[k], bodies0[k], multiset(stack[..i])[stack[k]])
  }

  predicate UpdatedUpTo(bodies: seq<string>, bodies0: seq<string>, stack: seq<PR>, urls: seq<string>,
                        f: (string, string) -> string, i: nat) {
    |bodies| == |bodies0| == |stack| == |urls| && i <= |stack|
    && forall k :: 0 <= k < |stack| ==> BodyUpdated(bodies, bodies0, stack, urls, f, i, k)
  }

  lemma UpdatedStep(bodies: seq<string>, bodies0: seq<string>, stack: seq<PR>, urls: seq<string>,
                    f: (string, string) -> string, i: nat, updated: string)
    requires UpdatedUpTo(bodies, bodies0, stack, urls, f, i) && i < |stack|
    requires forall j, k :: 0 <= j < |stack| && 0 <= k < |stack| && stack[j] == stack[k] ==>
               bodies0[j] == bodies0[k] && urls[j] == urls[k]
    requires updated == f(urls[i], bodies[i])
    ensures UpdatedUpTo(Reassigned(bodies, stack, stack[i], updated), bodies0, stack, urls, f, i + 1)
  {
    var next := Reassigned(bodies, stack, stack[i], updated);
    var j := i + 1;
    assert BodyUpdated(bodies, bodies0, stack, urls, f, i, i);
    forall k | 0 <= k < |stack| ensures BodyUpdated(next, bodies0, stack, urls, f, j, k) {
      assert BodyUpdated(bodies, bodies0, stack, urls, f, i, k);
      BodyStep(bodies, bodies0, stack, urls, f, i, updated, k);
    }
  }

  lemma BodyStep(bodies: seq<string>, bodies0: seq<string>, stack: seq<PR>, urls: seq<string>,
                 f: (string, string) -> string, i: nat, updated: string, k: nat)
    requires |bodies| == |bodies0| == |stack| == |urls| && i < |stack| && k < |stack|
    requires BodyUpdated(bodies, bodies0, stack, urls, f, i, i) && BodyUpdated(bodies, bodies0, stack, urls, f, i, k)
    requires stack[k] == stack[i] ==> bodies0[k] == bodies0[i] && urls[k] == urls[i]
    requires updated == f(urls[i], bodies[i])
    ensures BodyUpdated(Reassigned(bodies, stack, stack[i], updated), bodies0, stack, urls, f, i + 1, k)
  {
    MultisetSnoc(stack, i);
    var c := multiset(stack[..i])[stack[k]];
    if stack[k] == stack[i] {
      assert multiset(stack[..i + 1])[stack[k]] == c + 1;
    } else {
      assert multiset(stack[..i + 1])[stack[k]] == c;
    }
  }

  lemma MultisetSnoc<T>(s: seq<T>, i: nat)
    requires i < |s|
    ensures multiset(s[..i + 1]) == multiset(s[..i]) + multiset{s[i]}
  {
    assert s[..i + 1] == s[..i] + [s[i]];
  }

  /**
   * `run_tests_on_branch`: without configured workflows nothing happens;
   * otherwise the workflows' badges are built, which fails when the
   * repository url cannot be read, and a given pull request gets them in its
   * description. The result says whether a description was updated.
   */
  method RunTestsOnBranch(workflows: seq<string>, branch: string, pr: PR?, repoView: string) returns (r: Result<bool>)
    modifies pr
    ensures workflows == [] ==> r == Ok(false)
    ensures workflows != [] ==> (r.Err? <==> RepoUrl(repoView).Err?)
    ensures r.Ok? && workflows != [] ==> (r.value <==> pr != null)
    ensures r == Ok(true) ==> pr != null
    ensures r == Ok(true) ==> pr.body == BadgesDescription(old(pr.body), BadgesFor(workflows, branch, RepoUrl(repoView).value))
    ensures pr != null && r != Ok(true) ==> pr.body == old(pr.body)
    ensures pr != null ==> pr.prId == old(pr.prId) && pr.prUrl == old(pr.prUrl) && pr.prStatus == old(pr.prStatus)
    ensures pr != null ==> pr.headBranch == old(pr.headBranch) && pr.title == old(pr.title) && pr.commits == old(pr.commits)
  {
    if workflows == [] {
      return Ok(false);
    }
    var badges := RunWorkflows(workflows, branch, repoView);
    if badges.Err? {
      return Err(badges.error);
    }
    if pr == null {
      return Ok(false);
    }
    assert badges.value == BadgesFor(workflows, branch, RepoUrl(repoView).value);
    var workflowString := WorkflowPrString(badges.value);
    var currentBody := pr.body;
    if Contains(currentBody, BadgesStart) && Contains(currentBody, BadgesEnd) {
      pr.body := SubDelimited(currentBody, BadgesStart, BadgesEnd, workflowString);
    } else {
      pr.body := currentBody + "\n" + workflowString;
    }
    return Ok(true);
  }
}
