/**
 * How `ghchain status` classifies and renders pull requests and workflow runs
 * (`ghchain/status.py`): parsing a line of `gh run list`, ANSI colouring of
 * review decisions and mergeability, the colour of a run's state and the
 * cells of a table row.
 */
module Status {
  import opened Common
  import opened Text
  import opened Dicts

  // ---------------------------------------------------------------------------
  // `WorkflowStatus.from_line`.

  datatype WorkflowStatus = WorkflowStatus(
    status: string,
    conclusion: string,
    name: string,
    branch: string,
    commit: string,
    event: string,
    id: string,
    elapsed: string,
    timestamp: string,
    workflowYmlFn: string)

  /** The nine tab-separated columns `gh run list` prints for a run. */
  function Fields(w: WorkflowStatus): seq<string> {
    [w.status, w.conclusion, w.name, w.branch, w.commit, w.event, w.id, w.elapsed, w.timestamp]
  }

  /** Unpacking `line.split("\t")` into nine names: any other number of fields raises `ValueError`. */
  function FromLine(line: string, workflowYmlFn: string): (r: Result<WorkflowStatus>)
    ensures r.Ok? <==> |Split(line, '\t')| == 9
    ensures r.Ok? ==> Fields(r.value) == Split(line, '\t') && r.value.workflowYmlFn == workflowYmlFn
  {
    var f := Split(line, '\t');
    if |f| != 9 then Err("ValueError: expected 9 fields")
    else Ok(WorkflowStatus(f[0], f[1], f[2], f[3], f[4], f[5], f[6], f[7], f[8], workflowYmlFn))
  }

  /** A line parses exactly when it holds eight tabs. */
  lemma FromLineTabs(line: string, workflowYmlFn: string)
    ensures FromLine(line, workflowYmlFn).Ok? <==> multiset(line)['\t'] == 8
  {
    SplitCount(line, '\t');
  }

  /** A parsed run prints back as the line it came from. */
  lemma FromLineJoin(line: string, workflowYmlFn: string)
    requires FromLine(line, workflowYmlFn).Ok?
    ensures Join(Fields(FromLine(line, workflowYmlFn).value), "\t") == line
  {
    JoinSplit(line, '\t');
  }

  /** A run whose columns hold no tab is read back from its printed line. */
  lemma FromLineOfFields(w: WorkflowStatus)
    requires forall i :: 0 <= i < 9 ==> '\t' !in Fields(w)[i]
    ensures FromLine(Join(Fields(w), "\t"), w.workflowYmlFn) == Ok(w)
  {
    SplitJoin(Fields(w), '\t');
  }

  // ---------------------------------------------------------------------------
  // ANSI colours.

  const Reset := "\U{1B}[0m"

  /** The colour table of `string_to_ansi_color`. */
  const Colors: map<string, string> := map[
    "black" := "\U{1B}[30m",
    "red" := "\U{1B}[31m",
    "green" := "\U{1B}[32m",
    "yellow" := "\U{1B}[33m",
    "blue" := "\U{1B}[34m",
    "magenta" := "\U{1B}[35m",
    "cyan" := "\U{1B}[36m",
    "white" := "\U{1B}[37m"]

  /** `string_to_ansi_color`: `s` between the colour's code and the reset code; an unknown colour raises `KeyError`. */
  function StringToAnsiColor(s: string, color: string): (r: Result<string>)
    ensures r.Err? <==> color !in Colors
  {
    if color in Colors then Ok(Colors[color] + s + Reset) else Err("KeyError: " + color)
  }

  /**
   * A coloured string is five characters of colour code, the text and the
   * four-character reset: the text comes back by cutting both off.
   */
  lemma AnsiUnwrap(s: string, color: string)
    requires color in Colors
    ensures var r := StringToAnsiColor(s, color).value;
            |r| == |s| + 9
            && r[..5] == Colors[color] && r[5..|r| - 4] == s && r[|r| - 4..] == Reset
            && r[0] == '\U{1B}'
  {
    var code := Colors[color];
    assert |code| == 5;
    var r := code + s + Reset;
    assert r[..5] == code;
    assert r[5..|r| - 4] == s;
    assert r[|r| - 4..] == Reset;
  }

  // ---------------------------------------------------------------------------
  // Review decisions and mergeability.

  datatype ReviewDecision = Approved | ChangesRequested | ReviewRequired | NoDecision
  {
    /** The `StrEnum` value, as `gh` reports it. */
    function Value(): string {
      match this
      case Approved => "APPROVED"
      case ChangesRequested => "CHANGES_REQUESTED"
      case ReviewRequired => "REVIEW_REQUIRED"
      case NoDecision => ""
    }

    /** `review_decision_colors`. */
    function Color(): string {
      match this
      case Approved => "green"
      case ChangesRequested => "yellow"
      case ReviewRequired => "red"
      case NoDecision => "black"
    }
  }

  /** `ReviewDecision(value)`: `None` where the enum raises `ValueError`. */
  function ParseReviewDecision(value: string): (r: Option<ReviewDecision>)
    ensures r.Some? ==> r.value.Value() == value
  {
    if value == "APPROVED" then Some(Approved)
    else if value == "CHANGES_REQUESTED" then Some(ChangesRequested)
    else if value == "REVIEW_REQUIRED" then Some(ReviewRequired)
    else if value == "" then Some(NoDecision)
    else None
  }

  /** The values tell the decisions apart: parsing a decision's value gives it back. */
  lemma ReviewDecisionRoundTrip(d: ReviewDecision)
    ensures ParseReviewDecision(d.Value()) == Some(d)
  {
  }

  /** `review_decision_to_ansi`: the value, coloured, except for the empty decision which stays as it is. */
  function ReviewDecisionToAnsi(d: ReviewDecision): (r: string)
    ensures d == NoDecision ==> r == ""
    ensures d != NoDecision ==> Ok(r) == StringToAnsiColor(d.Value(), d.Color())
  {
    if d == NoDecision then d.Value()
    else StringToAnsiColor(d.Value(), d.Color()).value
  }

  /** Approved is green, changes requested yellow, review required red. */
  lemma ReviewDecisionColors()
    ensures ReviewDecisionToAnsi(Approved) == "\U{1B}[32m" + "APPROVED" + Reset
    ensures ReviewDecisionToAnsi(ChangesRequested) == "\U{1B}[33m" + "CHANGES_REQUESTED" + Reset
    ensures ReviewDecisionToAnsi(ReviewRequired) == "\U{1B}[31m" + "REVIEW_REQUIRED" + Reset
  {
    ColorCode("green");
    ColorCode("yellow");
    ColorCode("red");
  }

  /** The codes of the colours review decisions use. */
  lemma ColorCode(color: string)
    requires color in {"green", "yellow", "red"}
    ensures color in Colors
    ensures color == "green" ==> Colors[color] == "\U{1B}[32m"
    ensures color == "yellow" ==> Colors[color] == "\U{1B}[33m"
    ensures color == "red" ==> Colors[color] == "\U{1B}[31m"
  {
  }

  datatype MergeableStatus = Mergeable | Conflicting | Unknown
  {
    function Value(): string {
      match this
      case Mergeable => "MERGEABLE"
      case Conflicting => "CONFLICTING"
      case Unknown => "UNKNOWN"
    }
  }

  /** `mergeable_status_to_ansi`: green when mergeable, red on conflicts, the plain value otherwise. */
  function MergeableStatusToAnsi(m: MergeableStatus): (r: string)
    ensures m == Unknown ==> r == "UNKNOWN"
    ensures m == Mergeable ==> Ok(r) == StringToAnsiColor(m.Value(), "green")
    ensures m == Conflicting ==> Ok(r) == StringToAnsiColor(m.Value(), "red")
  {
    if m == Mergeable then StringToAnsiColor(m.Value(), "green").value
    else if m == Conflicting then StringToAnsiColor(m.Value(), "red").value
    else m.Value()
  }

  /** Only the unknown state is left uncoloured; the other two start with an escape. */
  lemma MergeableStatusColored(m: MergeableStatus)
    ensures MergeableStatusToAnsi(m) == m.Value() <==> m == Unknown
  {
    if m != Unknown {
      AnsiUnwrap(m.Value(), if m == Mergeable then "green" else "red");
      assert MergeableStatusToAnsi(m)[0] != m.Value()[0];
    }
  }

  // ---------------------------------------------------------------------------
  // `StatusRow`.

  /** `StatusRow.status2color`: the colour of a run from its status and conclusion, ignoring case. */
  function Status2Color(status: string, conclusion: string): (r: string)
    ensures r == "bright_green" || r == "yellow" || r == "bright_red"
    ensures r == "bright_green" <==> Lower(conclusion) == "success"
    ensures r == "yellow"
        <==> (Lower(conclusion) != "success" && (Lower(status) in ["queued", "in_progress"] || Lower(conclusion) == "neutral"))
  {
    var s := Lower(status);
    var c := Lower(conclusion);
    if c == "success" then "bright_green"
    else if s in ["queued", "in_progress"] || c == "neutral" then "yellow"
    else "bright_red"
  }

  lemma LowerIdempotent(s: string)
    ensures Lower(Lower(s)) == Lower(s)
  {
  }

  /** The colour does not depend on case. */
  lemma Status2ColorIgnoresCase(status: string, conclusion: string)
    ensures Status2Color(Lower(status), Lower(conclusion)) == Status2Color(status, conclusion)
  {
    LowerIdempotent(status);
    LowerIdempotent(conclusion);
  }

  /**
   * The conclusions GitHub reports are upper-case (`StatusCheckConclusion`):
   * `SUCCESS` is green whatever the status, and `FAILURE` is red unless the
   * run is queued or in progress.
   */
  lemma Status2ColorOfCheck(status: string)
    ensures Status2Color(status, "SUCCESS") == "bright_green"
    ensures Lower(status) !in ["queued", "in_progress"] ==> Status2Color(status, "FAILURE") == "bright_red"
    ensures Lower(status) in ["queued", "in_progress"] ==> Status2Color(status, "FAILURE") == "yellow"
  {
    assert Lower("SUCCESS") == "success";
    assert Lower("FAILURE") == "failure";
  }

  datatype StatusRow = StatusRow(
    branch: string,
    prId: int,
    reviewDecision: Option<string>,
    isDraft: bool,
    workflowStatus: string,
    statusChecks: string,
    title: string)

  /** Python's `str(b)`. */
  function BoolToString(b: bool): string {
    if b then "True" else "False"
  }

  /** `f"{x}"` for an optional string: `None` prints as `None`. */
  function OptionToString(x: Option<string>): string {
    match x
    case None => "None"
    case Some(s) => s
  }

  function ReviewColor(row: StatusRow): string {
    if row.reviewDecision == Some("APPROVED") then "bright_green" else "default"
  }

  /** `StatusRow.to_row`: the six cells of the status table. */
  function ToRow(row: StatusRow): (r: seq<string>)
    ensures |r| == 6
  {
    [ "[bold gray]" + row.branch + "[/]\n\t" + row.title,
      IntToString(row.prId),
      "[bold " + ReviewColor(row) + "]" + OptionToString(row.reviewDecision) + "[/]",
      BoolToString(row.isDraft),
      row.workflowStatus,
      row.statusChecks ]
  }

  /**
   * The id cell reads back as the id, the draft cell as the flag, the review
   * cell is bright green exactly for an approved pull request, and the two
   * status columns are copied.
   */
  lemma ToRowCells(row: StatusRow)
    ensures ParseInt(ToRow(row)[1]) == Some(row.prId)
    ensures ToRow(row)[3] == "True" <==> row.isDraft
    ensures "[bold bright_green]" <= ToRow(row)[2] <==> row.reviewDecision == Some("APPROVED")
    ensures ToRow(row)[4] == row.workflowStatus && ToRow(row)[5] == row.statusChecks
    ensures ToRow(row)[0] == "[bold gray]" + row.branch + "[/]" + "\n\t" + row.title
    ensures ToRow(row)[2] == "[bold " + (if row.reviewDecision == Some("APPROVED") then "bright_green" else "default") + "]"
                             + (if row.reviewDecision.None? then "None" else row.reviewDecision.value) + "[/]"
  {
    ParseIntOfString(row.prId);
    ReviewCellGreen(row);
  }

  lemma ReviewCellGreen(row: StatusRow)
    ensures "[bold bright_green]" <= ToRow(row)[2] <==> row.reviewDecision == Some("APPROVED")
  {
    var cell := ToRow(row)[2];
    var head := "[bold " + ReviewColor(row) + "]";
    var tail := OptionToString(row.reviewDecision) + "[/]";
    assert cell == head + tail;
    if row.reviewDecision == Some("APPROVED") {
      PrefixOfConcat(head, tail);
      assert head == "[bold bright_green]";
    } else {
      assert cell[6] == 'd';
    }
  }

  // ---------------------------------------------------------------------------
  // `PrStatus.to_dict`.

  datatype PrStatus = PrStatus(
    branchname: string,
    prId: int,
    reviewDecision: ReviewDecision,
    isDraft: bool,
    isMergeable: MergeableStatus,
    title: string)

  /** The JSON-like values `to_dict` produces. */
  datatype Value = Str(s: string) | Int(i: int) | Bool(b: bool)

  /** `PrStatus.to_dict`: six entries, the enums by their values; the status checks are not exported. */
  function ToDict(p: PrStatus): (r: Dict<Value>)
    ensures r.Valid()
  {
    Dict(["branchname", "pr_id", "review_decision", "is_draft", "is_mergeable", "title"],
         map[
           "branchname" := Str(p.branchname),
           "pr_id" := Int(p.prId),
           "review_decision" := Str(p.reviewDecision.Value()),
           "is_draft" := Bool(p.isDraft),
           "is_mergeable" := Str(p.isMergeable.Value()),
           "title" := Str(p.title)])
  }

  /** The dict has exactly the six keys, in order, without `status_checks`, and each value is the field's. */
  lemma ToDictEntries(p: PrStatus)
    ensures ToDict(p).keys == ["branchname", "pr_id", "review_decision", "is_draft", "is_mergeable", "title"]
    ensures "status_checks" !in ToDict(p).entries
    ensures ToDict(p).entries["pr_id"] == Int(p.prId)
    ensures ToDict(p).entries["review_decision"] == Str(p.reviewDecision.Value())
    ensures ToDict(p).entries["is_mergeable"] == Str(p.isMergeable.Value())
    ensures ToDict(p).entries["branchname"] == Str(p.branchname) && ToDict(p).entries["title"] == Str(p.title)
    ensures ToDict(p).entries["is_draft"] == Bool(p.isDraft)
  {
  }
}
