/**
 * The text processing in `git_utils.py`: cleaning `git branch` listings,
 * parsing `git log --format='%H %s'`, reading the refs a rebase updated,
 * naming new branches, and ordering the branches of a stack by how many of
 * its commits they contain. The text git prints is a parameter throughout.
 */
module GitUtils {
  import opened Common
  import opened Seqs
  import opened Text
  import opened Dicts
  import opened Commits

  // ---------------------------------------------------------------------------
  // Branch listings (`git branch`, `git branch --contains <sha>`).

  /** One listed branch: every `*` removed, then surrounding whitespace stripped. */
  function CleanBranchLine(line: string): (r: string)
    ensures '*' !in r
    ensures Strip(r) == r
  {
    var noStar := ReplaceAll(line, "*", "");
    RemoveCharDrops(line, '*');
    StripChars(noStar);
    StripIdempotent(noStar);
    Strip(noStar)
  }

  function CleanAll(lines: seq<string>): (r: seq<string>)
    ensures |r| == |lines| && forall i :: 0 <= i < |r| ==> r[i] == CleanBranchLine(lines[i])
  {
    seq(|lines|, i requires 0 <= i < |lines| => CleanBranchLine(lines[i]))
  }

  /** `get_all_branches`: every line of the listing, cleaned. */
  function GetAllBranches(stdout: string): (r: seq<string>)
    ensures |r| == |SplitLines(stdout)|
    ensures forall i :: 0 <= i < |r| ==> '*' !in r[i] && Strip(r[i]) == r[i]
  {
    CleanAll(SplitLines(stdout))
  }

  predicate NonEmpty(line: string) {
    line != ""
  }

  /**
   * `find_branches_with_commit`: the `'\n'`-separated lines that are not
   * empty as printed, cleaned. A line of blanks is kept and cleans to `""`.
   */
  function FindBranchesWithCommit(stdout: string): (r: seq<string>)
    ensures |r| == |Filter(NonEmpty, Split(stdout, '\n'))|
    ensures forall i :: 0 <= i < |r| ==> '*' !in r[i] && Strip(r[i]) == r[i]
  {
    CleanAll(Filter(NonEmpty, Split(stdout, '\n')))
  }

  /** A branch name as git prints it: non-empty, no `*`, no line break, no surrounding blanks. */
  predicate PlainBranchName(name: string) {
    name != [] && '*' !in name && NoLineBreak(name) && !IsSpace(name[0]) && !IsSpace(Last(name))
  }

  /** How `git branch` prints a branch: `* ` marks the checked-out one, two blanks the others. */
  function ListingLine(name: string, current: string): string {
    (if name == current then "* " else "  ") + name
  }

  /** The output of `git branch` for the given branches, one line each. */
  function Listing(names: seq<string>, current: string): string
    decreases |names|
  {
    if names == [] then "" else ListingLine(names[0], current) + "\n" + Listing(names[1..], current)
  }

  /** Cleaning a listed line gives back the branch name. */
  lemma CleanListingLine(name: string, current: string)
    requires PlainBranchName(name)
    ensures CleanBranchLine(ListingLine(name, current)) == name
  {
    var line := ListingLine(name, current);
    NotContainsWithoutFirst(name, "*");
    ReplaceAbsent(name, "*", "");
    var rest := " " + name;
    assert ReplaceAll(rest, "*", "") == rest by {
      assert rest[..1] != "*";
      assert rest[1..] == name;
    }
    var pad := if name == current then " " else "  ";
    assert ReplaceAll(line, "*", "") == pad + name by {
      assert line[1..] == rest;
      if name == current {
        assert line[..1] == "*";
      } else {
        assert line[..1] != "*";
      }
    }
    StripPadded(pad, name);
  }

  /** `get_all_branches` gives back the branches of a listing, in order. */
  lemma {:induction false} GetAllBranchesOfListing(names: seq<string>, current: string)
    requires forall i :: 0 <= i < |names| ==> PlainBranchName(names[i])
    ensures GetAllBranches(Listing(names, current)) == names
    decreases |names|
  {
    if names != [] {
      var line := ListingLine(names[0], current);
      assert NoLineBreak(line) by {
        assert line == (if names[0] == current then "* " else "  ") + names[0];
      }
      var rest := Listing(names[1..], current);
      assert Listing(names, current) == line + "\n" + rest;
      SplitLinesCons(line, rest);
      CleanAllCons(line, SplitLines(rest));
      GetAllBranchesOfListing(names[1..], current);
      CleanListingLine(names[0], current);
      assert names == [names[0]] + names[1..];
    }
  }

  lemma CleanAllCons(line: string, lines: seq<string>)
    ensures CleanAll([line] + lines) == [CleanBranchLine(line)] + CleanAll(lines)
  {
  }

  /** The non-empty pieces of a listing are its lines. */
  lemma ListingPieces(names: seq<string>, current: string)
    requires names != [] && PlainBranchName(names[0])
    ensures Filter(NonEmpty, Split(Listing(names, current), '\n'))
         == [ListingLine(names[0], current)] + Filter(NonEmpty, Split(Listing(names[1..], current), '\n'))
  {
    var line := ListingLine(names[0], current);
    var rest := Listing(names[1..], current);
    assert '\n' !in line by {
      assert line == (if names[0] == current then "* " else "  ") + names[0];
      assert forall i :: 0 <= i < |names[0]| ==> !IsLineBreak(names[0][i]);
    }
    SplitAround(line, '\n', rest);
    SplitNoSeparator(line, '\n');
    var tail := Split(rest, '\n');
    FilterConcat(NonEmpty, [line], tail);
    assert Filter(NonEmpty, [line]) == [line];
  }

  /** `find_branches_with_commit` gives back the branches of a listing, in order. */
  lemma {:induction false} FindBranchesOfListing(names: seq<string>, current: string)
    requires forall i :: 0 <= i < |names| ==> PlainBranchName(names[i])
    ensures FindBranchesWithCommit(Listing(names, current)) == names
    decreases |names|
  {
    if names == [] {
      assert Split("", '\n') == [""];
      assert Filter(NonEmpty, [""]) == [];
    } else {
      var line := ListingLine(names[0], current);
      ListingPieces(names, current);
      FindBranchesOfListing(names[1..], current);
      CleanListingLine(names[0], current);
      CleanAllCons(line, Filter(NonEmpty, Split(Listing(names[1..], current), '\n')));
    }
  }

  // ---------------------------------------------------------------------------
  // `git log --format='%H %s'` (`get_commits_not_in_base_branch`).

  /** `line.split(" ", 1)`: the text before the first blank and the rest, or the whole line. */
  function SplitOnce(line: string): (r: seq<string>)
    ensures 1 <= |r| <= 2
    ensures |r| == 1 <==> ' ' !in line
    ensures |r| == 1 ==> r[0] == line
    ensures |r| == 2 ==> ' ' !in r[0] && line == r[0] + " " + r[1]
  {
    match Find(line, " ")
    case None =>
      assert forall i | 0 <= i < |line| :: line[i] != ' ' by {
        forall i | 0 <= i < |line| ensures line[i] != ' ' {
          assert !OccursAt(line, " ", i);
          assert line[i..i + 1] == [line[i]];
        }
      }
      [line]
    case Some(i) =>
      assert line[i..i + 1] == " ";
      assert ' ' !in line[..i] by {
        forall k | 0 <= k < i ensures line[k] != ' ' {
          assert !OccursAt(line, " ", k);
          assert line[k..k + 1] == [line[k]];
        }
      }
      assert line == line[..i] + " " + line[i + 1..];
      [line[..i], line[i + 1..]]
  }

  /** The blank after the sha separates it from the subject. */
  lemma SplitOnceOfLine(sha: string, subject: string)
    requires ' ' !in sha
    ensures SplitOnce(sha + " " + subject) == [sha, subject]
  {
    var line := sha + " " + subject;
    assert line[|sha|..|sha| + 1] == " ";
    forall k | 0 <= k < |sha| ensures !OccursAt(line, " ", k) {
      assert line[k..k + 1] == [sha[k]];
    }
    FindIs(line, " ", |sha|);
    assert line[..|sha|] == sha;
    assert line[|sha| + 1..] == subject;
  }

  /**
   * The comprehension over the log lines: with `ignoreFixup`, reading the
   * subject of a line without a blank raises `IndexError`, and lines whose
   * subject starts with `fixup!` are dropped.
   */
  function ParseLines(lines: seq<string>, ignoreFixup: bool): (r: Result<seq<seq<string>>>)
    ensures r.Ok? ==> forall e :: e in r.value ==> 1 <= |e| <= 2 && (ignoreFixup ==> |e| == 2)
    decreases |lines|
  {
    if lines == [] then Ok([])
    else
      var parts := SplitOnce(lines[0]);
      var rest := ParseLines(lines[1..], ignoreFixup);
      if ignoreFixup && |parts| == 1 then Err("IndexError: list index out of range")
      else if rest.Err? then rest
      else if ignoreFixup && "fixup!" <= parts[1] then rest
      else Ok([parts] + rest.value)
  }

  /** Parsing fails exactly when fix-ups are skipped and some line has no blank. */
  lemma {:induction false} ParseLinesErr(lines: seq<string>, ignoreFixup: bool)
    ensures ParseLines(lines, ignoreFixup).Err? <==> ignoreFixup && exists i :: 0 <= i < |lines| && ' ' !in lines[i]
    decreases |lines|
  {
    if lines != [] {
      var rest := lines[1..];
      ParseLinesErr(rest, ignoreFixup);
      var parts := SplitOnce(lines[0]);
      if ignoreFixup && ' ' !in lines[0] {
        assert |parts| == 1;
        assert ParseLines(lines, ignoreFixup).Err?;
      } else if ParseLines(rest, ignoreFixup).Err? {
        var i :| 0 <= i < |rest| && ' ' !in rest[i];
        assert ' ' !in lines[i + 1];
        assert ParseLines(lines, ignoreFixup).Err?;
      } else {
        assert ParseLines(lines, ignoreFixup).Ok?;
        if ignoreFixup {
          forall i | 0 <= i < |lines| ensures ' ' in lines[i] {
            if i > 0 {
              assert lines[i] == rest[i - 1];
            }
          }
        }
      }
    }
  }

  /** `get_commits_not_in_base_branch` before `only_sha`: the entries of the log's lines. */
  function ParseLog(stdout: string, ignoreFixup: bool): Result<seq<seq<string>>> {
    ParseLines(SplitLines(stdout), ignoreFixup)
  }

  /** `only_sha=True`: the first component of every entry. */
  function OnlySha(entries: seq<seq<string>>): (r: seq<string>)
    requires forall i :: 0 <= i < |entries| ==> |entries[i]| >= 1
    ensures |r| == |entries| && forall i :: 0 <= i < |r| ==> r[i] == entries[i][0]
  {
    seq(|entries|, i requires 0 <= i < |entries| => entries[i][0])
  }

  /** A commit as `git log --format='%H %s'` prints it: the sha has no blank, neither part a line break. */
  predicate LogCommit(c: (string, string)) {
    ' ' !in c.0 && NoLineBreak(c.0) && NoLineBreak(c.1)
  }

  function LogLine(c: (string, string)): string {
    c.0 + " " + c.1
  }

  /** The log text for the given (sha, subject) pairs, oldest first. */
  function LogText(cs: seq<(string, string)>): string
    decreases |cs|
  {
    if cs == [] then "" else LogLine(cs[0]) + "\n" + LogText(cs[1..])
  }

  predicate NotFixupSubject(c: (string, string)) {
    !("fixup!" <= c.1)
  }

  function Entries(cs: seq<(string, string)>): (r: seq<seq<string>>)
    ensures |r| == |cs| && forall i :: 0 <= i < |cs| ==> r[i] == [cs[i].0, cs[i].1]
  {
    seq(|cs|, i requires 0 <= i < |cs| => [cs[i].0, cs[i].1])
  }

  /**
   * Parsing a log gives back its commits as [sha, subject] entries, in order;
   * with `ignoreFixup` exactly those whose subject starts with `fixup!` are left out.
   */
  lemma {:induction false} ParseLogOfLog(cs: seq<(string, string)>, ignoreFixup: bool)
    requires forall i :: 0 <= i < |cs| ==> LogCommit(cs[i])
    ensures ParseLog(LogText(cs), ignoreFixup)
         == Ok(Entries(if ignoreFixup then Filter(NotFixupSubject, cs) else cs))
    decreases |cs|
  {
    if cs != [] {
      var line := LogLine(cs[0]);
      assert NoLineBreak(line) by {
        assert forall i :: 0 <= i < |line| ==> line[i] == ' ' || line[i] in cs[0].0 || line[i] in cs[0].1;
      }
      SplitLinesCons(line, LogText(cs[1..]));
      SplitOnceOfLine(cs[0].0, cs[0].1);
      ParseLogOfLog(cs[1..], ignoreFixup);
      var lines := SplitLines(LogText(cs));
      assert lines[0] == line;
      assert lines[1..] == SplitLines(LogText(cs[1..]));
      var kept := if ignoreFixup then Filter(NotFixupSubject, cs[1..]) else cs[1..];
      assert ParseLines(lines[1..], ignoreFixup) == Ok(Entries(kept));
      EntriesCons(cs[0], kept);
      assert SplitOnce(lines[0]) == [cs[0].0, cs[0].1];
      assert lines != [];
      if !ignoreFixup {
        assert cs == [cs[0]] + cs[1..];
        assert ParseLines(lines, false) == Ok([[cs[0].0, cs[0].1]] + Entries(kept));
      } else {
        assert Filter(NotFixupSubject, cs) == (if NotFixupSubject(cs[0]) then [cs[0]] else []) + kept;
        if NotFixupSubject(cs[0]) {
          assert Filter(NotFixupSubject, cs) == [cs[0]] + kept;
        } else {
          assert Filter(NotFixupSubject, cs) == kept;
        }
      }
    } else {
      assert SplitLines(LogText(cs)) == [];
      assert Entries([]) == [];
    }
  }

  lemma EntriesCons(c: (string, string), cs: seq<(string, string)>)
    ensures Entries([c] + cs) == [[c.0, c.1]] + Entries(cs)
  {
  }

  /** How the parser treats one line `<sha> <subject>`. */
  lemma ParseOneLine(sha: string, subject: string, ignoreFixup: bool)
    requires ' ' !in sha
    ensures ParseLines([sha + " " + subject], ignoreFixup)
         == if ignoreFixup && "fixup!" <= subject then Ok([]) else Ok([[sha, subject]])
  {
    var lines := [sha + " " + subject];
    SplitOnceOfLine(sha, subject);
    assert lines[1..] == [];
    assert ParseLines(lines[1..], ignoreFixup) == Ok([]);
    assert [[sha, subject]] + [] == [[sha, subject]];
  }

  /** Every line the parser drops belongs to a fix-up commit. */
  lemma DroppedIsFixup(sha: string, subject: string)
    requires ' ' !in sha
    requires ParseLines([sha + " " + subject], true) == Ok([])
    ensures IsFixup(Commit(sha, subject, None, None))
  {
    ParseOneLine(sha, subject, true);
  }

  /** Not conversely: a `squash!` commit is a fix-up commit that the parser keeps. */
  lemma SquashIsKept()
    ensures IsFixup(Commit("0a1b", "squash! tidy", None, None))
    ensures ParseLines(["0a1b squash! tidy"], true) == Ok([["0a1b", "squash! tidy"]])
  {
    assert "0a1b squash! tidy" == "0a1b" + " " + "squash! tidy";
    assert ' ' !in "0a1b";
    ParseOneLine("0a1b", "squash! tidy", true);
    assert "squash! tidy"[0] != "fixup!"[0];
  }

  // ---------------------------------------------------------------------------
  // The refs `git rebase --update-refs` reports (`rebase_onto_branch`).

  const RefsPrefix := "refs/heads/"

  predicate UpdatedRefLine(line: string) {
    Strip(line) != "" && Contains(line, RefsPrefix) && !Contains(line, "Successfully rebased")
  }

  function BranchOfRefLine(line: string): string {
    ReplaceAll(Strip(line), RefsPrefix, "")
  }

  /**
   * The branches to push after a rebase: the non-blank lines of the rebase's
   * error stream that name a ref and are not the success message, stripped,
   * with every `refs/heads/` removed.
   */
  function RebaseBranches(stderr: string): (r: seq<string>)
    ensures |r| == |Filter(UpdatedRefLine, Split(stderr, '\n'))|
  {
    var kept := Filter(UpdatedRefLine, Split(stderr, '\n'));
    seq(|kept|, i requires 0 <= i < |kept| => BranchOfRefLine(kept[i]))
  }

  /** Text made of the given lines, each ended by `'\n'`. */
  function JoinLines(lines: seq<string>): string
    decreases |lines|
  {
    if lines == [] then "" else lines[0] + "\n" + JoinLines(lines[1..])
  }

  lemma {:induction false} SplitJoinLines(lines: seq<string>)
    requires forall i :: 0 <= i < |lines| ==> '\n' !in lines[i]
    ensures Split(JoinLines(lines), '\n') == lines + [""]
    decreases |lines|
  {
    if lines != [] {
      SplitJoinLines(lines[1..]);
      SplitAround(lines[0], '\n', JoinLines(lines[1..]));
      SplitNoSeparator(lines[0], '\n');
      assert lines == [lines[0]] + lines[1..];
    }
  }

  /** A branch name that a ref line reports intact. */
  predicate RefBranchName(b: string) {
    PlainBranchName(b) && !Contains(b, RefsPrefix) && !Contains(b, "Successfully rebased")
  }

  /** How the rebase lists one updated branch. */
  function RefLine(b: string): string {
    "\t" + RefsPrefix + b
  }

  function RefLines(bs: seq<string>): (r: seq<string>)
    ensures |r| == |bs| && forall i :: 0 <= i < |bs| ==> r[i] == RefLine(bs[i])
  {
    seq(|bs|, i requires 0 <= i < |bs| => RefLine(bs[i]))
  }

  lemma RefLineStrip(b: string)
    requires PlainBranchName(b)
    ensures Strip(RefLine(b)) == RefsPrefix + b
  {
    var x := RefsPrefix + b;
    assert RefLine(b) == "\t" + x;
    assert Last(x) == Last(b);
    StripPadded("\t", x);
  }

  lemma RefLineNames(b: string)
    requires !Contains(b, "Successfully rebased")
    ensures Contains(RefLine(b), RefsPrefix)
    ensures !Contains(RefLine(b), "Successfully rebased")
  {
    var line := RefLine(b);
    assert line[1..1 + |RefsPrefix|] == RefsPrefix;
    ContainsAt(line, RefsPrefix, 1);
    assert line == ("\t" + RefsPrefix) + b;
    NotContainsAfterPrefix("\t" + RefsPrefix, b, "Successfully rebased");
  }

  lemma RemoveRefsPrefix(b: string)
    requires !Contains(b, RefsPrefix)
    ensures ReplaceAll(RefsPrefix + b, RefsPrefix, "") == b
  {
    var x := RefsPrefix + b;
    assert x[..|RefsPrefix|] == RefsPrefix && x[|RefsPrefix|..] == b;
    ReplaceAbsent(b, RefsPrefix, "");
  }

  lemma RefLineKept(b: string)
    requires RefBranchName(b)
    ensures '\n' !in RefLine(b)
    ensures UpdatedRefLine(RefLine(b))
    ensures BranchOfRefLine(RefLine(b)) == b
  {
    RefLineOneLine(b);
    RefLineStrip(b);
    RefLineNames(b);
    RemoveRefsPrefix(b);
    assert |RefsPrefix + b| > 0;
  }

  lemma RefLineOneLine(b: string)
    requires PlainBranchName(b)
    ensures '\n' !in RefLine(b)
  {
    assert '\n' !in b by {
      assert forall i :: 0 <= i < |b| ==> !IsLineBreak(b[i]);
    }
    assert '\n' !in "\t" + RefsPrefix;
    assert RefLine(b) == ("\t" + RefsPrefix) + b;
  }

  /** The success message names a ref but is not a branch to push. */
  lemma SuccessLineDropped(dev: string)
    ensures !UpdatedRefLine("Successfully rebased and updated " + RefsPrefix + dev + ".")
  {
    var line := "Successfully rebased and updated " + RefsPrefix + dev + ".";
    assert line[..|"Successfully rebased"|] == "Successfully rebased";
    ContainsAt(line, "Successfully rebased", 0);
  }

  /**
   * The branches read from a rebase report are the branches of its ref lines,
   * in order; lines that are not ref lines (the success message, headings)
   * contribute nothing.
   */
  lemma RebaseBranchesOfReport(headers: seq<string>, bs: seq<string>)
    requires forall i :: 0 <= i < |headers| ==> '\n' !in headers[i] && !UpdatedRefLine(headers[i])
    requires forall i :: 0 <= i < |bs| ==> RefBranchName(bs[i])
    ensures RebaseBranches(JoinLines(headers + RefLines(bs))) == bs
  {
    var refs := RefLines(bs);
    KeptRefLines(headers, bs);
    var r := RebaseBranches(JoinLines(headers + refs));
    forall i | 0 <= i < |bs| ensures r[i] == bs[i] {
      RefLineKept(bs[i]);
    }
  }

  lemma KeptRefLines(headers: seq<string>, bs: seq<string>)
    requires forall i :: 0 <= i < |headers| ==> '\n' !in headers[i] && !UpdatedRefLine(headers[i])
    requires forall i :: 0 <= i < |bs| ==> RefBranchName(bs[i])
    ensures Filter(UpdatedRefLine, Split(JoinLines(headers + RefLines(bs)), '\n')) == RefLines(bs)
  {
    var refs := RefLines(bs);
    RefLinesKept(bs);
    var lines := headers + refs;
    assert forall i :: 0 <= i < |lines| ==> '\n' !in lines[i] by {
      forall i | 0 <= i < |lines| ensures '\n' !in lines[i] {
        if i >= |headers| {
          assert lines[i] == refs[i - |headers|];
        }
      }
    }
    SplitJoinLines(lines);
    EmptyLineDropped();
    FilterMiddle(UpdatedRefLine, headers, refs, [""]);
  }

  lemma RefLinesKept(bs: seq<string>)
    requires forall i :: 0 <= i < |bs| ==> RefBranchName(bs[i])
    ensures forall i :: 0 <= i < |RefLines(bs)| ==> '\n' !in RefLines(bs)[i] && UpdatedRefLine(RefLines(bs)[i])
  {
    var refs := RefLines(bs);
    forall i | 0 <= i < |refs| ensures '\n' !in refs[i] && UpdatedRefLine(refs[i]) {
      RefLineKept(bs[i]);
    }
  }

  /** The empty line after the last line break is not a ref line. */
  lemma EmptyLineDropped()
    ensures Filter(UpdatedRefLine, [""]) == []
  {
    assert Strip("") == "";
  }

  // ---------------------------------------------------------------------------
  // Branch names (`create_branch_name`).

  function Prepend(s: string, r: Result<string>): Result<string> {
    match r
    case Ok(v) => Ok(s + v)
    case Err(e) => Err(e)
  }

  /**
   * `template.format(git_config_author=author, pr_id=prId)` for templates whose
   * replacement fields are plain names: `{{` and `}}` stand for single braces and
   * `{git_config_author}` and `{pr_id}` for the two arguments. Any other field
   * is an error (`KeyError` for a name, `IndexError` for a position), and so
   * are a lone `}` and a `{` that is never closed (`ValueError`).
   */
  function Format(template: string, author: string, prId: string): Result<string>
    decreases |template|
  {
    if template == "" then Ok("")
    else if |template| >= 2 && template[0] == template[1] == '{' then
      Prepend("{", Format(template[2..], author, prId))
    else if |template| >= 2 && template[0] == template[1] == '}' then
      Prepend("}", Format(template[2..], author, prId))
    else if template[0] == '}' then Err("ValueError: Single '}' encountered in format string")
    else if template[0] == '{' then
      match Find(template, "}")
      case None => Err("ValueError: expected '}' before end of string")
      case Some(k) =>
        assert template[k] == template[k..k + 1][0] == '}';
        var field := template[1..k];
        var rest := template[k + 1..];
        if field == AuthorName then Prepend(author, Format(rest, author, prId))
        else if field == PrIdName then Prepend(prId, Format(rest, author, prId))
        else Err("KeyError: " + field)
    else Prepend([template[0]], Format(template[1..], author, prId))
  }

  /** The author part of a branch name: the git user name with blanks as `_`, lower-cased. */
  function Author(userName: string): (r: string)
    ensures |r| == |userName|
    ensures forall i :: 0 <= i < |r| ==> r[i] == if userName[i] == ' ' then '_' else LowerChar(userName[i])
    ensures ' ' !in r
    ensures forall i :: 0 <= i < |r| ==> !('A' <= r[i] <= 'Z')
  {
    ReplaceCharMaps(userName, ' ', '_');
    Lower(ReplaceAll(userName, " ", "_"))
  }

  /**
   * `create_branch_name`: the configured template filled with the author
   * derived from `git config user.name` and the next pull-request id.
   */
  function CreateBranchName(template: string, nextPrId: int, userName: string): Result<string> {
    Format(template, Author(userName), IntToString(nextPrId))
  }

  predicate BraceFree(s: string) {
    '{' !in s && '}' !in s
  }

  /** Text without braces is copied as it is. */
  lemma {:induction false} FormatLiteral(a: string, t: string, author: string, prId: string)
    requires BraceFree(a)
    ensures Format(a + t, author, prId) == Prepend(a, Format(t, author, prId))
    decreases |a|
  {
    if a == [] {
      assert a + t == t;
      match Format(t, author, prId)
      case Ok(v) => assert "" + v == v;
      case Err(_) =>
    } else {
      var s := a + t;
      assert s[0] == a[0] && s[1..] == a[1..] + t;
      FormatLiteral(a[1..], t, author, prId);
      match Format(t, author, prId)
      case Ok(v) => assert [a[0]] + (a[1..] + v) == a + v;
      case Err(_) =>
    }
  }

  /** A replacement field `{name}` becomes `value`. */
  lemma FormatField(name: string, t: string, author: string, prId: string)
    requires name == AuthorName || name == PrIdName
    ensures Format("{" + name + "}" + t, author, prId)
         == Prepend(if name == PrIdName then prId else author, Format(t, author, prId))
  {
    var u := "{" + name;
    var s := "{" + name + "}" + t;
    assert s == u + ("}" + t);
    assert '}' !in u;
    NotContainsWithoutFirst(u, "}");
    FindAfterClean(u, "}" + t, "}");
    assert s[1..|u|] == name;
    assert s[|u| + 1..] == t;
  }

  /** The two replacement fields a branch-name template may use. */
  const AuthorName := "git_config_author"
  const PrIdName := "pr_id"
  const AuthorField := "{" + AuthorName + "}"
  const PrIdField := "{" + PrIdName + "}"

  /** The default `branch_name_template` of the configuration. */
  const DefaultTemplate := AuthorField + "-" + PrIdField

  /** A template with both fields is filled in place, the text around them kept. */
  lemma FormatBothFields(a: string, b: string, c: string, author: string, prId: string)
    requires BraceFree(a) && BraceFree(b) && BraceFree(c)
    ensures Format(a + AuthorField + b + PrIdField + c, author, prId) == Ok(a + author + b + prId + c)
  {
    var t := b + PrIdField + c;
    FormatPrIdAfter(b, c, author, prId);
    FormatAuthorAfter(a, t, b + prId + c, author, prId);
    ConcatAssoc(a + AuthorField + b, PrIdField, c);
    ConcatAssoc(a + AuthorField, b, PrIdField);
    ConcatAssoc(a + AuthorField, b + PrIdField, c);
    ConcatAssoc(b, PrIdField, c);
    ConcatAssoc(a + author, b + prId, c);
    ConcatAssoc(a + author, b, prId);
    ConcatAssoc(a, author, b + prId + c);
    ConcatAssoc(b, prId, c);
    ConcatAssoc(a + author, b, prId);
  }

  lemma FormatPrIdAfter(b: string, c: string, author: string, prId: string)
    requires BraceFree(b) && BraceFree(c)
    ensures Format(b + PrIdField + c, author, prId) == Ok(b + prId + c)
  {
    FormatLiteralThen(c, "", "", author, prId);
    ConcatEmpty(c);
    FormatPrIdThen(c, c, author, prId);
    FormatLiteralThen(b, PrIdField + c, prId + c, author, prId);
    ConcatAssoc(b, PrIdField, c);
    ConcatAssoc(b, prId, c);
  }

  lemma FormatAuthorAfter(a: string, t: string, v: string, author: string, prId: string)
    requires BraceFree(a) && Format(t, author, prId) == Ok(v)
    ensures Format(a + AuthorField + t, author, prId) == Ok(a + author + v)
  {
    FormatAuthorThen(t, v, author, prId);
    FormatLiteralThen(a, AuthorField + t, author + v, author, prId);
    ConcatAssoc(a, AuthorField, t);
    ConcatAssoc(a, author, v);
  }

  lemma FormatLiteralThen(a: string, t: string, v: string, author: string, prId: string)
    requires BraceFree(a) && Format(t, author, prId) == Ok(v)
    ensures Format(a + t, author, prId) == Ok(a + v)
  {
    FormatLiteral(a, t, author, prId);
  }

  lemma FormatPrIdThen(t: string, v: string, author: string, prId: string)
    requires Format(t, author, prId) == Ok(v)
    ensures Format(PrIdField + t, author, prId) == Ok(prId + v)
  {
    FormatField(PrIdName, t, author, prId);
  }

  lemma FormatAuthorThen(t: string, v: string, author: string, prId: string)
    requires Format(t, author, prId) == Ok(v)
    ensures Format(AuthorField + t, author, prId) == Ok(author + v)
  {
    assert AuthorName != PrIdName by {
      assert |AuthorName| != |PrIdName|;
    }
    FormatField(AuthorName, t, author, prId);
  }

  /** With the default template `{git_config_author}-{pr_id}` the name is `<author>-<id>`. */
  lemma DefaultBranchName(nextPrId: int, userName: string)
    ensures CreateBranchName(DefaultTemplate, nextPrId, userName) == Ok(Author(userName) + "-" + IntToString(nextPrId))
  {
    var author := Author(userName);
    var id := IntToString(nextPrId);
    FormatPrIdAfter("-", "", author, id);
    ConcatEmpty("-" + PrIdField);
    ConcatEmpty("-" + id);
    FormatAuthorAfter("", "-" + PrIdField, "-" + id, author, id);
    ConcatEmpty(AuthorField);
    ConcatEmpty(author);
    ConcatAssoc(AuthorField, "-", PrIdField);
    ConcatAssoc(author, "-", id);
  }

  // ---------------------------------------------------------------------------
  // The branches of a stack (`get_stack`).

  function NotBranch(dev: string): string -> bool {
    b => b != dev
  }

  /** The branches `git branch --contains` lists for one commit, the development branch left out. */
  function BranchesFor(stdout: string, dev: string): (r: seq<string>)
    ensures forall b :: b in r <==> b in FindBranchesWithCommit(stdout) && b != dev
  {
    FilterMembers(NotBranch(dev), FindBranchesWithCommit(stdout));
    Filter(NotBranch(dev), FindBranchesWithCommit(stdout))
  }

  /** The per-commit branch lists, `containing(c)` being the output of `git branch --contains c`. */
  function Listings(commits: seq<string>, dev: string, containing: string -> string): (r: seq<seq<string>>)
    ensures |r| == |commits|
    ensures forall i :: 0 <= i < |commits| ==> r[i] == BranchesFor(containing(commits[i]), dev)
  {
    seq(|commits|, i requires 0 <= i < |commits| => BranchesFor(containing(commits[i]), dev))
  }

  /** `stack[b] += 1` on a `defaultdict(int)`. */
  function Bump(d: Dict<int>, b: string): (r: Dict<int>)
    requires d.Valid()
    ensures r.Valid()
  {
    Put(d, b, Get(d, b, 0) + 1)
  }

  /** Counts every name of `bs`, in order. */
  function CountAll(d: Dict<int>, bs: seq<string>): (r: Dict<int>)
    requires d.Valid()
    ensures r.Valid()
    decreases |bs|
  {
    if bs == [] then d else Bump(CountAll(d, bs[..|bs| - 1]), bs[|bs| - 1])
  }

  /** The counts after all lists, from an empty dict. */
  function Tally(lists: seq<seq<string>>): (r: Dict<int>)
    ensures r.Valid()
    decreases |lists|
  {
    if lists == [] then Empty() else CountAll(Tally(lists[..|lists| - 1]), lists[|lists| - 1])
  }

  /** The sort key `item[1]`: a branch's count. */
  function CountKey(d: Dict<int>): string -> int {
    b => Get(d, b, 0)
  }

  /** The result of `get_stack`: the counted branches, most commits first, ties in first-seen order. */
  function StackOrder(commits: seq<string>, dev: string, containing: string -> string): seq<string> {
    var t := StackTally(commits, dev, containing);
    SortDesc(t.keys, CountKey(t))
  }

  function StackTally(commits: seq<string>, dev: string, containing: string -> string): (r: Dict<int>)
    ensures r.Valid()
  {
    Tally(Listings(commits, dev, containing))
  }

  /**
   * `get_stack`: counts, for every branch other than the development branch,
   * the commits it contains, and lists the branches by decreasing count.
   */
  method GetStack(commits: seq<string>, dev: string, containing: string -> string) returns (stack: seq<string>)
    ensures stack == StackOrder(commits, dev, containing)
  {
    ghost var lists := Listings(commits, dev, containing);
    var counts: Dict<int> := Empty();
    for i := 0 to |commits|
      invariant counts.Valid()
      invariant counts == Tally(lists[..i])
    {
      var branches := BranchesFor(containing(commits[i]), dev);
      TallyStep(lists, i);
      if branches == [] {
        continue;
      }
      ghost var before := counts;
      for j := 0 to |branches|
        invariant counts.Valid()
        invariant counts == CountAll(before, branches[..j])
      {
        CountAllStep(before, branches, j);
        counts := Bump(counts, branches[j]);
      }
      assert branches[..|branches|] == branches;
    }
    assert lists[..|commits|] == lists;
    stack := SortDesc(counts.keys, CountKey(counts));
  }

  lemma TallyStep(lists: seq<seq<string>>, i: nat)
    requires i < |lists|
    ensures Tally(lists[..i + 1]) == CountAll(Tally(lists[..i]), lists[i])
  {
    assert lists[..i + 1][..i] == lists[..i];
  }

  lemma CountAllStep(d: Dict<int>, bs: seq<string>, j: nat)
    requires d.Valid() && j < |bs|
    ensures CountAll(d, bs[..j + 1]) == Bump(CountAll(d, bs[..j]), bs[j])
  {
    assert bs[..j + 1][..j] == bs[..j];
  }

  /** The counted names are the distinct names seen, in first-seen order. */
  lemma {:induction false} CountAllKeys(d: Dict<int>, x: seq<string>, bs: seq<string>)
    requires d.Valid() && d.keys == Dedup(x)
    ensures CountAll(d, bs).keys == Dedup(x + bs)
    decreases |bs|
  {
    if bs == [] {
      assert x + bs == x;
    } else {
      var init := bs[..|bs| - 1];
      CountAllKeys(d, x, init);
      assert (x + bs)[..|x + bs| - 1] == x + init;
    }
  }

  /** Each count is the number of times the name was seen. */
  lemma {:induction false} CountAllCounts(d: Dict<int>, bs: seq<string>, b: string)
    requires d.Valid()
    ensures Get(CountAll(d, bs), b, 0) == Get(d, b, 0) + multiset(bs)[b]
    decreases |bs|
  {
    if bs != [] {
      var init := bs[..|bs| - 1];
      var last := bs[|bs| - 1];
      CountAllCounts(d, init, b);
      BumpGet(CountAll(d, init), last, b);
      InitLast(bs);
      SnocCount(init, last, b);
    }
  }

  lemma SnocCount(init: seq<string>, last: string, b: string)
    ensures multiset(init + [last])[b] == multiset(init)[b] + (if last == b then 1 else 0)
  {
    assert multiset(init + [last]) == multiset(init) + multiset{last};
  }

  lemma BumpGet(d: Dict<int>, x: string, b: string)
    requires d.Valid()
    ensures Get(Bump(d, x), b, 0) == Get(d, b, 0) + (if x == b then 1 else 0)
  {
  }

  lemma {:induction false} TallyKeys(lists: seq<seq<string>>)
    ensures Tally(lists).keys == Dedup(Flatten(lists))
    decreases |lists|
  {
    if lists != [] {
      var init := lists[..|lists| - 1];
      TallyKeys(init);
      CountAllKeys(Tally(init), Flatten(init), lists[|lists| - 1]);
    }
  }

  lemma {:induction false} TallyCounts(lists: seq<seq<string>>, b: string)
    ensures Get(Tally(lists), b, 0) == multiset(Flatten(lists))[b]
    decreases |lists|
  {
    if lists != [] {
      var init := lists[..|lists| - 1];
      TallyCounts(init, b);
      CountAllCounts(Tally(init), lists[|lists| - 1], b);
    }
  }

  /** How many of the commits' listings name `b`. */
  function Occurrences(commits: seq<string>, dev: string, containing: string -> string, b: string): nat {
    multiset(Flatten(Listings(commits, dev, containing)))[b]
  }

  /**
   * The stack lists each branch once: exactly the branches other than the
   * development branch that contain at least one of the commits.
   */
  lemma StackOrderMembers(commits: seq<string>, dev: string, containing: string -> string, b: string)
    ensures NoDups(StackOrder(commits, dev, containing))
    ensures b in StackOrder(commits, dev, containing)
        <==> b != dev && exists i :: 0 <= i < |commits| && b in FindBranchesWithCommit(containing(commits[i]))
  {
    var lists := Listings(commits, dev, containing);
    var t := Tally(lists);
    TallyKeys(lists);
    SortDescMembers(t.keys, CountKey(t));
    FlattenMembers(lists, b);
    if b in StackOrder(commits, dev, containing) {
      var i :| 0 <= i < |lists| && b in lists[i];
      assert b in BranchesFor(containing(commits[i]), dev);
    }
    if b != dev && exists i :: 0 <= i < |commits| && b in FindBranchesWithCommit(containing(commits[i])) {
      var i :| 0 <= i < |commits| && b in FindBranchesWithCommit(containing(commits[i]));
      assert b in lists[i];
    }
  }

  /** A branch that contains more of the commits comes first. */
  lemma StackOrderSorted(commits: seq<string>, dev: string, containing: string -> string, i: nat, j: nat)
    requires i < j < |StackOrder(commits, dev, containing)|
    ensures Occurrences(commits, dev, containing, StackOrder(commits, dev, containing)[i])
         >= Occurrences(commits, dev, containing, StackOrder(commits, dev, containing)[j])
  {
    var lists := Listings(commits, dev, containing);
    var t := Tally(lists);
    var s := StackOrder(commits, dev, containing);
    SortDescSorted(t.keys, CountKey(t));
    assert CountKey(t)(s[i]) >= CountKey(t)(s[j]);
    TallyCounts(lists, s[i]);
    TallyCounts(lists, s[j]);
  }

  /** Branches with equal counts keep the order in which they were first listed. */
  lemma StackOrderStable(commits: seq<string>, dev: string, containing: string -> string, v: int)
    ensures WithKey(StackOrder(commits, dev, containing), CountKey(StackTally(commits, dev, containing)), v)
         == WithKey(Dedup(Flatten(Listings(commits, dev, containing))), CountKey(StackTally(commits, dev, containing)), v)
  {
    var lists := Listings(commits, dev, containing);
    var t := Tally(lists);
    TallyKeys(lists);
    SortDescStable(t.keys, CountKey(t), v);
  }
}
