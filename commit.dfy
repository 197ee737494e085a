/**
 * A commit of the stack (`Commit` in `commit.py`): the two derived
 * properties that do not query git or GitHub.
 */
module Commits {
  import opened Common
  import opened Text

  /**
   * The commit fields the derived properties read. The notes, the pull-request
   * status and the workflow statuses are filled in by git and GitHub queries
   * when a commit is built and are not part of this model.
   */
  datatype Commit = Commit(sha: string, message: string, branch: Option<string>, prUrl: Option<string>)

  /** `is_fixup`: the message starts with `fixup!` or `squash!`. */
  predicate IsFixup(c: Commit) {
    "fixup!" <= c.message || "squash!" <= c.message
  }

  /**
   * `pr_id`: no id without a URL (missing or empty); otherwise the integer
   * after the last `/` once trailing slashes are removed, and a `ValueError`
   * when that segment is not an integer.
   */
  function PrId(c: Commit): (r: Result<Option<int>>)
    ensures r == Ok(None) <==> c.prUrl.None? || c.prUrl.value == ""
  {
    if c.prUrl.None? || c.prUrl.value == "" then Ok(None)
    else
      match ParseInt(Last(Split(RStripChar(c.prUrl.value, '/'), '/')))
      case None => Err("ValueError")
      case Some(n) => Ok(Some(n))
  }

  /**
   * A pull-request URL `<prefix>/<n>` followed by any number of slashes gives
   * back `n`.
   */
  lemma PrIdOfUrl(c: Commit, prefix: string, n: nat, slashes: nat)
    requires c.prUrl == Some(prefix + "/" + NatToString(n) + Repeat('/', slashes))
    ensures PrId(c) == Ok(Some(n))
  {
    var digits := NatToString(n);
    var stem := prefix + "/" + digits;
    assert Last(stem) == Last(digits);
    RStripCharTrailing(stem, '/', slashes);
    assert '/' !in digits by {
      forall i | 0 <= i < |digits| ensures digits[i] != '/' {
        assert IsDigit(digits[i]);
      }
    }
    SplitLastAround(prefix, '/', digits);
    NatToStringValue(n);
    ParseIntDigits(digits);
  }
}
