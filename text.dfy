/**
 * The Python string operations the core relies on, over `string` (`seq<char>`):
 * `in`, `str.split` on one character, `str.join`, `str.splitlines`, `str.strip`,
 * `str.rstrip`, `str.replace`, `str.lower`, `str(int)`, `int(str)` and
 * `re.sub` of a literal `start.*?end` pattern.
 */
module Text {
  import opened Common
  import opened Seqs

  // ---------------------------------------------------------------------------
  // Substring search: Python's `pat in s` and `s.find(pat)`.

  /** `pat` occurs in `s` at index `k`. */
  predicate OccursAt(s: string, pat: string, k: int) {
    0 <= k && k + |pat| <= |s| && s[k..k + |pat|] == pat
  }

  lemma OccursAtTail(s: string, pat: string, k: nat)
    requires |s| > 0
    ensures OccursAt(s[1..], pat, k) <==> OccursAt(s, pat, k + 1)
  {
    if 0 <= k && k + |pat| <= |s| - 1 {
      assert s[1..][k..k + |pat|] == s[k + 1..k + 1 + |pat|];
    }
  }

  /** The leftmost occurrence of `pat` in `s` at or after `from`. */
  function FindFrom(s: string, pat: string, from: nat): (r: Option<nat>)
    requires from <= |s|
    ensures r.Some? ==> from <= r.value && OccursAt(s, pat, r.value)
    ensures r.Some? ==> forall k :: from <= k < r.value ==> !OccursAt(s, pat, k)
    ensures r.None? ==> forall k :: from <= k ==> !OccursAt(s, pat, k)
    decreases |s| - from
  {
    if |s| - from < |pat| then None
    else if s[from..from + |pat|] == pat then Some(from)
    else FindFrom(s, pat, from + 1)
  }

  /** The leftmost occurrence of `pat` in `s`, like `s.find(pat)` with `-1` as `None`. */
  function Find(s: string, pat: string): (r: Option<nat>)
    ensures r.Some? ==> OccursAt(s, pat, r.value)
    ensures r.Some? ==> forall k :: 0 <= k < r.value ==> !OccursAt(s, pat, k)
    ensures r.None? ==> forall k :: !OccursAt(s, pat, k)
  {
    FindFrom(s, pat, 0)
  }

  /** Python's `pat in s`. */
  predicate Contains(s: string, pat: string) {
    Find(s, pat).Some?
  }

  lemma FindIs(s: string, pat: string, i: nat)
    requires OccursAt(s, pat, i)
    requires forall k :: 0 <= k < i ==> !OccursAt(s, pat, k)
    ensures Find(s, pat) == Some(i)
  {
    assert Find(s, pat).Some?;
    var v := Find(s, pat).value;
    assert OccursAt(s, pat, v);
    assert !(v < i);
    assert !(v > i);
  }

  lemma ContainsAt(s: string, pat: string, k: int)
    requires OccursAt(s, pat, k)
    ensures Contains(s, pat)
  {
  }

  lemma ContainsIn(a: string, pat: string, b: string)
    ensures Contains(a + pat + b, pat)
  {
    assert (a + pat + b)[|a|..|a| + |pat|] == pat;
    ContainsAt(a + pat + b, pat, |a|);
  }

  lemma PrefixOfConcat(a: string, b: string)
    ensures a <= a + b
  {
    assert (a + b)[..|a|] == a;
  }

  lemma ConcatAssoc(x: string, y: string, z: string)
    ensures x + y + z == x + (y + z)
  {
  }

  lemma ConcatEmpty(x: string)
    ensures "" + x == x && x + "" == x
  {
  }

  /** A string shorter than `pat` does not contain it. */
  lemma NotContainsShort(s: string, pat: string)
    requires |s| < |pat|
    ensures !Contains(s, pat)
  {
  }

  /** `pat` cannot straddle a separator none of whose characters occur in `pat`. */
  lemma {:induction false} NotContainsAcross(a: string, sep: string, b: string, pat: string)
    requires !Contains(a, pat) && !Contains(b, pat)
    requires sep != "" && forall i :: 0 <= i < |sep| ==> sep[i] !in pat
    ensures !Contains(a + sep + b, pat)
  {
    var s := a + sep + b;
    assert OccursAt(a, pat, 0) ==> Contains(a, pat);
    assert |pat| > 0;
    forall k | 0 <= k && k + |pat| <= |s| ensures !OccursAt(s, pat, k) {
      if k + |pat| <= |a| {
        assert s[k..k + |pat|] == a[k..k + |pat|];
        assert !OccursAt(a, pat, k);
      } else if k >= |a| + |sep| {
        var k' := k - |a| - |sep|;
        assert s[k..k + |pat|] == b[k'..k' + |pat|];
        assert !OccursAt(b, pat, k');
      } else {
        var q := if k < |a| then |a| else k;
        assert s[q] == sep[q - |a|];
        assert s[k..k + |pat|][q - k] == s[q];
      }
    }
  }

  /** `pat` cannot begin inside a prefix that does not hold `pat`'s first character. */
  lemma {:induction false} NotContainsAfterPrefix(pre: string, b: string, pat: string)
    requires pat != "" && pat[0] !in pre
    requires !Contains(b, pat)
    ensures !Contains(pre + b, pat)
  {
    var s := pre + b;
    forall k | 0 <= k && k + |pat| <= |s| ensures !OccursAt(s, pat, k) {
      if k < |pre| {
        assert s[k..k + |pat|][0] == pre[k];
      } else {
        assert s[k..k + |pat|] == b[k - |pre|..k - |pre| + |pat|];
        assert !OccursAt(b, pat, k - |pre|);
      }
    }
  }

  /** A string none of whose characters is `pat[0]` does not contain `pat`. */
  lemma NotContainsWithoutFirst(s: string, pat: string)
    requires pat != "" && pat[0] !in s
    ensures !Contains(s, pat)
  {
    forall k | 0 <= k && k + |pat| <= |s| ensures !OccursAt(s, pat, k) {
      assert s[k..k + |pat|][0] == s[k];
    }
  }

  /**
   * When `pat`'s first character occurs nowhere else in `pat` and `u` does not
   * contain `pat`, the leftmost occurrence of `pat` in `u + t` is the one that
   * starts `t`.
   */
  lemma {:induction false} FindAfterClean(u: string, t: string, pat: string)
    requires pat != "" && pat[0] !in pat[1..]
    requires !Contains(u, pat)
    requires pat <= t
    ensures Find(u + t, pat) == Some(|u|)
  {
    var s := u + t;
    assert s[|u|..|u| + |pat|] == t[..|pat|];
    forall k | 0 <= k < |u| ensures !OccursAt(s, pat, k) {
      if k + |pat| <= |u| {
        assert s[k..k + |pat|] == u[k..k + |pat|];
        assert !OccursAt(u, pat, k);
      } else if k + |pat| <= |s| {
        // the occurrence would overlap the one at |u|, putting pat[0] inside pat[1..]
        assert s[|u|] == pat[0];
        assert s[k..k + |pat|][|u| - k] == s[|u|];
        assert pat[1..][|u| - k - 1] == pat[|u| - k];
      }
    }
    FindIs(s, pat, |u|);
  }

  // ---------------------------------------------------------------------------
  // Splitting and joining on one separator character.

  /** Python's `s.split(c)` for a one-character separator `c`. */
  function Split(s: string, c: char): (r: seq<string>)
    ensures |r| >= 1
    ensures forall i :: 0 <= i < |r| ==> c !in r[i]
    decreases |s|
  {
    if s == [] then [""]
    else
      var rest := Split(s[1..], c);
      if s[0] == c then [""] + rest else [[s[0]] + rest[0]] + rest[1..]
  }

  /** Python's `sep.join(xs)`. */
  function Join(xs: seq<string>, sep: string): string
    decreases |xs|
  {
    if |xs| == 0 then ""
    else if |xs| == 1 then xs[0]
    else xs[0] + sep + Join(xs[1..], sep)
  }

  /** The last element of a non-empty sequence (Python's `xs[-1]`). */
  function Last<T>(xs: seq<T>): T
    requires xs != []
  {
    xs[|xs| - 1]
  }

  /** Joining the pieces of a split with the separator gives the string back. */
  lemma {:induction false} JoinSplit(s: string, c: char)
    ensures Join(Split(s, c), [c]) == s
    decreases |s|
  {
    if s != [] {
      var rest := Split(s[1..], c);
      JoinSplit(s[1..], c);
      if s[0] == c {
        assert Split(s, c) == [""] + rest;
        assert ([""] + rest)[1..] == rest;
      } else if |rest| == 1 {
        assert Split(s, c) == [[s[0]] + rest[0]];
      } else {
        var head := [s[0]] + rest[0];
        assert Split(s, c) == [head] + rest[1..];
        assert ([head] + rest[1..])[1..] == rest[1..];
        assert Join(rest, [c]) == rest[0] + [c] + Join(rest[1..], [c]);
      }
    }
  }

  /** Joining two non-empty lists puts one separator between their joins. */
  lemma {:induction false} JoinConcat(xs: seq<string>, ys: seq<string>, sep: string)
    requires xs != [] && ys != []
    ensures Join(xs + ys, sep) == Join(xs, sep) + sep + Join(ys, sep)
    decreases |xs|
  {
    if |xs| == 1 {
      assert (xs + ys)[1..] == ys;
    } else {
      assert (xs + ys)[1..] == xs[1..] + ys;
      JoinConcat(xs[1..], ys, sep);
    }
  }

  /** A character in neither the pieces nor the separator is not in the join. */
  lemma {:induction false} JoinNoChar(xs: seq<string>, sep: string, c: char)
    requires c !in sep && forall i :: 0 <= i < |xs| ==> c !in xs[i]
    ensures c !in Join(xs, sep)
    decreases |xs|
  {
    if |xs| > 1 {
      JoinNoChar(xs[1..], sep, c);
    }
  }

  /** Splitting at a separator occurrence splits the two sides independently. */
  lemma {:induction false} SplitAround(a: string, c: char, b: string)
    ensures Split(a + [c] + b, c) == Split(a, c) + Split(b, c)
    decreases |a|
  {
    var s := a + [c] + b;
    if a == [] {
      assert s[1..] == b;
    } else {
      assert s[1..] == a[1..] + [c] + b;
      SplitAround(a[1..], c, b);
    }
  }

  /** A string without the separator splits into itself. */
  lemma {:induction false} SplitNoSeparator(s: string, c: char)
    requires c !in s
    ensures Split(s, c) == [s]
    decreases |s|
  {
    if s != [] {
      assert c !in s[1..];
      SplitNoSeparator(s[1..], c);
      assert s == [s[0]] + s[1..];
    }
  }

  /** Splitting a join gives back the pieces, when no piece holds the separator. */
  lemma {:induction false} SplitJoin(xs: seq<string>, c: char)
    requires |xs| >= 1
    requires forall i :: 0 <= i < |xs| ==> c !in xs[i]
    ensures Split(Join(xs, [c]), c) == xs
    decreases |xs|
  {
    if |xs| == 1 {
      SplitNoSeparator(xs[0], c);
    } else {
      SplitJoin(xs[1..], c);
      SplitAround(xs[0], c, Join(xs[1..], [c]));
      SplitNoSeparator(xs[0], c);
    }
  }

  /** A split has one piece more than the separator has occurrences. */
  lemma {:induction false} SplitCount(s: string, c: char)
    ensures |Split(s, c)| == multiset(s)[c] + 1
    decreases |s|
  {
    if s != [] {
      SplitCount(s[1..], c);
      assert s == [s[0]] + s[1..];
      assert multiset(s) == multiset([s[0]]) + multiset(s[1..]);
    }
  }

  /** The text after the last separator (Python's `s.split(c)[-1]`). */
  lemma SplitLastAround(a: string, c: char, d: string)
    requires c !in d
    ensures Last(Split(a + [c] + d, c)) == d
  {
    SplitAround(a, c, d);
    SplitNoSeparator(d, c);
  }

  /** The characters at which Python's `str.splitlines()` ends a line. */
  predicate IsLineBreak(ch: char) {
    ch == '\n' || ch == '\r' || ch == '\U{0B}' || ch == '\U{0C}' || ch == '\U{1C}' || ch == '\U{1D}'
    || ch == '\U{1E}' || ch == '\U{85}' || ch == '\U{2028}' || ch == '\U{2029}'
  }

  predicate NoLineBreak(s: string) {
    forall i :: 0 <= i < |s| ==> !IsLineBreak(s[i])
  }

  /**
   * Python's `s.splitlines()`: `"\r\n"` ends one line, a final line break
   * opens no further line, and `""` has no lines.
   */
  function SplitLines(s: string): (r: seq<string>)
    ensures forall i :: 0 <= i < |r| ==> NoLineBreak(r[i])
    decreases |s|
  {
    if s == "" then []
    else
      match First(IsLineBreak, s)
      case None => [s]
      case Some(e) =>
        var next := if s[e] == '\r' && e + 1 < |s| && s[e + 1] == '\n' then e + 2 else e + 1;
        [s[..e]] + SplitLines(s[next..])
  }

  /** A line ended by `'\n'` comes off the front of the text. */
  lemma SplitLinesCons(x: string, rest: string)
    requires NoLineBreak(x)
    ensures SplitLines(x + "\n" + rest) == [x] + SplitLines(rest)
  {
    var s := x + "\n" + rest;
    FirstIs(IsLineBreak, s, |x|);
    assert s[..|x|] == x;
    assert s[|x| + 1..] == rest;
  }

  /** Text without line breaks is one line. */
  lemma SplitLinesOne(x: string)
    requires x != "" && NoLineBreak(x)
    ensures SplitLines(x) == [x]
  {
  }

  // ---------------------------------------------------------------------------
  // Whitespace, replacement and case.

  /** The characters for which Python's `str.isspace()` holds, which `strip()` and `int()` skip. */
  predicate IsSpace(ch: char) {
    ch == ' ' || ('\t' <= ch <= '\r') || ('\U{1C}' <= ch <= '\U{1F}')
    || ch == '\U{85}' || ch == '\U{A0}' || ch == '\U{1680}' || ('\U{2000}' <= ch <= '\U{200A}')
    || ch == '\U{2028}' || ch == '\U{2029}' || ch == '\U{202F}' || ch == '\U{205F}' || ch == '\U{3000}'
  }

  function LeadingSpaces(s: string): (n: nat)
    ensures n <= |s|
    ensures forall i :: 0 <= i < n ==> IsSpace(s[i])
    ensures n < |s| ==> !IsSpace(s[n])
    decreases |s|
  {
    if s == [] || !IsSpace(s[0]) then 0 else 1 + LeadingSpaces(s[1..])
  }

  function TrailingSpaces(s: string): (n: nat)
    ensures n <= |s|
    ensures forall i :: |s| - n <= i < |s| ==> IsSpace(s[i])
    ensures n < |s| ==> !IsSpace(s[|s| - 1 - n])
    decreases |s|
  {
    if s == [] || !IsSpace(Last(s)) then 0 else 1 + TrailingSpaces(s[..|s| - 1])
  }

  /** Python's `s.strip()`: the longest slice of `s` with no whitespace at either end. */
  function Strip(s: string): (r: string)
    ensures r == "" || (!IsSpace(r[0]) && !IsSpace(Last(r)))
    ensures |r| <= |s|
  {
    var t := s[LeadingSpaces(s)..];
    t[..|t| - TrailingSpaces(t)]
  }

  lemma StripNoSpace(s: string)
    requires forall i :: 0 <= i < |s| ==> !IsSpace(s[i])
    ensures Strip(s) == s
  {
    assert LeadingSpaces(s) == 0;
    assert s[0..] == s;
  }

  /** Strip only removes characters. */
  lemma StripChars(s: string)
    ensures forall ch :: ch in Strip(s) ==> ch in s
  {
    var t := s[LeadingSpaces(s)..];
    forall ch | ch in Strip(s) ensures ch in s {
      assert ch in t;
    }
  }

  /** Text without surrounding whitespace is its own strip. */
  lemma StripStripped(s: string)
    requires s == [] || (!IsSpace(s[0]) && !IsSpace(Last(s)))
    ensures Strip(s) == s
  {
    assert LeadingSpaces(s) == 0;
    assert s[0..] == s;
  }

  lemma StripIdempotent(s: string)
    ensures Strip(Strip(s)) == Strip(s)
  {
    StripStripped(Strip(s));
  }

  lemma {:induction false} LeadingSpacesPadded(pre: string, x: string)
    requires forall i :: 0 <= i < |pre| ==> IsSpace(pre[i])
    requires x == [] || !IsSpace(x[0])
    ensures LeadingSpaces(pre + x) == |pre|
    decreases |pre|
  {
    if pre == [] {
      assert pre + x == x;
    } else {
      assert (pre + x)[1..] == pre[1..] + x;
      LeadingSpacesPadded(pre[1..], x);
    }
  }

  /** Leading whitespace in front of stripped text is removed. */
  lemma StripPadded(pre: string, x: string)
    requires forall i :: 0 <= i < |pre| ==> IsSpace(pre[i])
    requires x == [] || (!IsSpace(x[0]) && !IsSpace(Last(x)))
    ensures Strip(pre + x) == x
  {
    LeadingSpacesPadded(pre, x);
    assert (pre + x)[|pre|..] == x;
    StripStripped(x);
  }

  /** A final newline after stripped text is removed. */
  lemma StripNewline(x: string)
    requires x == [] || (!IsSpace(x[0]) && !IsSpace(Last(x)))
    ensures Strip(x + "\n") == x
  {
    var s := x + "\n";
    if x != [] {
      assert s[0] == x[0];
      assert s[0..] == s;
      assert s[..|s| - 1] == x;
      assert TrailingSpaces(x) == 0;
    }
  }

  /** Python's `s.rstrip(c)` for one character `c`. */
  function RStripChar(s: string, c: char): (r: string)
    ensures r <= s
    ensures r == "" || Last(r) != c
    ensures forall i :: |r| <= i < |s| ==> s[i] == c
    decreases |s|
  {
    if s != [] && Last(s) == c then RStripChar(s[..|s| - 1], c) else s
  }

  /** `n` copies of `c`. */
  function Repeat(c: char, n: nat): (r: string)
    ensures |r| == n && forall i :: 0 <= i < n ==> r[i] == c
  {
    seq(n, _ => c)
  }

  /** `rstrip` removes exactly the trailing run of `c`. */
  lemma {:induction false} RStripCharTrailing(s: string, c: char, n: nat)
    requires s == [] || Last(s) != c
    ensures RStripChar(s + Repeat(c, n), c) == s
    decreases n
  {
    if n > 0 {
      var t := s + Repeat(c, n);
      assert t[..|t| - 1] == s + Repeat(c, n - 1);
      RStripCharTrailing(s, c, n - 1);
    } else {
      assert s + Repeat(c, 0) == s;
    }
  }

  /** Python's `s.replace(pat, repl)`: every leftmost non-overlapping occurrence of `pat`. */
  function ReplaceAll(s: string, pat: string, repl: string): string
    requires pat != ""
    decreases |s|
  {
    if |s| < |pat| then s
    else if s[..|pat|] == pat then repl + ReplaceAll(s[|pat|..], pat, repl)
    else [s[0]] + ReplaceAll(s[1..], pat, repl)
  }

  /** Replacing one character by another maps the string character by character. */
  lemma {:induction false} ReplaceCharMaps(s: string, c: char, d: char)
    ensures ReplaceAll(s, [c], [d]) == seq(|s|, i requires 0 <= i < |s| => if s[i] == c then d else s[i])
    decreases |s|
  {
    if s != [] {
      ReplaceCharMaps(s[1..], c, d);
      assert s[..1] == [s[0]];
    }
  }

  /** Removing one character leaves every other character, with its multiplicity. */
  lemma {:induction false} RemoveCharDrops(s: string, c: char)
    ensures c !in ReplaceAll(s, [c], "")
    ensures forall ch | ch != c :: multiset(ReplaceAll(s, [c], ""))[ch] == multiset(s)[ch]
    decreases |s|
  {
    if s != [] {
      RemoveCharDrops(s[1..], c);
      assert s[..1] == [s[0]];
      assert s == [s[0]] + s[1..];
      assert multiset(s) == multiset([s[0]]) + multiset(s[1..]);
    }
  }

  /** A string without `pat` is left alone by `replace`. */
  lemma {:induction false} ReplaceAbsent(s: string, pat: string, repl: string)
    requires pat != "" && !Contains(s, pat)
    ensures ReplaceAll(s, pat, repl) == s
    decreases |s|
  {
    if |s| >= |pat| {
      assert !OccursAt(s, pat, 0);
      forall k: nat ensures !OccursAt(s[1..], pat, k) {
        OccursAtTail(s, pat, k);
      }
      ReplaceAbsent(s[1..], pat, repl);
    }
  }

  function LowerChar(ch: char): char {
    if 'A' <= ch <= 'Z' then (ch as int + 32) as char else ch
  }

  /** Python's `s.lower()` on ASCII letters. */
  function Lower(s: string): (r: string)
    ensures |r| == |s| && forall i :: 0 <= i < |s| ==> r[i] == LowerChar(s[i])
  {
    seq(|s|, i requires 0 <= i < |s| => LowerChar(s[i]))
  }

  // ---------------------------------------------------------------------------
  // Integers: Python's `str(i)` and `int(s)`.

  predicate IsDigit(ch: char) {
    '0' <= ch <= '9'
  }

  predicate AllDigits(s: string) {
    forall i :: 0 <= i < |s| ==> IsDigit(s[i])
  }

  /** The value of a decimal digit string, most significant digit first. */
  function DigitsValue(ds: string): nat
    requires AllDigits(ds)
    decreases |ds|
  {
    if ds == [] then 0 else 10 * DigitsValue(ds[..|ds| - 1]) + (Last(ds) as int - '0' as int)
  }

  function DigitChar(d: nat): (ch: char)
    requires d < 10
    ensures IsDigit(ch) && ch as int - '0' as int == d
  {
    ('0' as int + d) as char
  }

  /** Python's `str(n)` for `n >= 0`: decimal digits without leading zeros. */
  function NatToString(n: nat): (r: string)
    ensures r != [] && AllDigits(r)
    ensures |r| > 1 ==> r[0] != '0'
    decreases n
  {
    if n < 10 then [DigitChar(n)] else NatToString(n / 10) + [DigitChar(n % 10)]
  }

  /** Python's `str(i)`. */
  function IntToString(i: int): string {
    if i < 0 then "-" + NatToString(-i) else NatToString(i)
  }

  lemma {:induction false} NatToStringValue(n: nat)
    ensures DigitsValue(NatToString(n)) == n
    decreases n
  {
    if n >= 10 {
      var prefix := NatToString(n / 10);
      NatToStringValue(n / 10);
      var s := prefix + [DigitChar(n % 10)];
      assert s[..|s| - 1] == prefix;
    }
  }

  /** Python's `int(s)` on ASCII text: optional surrounding whitespace, an optional sign, decimal digits. */
  function ParseInt(s: string): Option<int> {
    var t := Strip(s);
    if t != [] && (t[0] == '-' || t[0] == '+') then
      var ds := t[1..];
      if ds != [] && AllDigits(ds) then
        var v: int := if t[0] == '-' then 0 - DigitsValue(ds) else DigitsValue(ds);
        Some(v)
      else None
    else if t != [] && AllDigits(t) then Some(DigitsValue(t))
    else None
  }

  /** `int(str(i)) == i`. */
  lemma ParseIntOfString(i: int)
    ensures ParseInt(IntToString(i)) == Some(i)
  {
    if i < 0 {
      ParseNegative(-i);
      assert IntToString(i) == "-" + NatToString(-i);
    } else {
      ParseNatural(i);
      assert IntToString(i) == NatToString(i);
    }
  }

  lemma ParseNatural(n: nat)
    ensures ParseInt(NatToString(n)) == Some(n)
  {
    var ds := NatToString(n);
    NatToStringValue(n);
    DigitsNoSpace(ds);
    StripNoSpace(ds);
  }

  lemma ParseNegative(n: int)
    requires n > 0
    ensures ParseInt("-" + NatToString(n)) == Some(-n)
  {
    var ds := NatToString(n);
    var s := "-" + ds;
    NatToStringValue(n);
    DigitsNoSpace(ds);
    SignNoSpace('-', ds);
    StripNoSpace(s);
    assert s[0] == '-' && s[1..] == ds;
  }

  lemma SignNoSpace(sign: char, ds: string)
    requires !IsSpace(sign)
    requires forall k :: 0 <= k < |ds| ==> !IsSpace(ds[k])
    ensures forall k :: 0 <= k < |[sign] + ds| ==> !IsSpace(([sign] + ds)[k])
  {
  }

  lemma DigitsNoSpace(ds: string)
    requires AllDigits(ds)
    ensures forall k :: 0 <= k < |ds| ==> !IsSpace(ds[k])
  {
  }

  /** A digit string parses to its value. */
  lemma ParseIntDigits(ds: string)
    requires ds != [] && AllDigits(ds)
    ensures ParseInt(ds) == Some(DigitsValue(ds))
  {
    StripNoSpace(ds);
  }

  // ---------------------------------------------------------------------------
  // `re.sub(start + ".*?" + end, repl, s, flags=re.DOTALL)` for literal markers.

  /**
   * Every leftmost span that runs from an occurrence of `start` to the first
   * occurrence of `end` after it is replaced by `repl`, scanning on after the
   * span; text outside the spans is kept. `start` and `end` are taken
   * literally and `repl` holds no backslash escapes.
   */
  function Region(s: string, start: string, end: string): (r: Option<(nat, nat)>)
    ensures r.Some? ==> r.value.0 + |start| <= r.value.1 <= |s|
  {
    match Find(s, start)
    case None => None
    case Some(i) =>
      match Find(s[i + |start|..], end)
      case None => None
      case Some(j) => Some((i, i + |start| + j + |end|))
  }

  function SubDelimited(s: string, start: string, end: string, repl: string): string
    requires start != ""
    decreases |s|
  {
    match Region(s, start, end)
    case None => s
    case Some((i, stop)) => s[..i] + repl + SubDelimited(s[stop..], start, end, repl)
  }

  /** With no `start` followed by an `end`, the text comes back unchanged. */
  lemma SubWithoutRegion(s: string, start: string, end: string, repl: string)
    requires start != ""
    requires forall i :: OccursAt(s, start, i) ==> !Contains(s[i + |start|..], end)
    ensures SubDelimited(s, start, end, repl) == s
  {
  }

  /** The text before the first complete region is kept, and the region becomes `repl`. */
  lemma SubKeepsPrefix(s: string, start: string, end: string, repl: string)
    requires start != ""
    requires Find(s, start).Some?
    requires Contains(s[Find(s, start).value + |start|..], end)
    ensures s[..Find(s, start).value] + repl <= SubDelimited(s, start, end, repl)
  {
  }

  /** One step of the scan: the first complete region is replaced and the scan resumes after it. */
  lemma SubStep(s: string, start: string, end: string, repl: string, i: nat, stop: nat)
    requires start != ""
    requires Region(s, start, end) == Some((i, stop))
    ensures SubDelimited(s, start, end, repl) == s[..i] + repl + SubDelimited(s[stop..], start, end, repl)
  {
  }

  /**
   * One region: in `u + start + m + end + w`, where `u` holds no `start` and `m`
   * holds no `end`, exactly the span `start + m + end` is replaced, and the
   * scan goes on in `w`. The markers' first characters must not recur inside them.
   */
  lemma RegionSplice(u: string, start: string, m: string, end: string, w: string)
    requires start != "" && start[0] !in start[1..]
    requires end != "" && end[0] !in end[1..]
    requires !Contains(u, start) && !Contains(m, end)
    ensures Region(u + start + m + end + w, start, end) == Some((|u|, |u| + |start| + |m| + |end|))
  {
    var rest := m + (end + w);
    var s := u + (start + rest);
    Regroup(u, start, m, end, w);
    PrefixOfConcat(start, rest);
    FindAfterClean(u, start + rest, start);
    SliceAfter(u, start, rest);
    PrefixOfConcat(end, w);
    FindAfterClean(m, end + w, end);
  }

  lemma Regroup(u: string, start: string, m: string, end: string, w: string)
    ensures u + start + m + end + w == u + (start + (m + (end + w)))
  {
  }

  lemma SliceAfter(u: string, a: string, rest: string)
    ensures (u + (a + rest))[|u| + |a|..] == rest
  {
  }

  lemma SubSplice(u: string, start: string, m: string, end: string, w: string, repl: string)
    requires start != "" && start[0] !in start[1..]
    requires end != "" && end[0] !in end[1..]
    requires !Contains(u, start) && !Contains(m, end)
    ensures SubDelimited(u + start + m + end + w, start, end, repl) == u + repl + SubDelimited(w, start, end, repl)
  {
    var s := u + start + m + end + w;
    var stop := |u| + |start| + |m| + |end|;
    RegionSplice(u, start, m, end, w);
    SubStep(s, start, end, repl, |u|, stop);
    assert s[..|u|] == u;
    assert s[stop..] == w;
  }
}
