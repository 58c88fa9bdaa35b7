/** Domain simplification: `re.search(r'([\w-]+\.[\w]+)$', domain)` and its
    group, computed by a hand-written suffix scanner (`Simplify`) and proved
    equal to the regex's leftmost-match semantics (`RegexGroup`). */
module Domain {
  import opened Values
  import opened Text

  /** The anchored pattern `[\w-]+\.\w+$` matches `t` from position `i` to
      the end: a non-empty `[\w-]` run from `i`, a '.', a non-empty `\w` run
      reaching the end. */
  ghost predicate MatchesAt(t: string, i: nat)
  {
    exists d :: i < d < |t| - 1 && t[d] == '.' && LabelBetween(t, i, d) && WordBetween(t, d + 1, |t|)
  }

  /** `t` matches `[\w-]+\.\w+` in full. */
  ghost predicate FullMatch(t: string)
  {
    MatchesAt(t, 0)
  }

  /** The text the pattern may end at: Python's `$` also matches just before
      one final newline. */
  function Subject(s: string): string
  {
    if s != [] && s[|s| - 1] == '\n' then s[..|s| - 1] else s
  }

  /** `re.search` from position `i`: the first start position from which the
      anchored pattern matches. */
  ghost function SearchFrom(t: string, i: nat): (r: Option<nat>)
    ensures r.Some? ==> i <= r.value <= |t|
    decreases |t| - i
  {
    if i > |t| then None
    else if MatchesAt(t, i) then Some(i)
    else SearchFrom(t, i + 1)
  }

  /** `group(1)` of the search, or None when the search finds nothing. */
  ghost function RegexGroup(s: string): Option<string>
  {
    var t := Subject(s);
    match SearchFrom(t, 0)
    case None => None
    case Some(i) => Some(t[i..])
  }

  /** Index of the last '.' of `t`. */
  function LastDot(t: string): (r: Option<nat>)
    ensures r.Some? ==>
      r.value < |t| && t[r.value] == '.' && forall k :: r.value < k < |t| ==> t[k] != '.'
    ensures r.None? ==> forall k :: 0 <= k < |t| ==> t[k] != '.'
  {
    if t == [] then None
    else if t[|t| - 1] == '.' then Some(|t| - 1)
    else LastDot(t[..|t| - 1])
  }

  /** Start of the maximal run of `[\w-]` characters that ends at `d`. */
  function RunStart(t: string, d: nat): (i: nat)
    requires d <= |t|
    ensures i <= d && LabelBetween(t, i, d)
    ensures i == 0 || !IsLabelChar(t[i - 1])
  {
    if d > 0 && IsLabelChar(t[d - 1]) then RunStart(t, d - 1) else d
  }

  /** The suffix scanner: last dot, a non-empty all-`\w` tail after it, and the
      maximal non-empty `[\w-]` run before it. */
  function Simplify(s: string): Option<string>
  {
    var t := Subject(s);
    match LastDot(t)
    case None => None
    case Some(d) =>
      if d + 1 < |t| && WordBetween(t, d + 1, |t|) then
        var i := RunStart(t, d);
        if i < d then Some(t[i..]) else None
      else None
  }

  /** `r` is a suffix of `t`. */
  predicate IsSuffix(r: string, t: string)
  {
    |r| <= |t| && t[|t| - |r|..] == r
  }

  /** Where the pattern matches: exactly from the positions inside the `[\w-]`
      run just before the last dot, when the text after that dot is a
      non-empty run of `\w`. */
  lemma SuffixMatch(t: string, i: nat)
    requires i <= |t|
    ensures MatchesAt(t, i) <==>
      (LastDot(t).Some? && LastDot(t).value + 1 < |t| && WordBetween(t, LastDot(t).value + 1, |t|) &&
       RunStart(t, LastDot(t).value) <= i < LastDot(t).value)
  {
    if MatchesAt(t, i) {
      var d :| i < d < |t| - 1 && t[d] == '.' && LabelBetween(t, i, d) && WordBetween(t, d + 1, |t|);
      var D := LastDot(t).value;
      assert D == d;
    }
  }

  /** Matching from position `i` of `t` is matching all of `t[i..]`. */
  lemma MatchesAtSuffix(t: string, i: nat)
    requires i <= |t|
    ensures MatchesAt(t, i) <==> FullMatch(t[i..])
  {
    var u := t[i..];
    if MatchesAt(t, i) {
      var d :| i < d < |t| - 1 && t[d] == '.' && LabelBetween(t, i, d) && WordBetween(t, d + 1, |t|);
      assert u[d - i] == '.';
      assert LabelBetween(u, 0, d - i);
      assert WordBetween(u, d - i + 1, |u|);
    }
    if FullMatch(u) {
      var d :| 0 < d < |u| - 1 && u[d] == '.' && LabelBetween(u, 0, d) && WordBetween(u, d + 1, |u|);
      assert t[d + i] == '.';
      assert LabelBetween(t, i, d + i) by {
        forall k | i <= k < d + i ensures IsLabelChar(t[k]) {
          assert t[k] == u[k - i];
        }
      }
      assert WordBetween(t, d + i + 1, |t|) by {
        forall k | d + i + 1 <= k < |t| ensures IsWordChar(t[k]) {
          assert t[k] == u[k - i];
        }
      }
    }
  }

  lemma {:induction false} SearchFromFinds(t: string, i: nat, k: nat)
    requires i <= k <= |t| && MatchesAt(t, k)
    requires forall j :: i <= j < k ==> !MatchesAt(t, j)
    ensures SearchFrom(t, i) == Some(k)
    decreases k - i
  {
    if i < k {
      SearchFromFinds(t, i + 1, k);
    }
  }

  lemma {:induction false} SearchFromMisses(t: string, i: nat)
    requires forall j :: i <= j <= |t| ==> !MatchesAt(t, j)
    ensures SearchFrom(t, i) == None
    decreases |t| - i
  {
    if i <= |t| {
      SearchFromMisses(t, i + 1);
    }
  }

  /** The scanner computes exactly the regex's group: the suffix from the
      leftmost position at which the anchored pattern matches. */
  lemma SimplifyIsRegexGroup(s: string)
    ensures Simplify(s) == RegexGroup(s)
  {
    var t := Subject(s);
    forall j | 0 <= j <= |t| {
      SuffixMatch(t, j);
    }
    match LastDot(t)
    case None =>
      SearchFromMisses(t, 0);
    case Some(d) =>
      if d + 1 < |t| && WordBetween(t, d + 1, |t|) && RunStart(t, d) < d {
        SearchFromFinds(t, 0, RunStart(t, d));
      } else {
        SearchFromMisses(t, 0);
      }
  }

  /** A simplified domain is a suffix of the original (after Python's `$`
      newline allowance) that matches the pattern in full, and the `[\w-]`
      run it starts with cannot be extended to the left. */
  lemma SimplifyMatches(s: string)
    requires Simplify(s).Some?
    ensures FullMatch(Simplify(s).value)
    ensures IsSuffix(Simplify(s).value, Subject(s))
    ensures var t, r := Subject(s), Simplify(s).value;
      |r| == |t| || !IsLabelChar(t[|t| - |r| - 1])
  {
    var t := Subject(s);
    var d := LastDot(t).value;
    var i := RunStart(t, d);
    SuffixMatch(t, i);
    MatchesAtSuffix(t, i);
  }

  /** The scanner gives None exactly when the pattern matches from no position. */
  lemma SimplifyNoneMeansNoMatch(s: string)
    ensures Simplify(s).None? <==> forall j :: 0 <= j <= |Subject(s)| ==> !MatchesAt(Subject(s), j)
  {
    var t := Subject(s);
    forall j | 0 <= j <= |t| {
      SuffixMatch(t, j);
    }
    if Simplify(s).Some? {
      assert MatchesAt(t, RunStart(t, LastDot(t).value));
    }
  }

  /** A text that already matches the pattern in full is its own simplification. */
  lemma SimplifyFixesFullMatch(r: string)
    requires FullMatch(r)
    ensures Simplify(r) == Some(r)
  {
    var d :| 0 < d < |r| - 1 && r[d] == '.' && LabelBetween(r, 0, d) && WordBetween(r, d + 1, |r|);
    assert IsWordChar(r[|r| - 1]);
    assert Subject(r) == r;
    SuffixMatch(r, 0);
    assert RunStart(r, d) == 0;
    assert r[0..] == r;
  }

  /** Simplifying a simplified domain changes nothing. */
  lemma SimplifyIdempotent(s: string)
    requires Simplify(s).Some?
    ensures Simplify(Simplify(s).value) == Simplify(s)
  {
    SimplifyMatches(s);
    SimplifyFixesFullMatch(Simplify(s).value);
  }
}
