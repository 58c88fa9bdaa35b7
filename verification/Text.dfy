/** Character classes, ASCII case folding, and the two text comparisons SQLite
    performs for the query: `LIKE '%p%'` and `>=` under the binary collation. */
module Text {

  predicate IsAsciiLetter(c: char)
  {
    'a' <= c <= 'z' || 'A' <= c <= 'Z'
  }

  /** The regex class `\w`, restricted to ASCII. */
  predicate IsWordChar(c: char)
  {
    IsAsciiLetter(c) || '0' <= c <= '9' || c == '_'
  }

  /** The regex class `[\w-]`. */
  predicate IsLabelChar(c: char)
  {
    IsWordChar(c) || c == '-'
  }

  /** Every character of `t[lo..hi]` is in `\w`. */
  predicate WordBetween(t: string, lo: nat, hi: nat)
    requires lo <= hi <= |t|
  {
    forall k :: lo <= k < hi ==> IsWordChar(t[k])
  }

  /** Every character of `t[lo..hi]` is in `[\w-]`. */
  predicate LabelBetween(t: string, lo: nat, hi: nat)
    requires lo <= hi <= |t|
  {
    forall k :: lo <= k < hi ==> IsLabelChar(t[k])
  }

  /** ASCII lower-casing of one character; every other character is left alone. */
  function LowerChar(c: char): char
  {
    if 'A' <= c <= 'Z' then (c as int - 'A' as int + 'a' as int) as char else c
  }

  function Lower(s: string): (r: string)
  {
    seq(|s|, k requires 0 <= k < |s| => LowerChar(s[k]))
  }

  lemma LowerIdempotent(s: string)
    ensures Lower(Lower(s)) == Lower(s)
  {
  }

  /** `p` occurs in `t` starting at position `k`. */
  predicate OccursAt(p: string, t: string, k: int)
  {
    0 <= k && k + |p| <= |t| && t[k..k + |p|] == p
  }

  /** `LIKE '%p%'` on already folded text: try every start position in turn. */
  predicate HasInfix(p: string, t: string)
    decreases |t|
  {
    OccursAt(p, t, 0) || (t != [] && HasInfix(p, t[1..]))
  }

  /** The window of `t` at `k` equals `v` character by character, ignoring ASCII case. */
  ghost predicate WindowMatches(t: string, v: string, k: int)
  {
    0 <= k && k + |v| <= |t| && forall i :: 0 <= i < |v| ==> LowerChar(t[k + i]) == LowerChar(v[i])
  }

  /** Reference meaning of a case-insensitive substring test. */
  ghost predicate ContainsIgnoringCase(t: string, v: string)
  {
    exists k :: WindowMatches(t, v, k)
  }

  lemma {:induction false} HasInfixAt(p: string, t: string)
    ensures HasInfix(p, t) <==> exists k :: OccursAt(p, t, k)
    decreases |t|
  {
    if OccursAt(p, t, 0) {
    } else if t == [] {
    } else {
      HasInfixAt(p, t[1..]);
      if HasInfix(p, t[1..]) {
        var k :| OccursAt(p, t[1..], k);
        assert t[1..][k..k + |p|] == t[k + 1..k + 1 + |p|];
        assert OccursAt(p, t, k + 1);
      } else {
        forall k | OccursAt(p, t, k)
          ensures false
        {
          assert k != 0;
          assert t[1..][k - 1..k - 1 + |p|] == t[k..k + |p|];
          assert OccursAt(p, t[1..], k - 1);
        }
      }
    }
  }

  /** Folding the whole text then scanning for the folded value is exactly a
      case-insensitive substring test. */
  lemma LikeMeansContains(t: string, v: string)
    ensures HasInfix(Lower(v), Lower(t)) <==> ContainsIgnoringCase(t, v)
  {
    HasInfixAt(Lower(v), Lower(t));
    forall k | 0 <= k && k + |v| <= |t|
      ensures OccursAt(Lower(v), Lower(t), k) <==> WindowMatches(t, v, k)
    {
      if WindowMatches(t, v, k) {
        assert Lower(t)[k..k + |v|] == Lower(v);
      }
      if OccursAt(Lower(v), Lower(t), k) {
        forall i | 0 <= i < |v|
          ensures LowerChar(t[k + i]) == LowerChar(v[i])
        {
          assert Lower(t)[k..k + |v|][i] == Lower(v)[i];
        }
      }
    }
  }

  /** `a <= b` under SQLite's binary collation: compare character by
      character, and a proper prefix sorts first. */
  predicate TextAtMost(a: string, b: string)
    decreases |a|
  {
    a == [] || (b != [] && (a[0] < b[0] || (a[0] == b[0] && TextAtMost(a[1..], b[1..]))))
  }

  /** Reference meaning of the collation order: after the longest common
      prefix, either `a` has ended or its next character is smaller. */
  ghost predicate LexicographicallyAtMost(a: string, b: string)
  {
    exists n :: 0 <= n <= |a| && n <= |b| && a[..n] == b[..n] &&
      (n == |a| || (n < |b| && a[n] < b[n]))
  }

  lemma {:induction false} TextAtMostIsLexicographic(a: string, b: string)
    ensures TextAtMost(a, b) <==> LexicographicallyAtMost(a, b)
    decreases |a|
  {
    if a == [] {
      assert a[..0] == b[..0];
    } else if b == [] {
    } else if a[0] < b[0] {
      assert a[..0] == b[..0];
    } else if a[0] == b[0] {
      TextAtMostIsLexicographic(a[1..], b[1..]);
      if TextAtMost(a[1..], b[1..]) {
        var n :| 0 <= n <= |a[1..]| && n <= |b[1..]| && a[1..][..n] == b[1..][..n] &&
          (n == |a[1..]| || (n < |b[1..]| && a[1..][n] < b[1..][n]));
        assert a[..n + 1] == [a[0]] + a[1..][..n];
        assert b[..n + 1] == [b[0]] + b[1..][..n];
        assert a[..n + 1] == b[..n + 1];
        assert n + 1 == |a| || (n + 1 < |b| && a[n + 1] < b[n + 1]);
      }
      if LexicographicallyAtMost(a, b) {
        var n :| 0 <= n <= |a| && n <= |b| && a[..n] == b[..n] && (n == |a| || (n < |b| && a[n] < b[n]));
        assert n > 0;
        assert a[1..][..n - 1] == a[..n][1..];
        assert b[1..][..n - 1] == b[..n][1..];
        assert a[1..][..n - 1] == b[1..][..n - 1];
        assert LexicographicallyAtMost(a[1..], b[1..]);
      }
    } else {
      forall n | 0 < n <= |a| && n <= |b|
        ensures a[..n] != b[..n]
      {
        assert a[..n][0] != b[..n][0];
      }
    }
  }
}
