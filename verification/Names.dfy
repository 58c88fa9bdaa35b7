/** Name cleaning: `re.sub(r'[^a-zA-Z]', '', name).lower()`. */
module Names {
  import opened Text

  /** The ASCII letters of `s`, in order (what `re.sub(r'[^a-zA-Z]', '', s)` keeps). */
  function Letters(s: string): (r: string)
    ensures |r| <= |s|
    ensures forall k :: 0 <= k < |r| ==> IsAsciiLetter(r[k])
  {
    if s == [] then [] else (if IsAsciiLetter(s[0]) then [s[0]] else []) + Letters(s[1..])
  }

  /** The cleaned name: its ASCII letters, lower-cased. */
  function CleanText(s: string): string
  {
    Lower(Letters(s))
  }

  predicate IsLowerLetter(c: char)
  {
    'a' <= c <= 'z'
  }

  /** A cleaned name consists of lower-case ASCII letters only (it may be empty). */
  lemma CleanTextIsLowercase(s: string)
    ensures forall k :: 0 <= k < |CleanText(s)| ==> IsLowerLetter(CleanText(s)[k])
  {
  }

  lemma {:induction false} LettersAppend(a: string, b: string)
    ensures Letters(a + b) == Letters(a) + Letters(b)
    decreases |a|
  {
    if a == [] {
      assert a + b == b;
    } else {
      assert (a + b)[1..] == a[1..] + b;
      LettersAppend(a[1..], b);
    }
  }

  /** Per character, the substitution keeps exactly the ASCII letters. */
  lemma LettersChar(c: char)
    ensures Letters([c]) == if IsAsciiLetter(c) then [c] else []
  {
    assert [c][1..] == [];
  }

  /** Per character, the cleaned name is the lower-cased letter or nothing;
      with CleanTextAppend this fixes the cleaned name of every text. */
  lemma CleanTextChar(c: char)
    ensures CleanText([c]) == if IsAsciiLetter(c) then [LowerChar(c)] else []
  {
    LettersChar(c);
  }

  /** Cleaning works character by character: it distributes over concatenation. */
  lemma CleanTextAppend(a: string, b: string)
    ensures CleanText(a + b) == CleanText(a) + CleanText(b)
  {
    LettersAppend(a, b);
  }

  /** A text of lower-case letters is left as it is. */
  lemma {:induction false} CleanTextFixesLowercase(s: string)
    requires forall k :: 0 <= k < |s| ==> IsLowerLetter(s[k])
    ensures CleanText(s) == s
    decreases |s|
  {
    if s != [] {
      CleanTextFixesLowercase(s[1..]);
    }
  }

  /** Cleaning a cleaned name changes nothing. */
  lemma CleanTextIdempotent(s: string)
    ensures CleanText(CleanText(s)) == CleanText(s)
  {
    CleanTextIsLowercase(s);
    CleanTextFixesLowercase(CleanText(s));
  }
}
