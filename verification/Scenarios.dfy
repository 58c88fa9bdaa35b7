/** Concrete cases of the rules, several taken from the repository's tests. */
module Scenarios {
  import opened Values
  import opened Text
  import opened Domain
  import opened Names
  import opened Tables
  import opened Cleaning
  import opened Query

  /** `www.acme.io` simplifies to `acme.io`: the leading label is dropped. */
  lemma SubdomainDropped()
    ensures Simplify("www.acme.io") == Some("acme.io")
  {
    var s := "www.acme.io";
    assert Subject(s) == s;
    assert LastDot(s[..9]) == Some(8);
    assert LastDot(s[..10]) == Some(8);
    assert LastDot(s) == Some(8);
    assert RunStart(s, 4) == 4;
    assert RunStart(s, 8) == 4;
    assert s[4..] == "acme.io";
  }

  /** A two-label ending such as `.com.co` keeps only its last label pair. */
  lemma TwoLabelEnding()
    ensures Simplify("shop.com.co") == Some("com.co")
  {
    var s := "shop.com.co";
    assert Subject(s) == s;
    assert LastDot(s[..9]) == Some(8);
    assert LastDot(s[..10]) == Some(8);
    assert LastDot(s) == Some(8);
    assert RunStart(s, 5) == 5;
    assert RunStart(s, 8) == 5;
    assert s[5..] == "com.co";
  }

  /** Without a dot, or with nothing after the last dot, there is no match. */
  lemma DomainWithoutMatch()
    ensures Simplify("localhost") == None
    ensures Simplify("acme.") == None
  {
    assert LastDot("acme.") == Some(4);
    var s := "localhost";
    assert LastDot(s) == None;
  }

  /** `Acme-123!` cleans to `acme`. */
  lemma NameExample()
    ensures CleanText("Acme-123!") == "acme"
  {
    assert Letters("Acme-123!") == "Acme";
    assert Lower("Acme") == "acme";
  }

  /** A row with neither a domain nor a locality is dropped. */
  lemma RowWithoutDomainOrLocality()
    ensures CleanRow([Int(2), Str("X"), Null, Null], Indices(2, 3, 1)) == Dropped
  {
  }

  /** A row with no domain but a locality survives. */
  lemma RowWithLocalityOnly()
    ensures CleanRow([Int(3), Str("B-P-R"), Null, Str("kigali")], Indices(2, 3, 1)) ==
      Kept([Int(3), Str("bpr"), Null, Str("kigali")])
  {
    assert Letters("B-P-R") == "BPR";
    assert Lower("BPR") == "bpr";
    assert CleanName(Str("B-P-R")) == Some(Str("bpr"));
  }

  /** The threshold compares texts: with threshold 5 the cells "5" and "9"
      pass while "24" and "10" do not; "24" passes threshold 24. */
  lemma ThresholdExamples()
    ensures TextAtMost(DecimalText(5), "5") && TextAtMost(DecimalText(5), "9")
    ensures !TextAtMost(DecimalText(5), "24") && !TextAtMost(DecimalText(5), "10")
    ensures TextAtMost(DecimalText(24), "24")
  {
    assert DecimalText(5) == "5";
    assert DecimalText(24) == "24" by {
      assert NatText(24) == NatText(2) + [DigitChar(4)];
    }
  }
}
