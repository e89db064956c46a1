/** Worked scenarios for the sort options and the search. */
module Scenarios {
  import opened Text
  import opened Notes
  import opened Query
  import opened View

  /** After creating "Alpha" and then "Beta" (so Beta is stored first), sorting by
      title ascending lists Alpha first, descending lists Beta first, and oldest
      first lists Alpha (updated earlier) first. */
  lemma AlphaBetaOrder()
    ensures var a, b := Note("a", "Alpha", "x", 1, 1), Note("b", "Beta", "y", 2, 2);
      && SortBy("az", [b, a]) == [a, b]
      && SortBy("za", [b, a]) == [b, a]
      && SortBy("old", [b, a]) == [a, b]
  {
    var a, b := Note("a", "Alpha", "x", 1, 1), Note("b", "Beta", "y", 2, 2);
    assert StrCompare("Alpha", "Beta") == -1;
    assert StrCompare("Beta", "Alpha") == 1;
    assert [b, a][..1] == [b];
    assert [b][..0] == [];
    assert SortBy("az", [b]) == [b] && SortBy("za", [b]) == [b] && SortBy("old", [b]) == [b];
    assert Insert("az", a, [b]) == [a, b];
    assert Insert("old", a, [b]) == [a, b];
    assert Insert("za", a, [b]) == [b, a];
  }

  /** Typing "alp" or "ALP" gives the search text "alp". */
  lemma AlpQueryText()
    ensures QueryText("alp") == "alp" && QueryText("ALP") == "alp"
  {
    assert Lower("alp") == "alp" && Lower("ALP") == "alp";
    assert TrimStart("alp") == 0 && TrimEnd("alp") == 3;
  }

  /** "alp" occurs in Alpha's searchable text. */
  lemma AlpMatchesAlpha()
    ensures Matches(Note("a", "Alpha", "x", 1, 1), "alp")
  {
    var a := Note("a", "Alpha", "x", 1, 1);
    assert a.title + " " + a.body == "Alpha x";
    var l := Lower("Alpha x");
    assert l[0] == 'a' && l[1] == 'l' && l[2] == 'p';
    assert "alp" <= l;
  }

  /** "alp" does not occur in Beta's searchable text. */
  lemma AlpMissesBeta()
    ensures !Matches(Note("b", "Beta", "y", 2, 2), "alp")
  {
    var b := Note("b", "Beta", "y", 2, 2);
    assert b.title + " " + b.body == "Beta y";
    assert Lower("Beta y") == "beta y";
    assert !Contains("beta y", "alp") by {
      assert !Contains("", "alp");
      assert !Contains("y", "alp");
      assert !Contains(" y", "alp");
      assert !Contains("a y", "alp");
      assert !Contains("ta y", "alp");
      assert !Contains("eta y", "alp");
    }
  }

  /** With the same two notes, typing "alp" into the search field lists only
      Alpha, whatever the case typed, under the newest-first order. */
  lemma AlphaSearch()
    ensures var a, b := Note("a", "Alpha", "x", 1, 1), Note("b", "Beta", "y", 2, 2);
      && ShownNotes([b, a], "alp", "new") == [a]
      && ShownNotes([b, a], "ALP", "new") == [a]
  {
    var a, b := Note("a", "Alpha", "x", 1, 1), Note("b", "Beta", "y", 2, 2);
    AlpQueryText();
    AlpMatchesAlpha();
    AlpMissesBeta();
    var found := SearchFilter([b, a], "alp");
    forall n ensures multiset(found)[n] == multiset{a}[n] {
      assert multiset([b, a])[n] == multiset{b}[n] + multiset{a}[n];
    }
    assert multiset(found) == multiset{a};
    assert |found| == |multiset(found)| == 1;
    assert found[0] in multiset(found);
    assert found == [a];
    assert [a][..0] == [];
    assert SortBy("new", [a]) == [a];
  }
}
