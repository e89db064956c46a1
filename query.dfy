/** The query half of `renderNotes`: the case-insensitive search filter and
    the in-place sort by the selected option. */
module Query {
  import opened Sequences
  import opened Text
  import opened Notes

  /** The search text as `renderNotes` uses it: lower-cased, then trimmed. */
  function QueryText(raw: string): (r: string)
    ensures forall k :: 0 <= k < |r| ==> !('A' <= r[k] <= 'Z')
    ensures r != "" ==> !IsWhitespace(r[0]) && !IsWhitespace(r[|r| - 1])
  {
    LowerHasNoUpper(raw);
    Trim(Lower(raw))
  }

  /** The query text ignores the case of what was typed. */
  lemma QueryTextIgnoresCase(raw: string)
    ensures QueryText(Lower(raw)) == QueryText(raw)
  {
    LowerIdempotent(raw);
  }

  /** A note matches `q` when `q` occurs in its lower-cased `title + " " + body`. */
  predicate Matches(n: Note, q: string)
    ensures q == "" ==> Matches(n, q)
  {
    ContainsEmpty(Lower(n.title + " " + n.body));
    Contains(Lower(n.title + " " + n.body), q)
  }

  /** Matching looks at the lower-cased title and body, joined by a space. */
  lemma MatchesLowered(n: Note, q: string)
    ensures Matches(n, q) <==> Contains(Lower(n.title) + " " + Lower(n.body), q)
  {
    LowerConcat(n.title + " ", n.body);
    LowerConcat(n.title, " ");
    assert Lower(" ") == " ";
  }

  /** The search step: an empty query keeps every note; otherwise only the
      matching notes are kept, in their stored order. */
  function SearchFilter(notes: seq<Note>, q: string): (r: seq<Note>)
    ensures IsSubsequence(r, notes)
    ensures forall n :: n in r ==> Matches(n, q)
    ensures forall n :: multiset(r)[n] == if Matches(n, q) then multiset(notes)[n] else 0
    ensures q == "" ==> r == notes
  {
    if q != "" then Filter(notes, (n: Note) => Matches(n, q))
    else
      assert forall n :: Matches(n, q) by {
        forall n ensures Matches(n, q) { ContainsEmpty(Lower(n.title + " " + n.body)); }
      }
      SubsequenceOfItself(notes);
      notes
  }

  /** The comparator handed to `notes.sort`: negative when `a` is to come
      before `b`, positive when after, zero when the two are tied. */
  function Compare(option: string, a: Note, b: Note): int
  {
    if option == "new" then b.updated - a.updated
    else if option == "old" then a.updated - b.updated
    else if option == "az" then StrCompare(a.title, b.title)
    else if option == "za" then StrCompare(b.title, a.title)
    else 0
  }

  /** What each option puts first: the later `updated` for "new", the earlier
      for "old", the title that sorts first for "az" and the one that sorts last
      for "za"; only equal keys tie, and any other option ties every pair. */
  lemma CompareMeaning(option: string, a: Note, b: Note)
    ensures option == "new" ==>
              (Compare(option, a, b) < 0 <==> a.updated > b.updated) && (Compare(option, a, b) == 0 <==> a.updated == b.updated)
    ensures option == "old" ==>
              (Compare(option, a, b) < 0 <==> a.updated < b.updated) && (Compare(option, a, b) == 0 <==> a.updated == b.updated)
    ensures option == "az" ==>
              (Compare(option, a, b) < 0 <==> StrCompare(a.title, b.title) < 0) && (Compare(option, a, b) == 0 <==> a.title == b.title)
    ensures option == "za" ==>
              (Compare(option, a, b) < 0 <==> StrCompare(a.title, b.title) > 0) && (Compare(option, a, b) == 0 <==> a.title == b.title)
    ensures option !in {"new", "old", "az", "za"} ==> Compare(option, a, b) == 0
  {
    StrCompareAntisymmetric(a.title, b.title);
  }

  /** For every option the comparator is a total preorder: each note ties with
      itself, a pair is ordered one way or both, and "no later than" is transitive. */
  lemma CompareIsTotalPreorder(option: string, a: Note, b: Note, c: Note)
    ensures Compare(option, a, a) == 0
    ensures Compare(option, a, b) > 0 ==> Compare(option, b, a) < 0
    ensures Compare(option, a, b) <= 0 && Compare(option, b, c) <= 0 ==> Compare(option, a, c) <= 0
  {
    StrCompareAntisymmetric(a.title, a.title);
    StrCompareAntisymmetric(a.title, b.title);
    if option == "az" && Compare(option, a, b) <= 0 && Compare(option, b, c) <= 0 {
      StrCompareTransitive(a.title, b.title, c.title);
    }
    if option == "za" && Compare(option, a, b) <= 0 && Compare(option, b, c) <= 0 {
      StrCompareTransitive(c.title, b.title, a.title);
    }
  }

  /** Every earlier note compares no later than every later one. */
  ghost predicate SortedBy(option: string, s: seq<Note>)
  {
    forall i, j :: 0 <= i < j < |s| ==> Compare(option, s[i], s[j]) <= 0
  }

  /** Inserts `x` into `s` after every note that it does not sort strictly before:
      one step of a stable insertion sort. */
  function Insert(option: string, x: Note, s: seq<Note>): seq<Note>
    decreases |s|
  {
    if s == [] then [x]
    else if Compare(option, s[|s| - 1], x) > 0 then Insert(option, x, s[..|s| - 1]) + [s[|s| - 1]]
    else s + [x]
  }

  /** The result of a stable sort of `s` under the option's comparator. */
  function SortBy(option: string, s: seq<Note>): seq<Note>
    decreases |s|
  {
    if s == [] then [] else Insert(option, s[|s| - 1], SortBy(option, s[..|s| - 1]))
  }

  /** Inserting adds exactly `x`. */
  lemma {:induction false} InsertPermutation(option: string, x: Note, s: seq<Note>)
    ensures multiset(Insert(option, x, s)) == multiset(s) + multiset{x}
    decreases |s|
  {
    if s != [] {
      assert s == s[..|s| - 1] + [s[|s| - 1]];
      if Compare(option, s[|s| - 1], x) > 0 {
        InsertPermutation(option, x, s[..|s| - 1]);
      }
    }
  }

  /** Inserting into a sorted sequence gives a sorted sequence. */
  lemma {:induction false} InsertSorted(option: string, x: Note, s: seq<Note>)
    requires SortedBy(option, s)
    ensures SortedBy(option, Insert(option, x, s))
    decreases |s|
  {
    if s != [] {
      var init, last := s[..|s| - 1], s[|s| - 1];
      if Compare(option, last, x) > 0 {
        InsertSorted(option, x, init);
        assert forall k :: 0 <= k < |init| ==> Compare(option, init[k], last) <= 0 by {
          forall k | 0 <= k < |init| ensures Compare(option, init[k], last) <= 0 {
            assert init[k] == s[k];
          }
        }
        InsertKeepsBound(option, x, init, last);
      } else {
        forall k | 0 <= k < |s| ensures Compare(option, s[k], x) <= 0 {
          if k < |s| - 1 {
            CompareIsTotalPreorder(option, s[k], last, x);
          }
        }
      }
    }
  }

  /** The sorted notes are a permutation of the input, ordered by the option's comparator. */
  lemma {:induction false} SortByCorrect(option: string, s: seq<Note>)
    ensures multiset(SortBy(option, s)) == multiset(s)
    ensures SortedBy(option, SortBy(option, s))
    decreases |s|
  {
    if s != [] {
      var init := s[..|s| - 1];
      SortByCorrect(option, init);
      InsertPermutation(option, s[|s| - 1], SortBy(option, init));
      InsertSorted(option, s[|s| - 1], SortBy(option, init));
      MultisetOfInitLast(s);
    }
  }

  /** Inserting `x`, which sorts strictly after `last`, into notes that all sort
      no later than `last` gives notes that all sort no later than `last`. */
  lemma InsertKeepsBound(option: string, x: Note, init: seq<Note>, last: Note)
    requires forall k :: 0 <= k < |init| ==> Compare(option, init[k], last) <= 0
    requires Compare(option, last, x) > 0
    ensures forall k :: 0 <= k < |Insert(option, x, init)| ==> Compare(option, Insert(option, x, init)[k], last) <= 0
  {
    InsertPermutation(option, x, init);
    var left := Insert(option, x, init);
    forall k | 0 <= k < |left| ensures Compare(option, left[k], last) <= 0 {
      assert left[k] in multiset(left);
      if left[k] == x {
        CompareIsTotalPreorder(option, last, x, x);
      } else {
        assert left[k] in init;
      }
    }
  }

  /** Sorting keeps exactly the notes it is given. */
  lemma SortedMembers(option: string, s: seq<Note>)
    ensures forall n :: n in SortBy(option, s) <==> n in s
  {
    SortByCorrect(option, s);
    forall n ensures n in SortBy(option, s) <==> n in s {
      assert n in SortBy(option, s) <==> n in multiset(SortBy(option, s));
      assert n in s <==> n in multiset(s);
    }
  }

  /** Sorting keeps the number of notes. */
  lemma SortByLength(option: string, s: seq<Note>)
    ensures |SortBy(option, s)| == |s|
  {
    SortByCorrect(option, s);
    assert |multiset(SortBy(option, s))| == |multiset(s)|;
  }

  /** "new": most recently updated first. */
  lemma SortNewestFirst(s: seq<Note>)
    ensures forall i, j :: 0 <= i < j < |SortBy("new", s)| ==>
              SortBy("new", s)[i].updated >= SortBy("new", s)[j].updated
  {
    SortByCorrect("new", s);
  }

  /** "old": least recently updated first. */
  lemma SortOldestFirst(s: seq<Note>)
    ensures forall i, j :: 0 <= i < j < |SortBy("old", s)| ==>
              SortBy("old", s)[i].updated <= SortBy("old", s)[j].updated
  {
    SortByCorrect("old", s);
  }

  /** "az": titles in ascending code-point order. */
  lemma SortTitleAscending(s: seq<Note>)
    ensures forall i, j :: 0 <= i < j < |SortBy("az", s)| ==>
              StrCompare(SortBy("az", s)[i].title, SortBy("az", s)[j].title) <= 0
  {
    SortByCorrect("az", s);
  }

  /** "za": titles in descending code-point order. */
  lemma SortTitleDescending(s: seq<Note>)
    ensures forall i, j :: 0 <= i < j < |SortBy("za", s)| ==>
              StrCompare(SortBy("za", s)[i].title, SortBy("za", s)[j].title) >= 0
  {
    SortByCorrect("za", s);
    forall i, j | 0 <= i < j < |SortBy("za", s)|
      ensures StrCompare(SortBy("za", s)[i].title, SortBy("za", s)[j].title) >= 0
    {
      StrCompareAntisymmetric(SortBy("za", s)[i].title, SortBy("za", s)[j].title);
    }
  }

  /** Any other option compares every pair as tied, and the stable sort keeps the order. */
  lemma {:induction false} SortUnknownOptionKeepsOrder(option: string, s: seq<Note>)
    requires option != "new" && option != "old" && option != "az" && option != "za"
    ensures SortBy(option, s) == s
    decreases |s|
  {
    if s != [] {
      SortUnknownOptionKeepsOrder(option, s[..|s| - 1]);
      assert s == s[..|s| - 1] + [s[|s| - 1]];
    }
  }

  /** `Insert` places `x` right after the longest prefix of `s` whose last note
      does not sort strictly after `x`. */
  lemma {:induction false} InsertAt(option: string, x: Note, s: seq<Note>, j: nat)
    requires j <= |s|
    requires forall k :: j <= k < |s| ==> Compare(option, s[k], x) > 0
    requires j == 0 || Compare(option, s[j - 1], x) <= 0
    ensures Insert(option, x, s) == s[..j] + [x] + s[j..]
    decreases |s|
  {
    if |s| == j {
      if j > 0 {
        assert s[..j] == s;
      }
    } else {
      var init := s[..|s| - 1];
      assert init[..j] == s[..j];
      if j > 0 {
        assert init[j - 1] == s[j - 1];
      }
      InsertAt(option, x, init, j);
      assert s[j..] == init[j..] + [s[|s| - 1]];
    }
  }

  /** A sequence that agrees with `sorted` before `j`, holds `x` at `j` and
      `sorted` shifted by one after `j` is `sorted` with `x` inserted at `j`. */
  lemma PlacedAt(b: seq<Note>, sorted: seq<Note>, x: Note, j: nat)
    requires j <= |sorted| && |b| == |sorted| + 1
    requires forall k :: 0 <= k < j ==> b[k] == sorted[k]
    requires b[j] == x
    requires forall k :: j < k < |b| ==> b[k] == sorted[k - 1]
    ensures b == sorted[..j] + [x] + sorted[j..]
  {
  }

  /** Moves `a[i]` left past every note of the sorted prefix `a[..i]` that it
      sorts strictly before, shifting those one place right. */
  method InsertInPlace(a: array<Note>, i: nat, option: string)
    requires i < a.Length
    modifies a
    ensures a[..i + 1] == Insert(option, old(a[i]), old(a[..i]))
    ensures a[i + 1..] == old(a[i + 1..])
  {
    ghost var sorted := a[..i];
    var x := a[i];
    var j := i;
    while j > 0 && Compare(option, a[j - 1], x) > 0
      invariant 0 <= j <= i
      invariant forall k :: 0 <= k < j ==> a[k] == sorted[k]
      invariant forall k :: j < k <= i ==> a[k] == sorted[k - 1]
      invariant forall k :: i < k < a.Length ==> a[k] == old(a[k])
      invariant forall k :: j <= k < i ==> Compare(option, sorted[k], x) > 0
    {
      a[j] := a[j - 1];
      j := j - 1;
    }
    InsertAt(option, x, sorted, j);
    a[j] := x;
    PlacedAt(a[..i + 1], sorted, x, j);
  }

  /** Sorting one more element of `s` inserts it into the sorted prefix. */
  lemma SortByPrefixStep(option: string, s: seq<Note>, i: nat)
    requires i < |s|
    ensures SortBy(option, s[..i + 1]) == Insert(option, s[i], SortBy(option, s[..i]))
  {
    assert s[..i + 1][..i] == s[..i];
  }

  /** `notes.sort(cmp)` on an array: a stable insertion sort, in place. */
  method SortNotes(a: array<Note>, option: string)
    modifies a
    ensures a[..] == SortBy(option, old(a[..]))
  {
    ghost var input := a[..];
    var i := 0;
    while i < a.Length
      invariant 0 <= i <= a.Length
      invariant a[..i] == SortBy(option, input[..i])
      invariant a[i..] == input[i..]
    {
      assert a[i] == input[i];
      InsertInPlace(a, i, option);
      SortByPrefixStep(option, input, i);
      i := i + 1;
    }
    assert input[..a.Length] == input;
  }

  /** `updated` does not decrease along `s`. */
  ghost predicate AscendingUpdated(s: seq<Note>)
  {
    forall i, j :: 0 <= i < j < |s| ==> s[i].updated <= s[j].updated
  }

  /** Notes of `s` that were updated at the same instant are the same note. */
  ghost predicate NoTiedNotes(s: seq<Note>)
  {
    forall a, b :: a in s && b in s && a.updated == b.updated ==> a == b
  }

  /** Two non-empty arrangements of the same notes in ascending `updated` order,
      without ties, start with the same note. */
  lemma AscendingArrangementsShareHead(x: seq<Note>, y: seq<Note>)
    requires x != [] && multiset(x) == multiset(y)
    requires AscendingUpdated(x) && AscendingUpdated(y)
    requires NoTiedNotes(x)
    ensures y != [] && x[0] == y[0]
  {
    assert x[0] in multiset(y) && y[0] in multiset(x);
    var k :| 0 <= k < |y| && y[k] == x[0];
    var m :| 0 <= m < |x| && x[m] == y[0];
    assert x[0].updated <= y[0].updated;
  }

  /** Dropping the first note keeps the order ascending. */
  lemma AscendingTail(s: seq<Note>)
    requires s != [] && AscendingUpdated(s)
    ensures AscendingUpdated(s[1..])
  {
    forall i, j | 0 <= i < j < |s| - 1 ensures s[1..][i].updated <= s[1..][j].updated {
      assert s[1..][i] == s[i + 1] && s[1..][j] == s[j + 1];
    }
  }

  /** Dropping a common head keeps the rest rearrangements of each other. */
  lemma TailsRearranged(x: seq<Note>, y: seq<Note>)
    requires x != [] && y != [] && x[0] == y[0] && multiset(x) == multiset(y)
    requires NoTiedNotes(x)
    ensures multiset(x[1..]) == multiset(y[1..]) && NoTiedNotes(x[1..])
  {
    assert x == [x[0]] + x[1..] && y == [y[0]] + y[1..];
    assert multiset(x) == multiset{x[0]} + multiset(x[1..]);
    assert multiset(y) == multiset{y[0]} + multiset(y[1..]);
    assert multiset(x[1..]) == multiset(x) - multiset{x[0]};
    assert multiset(y[1..]) == multiset(y) - multiset{y[0]};
    forall a, b | a in x[1..] && b in x[1..] && a.updated == b.updated ensures a == b {
      assert a in x && b in x;
    }
  }

  /** Two arrangements of the same notes, both in ascending `updated` order and
      without ties between different notes, are the same sequence. */
  lemma {:induction false} AscendingArrangementUnique(x: seq<Note>, y: seq<Note>)
    requires multiset(x) == multiset(y)
    requires AscendingUpdated(x) && AscendingUpdated(y)
    requires NoTiedNotes(x)
    ensures x == y
    decreases |x|
  {
    if x == [] {
      assert |multiset(y)| == 0;
    } else {
      AscendingArrangementsShareHead(x, y);
      TailsRearranged(x, y);
      AscendingTail(x);
      AscendingTail(y);
      AscendingArrangementUnique(x[1..], y[1..]);
      assert x == [x[0]] + x[1..] && y == [y[0]] + y[1..];
    }
  }

  /** Reading a sequence in descending `updated` order back to front gives
      ascending order. */
  lemma ReverseOfDescendingAscends(n: seq<Note>)
    requires forall i, j :: 0 <= i < j < |n| ==> n[i].updated >= n[j].updated
    ensures AscendingUpdated(Reverse(n))
  {
    var rev := Reverse(n);
    forall i, j | 0 <= i < j < |rev| ensures rev[i].updated <= rev[j].updated {
      assert rev[i] == n[|n| - 1 - i] && rev[j] == n[|n| - 1 - j];
    }
  }

  /** A rearrangement of notes with pairwise distinct `updated` has no tied notes. */
  lemma RearrangementHasNoTies(x: seq<Note>, s: seq<Note>)
    requires multiset(x) == multiset(s)
    requires forall i, j :: 0 <= i < j < |s| ==> s[i].updated != s[j].updated
    ensures NoTiedNotes(x)
  {
    forall a, b | a in x && b in x && a.updated == b.updated ensures a == b {
      assert a in multiset(s) && b in multiset(s);
      var p :| 0 <= p < |s| && s[p] == a;
      var q :| 0 <= q < |s| && s[q] == b;
      assert p == q;
    }
  }

  /** When no two notes share an `updated` instant, "old" lists the notes in
      exactly the reverse of the "new" order. */
  lemma OldIsReverseOfNew(s: seq<Note>)
    requires forall i, j :: 0 <= i < j < |s| ==> s[i].updated != s[j].updated
    ensures SortBy("old", s) == Reverse(SortBy("new", s))
  {
    var byOld, byNew := SortBy("old", s), SortBy("new", s);
    SortByCorrect("old", s);
    SortByCorrect("new", s);
    ReversePermutation(byNew);
    SortOldestFirst(s);
    SortNewestFirst(s);
    ReverseOfDescendingAscends(byNew);
    RearrangementHasNoTies(byOld, s);
    AscendingArrangementUnique(byOld, Reverse(byNew));
  }
}
