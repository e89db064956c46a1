/** What `renderNotes` and `createNoteElement` put in the list, as abstract
    view items instead of DOM elements. */
module View {
  import opened Notes
  import opened DateFormat
  import opened Query

  /** One child of the list container. A card's edit and delete triggers act
      on the note with id `id`. */
  datatype ViewItem =
    | EmptyState(message: string)
    | Card(id: string, title: string, time: DateLabel, body: string)

  const UntitledLabel: string := "📝 Untitled Note"
  const NoContentLabel: string := "No content"
  const NoNotesYetMessage: string := "📝 No notes yet. Create your first note above!"

  /** The empty-state text when the query `q` matched nothing. */
  function NoResultsMessage(q: string): string
  {
    "📝 No notes found for \"" + q + "\""
  }

  /** The empty-state text: it echoes the query when there is one. */
  function EmptyMessage(q: string): (r: string)
    ensures r == NoNotesYetMessage <==> q == ""
    ensures q != "" ==> |r| == |q| + 23 && r[22..] == q + "\""
  {
    EmptyMessagesDiffer(q);
    assert |NoResultsMessage(q)| == 23 + |q|;
    if q != "" then NoResultsMessage(q) else NoNotesYetMessage
  }

  /** The generic message is never a query echo, so the two kinds of empty state
      can be told apart. */
  lemma EmptyMessagesDiffer(q: string)
    ensures NoResultsMessage(q) != NoNotesYetMessage
  {
    assert NoResultsMessage(q)[11] == 'f';
    assert NoNotesYetMessage[11] == 'y';
  }

  /** The card for one note, with fallback labels for an empty title or body. */
  function NoteCard(n: Note, now: int): (v: ViewItem)
    ensures v.Card? && v.id == n.id && v.time == FormatDate(n.updated, now)
    ensures v.title == (if n.title == "" then UntitledLabel else n.title)
    ensures v.body == (if n.body == "" then NoContentLabel else n.body)
  {
    Card(n.id, if n.title == "" then UntitledLabel else n.title,
         FormatDate(n.updated, now), if n.body == "" then NoContentLabel else n.body)
  }

  /** A card never shows an empty title or body. */
  lemma CardLabelsNonEmpty(n: Note, now: int)
    ensures NoteCard(n, now).title != "" && NoteCard(n, now).body != ""
  {
  }

  /** One card per note, in order, as the `forEach` appends them. */
  function Cards(notes: seq<Note>, now: int): (r: seq<ViewItem>)
    ensures |r| == |notes|
    ensures forall i :: 0 <= i < |notes| ==> r[i] == NoteCard(notes[i], now)
    decreases |notes|
  {
    if notes == [] then [] else Cards(notes[..|notes| - 1], now) + [NoteCard(notes[|notes| - 1], now)]
  }

  /** The list for the notes `shown` under the query `q`. */
  function RenderList(shown: seq<Note>, q: string, now: int): (r: seq<ViewItem>)
    ensures shown == [] ==> r == [EmptyState(EmptyMessage(q))]
    ensures shown != [] ==>
              |r| == |shown| && forall i :: 0 <= i < |shown| ==> r[i] == NoteCard(shown[i], now)
    ensures forall i :: 0 <= i < |r| ==> (r[i].EmptyState? <==> shown == [])
  {
    if |shown| == 0 then [EmptyState(EmptyMessage(q))] else Cards(shown, now)
  }

  /** The notes `renderNotes` lists, in display order. */
  function ShownNotes(stored: seq<Note>, search: string, option: string): (r: seq<Note>)
    ensures forall n :: n in r ==> n in stored && Matches(n, QueryText(search))
    ensures forall n :: n in stored && Matches(n, QueryText(search)) ==> n in r
  {
    var found := SearchFilter(stored, QueryText(search));
    SortedMembers(option, found);
    SortBy(option, found)
  }

  /** What `renderNotes` shows for the stored notes, the search field's text and
      the sort option at time `now`. */
  function ViewOf(stored: seq<Note>, search: string, option: string, now: int): (r: seq<ViewItem>)
    ensures r != []
    ensures r[0].EmptyState? <==> ShownNotes(stored, search, option) == []
  {
    RenderList(ShownNotes(stored, search, option), QueryText(search), now)
  }

  /** The listed notes are the stored notes that match the query, each as often
      as it is stored, ordered by the sort option. */
  lemma ShownNotesAreMatches(stored: seq<Note>, search: string, option: string)
    ensures var shown := ShownNotes(stored, search, option);
      && (forall n :: multiset(shown)[n] == if Matches(n, QueryText(search)) then multiset(stored)[n] else 0)
      && SortedBy(option, shown)
  {
    SortByCorrect(option, SearchFilter(stored, QueryText(search)));
  }

  /** The view is the empty state exactly when no stored note matches the query. */
  lemma ViewEmptyIffNoMatch(stored: seq<Note>, search: string, option: string, now: int)
    ensures var q := QueryText(search);
      (forall n :: n in stored ==> !Matches(n, q)) <==> ViewOf(stored, search, option, now) == [EmptyState(EmptyMessage(q))]
  {
    var q := QueryText(search);
    var found := SearchFilter(stored, q);
    SortByLength(option, found);
    if forall n :: n in stored ==> !Matches(n, q) {
      if found != [] {
        assert multiset(found)[found[0]] > 0;
      }
    } else {
      var n :| n in stored && Matches(n, q);
      assert multiset(found)[n] > 0;
      assert ViewOf(stored, search, option, now)[0].Card?;
    }
  }

  /** A search that matches nothing shows the message that names the query;
      with an empty search the generic message shows exactly when nothing is stored. */
  lemma EmptyMessageEchoesQuery(stored: seq<Note>, search: string, option: string, now: int)
    ensures var q := QueryText(search);
      q != "" && (forall n :: n in stored ==> !Matches(n, q)) ==>
        ViewOf(stored, search, option, now) == [EmptyState(NoResultsMessage(q))]
    ensures QueryText(search) == "" ==>
      (ViewOf(stored, search, option, now) == [EmptyState(NoNotesYetMessage)] <==> stored == [])
  {
    ViewEmptyIffNoMatch(stored, search, option, now);
    if QueryText(search) == "" && stored != [] {
      assert Matches(stored[0], "");
    }
  }

  /** For the startup state (empty storage, empty search field) the view is
      the generic empty state. */
  lemma EmptyStartupView(option: string, now: int)
    ensures ViewOf([], "", option, now) == [EmptyState(NoNotesYetMessage)]
  {
    assert QueryText("") == "";
  }
}
