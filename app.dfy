/** The widget's event handlers over its state: the storage slot under the key
    "notes-app-v1" and the DOM fields they read and write. */
module App {
  import opened Text
  import opened Notes
  import opened Query
  import opened View

  class NotesApp {
    /** The collection saved under the storage key (`loadNotes` / `saveNotes`). */
    var stored: seq<Note>
    /** The values of the title and body inputs of the form. */
    var titleField: string
    var bodyField: string
    /** The value of the search input and of the sort selector. */
    var searchField: string
    var sortField: string
    /** The children of the list container. */
    var list: seq<ViewItem>

    /** Page load: the inputs hold whatever the page starts them with, and the
        list is rendered from the saved notes under that search text and option. */
    constructor (saved: seq<Note>, title: string, body: string, search: string, option: string, now: int)
      ensures stored == saved && sortField == option
      ensures titleField == title && bodyField == body && searchField == search
      ensures list == ViewOf(saved, search, option, now)
    {
      stored := saved;
      titleField, bodyField, searchField, sortField := title, body, search, option;
      list := [];
      new;
      RenderNotes(now);
    }

    /** `renderNotes`: load, filter by the search text, sort by the selected
        option in place, clear the list and fill it. */
    method RenderNotes(now: int)
      modifies this`list
      ensures list == ViewOf(stored, searchField, sortField, now)
    {
      var q := QueryText(searchField);
      var a := LoadSorted(q, sortField);
      FillList(a, q, now);
    }

    /** The loaded notes filtered by the query text `q` and sorted in place. */
    method LoadSorted(q: string, option: string) returns (a: array<Note>)
      ensures fresh(a)
      ensures a[..] == SortBy(option, SearchFilter(stored, q))
    {
      var notes := SearchFilter(stored, q);
      a := new Note[|notes|](i requires 0 <= i < |notes| => notes[i]);
      assert a[..] == notes;
      SortNotes(a, option);
    }

    /** Clears the list, then shows the empty state or one card per note of `a`. */
    method FillList(a: array<Note>, q: string, now: int)
      modifies this`list
      ensures list == RenderList(a[..], q, now)
    {
      list := [];
      if a.Length == 0 {
        list := [EmptyState(EmptyMessage(q))];
        return;
      }
      AppendCards(a, now);
    }

    /** Appends one card per note of `a` to the list, in array order. */
    method AppendCards(a: array<Note>, now: int)
      modifies this`list
      ensures list == old(list) + Cards(a[..], now)
    {
      var k := 0;
      while k < a.Length
        invariant 0 <= k <= a.Length
        invariant list == old(list) + Cards(a[..k], now)
      {
        assert a[..k + 1][..k] == a[..k];
        list := list + [NoteCard(a[k], now)];
        k := k + 1;
      }
      assert a[..a.Length] == a[..];
    }

    /** The user typing into the form's title and body inputs. */
    method FillForm(title: string, body: string)
      modifies this`titleField, this`bodyField
      ensures titleField == title && bodyField == body
    {
      titleField, bodyField := title, body;
    }

    /** The form's submit handler. `id` stands for `crypto.randomUUID()` and
        `created`, `updated` for the two clock reads; `now` is the render time. */
    method Submit(id: string, created: int, updated: int, now: int) returns (accepted: bool)
      requires IdFree(stored, id)
      modifies this`stored, this`titleField, this`bodyField, this`list
      ensures accepted <==> Trim(old(titleField)) != "" || Trim(old(bodyField)) != ""
      ensures !accepted ==>
                && stored == old(stored) && list == old(list)
                && titleField == old(titleField) && bodyField == old(bodyField)
      ensures accepted ==>
                && stored == [Note(id, Trim(old(titleField)), Trim(old(bodyField)), created, updated)] + old(stored)
                && titleField == "" && bodyField == ""
                && list == ViewOf(stored, searchField, sortField, now)
      ensures old(UniqueIds(stored)) ==> UniqueIds(stored)
    {
      var title := Trim(titleField);
      var body := Trim(bodyField);
      if title == "" && body == "" {
        accepted := false;
        return;
      }
      SaveNew(Note(id, title, body, created, updated), now);
      accepted := true;
    }

    /** The accepted half of the submit handler: stores `note` in front of the
        loaded notes, clears the form and re-renders. */
    method SaveNew(note: Note, now: int)
      requires IdFree(stored, note.id)
      modifies this`stored, this`titleField, this`bodyField, this`list
      ensures stored == [note] + old(stored)
      ensures titleField == "" && bodyField == ""
      ensures list == ViewOf(stored, searchField, sortField, now)
      ensures old(UniqueIds(stored)) ==> UniqueIds(stored)
    {
      var notes := stored;
      ghost var before := notes;
      notes := [note] + notes;
      stored := notes;
      if UniqueIds(before) {
        PrependFreshKeepsUniqueIds(note, before);
      }
      titleField, bodyField := "", "";
      RenderNotes(now);
    }

    /** `editNote`: `newTitle` and `newBody` are the answers to the two prompts;
        the body prompt is not reached when the title prompt is cancelled.
        `editedAt` is the clock read stored as `updated`. */
    method EditNote(noteId: string, newTitle: Option<string>, newBody: Option<string>, editedAt: int, now: int)
      modifies this`stored, this`list
      ensures newTitle.None? || newBody.None? ==> stored == old(stored) && list == old(list)
      ensures newTitle.Some? && newBody.Some? ==>
                && stored == EditById(old(stored), noteId, newTitle.value, newBody.value, editedAt)
                && list == ViewOf(stored, searchField, sortField, now)
      ensures old(UniqueIds(stored)) ==> UniqueIds(stored)
    {
      if newTitle.None? {
        return;
      }
      if newBody.None? {
        return;
      }
      var notes := EditById(stored, noteId, newTitle.value, newBody.value, editedAt);
      if UniqueIds(stored) {
        EditKeepsUniqueIds(stored, noteId, newTitle.value, newBody.value, editedAt);
      }
      stored := notes;
      RenderNotes(now);
    }

    /** `deleteNote`: `confirmed` is the answer to the confirmation dialog. */
    method DeleteNote(noteId: string, confirmed: bool, now: int)
      modifies this`stored, this`list
      ensures !confirmed ==> stored == old(stored) && list == old(list)
      ensures confirmed ==>
                && stored == RemoveById(old(stored), noteId)
                && list == ViewOf(stored, searchField, sortField, now)
      ensures old(UniqueIds(stored)) ==> UniqueIds(stored)
    {
      if !confirmed {
        return;
      }
      var notes := RemoveById(stored, noteId);
      if UniqueIds(stored) {
        RemoveKeepsUniqueIds(stored, noteId);
      }
      stored := notes;
      RenderNotes(now);
    }

    /** The search input's `input` listener. */
    method OnSearchInput(value: string, now: int)
      modifies this`searchField, this`list
      ensures searchField == value
      ensures list == ViewOf(stored, value, sortField, now)
    {
      searchField := value;
      RenderNotes(now);
    }

    /** The sort selector's `change` listener. */
    method OnSortChange(value: string, now: int)
      modifies this`sortField, this`list
      ensures sortField == value
      ensures list == ViewOf(stored, searchField, value, now)
    {
      sortField := value;
      RenderNotes(now);
    }
  }
}
