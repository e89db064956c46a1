/** The note record and the two pure collection transforms of the widget:
    editing by id (a `map`) and deleting by id (a `filter`). */
module Notes {
  import opened Sequences
  import opened Text

  /** One stored note. Timestamps are milliseconds since the epoch (the
      stored ISO strings, parsed). */
  datatype Note = Note(id: string, title: string, body: string, created: int, updated: int)

  /** The answer of a blocking dialog that can be cancelled: `None` is cancel. */
  datatype Option<T> = None | Some(value: T)

  /** No two notes of the collection share an id. */
  ghost predicate UniqueIds(notes: seq<Note>)
  {
    forall i, j :: 0 <= i < j < |notes| ==> notes[i].id != notes[j].id
  }

  /** No note of the collection carries `id`. */
  predicate IdFree(notes: seq<Note>, id: string)
  {
    forall n :: n in notes ==> n.id != id
  }

  /** Every note has been updated no earlier than it was created. */
  ghost predicate TimesOrdered(notes: seq<Note>)
  {
    forall i :: 0 <= i < |notes| ==> notes[i].created <= notes[i].updated
  }

  /** Editing by id: every note with id `id` gets the trimmed new title and body
      and is stamped `now`; every other note is kept as it is. */
  function EditById(notes: seq<Note>, id: string, newTitle: string, newBody: string, now: int): (r: seq<Note>)
    ensures |r| == |notes|
    ensures forall i :: 0 <= i < |notes| ==> r[i].id == notes[i].id && r[i].created == notes[i].created
    ensures forall i :: 0 <= i < |notes| && notes[i].id == id ==>
              r[i].title == Trim(newTitle) && r[i].body == Trim(newBody) && r[i].updated == now
    ensures forall i :: 0 <= i < |notes| && notes[i].id != id ==> r[i] == notes[i]
  {
    ReplaceById(notes, id, Trim(newTitle), Trim(newBody), now)
  }

  /** The `map` of `EditById`, with the new title and body already trimmed. */
  function ReplaceById(notes: seq<Note>, id: string, title: string, body: string, now: int): (r: seq<Note>)
    ensures |r| == |notes|
    ensures forall i :: 0 <= i < |notes| ==> r[i].id == notes[i].id && r[i].created == notes[i].created
    ensures forall i :: 0 <= i < |notes| && notes[i].id == id ==>
              r[i].title == title && r[i].body == body && r[i].updated == now
    ensures forall i :: 0 <= i < |notes| && notes[i].id != id ==> r[i] == notes[i]
    decreases |notes|
  {
    if notes == [] then []
    else
      var n := notes[0];
      var head := if n.id == id then n.(title := title, body := body, updated := now) else n;
      var rest := ReplaceById(notes[1..], id, title, body, now);
      assert forall i :: 0 < i < |notes| ==> ([head] + rest)[i] == rest[i - 1] && notes[i] == notes[1..][i - 1];
      [head] + rest
  }

  /** Editing an id that no note carries leaves the collection as it was. */
  lemma EditAbsentUnchanged(notes: seq<Note>, id: string, newTitle: string, newBody: string, now: int)
    requires IdFree(notes, id)
    ensures EditById(notes, id, newTitle, newBody, now) == notes
  {
    var r := EditById(notes, id, newTitle, newBody, now);
    assert forall i :: 0 <= i < |notes| ==> r[i] == notes[i];
  }

  /** Editing keeps ids unique, since it changes no id. */
  lemma EditKeepsUniqueIds(notes: seq<Note>, id: string, newTitle: string, newBody: string, now: int)
    requires UniqueIds(notes)
    ensures UniqueIds(EditById(notes, id, newTitle, newBody, now))
  {
  }

  /** An edit stamped no earlier than the edited note's creation keeps
      `created <= updated` for every note. */
  lemma EditKeepsTimesOrdered(notes: seq<Note>, id: string, newTitle: string, newBody: string, now: int)
    requires TimesOrdered(notes)
    requires forall n :: n in notes && n.id == id ==> n.created <= now
    ensures TimesOrdered(EditById(notes, id, newTitle, newBody, now))
  {
    var r := EditById(notes, id, newTitle, newBody, now);
    forall i | 0 <= i < |r| ensures r[i].created <= r[i].updated {
      if notes[i].id == id {
        assert notes[i] in notes;
      }
    }
  }

  /** Deleting by id: the notes whose id is not `id`, in their stored order. */
  function RemoveById(notes: seq<Note>, id: string): (r: seq<Note>)
    ensures IsSubsequence(r, notes)
    ensures forall n :: multiset(r)[n] == if n.id != id then multiset(notes)[n] else 0
    ensures forall n :: n in r <==> n in notes && n.id != id
    ensures IdFree(notes, id) ==> r == notes
  {
    Filter(notes, (n: Note) => n.id != id)
  }

  /** A subsequence of a collection with unique ids has unique ids. */
  lemma {:induction false} SubsequenceKeepsUniqueIds(r: seq<Note>, s: seq<Note>)
    requires IsSubsequence(r, s) && UniqueIds(s)
    ensures UniqueIds(r)
    decreases |s|
  {
    if s != [] {
      assert UniqueIds(s[1..]);
      if r != [] && r[0] == s[0] && IsSubsequence(r[1..], s[1..]) {
        SubsequenceKeepsUniqueIds(r[1..], s[1..]);
        SubsequenceElements(r[1..], s[1..]);
        forall j | 0 < j < |r| ensures r[0].id != r[j].id {
          assert r[j] in r[1..];
          var m :| 0 <= m < |s[1..]| && s[1..][m] == r[j];
          assert s[m + 1] == r[j];
        }
      } else {
        SubsequenceKeepsUniqueIds(r, s[1..]);
      }
    }
  }

  /** Deleting keeps ids unique, and afterwards no note carries the deleted id. */
  lemma RemoveKeepsUniqueIds(notes: seq<Note>, id: string)
    requires UniqueIds(notes)
    ensures UniqueIds(RemoveById(notes, id)) && IdFree(RemoveById(notes, id), id)
  {
    SubsequenceKeepsUniqueIds(RemoveById(notes, id), notes);
  }

  /** When ids are unique, deleting an id that is present removes exactly one note. */
  lemma {:induction false} RemovePresentShrinksByOne(notes: seq<Note>, id: string, k: nat)
    requires UniqueIds(notes)
    requires k < |notes| && notes[k].id == id
    ensures |RemoveById(notes, id)| == |notes| - 1
  {
    var rest := notes[1..];
    if notes[0].id == id {
      assert k == 0;
      forall n | n in rest ensures n.id != id {
        var m :| 0 <= m < |rest| && rest[m] == n;
        assert notes[m + 1] == n;
      }
      assert RemoveById(notes, id) == RemoveById(rest, id);
    } else {
      assert UniqueIds(rest);
      RemovePresentShrinksByOne(rest, id, k - 1);
      assert RemoveById(notes, id) == [notes[0]] + RemoveById(rest, id);
    }
  }

  /** Prepending a note with a fresh id keeps ids unique. */
  lemma PrependFreshKeepsUniqueIds(note: Note, notes: seq<Note>)
    requires UniqueIds(notes) && IdFree(notes, note.id)
    ensures UniqueIds([note] + notes)
  {
    var r := [note] + notes;
    forall i, j | 0 <= i < j < |r| ensures r[i].id != r[j].id {
      if i == 0 {
        assert r[j] == notes[j - 1];
        assert r[j] in notes;
      } else {
        assert r[i] == notes[i - 1] && r[j] == notes[j - 1];
      }
    }
  }
}
