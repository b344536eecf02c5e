/**
 * The `App` component's note store: the three pieces of state it keeps
 * (`notes`, `activeNoteId`, `query`) and the handlers that change them.
 * The clock, the id generator, the confirmation dialog and the parsing of
 * local storage are parameters of the handlers that use them.
 */
module App {
  import opened Options
  import opened Notes
  import opened NoteSort
  import opened NoteView

  class NoteStore {
    var notes: seq<Note>
    var activeNoteId: Option<Id>
    var query: string

    /** What local storage holds: the effect on `notes` writes the whole array after every change. */
    ghost var persisted: seq<Note>

    ghost predicate Synced()
      reads this
    {
      persisted == notes
    }

    /** `activeNote`: the first note whose id is the active id, if any. */
    function ActiveNote(): (r: Option<Note>)
      reads this
      ensures r.None? <==> forall n :: n in notes ==> activeNoteId != Some(n.id)
      ensures r.Some? ==> r.value in notes && activeNoteId == Some(r.value.id)
    {
      FindNoteFinds(notes, activeNoteId);
      FindNote(notes, activeNoteId)
    }

    /** `filteredNotes`: the list the sidebar shows. */
    function FilteredNotes(): (r: seq<Note>)
      reads this
      ensures SortedNewestFirst(r) && multiset(r) == multiset(Selected(notes, query))
    {
      VisibleNotes(notes, query)
    }

    /**
     * The first render: empty state, then the load effect with the stored
     * string `raw` and the result `parsed` of parsing it.
     */
    constructor Mount(raw: Option<string>, parsed: Option<Json>)
      ensures Synced() && query == ""
      ensures LoadedValue(raw, parsed).JArray? ==>
                notes == LoadedValue(raw, parsed).items && activeNoteId == FirstId(notes)
      ensures !LoadedValue(raw, parsed).JArray? ==> notes == [] && activeNoteId == None
    {
      notes := [];
      activeNoteId := None;
      query := "";
      persisted := [];
      var loaded := LoadedValue(raw, parsed);
      if loaded.JArray? {
        notes := loaded.items;
        persisted := notes;
        if |loaded.items| > 0 {
          activeNoteId := Some(loaded.items[0].id);
        }
      }
    }

    /** `handleCreateNew`: `id` stands for `generateId()` and `now` for `Date.now()`. */
    method CreateNew(id: Id, now: int)
      requires Synced()
      modifies this
      ensures Synced() && query == old(query)
      ensures notes == [Note(id, UntitledTitle, "", now, now)] + old(notes)
      ensures activeNoteId == Some(id) && ActiveNote() == Some(notes[0])
      ensures old(UniqueIds(notes)) && (forall n :: n in old(notes) ==> n.id != id) ==> UniqueIds(notes)
      ensures old(TimestampsOrdered(notes)) ==> TimestampsOrdered(notes)
    {
      var note := Note(id, UntitledTitle, "", now, now);
      if UniqueIds(notes) && forall n :: n in notes ==> n.id != id {
        PrependFreshKeepsUniqueIds(note, notes);
      }
      notes := [note] + notes;
      activeNoteId := Some(id);
      persisted := notes;
    }

    /** `handleSaveNote` with the form values `title` and `body`, at time `now`. */
    method SaveNote(title: string, body: string, now: int)
      requires Synced()
      modifies this
      ensures Synced() && query == old(query) && activeNoteId == old(activeNoteId)
      ensures old(ActiveNote()).None? ==> notes == old(notes)
      ensures old(ActiveNote()).Some? ==> notes == ApplySave(old(notes), old(ActiveNote()).value.id, title, body, now)
      ensures old(UniqueIds(notes)) ==> UniqueIds(notes)
      ensures old(TimestampsOrdered(notes) && NoLaterThan(notes, now)) ==> TimestampsOrdered(notes)
    {
      var active := FindNote(notes, activeNoteId);
      if active.None? {
        return;
      }
      var id := active.value.id;
      var saved := ApplySave(notes, id, title, body, now);
      if UniqueIds(notes) {
        SaveKeepsUniqueIds(notes, id, title, body, now);
      }
      if TimestampsOrdered(notes) && NoLaterThan(notes, now) {
        SaveKeepsTimestampsOrdered(notes, id, title, body, now);
      }
      notes := saved;
      persisted := saved;
    }

    /** `handleSelectNote`: the id is taken as given, present or not. */
    method SelectNote(noteId: Id)
      modifies this`activeNoteId
      ensures activeNoteId == Some(noteId)
      ensures (exists n :: n in notes && n.id == noteId) ==> ActiveNote().Some? && ActiveNote().value.id == noteId
      ensures (forall n :: n in notes ==> n.id != noteId) ==> ActiveNote() == None
    {
      activeNoteId := Some(noteId);
      FindNoteFinds(notes, activeNoteId);
    }

    /**
     * `handleDeleteNote`: `prompt` is the question put to the user and
     * `confirmed` their answer.
     */
    method DeleteNote(noteId: Id, confirmed: bool) returns (prompt: string)
      requires Synced()
      modifies this
      ensures Synced() && query == old(query)
      ensures prompt == DeletePrompt(old(notes), noteId)
      ensures !confirmed ==> notes == old(notes) && activeNoteId == old(activeNoteId)
      ensures confirmed ==> notes == Without(old(notes), noteId)
      ensures confirmed && old(activeNoteId) == Some(noteId) ==>
                activeNoteId == FirstId(notes) && ActiveNote() == (if notes == [] then None else Some(notes[0]))
      ensures confirmed && old(activeNoteId) != Some(noteId) ==>
                activeNoteId == old(activeNoteId) && ActiveNote() == old(ActiveNote())
      ensures old(UniqueIds(notes)) ==> UniqueIds(notes)
      ensures old(TimestampsOrdered(notes)) ==> TimestampsOrdered(notes)
    {
      prompt := DeletePrompt(notes, noteId);
      if !confirmed {
        return;
      }
      var remaining := Without(notes, noteId);
      if UniqueIds(notes) {
        WithoutKeepsUniqueIds(notes, noteId);
      }
      if TimestampsOrdered(notes) {
        WithoutKeepsTimestampsOrdered(notes, noteId);
      }
      if activeNoteId != Some(noteId) {
        FindAfterWithout(notes, noteId, activeNoteId);
      }
      notes := remaining;
      persisted := notes;
      if activeNoteId == Some(noteId) {
        activeNoteId := FirstId(remaining);
      }
    }

    /** `setQuery`, the search box's change handler. */
    method SetQuery(text: string)
      modifies this`query
      ensures query == text
      ensures SortedNewestFirst(FilteredNotes()) && multiset(FilteredNotes()) == multiset(Selected(notes, text))
    {
      query := text;
    }
  }
}
