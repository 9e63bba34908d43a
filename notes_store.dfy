/** The notes controller of `src/store/notesStore.ts`: the visible, sorted list of one
    user's notes, the sort option, a loading flag and the last error, kept in step with the
    note repository. */
module NotesStore {
  import opened Wrappers
  import opened Sequences
  import opened JsStrings
  import opened NoteTypes
  import opened NoteOrdering
  import opened NotesService

  const NoteNotFound := "Note not found"

  /** `notes.map(note => note.id === id ? updated : note)`. */
  function ReplaceById(s: seq<Note>, id: string, updated: Note): (r: seq<Note>)
    ensures |r| == |s|
    ensures forall k :: 0 <= k < |s| ==> r[k] == if s[k].id == id then updated else s[k]
  {
    seq(|s|, k requires 0 <= k < |s| => if s[k].id == id then updated else s[k])
  }

  class NotesStore {
    const repo: NoteRepository
    const collation: Collation
    var notes: seq<Note>
    var sortBy: SortArg
    var isLoading: bool
    var error: Option<string>

    /** The store starts empty, with `sortBy` set to the bare string `'lastUpdate'`. */
    constructor (repo: NoteRepository, collation: Collation)
      ensures this.repo == repo && this.collation == collation
      ensures notes == [] && sortBy == Untyped("lastUpdate") && !isLoading && error == None
    {
      this.repo := repo;
      this.collation := collation;
      notes := [];
      sortBy := Untyped("lastUpdate");
      isLoading := false;
      error := None;
    }

    /** `loadNotes`: the user's stored notes, sorted by the current option. While `sortBy` is
        still the bare string, they stay in stored order. */
    method LoadNotes(userId: string)
      modifies this
      ensures notes == SortedNotes(repo.GetUserNotes(userId), sortBy, collation)
      ensures sortBy.Untyped? ==> notes == repo.GetUserNotes(userId)
      ensures multiset(notes) == multiset(repo.GetUserNotes(userId))
      ensures sortBy == old(sortBy) && !isLoading && error == None
    {
      isLoading, error := true, None;
      var userNotes := repo.GetUserNotes(userId);
      var sorted := SortNotes(userNotes, sortBy, collation);
      SortedNotesSpec(userNotes, sortBy, collation);
      notes, isLoading := sorted, false;
    }

    /** `createNote`: the repository appends the new note; the store puts it in front of the
        visible list and re-sorts, so the list grows by exactly that note. */
    method CreateNote(userId: string, input: CreateNoteInput, now: nat, suffix: string) returns (note: Note)
      requires forall k :: 0 <= k < |repo.notes| ==> repo.notes[k].id != NoteId(userId, now, suffix)
      modifies this, repo
      ensures repo.notes == old(repo.notes) + [note]
      ensures note.id == NoteId(userId, now, suffix) && note.userId == userId
      ensures note.title == Trim(input.title) && note.content == Trim(input.content)
      ensures note.imageUri == input.imageUri
      ensures note.createdAt == note.updatedAt == now
      ensures old(repo.Valid()) ==> repo.Valid()
      ensures notes == SortedNotes([note] + old(notes), sortBy, collation)
      ensures multiset(notes) == multiset(old(notes)) + multiset{note}
      ensures sortBy == old(sortBy) && isLoading == old(isLoading) && error == None
    {
      error := None;
      note := repo.CreateNote(userId, input, now, suffix);
      var updatedNotes := [note] + notes;
      var sorted := SortNotes(updatedNotes, sortBy, collation);
      SortedConsCount(note, notes, sortBy, collation);
      notes := sorted;
    }

    /** `updateNote`: when the repository finds no note, record "Note not found" and keep
        the list; otherwise replace every visible note with the id by the updated one and
        re-sort. */
    method UpdateNote(input: UpdateNoteInput, now: int) returns (ok: bool)
      modifies this, repo
      ensures ok == UpdatedNote(old(repo.notes), input, now).Some?
      ensures !ok ==> notes == old(notes) && repo.notes == old(repo.notes) && error == Some(NoteNotFound)
      ensures ok ==> error == None && |notes| == |old(notes)|
                     && notes == SortedNotes(ReplaceById(old(notes), input.id,
                                                         UpdatedNote(old(repo.notes), input, now).value),
                                             sortBy, collation)
      ensures ok ==> repo.notes == old(repo.notes)[FirstIndex(old(repo.notes), HasId(input.id)).value
                                                    := UpdatedNote(old(repo.notes), input, now).value]
      ensures old(repo.Valid()) ==> repo.Valid()
      ensures sortBy == old(sortBy) && isLoading == old(isLoading)
    {
      error := None;
      var updatedNote := repo.UpdateNote(input, now);
      if updatedNote.None? {
        error := Some(NoteNotFound);
        ok := false;
        return;
      }
      var updatedNotes := ReplaceById(notes, input.id, updatedNote.value);
      var sorted := SortNotes(updatedNotes, sortBy, collation);
      notes := sorted;
      ok := true;
    }

    /** `deleteNote`: when the repository deletes nothing, record "Note not found" and keep
        the list; otherwise drop the id from the visible list without re-sorting. */
    method DeleteNote(noteId: string) returns (ok: bool)
      modifies this, repo
      ensures ok <==> exists k :: 0 <= k < |old(repo.notes)| && old(repo.notes)[k].id == noteId
      ensures !ok ==> notes == old(notes) && repo.notes == old(repo.notes) && error == Some(NoteNotFound)
      ensures ok ==> notes == Filter(old(notes), LacksId(noteId)) && error == None
      ensures ok ==> repo.notes == Filter(old(repo.notes), LacksId(noteId))
      ensures old(repo.Valid()) ==> repo.Valid()
      ensures ok && old(repo.Valid()) ==> |repo.notes| == |old(repo.notes)| - 1
      ensures sortBy == old(sortBy) && isLoading == old(isLoading)
    {
      error := None;
      var success := repo.DeleteNote(noteId);
      if !success {
        error := Some(NoteNotFound);
        ok := false;
        return;
      }
      notes := Filter(notes, LacksId(noteId));
      ok := true;
    }

    /** `setSortBy`: store the argument and re-sort the visible list under it, without
        fetching. A bare string selects neither comparator, so the list stays as it is. */
    method SetSortBy(arg: SortArg)
      modifies this
      ensures sortBy == arg
      ensures notes == SortedNotes(old(notes), arg, collation)
      ensures multiset(notes) == multiset(old(notes))
      ensures arg.Typed? ==> Ordered(arg.option, collation, notes)
      ensures arg.Untyped? ==> notes == old(notes)
      ensures isLoading == old(isLoading) && error == old(error)
    {
      var sorted := SortNotes(notes, arg, collation);
      SortedNotesSpec(notes, arg, collation);
      sortBy, notes := arg, sorted;
    }

    /** `clearNotes`: empty the visible list and the error. */
    method ClearNotes()
      modifies this
      ensures notes == [] && error == None
      ensures sortBy == old(sortBy) && isLoading == old(isLoading)
    {
      notes, error := [], None;
    }

    /** `clearError`: only the error changes. */
    method ClearError()
      modifies this
      ensures error == None
      ensures notes == old(notes) && sortBy == old(sortBy) && isLoading == old(isLoading)
    {
      error := None;
    }
  }

  /** A freshly opened store shows the user's notes in stored order: its initial sort
      option selects neither comparator. */
  method OpenAndLoad(repo: NoteRepository, collation: Collation, userId: string) returns (store: NotesStore)
    ensures fresh(store) && store.repo == repo
    ensures store.notes == repo.GetUserNotes(userId) && store.sortBy == Untyped("lastUpdate")
  {
    store := new NotesStore(repo, collation);
    store.LoadNotes(userId);
  }

  /** The sort buttons of the notes screen as written: they pass the bare field name
      (`setSortBy('lastUpdate')`, `setSortBy('title')`), so the visible list keeps its order. */
  method PressSortButton(store: NotesStore, fieldName: string)
    modifies store
    ensures store.sortBy == Untyped(fieldName)
    ensures store.notes == old(store.notes)
  {
    store.SetSortBy(Untyped(fieldName));
  }

  /** The sort buttons as evidently intended: they pass a `SortOption` for the field, and the
      visible list becomes an ordered permutation of itself. */
  method SelectSortOption(store: NotesStore, field: SortField, direction: SortDirection)
    modifies store
    ensures store.sortBy == Typed(SortOption(field, direction))
    ensures multiset(store.notes) == multiset(old(store.notes))
    ensures Ordered(SortOption(field, direction), store.collation, store.notes)
  {
    store.SetSortBy(Typed(SortOption(field, direction)));
  }
}
