/** The note records of `src/types/note.ts`. Timestamps are integer milliseconds. */
module NoteTypes {
  import opened Wrappers

  datatype Note = Note(
    id: string,
    userId: string,
    title: string,
    content: string,
    imageUri: Option<string>,
    createdAt: int,
    updatedAt: int)

  datatype SortField = LastUpdate | Title

  datatype SortDirection = Asc | Desc

  datatype SortOption = SortOption(field: SortField, direction: SortDirection)

  /** The value a caller actually hands to `sortNotes`: a well-formed option, or a bare
      string such as the notes store's initial `'lastUpdate'`, whose `field` property is
      `undefined`. */
  datatype SortArg = Typed(option: SortOption) | Untyped(raw: string)

  datatype CreateNoteInput = CreateNoteInput(title: string, content: string, imageUri: Option<string>)

  /** A partial update: `None` stands for a field left `undefined`. */
  datatype UpdateNoteInput = UpdateNoteInput(
    id: string,
    title: Option<string>,
    content: Option<string>,
    imageUri: Option<string>)
}
