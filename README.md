# aarnote core in Dafny

This project models the local data layer of aarnote, a note-taking app for phones.
Accounts and notes live in an on-device key-value store.

- **Credential store** (`AuthService`, `src/services/authService.ts`).
  - Sign-up validates the input, rejects duplicate names, hashes the password and appends the user.
  - Sign-in looks the user up and verifies the password.
  - A single `current_user` key holds the session.
- **Note repository** (`NotesService`, `src/services/notesService.ts`).
  - One list holds every user's notes. It supports create, read, a partial update, delete and a per-user clear.
  - `sortNotes` orders notes by last update or by title, ascending or descending.
- **Controllers** (`NotesStore`, `src/store/notesStore.ts`, and `AuthStore`, `src/store/authStore.ts`).
  - These keep the visible sorted list, the session, a loading flag and the last error in step with the two services.
- **Relative time** (`DateFormat`, `formatRelativeTime` in `src/utils/dateFormat.ts`).
  - Turns a millisecond difference into the "3 days ago" text.

## How the model is built

- The persisted lists and keys are fields of classes.
  - `NoteRepository.notes` is the stored notes list.
  - `CredentialStore.users` and `CredentialStore.currentUser` are the stored users and the session key.
  - Every storage write reassigns the field, so each method states the field's new value.
- The controllers are classes whose fields are the state each store holds.
- Sign-up and sign-in are first computed by the pure functions `SignUpOutcome` and `SignInOutcome`. The methods then commit the result.
- JavaScript strings are `seq<char>`.
  - `trim` removes the ECMAScript WhiteSpace and LineTerminator characters (`JsStrings.Trim`, characterised by `JsStrings.TrimParts`).
  - `.length` counts UTF-16 code units (`JsStrings.JsLength`).
- `localeCompare` is modelled as lexicographic comparison of per-string collation keys (`Collation`). This makes the title comparator a total preorder, which is what `Array.prototype.sort` needs in order to be well defined.
- `Array.prototype.sort` is modelled as a stable sort.
  - The method `SortInPlace` is an in-place insertion sort on an array.
  - It is proved equal to the functional `InsertionSort`.
  - Both comparators are consistent, so every stable sort gives this same result.
- The store's initial `sortBy` is the bare string `'lastUpdate'`, not a `SortOption` object. It is modelled as `SortArg.Untyped("lastUpdate")`.
  - For this value `sortNotes` matches neither branch and returns the copy unsorted.
  - `loadNotes` therefore shows the user's notes in stored order (`NotesStore.OpenAndLoad`).
  - `createNote` puts the new note in front of the visible list, while the repository appends it at the end. So after a create the visible list no longer follows stored order.
  - The notes screen calls `setSortBy('lastUpdate')` and `setSortBy('title')` with bare strings too, so these calls leave the list as it is (see "## Findings").
- The clock (`Date.now`), the random id suffix and the password hash are parameters.
  - `CreateNote` takes the suffix together with a precondition that the resulting id is unused. This keeps the stored ids distinct (`NoteRepository.Valid`), and with distinct ids `deleteNote` removes exactly one note.
- The model follows the code as written:
  - The sign-up length check reads the *untrimmed* username. `"ab "` is accepted and registers the two-character name `"ab"` (`AuthService.UntrimmedLengthCheck`).
  - The initial sort option is the bare string `'lastUpdate'`, not a `SortOption`.
  - The password hash is SHA-256 of the password alone (`src/utils/crypto.ts:4-7`). It is taken as an arbitrary function `hash`.
  - `deleteNote` filters out every note that carries the id.
  - `updatedAt >= createdAt` holds only while the clock does not go backwards (`NotesService.MergeKeepsTimestampsOrdered`).
  - `formatRelativeTime` reads "0 months ago" for 28 and 29 days and "0 years ago" for 360 to 364 days (`DateFormat.ZeroMonths`, `DateFormat.ZeroYears`).

## Model

| member | source | states |
|---|---|---|
| JsStrings.TrimStartParts | src/services/authService.ts:17 | the leading-whitespace cut keeps a suffix of the input that does not begin with whitespace and drops only whitespace |
| JsStrings.TrimEndParts | src/services/authService.ts:17 | the trailing-whitespace cut keeps a prefix of the input that does not end with whitespace and drops only whitespace |
| JsStrings.Trim | src/services/authService.ts:17 | `s.trim()`: drops leading, then trailing whitespace; its meaning is stated by `TrimParts`, `TrimEmptyIffBlank` and `TrimIdempotent` |
| JsStrings.TrimParts | src/services/authService.ts:17 | `trim()` returns the infix of the input left after dropping whitespace, and only whitespace, at both ends; neither end of the result is whitespace |
| JsStrings.TrimEmptyIffBlank | src/services/authService.ts:17 | `username.trim().length === 0` holds exactly when every character is whitespace |
| JsStrings.TrimIdempotent | src/services/authService.ts:44 | trimming an already trimmed name changes nothing |
| JsStrings.TrimmedUnchanged | src/services/authService.ts:44 | a string with no whitespace at either end is its own trim |
| JsStrings.JsLength | src/services/authService.ts:21 | the `.length` of a string lies between its number of characters and twice that, and is 0 only for the empty string |
| JsStrings.NatToString | src/utils/dateFormat.ts:13 | `${n}` is a non-empty string of decimal digits with no leading zero |
| JsStrings.NatToStringValue | src/utils/dateFormat.ts:13 | the digits of `${n}` read back as `n` |
| Sequences.Filter | src/services/notesService.ts:25 | `filter` keeps exactly the elements the predicate accepts, in order |
| Sequences.FilterAppend | src/services/notesService.ts:25 | filtering a concatenation is concatenating the filtered parts, which pins down the order `filter` keeps |
| Sequences.FilterSingleton | src/services/notesService.ts:25 | a one-element list keeps its element exactly when the predicate accepts it |
| Sequences.FilterMultiset | src/services/notesService.ts:125 | each kept element occurs as often as in the input; each dropped one does not occur |
| Sequences.FilterKeepsAll | src/services/notesService.ts:81-85 | the filtered list has the input's length exactly when nothing was dropped, and is then the input itself |
| Sequences.FirstIndex | src/services/notesService.ts:56 | `findIndex` is `None` exactly when no element matches; otherwise the index matches and no earlier element does |
| NoteOrdering.LexCompare | src/services/notesService.ts:112 | the comparison returns -1, 0 or 1, and 0 exactly for equal keys |
| NoteOrdering.LexAntisymmetric | src/services/notesService.ts:112 | swapping the arguments negates the comparison |
| NoteOrdering.LexTransitive | src/services/notesService.ts:112 | the comparison is transitive |
| NoteOrdering.Compare | src/services/notesService.ts:106-114 | the two comparators `sortNotes` passes to `sort`; their meaning is stated by `CompareMeaning`, `CompareAntisymmetric` and `CompareTransitive` |
| NoteOrdering.CompareMeaning | src/services/notesService.ts:106-114 | lastUpdate/desc puts the newer note first and lastUpdate/asc the older; title/asc follows collation order and title/desc its reverse; titles that collate equal compare equal |
| NoteOrdering.CompareAntisymmetric | src/services/notesService.ts:105-115 | both comparators, in both directions, change sign when their arguments are swapped |
| NoteOrdering.CompareTransitive | src/services/notesService.ts:105-115 | both comparators, in both directions, are transitive on "not after" |
| NoteOrdering.InsertPermutes | src/services/notesService.ts:103-115 | one insertion step returns the list with the new note added, as a multiset |
| NoteOrdering.InsertOrdered | src/services/notesService.ts:105-115 | inserting into an ordered list keeps it ordered |
| NoteOrdering.InsertionSort | src/services/notesService.ts:106-114 | the stable sort; `InsertionSortPermutes` and `InsertionSortOrdered` state that it returns an ordered permutation |
| NoteOrdering.InsertionSortPermutes | src/services/notesService.ts:103-115 | the sort returns the same notes as a multiset |
| NoteOrdering.InsertionSortOrdered | src/services/notesService.ts:105-115 | the sorted list is ordered under the comparator |
| NoteOrdering.SortedNotesSpec | src/services/notesService.ts:102-118 | `sortNotes` returns a permutation of its input; it is ordered for a recognised field and returned unchanged for any other `sortBy` |
| NoteOrdering.SortedNotes | src/services/notesService.ts:102-118 | the value of `sortNotes`; `SortedNotesSpec` states it |
| NoteOrdering.SortedConsCount | src/store/notesStore.ts:45-46 | sorting a list with a new note in front returns the old notes and the new one, as a multiset |
| NoteOrdering.NewestFirst | src/services/notesService.ts:105-109 | under lastUpdate/desc, `updatedAt` never increases along the result |
| NoteOrdering.OldestFirst | src/services/notesService.ts:105-109 | under lastUpdate/asc, `updatedAt` never decreases along the result |
| NoteOrdering.TitleDescReversesAsc | src/services/notesService.ts:110-114 | when collation keys are distinct, sorting by title descending gives the reverse of sorting by title ascending |
| NoteOrdering.InsertAt | src/services/notesService.ts:106-114 | a note lands at index k when the note before k is not after it and every note from k on is strictly after it |
| NoteOrdering.SplitPoint | src/services/notesService.ts:110-114 | in a title-ascending list whose keys all differ from the new note's, the notes before it form a prefix and the notes after it the rest |
| NoteOrdering.InsertMirrors | src/services/notesService.ts:110-114 | with distinct title keys, an insertion into the reversed ascending list under title/desc is the reverse of the insertion under title/asc |
| NoteOrdering.KeysDifferFromLast | src/services/notesService.ts:110-114 | with distinct title keys, no rearrangement of the earlier notes has a title ranked equal to the last note's |
| NoteOrdering.TwoNotes | src/services/notesService.ts:105-114 | for the list [a, b] where b was updated later and a's title collates first: lastUpdate/desc yields [b, a] and title/asc yields [a, b] |
| Sequences.ReverseSplit | src/services/notesService.ts:110-114 | reversing a list is reversing its tail, then its head |
| Sequences.ReverseAround | src/services/notesService.ts:110-114 | reversing a list with a note inserted at k puts the reversed tail first, then the note, then the reversed head |
| NotesService.NoteId | src/services/notesService.ts:36 | the generated id begins with the owner's id and `_` |
| NotesService.FilterKeepsUniqueIds | src/services/notesService.ts:81-85 | filtering a list of notes with distinct ids keeps the ids distinct |
| NotesService.DeleteRemovesOne | src/services/notesService.ts:83-85 | with distinct ids, filtering out an id that is stored removes exactly one note |
| NotesService.Merge | src/services/notesService.ts:62-68 | the merge replaces exactly the supplied fields (title and content trimmed), keeps id, owner and creation time, and sets `updatedAt` to now |
| NotesService.MergeIdempotent | src/services/notesService.ts:62-68 | applying the same update twice at the same time equals applying it once |
| NotesService.MergeNothing | src/services/notesService.ts:62-68 | an update without fields only refreshes `updatedAt` |
| NotesService.MergeKeepsTimestampsOrdered | src/services/notesService.ts:67 | when the clock is not behind the creation time, the merged note has `updatedAt >= createdAt` |
| NotesService.UpdatedNote | src/services/notesService.ts:54-74 | `null` exactly when no note has the id; otherwise the first note with the id, merged |
| NotesService.SortNotes | src/services/notesService.ts:102-118 | copying into a fresh array and sorting it in place yields the specified sorted list, and the argument is untouched |
| NotesService.SortInPlace | src/services/notesService.ts:106-114 | the in-place array sort leaves the array equal to the stable insertion sort of its old contents |
| NotesService.InsertAtEnd | src/services/notesService.ts:106-114 | one insertion pass places the next element into the sorted prefix and leaves the rest of the array alone |
| NotesService.ShiftRight | src/services/notesService.ts:106-114 | the elements of the sorted prefix that compare after the new note move one place right, the earlier ones stay, and the hole is where the note belongs |
| NotesService.NoteRepository.constructor | src/services/notesService.ts:8-11 | with nothing stored, the notes list is empty and its ids are trivially distinct |
| NotesService.NoteRepository.GetUserNotes | src/services/notesService.ts:23-26 | exactly the user's notes, each as often as stored, in stored order; no other user's note |
| NotesService.NoteRepository.GetNoteById | src/services/notesService.ts:94-97 | `null` exactly when no note has the id; otherwise the first note with it |
| NotesService.NoteRepository.CreateNote | src/services/notesService.ts:31-49 | a note is appended with the generated id, trimmed title and content, the given image, and `createdAt == updatedAt == now`; with an unused id the ids stay distinct |
| NotesService.NoteRepository.UpdateNote | src/services/notesService.ts:54-74 | returns `UpdatedNote`; when the id is missing nothing is written, otherwise exactly the first matching index is replaced; the ids stay distinct |
| NotesService.NoteRepository.DeleteNote | src/services/notesService.ts:79-89 | true exactly when some note has the id; then every such note is removed in order, which is exactly one note when ids are distinct; otherwise nothing is written; afterwards no note has the id and the ids stay distinct |
| NotesService.NoteRepository.ClearUserNotes | src/services/notesService.ts:123-127 | exactly the user's notes are removed; the other notes stay, in order and with multiplicity; the ids stay distinct |
| AuthService.FindUser | src/services/authService.ts:35 | `find` returns a stored user with that exact name, or nothing exactly when none is registered |
| AuthService.VerifyPassword | src/utils/crypto.ts:11-13 | `verifyPassword` compares the password's hash with the stored one; `SignInSucceeds` and `SignInRejectsWrongPassword` state both outcomes of that comparison in sign-in |
| AuthService.ValidateSignUp | src/services/authService.ts:17-31 | the input passes exactly when the name is not blank, its untrimmed length is at least 3 and the password is at least 6 long; otherwise the first failing check's error, with every name error before any password error |
| AuthService.ValidateSignIn | src/services/authService.ts:60-66 | the input passes exactly when the name is not blank and the password is not empty; otherwise "Username is required" before "Password is required" |
| AuthService.SignUpOutcome | src/services/authService.ts:15-56 | success exactly when validation passes and the trimmed name is unused; the new user carries the trimmed name, the password's hash and the time; otherwise the validation error or "Username already exists" |
| AuthService.SignInOutcome | src/services/authService.ts:58-87 | success returns a stored user with the trimmed name whose hash matches; otherwise the validation error, the name-tagged error for an unknown user, or the password-tagged error |
| AuthService.SignInSucceeds | src/services/authService.ts:68-86 | when names are unique, a stored user whose password's hash matches signs in and is returned |
| AuthService.SignInRejectsWrongPassword | src/services/authService.ts:76-81 | when names are unique, a stored user whose password's hash does not match is refused with the password-tagged error |
| AuthService.SignUpKeepsWellFormed | src/services/authService.ts:34-53 | a successful sign-up keeps names unique, trimmed and non-empty, and the session names a stored user |
| AuthService.AppendKeepsWellFormed | src/services/authService.ts:43-54 | appending a new trimmed, non-empty, unregistered name and making it the session keeps the store well formed |
| AuthService.UntrimmedLengthCheck | src/services/authService.ts:21-44 | `"ab "` with a valid password signs up and registers the name `"ab"`, which is shorter than 3 |
| AuthService.SessionIsTrimmed | src/services/authService.ts:53 | the session of a well-formed store is non-empty and already trimmed |
| AuthService.CredentialStore.constructor | src/services/authService.ts:6-9 | the store opens over the persisted users and session |
| AuthService.CredentialStore.IsUsernameTaken | src/services/authService.ts:97-100 | true exactly when a stored user has the trimmed name |
| AuthService.CredentialStore.GetCurrentUser | src/services/authService.ts:93-95 | a session that is present is a non-empty, registered name |
| AuthService.CredentialStore.SignUp | src/services/authService.ts:15-56 | returns `SignUpOutcome`; on success the user is appended, the session is the trimmed name and the name is taken; on failure nothing changes |
| AuthService.CredentialStore.SignIn | src/services/authService.ts:58-87 | returns `SignInOutcome`; the users never change; on success the session is the trimmed name; on failure it is kept |
| AuthService.CredentialStore.SignOut | src/services/authService.ts:89-91 | the session key is removed and the users are kept |
| NotesStore.ReplaceById | src/store/notesStore.ts:66 | every note with the id is replaced by the updated note and every other note is kept, in place |
| NotesStore.NotesStore.constructor | src/store/notesStore.ts:21-25 | no notes, the bare `'lastUpdate'` sort argument, not loading, no error |
| NotesStore.NotesStore.LoadNotes | src/store/notesStore.ts:27-39 | the visible list is the user's stored notes sorted under the current option (stored order for the bare string); loading ends with no error |
| NotesStore.NotesStore.CreateNote | src/store/notesStore.ts:41-54 | the repository gains the note, with the generated id, trimmed title and content and the given image; the visible list is the sort of the note followed by the old list and holds the old notes plus the new one; the repository's ids stay distinct |
| NotesStore.NotesStore.UpdateNote | src/store/notesStore.ts:56-75 | a missing id sets "Note not found" and changes nothing; otherwise the repository's first match is replaced and the visible list is re-sorted after a replace-by-id; the repository's ids stay distinct |
| NotesStore.NotesStore.DeleteNote | src/store/notesStore.ts:77-95 | a missing id sets "Note not found" and changes nothing; otherwise the id is filtered out of the repository, which loses exactly one note when ids are distinct, and out of the visible list, without re-sorting |
| NotesStore.NotesStore.SetSortBy | src/store/notesStore.ts:97-100 | the argument is stored and the visible list is re-sorted under it: for a `SortOption` it becomes an ordered permutation of itself, for a bare string it stays as it is |
| NotesStore.NotesStore.ClearNotes | src/store/notesStore.ts:102-104 | the visible list and the error are cleared |
| NotesStore.NotesStore.ClearError | src/store/notesStore.ts:106-108 | only the error is cleared |
| NotesStore.OpenAndLoad | src/store/notesStore.ts:21-32 | a fresh store that loads a user's notes shows them in stored order |
| NotesStore.PressSortButton | src/store/notesStore.ts:97-100 | `setSortBy` as the notes screen calls it, with a bare field name: the name is stored while the visible list keeps its order |
| NotesStore.SelectSortOption | src/store/notesStore.ts:97-100 | a sort button that passes a `SortOption` makes the visible list an ordered permutation of itself |
| AuthStore.AuthStore.constructor | src/store/authStore.ts:16-19 | no session, not loading, no error |
| AuthStore.AuthStore.InitializeSession | src/store/authStore.ts:21-26 | a stored session is adopted; with none, the old session is kept rather than cleared |
| AuthStore.AuthStore.BeginRequest | src/store/authStore.ts:29 | loading starts and the error is cleared |
| AuthStore.AuthStore.Settle | src/store/authStore.ts:33-41 | an error is stored as it is, keeping the session; a user becomes the session with no error; loading ends |
| AuthStore.AuthStore.SignIn | src/store/authStore.ts:28-42 | true exactly when `SignInOutcome` succeeds; then the session is the trimmed name and equals the stored session; otherwise the error is the outcome's |
| AuthStore.AuthStore.SignUp | src/store/authStore.ts:44-58 | true exactly when `SignUpOutcome` succeeds; then the user is registered and is the session; otherwise the error is the outcome's and nothing is stored |
| AuthStore.AuthStore.SignOut | src/store/authStore.ts:60-63 | the stored session and the visible session and error are cleared |
| AuthStore.AuthStore.ClearError | src/store/authStore.ts:65-67 | only the error is cleared |
| DateFormat.DaysOfSeconds | src/utils/dateFormat.ts:17-29 | for every integer number of seconds, negative ones included, the chained floor divisions equal a single division by 3600 or by 86400 |
| DateFormat.ClassifyBuckets | src/utils/dateFormat.ts:9-48 | the buckets by whole seconds and whole days: under 2 s, under a minute, an hour, a day, 7 days, 28 days, 360 days, and beyond |
| DateFormat.JustNowBelowTwoSeconds | src/utils/dateFormat.ts:12-13 | any difference under two seconds, a negative one included, reads "just now" |
| DateFormat.SecondsText | src/utils/dateFormat.ts:12-13 | between two seconds and a minute the text is the number of whole seconds followed by " seconds ago" |
| DateFormat.OneMinute | src/utils/dateFormat.ts:17-19 | one whole minute reads "1 minute ago" |
| DateFormat.SingularUnits | src/utils/dateFormat.ts:23-38 | one whole hour, day or week takes the singular form |
| DateFormat.ZeroMonths | src/utils/dateFormat.ts:35-43 | 28 and 29 days read "0 months ago" |
| DateFormat.ZeroYears | src/utils/dateFormat.ts:41-48 | 360 to 364 days read "0 years ago" |
| DateFormat.UnitMonotone | src/utils/dateFormat.ts:9-48 | a longer time never gets a smaller unit |
| DateFormat.FormatRelativeTime | src/utils/dateFormat.ts:6-49 | `formatRelativeTime(past)` at time `now`; `ClassifyBuckets` and the lemmas above state its buckets and texts |

## Findings

| source | as written | input that shows it | evidently intended | confidence | as-written member | corrected member |
|---|---|---|---|---|---|---|
| app/(app)/index.tsx:88-104 | the sort buttons call `setSortBy('lastUpdate')` and `setSortBy('title')` with bare strings, where `setSortBy` takes a `SortOption`; `sortBy.field` is then `undefined` and `sortNotes` sorts nothing | pressing "Title" over notes titled "b" then "a" leaves them as "b", "a" | pass a `SortOption` such as `{ field: 'title', direction: 'asc' }`, so that the list is sorted by that field | not executed | NotesStore.PressSortButton | NotesStore.SelectSortOption |

## Left out

- Storage and JSON: the MMKV store, `JSON.parse` and `JSON.stringify` are not modelled. Each persisted collection is a class field. `STORAGE_KEYS` in `src/services/storage.ts` has no `NOTES` entry; the model gives the notes list a key of its own.
- Exceptions: the `try`/`catch` paths of `src/store/notesStore.ts` are left out, because no modelled operation throws.
- Concurrency: `async`/`await` in the credential store and the auth controller is left out. Each call is modelled as one atomic step.
- Password hashing: SHA-256 in `src/utils/crypto.ts` is an arbitrary function `hash`. Only "verify compares hashes" is modelled.
- Note ids: `Math.random().toString(36).substring(7)` is a `suffix` parameter.
- NotesService.NoteRepository.CreateNote: requires that the generated id is unused. The source only makes a collision unlikely, through the clock and the random suffix.
- NotesStore.NotesStore.CreateNote: requires that the generated id is unused, as above.
- AuthService.CredentialStore.SignUp: requires `Valid()`. That is unique, trimmed, non-empty names and a registered session. The source never writes anything else, but it does not check what it reads back from storage.
- AuthService.CredentialStore.SignIn: requires `Valid()`, as above.
- AuthService.CredentialStore.GetCurrentUser: requires `Valid()`, as above.
- AuthService.CredentialStore.SignOut: requires `Valid()`, as above.
- AuthService.CredentialStore.constructor: requires the persisted state to be well formed, as above.
- AuthStore.AuthStore.InitializeSession, AuthStore.AuthStore.SignIn, AuthStore.AuthStore.SignUp, AuthStore.AuthStore.SignOut: require `service.Valid()` of the credential store they call, for the same reason.
- `localeCompare`: locale-specific collation rules are left out. Collation is a key function compared lexicographically, so equal keys compare equal.
- `Array.prototype.sort`: the engine's actual algorithm is modelled as a stable insertion sort. That "any stable sort gives the same list" is argued, not proved.
- Invalid sort arguments: every string is modelled as `SortArg.Untyped`, and each behaves like `'lastUpdate'`, because a string has no `field` property and `sortNotes` then sorts nothing. Non-string values that are not `SortOption`s, such as `undefined` or an object with some other `field`, are left out.
- Lone UTF-16 surrogates: a Dafny `char` is a Unicode scalar value, so a JavaScript string holding an unpaired surrogate cannot be represented. `JsLength` is exact on every string the model can hold.
- `formatRelativeTime`: works on integer millisecond timestamps. Parsing of date strings and `Date` objects is left out, as are invalid dates (`NaN`) and floating-point timestamps.
- `formatDate` and `formatDateTime` (`src/utils/dateFormat.ts` after line 49) are not part of this model. They are locale formatting.
- Screens, components, permissions and navigation are not part of this model.
