/** The note repository of `src/services/notesService.ts`: create, read, update and delete
    over the single list that holds every user's notes, plus `sortNotes`.

    The persisted list is the field `notes` of `NoteRepository`; each mutator replaces it,
    as `saveNotes` rewrites the whole stored collection. The clock, the random id suffix and
    the collation behind `localeCompare` are parameters. */
module NotesService {
  import opened Wrappers
  import opened JsStrings
  import opened Sequences
  import opened NoteTypes
  import opened NoteOrdering

  function OwnedBy(userId: string): Note -> bool {
    (n: Note) => n.userId == userId
  }

  function NotOwnedBy(userId: string): Note -> bool {
    (n: Note) => n.userId != userId
  }

  function HasId(id: string): Note -> bool {
    (n: Note) => n.id == id
  }

  function LacksId(id: string): Note -> bool {
    (n: Note) => n.id != id
  }

  /** No two notes share an id. `createNote` builds each id from the owner, the clock and a
      random suffix so that ids stay distinct across all users. */
  ghost predicate UniqueIds(s: seq<Note>) {
    forall i, j :: 0 <= i < j < |s| ==> s[i].id != s[j].id
  }

  /** Keeping some of the notes keeps their ids distinct. */
  lemma {:induction false} FilterKeepsUniqueIds(s: seq<Note>, keep: Note -> bool)
    requires UniqueIds(s)
    ensures UniqueIds(Filter(s, keep))
  {
    if s != [] {
      var init, last := s[..|s| - 1], s[|s| - 1];
      FilterKeepsUniqueIds(init, keep);
      var f := Filter(init, keep);
      forall k | 0 <= k < |f| ensures f[k].id != last.id {
        assert f[k] in init;
        var j :| 0 <= j < |init| && init[j] == f[k];
        assert s[j] == f[k];
      }
    }
  }

  /** With distinct ids, filtering out an id that is stored removes exactly one note. */
  lemma {:induction false} DeleteRemovesOne(s: seq<Note>, id: string)
    requires UniqueIds(s)
    requires exists k :: 0 <= k < |s| && s[k].id == id
    ensures |Filter(s, LacksId(id))| == |s| - 1
  {
    var init, last := s[..|s| - 1], s[|s| - 1];
    if last.id == id {
      forall k | 0 <= k < |init| ensures LacksId(id)(init[k]) {
        assert s[k] == init[k];
      }
      FilterKeepsAll(init, LacksId(id));
    } else {
      var k :| 0 <= k < |s| && s[k].id == id;
      assert init[k].id == id;
      DeleteRemovesOne(init, id);
    }
  }

  /** The id `createNote` builds: owner, creation time and a random suffix, joined by `_`. */
  function NoteId(userId: string, now: nat, suffix: string): (id: string)
    ensures |id| > |userId| && id[..|userId| + 1] == userId + "_"
  {
    var id := userId + "_" + (NatToString(now) + "_" + suffix);
    assert id == (userId + "_") + (NatToString(now) + "_" + suffix);
    id
  }

  /** The note `updateNote` stores: the old note with each supplied field replaced, titles
      and contents trimmed, and a fresh `updatedAt`. */
  function Merge(n: Note, input: UpdateNoteInput, now: int): (r: Note)
    ensures r.id == n.id && r.userId == n.userId && r.createdAt == n.createdAt
    ensures r.title == if input.title.Some? then Trim(input.title.value) else n.title
    ensures r.content == if input.content.Some? then Trim(input.content.value) else n.content
    ensures r.imageUri == if input.imageUri.Some? then input.imageUri else n.imageUri
    ensures r.updatedAt == now
  {
    var title := if input.title.Some? then Trim(input.title.value) else n.title;
    var content := if input.content.Some? then Trim(input.content.value) else n.content;
    var imageUri := if input.imageUri.Some? then input.imageUri else n.imageUri;
    n.(title := title, content := content, imageUri := imageUri, updatedAt := now)
  }

  /** Applying the same update twice at the same time is applying it once. */
  lemma MergeIdempotent(n: Note, input: UpdateNoteInput, now: int)
    ensures Merge(Merge(n, input, now), input, now) == Merge(n, input, now)
  {
    if input.title.Some? {
      TrimIdempotent(input.title.value);
    }
    if input.content.Some? {
      TrimIdempotent(input.content.value);
    }
  }

  /** An update that supplies no field only refreshes `updatedAt`. */
  lemma MergeNothing(n: Note, id: string, now: int)
    ensures Merge(n, UpdateNoteInput(id, None, None, None), now) == n.(updatedAt := now)
  {
  }

  /** A merge keeps `updatedAt >= createdAt` whenever the clock has not gone back past the
      note's creation. */
  lemma MergeKeepsTimestampsOrdered(n: Note, input: UpdateNoteInput, now: int)
    requires now >= n.createdAt
    ensures Merge(n, input, now).updatedAt >= Merge(n, input, now).createdAt
  {
  }

  /** A note of `s` that carries `id`, the first one. */
  ghost predicate FirstWithId(s: seq<Note>, id: string, n: Note) {
    exists i :: 0 <= i < |s| && s[i] == n && n.id == id && forall j :: 0 <= j < i ==> s[j].id != id
  }

  /** The note `updateNote` returns against the stored list `all`: the first note with the
      input's id, merged, or `None` when no note has that id. */
  function UpdatedNote(all: seq<Note>, input: UpdateNoteInput, now: int): (r: Option<Note>)
    ensures r.None? <==> forall k :: 0 <= k < |all| ==> all[k].id != input.id
    ensures r.Some? ==> exists i :: 0 <= i < |all| && FirstWithId(all, input.id, all[i])
                                    && r.value == Merge(all[i], input, now)
  {
    match FirstIndex(all, HasId(input.id))
    case None => None
    case Some(i) =>
      assert FirstWithId(all, input.id, all[i]);
      Some(Merge(all[i], input, now))
  }

  /** `sortNotes`: copy the notes into a fresh array and, for a recognised field, sort the
      copy in place. The argument is never changed. */
  method SortNotes(notes: seq<Note>, sortBy: SortArg, coll: Collation) returns (sorted: seq<Note>)
    ensures sorted == SortedNotes(notes, sortBy, coll)
  {
    var a := new Note[|notes|](i requires 0 <= i < |notes| => notes[i]);
    assert a[..] == notes;
    if sortBy.Typed? {
      SortInPlace(a, sortBy.option, coll);
    }
    sorted := a[..];
  }

  /** `Array.prototype.sort` with the comparator for `opt`, as a stable insertion sort. */
  method SortInPlace(a: array<Note>, opt: SortOption, coll: Collation)
    modifies a
    ensures a[..] == InsertionSort(opt, coll, old(a[..]))
  {
    ghost var s0 := a[..];
    var i := 0;
    while i < a.Length
      invariant 0 <= i <= a.Length
      invariant a[..i] == InsertionSort(opt, coll, s0[..i])
      invariant a[i..] == s0[i..]
    {
      assert a[i] == a[i..][0] == s0[i];
      InsertionSortSnoc(opt, coll, s0, i);
      InsertAtEnd(a, i, opt, coll);
      assert a[i + 1..] == s0[i + 1..] by {
        assert s0[i + 1..] == s0[i..][1..];
      }
      i := i + 1;
    }
    assert s0[..a.Length] == s0;
  }

  /** One pass of the insertion sort: shift `a[i]` left into the sorted prefix `a[..i]`. */
  method InsertAtEnd(a: array<Note>, i: nat, opt: SortOption, coll: Collation)
    requires i < a.Length
    modifies a
    ensures a[..i + 1] == Insert(opt, coll, old(a[..i]), old(a[i]))
    ensures a[i + 1..] == old(a[i + 1..])
  {
    ghost var t, rest := a[..i], a[i + 1..];
    var x := a[i];
    var j := ShiftRight(a, i, x, opt, coll);
    InsertAt(opt, coll, t, x, j);
    a[j] := x;
    InsertedAt(a[..i + 1], t, x, j);
    forall k | 0 <= k < |rest| ensures a[i + 1..][k] == rest[k] {
      assert a[i + 1 + k] == old(a[i + 1 + k]);
    }
  }

  /** Move the elements of `a[..i]` that the comparator puts strictly after `x` one place
      right, from the end of the prefix down to the first that is not; `j` is the gap. */
  method ShiftRight(a: array<Note>, i: nat, x: Note, opt: SortOption, coll: Collation) returns (j: nat)
    requires i < a.Length
    modifies a
    ensures j <= i
    ensures forall k :: 0 <= k < j ==> a[k] == old(a[k])
    ensures forall k :: j < k <= i ==> a[k] == old(a[k - 1])
    ensures forall k :: i < k < a.Length ==> a[k] == old(a[k])
    ensures j == 0 || Compare(opt, coll, old(a[j - 1]), x) <= 0
    ensures forall k :: j <= k < i ==> Compare(opt, coll, old(a[k]), x) > 0
  {
    j := i;
    while j > 0 && Compare(opt, coll, a[j - 1], x) > 0
      invariant 0 <= j <= i
      invariant forall k :: 0 <= k < j ==> a[k] == old(a[k])
      invariant forall k :: j < k <= i ==> a[k] == old(a[k - 1])
      invariant forall k :: i < k < a.Length ==> a[k] == old(a[k])
      invariant forall k :: j <= k < i ==> Compare(opt, coll, old(a[k]), x) > 0
    {
      a[j] := a[j - 1];
      j := j - 1;
    }
  }

  class NoteRepository {
    /** Every user's notes, in the order they were stored. */
    var notes: seq<Note>

    /** No two stored notes share an id. */
    ghost predicate Valid()
      reads this
    {
      UniqueIds(notes)
    }

    constructor ()
      ensures notes == [] && Valid()
    {
      notes := [];
    }

    /** `getUserNotes`: exactly the stored notes owned by `userId`, each as often as it is
        stored, in stored order. */
    function GetUserNotes(userId: string): (r: seq<Note>)
      reads this
      ensures forall k :: 0 <= k < |r| ==> r[k].userId == userId
      ensures forall n: Note :: multiset(r)[n] == if n.userId == userId then multiset(notes)[n] else 0
      ensures r == Filter(notes, OwnedBy(userId))
    {
      var r := Filter(notes, OwnedBy(userId));
      assert forall n: Note :: multiset(r)[n] == if n.userId == userId then multiset(notes)[n] else 0 by {
        forall n: Note {
          FilterMultiset(notes, OwnedBy(userId), n);
        }
      }
      r
    }

    /** `getNoteById`: the first stored note with the id, or `None` for `null`. */
    function GetNoteById(id: string): (r: Option<Note>)
      reads this
      ensures r.None? <==> forall k :: 0 <= k < |notes| ==> notes[k].id != id
      ensures r.Some? ==> FirstWithId(notes, id, r.value)
    {
      match FirstIndex(notes, HasId(id))
      case None => None
      case Some(i) => Some(notes[i])
    }

    /** `createNote`: append a note with trimmed title and content, the given image, and
        both timestamps at `now`. The random suffix is taken to yield an unused id, which
        keeps the ids distinct. */
    method CreateNote(userId: string, input: CreateNoteInput, now: nat, suffix: string) returns (note: Note)
      requires forall k :: 0 <= k < |notes| ==> notes[k].id != NoteId(userId, now, suffix)
      modifies this
      ensures note.id == NoteId(userId, now, suffix) && note.userId == userId
      ensures note.title == Trim(input.title) && note.content == Trim(input.content)
      ensures note.imageUri == input.imageUri
      ensures note.createdAt == note.updatedAt == now
      ensures notes == old(notes) + [note]
      ensures old(Valid()) ==> Valid()
    {
      note := Note(NoteId(userId, now, suffix), userId, Trim(input.title), Trim(input.content),
                   input.imageUri, now, now);
      notes := notes + [note];
    }

    /** `updateNote`: merge the input into the first note with its id and store it at the
        same index; `None` (for `null`) and no write when no note has the id. */
    method UpdateNote(input: UpdateNoteInput, now: int) returns (r: Option<Note>)
      modifies this
      ensures r == UpdatedNote(old(notes), input, now)
      ensures r.None? ==> notes == old(notes)
      ensures r.Some? ==> notes == old(notes)[FirstIndex(old(notes), HasId(input.id)).value := r.value]
      ensures old(Valid()) ==> Valid()
    {
      match FirstIndex(notes, HasId(input.id))
      case None =>
        r := None;
      case Some(i) =>
        var updated := Merge(notes[i], input, now);
        notes := notes[i := updated];
        r := Some(updated);
    }

    /** `deleteNote`: drop every note with the id and report whether the list shrank. With
        distinct ids that is exactly one note. */
    method DeleteNote(id: string) returns (deleted: bool)
      modifies this
      ensures deleted <==> exists k :: 0 <= k < |old(notes)| && old(notes)[k].id == id
      ensures deleted ==> notes == Filter(old(notes), LacksId(id))
      ensures !deleted ==> notes == old(notes)
      ensures forall k :: 0 <= k < |notes| ==> notes[k].id != id
      ensures old(Valid()) ==> Valid()
      ensures deleted && old(Valid()) ==> |notes| == |old(notes)| - 1
    {
      var filtered := Filter(notes, LacksId(id));
      FilterKeepsAll(notes, LacksId(id));
      if |filtered| == |notes| {
        deleted := false;
      } else {
        if UniqueIds(notes) {
          FilterKeepsUniqueIds(notes, LacksId(id));
          DeleteRemovesOne(notes, id);
        }
        notes := filtered;
        deleted := true;
      }
    }

    /** `clearUserNotes`: drop exactly the notes owned by `userId`, keeping the others in order. */
    method ClearUserNotes(userId: string)
      modifies this
      ensures notes == Filter(old(notes), NotOwnedBy(userId))
      ensures forall n: Note :: multiset(notes)[n] == if n.userId == userId then 0 else multiset(old(notes))[n]
      ensures old(Valid()) ==> Valid()
    {
      if UniqueIds(notes) {
        FilterKeepsUniqueIds(notes, NotOwnedBy(userId));
      }
      forall n: Note {
        FilterMultiset(notes, NotOwnedBy(userId), n);
      }
      notes := Filter(notes, NotOwnedBy(userId));
    }
  }
}
