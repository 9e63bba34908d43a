/** The ordering `sortNotes` imposes: the two comparators of `src/services/notesService.ts`
    and the stable sort that `Array.prototype.sort` performs with them.

    `localeCompare` is modelled by a collation: a map from each string to its sort key,
    keys being compared lexicographically, as collators compare the sort keys they
    compute. Any collation is a total preorder on strings, which is all the sort needs. */
module NoteOrdering {
  import opened NoteTypes
  import opened Sequences

  /** A collation: the sort key of every string. */
  type Collation = string -> seq<nat>

  /** Lexicographic comparison of sort keys: negative, zero or positive. */
  function LexCompare(a: seq<nat>, b: seq<nat>): (r: int)
    ensures -1 <= r <= 1
    ensures r == 0 <==> a == b
  {
    LexFromZero(a, b, 0);
    assert a[0..] == a && b[0..] == b;
    LexFrom(a, b, 0)
  }

  /** The comparison of `a[i..]` with `b[i..]`. */
  function LexFrom(a: seq<nat>, b: seq<nat>, i: nat): (r: int)
    ensures -1 <= r <= 1
    decreases |a| - i
  {
    if i >= |a| && i >= |b| then 0
    else if i >= |a| then -1
    else if i >= |b| then 1
    else if a[i] < b[i] then -1
    else if a[i] > b[i] then 1
    else LexFrom(a, b, i + 1)
  }

  lemma {:induction false} LexFromZero(a: seq<nat>, b: seq<nat>, i: nat)
    requires i <= |a| && i <= |b|
    ensures LexFrom(a, b, i) == 0 <==> a[i..] == b[i..]
    decreases |a| - i
  {
    if i < |a| && i < |b| {
      if a[i] == b[i] {
        LexFromZero(a, b, i + 1);
        assert a[i..] == [a[i]] + a[i + 1..] && b[i..] == [b[i]] + b[i + 1..];
      } else {
        assert a[i..][0] != b[i..][0];
      }
    }
  }

  lemma {:induction false} LexFromAntisymmetric(a: seq<nat>, b: seq<nat>, i: nat)
    ensures LexFrom(a, b, i) == -LexFrom(b, a, i)
    decreases |a| - i
  {
    if i < |a| && i < |b| && a[i] == b[i] {
      LexFromAntisymmetric(a, b, i + 1);
    }
  }

  lemma {:induction false} LexFromTransitive(a: seq<nat>, b: seq<nat>, c: seq<nat>, i: nat)
    requires LexFrom(a, b, i) <= 0 && LexFrom(b, c, i) <= 0
    ensures LexFrom(a, c, i) <= 0
    decreases |a| - i
  {
    if i < |a| && i < |b| && i < |c| && a[i] == b[i] == c[i] {
      LexFromTransitive(a, b, c, i + 1);
    }
  }

  /** Swapping the keys negates the comparison. */
  lemma LexAntisymmetric(a: seq<nat>, b: seq<nat>)
    ensures LexCompare(a, b) == -LexCompare(b, a)
  {
    LexFromAntisymmetric(a, b, 0);
  }

  /** "Not after" composes. */
  lemma LexTransitive(a: seq<nat>, b: seq<nat>, c: seq<nat>)
    requires LexCompare(a, b) <= 0 && LexCompare(b, c) <= 0
    ensures LexCompare(a, c) <= 0
  {
    LexFromTransitive(a, b, c, 0);
  }

  /** `a.localeCompare(b)` under the collation `coll`. */
  function LocaleCompare(coll: Collation, a: string, b: string): int {
    LexCompare(coll(a), coll(b))
  }

  /** The comparator `sortNotes` passes to `Array.prototype.sort` for `opt`: negative when
      `a` goes first, positive when `b` goes first. */
  function Compare(opt: SortOption, coll: Collation, a: Note, b: Note): int {
    match opt.field
    case LastUpdate =>
      var diff := b.updatedAt - a.updatedAt;
      if opt.direction == Asc then -diff else diff
    case Title =>
      var comparison := LocaleCompare(coll, a.title, b.title);
      if opt.direction == Asc then comparison else -comparison
  }

  /** What each comparator means: newest or oldest first by `updatedAt`, and by title in
      collation order or its reverse, with titles that collate equal comparing equal. */
  lemma CompareMeaning(opt: SortOption, coll: Collation, a: Note, b: Note)
    ensures opt == SortOption(LastUpdate, Desc) ==> (Compare(opt, coll, a, b) < 0 <==> a.updatedAt > b.updatedAt)
    ensures opt == SortOption(LastUpdate, Asc) ==> (Compare(opt, coll, a, b) < 0 <==> a.updatedAt < b.updatedAt)
    ensures opt == SortOption(Title, Asc) ==> (Compare(opt, coll, a, b) < 0 <==> LexCompare(coll(a.title), coll(b.title)) < 0)
    ensures opt == SortOption(Title, Desc) ==> (Compare(opt, coll, a, b) < 0 <==> LexCompare(coll(a.title), coll(b.title)) > 0)
    ensures opt.field == Title ==> (Compare(opt, coll, a, b) == 0 <==> coll(a.title) == coll(b.title))
  {
  }

  /** Each comparator is consistent: swapping its arguments negates it. */
  lemma CompareAntisymmetric(opt: SortOption, coll: Collation, a: Note, b: Note)
    ensures Compare(opt, coll, a, b) == -Compare(opt, coll, b, a)
  {
    if opt.field == Title {
      LexAntisymmetric(coll(a.title), coll(b.title));
    }
  }

  /** Each comparator is transitive: "not after" composes. */
  lemma CompareTransitive(opt: SortOption, coll: Collation, a: Note, b: Note, c: Note)
    requires Compare(opt, coll, a, b) <= 0 && Compare(opt, coll, b, c) <= 0
    ensures Compare(opt, coll, a, c) <= 0
  {
    if opt.field == Title {
      var ka, kb, kc := coll(a.title), coll(b.title), coll(c.title);
      if opt.direction == Asc {
        LexTransitive(ka, kb, kc);
      } else {
        LexAntisymmetric(ka, kb);
        LexAntisymmetric(kb, kc);
        LexAntisymmetric(ka, kc);
        LexTransitive(kc, kb, ka);
      }
    }
  }

  /** No element of `s` is placed after one that the comparator puts strictly before it. */
  ghost predicate Ordered(opt: SortOption, coll: Collation, s: seq<Note>) {
    forall i, j :: 0 <= i < j < |s| ==> Compare(opt, coll, s[i], s[j]) <= 0
  }

  /** One step of a stable insertion sort: `x` moves left past every element of `t` the
      comparator puts strictly after it, and stops behind the first that is not. */
  function Insert(opt: SortOption, coll: Collation, t: seq<Note>, x: Note): (r: seq<Note>)
    ensures |r| == |t| + 1
  {
    if t == [] then [x]
    else if Compare(opt, coll, t[|t| - 1], x) > 0 then Insert(opt, coll, t[..|t| - 1], x) + [t[|t| - 1]]
    else t + [x]
  }

  /** The stable sort of `s` under the comparator for `opt`. */
  function InsertionSort(opt: SortOption, coll: Collation, s: seq<Note>): (r: seq<Note>)
    ensures |r| == |s|
  {
    if s == [] then [] else Insert(opt, coll, InsertionSort(opt, coll, s[..|s| - 1]), s[|s| - 1])
  }

  /** Sorting one more element of `s` inserts it into the sort of the shorter prefix. */
  lemma InsertionSortSnoc(opt: SortOption, coll: Collation, s: seq<Note>, i: nat)
    requires i < |s|
    ensures InsertionSort(opt, coll, s[..i + 1]) == Insert(opt, coll, InsertionSort(opt, coll, s[..i]), s[i])
  {
    assert s[..i + 1][..i] == s[..i];
  }

  /** What `sortNotes(notes, sortBy)` returns: a sorted copy for a recognised sort field, and
      an unsorted copy when `sortBy.field` is neither `'lastUpdate'` nor `'title'`. */
  function SortedNotes(notes: seq<Note>, sortBy: SortArg, coll: Collation): seq<Note> {
    match sortBy
    case Typed(opt) => InsertionSort(opt, coll, notes)
    case Untyped(_) => notes
  }

  lemma {:induction false} InsertPermutes(opt: SortOption, coll: Collation, t: seq<Note>, x: Note)
    ensures multiset(Insert(opt, coll, t, x)) == multiset(t) + multiset{x}
  {
    if t != [] && Compare(opt, coll, t[|t| - 1], x) > 0 {
      InsertPermutes(opt, coll, t[..|t| - 1], x);
      assert t == t[..|t| - 1] + [t[|t| - 1]];
    }
  }

  /** The sort returns a permutation of its input. */
  lemma {:induction false} InsertionSortPermutes(opt: SortOption, coll: Collation, s: seq<Note>)
    ensures multiset(InsertionSort(opt, coll, s)) == multiset(s)
  {
    if s != [] {
      var init, x := s[..|s| - 1], s[|s| - 1];
      var t := InsertionSort(opt, coll, init);
      assert InsertionSort(opt, coll, s) == Insert(opt, coll, t, x);
      assert s == init + [x];
      assert multiset(s) == multiset(init) + multiset{x};
      InsertionSortPermutes(opt, coll, init);
      InsertPermutes(opt, coll, t, x);
    }
  }

  lemma OrderedSnoc(opt: SortOption, coll: Collation, s: seq<Note>, y: Note)
    requires Ordered(opt, coll, s)
    requires forall k :: 0 <= k < |s| ==> Compare(opt, coll, s[k], y) <= 0
    ensures Ordered(opt, coll, s + [y])
  {
  }

  lemma {:induction false} InsertOrdered(opt: SortOption, coll: Collation, t: seq<Note>, x: Note)
    requires Ordered(opt, coll, t)
    ensures Ordered(opt, coll, Insert(opt, coll, t, x))
  {
    if t != [] {
      var init, last := t[..|t| - 1], t[|t| - 1];
      if Compare(opt, coll, last, x) > 0 {
        InsertOrdered(opt, coll, init, x);
        var u := Insert(opt, coll, init, x);
        InsertPermutes(opt, coll, init, x);
        forall k | 0 <= k < |u| ensures Compare(opt, coll, u[k], last) <= 0 {
          assert u[k] in multiset(u);
          if u[k] == x {
            CompareAntisymmetric(opt, coll, x, last);
          } else {
            assert u[k] in init;
          }
        }
        OrderedSnoc(opt, coll, u, last);
      } else {
        forall k | 0 <= k < |t| ensures Compare(opt, coll, t[k], x) <= 0 {
          if k < |t| - 1 {
            CompareTransitive(opt, coll, t[k], last, x);
          }
        }
        OrderedSnoc(opt, coll, t, x);
      }
    }
  }

  /** The sort's result is ordered by the comparator. */
  lemma {:induction false} InsertionSortOrdered(opt: SortOption, coll: Collation, s: seq<Note>)
    ensures Ordered(opt, coll, InsertionSort(opt, coll, s))
  {
    if s != [] {
      InsertionSortOrdered(opt, coll, s[..|s| - 1]);
      InsertOrdered(opt, coll, InsertionSort(opt, coll, s[..|s| - 1]), s[|s| - 1]);
    }
  }

  /** Whatever the sort argument, `sortNotes` returns a permutation of its input; for a
      recognised field the result follows the comparator, and otherwise it is the input in
      its own order. */
  lemma SortedNotesSpec(notes: seq<Note>, sortBy: SortArg, coll: Collation)
    ensures multiset(SortedNotes(notes, sortBy, coll)) == multiset(notes)
    ensures sortBy.Typed? ==> Ordered(sortBy.option, coll, SortedNotes(notes, sortBy, coll))
    ensures sortBy.Untyped? ==> SortedNotes(notes, sortBy, coll) == notes
  {
    if sortBy.Typed? {
      InsertionSortPermutes(sortBy.option, coll, notes);
      InsertionSortOrdered(sortBy.option, coll, notes);
    }
  }

  /** Sorting a list with one more note in front gives the same notes and that one. */
  lemma SortedConsCount(x: Note, s: seq<Note>, sortBy: SortArg, coll: Collation)
    ensures multiset(SortedNotes([x] + s, sortBy, coll)) == multiset(s) + multiset{x}
  {
    SortedNotesSpec([x] + s, sortBy, coll);
  }

  /** Sorting by last update, newest first, leaves `updatedAt` non-increasing. */
  lemma NewestFirst(notes: seq<Note>, coll: Collation)
    ensures var r := SortedNotes(notes, Typed(SortOption(LastUpdate, Desc)), coll);
            forall i, j :: 0 <= i < j < |r| ==> r[i].updatedAt >= r[j].updatedAt
  {
    InsertionSortOrdered(SortOption(LastUpdate, Desc), coll, notes);
  }

  /** Sorting by last update, oldest first, leaves `updatedAt` non-decreasing. */
  lemma OldestFirst(notes: seq<Note>, coll: Collation)
    ensures var r := SortedNotes(notes, Typed(SortOption(LastUpdate, Asc)), coll);
            forall i, j :: 0 <= i < j < |r| ==> r[i].updatedAt <= r[j].updatedAt
  {
    InsertionSortOrdered(SortOption(LastUpdate, Asc), coll, notes);
  }

  /** `x` lands at index `k` of `t` when the element before that index (if any) is not
      after it and every element from `k` on is strictly after it. */
  lemma {:induction false} InsertAt(opt: SortOption, coll: Collation, t: seq<Note>, x: Note, k: nat)
    requires k <= |t|
    requires k == 0 || Compare(opt, coll, t[k - 1], x) <= 0
    requires forall i :: k <= i < |t| ==> Compare(opt, coll, t[i], x) > 0
    ensures Insert(opt, coll, t, x) == t[..k] + [x] + t[k..]
  {
    if k == |t| {
      assert t[..k] == t && t[k..] == [];
    } else {
      var init := t[..|t| - 1];
      InsertAt(opt, coll, init, x, k);
      assert init[..k] == t[..k];
      assert t[k..] == init[k..] + [t[|t| - 1]];
    }
  }

  /** No two of the notes have titles the collation ranks equal. */
  predicate DistinctTitleKeys(coll: Collation, s: seq<Note>) {
    forall i, j :: 0 <= i < j < |s| ==> coll(s[i].title) != coll(s[j].title)
  }

  /** In an ascending list whose keys all differ from `x`'s, the notes before `x` form a
      prefix and those after it the rest. */
  lemma SplitPoint(coll: Collation, t: seq<Note>, x: Note) returns (k: nat)
    requires Ordered(SortOption(Title, Asc), coll, t)
    requires forall i :: 0 <= i < |t| ==> coll(t[i].title) != coll(x.title)
    ensures k <= |t|
    ensures forall i :: 0 <= i < k ==> Compare(SortOption(Title, Asc), coll, t[i], x) < 0
    ensures forall i :: k <= i < |t| ==> Compare(SortOption(Title, Asc), coll, t[i], x) > 0
  {
    var asc := SortOption(Title, Asc);
    k := match FirstIndex(t, (e: Note) => Compare(asc, coll, e, x) > 0)
         case None => |t|
         case Some(i) => i;
    forall i | k <= i < |t| ensures Compare(asc, coll, t[i], x) > 0 {
      if Compare(asc, coll, t[i], x) <= 0 {
        CompareTransitive(asc, coll, t[k], t[i], x);
        assert false;
      }
    }
    forall i | 0 <= i < k ensures Compare(asc, coll, t[i], x) < 0 {
      assert LexCompare(coll(t[i].title), coll(x.title)) != 0;
    }
  }

  /** One insertion step of the title sorts: `x`, whose key differs from every key in the
      ascending list `t`, lands in mirrored places in `t` and in its reverse. */
  lemma InsertMirrors(coll: Collation, t: seq<Note>, x: Note)
    requires Ordered(SortOption(Title, Asc), coll, t)
    requires forall i :: 0 <= i < |t| ==> coll(t[i].title) != coll(x.title)
    ensures Insert(SortOption(Title, Desc), coll, Reverse(t), x)
            == Reverse(Insert(SortOption(Title, Asc), coll, t, x))
  {
    var asc, desc := SortOption(Title, Asc), SortOption(Title, Desc);
    var k := SplitPoint(coll, t, x);
    InsertAt(asc, coll, t, x, k);
    var rt, k' := Reverse(t), |t| - k;
    forall i | 0 <= i < k' ensures Compare(desc, coll, rt[i], x) <= 0 {
      assert rt[i] == t[|t| - 1 - i];
    }
    forall i | k' <= i < |rt| ensures Compare(desc, coll, rt[i], x) > 0 {
      assert rt[i] == t[|t| - 1 - i];
    }
    InsertAt(desc, coll, rt, x, k');
    ReverseSplit(t, k);
    assert rt[..k'] == Reverse(t[k..]) && rt[k'..] == Reverse(t[..k]);
    ReverseAround(t, x, k);
  }

  /** A rearrangement `t` of all but the last note of `s` has no title ranked equal to
      the last note's, when `s` has distinct title keys. */
  lemma KeysDifferFromLast(coll: Collation, s: seq<Note>, t: seq<Note>)
    requires DistinctTitleKeys(coll, s) && s != []
    requires multiset(t) == multiset(s[..|s| - 1])
    ensures forall i :: 0 <= i < |t| ==> coll(t[i].title) != coll(s[|s| - 1].title)
  {
    var init := s[..|s| - 1];
    forall i | 0 <= i < |t| ensures coll(t[i].title) != coll(s[|s| - 1].title) {
      assert t[i] in multiset(init);
      var j :| 0 <= j < |init| && init[j] == t[i];
      assert s[j] == t[i];
    }
  }

  /** With no two titles ranked equal, sorting by title Z to A gives exactly the A to Z
      order reversed. */
  lemma {:induction false} TitleDescReversesAsc(coll: Collation, s: seq<Note>)
    requires DistinctTitleKeys(coll, s)
    ensures SortedNotes(s, Typed(SortOption(Title, Desc)), coll)
            == Reverse(SortedNotes(s, Typed(SortOption(Title, Asc)), coll))
  {
    var asc, desc := SortOption(Title, Asc), SortOption(Title, Desc);
    if s != [] {
      var init, x := s[..|s| - 1], s[|s| - 1];
      assert DistinctTitleKeys(coll, init);
      TitleDescReversesAsc(coll, init);
      var t := InsertionSort(asc, coll, init);
      InsertionSortOrdered(asc, coll, init);
      InsertionSortPermutes(asc, coll, init);
      KeysDifferFromLast(coll, s, t);
      InsertMirrors(coll, t, x);
    }
  }

  /** Two notes of one user, `a` edited before `b` and titled before it: newest first puts
      `b` ahead, title A to Z puts `a` ahead. */
  lemma TwoNotes(a: Note, b: Note, coll: Collation)
    requires a.updatedAt < b.updatedAt && LocaleCompare(coll, a.title, b.title) < 0
    ensures SortedNotes([a, b], Typed(SortOption(LastUpdate, Desc)), coll) == [b, a]
    ensures SortedNotes([a, b], Typed(SortOption(Title, Asc)), coll) == [a, b]
  {
    assert [a, b][..1] == [a] && [a][..0] == [];
    var desc, asc := SortOption(LastUpdate, Desc), SortOption(Title, Asc);
    assert InsertionSort(desc, coll, [a]) == [a];
    assert InsertionSort(desc, coll, [a, b]) == Insert(desc, coll, [a], b);
    assert Insert(desc, coll, [a], b) == Insert(desc, coll, [], b) + [a];
    assert InsertionSort(asc, coll, [a]) == [a];
    assert InsertionSort(asc, coll, [a, b]) == Insert(asc, coll, [a], b);
    assert Insert(asc, coll, [a], b) == [a] + [b];
  }
}
