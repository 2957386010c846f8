/** The book part of a restore: matching is stable, clocks only rise, and a second pass changes nothing. */
module RestoredBooks {
  import opened Wrappers
  import opened Text
  import opened Library
  import opened Snapshots
  import opened Catalogs
  import opened Backups

  type ProvenanceTable = map<(Id, Key), Provenance>

  // ---------------------------------------------------------------------------
  // Constraints
  // ---------------------------------------------------------------------------

  /** The unique indexes on source ids. */
  ghost predicate SourceIdsUnique(books: map<Id, FullBook>)
  {
    && (forall a, b ::
        a in books && b in books && books[a].goodreads.Some? && books[a].goodreads == books[b].goodreads ==> a == b)
    && (forall a, b :: a in books && b in books && books[a].calibre.Some? && books[a].calibre == books[b].calibre ==>
        a == b)
  }

  ghost predicate ProvenanceRefers(provenance: ProvenanceTable, books: map<Id, FullBook>)
  {
    forall key :: key in provenance ==> key.0 in books
  }

  ghost predicate AllStars(books: map<Id, FullBook>)
  {
    forall id :: id in books ==> IsStars(Column(books[id], Rating))
  }

  // ---------------------------------------------------------------------------
  // Clocks only rise
  // ---------------------------------------------------------------------------

  /** The table has the key with a clock that is not older. */
  predicate AtLeast(provenance: ProvenanceTable, key: (Id, Key), hlc: string)
  {
    key in provenance && !Less(Effective(provenance[key]), hlc)
  }

  ghost predicate Rises(a: ProvenanceTable, b: ProvenanceTable)
  {
    forall key :: key in a ==> AtLeast(b, key, Effective(a[key]))
  }

  lemma NotLessTransitive(a: string, b: string, c: string)
    requires !Less(b, a) && !Less(c, b)
    ensures !Less(c, a)
  {
    LessTrichotomy(a, b);
    LessTrichotomy(b, c);
    if a != b && b != c {
      LessTransitive(a, b, c);
      LessTrichotomy(a, c);
    }
  }

  lemma AtLeastRises(a: ProvenanceTable, b: ProvenanceTable, key: (Id, Key), hlc: string)
    requires AtLeast(a, key, hlc) && Rises(a, b)
    ensures AtLeast(b, key, hlc)
  {
    NotLessTransitive(hlc, Effective(a[key]), Effective(b[key]));
  }

  lemma RisesTransitive(a: ProvenanceTable, b: ProvenanceTable, c: ProvenanceTable)
    requires Rises(a, b) && Rises(b, c)
    ensures Rises(a, c)
  {
    forall key | key in a ensures AtLeast(c, key, Effective(a[key])) {
      AtLeastRises(b, c, key, Effective(a[key]));
    }
  }

  lemma MergeFieldRises(s: FieldStage, local: Id, k: Key, incoming: FullBook, p: Provenance)
    ensures Rises(s.provenance, MergeField(s, local, k, incoming, p).provenance)
    ensures AtLeast(MergeField(s, local, k, incoming, p).provenance, (local, k), Effective(p))
  {
    hide ApplyField, IsStars;
    LessTrichotomy(Effective(p), Effective(p));
    forall key | key in s.provenance
      ensures AtLeast(MergeField(s, local, k, incoming, p).provenance, key, Effective(s.provenance[key]))
    {
      LessTrichotomy(Effective(s.provenance[key]), Effective(s.provenance[key]));
      LessTrichotomy(Effective(s.provenance[key]), Effective(p));
    }
  }

  /** The columns that a merge never touches. */
  predicate SameIdentity(a: FullBook, b: FullBook)
  {
    && a.goodreads == b.goodreads && a.calibre == b.calibre && a.createdAt == b.createdAt
    && a.deletedAt == b.deletedAt && a.deletedBy == b.deletedBy && Column(a, WorkId) == Column(b, WorkId)
  }

  lemma {:induction false} MergeFieldsRise(s: FieldStage, local: Id, id: Id, incoming: FullBook,
                                           rows: seq<((Id, Key), Provenance)>, n: nat)
    requires n <= |rows|
    ensures var r := MergeFields(s, local, id, incoming, rows, n);
      && Rises(s.provenance, r.provenance)
      && (forall i :: 0 <= i < n && rows[i].0.0 == id ==>
          AtLeast(r.provenance, (local, rows[i].0.1), Effective(rows[i].1)))
      && (forall key :: key in r.provenance ==> key in s.provenance || key.0 == local)
      && SameIdentity(s.row, r.row)
  {
    hide Effective, IsStars, Less, AtLeast, Rises;
    if n == 0 {
      RisesReflexive(s.provenance);
    } else {
      MergeFieldsRise(s, local, id, incoming, rows, n - 1);
      var before := MergeFields(s, local, id, incoming, rows, n - 1);
      if rows[n - 1].0.0 == id {
        MergeFieldRises(before, local, rows[n - 1].0.1, incoming, rows[n - 1].1);
        var r := MergeFields(s, local, id, incoming, rows, n);
        RisesTransitive(s.provenance, before.provenance, r.provenance);
        forall i | 0 <= i < n && rows[i].0.0 == id
          ensures AtLeast(r.provenance, (local, rows[i].0.1), Effective(rows[i].1))
        {
          if i < n - 1 {
            AtLeastRises(before.provenance, r.provenance, (local, rows[i].0.1), Effective(rows[i].1));
          }
        }
      }
    }
  }

  lemma RisesReflexive(a: ProvenanceTable)
    ensures Rises(a, a)
  {
    forall key | key in a ensures AtLeast(a, key, Effective(a[key])) {
      LessTrichotomy(Effective(a[key]), Effective(a[key]));
    }
  }

  /** When every row of a book is already reached, merging it changes nothing. */
  lemma {:induction false} MergeFieldsRest(s: FieldStage, local: Id, id: Id, incoming: FullBook,
                                           rows: seq<((Id, Key), Provenance)>, n: nat)
    requires n <= |rows|
    requires forall i :: 0 <= i < |rows| && rows[i].0.0 == id ==>
      AtLeast(s.provenance, (local, rows[i].0.1), Effective(rows[i].1))
    ensures MergeFields(s, local, id, incoming, rows, n) == s
  {
    if n > 0 {
      MergeFieldsRest(s, local, id, incoming, rows, n - 1);
    }
  }

  /** Copying the rows of a book that has none yet. */
  lemma {:induction false} CopyRises(provenance: ProvenanceTable, id: Id, rows: seq<((Id, Key), Provenance)>, n: nat)
    requires n <= |rows|
    requires forall key :: key in provenance ==> key.0 != id
    requires forall i, j :: 0 <= i < j < |rows| ==> rows[i].0 != rows[j].0
    ensures var r := CopyProvenance(provenance, id, rows, n);
      && (forall key :: key in provenance ==> key in r && r[key] == provenance[key])
      && (forall i :: 0 <= i < n && rows[i].0.0 == id ==> rows[i].0 in r && r[rows[i].0] == rows[i].1)
      && (forall key :: key in r && key !in provenance ==> exists i :: 0 <= i < n && rows[i].0 == key && key.0 == id)
  {
    if n > 0 {
      CopyRises(provenance, id, rows, n - 1);
    }
  }

  // ---------------------------------------------------------------------------
  // The stage after each book
  // ---------------------------------------------------------------------------

  /** Library books stay what they are; other books come from the backup under their own id. */
  ghost predicate SoundBooks(store: Store, src: Store, books: map<Id, FullBook>, ids: IdMap)
  {
    && (forall id :: id in store.books ==> id in books)
    && (forall id :: id in books && id in store.books ==> SameIdentity(books[id], store.books[id]))
    && (forall id :: id in books && id !in store.books ==>
        id in src.books && SameIdentity(books[id], src.books[id]) && id in ids && ids[id] == id)
  }

  /** Exactly the first `n` books are mapped. */
  ghost predicate SoundIds(data: Backup, books: map<Id, FullBook>, ids: IdMap, n: nat)
    requires n <= |data.books|
  {
    && (forall id :: id in ids <==> exists j :: 0 <= j < n && data.books[j].0 == id)
    && (forall id :: id in ids ==> ids[id] in books)
  }

  /** The clocks of mapped books are at least those of the backup. */
  ghost predicate SoundClocks(data: Backup, provenance: ProvenanceTable, ids: IdMap)
  {
    forall i :: 0 <= i < |data.provenance| && data.provenance[i].0.0 in ids ==>
      AtLeast(provenance, (ids[data.provenance[i].0.0], data.provenance[i].0.1), Effective(data.provenance[i].1))
  }

  /** What holds after the first `n` books of a backup of `src`. */
  ghost predicate Sound(store: Store, src: Store, data: Backup, s: BookStage, n: nat)
    requires n <= |data.books|
  {
    && s.ok
    && SoundBooks(store, src, s.books, s.ids)
    && SourceIdsUnique(s.books)
    && ProvenanceRefers(s.provenance, s.books)
    && SoundIds(data, s.books, s.ids, n)
    && SoundClocks(data, s.provenance, s.ids)
  }

  /** What the book part needs of a backup: it lists the book and provenance tables of a library. */
  ghost predicate ListsBooks(src: Store, data: Backup)
  {
    && Lists(data.books, src.books) && Lists(data.provenance, src.provenance) && Lists(data.isbns, src.isbns)
    && SourceIdsUnique(src.books) && AllStars(src.books)
  }

  ghost predicate HasBooks(store: Store)
  {
    && SourceIdsUnique(store.books) && ProvenanceRefers(store.provenance, store.books)
    && (forall isbn :: isbn in store.isbns ==> store.isbns[isbn] in store.books)
  }

  lemma HolderIs(books: map<Id, FullBook>, id: Id)
    requires SourceIdsUnique(books) && id in books
    ensures books[id].goodreads.Some? ==> GoodreadsHolder(books, books[id].goodreads.value) == Some(id)
    ensures books[id].calibre.Some? ==> CalibreHolder(books, books[id].calibre.value) == Some(id)
  {
  }

  lemma HolderHolds(books: map<Id, FullBook>, source: string, number: int)
    ensures var h := GoodreadsHolder(books, source); h.Some? ==>
      h.value in books && books[h.value].goodreads == Some(source)
    ensures var h := CalibreHolder(books, number); h.Some? ==>
      h.value in books && books[h.value].calibre == Some(number)
  {
  }

  lemma {:induction false} IsbnHolderKnown(isbns: map<string, Id>, rows: Rows<Id>, book: Id, i: nat)
    requires i <= |rows|
    ensures var h := IsbnHolder(isbns, rows, book, i);
      h.Some? ==> exists j :: i <= j < |rows| && rows[j].1 == book && rows[j].0 in isbns && h.value == isbns[rows[j].0]
    decreases |rows| - i
  {
    if i < |rows| && !(rows[i].1 == book && rows[i].0 in isbns) {
      IsbnHolderKnown(isbns, rows, book, i + 1);
    }
  }

  lemma MatchIsStored(s: BookStage, store: Store, data: Backup, id: Id, b: FullBook)
    requires HasBooks(store) && forall k :: k in store.books ==> k in s.books
    ensures var m := FindExisting(s.books, store.isbns, data.isbns, id, b); m.Some? ==> m.value in s.books
  {
    if b.goodreads.Some? {
      HolderHolds(s.books, b.goodreads.value, 0);
    }
    if b.calibre.Some? {
      HolderHolds(s.books, "", b.calibre.value);
    }
    IsbnHolderKnown(store.isbns, data.isbns, id, 0);
  }

  /** A book without a counterpart can always be inserted. */
  lemma UnmatchedIsInsertable(s: BookStage, store: Store, data: Backup, id: Id, b: FullBook)
    requires FindExisting(s.books, store.isbns, data.isbns, id, b) == None && IsStars(Column(b, Rating))
    ensures Insertable(s.books, id, b)
  {
  }

  lemma {:induction false} MergeFieldsSucceed(s: FieldStage, local: Id, id: Id, incoming: FullBook,
                                              rows: seq<((Id, Key), Provenance)>, n: nat)
    requires n <= |rows| && s.ok && IsStars(Column(incoming, Rating))
    ensures MergeFields(s, local, id, incoming, rows, n).ok
  {
    hide Effective, IsStars, Less;
    if n > 0 {
      MergeFieldsSucceed(s, local, id, incoming, rows, n - 1);
    }
  }

  lemma ClocksRise(data: Backup, ids: IdMap, a: ProvenanceTable, b: ProvenanceTable)
    requires Rises(a, b) && SoundClocks(data, a, ids)
    ensures SoundClocks(data, b, ids)
  {
    hide AtLeast, Rises, Effective;
    forall i | 0 <= i < |data.provenance| && data.provenance[i].0.0 in ids
      ensures AtLeast(b, (ids[data.provenance[i].0.0], data.provenance[i].0.1), Effective(data.provenance[i].1))
    {
      AtLeastRises(a, b, (ids[data.provenance[i].0.0], data.provenance[i].0.1), Effective(data.provenance[i].1));
    }
  }

  /** The clocks of one more book. */
  lemma OneMoreBooksClocks(data: Backup, ids: IdMap, provenance: ProvenanceTable, id: Id, local: Id)
    requires SoundClocks(data, provenance, ids) && id !in ids
    requires forall i :: 0 <= i < |data.provenance| && data.provenance[i].0.0 == id ==>
      AtLeast(provenance, (local, data.provenance[i].0.1), Effective(data.provenance[i].1))
    ensures SoundClocks(data, provenance, ids[id := local])
  {
    hide AtLeast, Effective;
  }

  lemma ListedRow<V(!new)>(rows: Rows<V>, table: map<Id, V>, i: nat)
    requires Lists(rows, table) && i < |rows|
    ensures rows[i].0 in table && table[rows[i].0] == rows[i].1
  {
  }

  lemma OneMoreId(src: Store, data: Backup, books: map<Id, FullBook>, next: map<Id, FullBook>, ids: IdMap, n: nat,
                  local: Id)
    requires Lists(data.books, src.books) && n < |data.books| && SoundIds(data, books, ids, n)
    requires local in next && forall id :: id in books ==> id in next
    ensures data.books[n].0 !in ids && SoundIds(data, next, ids[data.books[n].0 := local], n + 1)
  {
    var more := ids[data.books[n].0 := local];
    forall id ensures id in more <==> exists j :: 0 <= j < n + 1 && data.books[j].0 == id {
      if id in ids {
        var j :| 0 <= j < n && data.books[j].0 == id;
        assert 0 <= j < n + 1;
      }
    }
  }

  lemma SoundMerge(store: Store, src: Store, data: Backup, s: BookStage, n: nat, local: Id)
    requires HasBooks(store) && ListsBooks(src, data) && n < |data.books| && Sound(store, src, data, s, n)
    requires local in s.books
    ensures Sound(store, src, data, MergeBook(s, local, data.books[n].0, data.books[n].1, data.provenance), n + 1)
  {
    hide AtLeast, Rises, Effective, MergeFields, Column, IsStars, Lists, SoundIds, SoundClocks;
    var id, b := data.books[n].0, data.books[n].1;
    assert IsStars(Column(b, Rating)) by { ListedRow(data.books, src.books, n); }
    var start := FieldStage(s.books[local], s.provenance, true);
    MergeFieldsRise(start, local, id, b, data.provenance, |data.provenance|);
    MergeFieldsSucceed(start, local, id, b, data.provenance, |data.provenance|);
    var r := MergeBook(s, local, id, b, data.provenance);
    OneMoreId(src, data, s.books, r.books, s.ids, n, local);
    ClocksRise(data, s.ids, s.provenance, r.provenance);
    OneMoreBooksClocks(data, s.ids, r.provenance, id, local);
    MergedBooks(store, src, s, local, r.books[local], id);
  }

  lemma MergedBooks(store: Store, src: Store, s: BookStage, local: Id, b: FullBook, id: Id)
    requires SoundBooks(store, src, s.books, s.ids) && SourceIdsUnique(s.books)
    requires local in s.books && SameIdentity(s.books[local], b) && id !in s.ids
    ensures SoundBooks(store, src, s.books[local := b], s.ids[id := local]) && SourceIdsUnique(s.books[local := b])
  {
    UniqueAfterMerge(s.books, local, b);
    hide SourceIdsUnique, SameIdentity;
    var next, more := s.books[local := b], s.ids[id := local];
    forall k | k in next && k in store.books ensures SameIdentity(next[k], store.books[k]) {
      if k == local {
        IdentityChain(store.books[local], s.books[local], b);
      }
    }
    forall k | k in next && k !in store.books
      ensures k in src.books && SameIdentity(next[k], src.books[k]) && k in more && more[k] == k
    {
      assert k in s.books && k in s.ids && k != id;
      if k == local {
        IdentityChain(src.books[local], s.books[local], b);
      }
    }
  }

  lemma IdentityChain(a: FullBook, b: FullBook, c: FullBook)
    requires SameIdentity(b, a) && SameIdentity(b, c)
    ensures SameIdentity(c, a)
  {
  }

  lemma UniqueAfterMerge(books: map<Id, FullBook>, local: Id, b: FullBook)
    requires SourceIdsUnique(books) && local in books && SameIdentity(books[local], b)
    ensures SourceIdsUnique(books[local := b])
  {
    hide Column;
  }

  lemma SoundInsert(store: Store, src: Store, data: Backup, s: BookStage, n: nat)
    requires HasBooks(store) && ListsBooks(src, data) && n < |data.books| && Sound(store, src, data, s, n)
    requires Insertable(s.books, data.books[n].0, data.books[n].1)
    ensures Sound(store, src, data, InsertBook(s, data.books[n].0, data.books[n].1, data.provenance), n + 1)
  {
    hide AtLeast, Rises, Effective, Column, IsStars, Lists, CopyProvenance, SoundIds, SoundClocks;
    var id, b := data.books[n].0, data.books[n].1;
    ListedRow(data.books, src.books, n);
    var r := InsertBook(s, id, b, data.provenance);
    OneMoreId(src, data, s.books, r.books, s.ids, n, id);
    DistinctKeys(src, data);
    CopyRises(s.provenance, id, data.provenance, |data.provenance|);
    RisesByCopy(s.provenance, r.provenance);
    ClocksRise(data, s.ids, s.provenance, r.provenance);
    CopiedAreReached(data, id, r.provenance);
    OneMoreBooksClocks(data, s.ids, r.provenance, id, id);
    InsertedBooks(store, src, s, id, b);
  }

  lemma InsertedBooks(store: Store, src: Store, s: BookStage, id: Id, b: FullBook)
    requires SoundBooks(store, src, s.books, s.ids) && SourceIdsUnique(s.books) && Insertable(s.books, id, b)
    requires id in src.books && src.books[id] == b && id !in s.ids
    ensures SoundBooks(store, src, s.books[id := b], s.ids[id := id]) && SourceIdsUnique(s.books[id := b])
  {
    hide SourceIdsUnique, SameIdentity, Insertable;
    UniqueAfterInsertedBook(s.books, id, b);
    SameAsItself(b);
    InsertableIsNew(s.books, id, b);
  }

  lemma SameAsItself(b: FullBook)
    ensures SameIdentity(b, b)
  {
  }

  lemma InsertableIsNew(books: map<Id, FullBook>, id: Id, b: FullBook)
    requires Insertable(books, id, b)
    ensures id !in books
  {
  }

  lemma UniqueAfterInsertedBook(books: map<Id, FullBook>, id: Id, b: FullBook)
    requires SourceIdsUnique(books) && Insertable(books, id, b)
    ensures SourceIdsUnique(books[id := b]) && id !in books
  {
    hide Column, IsStars;
  }

  lemma RisesByCopy(a: ProvenanceTable, b: ProvenanceTable)
    requires forall key :: key in a ==> key in b && b[key] == a[key]
    ensures Rises(a, b)
  {
    RisesReflexive(a);
  }

  lemma DistinctKeys(src: Store, data: Backup)
    requires ListsBooks(src, data)
    ensures forall i, j :: 0 <= i < j < |data.provenance| ==> data.provenance[i].0 != data.provenance[j].0
  {
  }

  lemma CopiedAreReached(data: Backup, id: Id, r: ProvenanceTable)
    requires forall i :: 0 <= i < |data.provenance| && data.provenance[i].0.0 == id ==>
      data.provenance[i].0 in r && r[data.provenance[i].0] == data.provenance[i].1
    ensures forall i :: 0 <= i < |data.provenance| && data.provenance[i].0.0 == id ==>
      AtLeast(r, (id, data.provenance[i].0.1), Effective(data.provenance[i].1))
  {
    forall i | 0 <= i < |data.provenance| && data.provenance[i].0.0 == id
      ensures AtLeast(r, (id, data.provenance[i].0.1), Effective(data.provenance[i].1))
    {
      LessTrichotomy(Effective(data.provenance[i].1), Effective(data.provenance[i].1));
      assert data.provenance[i].0 == (id, data.provenance[i].0.1);
    }
  }

  /** The book part of a merge restore never fails, and each step keeps the stage sound. */
  lemma SoundStep(store: Store, src: Store, data: Backup, s: BookStage, n: nat)
    requires HasBooks(store) && ListsBooks(src, data) && n < |data.books| && Sound(store, src, data, s, n)
    ensures Sound(store, src, data, RestoreBook(s, store.isbns, data, MergeInto, data.books[n].0, data.books[n].1),
                  n + 1)
  {
    hide Sound, FindExisting, MergeBook, InsertBook, Insertable, Column;
    var id, b := data.books[n].0, data.books[n].1;
    var m := FindExisting(s.books, store.isbns, data.isbns, id, b);
    StageIsOk(store, src, data, s, n);
    if m.None? {
      assert IsStars(Column(b, Rating)) by { ListedRow(data.books, src.books, n); }
      UnmatchedIsInsertable(s, store, data, id, b);
      SoundInsert(store, src, data, s, n);
    } else {
      MatchIsStored(s, store, data, id, b);
      SoundMerge(store, src, data, s, n, m.value);
    }
  }

  lemma StageIsOk(store: Store, src: Store, data: Backup, s: BookStage, n: nat)
    requires n <= |data.books| && Sound(store, src, data, s, n)
    ensures s.ok && forall id :: id in store.books ==> id in s.books
  {
  }

  lemma InitialStage(store: Store, src: Store, data: Backup)
    requires HasBooks(store)
    ensures Sound(store, src, data, BookStage(store.books, store.provenance, map[], true), 0)
  {
    hide AtLeast, Column, Effective;
  }

  lemma {:induction false} StageIsSound(store: Store, src: Store, data: Backup, n: nat)
    requires HasBooks(store) && ListsBooks(src, data) && n <= |data.books|
    ensures Sound(store, src, data, RestoreBooks(store, data, MergeInto, n), n)
  {
    hide RestoreBook, ListsBooks, Sound;
    if n == 0 {
      InitialStage(store, src, data);
    } else {
      StageIsSound(store, src, data, n - 1);
      SoundStep(store, src, data, RestoreBooks(store, data, MergeInto, n - 1), n - 1);
    }
  }

  // ---------------------------------------------------------------------------
  // Matching is stable
  // ---------------------------------------------------------------------------

  /** What one step maps its book to. */
  ghost function Target(store: Store, data: Backup, n: nat): Id
    requires n < |data.books|
  {
    var m := FindExisting(RestoreBooks(store, data, MergeInto, n).books, store.isbns, data.isbns, data.books[n].0,
                          data.books[n].1);
    if m.Some? then m.value else data.books[n].0
  }

  /** What one step does: `r` is the stage after `s`. */
  ghost predicate Follows(s: BookStage, r: BookStage, id: Id, local: Id)
  {
    && id !in s.ids && r.ids == s.ids[id := local] && local in r.books
    && (forall k :: k in s.books ==> k in r.books)
  }

  lemma StageStep(store: Store, src: Store, data: Backup, n: nat)
    requires HasBooks(store) && ListsBooks(src, data) && n < |data.books|
    ensures Follows(RestoreBooks(store, data, MergeInto, n), RestoreBooks(store, data, MergeInto, n + 1),
                    data.books[n].0, Target(store, data, n))
  {
    hide ListsBooks, SoundBooks, SoundIds, SoundClocks, SourceIdsUnique, HasBooks, RestoreBook, FindExisting;
    StageInfo(store, src, data, n);
    StageInfo(store, src, data, n + 1);
    UnfoldBooks(store, data, n);
    RestoreBookFollows(RestoreBooks(store, data, MergeInto, n), store.isbns, data, data.books[n].0, data.books[n].1);
  }

  lemma StageInfo(store: Store, src: Store, data: Backup, n: nat)
    requires HasBooks(store) && ListsBooks(src, data) && n <= |data.books|
    ensures var s := RestoreBooks(store, data, MergeInto, n);
      && s.ok && SoundIds(data, s.books, s.ids, n) && SoundClocks(data, s.provenance, s.ids)
      && SoundBooks(store, src, s.books, s.ids) && SourceIdsUnique(s.books) && SourceIdsUnique(src.books)
      && (n < |data.books| ==> data.books[n].0 !in s.ids)
  {
    hide RestoreBook, HasBooks;
    StageIsSound(store, src, data, n);
    StageFacts(store, src, data, RestoreBooks(store, data, MergeInto, n), n);
  }

  lemma UnfoldBooks(store: Store, data: Backup, n: nat)
    requires n < |data.books|
    ensures RestoreBooks(store, data, MergeInto, n + 1) ==
      RestoreBook(RestoreBooks(store, data, MergeInto, n), store.isbns, data, MergeInto, data.books[n].0,
                  data.books[n].1)
  {
    hide RestoreBook;
  }

  lemma RestoreBookFollows(s: BookStage, isbns: map<string, Id>, data: Backup, id: Id, b: FullBook)
    requires s.ok && RestoreBook(s, isbns, data, MergeInto, id, b).ok && id !in s.ids
    ensures var m := FindExisting(s.books, isbns, data.isbns, id, b);
      Follows(s, RestoreBook(s, isbns, data, MergeInto, id, b), id, if m.Some? then m.value else id)
  {
    hide FindExisting, MergeFields, CopyProvenance, Insertable;
  }

  lemma StageFacts(store: Store, src: Store, data: Backup, s: BookStage, n: nat)
    requires n <= |data.books| && ListsBooks(src, data) && Sound(store, src, data, s, n)
    ensures s.ok && SoundIds(data, s.books, s.ids, n) && SoundClocks(data, s.provenance, s.ids)
    ensures SoundBooks(store, src, s.books, s.ids) && SourceIdsUnique(s.books) && SourceIdsUnique(src.books)
    ensures forall id :: id in store.books ==> id in s.books
    ensures n < |data.books| ==>
      data.books[n].0 !in s.ids && data.books[n].0 in src.books && src.books[data.books[n].0] == data.books[n].1
  {
  }

  predicate Extends(s: BookStage, r: BookStage)
  {
    && (forall id :: id in s.books ==> id in r.books)
    && (forall id :: id in s.ids ==> id in r.ids && r.ids[id] == s.ids[id])
  }

  /** Later books leave earlier ones in place and mapped as they were. */
  lemma {:induction false} StageGrows(store: Store, src: Store, data: Backup, n: nat, m: nat)
    requires HasBooks(store) && ListsBooks(src, data) && n <= m <= |data.books|
    ensures Extends(RestoreBooks(store, data, MergeInto, n), RestoreBooks(store, data, MergeInto, m))
    decreases m
  {
    hide ListsBooks, HasBooks, Target, RestoreBook;
    if n < m {
      StageGrows(store, src, data, n, m - 1);
      StageStep(store, src, data, m - 1);
      assert Follows(RestoreBooks(store, data, MergeInto, m - 1), RestoreBooks(store, data, MergeInto, m),
                     data.books[m - 1].0, Target(store, data, m - 1));
    }
  }

  /** Every ISBN of the library and of the backup is stored, new ones under the mapped book. */
  ghost predicate IsbnsRestored(store: Store, data: Backup, ids: IdMap, isbns: map<string, Id>)
  {
    && (forall isbn :: isbn in store.isbns ==> isbn in isbns && isbns[isbn] == store.isbns[isbn])
    && (forall i :: 0 <= i < |data.isbns| ==> data.isbns[i].0 in isbns)
    && (forall i :: 0 <= i < |data.isbns| && data.isbns[i].0 !in store.isbns ==>
        isbns[data.isbns[i].0] == Resolve(ids, data.isbns[i].1))
  }

  lemma {:induction false} SameIsbnHolder(store: Store, data: Backup, ids: IdMap, isbns: map<string, Id>, id: Id,
                                          i: nat)
    requires IsbnsRestored(store, data, ids, isbns) && i <= |data.isbns|
    requires IsbnHolder(store.isbns, data.isbns, id, i) == Some(Resolve(ids, id))
    ensures IsbnHolder(isbns, data.isbns, id, i) == Some(Resolve(ids, id))
    decreases |data.isbns| - i
  {
    if data.isbns[i].1 == id {
      assert data.isbns[i].0 in isbns;
    } else {
      SameIsbnHolder(store, data, ids, isbns, id, i + 1);
    }
  }

  /** A source id that no book of the stage holds is held by no other book afterwards. */
  lemma NoNewHolder(store: Store, src: Store, early: BookStage, late: BookStage, id: Id)
    requires SoundBooks(store, src, early.books, early.ids) && SoundBooks(store, src, late.books, late.ids)
    requires SourceIdsUnique(src.books) && id in src.books && id !in late.books
    requires forall k :: k in early.books ==> k in late.books
    ensures var g := src.books[id].goodreads;
      g.Some? && GoodreadsHolder(early.books, g.value).None? ==> GoodreadsHolder(late.books, g.value).None?
    ensures var c := src.books[id].calibre;
      c.Some? && CalibreHolder(early.books, c.value).None? ==> CalibreHolder(late.books, c.value).None?
  {
    hide Column;
  }

  lemma SameHolder(store: Store, src: Store, early: BookStage, late: BookStage, local: Id)
    requires SoundBooks(store, src, early.books, early.ids) && SoundBooks(store, src, late.books, late.ids)
    requires SourceIdsUnique(late.books) && local in early.books && local in late.books
    ensures early.books[local].goodreads.Some? ==>
      GoodreadsHolder(late.books, early.books[local].goodreads.value) == Some(local)
    ensures early.books[local].calibre.Some? ==>
      CalibreHolder(late.books, early.books[local].calibre.value) == Some(local)
  {
    hide Column, GoodreadsHolder, CalibreHolder;
    HolderIs(late.books, local);
  }

  /** Matching gives the same book in a later stage that still lacks the incoming id. */
  lemma SameMatch(store: Store, src: Store, data: Backup, early: BookStage, late: BookStage, isbns: map<string, Id>,
                  id: Id, b: FullBook)
    requires SoundBooks(store, src, early.books, early.ids) && SoundBooks(store, src, late.books, late.ids)
    requires SourceIdsUnique(src.books) && SourceIdsUnique(late.books) && id in src.books && src.books[id] == b
    requires forall k :: k in early.books ==> k in late.books
    requires id !in late.books && IsbnsRestored(store, data, late.ids, isbns)
    requires FindExisting(early.books, store.isbns, data.isbns, id, b) == Some(Resolve(late.ids, id))
    ensures FindExisting(late.books, isbns, data.isbns, id, b) == Some(Resolve(late.ids, id))
  {
    hide SoundBooks, SourceIdsUnique, IsbnsRestored, GoodreadsHolder, CalibreHolder, IsbnHolder;
    NoNewHolder(store, src, early, late, id);
    if b.goodreads.Some? && GoodreadsHolder(early.books, b.goodreads.value).Some? {
      HolderHolds(early.books, b.goodreads.value, 0);
      SameHolder(store, src, early, late, GoodreadsHolder(early.books, b.goodreads.value).value);
    } else if b.calibre.Some? && CalibreHolder(early.books, b.calibre.value).Some? {
      HolderHolds(early.books, "", b.calibre.value);
      SameHolder(store, src, early, late, CalibreHolder(early.books, b.calibre.value).value);
    } else {
      SameIsbnHolder(store, data, late.ids, isbns, id, 0);
    }
  }

  /** After the restore every book of the backup finds the book it was mapped to. */
  lemma MatchAgain(store: Store, src: Store, data: Backup, n: nat, isbns: map<string, Id>)
    requires HasBooks(store) && ListsBooks(src, data) && n < |data.books|
    requires IsbnsRestored(store, data, RestoreBooks(store, data, MergeInto, |data.books|).ids, isbns)
    ensures var last := RestoreBooks(store, data, MergeInto, |data.books|);
      && data.books[n].0 in last.ids && last.ids[data.books[n].0] == Target(store, data, n)
      && FindExisting(last.books, isbns, data.isbns, data.books[n].0, data.books[n].1) == Some(Target(store, data, n))
  {
    hide RestoreBook, HasBooks, SoundIds, SoundClocks, IsbnsRestored, SourceIdsUnique, IsbnHolder, GoodreadsHolder;
    hide CalibreHolder, Lists;
    var early, late := RestoreBooks(store, data, MergeInto, n), RestoreBooks(store, data, MergeInto, |data.books|);
    var id, b := data.books[n].0, data.books[n].1;
    StageInfo(store, src, data, n);
    StageInfo(store, src, data, |data.books|);
    StageStep(store, src, data, n);
    StageGrows(store, src, data, n, |data.books|);
    StageGrows(store, src, data, n + 1, |data.books|);
    ListedRow(data.books, src.books, n);
    assert late.ids[id] == Target(store, data, n);
    if id in late.books {
      if id !in early.books {
        assert id !in store.books;
      }
    } else {
      SameMatch(store, src, data, early, late, isbns, id, b);
    }
  }

  /** One step of a second pass: the book finds its counterpart and changes nothing. */
  lemma SecondStep(store: Store, src: Store, data: Backup, again: Store, n: nat, ids: IdMap)
    requires HasBooks(store) && ListsBooks(src, data) && n < |data.books|
    requires var last := RestoreBooks(store, data, MergeInto, |data.books|);
      again.books == last.books && again.provenance == last.provenance
        && IsbnsRestored(store, data, last.ids, again.isbns)
    ensures RestoreBook(BookStage(again.books, again.provenance, ids, true), again.isbns, data, MergeInto,
                        data.books[n].0, data.books[n].1) ==
      BookStage(again.books, again.provenance, ids[data.books[n].0 := Target(store, data, n)], true)
  {
    hide ListsBooks, HasBooks, IsbnsRestored, RestoreBook, SoundClocks, SoundIds, SoundBooks, SourceIdsUnique, Target;
    hide FindExisting;
    MatchAgain(store, src, data, n, again.isbns);
    StageInfo(store, src, data, |data.books|);
    StageIdsStored(data, RestoreBooks(store, data, MergeInto, |data.books|));
    RestOnBook(data, BookStage(again.books, again.provenance, ids, true), again.isbns,
               RestoreBooks(store, data, MergeInto, |data.books|).ids, n);
  }

  lemma StageIdsStored(data: Backup, s: BookStage)
    requires SoundIds(data, s.books, s.ids, |data.books|)
    ensures forall id :: id in s.ids ==> s.ids[id] in s.books
  {
  }

  /** A second pass over the books leaves books and provenance as the first pass left them. */
  lemma {:induction false} SecondPass(store: Store, src: Store, data: Backup, again: Store, n: nat)
    requires HasBooks(store) && ListsBooks(src, data) && n <= |data.books|
    requires var last := RestoreBooks(store, data, MergeInto, |data.books|);
      again.books == last.books && again.provenance == last.provenance
        && IsbnsRestored(store, data, last.ids, again.isbns)
    ensures RestoreBooks(again, data, MergeInto, n) ==
      BookStage(again.books, again.provenance, RestoreBooks(store, data, MergeInto, n).ids, true)
  {
    hide ListsBooks, HasBooks, IsbnsRestored, RestoreBook, Target;
    if n > 0 {
      SecondPass(store, src, data, again, n - 1);
      StageStep(store, src, data, n - 1);
      SecondStep(store, src, data, again, n - 1, RestoreBooks(store, data, MergeInto, n - 1).ids);
    }
  }

  /** A book whose clocks have all been reached is left alone. */
  lemma RestOnBook(data: Backup, s: BookStage, isbns: map<string, Id>, ids: IdMap, n: nat)
    requires n < |data.books| && s.ok && SoundClocks(data, s.provenance, ids)
    requires data.books[n].0 in ids && ids[data.books[n].0] in s.books
    requires FindExisting(s.books, isbns, data.isbns, data.books[n].0, data.books[n].1) == Some(ids[data.books[n].0])
    ensures RestoreBook(s, isbns, data, MergeInto, data.books[n].0, data.books[n].1) ==
      s.(ids := s.ids[data.books[n].0 := ids[data.books[n].0]])
  {
    hide FindExisting, AtLeast, Effective;
    var id, b := data.books[n].0, data.books[n].1;
    var local := ids[id];
    MergeFieldsRest(FieldStage(s.books[local], s.provenance, true), local, id, b, data.provenance, |data.provenance|);
    assert s.books[local := s.books[local]] == s.books;
  }
}
