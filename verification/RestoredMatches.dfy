/** Which library book each book of a backup is restored into, told from the library and the backup alone. */
module RestoredMatches {
  import opened Wrappers
  import opened Library
  import opened Snapshots
  import opened Backups
  import opened RestoredBooks

  // ---------------------------------------------------------------------------
  // What a library knows of a book
  // ---------------------------------------------------------------------------

  /** Row `i` of the backup's ISBNs is the first of the book's that the library has. */
  predicate IsFirstKnownIsbn(store: Store, data: Backup, id: Id, i: int)
  {
    && 0 <= i < |data.isbns| && data.isbns[i].1 == id && data.isbns[i].0 in store.isbns
    && forall j :: 0 <= j < i && data.isbns[j].1 == id ==> data.isbns[j].0 !in store.isbns
  }

  predicate HasGoodreads(store: Store, b: FullBook)
  {
    b.goodreads.Some? && exists k :: k in store.books && store.books[k].goodreads == b.goodreads
  }

  predicate HasCalibre(store: Store, b: FullBook)
  {
    b.calibre.Some? && exists k :: k in store.books && store.books[k].calibre == b.calibre
  }

  predicate HasIsbn(store: Store, data: Backup, id: Id)
  {
    exists i :: 0 <= i < |data.isbns| && data.isbns[i].1 == id && data.isbns[i].0 in store.isbns
  }

  /** Neither its id nor a source id nor an ISBN of the book is in the library. */
  predicate IsUnknown(store: Store, data: Backup, id: Id, b: FullBook)
  {
    id !in store.books && !HasGoodreads(store, b) && !HasCalibre(store, b) && !HasIsbn(store, data, id)
  }

  /** The library book for a book of the backup: by id, else by Goodreads id, else by Calibre id, else by its first
      known ISBN; an unknown book stands for itself. */
  ghost predicate IsMatch(store: Store, data: Backup, id: Id, b: FullBook, local: Id)
  {
    if id in store.books then local == id
    else if HasGoodreads(store, b) then local in store.books && store.books[local].goodreads == b.goodreads
    else if HasCalibre(store, b) then local in store.books && store.books[local].calibre == b.calibre
    else if HasIsbn(store, data, id) then
      exists i :: IsFirstKnownIsbn(store, data, id, i) && local == store.isbns[data.isbns[i].0]
    else local == id
  }

  // ---------------------------------------------------------------------------
  // The stage of the loop knows no more than the library
  // ---------------------------------------------------------------------------

  /** Books restored before have other source ids, so a source id is found in the library or not at all. */
  lemma StageSources(store: Store, src: Store, s: BookStage, id: Id, b: FullBook)
    requires SoundBooks(store, src, s.books, s.ids) && SourceIdsUnique(src.books)
    requires id in src.books && src.books[id] == b && id !in s.ids
    ensures id in s.books <==> id in store.books
    ensures id !in store.books ==>
      forall k :: k in s.books && b.goodreads.Some? && s.books[k].goodreads == b.goodreads ==>
        k in store.books && store.books[k].goodreads == b.goodreads
    ensures id !in store.books ==> forall k :: k in s.books && b.calibre.Some? && s.books[k].calibre == b.calibre ==>
      k in store.books && store.books[k].calibre == b.calibre
    ensures forall k :: k in store.books ==>
      k in s.books && s.books[k].goodreads == store.books[k].goodreads && s.books[k].calibre == store.books[k].calibre
  {
    hide Column;
  }

  lemma {:induction false} FirstKnown(store: Store, data: Backup, id: Id, i: nat)
    requires i <= |data.isbns|
    requires forall j :: 0 <= j < i && data.isbns[j].1 == id ==> data.isbns[j].0 !in store.isbns
    ensures var h := IsbnHolder(store.isbns, data.isbns, id, i);
      if HasIsbn(store, data, id)
      then exists k :: IsFirstKnownIsbn(store, data, id, k) && h == Some(store.isbns[data.isbns[k].0])
      else h == None
    decreases |data.isbns| - i
  {
    if i < |data.isbns| {
      if data.isbns[i].1 == id && data.isbns[i].0 in store.isbns {
        assert IsFirstKnownIsbn(store, data, id, i);
      } else {
        FirstKnown(store, data, id, i + 1);
      }
    }
  }

  /** One step maps its book to the library's match. */
  lemma TargetIsMatch(store: Store, src: Store, data: Backup, n: nat)
    requires HasBooks(store) && ListsBooks(src, data) && n < |data.books|
    ensures IsMatch(store, data, data.books[n].0, data.books[n].1, Target(store, data, n))
  {
    hide RestoreBook, HasBooks, SoundIds, SoundClocks, Lists, FindExisting, IsMatch, SoundBooks, RestoreBooks;
    hide SourceIdsUnique;
    StageInfo(store, src, data, n);
    ListedRow(data.books, src.books, n);
    FoundInStage(store, src, data, RestoreBooks(store, data, MergeInto, n), data.books[n].0, data.books[n].1);
  }

  /** What the lookup finds at a stage of the loop is the library's match. */
  lemma FoundInStage(store: Store, src: Store, data: Backup, s: BookStage, id: Id, b: FullBook)
    requires SoundBooks(store, src, s.books, s.ids) && SourceIdsUnique(src.books)
    requires id in src.books && src.books[id] == b && id !in s.ids
    ensures var m := FindExisting(s.books, store.isbns, data.isbns, id, b);
      IsMatch(store, data, id, b, if m.Some? then m.value else id)
  {
    StageSources(store, src, s, id, b);
    hide SoundBooks, SourceIdsUnique, IsFirstKnownIsbn, IsbnHolder, HasIsbn;
    FirstKnown(store, data, id, 0);
    if b.goodreads.Some? {
      HolderHolds(s.books, b.goodreads.value, 0);
      GoodreadsFound(s.books, b.goodreads.value);
    }
    if b.calibre.Some? {
      HolderHolds(s.books, "", b.calibre.value);
      CalibreFound(s.books, b.calibre.value);
    }
    hide GoodreadsHolder, CalibreHolder;
  }

  lemma GoodreadsFound(books: map<Id, FullBook>, source: string)
    ensures GoodreadsHolder(books, source).Some? <==> exists k :: k in books && books[k].goodreads == Some(source)
  {
  }

  lemma CalibreFound(books: map<Id, FullBook>, source: int)
    ensures CalibreHolder(books, source).Some? <==> exists k :: k in books && books[k].calibre == Some(source)
  {
  }

  /** Every book of the backup ends up in the library book that matches it. */
  lemma RestoredIntoMatch(store: Store, src: Store, data: Backup, n: nat)
    requires HasBooks(store) && ListsBooks(src, data) && n < |data.books|
    ensures var ids, id := RestoreBooks(store, data, MergeInto, |data.books|).ids, data.books[n].0;
      id in ids && IsMatch(store, data, id, data.books[n].1, ids[id])
  {
    hide RestoreBook, HasBooks, ListsBooks, Target, IsMatch;
    TargetIsMatch(store, src, data, n);
    StageStep(store, src, data, n);
    StageGrows(store, src, data, n + 1, |data.books|);
  }

  /** A match other than the book itself is a library book; only an unknown book stands for itself without being
      in the library. */
  lemma MatchIsInLibrary(store: Store, data: Backup, id: Id, b: FullBook, local: Id)
    requires HasBooks(store) && IsMatch(store, data, id, b, local)
    ensures local in store.books || IsUnknown(store, data, id, b)
    ensures IsUnknown(store, data, id, b) ==> local == id && id !in store.books
  {
  }

  /** A book of the backup keeps its own id and gets a row of its own exactly when it is unknown. So the restored
      library has the library's books and the unknown ones, and no others. */
  lemma InsertedExactlyWhenUnknown(store: Store, src: Store, data: Backup, n: nat)
    requires HasBooks(store) && ListsBooks(src, data) && n < |data.books|
    ensures var last, id := RestoreBooks(store, data, MergeInto, |data.books|), data.books[n].0;
      && id in last.ids
      && (last.ids[id] == id && id !in store.books <==> IsUnknown(store, data, id, data.books[n].1))
      && (id in last.books <==> id in store.books || IsUnknown(store, data, id, data.books[n].1))
  {
    hide RestoreBook, HasBooks, ListsBooks, IsMatch, IsUnknown, SoundClocks, SourceIdsUnique;
    var last, id := RestoreBooks(store, data, MergeInto, |data.books|), data.books[n].0;
    RestoredIntoMatch(store, src, data, n);
    MatchIsInLibrary(store, data, id, data.books[n].1, last.ids[id]);
    StageInfo(store, src, data, |data.books|);
  }

  /** Every book of the restored library is the library's or one of the backup's. */
  lemma NoOtherBooks(store: Store, src: Store, data: Backup, id: Id)
    requires HasBooks(store) && ListsBooks(src, data)
    requires id in RestoreBooks(store, data, MergeInto, |data.books|).books && id !in store.books
    ensures exists n :: 0 <= n < |data.books| && data.books[n].0 == id && IsUnknown(store, data, id, data.books[n].1)
  {
    hide RestoreBook, HasBooks, IsUnknown, SoundClocks, SourceIdsUnique, SameIdentity;
    StageInfo(store, src, data, |data.books|);
    hide SoundBooks, SoundIds, RestoreBooks;
    assert Lists(data.books, src.books) && id in src.books by { InsertedFromBackup(store, src, data, id); }
    var n :| 0 <= n < |data.books| && data.books[n].0 == id;
    InsertedExactlyWhenUnknown(store, src, data, n);
  }

  lemma InsertedFromBackup(store: Store, src: Store, data: Backup, id: Id)
    requires HasBooks(store) && ListsBooks(src, data)
    requires id in RestoreBooks(store, data, MergeInto, |data.books|).books && id !in store.books
    ensures Lists(data.books, src.books) && id in src.books
  {
    hide RestoreBook, HasBooks, SoundClocks, SourceIdsUnique, Lists;
    StageInfo(store, src, data, |data.books|);
  }

  /** A shared ISBN is enough: a book with an unknown id and unknown source ids goes into the library book that holds
      the first of its ISBNs the library has, and no row is added for it. */
  lemma SharedIsbnMatches(store: Store, src: Store, data: Backup, n: nat, i: nat)
    requires HasBooks(store) && ListsBooks(src, data) && n < |data.books|
    requires data.books[n].0 !in store.books
    requires !HasGoodreads(store, data.books[n].1) && !HasCalibre(store, data.books[n].1)
    requires IsFirstKnownIsbn(store, data, data.books[n].0, i)
    ensures var last, id := RestoreBooks(store, data, MergeInto, |data.books|), data.books[n].0;
      id in last.ids && last.ids[id] == store.isbns[data.isbns[i].0] && id !in last.books
  {
    hide RestoreBook, HasBooks, ListsBooks, HasGoodreads, HasCalibre;
    var last, id := RestoreBooks(store, data, MergeInto, |data.books|), data.books[n].0;
    RestoredIntoMatch(store, src, data, n);
    assert HasIsbn(store, data, id);
    var k :| IsFirstKnownIsbn(store, data, id, k) && last.ids[id] == store.isbns[data.isbns[k].0];
    assert k == i;
    InsertedExactlyWhenUnknown(store, src, data, n);
  }
}
