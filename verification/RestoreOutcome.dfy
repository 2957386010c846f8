/** When a merge restore succeeds, and that the restored library meets every constraint of the schema. */
module RestoreOutcome {
  import opened Wrappers
  import opened Text
  import opened Library
  import opened Snapshots
  import opened Catalogs
  import opened Backups
  import opened RestoredBooks
  import opened RestoreTheorem

  // ---------------------------------------------------------------------------
  // Every reference of the backup resolves
  // ---------------------------------------------------------------------------

  /** The ids of the source library's books map to stored books. */
  ghost predicate BooksResolve(src: Store, ids: IdMap, books: map<Id, FullBook>)
  {
    forall id :: id in src.books ==> Resolve(ids, id) in books
  }

  lemma RestoredBooksResolve(store: Store, src: Store, data: Backup)
    requires HasBooks(store) && ListsBooks(src, data)
    ensures var s := RestoreBooks(store, data, MergeInto, |data.books|);
      s.ok && BooksResolve(src, s.ids, s.books) && (forall id :: id in store.books ==> id in s.books)
      && SourceIdsUnique(s.books) && ProvenanceRefers(s.provenance, s.books)
  {
    hide RestoreBooks, RestoreBook, HasBooks, SourceIdsUnique, SoundClocks, AllStars, ProvenanceRefers;
    StageIsSound(store, src, data, |data.books|);
    var s := RestoreBooks(store, data, MergeInto, |data.books|);
    forall id | id in src.books ensures Resolve(s.ids, id) in s.books {
      var j :| 0 <= j < |data.books| && data.books[j].0 == id;
      assert id in s.ids;
    }
  }

  /** The ids of the source library's tags or shelves map to stored ones. */
  ghost predicate NamesResolve<K(!new), V(!new)>(source: map<K, Named<K, V>>, s: NameStage<K, V>)
  {
    forall id :: IdTaken(source, id) ==> IdTaken(s.table, Resolve(s.ids, id))
  }

  lemma RestoredNamesResolve<K(!new), V(!new)>(table: map<K, Named<K, V>>, source: map<K, Named<K, V>>,
                               rows: seq<Named<K, V>>)
    requires NamesUnique(table) && ListsNames(rows, source) && RestoreNames(table, rows, |rows|).ok
    ensures NamesResolve(source, RestoreNames(table, rows, |rows|))
    ensures NamesUnique(RestoreNames(table, rows, |rows|).table)
    ensures forall id :: IdTaken(table, id) ==> IdTaken(RestoreNames(table, rows, |rows|).table, id)
  {
    hide RestoreNames, NamesUnique;
    var s := RestoreNames(table, rows, |rows|);
    NamesRestored(table, rows, |rows|);
    forall id | IdTaken(source, id) ensures IdTaken(s.table, Resolve(s.ids, id)) {
      var k :| k in source && source[k].id == id;
      var i :| 0 <= i < |rows| && rows[i].key == k;
      assert rows[i].id in s.ids;
    }
    forall id | IdTaken(table, id) ensures IdTaken(s.table, id) {
      var k :| k in table && table[k].id == id;
      assert k in s.table && s.table[k].id == id;
    }
  }

  lemma LinksResolve<K(!new), V(!new)>(src: Store, links: set<(Id, Id)>, rows: seq<(Id, Id)>,
                       source: map<K, Named<K, V>>, stored: set<(Id, Id)>,
                                       ids: IdMap, books: map<Id, FullBook>, s: NameStage<K, V>)
    requires EndsStored(links, src.books, source) && ListsLinks(rows, links)
    requires BooksResolve(src, ids, books) && NamesResolve(source, s)
    ensures LinksHold(stored, RemapLinks(rows, ids, s.ids), books, s.table)
    ensures forall link :: link in RemapLinks(rows, ids, s.ids) ==> link.0 in books && IdTaken(s.table, link.1)
  {
    hide IdTaken;
  }

  lemma IsbnsLoad(store: Store, src: Store, data: Backup, ids: IdMap, books: map<Id, FullBook>)
    requires HasBooks(src) && Lists(data.isbns, src.isbns) && BooksResolve(src, ids, books)
    ensures Load(store.isbns, RemapIsbns(data.isbns, ids), IsbnRefers(books)).Some?
  {
    hide Load, Resolve, SourceIdsUnique, ProvenanceRefers;
    LoadSucceeds(store.isbns, RemapIsbns(data.isbns, ids), IsbnRefers(books));
  }

  lemma SessionsLoad(store: Store, src: Store, data: Backup, ids: IdMap, books: map<Id, FullBook>)
    requires SessionsRefer(src.sessions, src.books) && Lists(data.sessions, src.sessions)
    requires BooksResolve(src, ids, books)
    ensures Load(store.sessions, RemapSessions(data.sessions, ids), SessionRefers(books)).Some?
    ensures forall id :: id in src.sessions ==>
      id in Load(store.sessions, RemapSessions(data.sessions, ids), SessionRefers(books)).value
  {
    hide Load, Resolve;
    LoadSucceeds(store.sessions, RemapSessions(data.sessions, ids), SessionRefers(books));
    var sessions := Load(store.sessions, RemapSessions(data.sessions, ids), SessionRefers(books)).value;
    LoadFacts(store.sessions, RemapSessions(data.sessions, ids), SessionRefers(books), sessions);
    forall id | id in src.sessions ensures id in sessions {
      var i :| 0 <= i < |data.sessions| && data.sessions[i].0 == id;
      assert RemapSessions(data.sessions, ids)[i].0 in sessions;
    }
  }

  lemma ProgressLoads(store: Store, src: Store, data: Backup, ids: IdMap, books: map<Id, FullBook>,
                      sessions: map<Id, Session>)
    requires ProgressRefer(src.progress, src.books, src.sessions) && Lists(data.progress, src.progress)
    requires BooksResolve(src, ids, books)
    requires forall id :: id in src.sessions ==> id in sessions
    ensures Load(store.progress, RemapProgress(data.progress, ids), EntryRefers(books, sessions)).Some?
  {
    hide Load, Resolve;
    LoadSucceeds(store.progress, RemapProgress(data.progress, ids), EntryRefers(books, sessions));
  }

  lemma FactsLoad(store: Store, src: Store, data: Backup, ids: IdMap, books: map<Id, FullBook>)
    requires ConsistentStore(src) && ExportOf(src, data) && BooksResolve(src, ids, books)
    ensures Load(store.isbns, RemapIsbns(data.isbns, ids), IsbnRefers(books)).Some?
    ensures Load(store.sessions, RemapSessions(data.sessions, ids), SessionRefers(books)).Some?
    ensures var sessions := Load(store.sessions, RemapSessions(data.sessions, ids), SessionRefers(books)).value;
      Load(store.progress, RemapProgress(data.progress, ids), EntryRefers(books, sessions)).Some?
  {
    hide Load, BooksResolve, Lists, ListsNames, ListsLinks, ListsCatalog, CatalogConsistent, Exportable, HasBooks;
    hide AllStars;
    hide NamesUnique, EndsStored, RemarksRefer, SettingIdsUnique, SessionsRefer, ProgressRefer, RemapIsbns;
    hide RemapSessions, RemapProgress;
    IsbnsLoad(store, src, data, ids, books);
    SessionsLoad(store, src, data, ids, books);
    var sessions := Load(store.sessions, RemapSessions(data.sessions, ids), SessionRefers(books)).value;
    ProgressLoads(store, src, data, ids, books, sessions);
  }

  lemma RemarksSucceed(table: map<Id, Remark>, src: map<Id, Remark>, srcBooks: map<Id, FullBook>, rows: Rows<Remark>,
                       entity: EntityType,
                       clocks: ClockTable, data: Backup, ids: IdMap, books: map<Id, FullBook>,
                       libraryBooks: map<Id, FullBook>)
    requires RemarksRefer(table, libraryBooks) && forall id :: id in libraryBooks ==> id in books
    requires Lists(rows, src) && RemarksRefer(src, srcBooks) && forall id :: id in srcBooks ==>
      Resolve(ids, id) in books
    ensures RestoreRemarks(table, rows, entity, clocks, data, ids, books, MergeInto, |rows|).ok
    ensures RemarksRefer(RestoreRemarks(table, rows, entity, clocks, data, ids, books, MergeInto, |rows|).table, books)
  {
    hide RestoreRemarks, Resolve;
    RemarksKeepReferences(table, rows, entity, clocks, data, ids, books, MergeInto, |rows|);
  }

  lemma FactsSucceed(store: Store, src: Store, data: Backup, p: Parents)
    requires ConsistentStore(src) && ExportOf(src, data)
    requires BooksResolve(src, p.books.ids, p.books.books) && NamesResolve(src.tags, p.tags)
    requires NamesResolve(src.shelves, p.shelves)
    ensures RestoreFacts(store, data, p).Some?
  {
    FactsLoad(store, src, data, p.books.ids, p.books.books);
    LinksResolve(src, src.bookTags, data.bookTags, src.tags, store.bookTags, p.books.ids, p.books.books, p.tags);
    LinksResolve(src, src.bookShelves, data.bookShelves, src.shelves, store.bookShelves, p.books.ids, p.books.books,
                 p.shelves);
    hide Load, LinksHold, RemapLinks, RemapIsbns, RemapSessions, RemapProgress, IsbnRefers, SessionRefers, EntryRefers;
    hide ConsistentStore, ExportOf, NamesResolve, BooksResolve, IdTaken;
  }

  lemma WrittenSucceeds(store: Store, src: Store, data: Backup, ids: IdMap, books: map<Id, FullBook>)
    requires RemarksRefer(store.notes, store.books) && RemarksRefer(store.reviews, store.books)
    requires RemarksRefer(src.notes, src.books) && RemarksRefer(src.reviews, src.books)
    requires Lists(data.notes, src.notes) && Lists(data.reviews, src.reviews)
    requires BooksResolve(src, ids, books) && forall id :: id in store.books ==> id in books
    ensures RestoreWritten(store, data, MergeInto, ids, books).Some?
  {
    hide RestoreClocks, RestoreRemarks, RestoreSettings, RemarksRefer, Lists;
    var clocks := RestoreClocks(store.clocks, data.clocks, ids, |data.clocks|);
    RemarksSucceed(store.notes, src.notes, src.books, data.notes, NoteEntity, clocks, data, ids, books, store.books);
    RemarksSucceed(store.reviews, src.reviews, src.books, data.reviews, ReviewEntity, clocks, data, ids, books,
                   store.books);
  }

  /** Once books, tags and shelves are in place, nothing else can fail. */
  lemma ChildrenSucceed(store: Store, src: Store, data: Backup, p: Parents)
    requires ConsistentStore(store) && ConsistentStore(src) && ExportOf(src, data)
    requires BooksResolve(src, p.books.ids, p.books.books) && NamesResolve(src.tags, p.tags)
    requires NamesResolve(src.shelves, p.shelves)
    requires forall id :: id in store.books ==> id in p.books.books
    ensures RestoreChildren(store, data, MergeInto, p).Some?
  {
    hide RestoreFacts, RestoreWritten, RestoreCatalog, NamesResolve, Lists, ListsNames, ListsLinks, ListsCatalog;
    hide CatalogConsistent, Exportable;
    hide NamesUnique, EndsStored, SessionsRefer, ProgressRefer, RemarksRefer, SettingIdsUnique, AllStars, HasBooks;
    FactsSucceed(store, src, data, p);
    WrittenSucceeds(store, src, data, p.books.ids, p.books.books);
    CatalogSucceeds(store.catalog, src.catalog, data.catalog, src.books.Keys, p.books.ids, p.books.books.Keys);
  }

  /** Merging a backup of a consistent library into a consistent library fails exactly when the id of a
      tag or shelf that would have to be inserted belongs to a differently named one. */
  lemma RestoreSucceedsExactly(store: Store, src: Store, data: Backup)
    requires ConsistentStore(store) && ConsistentStore(src) && ExportOf(src, data)
    ensures Restore(store, data, MergeInto).Some? <==>
      NoIdClash(store.tags, data.tags, |data.tags|) && NoIdClash(store.shelves, data.shelves, |data.shelves|)
  {
    hide RestoreBooks, RestoreNames, RestoreChildren, NoIdClash, NamesResolve, BooksResolve, Lists, ListsNames;
    hide ListsLinks;
    hide AllStars, NamesUnique, EndsStored, SessionsRefer, ProgressRefer, RemarksRefer, SettingIdsUnique;
    hide SourceIdsUnique, ProvenanceRefers, HasBooks;
    ExportListsBooks(src, data);
    RestoredBooksResolve(store, src, data);
    NamesSucceed(store.tags, src.tags, data.tags, |data.tags|);
    NamesSucceed(store.shelves, src.shelves, data.shelves, |data.shelves|);
    var p := RestoreParents(store, data, MergeInto);
    if p.tags.ok && p.shelves.ok {
      RestoredNamesResolve(store.tags, src.tags, data.tags);
      RestoredNamesResolve(store.shelves, src.shelves, data.shelves);
      ChildrenSucceed(store, src, data, p);
    }
  }

  function TaggedStore(key: TagKey, info: TagInfo): Store
  {
    EMPTY_STORE.(tags := map[key := Named(key, "t1", info)])
  }

  function TaggedBackup(key: TagKey, info: TagInfo): Backup
  {
    Backup([], [], [], [Named(key, "t1", info)], [], [], [], [], [], [], [], [], [], NO_CATALOG_ROWS)
  }

  lemma OneTagIsConsistent(key: TagKey, info: TagInfo)
    ensures ConsistentStore(TaggedStore(key, info))
  {
  }

  lemma OneTagIsListed(key: TagKey, info: TagInfo)
    ensures ListsNames([Named(key, "t1", info)], map[key := Named(key, "t1", info)])
  {
    assert [Named(key, "t1", info)][0].key == key;
  }

  lemma OneTagIsExported(key: TagKey, info: TagInfo)
    ensures ExportOf(TaggedStore(key, info), TaggedBackup(key, info))
  {
    hide ListsNames;
    OneTagIsListed(key, info);
    NothingIsListed<string, ShelfInfo>();
  }

  lemma NothingIsListed<K(!new), V(!new)>()
    ensures ListsNames<K, V>([], map[])
  {
  }

  /** The failure is real: a tag renamed since the backup was made blocks the restore of that backup. */
  lemma RenamedTagBlocksRestore()
    ensures var before, now := TagKey("sf", "general"), TagKey("science fiction", "general");
      var src, store :=
        TaggedStore(before, TagInfo("sf", "2024")), TaggedStore(now, TagInfo("science fiction", "2024"));
      var data := TaggedBackup(before, TagInfo("sf", "2024"));
      ConsistentStore(store) && ConsistentStore(src) && ExportOf(src, data) && Restore(store, data, MergeInto) == None
  {
    hide ConsistentStore, ExportOf, Restore, IdTaken;
    var before, now := TagKey("sf", "general"), TagKey("science fiction", "general");
    var src, store := TaggedStore(before, TagInfo("sf", "2024")), TaggedStore(now, TagInfo("science fiction", "2024"));
    var data := TaggedBackup(before, TagInfo("sf", "2024"));
    OneTagIsConsistent(before, TagInfo("sf", "2024"));
    OneTagIsConsistent(now, TagInfo("science fiction", "2024"));
    OneTagIsExported(before, TagInfo("sf", "2024"));
    assert |"sf"| != |"science fiction"|;
    assert before !in store.tags;
    StoredIsTaken(store.tags, now);
    assert data.tags[0].key == before && data.tags[0].id == store.tags[now].id;
    assert !NoIdClash(store.tags, data.tags, |data.tags|);
    RestoreSucceedsExactly(store, src, data);
  }

  // ---------------------------------------------------------------------------
  // Constraints are kept
  // ---------------------------------------------------------------------------

  lemma {:induction false} MergeKeepsStars(s: FieldStage, local: Id, id: Id, incoming: FullBook,
                                           rows: seq<((Id, Key), Provenance)>, n: nat)
    requires n <= |rows| && IsStars(Column(s.row, Rating)) && IsStars(Column(incoming, Rating))
    ensures IsStars(Column(MergeFields(s, local, id, incoming, rows, n).row, Rating))
  {
    hide Effective, Less, IsStars;
    if n > 0 {
      MergeKeepsStars(s, local, id, incoming, rows, n - 1);
    }
  }

  lemma RestoreBookKeepsStars(s: BookStage, isbns: map<string, Id>, data: Backup, id: Id, b: FullBook)
    requires AllStars(s.books) && IsStars(Column(b, Rating))
    ensures AllStars(RestoreBook(s, isbns, data, MergeInto, id, b).books)
  {
    hide FindExisting, MergeFields, CopyProvenance, Column, IsStars;
    var m := FindExisting(s.books, isbns, data.isbns, id, b);
    if m.Some? && m.value in s.books {
      MergeKeepsStars(FieldStage(s.books[m.value], s.provenance, true), m.value, id, b, data.provenance,
                      |data.provenance|);
    }
  }

  lemma {:induction false} BooksKeepStars(store: Store, src: Store, data: Backup, n: nat)
    requires n <= |data.books| && AllStars(store.books) && AllStars(src.books) && Lists(data.books, src.books)
    ensures AllStars(RestoreBooks(store, data, MergeInto, n).books)
  {
    hide RestoreBook, AllStars, Lists;
    if n > 0 {
      BooksKeepStars(store, src, data, n - 1);
      ListedRow(data.books, src.books, n - 1);
      ListedStars(src.books, data.books[n - 1].0);
      RestoreBookKeepsStars(RestoreBooks(store, data, MergeInto, n - 1), store.isbns, data, data.books[n - 1].0,
                            data.books[n - 1].1);
    }
  }

  lemma ListedStars(books: map<Id, FullBook>, id: Id)
    requires AllStars(books) && id in books
    ensures IsStars(Column(books[id], Rating))
  {
  }

  lemma EndsKept<K(!new), V(!new)>(stored: set<(Id, Id)>, links: set<(Id, Id)>, library: map<Id, FullBook>,
                   table: map<K, Named<K, V>>,
                                   books: map<Id, FullBook>, next: map<K, Named<K, V>>)
    requires EndsStored(stored, library, table) && LinksHold(stored, links, books, next)
    requires forall id :: id in library ==> id in books
    requires forall id :: IdTaken(table, id) ==> IdTaken(next, id)
    ensures EndsStored(stored + links, books, next)
  {
    hide IdTaken;
  }

  lemma FactsRefer(store: Store, data: Backup, p: Parents, r: Store)
    requires ParentsOf(p, r) && FactsOf(store, data, p, r) && HasBooks(store)
    requires SessionsRefer(store.sessions, store.books) && ProgressRefer(store.progress, store.books, store.sessions)
    requires forall id :: id in store.books ==> id in r.books
    ensures SessionsRefer(r.sessions, r.books) && ProgressRefer(r.progress, r.books, r.sessions)
    ensures forall isbn :: isbn in r.isbns ==> r.isbns[isbn] in r.books
  {
    hide Load, LinksHold, RestoreClocks, RestoreRemarks, RestoreSettings, RemapLinks, RemapIsbns, RemapSessions;
    hide RemapProgress;
    hide SourceIdsUnique, ProvenanceRefers;
    var ids, books := p.books.ids, p.books.books;
    LoadFacts(store.isbns, RemapIsbns(data.isbns, ids), IsbnRefers(books), r.isbns);
    LoadFacts(store.sessions, RemapSessions(data.sessions, ids), SessionRefers(books), r.sessions);
    LoadFacts(store.progress, RemapProgress(data.progress, ids), EntryRefers(books, r.sessions), r.progress);
  }

  lemma RemarksReferToo(store: Store, data: Backup, p: Parents, r: Store)
    requires ParentsOf(p, r) && WrittenOf(store, data, MergeInto, p, r) && RemarksRefer(store.notes, store.books)
    requires RemarksRefer(store.reviews, store.books)
    requires forall id :: id in store.books ==> id in r.books
    ensures RemarksRefer(r.notes, r.books) && RemarksRefer(r.reviews, r.books)
  {
    hide Load, LinksHold, RestoreClocks, RestoreRemarks, RestoreSettings, RemapLinks, RemapIsbns, RemapSessions;
    hide RemapProgress;
    RemarksKeepReferences(store.notes, data.notes, NoteEntity, r.clocks, data, p.books.ids, r.books, MergeInto,
                          |data.notes|);
    RemarksKeepReferences(store.reviews, data.reviews, ReviewEntity, r.clocks, data, p.books.ids, r.books, MergeInto,
                          |data.reviews|);
  }

  lemma ChildrenKeepEnds(store: Store, data: Backup, p: Parents, r: Store)
    requires ParentsOf(p, r) && FactsOf(store, data, p, r)
    requires EndsStored(store.bookTags, store.books, store.tags)
    requires EndsStored(store.bookShelves, store.books, store.shelves)
    requires forall id :: id in store.books ==> id in r.books
    requires forall id :: IdTaken(store.tags, id) ==> IdTaken(r.tags, id)
    requires forall id :: IdTaken(store.shelves, id) ==> IdTaken(r.shelves, id)
    ensures EndsStored(r.bookTags, r.books, r.tags) && EndsStored(r.bookShelves, r.books, r.shelves)
  {
    hide Load, LinksHold, RestoreClocks, RestoreRemarks, RestoreSettings, RemapLinks, RemapIsbns, RemapSessions;
    hide RemapProgress, IdTaken, EndsStored;
    EndsKept(store.bookTags, RemapLinks(data.bookTags, p.books.ids, p.tags.ids), store.books, store.tags, r.books,
             r.tags);
    EndsKept(store.bookShelves, RemapLinks(data.bookShelves, p.books.ids, p.shelves.ids), store.books, store.shelves,
             r.books, r.shelves);
  }

  /** A merge restore keeps every constraint: no tag, shelf, session, progress entry, note, review, ISBN
      or provenance row is left pointing at a missing row, and all unique keys stay unique. */
  lemma RestoreKeepsConsistency(store: Store, src: Store, data: Backup, r: Store)
    requires ConsistentStore(store) && ConsistentStore(src) && ExportOf(src, data)
    requires Restore(store, data, MergeInto) == Some(r)
    ensures ConsistentStore(r)
  {
    hide RestoreBooks, RestoreNames, RestoreChildren, NamesResolve, BooksResolve, Lists, ListsNames, ListsLinks;
    hide ListsCatalog, Exportable;
    hide AllStars, NamesUnique, EndsStored, SessionsRefer, ProgressRefer, RemarksRefer, SettingIdsUnique;
    hide SourceIdsUnique, ProvenanceRefers, IdTaken;
    hide FactsOf, WrittenOf, RestoreCatalog, CatalogConsistent;
    var p := RestoreParents(store, data, MergeInto);
    ChildrenUnfold(store, data, MergeInto, p, r);
    ExportListsBooks(src, data);
    RestoredBooksResolve(store, src, data);
    BooksKeepStars(store, src, data, |data.books|);
    RestoredNamesResolve(store.tags, src.tags, data.tags);
    RestoredNamesResolve(store.shelves, src.shelves, data.shelves);
    FactsRefer(store, data, p, r);
    RemarksReferToo(store, data, p, r);
    ChildrenKeepEnds(store, data, p, r);
    SettingsStayUnique(store, src, data, p, r);
    CatalogStaysConsistent(store.catalog, data.catalog, p.books.ids, store.books.Keys, r.books.Keys, r.catalog);
  }

  lemma SettingsStayUnique(store: Store, src: Store, data: Backup, p: Parents, r: Store)
    requires SettingIdsUnique(store.settings) && Lists(data.settings, src.settings)
    requires WrittenOf(store, data, MergeInto, p, r)
    ensures SettingIdsUnique(r.settings)
  {
    hide RestoreSettings, SettingIdsUnique, RestoreRemarks, RestoreClocks;
    SettingsSettle(store.settings, data.settings, |data.settings|);
  }

  // ---------------------------------------------------------------------------
  // What can be exported stays exportable
  // ---------------------------------------------------------------------------

  lemma {:induction false} MergeKeepsTypes(s: FieldStage, local: Id, id: Id, incoming: FullBook,
                                           rows: seq<((Id, Key), Provenance)>, n: nat)
    requires n <= |rows| && ExportableBook(s.row) && ExportableBook(incoming)
    ensures ExportableBook(MergeFields(s, local, id, incoming, rows, n).row)
  {
    hide Effective, Less, IsIntegerCell, IsStars;
    if n > 0 {
      MergeKeepsTypes(s, local, id, incoming, rows, n - 1);
    }
  }

  lemma RestoreBookKeepsTypes(s: BookStage, isbns: map<string, Id>, data: Backup, id: Id, b: FullBook)
    requires AllExportable(s.books) && ExportableBook(b)
    ensures AllExportable(RestoreBook(s, isbns, data, MergeInto, id, b).books)
  {
    hide FindExisting, MergeFields, CopyProvenance, ExportableBook, IsStars;
    var m := FindExisting(s.books, isbns, data.isbns, id, b);
    if m.Some? && m.value in s.books {
      MergeKeepsTypes(FieldStage(s.books[m.value], s.provenance, true), m.value, id, b, data.provenance,
                      |data.provenance|);
    }
  }

  lemma {:induction false} BooksKeepTypes(store: Store, src: Store, data: Backup, n: nat)
    requires n <= |data.books| && AllExportable(store.books) && AllExportable(src.books) && Lists(data.books, src.books)
    ensures AllExportable(RestoreBooks(store, data, MergeInto, n).books)
  {
    hide RestoreBook, ExportableBook, Lists;
    if n > 0 {
      BooksKeepTypes(store, src, data, n - 1);
      ListedRow(data.books, src.books, n - 1);
      RestoreBookKeepsTypes(RestoreBooks(store, data, MergeInto, n - 1), store.isbns, data, data.books[n - 1].0,
                            data.books[n - 1].1);
    }
  }

  /** A library that can be backed up can still be backed up after merging a backup into it. */
  lemma RestoreKeepsExportable(store: Store, src: Store, data: Backup, r: Store)
    requires Exportable(store) && ExportOf(src, data) && Restore(store, data, MergeInto) == Some(r)
    ensures Exportable(r)
  {
    hide RestoreBooks, RestoreNames, RestoreChildren, FactsOf, WrittenOf, RestoreCatalog, ExportableBook;
    hide Lists, ListsNames, ListsLinks, ListsCatalog;
    ChildrenUnfold(store, data, MergeInto, RestoreParents(store, data, MergeInto), r);
    BooksKeepTypes(store, src, data, |data.books|);
  }
}
