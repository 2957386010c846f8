/** What a merge restore leaves in the tables of ISBNs, sessions, progress, tags, shelves and their links, and in the
    catalog, row by row. */
module RestoredFacts {
  import opened Wrappers
  import opened Library
  import opened Snapshots
  import opened JoinedTables
  import opened Catalogs
  import opened Backups
  import opened RestoreTheorem

  // ---------------------------------------------------------------------------
  // Rows that name a book
  // ---------------------------------------------------------------------------

  function MoveIsbn(ids: IdMap): Id -> Id
  {
    (book: Id) => Resolve(ids, book)
  }

  function MoveSession(ids: IdMap): Session -> Session
  {
    (s: Session) => s.(bookId := Resolve(ids, s.bookId))
  }

  function MoveProgress(ids: IdMap): Progress -> Progress
  {
    (p: Progress) => p.(bookId := Resolve(ids, p.bookId))
  }

  function MoveFile(ids: IdMap): StoredFile -> StoredFile
  {
    (f: StoredFile) => f.(bookId := Resolve(ids, f.bookId))
  }

  lemma FactsJoin(store: Store, src: Store, data: Backup, p: Parents, r: Store)
    requires FactsOf(store, data, p, r)
    requires Lists(data.isbns, src.isbns) && Lists(data.sessions, src.sessions) && Lists(data.progress, src.progress)
    ensures Joined(store.isbns, src.isbns, MoveIsbn(p.books.ids), r.isbns)
    ensures Joined(store.sessions, src.sessions, MoveSession(p.books.ids), r.sessions)
    ensures Joined(store.progress, src.progress, MoveProgress(p.books.ids), r.progress)
  {
    hide Load, LinksHold, RemapLinks, Joined, Lists, Resolve, IsbnRefers, SessionRefers, EntryRefers;
    var books, ids := p.books.books, p.books.ids;
    LoadJoins(store.isbns, src.isbns, data.isbns, MoveIsbn(ids), RemapIsbns(data.isbns, ids), IsbnRefers(books),
              r.isbns);
    LoadJoins(store.sessions, src.sessions, data.sessions, MoveSession(ids), RemapSessions(data.sessions, ids),
              SessionRefers(books), r.sessions);
    LoadJoins(store.progress, src.progress, data.progress, MoveProgress(ids), RemapProgress(data.progress, ids),
              EntryRefers(books, r.sessions), r.progress);
  }

  // ---------------------------------------------------------------------------
  // Rows with a natural key, and their links
  // ---------------------------------------------------------------------------

  /** All rows of the table as they are, and those of the backup under other keys. */
  ghost predicate NamesJoined<K(!new), V(!new)>(table: map<K, Named<K, V>>, src: map<K, Named<K, V>>,
                                                r: map<K, Named<K, V>>)
  {
    && (forall k :: k in r <==> k in table || k in src)
    && (forall k :: k in table ==> r[k] == table[k])
    && (forall k :: k in src && k !in table ==> r[k] == src[k])
  }

  /** The row ids of the backup are mapped to the ids the names have now. */
  ghost predicate NamesFollow<K(!new), V(!new)>(src: map<K, Named<K, V>>, ids: IdMap, r: map<K, Named<K, V>>)
  {
    forall k :: k in src ==> k in r && src[k].id in ids && ids[src[k].id] == r[k].id
  }

  lemma NamesJoin<K(!new), V(!new)>(table: map<K, Named<K, V>>, src: map<K, Named<K, V>>, rows: seq<Named<K, V>>)
    requires NamesUnique(table) && ListsNames(rows, src) && RestoreNames(table, rows, |rows|).ok
    ensures NamesJoined(table, src, RestoreNames(table, rows, |rows|).table)
  {
    hide RestoreName, NamesMapped, NamesUnique, IdTaken;
    NamesRestored(table, rows, |rows|);
    var s := RestoreNames(table, rows, |rows|);
    NewEntries(table, rows, s, |rows|);
    assert NamesStored(table, rows, s.table, |rows|);
    hide RestoreNames, NamesKept;
    forall k | k in src && k !in table ensures k in s.table && s.table[k] == src[k] {
      var i :| 0 <= i < |rows| && rows[i] == src[k];
      assert rows[i].key in s.table;
      var j :| 0 <= j < |rows| && rows[j] == s.table[k];
      assert src[rows[j].key] == rows[j];
    }
    forall k | k in s.table && k !in table ensures k in src {
      var j :| 0 <= j < |rows| && rows[j] == s.table[k];
      assert rows[j].key in src;
    }
  }

  /** After the first `n` rows, each of their ids stands for the id its name has. */
  lemma {:induction false} NamesTracked<K(!new), V(!new)>(table: map<K, Named<K, V>>, src: map<K, Named<K, V>>,
                                                          rows: seq<Named<K, V>>, n: nat)
    requires n <= |rows| && ListsNames(rows, src) && NamesUnique(src) && RestoreNames(table, rows, n).ok
    ensures var s := RestoreNames(table, rows, n);
      forall i :: 0 <= i < n ==>
        rows[i].key in s.table && rows[i].id in s.ids && s.ids[rows[i].id] == s.table[rows[i].key].id
    decreases n
  {
    hide RestoreName;
    if n > 0 {
      var before := RestoreNames(table, rows, n - 1);
      NameStepIds(before, rows[n - 1]);
      NamesTracked(table, src, rows, n - 1);
      EarlierNames(src, rows, n - 1);
      hide NamesUnique, ListsNames;
    }
  }

  lemma NamesFollowed<K(!new), V(!new)>(table: map<K, Named<K, V>>, src: map<K, Named<K, V>>, rows: seq<Named<K, V>>)
    requires ListsNames(rows, src) && NamesUnique(src) && RestoreNames(table, rows, |rows|).ok
    ensures NamesFollow(src, RestoreNames(table, rows, |rows|).ids, RestoreNames(table, rows, |rows|).table)
  {
    hide RestoreName;
    NamesTracked(table, src, rows, |rows|);
    var s := RestoreNames(table, rows, |rows|);
    hide RestoreNames;
    forall k | k in src ensures k in s.table && src[k].id in s.ids && s.ids[src[k].id] == s.table[k].id {
      var i :| 0 <= i < |rows| && rows[i] == src[k];
      assert rows[i].key == k;
    }
  }

  /** The links of the library, and those of the backup between the rows it is restored into. */
  ghost predicate LinksJoined(links: set<(Id, Id)>, src: set<(Id, Id)>, books: IdMap, others: IdMap, r: set<(Id, Id)>)
  {
    forall link :: link in r <==>
      link in links || exists l :: l in src && link == (Resolve(books, l.0), Resolve(others, l.1))
  }

  lemma LinksJoin(links: set<(Id, Id)>, src: set<(Id, Id)>, rows: seq<(Id, Id)>, books: IdMap, others: IdMap)
    requires ListsLinks(rows, src)
    ensures LinksJoined(links, src, books, others, links + RemapLinks(rows, books, others))
  {
    hide Resolve;
    var r := links + RemapLinks(rows, books, others);
    forall link | link in RemapLinks(rows, books, others)
      ensures exists l :: l in src && link == (Resolve(books, l.0), Resolve(others, l.1))
    {
      var l :| l in rows && link == (Resolve(books, l.0), Resolve(others, l.1));
      assert l in src;
    }
  }

  // ---------------------------------------------------------------------------
  // The restored library
  // ---------------------------------------------------------------------------

  /** Facts of the library stay as they are, and those that only the backup has are added on the book that theirs was
      restored into. */
  lemma RestoredFactRows(store: Store, src: Store, data: Backup, r: Store)
    requires ExportOf(src, data) && Restore(store, data, MergeInto) == Some(r)
    ensures var ids := RestoreBooks(store, data, MergeInto, |data.books|).ids;
      && Joined(store.isbns, src.isbns, MoveIsbn(ids), r.isbns)
      && Joined(store.sessions, src.sessions, MoveSession(ids), r.sessions)
      && Joined(store.progress, src.progress, MoveProgress(ids), r.progress)
  {
    hide RestoreBooks, RestoreNames, RestoreChildren, FactsOf, WrittenOf, Joined, RestoreCatalog, Lists, ListsNames;
    hide ListsLinks;
    var p := RestoreParents(store, data, MergeInto);
    ChildrenUnfold(store, data, MergeInto, p, r);
    FactsJoin(store, src, data, p, r);
  }

  /** Tags and shelves of the library stay, new ones are added, and the links of the backup lead from the book that
      theirs was restored into to the tag or shelf that now has the name. */
  lemma RestoredNameRows(store: Store, src: Store, data: Backup, r: Store)
    requires NamesUnique(store.tags) && NamesUnique(store.shelves) && NamesUnique(src.tags) && NamesUnique(src.shelves)
    requires ExportOf(src, data) && Restore(store, data, MergeInto) == Some(r)
    ensures NamesJoined(store.tags, src.tags, r.tags) && NamesJoined(store.shelves, src.shelves, r.shelves)
    ensures var ids := RestoreBooks(store, data, MergeInto, |data.books|).ids;
      exists tags: IdMap, shelves: IdMap ::
        && NamesFollow(src.tags, tags, r.tags) && NamesFollow(src.shelves, shelves, r.shelves)
        && LinksJoined(store.bookTags, src.bookTags, ids, tags, r.bookTags)
        && LinksJoined(store.bookShelves, src.bookShelves, ids, shelves, r.bookShelves)
  {
    hide RestoreBooks, RestoreNames, RestoreChildren, WrittenOf, RestoreCatalog, Lists, ListsNames, Load, LinksHold;
    hide ListsLinks, NamesJoined, NamesFollow, LinksJoined, NamesUnique, RemapLinks;
    var p := RestoreParents(store, data, MergeInto);
    ChildrenUnfold(store, data, MergeInto, p, r);
    NamesJoin(store.tags, src.tags, data.tags);
    NamesJoin(store.shelves, src.shelves, data.shelves);
    NamesFollowed(store.tags, src.tags, data.tags);
    NamesFollowed(store.shelves, src.shelves, data.shelves);
    LinksJoin(store.bookTags, src.bookTags, data.bookTags, p.books.ids, p.tags.ids);
    LinksJoin(store.bookShelves, src.bookShelves, data.bookShelves, p.books.ids, p.shelves.ids);
  }

  /** So with authors, works, series, files and import logs. */
  lemma RestoredCatalogRows(c: Catalog, src: Catalog, d: CatalogRows, ids: IdMap, books: set<Id>, r: Catalog)
    requires ListsCatalog(d, src) && RestoreCatalog(c, d, ids, books) == Some(r)
    ensures Joined(c.authors, src.authors, Same(), r.authors) && Joined(c.works, src.works, Same(), r.works)
    ensures Joined(c.series, src.series, Same(), r.series)
    ensures Joined(c.importLogs, src.importLogs, Same(), r.importLogs)
    ensures Joined(c.files, src.files, MoveFile(ids), r.files)
  {
    CatalogUnfold(c, d, ids, books, r);
    hide RestoreCatalog, Load, Joined, Lists, Resolve, CreditRefers, VolumeRefers, FileRefers, ImportRefers;
    hide RemapCredits, RemapVolumes, RemapImports;
    LoadJoinsSame(c.authors, src.authors, d.authors, Free(), r.authors);
    LoadJoinsSame(c.works, src.works, d.works, Free(), r.works);
    LoadJoinsSame(c.series, src.series, d.series, Free(), r.series);
    LoadJoinsSame(c.importLogs, src.importLogs, d.importLogs, Free(), r.importLogs);
    LoadJoins(c.files, src.files, d.files, MoveFile(ids), RemapFiles(d.files, ids), FileRefers(books), r.files);
  }
}
