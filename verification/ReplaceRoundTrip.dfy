/** Replacing any library by a backup gives back exactly the library the backup was exported from. */
module ReplaceRoundTrip {
  import opened Wrappers
  import opened Text
  import opened Library
  import opened Snapshots
  import opened Catalogs
  import opened Backups
  import opened RestoredBooks
  import opened RestoreTheorem

  /** `part` agrees with `table` on its keys. */
  ghost predicate PartOf<K(!new), V(!new)>(part: map<K, V>, table: map<K, V>)
  {
    forall k :: k in part ==> k in table && part[k] == table[k]
  }

  lemma WholeTable<K(!new), V(!new)>(part: map<K, V>, rows: seq<(K, V)>, table: map<K, V>)
    requires Lists(rows, table) && HoldsFirst(part, rows, |rows|) && PartOf(part, table)
    ensures part == table
  {
    AllRows(part, rows, table);
  }

  lemma NextRow<K(!new), V(!new)>(part: map<K, V>, rows: seq<(K, V)>, table: map<K, V>, n: nat)
    requires Lists(rows, table) && n < |rows| && HoldsFirst(part, rows, n) && PartOf(part, table)
    ensures rows[n].0 !in part && rows[n].0 in table && table[rows[n].0] == rows[n].1
    ensures HoldsFirst(part[rows[n].0 := rows[n].1], rows, n + 1) && PartOf(part[rows[n].0 := rows[n].1], table)
  {
    OneMoreRow(part, rows, table, n, rows[n].1);
  }

  // ---------------------------------------------------------------------------
  // Books
  // ---------------------------------------------------------------------------

  /** The provenance rows of the books inserted so far. */
  ghost predicate ProvenanceSoFar(src: Store, books: map<Id, FullBook>, provenance: ProvenanceTable)
  {
    && (forall key :: key in provenance <==> key in src.provenance && key.0 in books)
    && PartOf(provenance, src.provenance)
  }

  ghost predicate Replaced(src: Store, data: Backup, s: BookStage, n: nat)
    requires n <= |data.books|
  {
    && s.ok && Identity(s.ids)
    && HoldsFirst(s.books, data.books, n) && PartOf(s.books, src.books)
    && ProvenanceSoFar(src, s.books, s.provenance)
  }

  lemma ListedAreInsertable(books: map<Id, FullBook>, table: map<Id, FullBook>, id: Id)
    requires PartOf(books, table) && SourceIdsUnique(table) && AllStars(table) && id in table && id !in books
    ensures Insertable(books, id, table[id])
  {
  }

  /** The copied rows are exactly the book's own. */
  lemma CopiesOwnRows(src: Store, rows: seq<((Id, Key), Provenance)>, provenance: ProvenanceTable, id: Id,
                      key: (Id, Key))
    requires Lists(rows, src.provenance) && PartOf(provenance, src.provenance)
    requires forall k :: k in provenance ==> k.0 != id
    ensures var r := CopyProvenance(provenance, id, rows, |rows|);
      && (key in r <==> key in provenance || (key in src.provenance && key.0 == id))
      && (key in r ==> r[key] == src.provenance[key])
  {
    hide CopyProvenance;
    CopyRises(provenance, id, rows, |rows|);
    if key in src.provenance && key.0 == id {
      var i :| 0 <= i < |rows| && rows[i].0 == key;
      assert rows[i].0 in CopyProvenance(provenance, id, rows, |rows|);
    }
  }

  lemma CopyNext(src: Store, data: Backup, s: BookStage, id: Id, b: FullBook)
    requires Lists(data.provenance, src.provenance) && ProvenanceSoFar(src, s.books, s.provenance) && id !in s.books
    ensures ProvenanceSoFar(src, s.books[id := b], CopyProvenance(s.provenance, id, data.provenance, |data.provenance|))
  {
    hide CopyProvenance, Lists;
    var r, books := CopyProvenance(s.provenance, id, data.provenance, |data.provenance|), s.books[id := b];
    forall key
      ensures key in r <==> key in src.provenance && key.0 in books
      ensures key in r ==> r[key] == src.provenance[key]
    {
      CopiesOwnRows(src, data.provenance, s.provenance, id, key);
    }
  }

  lemma {:induction false} BooksReplaced(src: Store, data: Backup, n: nat)
    requires ListsBooks(src, data) && n <= |data.books|
    ensures Replaced(src, data, RestoreBooks(EMPTY_STORE, data, Replace, n), n)
  {
    hide HoldsFirst, PartOf, Insertable, SourceIdsUnique, AllStars, CopyProvenance, ProvenanceSoFar, Lists;
    if n == 0 {
      NothingReplaced(src, data);
    } else {
      var s, id, b := RestoreBooks(EMPTY_STORE, data, Replace, n - 1), data.books[n - 1].0, data.books[n - 1].1;
      BooksReplaced(src, data, n - 1);
      NextRow(s.books, data.books, src.books, n - 1);
      ListedAreInsertable(s.books, src.books, id);
      CopyNext(src, data, s, id, b);
    }
  }

  lemma NothingReplaced(src: Store, data: Backup)
    ensures Replaced(src, data, BookStage(map[], map[], map[], true), 0)
  {
  }

  lemma AllBooksReplaced(src: Store, data: Backup)
    requires ListsBooks(src, data) && HasBooks(src)
    ensures var s := RestoreBooks(EMPTY_STORE, data, Replace, |data.books|);
      s.ok && Identity(s.ids) && s.books == src.books && s.provenance == src.provenance
  {
    hide RestoreBook, SourceIdsUnique, AllStars;
    BooksReplaced(src, data, |data.books|);
    var s := RestoreBooks(EMPTY_STORE, data, Replace, |data.books|);
    WholeTable(s.books, data.books, src.books);
    assert s.provenance.Keys == src.provenance.Keys;
  }

  // ---------------------------------------------------------------------------
  // Tags and shelves
  // ---------------------------------------------------------------------------

  ghost predicate NamesReplaced<K(!new), V(!new)>(source: map<K, Named<K, V>>, rows: seq<Named<K, V>>,
                                  s: NameStage<K, V>, n: nat)
    requires n <= |rows|
  {
    && s.ok && Identity(s.ids) && PartOf(s.table, source)
    && (forall k :: k in s.table <==> exists i :: 0 <= i < n && rows[i].key == k)
  }

  lemma NextNameReplaced<K(!new), V(!new)>(source: map<K, Named<K, V>>, rows: seq<Named<K, V>>, s: NameStage<K, V>,
                           n: nat)
    requires n < |rows| && ListsNames(rows, source) && NamesUnique(source) && NamesReplaced(source, rows, s, n)
    ensures NamesReplaced(source, rows, RestoreName(s, rows[n]), n + 1)
  {
    assert rows[n].key !in s.table;
    assert !IdTaken(s.table, rows[n].id);
    var r := RestoreName(s, rows[n]);
    forall k ensures k in r.table <==> exists i :: 0 <= i < n + 1 && rows[i].key == k {
      if k in s.table {
        var i :| 0 <= i < n && rows[i].key == k;
        assert 0 <= i < n + 1;
      }
    }
  }

  lemma {:induction false} AllNamesReplaced<K(!new), V(!new)>(source: map<K, Named<K, V>>, rows: seq<Named<K, V>>,
                                              n: nat)
    requires n <= |rows| && ListsNames(rows, source) && NamesUnique(source)
    ensures NamesReplaced(source, rows, RestoreNames(map[], rows, n), n)
  {
    hide RestoreName, ListsNames, NamesUnique;
    if n > 0 {
      AllNamesReplaced(source, rows, n - 1);
      NextNameReplaced(source, rows, RestoreNames(map[], rows, n - 1), n - 1);
    }
  }

  lemma NamesAreReplaced<K(!new), V(!new)>(source: map<K, Named<K, V>>, rows: seq<Named<K, V>>)
    requires ListsNames(rows, source) && NamesUnique(source)
    ensures var s := RestoreNames(map[], rows, |rows|); s.ok && Identity(s.ids) && s.table == source
  {
    hide RestoreNames, NamesUnique;
    AllNamesReplaced(source, rows, |rows|);
    var s := RestoreNames(map[], rows, |rows|);
    assert s.table.Keys == source.Keys;
  }

  // ---------------------------------------------------------------------------
  // The other tables
  // ---------------------------------------------------------------------------

  lemma LinksReplaced<K(!new), V(!new)>(links: set<(Id, Id)>, rows: seq<(Id, Id)>, books: IdMap, others: IdMap,
                                        library: map<Id, FullBook>, table: map<K, Named<K, V>>)
    requires Identity(books) && Identity(others) && ListsLinks(rows, links) && EndsStored(links, library, table)
    ensures RemapLinks(rows, books, others) == links && LinksHold({}, RemapLinks(rows, books, others), library, table)
  {
    hide IdTaken;
    var r := RemapLinks(rows, books, others);
    forall link ensures link in r <==> link in links {
      if link in links {
        assert link in rows && (Resolve(books, link.0), Resolve(others, link.1)) == link;
      }
    }
  }

  lemma RemapsReplaced(data: Backup, ids: IdMap)
    requires Identity(ids)
    ensures RemapIsbns(data.isbns, ids) == data.isbns
    ensures RemapSessions(data.sessions, ids) == data.sessions
    ensures RemapProgress(data.progress, ids) == data.progress
  {
    assert forall id :: Resolve(ids, id) == id;
    assert forall i :: 0 <= i < |data.sessions| ==> RemapSessions(data.sessions, ids)[i] == data.sessions[i];
    assert forall i :: 0 <= i < |data.progress| ==> RemapProgress(data.progress, ids)[i] == data.progress[i];
  }

  lemma {:induction false} ClocksReplaced(table: ClockTable, rows: seq<(ClockKey, FieldClock)>, ids: IdMap, n: nat)
    requires Lists(rows, table) && Identity(ids) && n <= |rows|
    ensures HoldsFirst(RestoreClocks(map[], rows, ids, n), rows, n) && PartOf(RestoreClocks(map[], rows, ids, n), table)
  {
    hide HoldsFirst, PartOf, Lists, Less;
    if n == 0 {
      EmptyPart(rows, table);
    } else {
      ClocksReplaced(table, rows, ids, n - 1);
      NextRow(RestoreClocks(map[], rows, ids, n - 1), rows, table, n - 1);
      assert RemapClock(rows[n - 1].0, ids) == rows[n - 1].0;
    }
  }

  lemma EmptyPart<K(!new), V(!new)>(rows: seq<(K, V)>, table: map<K, V>)
    ensures var none: map<K, V> := map[]; HoldsFirst(none, rows, 0) && PartOf(none, table)
  {
  }

  lemma {:induction false} RemarksReplaced(table: map<Id, Remark>, rows: Rows<Remark>, entity: EntityType,
                                           clocks: ClockTable, data: Backup,
                                           ids: IdMap, books: map<Id, FullBook>, n: nat)
    requires Lists(rows, table) && Identity(ids) && RemarksRefer(table, books) && n <= |rows|
    ensures var s := RestoreRemarks(map[], rows, entity, clocks, data, ids, books, Replace, n);
      s.ok && HoldsFirst(s.table, rows, n) && PartOf(s.table, table)
  {
    hide HoldsFirst, PartOf, Lists, Overwrites, BackupClock;
    if n == 0 {
      EmptyPart(rows, table);
    } else {
      RemarksReplaced(table, rows, entity, clocks, data, ids, books, n - 1);
      NextRow(RestoreRemarks(map[], rows, entity, clocks, data, ids, books, Replace, n - 1).table, rows, table, n - 1);
      var row := rows[n - 1].1;
      assert row.(bookId := Resolve(ids, row.bookId)) == row;
    }
  }

  lemma {:induction false} SettingsReplaced(table: map<string, SettingRow>, rows: seq<(string, SettingRow)>, n: nat)
    requires Lists(rows, table) && SettingIdsUnique(table) && n <= |rows|
    ensures HoldsFirst(RestoreSettings(map[], rows, Replace, n), rows, n)
    ensures PartOf(RestoreSettings(map[], rows, Replace, n), table)
  {
    hide HoldsFirst, Lists;
    if n == 0 {
      EmptyPart(rows, table);
    } else {
      var before := RestoreSettings(map[], rows, Replace, n - 1);
      SettingsReplaced(table, rows, n - 1);
      NextRow(before, rows, table, n - 1);
      assert !SettingIdTaken(before, rows[n - 1].1.id);
    }
  }

  // ---------------------------------------------------------------------------
  // The round trip
  // ---------------------------------------------------------------------------

  lemma FactsReplaced(src: Store, data: Backup, p: Parents)
    requires ConsistentStore(src) && ExportOf(src, data) && ParentsOf(p, src)
    requires Identity(p.books.ids) && Identity(p.tags.ids) && Identity(p.shelves.ids)
    ensures FactsOf(EMPTY_STORE, data, p, src)
  {
    hide Load, RemapLinks, RemapIsbns, RemapSessions, RemapProgress, LinksHold, EndsStored, CatalogConsistent;
    hide ListsCatalog, Exportable;
    hide NamesUnique, AllStars, SourceIdsUnique, ProvenanceRefers, Identity, SettingIdsUnique, RemarksRefer, Lists;
    hide ListsNames, ListsLinks;
    RemapsReplaced(data, p.books.ids);
    ListedRowsLoad(src.isbns, data.isbns, IsbnRefers(src.books));
    ListedRowsLoad(src.sessions, data.sessions, SessionRefers(src.books));
    ListedRowsLoad(src.progress, data.progress, EntryRefers(src.books, src.sessions));
    LinksReplaced(src.bookTags, data.bookTags, p.books.ids, p.tags.ids, src.books, src.tags);
    LinksReplaced(src.bookShelves, data.bookShelves, p.books.ids, p.shelves.ids, src.books, src.shelves);
  }

  lemma AllClocksReplaced(src: Store, data: Backup, ids: IdMap)
    requires Lists(data.clocks, src.clocks) && Identity(ids)
    ensures RestoreClocks(map[], data.clocks, ids, |data.clocks|) == src.clocks
  {
    hide RestoreClocks, Identity, Lists;
    ClocksReplaced(src.clocks, data.clocks, ids, |data.clocks|);
    WholeTable(RestoreClocks(map[], data.clocks, ids, |data.clocks|), data.clocks, src.clocks);
  }

  lemma AllRemarksReplaced(table: map<Id, Remark>, rows: Rows<Remark>, entity: EntityType, clocks: ClockTable,
                           data: Backup,
                           ids: IdMap, books: map<Id, FullBook>)
    requires Lists(rows, table) && Identity(ids) && RemarksRefer(table, books)
    ensures RestoreRemarks(map[], rows, entity, clocks, data, ids, books, Replace, |rows|) == RemarkStage(table, true)
  {
    hide RestoreRemarks, Identity, Lists, RemarksRefer;
    RemarksReplaced(table, rows, entity, clocks, data, ids, books, |rows|);
    WholeTable(RestoreRemarks(map[], rows, entity, clocks, data, ids, books, Replace, |rows|).table, rows, table);
  }

  lemma WrittenReplaced(src: Store, data: Backup, p: Parents)
    requires ParentsOf(p, src) && Identity(p.books.ids) && SettingIdsUnique(src.settings)
    requires RemarksRefer(src.notes, src.books) && RemarksRefer(src.reviews, src.books)
    requires Lists(data.clocks, src.clocks) && Lists(data.notes, src.notes) && Lists(data.reviews, src.reviews)
    requires Lists(data.settings, src.settings)
    ensures WrittenOf(EMPTY_STORE, data, Replace, p, src)
  {
    hide RestoreClocks, RestoreRemarks, RestoreSettings, Identity, SettingIdsUnique, Lists, RemarksRefer;
    AllClocksReplaced(src, data, p.books.ids);
    AllRemarksReplaced(src.notes, data.notes, NoteEntity, src.clocks, data, p.books.ids, src.books);
    AllRemarksReplaced(src.reviews, data.reviews, ReviewEntity, src.clocks, data, p.books.ids, src.books);
    SettingsReplaced(src.settings, data.settings, |data.settings|);
    WholeTable(RestoreSettings(map[], data.settings, Replace, |data.settings|), data.settings, src.settings);
  }

  lemma ChildrenReplaced(src: Store, data: Backup, p: Parents)
    requires ConsistentStore(src) && ExportOf(src, data) && ParentsOf(p, src)
    requires Identity(p.books.ids) && Identity(p.tags.ids) && Identity(p.shelves.ids)
    ensures ChildrenOf(EMPTY_STORE, data, Replace, p, src)
  {
    hide FactsOf, WrittenOf, RestoreCatalog, CatalogConsistent, ListsCatalog, Exportable, Identity, Lists, ListsNames;
    hide ListsLinks;
    hide NamesUnique, AllStars, HasBooks, SettingIdsUnique, RemarksRefer, EndsStored, SessionsRefer, ProgressRefer;
    FactsReplaced(src, data, p);
    WrittenReplaced(src, data, p);
    CatalogReplaced(src.catalog, data.catalog, p.books.ids, src.books.Keys);
  }

  /** Export, then replace: whatever the target held before, it now is the exported library, down to
      provenance, clocks and tombstones. */
  lemma ReplaceIsLossless(src: Store, data: Backup, target: Store)
    requires ConsistentStore(src) && ExportOf(src, data)
    ensures Restore(target, data, Replace) == Some(src)
  {
    hide RestoreBooks, RestoreNames, RestoreChildren, Identity, ChildrenOf;
    hide NamesUnique, AllStars, SourceIdsUnique, ProvenanceRefers, EndsStored, SessionsRefer, ProgressRefer;
    hide RemarksRefer, SettingIdsUnique;
    hide Lists, ListsNames, ListsLinks, ListsCatalog, CatalogConsistent, Exportable;
    ExportListsBooks(src, data);
    AllBooksReplaced(src, data);
    NamesAreReplaced(src.tags, data.tags);
    NamesAreReplaced(src.shelves, data.shelves);
    var p := RestoreParents(EMPTY_STORE, data, Replace);
    ChildrenReplaced(src, data, p);
    ChildrenUnfold(EMPTY_STORE, data, Replace, p, src);
  }
}
