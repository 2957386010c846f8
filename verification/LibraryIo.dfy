/** Export and restore of the whole library, on its tables. */
module LibraryIos {
  import opened Wrappers
  import opened Text
  import opened Library
  import opened MergeRules
  import opened Snapshots
  import opened Catalogs
  import opened Backups
  import opened RestoredBooks
  import opened RestoreTheorem

  class LibraryIo {
    var books: map<Id, FullBook>
    var provenance: map<(Id, Key), Provenance>
    var isbns: map<string, Id>
    var tags: map<TagKey, Named<TagKey, TagInfo>>
    var shelves: map<string, Named<string, ShelfInfo>>
    var bookTags: set<(Id, Id)>
    var bookShelves: set<(Id, Id)>
    var sessions: map<Id, Session>
    var progress: map<Id, Progress>
    var clocks: map<ClockKey, FieldClock>
    var notes: map<Id, Remark>
    var reviews: map<Id, Remark>
    var settings: map<string, SettingRow>
    var catalog: Catalog

    constructor ()
      ensures Valid() && State() == EMPTY_STORE
    {
      books, provenance, isbns, tags, shelves := map[], map[], map[], map[], map[];
      bookTags, bookShelves, sessions, progress, clocks := {}, {}, map[], map[], map[];
      notes, reviews, settings, catalog := map[], map[], map[], EMPTY_CATALOG;
    }

    function State(): Store
      reads this
    {
      Store(books, provenance, isbns, tags, shelves, bookTags, bookShelves, sessions, progress, clocks, notes, reviews,
            settings, catalog)
    }

    /** The unique indexes that make a lookup by source id unambiguous. */
    ghost predicate Valid()
      reads this
    {
      SourceIdsUnique(books)
    }

    /** `export_library`: one query per table. It fails on a book whose integer columns hold anything but
        64-bit integers. */
    method ExportLibrary() returns (data: Option<Backup>)
      requires NamesUnique(tags) && NamesUnique(shelves)
      ensures data.Some? <==> Exportable(State())
      ensures data.Some? ==> ExportOf(State(), data.value)
    {
      hide NamesUnique, Lists, ListsNames, ListsLinks, ListsCatalog, Exportable;
      var bookRows := ExportBooks();
      if bookRows.None? {
        return None;
      }
      var provenanceRows := SnapshotRepository.ExportTable(provenance);
      var isbnRows := SnapshotRepository.ExportTable(isbns);
      var tagRows := ExportNames(tags);
      var shelfRows := ExportNames(shelves);
      var tagLinks := SnapshotRepository.ExportLinks(bookTags);
      var shelfLinks := SnapshotRepository.ExportLinks(bookShelves);
      var sessionRows := SnapshotRepository.ExportTable(sessions);
      var progressRows := SnapshotRepository.ExportTable(progress);
      var clockRows := SnapshotRepository.ExportTable(clocks);
      var noteRows := SnapshotRepository.ExportTable(notes);
      var reviewRows := SnapshotRepository.ExportTable(reviews);
      var settingRows := SnapshotRepository.ExportTable(settings);
      var catalogRows := ExportCatalog(catalog);
      data :=
        Some(Backup(bookRows.value, provenanceRows, isbnRows, tagRows, shelfRows, tagLinks, shelfLinks, sessionRows,
                          progressRows, clockRows, noteRows, reviewRows, settingRows, catalogRows));
    }

    /** The book query, whose reader expects an integer or nothing in each integer column. */
    method ExportBooks() returns (rows: Option<Rows<FullBook>>)
      ensures rows.Some? <==> Exportable(State())
      ensures rows.Some? ==> Lists(rows.value, books)
    {
      hide ExportableBook;
      var list := SnapshotRepository.ExportTable(books);
      for i := 0 to |list|
        invariant forall j :: 0 <= j < i ==> ExportableBook(list[j].1)
      {
        if !ExportableBook(list[i].1) {
          return None;
        }
      }
      forall id | id in books ensures ExportableBook(books[id]) {
        var i :| 0 <= i < |list| && list[i].0 == id;
        assert list[i].1 == books[id];
      }
      rows := Some(list);
    }

    static method ExportCatalog(c: Catalog) returns (rows: CatalogRows)
      ensures ListsCatalog(rows, c)
    {
      hide Lists;
      var authors := SnapshotRepository.ExportTable(c.authors);
      var works := SnapshotRepository.ExportTable(c.works);
      var series := SnapshotRepository.ExportTable(c.series);
      var credits := SnapshotRepository.ExportTable(c.credits);
      var volumes := SnapshotRepository.ExportTable(c.volumes);
      var files := SnapshotRepository.ExportTable(c.files);
      var logs := SnapshotRepository.ExportTable(c.importLogs);
      var imports := SnapshotRepository.ExportTable(c.imports);
      rows := CatalogRows(authors, works, series, credits, volumes, files, logs, imports);
    }

    static method ExportNames<K(==, !new), V(!new)>(table: map<K, Named<K, V>>) returns (rows: seq<Named<K, V>>)
      requires NamesUnique(table)
      ensures ListsNames(rows, table)
    {
      var pairs := SnapshotRepository.ExportTable(table);
      rows := seq(|pairs|, i requires 0 <= i < |pairs| => pairs[i].1);
      forall k | k in table ensures exists i :: 0 <= i < |rows| && rows[i].key == k {
        var i :| 0 <= i < |pairs| && pairs[i].0 == k;
        assert rows[i].key == k;
      }
    }

    // -------------------------------------------------------------------------
    // Books
    // -------------------------------------------------------------------------

    /** `find_existing_book`. */
    method FindExistingBook(rows: Rows<Id>, id: Id, b: FullBook) returns (m: Option<Id>)
      requires Valid()
      ensures m == FindExisting(books, isbns, rows, id, b)
    {
      if id in books {
        return Some(id);
      }
      if b.goodreads.Some? && exists k :: k in books && books[k].goodreads == b.goodreads {
        var k :| k in books && books[k].goodreads == b.goodreads;
        HolderIs(books, k);
        return Some(k);
      }
      if b.calibre.Some? && exists k :: k in books && books[k].calibre == b.calibre {
        var k :| k in books && books[k].calibre == b.calibre;
        HolderIs(books, k);
        return Some(k);
      }
      if b.goodreads.Some? {
        HolderHolds(books, b.goodreads.value, 0);
      }
      if b.calibre.Some? {
        HolderHolds(books, "", b.calibre.value);
      }
      var i := 0;
      while i < |rows|
        invariant 0 <= i <= |rows|
        invariant IsbnHolder(isbns, rows, id, 0) == IsbnHolder(isbns, rows, id, i)
      {
        if rows[i].1 == id && rows[i].0 in isbns {
          return Some(isbns[rows[i].0]);
        }
        i := i + 1;
      }
      m := None;
    }

    /** `merge_book_fields`: last write wins for each provenance row of the incoming book. */
    method MergeBookFields(local: Id, id: Id, incoming: FullBook, rows: seq<((Id, Key), Provenance)>) returns (ok: bool)
      requires local in books
      modifies `books, `provenance
      ensures var r :=
        MergeFields(FieldStage(old(books[local]), old(provenance), true), local, id, incoming, rows, |rows|);
        ok == r.ok && (ok ==> books == old(books)[local := r.row] && provenance == r.provenance)
    {
      hide MergeField;
      ghost var start := FieldStage(books[local], provenance, true);
      for i := 0 to |rows|
        invariant local in books && books == old(books)[local := books[local]]
        invariant MergeFields(start, local, id, incoming, rows, i) == FieldStage(books[local], provenance, true)
      {
        if rows[i].0.0 == id {
          ok := MergeOneField(local, rows[i].0.1, incoming, rows[i].1);
          if !ok {
            FailedFieldsStay(start, local, id, incoming, rows, i + 1, |rows|);
            return;
          }
        }
      }
      ok := true;
    }

    method MergeOneField(local: Id, k: Key, incoming: FullBook, p: Provenance) returns (ok: bool)
      requires local in books
      modifies `books, `provenance
      ensures var r := MergeField(FieldStage(old(books[local]), old(provenance), true), local, k, incoming, p);
        ok == r.ok && (ok ==> books == old(books)[local := r.row] && provenance == r.provenance)
    {
      hide Less, IsStars, ApplyField;
      if (local, k) in provenance && !Less(Effective(provenance[(local, k)]), Effective(p)) {
        assert books[local := books[local]] == books;
        return true;
      }
      if k == Rating && !IsStars(Column(incoming, k)) {
        return false;
      }
      books := books[local := ApplyField(books[local], k, incoming)];
      provenance := provenance[(local, k) := p.(syncHlc := Some(Effective(p)))];
      ok := true;
    }

    /** `insert_book` and its provenance, copied as it is. */
    method InsertBookRow(id: Id, b: FullBook, rows: seq<((Id, Key), Provenance)>) returns (ok: bool)
      modifies `books, `provenance
      ensures ok == Insertable(old(books), id, b)
      ensures ok ==> books == old(books)[id := b] && provenance == CopyProvenance(old(provenance), id, rows, |rows|)
    {
      ok := Insertable(books, id, b);
      if !ok {
        return;
      }
      books := books[id := b];
      for i := 0 to |rows|
        invariant provenance == CopyProvenance(old(provenance), id, rows, i)
        invariant books == old(books)[id := b]
      {
        if rows[i].0.0 == id {
          provenance := provenance[rows[i].0 := rows[i].1];
        }
      }
    }

    /** One incoming book: insert it with its provenance, or merge it into its counterpart. */
    method RestoreOneBook(data: Backup, mode: RestoreMode, id: Id, b: FullBook, ids: IdMap)
      returns (next: IdMap, ok: bool)
      requires Valid()
      modifies `books, `provenance
      ensures ok ==> Valid()
      ensures var r := RestoreBook(BookStage(old(books), old(provenance), ids, true), isbns, data, mode, id, b);
        ok == r.ok && (ok ==> BookStage(books, provenance, next, true) == r)
    {
      StepKeepsUnique(BookStage(books, provenance, ids, true), isbns, data, mode, id, b);
      hide FindExisting, MergeFields, CopyProvenance, Insertable, SourceIdsUnique;
      var m: Option<Id> := None;
      if mode != Replace {
        m := FindExistingBook(data.isbns, id, b);
      }
      next := ids;
      if m.None? {
        ok := InsertBookRow(id, b, data.provenance);
        next := ids[id := id];
      } else if m.value in books {
        ok := MergeBookFields(m.value, id, b, data.provenance);
        next := ids[id := m.value];
      } else {
        ok := false;
      }
    }

    /** `restore_books`. */
    method RestoreBookRows(data: Backup, mode: RestoreMode) returns (ids: IdMap, ok: bool)
      requires Valid()
      modifies `books, `provenance
      ensures ok ==> Valid()
      ensures var r := RestoreBooks(old(State()), data, mode, |data.books|);
        ok == r.ok && (ok ==> BookStage(books, provenance, ids, true) == r)
    {
      hide RestoreBook, SourceIdsUnique;
      ghost var start := State();
      ids := map[];
      for i := 0 to |data.books|
        invariant Valid() && isbns == start.isbns
        invariant RestoreBooks(start, data, mode, i) == BookStage(books, provenance, ids, true)
      {
        ids, ok := RestoreOneBook(data, mode, data.books[i].0, data.books[i].1, ids);
        if !ok {
          FailedBooksStay(start, data, mode, i + 1, |data.books|);
          return;
        }
      }
      ok := true;
    }

    // -------------------------------------------------------------------------
    // The other tables
    // -------------------------------------------------------------------------

    /** The tag loop and the shelf loop: one row per natural key. */
    static method RestoreNamed<K(==), V>(start: map<K, Named<K, V>>, rows: seq<Named<K, V>>)
      returns (table: map<K, Named<K, V>>, ids: IdMap, ok: bool)
      ensures var r := RestoreNames(start, rows, |rows|); ok == r.ok && (ok ==> NameStage(table, ids, true) == r)
    {
      hide IdTaken;
      table, ids := start, map[];
      for i := 0 to |rows|
        invariant RestoreNames(start, rows, i) == NameStage(table, ids, true)
      {
        if rows[i].key in table {
          ids := ids[rows[i].id := table[rows[i].key].id];
        } else if IdTaken(table, rows[i].id) {
          FailedNamesStay(start, rows, i + 1, |rows|);
          ok := false;
          return;
        } else {
          table := table[rows[i].key := rows[i]];
          ids := ids[rows[i].id := rows[i].id];
        }
      }
      ok := true;
    }

    /** `restore_entity_hlc`. */
    method RestoreClockRows(rows: seq<(ClockKey, FieldClock)>, ids: IdMap)
      modifies `clocks
      ensures clocks == RestoreClocks(old(clocks), rows, ids, |rows|)
    {
      hide Less, RemapClock;
      for i := 0 to |rows|
        invariant clocks == RestoreClocks(old(clocks), rows, ids, i)
      {
        var ck := RemapClock(rows[i].0, ids);
        if ck !in clocks || Less(clocks[ck].hlc, rows[i].1.hlc) {
          clocks := clocks[ck := rows[i].1];
        }
      }
    }

    /** `restore_notes` and `restore_reviews`. */
    method RestoreRemarkRows(start: map<Id, Remark>, rows: Rows<Remark>, entity: EntityType, data: Backup, ids: IdMap,
                             mode: RestoreMode)
      returns (table: map<Id, Remark>, ok: bool)
      ensures RestoreRemarks(start, rows, entity, clocks, data, ids, books, mode, |rows|).ok == ok
      ensures ok ==>
        RestoreRemarks(start, rows, entity, clocks, data, ids, books, mode, |rows|) == RemarkStage(table, true)
    {
      hide Overwrites, BackupClock, ClockIn, Resolve;
      table := start;
      for i := 0 to |rows|
        invariant RestoreRemarks(start, rows, entity, clocks, data, ids, books, mode, i) == RemarkStage(table, true)
      {
        var id, row := rows[i].0, rows[i].1;
        if id !in table {
          if Resolve(ids, row.bookId) !in books {
            FailedRemarksStay(start, rows, entity, clocks, data, ids, books, mode, i + 1, |rows|);
            return table, false;
          }
          table := table[id := row.(bookId := Resolve(ids, row.bookId))];
        } else if mode == MergeInto {
          var ck := ClockKey(entity, id, Content);
          if Overwrites(table[id], row, BackupClock(data.clocks, ck), ClockIn(clocks, ck)) {
            table := table[id := row.(bookId := table[id].bookId, createdAt := table[id].createdAt)];
          }
        }
      }
      ok := true;
    }

    /** `restore_settings`. */
    method RestoreSettingRows(rows: seq<(string, SettingRow)>, mode: RestoreMode)
      modifies `settings
      ensures settings == RestoreSettings(old(settings), rows, mode, |rows|)
    {
      hide Newer, SettingIdTaken;
      for i := 0 to |rows|
        invariant settings == RestoreSettings(old(settings), rows, mode, i)
      {
        var key, row := rows[i].0, rows[i].1;
        if key !in settings {
          if !SettingIdTaken(settings, row.id) {
            settings := settings[key := row];
          }
        } else if mode == MergeInto && row.syncHlc.Some? && Newer(row.syncHlc.value, settings[key].syncHlc) {
          settings := settings[key := row.(id := settings[key].id)];
        }
      }
    }

    /** `clear_library`. */
    method ClearLibrary()
      modifies this
      ensures State() == EMPTY_STORE
    {
      Rollback(EMPTY_STORE);
    }

    /** Puts all tables back to an earlier state, as the end of a failed transaction does. */
    method Rollback(saved: Store)
      modifies this
      ensures State() == saved
    {
      RollbackParents(saved);
      RollbackFacts(saved);
      RollbackOthers(saved);
    }

    method RollbackParents(saved: Store)
      modifies `books, `provenance, `isbns, `tags, `shelves
      ensures books == saved.books && provenance == saved.provenance && isbns == saved.isbns && tags == saved.tags
      ensures shelves == saved.shelves
    {
      books, provenance, isbns, tags, shelves := saved.books, saved.provenance, saved.isbns, saved.tags, saved.shelves;
    }

    method RollbackFacts(saved: Store)
      modifies `bookTags, `bookShelves, `sessions, `progress
      ensures bookTags == saved.bookTags && bookShelves == saved.bookShelves && sessions == saved.sessions
      ensures progress == saved.progress
    {
      bookTags, bookShelves, sessions, progress := saved.bookTags, saved.bookShelves, saved.sessions, saved.progress;
    }

    method RollbackOthers(saved: Store)
      modifies `clocks, `notes, `reviews, `settings, `catalog
      ensures clocks == saved.clocks && notes == saved.notes && reviews == saved.reviews && settings == saved.settings
      ensures catalog == saved.catalog
    {
      clocks, notes, reviews, settings, catalog :=
        saved.clocks, saved.notes, saved.reviews, saved.settings, saved.catalog;
    }

    /** The parent tables: books, tags, shelves. */
    method RestoreParentRows(data: Backup, mode: RestoreMode)
      returns (ids: IdMap, tagIds: IdMap, shelfIds: IdMap, ok: bool)
      requires Valid()
      modifies this
      ensures ok ==> Valid()
      ensures var p := RestoreParents(old(State()), data, mode);
        && ok == (p.books.ok && p.tags.ok && p.shelves.ok)
        && (ok ==>
            p == Parents(BookStage(books, provenance, ids, true), NameStage(tags, tagIds, true),
                         NameStage(shelves, shelfIds, true)))
      ensures ok ==>
        State() == old(State()).(books := books, provenance := provenance, tags := tags, shelves := shelves)
    {
      hide RestoreBooks, RestoreNames, SourceIdsUnique;
      tagIds, shelfIds := map[], map[];
      ids, ok := RestoreBookRows(data, mode);
      if !ok {
        return;
      }
      var tagTable, shelfTable;
      tagTable, tagIds, ok := RestoreNamed(tags, data.tags);
      if !ok {
        return;
      }
      shelfTable, shelfIds, ok := RestoreNamed(shelves, data.shelves);
      if !ok {
        return;
      }
      tags, shelves := tagTable, shelfTable;
    }

    /** ISBNs, links, sessions and progress: insert-if-absent rows whose references are remapped. */
    method RestoreFactRows(data: Backup, ids: IdMap, tagIds: IdMap, shelfIds: IdMap) returns (ok: bool)
      modifies `isbns, `bookTags, `bookShelves, `sessions, `progress
      ensures var r := RestoreFacts(old(State()), data, Parents(BookStage(books, provenance, ids, true),
          NameStage(tags, tagIds, true), NameStage(shelves, shelfIds, true)));
        ok == r.Some? && (ok ==> r.value == Facts(isbns, bookTags, bookShelves, sessions, progress))
    {
      hide Load, LinksHold, RemapLinks, RemapIsbns, RemapSessions, RemapProgress, IsbnRefers, SessionRefers;
      hide EntryRefers;
      ok := false;
      var isbnTable := SnapshotRepository.InsertRows(isbns, RemapIsbns(data.isbns, ids), IsbnRefers(books));
      if isbnTable.None? {
        return;
      }
      var shelfLinks, tagLinks := RemapLinks(data.bookShelves, ids, shelfIds), RemapLinks(data.bookTags, ids, tagIds);
      if !LinksHold(bookShelves, shelfLinks, books, shelves) || !LinksHold(bookTags, tagLinks, books, tags) {
        return;
      }
      var sessionTable :=
        SnapshotRepository.InsertRows(sessions, RemapSessions(data.sessions, ids), SessionRefers(books));
      if sessionTable.None? {
        return;
      }
      var progressTable := SnapshotRepository.InsertRows(progress, RemapProgress(data.progress, ids),
                                                         EntryRefers(books, sessionTable.value));
      if progressTable.None? {
        return;
      }
      isbns, bookShelves, bookTags := isbnTable.value, bookShelves + shelfLinks, bookTags + tagLinks;
      sessions, progress := sessionTable.value, progressTable.value;
      ok := true;
    }

    /** Clocks, then notes and reviews, then settings. */
    method RestoreWrittenRows(data: Backup, mode: RestoreMode, ids: IdMap) returns (ok: bool)
      modifies `clocks, `notes, `reviews, `settings
      ensures var r := RestoreWritten(old(State()), data, mode, ids, books);
        ok == r.Some? && (ok ==> r.value == Written(clocks, notes, reviews, settings))
    {
      hide RestoreClocks, RestoreRemarks, RestoreSettings;
      RestoreClockRows(data.clocks, ids);
      var table;
      table, ok := RestoreRemarkRows(notes, data.notes, NoteEntity, data, ids, mode);
      if !ok {
        return;
      }
      notes := table;
      table, ok := RestoreRemarkRows(reviews, data.reviews, ReviewEntity, data, ids, mode);
      if !ok {
        return;
      }
      reviews := table;
      RestoreSettingRows(data.settings, mode);
    }

    /** Authors, works, series, files and import logs, with the links to them. */
    method RestoreCatalogRows(d: CatalogRows, ids: IdMap) returns (ok: bool)
      modifies `catalog
      ensures var r := RestoreCatalog(old(catalog), d, ids, books.Keys);
        ok == r.Some? && (ok ==> catalog == r.value)
    {
      hide Load, Free, RemapCredits, RemapVolumes, RemapFiles, RemapImports, CreditRefers, VolumeRefers, FileRefers;
      hide ImportRefers;
      ok := false;
      var authors := SnapshotRepository.InsertRows(catalog.authors, d.authors, Free());
      var works := SnapshotRepository.InsertRows(catalog.works, d.works, Free());
      var series := SnapshotRepository.InsertRows(catalog.series, d.series, Free());
      var logs := SnapshotRepository.InsertRows(catalog.importLogs, d.importLogs, Free());
      var files := SnapshotRepository.InsertRows(catalog.files, RemapFiles(d.files, ids), FileRefers(books.Keys));
      if authors.None? || works.None? || series.None? || files.None? || logs.None? {
        return;
      }
      var credits := SnapshotRepository.InsertRows(catalog.credits, RemapCredits(d.credits, ids),
                                                   CreditRefers(books.Keys, authors.value));
      var volumes := SnapshotRepository.InsertRows(catalog.volumes, RemapVolumes(d.volumes, ids),
                                                   VolumeRefers(books.Keys, series.value));
      var imports := SnapshotRepository.InsertRows(catalog.imports, RemapImports(d.imports, ids),
                                                   ImportRefers(books.Keys, logs.value));
      if credits.None? || volumes.None? || imports.None? {
        return;
      }
      catalog := Catalog(authors.value, works.value, series.value, credits.value, volumes.value, files.value,
                         logs.value, imports.value);
      ok := true;
    }

    /** Everything that refers to the parents. */
    method RestoreChildRows(data: Backup, mode: RestoreMode, ids: IdMap, tagIds: IdMap, shelfIds: IdMap,
                            ghost start: Store, ghost p: Parents)
      returns (ok: bool)
      requires start == State()
      requires p == Parents(BookStage(books, provenance, ids, true), NameStage(tags, tagIds, true),
                            NameStage(shelves, shelfIds, true))
      modifies `isbns, `bookTags, `bookShelves, `sessions, `progress, `clocks, `notes, `reviews, `settings, `catalog
      ensures ok == RestoreChildren(start, data, mode, p).Some?
      ensures ok ==> State() == RestoreChildren(start, data, mode, p).value
    {
      hide RestoreFacts, RestoreWritten, RestoreCatalog;
      ok := RestoreFactRows(data, ids, tagIds, shelfIds);
      if ok {
        WrittenReadsOwnTables(start, State(), data, mode, ids, books);
        ok := RestoreWrittenRows(data, mode, ids);
      }
      if ok {
        ok := RestoreCatalogRows(data.catalog, ids);
      }
    }

    /** `restore_library`: the whole restore, or no change at all. */
    method RestoreLibrary(data: Backup, mode: RestoreMode) returns (ok: bool)
      requires Valid()
      modifies this
      ensures Valid()
      ensures ok == Restore(old(State()), data, mode).Some?
      ensures State() == if ok then Restore(old(State()), data, mode).value else old(State())
    {
      hide RestoreParents, RestoreChildren;
      var saved := State();
      if mode == Replace {
        ClearLibrary();
      }
      var ids, tagIds, shelfIds, parentsOk := RestoreParentRows(data, mode);
      if parentsOk {
        ghost var p, before := Parents(BookStage(books, provenance, ids, true), NameStage(tags, tagIds, true),
                                       NameStage(shelves, shelfIds, true)), State();
        ChildrenIgnoreParents(if mode == Replace then EMPTY_STORE else saved, before, data, mode, p);
        ok := RestoreChildRows(data, mode, ids, tagIds, shelfIds, before, p);
      } else {
        ok := false;
      }
      if !ok {
        Rollback(saved);
        assert books == saved.books;
      }
    }
  }

  // ---------------------------------------------------------------------------
  // Failures stay, unique ids stay unique
  // ---------------------------------------------------------------------------

  lemma {:induction false} FailedFieldsStay(s: FieldStage, local: Id, id: Id, incoming: FullBook,
                                            rows: seq<((Id, Key), Provenance)>, n: nat, m: nat)
    requires n <= m <= |rows| && !MergeFields(s, local, id, incoming, rows, n).ok
    ensures !MergeFields(s, local, id, incoming, rows, m).ok
    decreases m
  {
    if n < m {
      FailedFieldsStay(s, local, id, incoming, rows, n, m - 1);
    }
  }

  lemma {:induction false} FailedBooksStay(store: Store, data: Backup, mode: RestoreMode, n: nat, m: nat)
    requires n <= m <= |data.books| && !RestoreBooks(store, data, mode, n).ok
    ensures !RestoreBooks(store, data, mode, m).ok
    decreases m
  {
    hide FindExisting, MergeBook, InsertBook;
    if n < m {
      FailedBooksStay(store, data, mode, n, m - 1);
    }
  }

  lemma {:induction false} FailedNamesStay<K, V>(start: map<K, Named<K, V>>, rows: seq<Named<K, V>>, n: nat, m: nat)
    requires n <= m <= |rows| && !RestoreNames(start, rows, n).ok
    ensures !RestoreNames(start, rows, m).ok
    decreases m
  {
    if n < m {
      FailedNamesStay(start, rows, n, m - 1);
    }
  }

  lemma {:induction false} FailedRemarksStay(table: map<Id, Remark>, rows: Rows<Remark>, entity: EntityType,
                                             clocks: ClockTable, data: Backup,
                                             ids: IdMap, books: map<Id, FullBook>, mode: RestoreMode, n: nat, m: nat)
    requires n <= m <= |rows| && !RestoreRemarks(table, rows, entity, clocks, data, ids, books, mode, n).ok
    ensures !RestoreRemarks(table, rows, entity, clocks, data, ids, books, mode, m).ok
    decreases m
  {
    hide Overwrites, BackupClock, ClockIn;
    if n < m {
      FailedRemarksStay(table, rows, entity, clocks, data, ids, books, mode, n, m - 1);
    }
  }

  lemma StepKeepsUnique(s: BookStage, isbns: map<string, Id>, data: Backup, mode: RestoreMode, id: Id, b: FullBook)
    requires SourceIdsUnique(s.books) && s.ok
    ensures SourceIdsUnique(RestoreBook(s, isbns, data, mode, id, b).books)
  {
    hide FindExisting, MergeFields, CopyProvenance, Column, IsStars;
    var m: Option<Id> := if mode == Replace then None else FindExisting(s.books, isbns, data.isbns, id, b);
    if m.Some? && m.value in s.books {
      var start := FieldStage(s.books[m.value], s.provenance, true);
      MergeFieldsRise(start, m.value, id, b, data.provenance, |data.provenance|);
      UniqueAfterMerge(s.books, m.value, MergeFields(start, m.value, id, b, data.provenance, |data.provenance|).row);
    }
  }

  /** Clocks, notes, reviews and settings do not depend on the other tables. */
  lemma WrittenReadsOwnTables(a: Store, b: Store, data: Backup, mode: RestoreMode, ids: IdMap, books: map<Id, FullBook>)
    requires a.clocks == b.clocks && a.notes == b.notes && a.reviews == b.reviews && a.settings == b.settings
    ensures RestoreWritten(a, data, mode, ids, books) == RestoreWritten(b, data, mode, ids, books)
  {
    hide RestoreClocks, RestoreRemarks, RestoreSettings;
  }

  /** The tables below the parents do not depend on what the parent tables were before. */
  lemma ChildrenIgnoreParents(a: Store, b: Store, data: Backup, mode: RestoreMode, p: Parents)
    requires b == a.(books := b.books, provenance := b.provenance, tags := b.tags, shelves := b.shelves)
    ensures RestoreChildren(a, data, mode, p) == RestoreChildren(b, data, mode, p)
  {
    hide Load, LinksHold, RestoreClocks, RestoreRemarks, RestoreSettings, RemapLinks, RemapIsbns, RemapSessions;
    hide RemapProgress;
  }
}
