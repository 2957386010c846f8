/** Merge restore as a whole: when it succeeds, what it keeps, and that doing it twice is doing it once. */
module RestoreTheorem {
  import opened Wrappers
  import opened Text
  import opened Library
  import opened MergeRules
  import opened Snapshots
  import opened Catalogs
  import opened Backups
  import opened RestoredBooks

  // ---------------------------------------------------------------------------
  // Constraints of a library
  // ---------------------------------------------------------------------------

  ghost predicate NamesUnique<K(!new), V(!new)>(table: map<K, Named<K, V>>)
  {
    && (forall k :: k in table ==> table[k].key == k)
    && (forall k, l :: k in table && l in table && table[k].id == table[l].id ==> k == l)
  }

  ghost predicate SettingIdsUnique(settings: map<string, SettingRow>)
  {
    forall k, l :: k in settings && l in settings && settings[k].id == settings[l].id ==> k == l
  }

  ghost predicate EndsStored<K(!new), V(!new)>(links: set<(Id, Id)>, books: map<Id, FullBook>,
                               table: map<K, Named<K, V>>)
  {
    forall link :: link in links ==> link.0 in books && IdTaken(table, link.1)
  }

  ghost predicate RemarksRefer(table: map<Id, Remark>, books: map<Id, FullBook>)
  {
    forall id :: id in table ==> table[id].bookId in books
  }

  ghost predicate SessionsRefer(sessions: map<Id, Session>, books: map<Id, FullBook>)
  {
    forall id :: id in sessions ==> SessionRefers(books)(id, sessions[id])
  }

  ghost predicate ProgressRefer(progress: map<Id, Progress>, books: map<Id, FullBook>, sessions: map<Id, Session>)
  {
    forall id :: id in progress ==> EntryRefers(books, sessions)(id, progress[id])
  }

  /** The key, uniqueness, reference and rating constraints of the schema. */
  ghost predicate ConsistentStore(s: Store)
  {
    && HasBooks(s) && AllStars(s.books)
    && NamesUnique(s.tags) && NamesUnique(s.shelves)
    && EndsStored(s.bookTags, s.books, s.tags) && EndsStored(s.bookShelves, s.books, s.shelves)
    && SessionsRefer(s.sessions, s.books) && ProgressRefer(s.progress, s.books, s.sessions)
    && RemarksRefer(s.notes, s.books) && RemarksRefer(s.reviews, s.books)
    && SettingIdsUnique(s.settings)
    && CatalogConsistent(s.catalog, s.books.Keys)
  }

  ghost predicate ListsNames<K(!new), V(!new)>(rows: seq<Named<K, V>>, table: map<K, Named<K, V>>)
  {
    && (forall i, j :: 0 <= i < j < |rows| ==> rows[i].key != rows[j].key)
    && (forall i :: 0 <= i < |rows| ==> rows[i].key in table && table[rows[i].key] == rows[i])
    && (forall k :: k in table ==> exists i :: 0 <= i < |rows| && rows[i].key == k)
  }

  /** The rows have the types that the export reads: whole numbers or nothing in the integer columns. */
  predicate Exportable(s: Store)
  {
    AllExportable(s.books)
  }

  predicate AllExportable(books: map<Id, FullBook>)
  {
    forall id :: id in books ==> ExportableBook(books[id])
  }

  predicate ExportableBook(b: FullBook)
  {
    IsIntegerCell(Column(b, PageCount)) && IsIntegerCell(Column(b, DurationMinutes)) && IsIntegerCell(Column(b, Rating))
  }

  /** `export_library` has given this backup: every table as a list of its rows, in any order. */
  ghost predicate ExportOf(s: Store, d: Backup)
  {
    && Exportable(s)
    && Lists(d.books, s.books) && Lists(d.provenance, s.provenance) && Lists(d.isbns, s.isbns)
    && ListsNames(d.tags, s.tags) && ListsNames(d.shelves, s.shelves)
    && ListsLinks(d.bookTags, s.bookTags) && ListsLinks(d.bookShelves, s.bookShelves)
    && Lists(d.sessions, s.sessions) && Lists(d.progress, s.progress) && Lists(d.clocks, s.clocks)
    && Lists(d.notes, s.notes) && Lists(d.reviews, s.reviews) && Lists(d.settings, s.settings)
    && ListsCatalog(d.catalog, s.catalog)
  }

  // ---------------------------------------------------------------------------
  // Natural keys
  // ---------------------------------------------------------------------------

  /** A row that has to be inserted finds its id free. */
  ghost predicate NoIdClash<K(!new), V(!new)>(table: map<K, Named<K, V>>, rows: seq<Named<K, V>>, n: nat)
    requires n <= |rows|
  {
    forall i :: 0 <= i < n ==> rows[i].key in table || !IdTaken(table, rows[i].id)
  }

  /** Nothing is lost, and what is new comes from the first `n` rows, which all have their key. */
  ghost predicate NamesStored<K(!new), V(!new)>(table: map<K, Named<K, V>>, rows: seq<Named<K, V>>,
                                next: map<K, Named<K, V>>, n: nat)
    requires n <= |rows|
  {
    && (forall k :: k in table ==> k in next && next[k] == table[k])
    && (forall k :: k in next && k !in table ==> exists i :: 0 <= i < n && rows[i] == next[k])
    && (forall i :: 0 <= i < n ==> rows[i].key in next)
  }

  /** The ids of the first `n` rows are mapped, and to stored ids. */
  ghost predicate NamesMapped<K(!new), V(!new)>(rows: seq<Named<K, V>>, s: NameStage<K, V>, n: nat)
    requires n <= |rows|
  {
    && (forall id :: id in s.ids ==> IdTaken(s.table, s.ids[id]))
    && (forall i :: 0 <= i < n ==> rows[i].id in s.ids)
  }

  ghost predicate NamesKept<K(!new), V(!new)>(table: map<K, Named<K, V>>, rows: seq<Named<K, V>>, s: NameStage<K, V>,
                              n: nat)
    requires n <= |rows|
  {
    NamesStored(table, rows, s.table, n) && NamesMapped(rows, s, n) && NamesUnique(s.table)
  }

  lemma StoredIsTaken<K(!new), V(!new)>(table: map<K, Named<K, V>>, k: K)
    requires k in table
    ensures IdTaken(table, table[k].id)
  {
  }

  lemma UniqueAfterInsert<K(!new), V(!new)>(table: map<K, Named<K, V>>, row: Named<K, V>)
    requires NamesUnique(table) && row.key !in table && !IdTaken(table, row.id)
    ensures NamesUnique(table[row.key := row])
  {
  }

  lemma TakenAfterInsert<K(!new), V(!new)>(table: map<K, Named<K, V>>, row: Named<K, V>, id: Id)
    requires row.key !in table
    ensures IdTaken(table[row.key := row], id) <==> IdTaken(table, id) || id == row.id
  {
    var next := table[row.key := row];
    if IdTaken(table, id) {
      var k :| k in table && table[k].id == id;
      assert next[k].id == id;
    }
    assert next[row.key] == row;
  }

  lemma NamesStep<K(!new), V(!new)>(table: map<K, Named<K, V>>, rows: seq<Named<K, V>>, s: NameStage<K, V>, n: nat)
    requires n < |rows| && s.ok && NamesKept(table, rows, s, n) && RestoreName(s, rows[n]).ok
    ensures NamesKept(table, rows, RestoreName(s, rows[n]), n + 1)
  {
    hide NamesUnique, IdTaken, NamesStored, NamesMapped;
    var r := RestoreName(s, rows[n]);
    if rows[n].key !in s.table {
      UniqueAfterInsert(s.table, rows[n]);
    }
    OneMoreStored(table, rows, s.table, r.table, n);
    OneMoreMapped(rows, s, n);
  }

  lemma OneMoreStored<K(!new), V(!new)>(table: map<K, Named<K, V>>, rows: seq<Named<K, V>>, part: map<K, Named<K, V>>,
                        next: map<K, Named<K, V>>, n: nat)
    requires n < |rows| && NamesStored(table, rows, part, n)
    requires next == if rows[n].key in part then part else part[rows[n].key := rows[n]]
    ensures NamesStored(table, rows, next, n + 1)
  {
    forall k | k in next && k !in table ensures exists i :: 0 <= i < n + 1 && rows[i] == next[k] {
      if k in part {
        var i :| 0 <= i < n && rows[i] == part[k];
        assert rows[i] == next[k];
      } else {
        assert rows[n] == next[k];
      }
    }
  }

  lemma OneMoreMapped<K(!new), V(!new)>(rows: seq<Named<K, V>>, s: NameStage<K, V>, n: nat)
    requires n < |rows| && s.ok && NamesMapped(rows, s, n) && RestoreName(s, rows[n]).ok
    ensures NamesMapped(rows, RestoreName(s, rows[n]), n + 1)
  {
    hide IdTaken;
    var r := RestoreName(s, rows[n]);
    if rows[n].key in s.table {
      StoredIsTaken(s.table, rows[n].key);
    } else {
      forall id | id in r.ids ensures IdTaken(r.table, r.ids[id]) {
        TakenAfterInsert(s.table, rows[n], r.ids[id]);
      }
    }
  }

  lemma {:induction false} NamesRestored<K(!new), V(!new)>(table: map<K, Named<K, V>>, rows: seq<Named<K, V>>, n: nat)
    requires n <= |rows| && NamesUnique(table) && RestoreNames(table, rows, n).ok
    ensures NamesKept(table, rows, RestoreNames(table, rows, n), n)
  {
    hide RestoreName, NamesKept;
    if n == 0 {
      NothingKept(table, rows);
    } else {
      OkBefore(RestoreNames(table, rows, n - 1), rows[n - 1]);
      NamesRestored(table, rows, n - 1);
      NamesStep(table, rows, RestoreNames(table, rows, n - 1), n - 1);
    }
  }

  lemma NothingKept<K(!new), V(!new)>(table: map<K, Named<K, V>>, rows: seq<Named<K, V>>)
    requires NamesUnique(table)
    ensures NamesKept(table, rows, NameStage(table, map[], true), 0)
  {
  }

  lemma OkBefore<K, V>(s: NameStage<K, V>, row: Named<K, V>)
    requires RestoreName(s, row).ok
    ensures s.ok
  {
  }

  lemma NameStepIds<K(!new), V(!new)>(s: NameStage<K, V>, row: Named<K, V>)
    requires RestoreName(s, row).ok
    ensures s.ok && row.key in RestoreName(s, row).table
    ensures RestoreName(s, row).ids == s.ids[row.id := RestoreName(s, row).table[row.key].id]
    ensures forall k :: k in s.table ==> k in RestoreName(s, row).table && RestoreName(s, row).table[k] == s.table[k]
  {
  }

  lemma KnownName<K(!new), V(!new)>(s: NameStage<K, V>, row: Named<K, V>)
    requires s.ok && row.key in s.table
    ensures RestoreName(s, row) == s.(ids := s.ids[row.id := s.table[row.key].id])
  {
  }

  lemma {:induction false} NamesGrow<K(!new), V(!new)>(table: map<K, Named<K, V>>, rows: seq<Named<K, V>>, n: nat,
                                       m: nat)
    requires n <= m <= |rows| && RestoreNames(table, rows, m).ok
    ensures RestoreNames(table, rows, n).ok
    ensures forall k :: k in RestoreNames(table, rows, n).table ==>
      k in RestoreNames(table, rows, m).table
        && RestoreNames(table, rows, m).table[k] == RestoreNames(table, rows, n).table[k]
    decreases m
  {
    hide RestoreName;
    if n < m {
      NameStepIds(RestoreNames(table, rows, m - 1), rows[m - 1]);
      NamesGrow(table, rows, n, m - 1);
    }
  }

  /** Restoring the names again maps every id as before and inserts nothing. */
  lemma {:induction false} NamesAgain<K(!new), V(!new)>(table: map<K, Named<K, V>>, rows: seq<Named<K, V>>, n: nat)
    requires n <= |rows| && RestoreNames(table, rows, |rows|).ok
    ensures RestoreNames(RestoreNames(table, rows, |rows|).table, rows, n) ==
      NameStage(RestoreNames(table, rows, |rows|).table, RestoreNames(table, rows, n).ids, true)
  {
    hide RestoreName;
    if n > 0 {
      NamesAgain(table, rows, n - 1);
      NamesGrow(table, rows, n, |rows|);
      NameStepIds(RestoreNames(table, rows, n - 1), rows[n - 1]);
      var last := RestoreNames(table, rows, |rows|).table;
      KnownName(NameStage(last, RestoreNames(table, rows, n - 1).ids, true), rows[n - 1]);
    }
  }

  /** Restoring listed names succeeds exactly when no new row meets a taken id. */
  lemma {:induction false} NamesSucceed<K(!new), V(!new)>(table: map<K, Named<K, V>>, source: map<K, Named<K, V>>,
                                          rows: seq<Named<K, V>>, n: nat)
    requires n <= |rows| && NamesUnique(table) && NamesUnique(source) && ListsNames(rows, source)
    ensures RestoreNames(table, rows, n).ok <==> NoIdClash(table, rows, n)
  {
    hide RestoreName, NamesUnique, ListsNames, IdTaken, NamesKept;
    if n > 0 {
      NamesSucceed(table, source, rows, n - 1);
      if RestoreNames(table, rows, n - 1).ok {
        NamesRestored(table, rows, n - 1);
        NextName(table, source, rows, RestoreNames(table, rows, n - 1), n - 1);
      } else if RestoreNames(table, rows, n).ok {
        NameStepIds(RestoreNames(table, rows, n - 1), rows[n - 1]);
      }
    }
  }

  /** No earlier row of the list has the key or the id of the next one. */
  lemma EarlierNames<K(!new), V(!new)>(source: map<K, Named<K, V>>, rows: seq<Named<K, V>>, n: nat)
    requires n < |rows| && NamesUnique(source) && ListsNames(rows, source)
    ensures forall i :: 0 <= i < n ==> rows[i].key != rows[n].key && rows[i].id != rows[n].id
  {
  }

  lemma NextName<K(!new), V(!new)>(table: map<K, Named<K, V>>, source: map<K, Named<K, V>>, rows: seq<Named<K, V>>,
                   s: NameStage<K, V>, n: nat)
    requires n < |rows| && NamesUnique(source) && ListsNames(rows, source) && NamesKept(table, rows, s, n) && s.ok
    ensures RestoreName(s, rows[n]).ok <==> rows[n].key in table || !IdTaken(table, rows[n].id)
  {
    EarlierNames(source, rows, n);
    NewEntries(table, rows, s, n);
    hide NamesUnique, ListsNames, NamesKept, IdTaken;
    TakenSince(table, s.table, rows[n].id);
  }

  lemma TakenSince<K(!new), V(!new)>(table: map<K, Named<K, V>>, next: map<K, Named<K, V>>, id: Id)
    requires forall k :: k in table ==> k in next && next[k] == table[k]
    requires forall k :: k in next && k !in table ==> next[k].id != id
    ensures IdTaken(next, id) <==> IdTaken(table, id)
  {
    if IdTaken(table, id) {
      var k :| k in table && table[k].id == id;
      assert next[k].id == id;
    }
    assert forall k :: k in next && next[k].id == id ==> k in table;
  }

  lemma NewEntries<K(!new), V(!new)>(table: map<K, Named<K, V>>, rows: seq<Named<K, V>>, s: NameStage<K, V>, n: nat)
    requires n <= |rows| && NamesKept(table, rows, s, n)
    ensures forall k :: k in table ==> k in s.table && s.table[k] == table[k]
    ensures forall k :: k in s.table && k !in table ==>
      s.table[k].key == k && exists i :: 0 <= i < n && rows[i] == s.table[k]
  {
    hide NamesMapped, IdTaken;
    assert NamesStored(table, rows, s.table, n);
  }

  // ---------------------------------------------------------------------------
  // Clocks
  // ---------------------------------------------------------------------------

  type ClockTable = map<ClockKey, FieldClock>

  predicate ClockReached(clocks: ClockTable, ck: ClockKey, hlc: string)
  {
    ck in clocks && !Less(clocks[ck].hlc, hlc)
  }

  lemma {:induction false} ClocksReached(clocks: ClockTable, rows: seq<(ClockKey, FieldClock)>, ids: IdMap, n: nat)
    requires n <= |rows|
    ensures forall ck :: ck in clocks ==> ClockReached(RestoreClocks(clocks, rows, ids, n), ck, clocks[ck].hlc)
    ensures forall i :: 0 <= i < n ==>
      ClockReached(RestoreClocks(clocks, rows, ids, n), RemapClock(rows[i].0, ids), rows[i].1.hlc)
  {
    hide RemapClock, Less;
    if n == 0 {
      forall ck | ck in clocks ensures !Less(clocks[ck].hlc, clocks[ck].hlc) {
        LessTrichotomy(clocks[ck].hlc, clocks[ck].hlc);
      }
    } else {
      ClocksReached(clocks, rows, ids, n - 1);
      var before, r, hlc :=
        RestoreClocks(clocks, rows, ids, n - 1), RestoreClocks(clocks, rows, ids, n), rows[n - 1].1.hlc;
      LessTrichotomy(hlc, hlc);
      forall ck, old' | ClockReached(before, ck, old') ensures ClockReached(r, ck, old') {
        if ck == RemapClock(rows[n - 1].0, ids) && Less(before[ck].hlc, hlc) {
          LessTrichotomy(before[ck].hlc, hlc);
          NotLessTransitive(old', before[ck].hlc, hlc);
        }
      }
    }
  }

  lemma {:induction false} ClocksAgain(clocks: ClockTable, rows: seq<(ClockKey, FieldClock)>, ids: IdMap, n: nat)
    requires n <= |rows|
    requires forall i :: 0 <= i < |rows| ==> ClockReached(clocks, RemapClock(rows[i].0, ids), rows[i].1.hlc)
    ensures RestoreClocks(clocks, rows, ids, n) == clocks
  {
    if n > 0 {
      ClocksAgain(clocks, rows, ids, n - 1);
    }
  }

  // ---------------------------------------------------------------------------
  // Notes and reviews
  // ---------------------------------------------------------------------------

  /** Where the restore finds the clocks of notes and reviews: they have been restored before. */
  ghost predicate RemarkClocksReached(clocks: ClockTable, rows: seq<(ClockKey, FieldClock)>)
  {
    forall i :: 0 <= i < |rows| && rows[i].0.entity != BookEntity ==> ClockReached(clocks, rows[i].0, rows[i].1.hlc)
  }

  lemma {:induction false} BackupClockIsReached(clocks: ClockTable, rows: seq<(ClockKey, FieldClock)>, ck: ClockKey,
                                                i: nat)
    requires RemarkClocksReached(clocks, rows) && ck.entity != BookEntity && i <= |rows|
    ensures BackupClock(rows, ck, i).Some? ==> !Newer(BackupClock(rows, ck, i).value, ClockIn(clocks, ck))
    decreases |rows| - i
  {
    if i < |rows| && rows[i].0 != ck {
      BackupClockIsReached(clocks, rows, ck, i + 1);
    }
  }

  /** Because the clocks come first, an existing note or review is overwritten only if the backup has no
      content clock for it and its update time is later. With a content clock it always stays. */
  lemma OverwriteNeedsNoClock(clocks: ClockTable, rows: seq<(ClockKey, FieldClock)>, entity: EntityType, id: Id,
                              local: Remark, row: Remark)
    requires RemarkClocksReached(clocks, rows) && entity != BookEntity
    ensures var incoming := BackupClock(rows, ClockKey(entity, id, Content));
      Overwrites(local, row, incoming, ClockIn(clocks, ClockKey(entity, id, Content))) <==>
        incoming.None? && Less(local.updatedAt, row.updatedAt)
  {
    BackupClockIsReached(clocks, rows, ClockKey(entity, id, Content), 0);
  }

  /** A row is settled when a restore would leave it alone. */
  predicate RemarkSettled(table: map<Id, Remark>, data: Backup, entity: EntityType, id: Id, row: Remark)
  {
    id in table
      && (BackupClock(data.clocks, ClockKey(entity, id, Content)).None? ==> !Less(table[id].updatedAt, row.updatedAt))
  }

  lemma RemarkStep(s: RemarkStage, id: Id, row: Remark, entity: EntityType, clocks: ClockTable, data: Backup,
                   ids: IdMap, books: map<Id, FullBook>, other: Id, otherRow: Remark)
    requires s.ok && RestoreRemark(s, id, row, entity, clocks, data, ids, books, MergeInto).ok
    requires RemarkClocksReached(clocks, data.clocks) && entity != BookEntity
    ensures RemarkSettled(RestoreRemark(s, id, row, entity, clocks, data, ids, books, MergeInto).table, data, entity,
                          id, row)
    ensures RemarkSettled(s.table, data, entity, other, otherRow) ==>
      RemarkSettled(RestoreRemark(s, id, row, entity, clocks, data, ids, books, MergeInto).table, data, entity, other,
                    otherRow)
    ensures RemarkSettled(s.table, data, entity, id, row) ==>
      RestoreRemark(s, id, row, entity, clocks, data, ids, books, MergeInto) == s
  {
    hide BackupClock, Less;
    LessTrichotomy(row.updatedAt, row.updatedAt);
    if id in s.table {
      OverwriteNeedsNoClock(clocks, data.clocks, entity, id, s.table[id], row);
      LessTrichotomy(s.table[id].updatedAt, row.updatedAt);
      if other == id && RemarkSettled(s.table, data, entity, other, otherRow)
        && Less(s.table[id].updatedAt, row.updatedAt)
         && !Less(s.table[id].updatedAt, otherRow.updatedAt) {
        NotLessTransitive(otherRow.updatedAt, s.table[id].updatedAt, row.updatedAt);
      }
    }
  }

  lemma RemarkOkBefore(s: RemarkStage, id: Id, row: Remark, entity: EntityType, clocks: ClockTable, data: Backup,
                       ids: IdMap, books: map<Id, FullBook>)
    requires RestoreRemark(s, id, row, entity, clocks, data, ids, books, MergeInto).ok
    ensures s.ok
  {
  }

  lemma {:induction false} RemarksSettle(table: map<Id, Remark>, rows: Rows<Remark>, entity: EntityType,
                                         clocks: ClockTable, data: Backup,
                                         ids: IdMap, books: map<Id, FullBook>, n: nat)
    requires n <= |rows| && RemarkClocksReached(clocks, data.clocks) && entity != BookEntity
    requires RestoreRemarks(table, rows, entity, clocks, data, ids, books, MergeInto, n).ok
    ensures var r := RestoreRemarks(table, rows, entity, clocks, data, ids, books, MergeInto, n).table;
      forall i :: 0 <= i < n ==> RemarkSettled(r, data, entity, rows[i].0, rows[i].1)
  {
    hide RestoreRemark, RemarkSettled, RemarkClocksReached;
    if n > 0 {
      var before := RestoreRemarks(table, rows, entity, clocks, data, ids, books, MergeInto, n - 1);
      RemarkOkBefore(before, rows[n - 1].0, rows[n - 1].1, entity, clocks, data, ids, books);
      RemarksSettle(table, rows, entity, clocks, data, ids, books, n - 1);
      forall i | 0 <= i < n
        ensures RemarkSettled(RestoreRemarks(table, rows, entity, clocks, data, ids, books, MergeInto, n).table, data,
                              entity, rows[i].0, rows[i].1)
      {
        RemarkStep(before, rows[n - 1].0, rows[n - 1].1, entity, clocks, data, ids, books, rows[i].0, rows[i].1);
      }
    }
  }

  lemma {:induction false} RemarksAgain(table: map<Id, Remark>, rows: Rows<Remark>, entity: EntityType,
                                        clocks: ClockTable, data: Backup,
                                        ids: IdMap, books: map<Id, FullBook>, n: nat)
    requires n <= |rows| && RemarkClocksReached(clocks, data.clocks) && entity != BookEntity
    requires forall i :: 0 <= i < |rows| ==> RemarkSettled(table, data, entity, rows[i].0, rows[i].1)
    ensures RestoreRemarks(table, rows, entity, clocks, data, ids, books, MergeInto, n) == RemarkStage(table, true)
  {
    hide RestoreRemark, RemarkClocksReached;
    if n > 0 {
      RemarksAgain(table, rows, entity, clocks, data, ids, books, n - 1);
      RestsSettled(table, rows[n - 1].0, rows[n - 1].1, entity, clocks, data, ids, books);
    }
  }

  lemma RestsSettled(table: map<Id, Remark>, id: Id, row: Remark, entity: EntityType, clocks: ClockTable, data: Backup,
                     ids: IdMap, books: map<Id, FullBook>)
    requires RemarkClocksReached(clocks, data.clocks) && entity != BookEntity
    requires RemarkSettled(table, data, entity, id, row)
    ensures RestoreRemark(RemarkStage(table, true), id, row, entity, clocks, data, ids, books, MergeInto) ==
      RemarkStage(table, true)
  {
    hide BackupClock, Less, RemarkClocksReached;
    OverwriteNeedsNoClock(clocks, data.clocks, entity, id, table[id], row);
  }

  lemma {:induction false} RemarksKeepReferences(table: map<Id, Remark>, rows: Rows<Remark>, entity: EntityType,
                                                 clocks: ClockTable, data: Backup,
                                                 ids: IdMap, books: map<Id, FullBook>, mode: RestoreMode, n: nat)
    requires n <= |rows| && RemarksRefer(table, books)
    ensures RemarksRefer(RestoreRemarks(table, rows, entity, clocks, data, ids, books, mode, n).table, books)
    ensures (forall i :: 0 <= i < n ==> Resolve(ids, rows[i].1.bookId) in books) ==>
      RestoreRemarks(table, rows, entity, clocks, data, ids, books, mode, n).ok
  {
    hide Overwrites, BackupClock, ClockIn, Resolve;
    if n > 0 {
      RemarksKeepReferences(table, rows, entity, clocks, data, ids, books, mode, n - 1);
    }
  }

  // ---------------------------------------------------------------------------
  // Settings
  // ---------------------------------------------------------------------------

  /** The setting is stored with a clock that is not older, or its id belongs to another key. */
  predicate SettingSettled(settings: map<string, SettingRow>, key: string, row: SettingRow)
  {
    if key in settings then row.syncHlc.Some? ==> !Newer(row.syncHlc.value, settings[key].syncHlc)
    else SettingIdTaken(settings, row.id)
  }

  lemma SettingRests(settings: map<string, SettingRow>, key: string, row: SettingRow)
    requires SettingSettled(settings, key, row)
    ensures RestoreSetting(settings, key, row, MergeInto) == settings
  {
  }

  lemma SettingStep(settings: map<string, SettingRow>, key: string, row: SettingRow)
    requires SettingIdsUnique(settings)
    ensures SettingSettled(RestoreSetting(settings, key, row, MergeInto), key, row)
    ensures SettingIdsUnique(RestoreSetting(settings, key, row, MergeInto))
    ensures forall id :: SettingIdTaken(settings, id) ==>
      SettingIdTaken(RestoreSetting(settings, key, row, MergeInto), id)
    ensures forall k :: k != key ==>
      (k in settings <==> k in RestoreSetting(settings, key, row, MergeInto)) &&
      (k in settings ==> RestoreSetting(settings, key, row, MergeInto)[k] == settings[k])
  {
    hide Less;
    var r := RestoreSetting(settings, key, row, MergeInto);
    if row.syncHlc.Some? {
      LessTrichotomy(row.syncHlc.value, row.syncHlc.value);
    }
    forall id | SettingIdTaken(settings, id) ensures SettingIdTaken(r, id) {
      var k :| k in settings && settings[k].id == id;
      assert r[k].id == id;
    }
  }

  lemma {:induction false} SettingsSettle(settings: map<string, SettingRow>, rows: seq<(string, SettingRow)>, n: nat)
    requires n <= |rows| && SettingIdsUnique(settings)
    requires forall i, j :: 0 <= i < j < |rows| ==> rows[i].0 != rows[j].0
    ensures var r := RestoreSettings(settings, rows, MergeInto, n);
      SettingIdsUnique(r) && forall i :: 0 <= i < n ==> SettingSettled(r, rows[i].0, rows[i].1)
  {
    hide RestoreSetting, SettingIdsUnique, Newer;
    if n > 0 {
      SettingsSettle(settings, rows, n - 1);
      SettingStep(RestoreSettings(settings, rows, MergeInto, n - 1), rows[n - 1].0, rows[n - 1].1);
    }
  }

  lemma {:induction false} SettingsAgain(settings: map<string, SettingRow>, rows: seq<(string, SettingRow)>, n: nat)
    requires n <= |rows|
    requires forall i :: 0 <= i < |rows| ==> SettingSettled(settings, rows[i].0, rows[i].1)
    ensures RestoreSettings(settings, rows, MergeInto, n) == settings
  {
    hide RestoreSetting, SettingSettled;
    if n > 0 {
      SettingsAgain(settings, rows, n - 1);
      SettingRests(settings, rows[n - 1].0, rows[n - 1].1);
    }
  }

  // ---------------------------------------------------------------------------
  // Twice is once
  // ---------------------------------------------------------------------------

  /** `r` has the facts that the restore gives. */
  ghost predicate FactsOf(store: Store, data: Backup, p: Parents, r: Store)
  {
    var books, ids := p.books.books, p.books.ids;
    && Load(store.isbns, RemapIsbns(data.isbns, ids), IsbnRefers(books)) == Some(r.isbns)
    && LinksHold(store.bookShelves, RemapLinks(data.bookShelves, ids, p.shelves.ids), books, p.shelves.table)
    && LinksHold(store.bookTags, RemapLinks(data.bookTags, ids, p.tags.ids), books, p.tags.table)
    && Load(store.sessions, RemapSessions(data.sessions, ids), SessionRefers(books)) == Some(r.sessions)
    && Load(store.progress, RemapProgress(data.progress, ids), EntryRefers(books, r.sessions)) == Some(r.progress)
    && r.bookTags == store.bookTags + RemapLinks(data.bookTags, ids, p.tags.ids)
    && r.bookShelves == store.bookShelves + RemapLinks(data.bookShelves, ids, p.shelves.ids)
  }

  /** `r` has the clocks, notes, reviews and settings that the restore gives. */
  ghost predicate WrittenOf(store: Store, data: Backup, mode: RestoreMode, p: Parents, r: Store)
  {
    var books, ids := p.books.books, p.books.ids;
    && r.clocks == RestoreClocks(store.clocks, data.clocks, ids, |data.clocks|)
    && RestoreRemarks(store.notes, data.notes, NoteEntity, r.clocks, data, ids, books, mode, |data.notes|) ==
      RemarkStage(r.notes, true)
    && RestoreRemarks(store.reviews, data.reviews, ReviewEntity, r.clocks, data, ids, books, mode, |data.reviews|) ==
      RemarkStage(r.reviews, true)
    && r.settings == RestoreSettings(store.settings, data.settings, mode, |data.settings|)
  }

  ghost predicate ParentsOf(p: Parents, r: Store)
  {
    r.books == p.books.books && r.provenance == p.books.provenance && r.tags == p.tags.table
      && r.shelves == p.shelves.table
  }

  /** `r` has the tables that the restore gives below the parents. */
  ghost predicate ChildrenOf(store: Store, data: Backup, mode: RestoreMode, p: Parents, r: Store)
  {
    && ParentsOf(p, r) && FactsOf(store, data, p, r) && WrittenOf(store, data, mode, p, r)
    && RestoreCatalog(store.catalog, data.catalog, p.books.ids, p.books.books.Keys) == Some(r.catalog)
  }

  lemma ChildrenUnfold(store: Store, data: Backup, mode: RestoreMode, p: Parents, r: Store)
    ensures RestoreChildren(store, data, mode, p) == Some(r) <==> ChildrenOf(store, data, mode, p, r)
  {
    hide RestoreFacts, RestoreWritten, RestoreCatalog, FactsOf, WrittenOf;
    FactsUnfold(store, data, p, r);
    WrittenUnfold(store, data, mode, p, r);
  }

  lemma FactsUnfold(store: Store, data: Backup, p: Parents, r: Store)
    ensures var facts := Facts(r.isbns, r.bookTags, r.bookShelves, r.sessions, r.progress);
      RestoreFacts(store, data, p) == Some(facts) <==> FactsOf(store, data, p, r)
  {
    hide Load, LinksHold, RemapLinks, RemapIsbns, RemapSessions, RemapProgress, IsbnRefers, SessionRefers, EntryRefers;
  }

  lemma WrittenUnfold(store: Store, data: Backup, mode: RestoreMode, p: Parents, r: Store)
    ensures var written := Written(r.clocks, r.notes, r.reviews, r.settings);
      RestoreWritten(store, data, mode, p.books.ids, p.books.books) == Some(written)
      <==> WrittenOf(store, data, mode, p, r)
  {
    hide RestoreClocks, RestoreRemarks, RestoreSettings;
  }

  /** The parents as a second restore finds and leaves them. */
  function ParentsAgain(r: Store, p: Parents): Parents
  {
    Parents(BookStage(r.books, r.provenance, p.books.ids, true), NameStage(r.tags, p.tags.ids, true),
            NameStage(r.shelves, p.shelves.ids, true))
  }

  lemma FactsAgain(store: Store, data: Backup, p: Parents, r: Store)
    requires ParentsOf(p, r) && FactsOf(store, data, p, r)
    ensures FactsOf(r, data, ParentsAgain(r, p), r)
  {
    hide Load, RemapLinks, RemapIsbns, RemapSessions, RemapProgress, IsbnRefers, SessionRefers, EntryRefers, IdTaken;
    var ids, books := p.books.ids, p.books.books;
    LoadTwice(store.isbns, RemapIsbns(data.isbns, ids), IsbnRefers(books), r.isbns);
    LoadTwice(store.sessions, RemapSessions(data.sessions, ids), SessionRefers(books), r.sessions);
    LoadTwice(store.progress, RemapProgress(data.progress, ids), EntryRefers(books, r.sessions), r.progress);
  }

  lemma RemarksTwice(store: Store, data: Backup, p: Parents, r: Store)
    requires ParentsOf(p, r) && WrittenOf(store, data, MergeInto, p, r)
    ensures RestoreClocks(r.clocks, data.clocks, p.books.ids, |data.clocks|) == r.clocks
    ensures RestoreRemarks(r.notes, data.notes, NoteEntity, r.clocks, data, p.books.ids, r.books, MergeInto,
                           |data.notes|) == RemarkStage(r.notes, true)
    ensures RestoreRemarks(r.reviews, data.reviews, ReviewEntity, r.clocks, data, p.books.ids, r.books, MergeInto,
                           |data.reviews|) == RemarkStage(r.reviews, true)
  {
    hide RestoreRemarks, RestoreSettings, RestoreClocks, ClockReached, RemarkSettled;
    var ids := p.books.ids;
    ClocksReached(store.clocks, data.clocks, ids, |data.clocks|);
    ClocksAgain(r.clocks, data.clocks, ids, |data.clocks|);
    assert RemarkClocksReached(r.clocks, data.clocks);
    RemarksSettle(store.notes, data.notes, NoteEntity, r.clocks, data, ids, r.books, |data.notes|);
    RemarksAgain(r.notes, data.notes, NoteEntity, r.clocks, data, ids, r.books, |data.notes|);
    RemarksSettle(store.reviews, data.reviews, ReviewEntity, r.clocks, data, ids, r.books, |data.reviews|);
    RemarksAgain(r.reviews, data.reviews, ReviewEntity, r.clocks, data, ids, r.books, |data.reviews|);
  }

  lemma SettingsTwice(store: Store, src: Store, data: Backup, p: Parents, r: Store)
    requires WrittenOf(store, data, MergeInto, p, r)
    requires SettingIdsUnique(store.settings) && Lists(data.settings, src.settings)
    ensures RestoreSettings(r.settings, data.settings, MergeInto, |data.settings|) == r.settings
  {
    hide RestoreRemarks, RestoreClocks, RestoreSettings, SettingSettled, SettingIdsUnique;
    SettingsSettle(store.settings, data.settings, |data.settings|);
    SettingsAgain(r.settings, data.settings, |data.settings|);
  }

  lemma ChildrenAgain(store: Store, src: Store, data: Backup, p: Parents, r: Store)
    requires ChildrenOf(store, data, MergeInto, p, r)
    requires SettingIdsUnique(store.settings) && Lists(data.settings, src.settings)
    ensures ChildrenOf(r, data, MergeInto, ParentsAgain(r, p), r)
  {
    hide FactsOf, RestoreCatalog, RestoreClocks, RestoreRemarks, RestoreSettings, SettingIdsUnique, Lists;
    FactsAgain(store, data, p, r);
    RemarksTwice(store, data, p, r);
    SettingsTwice(store, src, data, p, r);
    CatalogTwice(store.catalog, data.catalog, p.books.ids, p.books.books.Keys, r.catalog);
  }

  lemma IsbnsAreRestored(store: Store, src: Store, data: Backup, ids: IdMap, refers: (string, Id) -> bool,
                         isbns: map<string, Id>)
    requires Lists(data.isbns, src.isbns) && Load(store.isbns, RemapIsbns(data.isbns, ids), refers) == Some(isbns)
    ensures IsbnsRestored(store, data, ids, isbns)
  {
    hide Load;
    var rows := RemapIsbns(data.isbns, ids);
    LoadFacts(store.isbns, rows, refers, isbns);
    forall i | 0 <= i < |data.isbns| ensures data.isbns[i].0 in isbns {
      assert rows[i].0 in isbns;
    }
    forall i | 0 <= i < |data.isbns| && data.isbns[i].0 !in store.isbns
      ensures isbns[data.isbns[i].0] == Resolve(ids, data.isbns[i].1)
    {
      var j :| 0 <= j < |rows| && rows[j].0 == data.isbns[i].0 && rows[j].1 == isbns[data.isbns[i].0];
      assert i == j;
    }
  }

  lemma ExportListsBooks(src: Store, data: Backup)
    requires ConsistentStore(src) && ExportOf(src, data)
    ensures ListsBooks(src, data)
  {
    hide NamesUnique, EndsStored, SessionsRefer, ProgressRefer, RemarksRefer, SettingIdsUnique, Lists, ListsNames;
    hide ListsLinks;
  }

  /** Restoring the same backup a second time changes nothing: every book, tag and shelf finds the row it
      was matched with, and no clock of the backup is newer than the one already stored. */
  lemma RestoreTwice(store: Store, src: Store, data: Backup, r: Store)
    requires ConsistentStore(store) && ConsistentStore(src) && ExportOf(src, data)
    requires Restore(store, data, MergeInto) == Some(r)
    ensures Restore(r, data, MergeInto) == Some(r)
  {
    hide RestoreBooks, RestoreNames, RestoreChildren, Lists, ListsNames, ListsLinks, HasBooks, AllStars, NamesUnique;
    hide EndsStored;
    hide SessionsRefer, ProgressRefer, RemarksRefer, SettingIdsUnique, SourceIdsUnique;
    var p := RestoreParents(store, data, MergeInto);
    ChildrenUnfold(store, data, MergeInto, p, r);
    ExportListsBooks(src, data);
    BookPartTwice(store, src, data, p, r);
    NamesAgain(store.tags, data.tags, |data.tags|);
    NamesAgain(store.shelves, data.shelves, |data.shelves|);
    assert RestoreParents(r, data, MergeInto) == ParentsAgain(r, p);
    ChildrenAgain(store, src, data, p, r);
    ChildrenUnfold(r, data, MergeInto, ParentsAgain(r, p), r);
  }

  lemma BookPartTwice(store: Store, src: Store, data: Backup, p: Parents, r: Store)
    requires HasBooks(store) && ListsBooks(src, data)
    requires p.books == RestoreBooks(store, data, MergeInto, |data.books|) && ChildrenOf(store, data, MergeInto, p, r)
    ensures RestoreBooks(r, data, MergeInto, |data.books|) == BookStage(r.books, r.provenance, p.books.ids, true)
  {
    hide RestoreBook, Load, LinksHold, RestoreRemarks, RestoreSettings, RemapLinks, RestoreClocks, IsbnsRestored;
    hide RemapIsbns;
    hide RemapSessions, RemapProgress, HasBooks, SourceIdsUnique, AllStars;
    IsbnsAreRestored(store, src, data, p.books.ids, IsbnRefers(p.books.books), r.isbns);
    SecondPass(store, src, data, r, |data.books|);
  }
}
