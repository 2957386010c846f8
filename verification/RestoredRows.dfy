/** What a merge restore leaves in every clock, note, review and setting row. */
module RestoredRows {
  import opened Wrappers
  import opened Text
  import opened Library
  import opened MergeRules
  import opened Snapshots
  import opened Catalogs
  import opened Backups
  import opened RestoredBooks
  import opened RestoreTheorem

  function Stored<K(==), V>(table: map<K, V>, key: K): Option<V>
  {
    if key in table then Some(table[key]) else None
  }

  // ---------------------------------------------------------------------------
  // Notes and reviews
  // ---------------------------------------------------------------------------

  /** The backup has a clock for the content of the note or review. */
  predicate HasContentClock(data: Backup, entity: EntityType, id: Id)
  {
    exists i :: 0 <= i < |data.clocks| && data.clocks[i].0 == ClockKey(entity, id, Content)
  }

  lemma {:induction false} BackupClockFound(rows: seq<(ClockKey, FieldClock)>, ck: ClockKey, i: nat)
    requires i <= |rows|
    ensures BackupClock(rows, ck, i).Some? <==> exists j :: i <= j < |rows| && rows[j].0 == ck
    decreases |rows| - i
  {
    if i < |rows| && rows[i].0 != ck {
      BackupClockFound(rows, ck, i + 1);
    }
  }

  /** A note or review after the restore of the backup's row for it. */
  function RemarkAfter(table: map<Id, Remark>, id: Id, row: Remark, entity: EntityType, data: Backup,
                       ids: IdMap): Remark
  {
    if id !in table then row.(bookId := Resolve(ids, row.bookId))
    else if !HasContentClock(data, entity, id) && Less(table[id].updatedAt, row.updatedAt)
    then row.(bookId := table[id].bookId, createdAt := table[id].createdAt)
    else table[id]
  }

  /** The rows before `n` are restored, the others are as they were. */
  ghost predicate RemarksDone(table: map<Id, Remark>, rows: Rows<Remark>, entity: EntityType, data: Backup, ids: IdMap,
                              r: map<Id, Remark>, n: nat)
    requires n <= |rows|
  {
    && (forall i :: 0 <= i < n ==>
        Stored(r, rows[i].0) == Some(RemarkAfter(table, rows[i].0, rows[i].1, entity, data, ids)))
    && (forall id :: (forall i :: 0 <= i < n ==> rows[i].0 != id) ==> Stored(r, id) == Stored(table, id))
  }

  /** What one row does to the table. */
  lemma RemarkEffect(r: map<Id, Remark>, id: Id, row: Remark, entity: EntityType, clocks: ClockTable, data: Backup,
                     ids: IdMap, books: map<Id, FullBook>)
    requires RemarkClocksReached(clocks, data.clocks) && entity != BookEntity
    requires RestoreRemark(RemarkStage(r, true), id, row, entity, clocks, data, ids, books, MergeInto).ok
    ensures var s := RestoreRemark(RemarkStage(r, true), id, row, entity, clocks, data, ids, books, MergeInto).table;
      && Stored(s, id) == Some(RemarkAfter(r, id, row, entity, data, ids))
      && (forall k :: k != id ==> Stored(s, k) == Stored(r, k))
  {
    hide BackupClock, Less, RemarkClocksReached, Overwrites, ClockIn;
    BackupClockFound(data.clocks, ClockKey(entity, id, Content), 0);
    hide HasContentClock;
    if id in r {
      OverwriteNeedsNoClock(clocks, data.clocks, entity, id, r[id], row);
    }
  }

  lemma RemarkDone(table: map<Id, Remark>, rows: Rows<Remark>, entity: EntityType, clocks: ClockTable, data: Backup,
                   ids: IdMap, books: map<Id, FullBook>, r: map<Id, Remark>, n: nat)
    requires n < |rows| && RemarkClocksReached(clocks, data.clocks) && entity != BookEntity
    requires RemarksDone(table, rows, entity, data, ids, r, n)
    requires forall i, j :: 0 <= i < j < |rows| ==> rows[i].0 != rows[j].0
    requires RestoreRemark(RemarkStage(r, true), rows[n].0, rows[n].1, entity, clocks, data, ids, books, MergeInto).ok
    ensures RemarksDone(table, rows, entity, data, ids,
                        RestoreRemark(RemarkStage(r, true), rows[n].0, rows[n].1, entity, clocks, data, ids, books,
                                      MergeInto).table, n + 1)
  {
    hide RemarkClocksReached, RestoreRemark, HasContentClock, Less;
    var id, row := rows[n].0, rows[n].1;
    RemarkEffect(r, id, row, entity, clocks, data, ids, books);
    assert forall i :: 0 <= i < n ==> rows[i].0 != id;
    assert Stored(r, id) == Stored(table, id);
    assert RemarkAfter(r, id, row, entity, data, ids) == RemarkAfter(table, id, row, entity, data, ids);
    hide RemarkAfter, Stored;
    OneMoreDone(table, rows, entity, data, ids, r,
                RestoreRemark(RemarkStage(r, true), id, row, entity, clocks, data, ids, books, MergeInto).table, n);
  }

  lemma OneMoreDone(table: map<Id, Remark>, rows: Rows<Remark>, entity: EntityType, data: Backup, ids: IdMap,
                    r: map<Id, Remark>, s: map<Id, Remark>, n: nat)
    requires n < |rows| && RemarksDone(table, rows, entity, data, ids, r, n)
    requires forall i, j :: 0 <= i < j < |rows| ==> rows[i].0 != rows[j].0
    requires Stored(s, rows[n].0) == Some(RemarkAfter(table, rows[n].0, rows[n].1, entity, data, ids))
    requires forall k :: k != rows[n].0 ==> Stored(s, k) == Stored(r, k)
    ensures RemarksDone(table, rows, entity, data, ids, s, n + 1)
  {
    hide RemarkAfter, Stored;
    forall k | (forall i :: 0 <= i < n + 1 ==> rows[i].0 != k) ensures Stored(s, k) == Stored(table, k) {
      assert rows[n].0 != k;
      assert forall i :: 0 <= i < n ==> rows[i].0 != k;
    }
  }

  /** After a merge restore every note or review of the backup is there: new ones as backed up, on the
      matched book; existing ones overwritten exactly when the backup has no content clock for them and a
      later update time. All others are untouched. */
  lemma {:induction false} RemarksAfterRestore(table: map<Id, Remark>, src: map<Id, Remark>, rows: Rows<Remark>,
                                               entity: EntityType,
                                               clocks: ClockTable, data: Backup, ids: IdMap,
                                               books: map<Id, FullBook>, n: nat)
    requires n <= |rows| && Lists(rows, src) && RemarkClocksReached(clocks, data.clocks) && entity != BookEntity
    requires RestoreRemarks(table, rows, entity, clocks, data, ids, books, MergeInto, n).ok
    ensures RemarksDone(table, rows, entity, data, ids,
                        RestoreRemarks(table, rows, entity, clocks, data, ids, books, MergeInto, n).table, n)
  {
    hide RestoreRemark, RemarkClocksReached, RemarksDone;
    if n == 0 {
      NothingDone(table, rows, entity, data, ids);
    } else {
      var before := RestoreRemarks(table, rows, entity, clocks, data, ids, books, MergeInto, n - 1);
      RemarkOkBefore(before, rows[n - 1].0, rows[n - 1].1, entity, clocks, data, ids, books);
      RemarksAfterRestore(table, src, rows, entity, clocks, data, ids, books, n - 1);
      RemarkDone(table, rows, entity, clocks, data, ids, books, before.table, n - 1);
    }
  }

  lemma NothingDone(table: map<Id, Remark>, rows: Rows<Remark>, entity: EntityType, data: Backup, ids: IdMap)
    ensures RemarksDone(table, rows, entity, data, ids, table, 0)
  {
  }

  // ---------------------------------------------------------------------------
  // Settings
  // ---------------------------------------------------------------------------

  /** A setting after the restore of the backup's row for it: last write wins; a new one is stored unless
      its id belongs to another key. */
  function SettingAfter(settings: map<string, SettingRow>, key: string, row: SettingRow): Option<SettingRow>
  {
    if key in settings then
      if row.syncHlc.Some? && Newer(row.syncHlc.value, settings[key].syncHlc)
      then Some(row.(id := settings[key].id)) else Some(settings[key])
    else if SettingIdTaken(settings, row.id) then None
    else Some(row)
  }

  ghost predicate SettingsDone(settings: map<string, SettingRow>, rows: seq<(string, SettingRow)>,
                               r: map<string, SettingRow>, n: nat)
    requires n <= |rows|
  {
    && (forall i :: 0 <= i < n ==> Stored(r, rows[i].0) == SettingAfter(settings, rows[i].0, rows[i].1))
    && (forall key :: (forall i :: 0 <= i < n ==> rows[i].0 != key) ==> Stored(r, key) == Stored(settings, key))
    && (forall id :: SettingIdTaken(settings, id) ==> SettingIdTaken(r, id))
    && (forall id :: SettingIdTaken(r, id) ==>
        SettingIdTaken(settings, id) || exists i :: 0 <= i < n && rows[i].1.id == id)
  }

  /** What one setting row does to the stored rows and the taken ids. */
  lemma SettingEffect(r: map<string, SettingRow>, key: string, row: SettingRow)
    ensures var s := RestoreSetting(r, key, row, MergeInto);
      && Stored(s, key) == SettingAfter(r, key, row)
      && (forall k :: k != key ==> Stored(s, k) == Stored(r, k))
      && (forall id :: SettingIdTaken(r, id) ==> SettingIdTaken(s, id))
      && (forall id :: SettingIdTaken(s, id) ==> SettingIdTaken(r, id) || id == row.id)
  {
    hide Newer;
    var s := RestoreSetting(r, key, row, MergeInto);
    forall id | SettingIdTaken(r, id) ensures SettingIdTaken(s, id) {
      var k :| k in r && r[k].id == id;
      assert s[k].id == id;
    }
    forall id | SettingIdTaken(s, id) && id != row.id ensures SettingIdTaken(r, id) {
      var k :| k in s && s[k].id == id;
      assert k in r && r[k].id == id;
    }
  }

  lemma SettingDone(settings: map<string, SettingRow>, rows: seq<(string, SettingRow)>, r: map<string, SettingRow>,
                    n: nat)
    requires n < |rows| && SettingsDone(settings, rows, r, n)
    requires forall i, j :: 0 <= i < j < |rows| ==> rows[i].0 != rows[j].0 && rows[i].1.id != rows[j].1.id
    ensures SettingsDone(settings, rows, RestoreSetting(r, rows[n].0, rows[n].1, MergeInto), n + 1)
  {
    hide SettingIdTaken, RestoreSetting, Newer;
    var key, row, s := rows[n].0, rows[n].1, RestoreSetting(r, rows[n].0, rows[n].1, MergeInto);
    SettingEffect(r, key, row);
    assert Stored(r, key) == Stored(settings, key);
    assert SettingIdTaken(r, row.id) <==> SettingIdTaken(settings, row.id);
    assert SettingAfter(r, key, row) == SettingAfter(settings, key, row);
    forall k | (forall i :: 0 <= i < n + 1 ==> rows[i].0 != k) ensures Stored(s, k) == Stored(settings, k) {
      assert rows[n].0 != k;
      assert forall i :: 0 <= i < n ==> rows[i].0 != k;
    }
    forall id | SettingIdTaken(s, id)
      ensures SettingIdTaken(settings, id) || exists i :: 0 <= i < n + 1 && rows[i].1.id == id
    {
      if SettingIdTaken(r, id) {
        if !SettingIdTaken(settings, id) {
          var i :| 0 <= i < n && rows[i].1.id == id;
          assert 0 <= i < n + 1;
        }
      } else {
        assert rows[n].1.id == id;
      }
    }
  }

  /** After a merge restore each setting of the backup is decided by last write wins on its key. */
  lemma {:induction false} SettingsAfterRestore(settings: map<string, SettingRow>, rows: seq<(string, SettingRow)>,
                                                n: nat)
    requires n <= |rows|
    requires forall i, j :: 0 <= i < j < |rows| ==> rows[i].0 != rows[j].0 && rows[i].1.id != rows[j].1.id
    ensures SettingsDone(settings, rows, RestoreSettings(settings, rows, MergeInto, n), n)
  {
    hide RestoreSetting, SettingIdTaken, SettingAfter, SettingsDone;
    if n == 0 {
      assert SettingsDone(settings, rows, settings, 0) by { NoSettingDone(settings, rows); }
    } else {
      SettingsAfterRestore(settings, rows, n - 1);
      SettingDone(settings, rows, RestoreSettings(settings, rows, MergeInto, n - 1), n - 1);
    }
  }

  lemma NoSettingDone(settings: map<string, SettingRow>, rows: seq<(string, SettingRow)>)
    ensures SettingsDone(settings, rows, settings, 0)
  {
  }

  // ---------------------------------------------------------------------------
  // Clocks
  // ---------------------------------------------------------------------------

  /** A restored clock row is one of the library or of the backup, with its device. */
  lemma {:induction false} ClocksComeFromRows(clocks: ClockTable, rows: seq<(ClockKey, FieldClock)>, ids: IdMap, n: nat,
                                              ck: ClockKey)
    requires n <= |rows| && ck in RestoreClocks(clocks, rows, ids, n)
    ensures (ck in clocks && RestoreClocks(clocks, rows, ids, n)[ck] == clocks[ck]) ||
      exists i :: 0 <= i < n && RemapClock(rows[i].0, ids) == ck && RestoreClocks(clocks, rows, ids, n)[ck] == rows[i].1
  {
    hide RemapClock, Less;
    if n > 0 {
      var before := RestoreClocks(clocks, rows, ids, n - 1);
      if ck in before && RestoreClocks(clocks, rows, ids, n)[ck] == before[ck] {
        ClocksComeFromRows(clocks, rows, ids, n - 1, ck);
      } else {
        assert RemapClock(rows[n - 1].0, ids) == ck;
      }
    }
  }

  /** So every clock ends at the greatest of the library's and the backup's for it. */
  lemma ClocksAfterRestore(clocks: ClockTable, rows: seq<(ClockKey, FieldClock)>, ids: IdMap, ck: ClockKey)
    requires ck in RestoreClocks(clocks, rows, ids, |rows|)
    ensures var c := RestoreClocks(clocks, rows, ids, |rows|)[ck];
      && (ck in clocks ==> !Less(c.hlc, clocks[ck].hlc))
      && (forall i :: 0 <= i < |rows| && RemapClock(rows[i].0, ids) == ck ==> !Less(c.hlc, rows[i].1.hlc))
      && ((ck in clocks && c == clocks[ck]) || exists i ::
          0 <= i < |rows| && RemapClock(rows[i].0, ids) == ck && c == rows[i].1)
  {
    hide RestoreClocks, RemapClock, Less;
    ClocksReached(clocks, rows, ids, |rows|);
    ClocksComeFromRows(clocks, rows, ids, |rows|, ck);
  }

  // ---------------------------------------------------------------------------
  // The restored library
  // ---------------------------------------------------------------------------

  /** Row by row, what a successful merge restore makes of notes, reviews and settings. */
  lemma RestoredLibraryRows(store: Store, src: Store, data: Backup, r: Store)
    requires ConsistentStore(src) && ExportOf(src, data) && Restore(store, data, MergeInto) == Some(r)
    ensures var ids := RestoreBooks(store, data, MergeInto, |data.books|).ids;
      && RemarksDone(store.notes, data.notes, NoteEntity, data, ids, r.notes, |data.notes|)
      && RemarksDone(store.reviews, data.reviews, ReviewEntity, data, ids, r.reviews, |data.reviews|)
      && SettingsDone(store.settings, data.settings, r.settings, |data.settings|)
  {
    hide RestoreBooks, RestoreNames, RestoreChildren, RestoreRemarks, RestoreSettings, RemarksDone, SettingsDone;
    hide Load, LinksHold, RestoreClocks, RemapLinks, RemapIsbns, RemapSessions, RemapProgress, ClockReached, ListsNames;
    hide ListsLinks;
    hide HasBooks, AllStars, NamesUnique, EndsStored, SessionsRefer, ProgressRefer, RemarksRefer;
    var p := RestoreParents(store, data, MergeInto);
    ChildrenUnfold(store, data, MergeInto, p, r);
    ClocksReached(store.clocks, data.clocks, p.books.ids, |data.clocks|);
    ClocksCoverRemarks(r.clocks, data, p.books.ids);
    RemarksAfterRestore(store.notes, src.notes, data.notes, NoteEntity, r.clocks, data, p.books.ids, r.books,
                        |data.notes|);
    RemarksAfterRestore(store.reviews, src.reviews, data.reviews, ReviewEntity, r.clocks, data, p.books.ids, r.books,
                        |data.reviews|);
    SettingRowsAreDistinct(src, data);
    SettingsAfterRestore(store.settings, data.settings, |data.settings|);
  }

  lemma ClocksCoverRemarks(clocks: ClockTable, data: Backup, ids: IdMap)
    requires forall i :: 0 <= i < |data.clocks| ==>
      ClockReached(clocks, RemapClock(data.clocks[i].0, ids), data.clocks[i].1.hlc)
    ensures RemarkClocksReached(clocks, data.clocks)
  {
    hide ClockReached;
  }

  lemma SettingRowsAreDistinct(src: Store, data: Backup)
    requires Lists(data.settings, src.settings) && SettingIdsUnique(src.settings)
    ensures forall i, j :: 0 <= i < j < |data.settings| ==>
      data.settings[i].0 != data.settings[j].0 && data.settings[i].1.id != data.settings[j].1.id
  {
  }
}
