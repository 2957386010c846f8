/** Where a backup's clocks go, and what a replacing restore leaves alone. */
module RestoredClocks {
  import opened Text
  import opened Library
  import opened MergeRules
  import opened Snapshots
  import opened Catalogs
  import opened Backups
  import opened RestoreTheorem

  /** A clock of a book moves with the book; any other keeps its entity. */
  predicate IsTarget(ck: ClockKey, row: ClockKey, ids: IdMap)
  {
    && ck.entity == row.entity && ck.field == row.field
    && ck.id == if row.entity == BookEntity && row.id in ids then ids[row.id] else row.id
  }

  /** Where a row goes, there is a clock at least as great afterwards; a clock that no row goes to stays. */
  lemma ClocksMoveWithBooks(clocks: ClockTable, rows: seq<(ClockKey, FieldClock)>, ids: IdMap, ck: ClockKey, n: nat)
    requires n <= |rows|
    ensures var r := RestoreClocks(clocks, rows, ids, n);
      && (forall i :: 0 <= i < n && IsTarget(ck, rows[i].0, ids) ==> ck in r && !Less(r[ck].hlc, rows[i].1.hlc))
      && ((forall i :: 0 <= i < n ==> !IsTarget(ck, rows[i].0, ids)) ==> Kept(clocks, r, ck))
  {
    ClocksReached(clocks, rows, ids, n);
    forall i | 0 <= i < n ensures RemapClock(rows[i].0, ids) == ck <==> IsTarget(ck, rows[i].0, ids) {
    }
    hide RemapClock, IsTarget, Less, RestoreClocks, Kept;
    if forall i :: 0 <= i < n ==> RemapClock(rows[i].0, ids) != ck {
      OthersKept(clocks, rows, ids, ck, n);
    }
  }

  predicate Kept(a: ClockTable, b: ClockTable, ck: ClockKey)
  {
    (ck in a <==> ck in b) && (ck in a ==> a[ck] == b[ck])
  }

  lemma {:induction false} OthersKept(clocks: ClockTable, rows: seq<(ClockKey, FieldClock)>, ids: IdMap, ck: ClockKey,
                                      n: nat)
    requires n <= |rows| && forall i :: 0 <= i < n ==> RemapClock(rows[i].0, ids) != ck
    ensures Kept(clocks, RestoreClocks(clocks, rows, ids, n), ck)
  {
    hide RemapClock, Less;
    if n > 0 {
      OthersKept(clocks, rows, ids, ck, n - 1);
    }
  }

  /** A replacing restore overwrites no note, review or setting that is already there. */
  lemma {:induction false} ReplaceOverwritesNothing(table: map<Id, Remark>, rows: Rows<Remark>, entity: EntityType,
                                                    clocks: ClockTable, data: Backup, ids: IdMap,
                                                    books: map<Id, FullBook>, n: nat)
    requires n <= |rows|
    ensures var r := RestoreRemarks(table, rows, entity, clocks, data, ids, books, Replace, n).table;
      forall id :: id in table ==> id in r && r[id] == table[id]
  {
    hide Overwrites, BackupClock, ClockIn;
    if n > 0 {
      ReplaceOverwritesNothing(table, rows, entity, clocks, data, ids, books, n - 1);
    }
  }

  lemma {:induction false} ReplaceKeepsSettings(settings: map<string, SettingRow>, rows: seq<(string, SettingRow)>,
                                                n: nat)
    requires n <= |rows|
    ensures var r := RestoreSettings(settings, rows, Replace, n);
      forall key :: key in settings ==> key in r && r[key] == settings[key]
  {
    hide SettingIdTaken, Newer;
    if n > 0 {
      ReplaceKeepsSettings(settings, rows, n - 1);
    }
  }
}
