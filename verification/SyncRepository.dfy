/** The sync repository: the device identity and the op log, kept beside the library tables. */
module SyncRepositories {
  import opened Wrappers
  import opened Text
  import opened Hlc
  import opened HybridClocks
  import opened Library
  import opened MergeRules
  import opened Database
  import opened SyncLog

  /** Raises the provenance clocks of the named fields. A clock that is not older stays. */
  function Raise(clocks: map<Key, Option<string>>, names: set<Key>, hlc: string): map<Key, Option<string>>
  {
    map k | k in clocks.Keys + names ::
      if k in names && (k !in clocks || Newer(hlc, clocks[k])) then Some(hlc) else clocks[k]
  }

  /** One upsert: inserts the row, or advances a clock that is missing or older. */
  function RaiseField(clocks: map<Key, Option<string>>, name: Key, hlc: string): map<Key, Option<string>>
  {
    if name !in clocks || Newer(hlc, clocks[name]) then clocks[name := Some(hlc)] else clocks
  }

  lemma RaiseGrows(clocks: map<Key, Option<string>>, names: set<Key>, left: set<Key>, name: Key, hlc: string)
    requires left <= names && name in left
    ensures Raise(clocks, names - (left - {name}), hlc) == RaiseField(Raise(clocks, names - left, hlc), name, hlc)
  {
    hide Newer;
    var c, d := Raise(clocks, names - left, hlc), Raise(clocks, names - (left - {name}), hlc);
    assert name in c <==> name in clocks;
    var e := RaiseField(c, name, hlc);
    assert d.Keys == e.Keys;
    forall k | k in d ensures d[k] == e[k] {
      if k != name {
        assert k in names - (left - {name}) <==> k in names - left;
      }
    }
  }

  lemma RaiseNothing(clocks: map<Key, Option<string>>, names: set<Key>, hlc: string)
    ensures Raise(clocks, names - names, hlc) == clocks
    ensures names - {} == names
  {
  }

  class SyncRepository {
    const db: Database
    var device: Option<Id>
    var log: Log

    constructor (db: Database)
      ensures this.db == db && device == None && log == []
    {
      this.db, device, log := db, None, [];
    }

    /** `get_or_create_device_with_id`. */
    method GetOrCreateDevice(id: Id) returns (identity: Id)
      modifies this`device
      ensures device == Some(identity) && identity == (if old(device).Some? then old(device).value else id)
    {
      if device.Some? {
        return device.value;
      }
      device := Some(id);
      identity := id;
    }

    /** `next_local_hlc`: a new clock, moved past the greatest clock in the log. */
    method NextLocalHlc(deviceId: Id, wall: nat) returns (hlc: HlcTimestamp)
      ensures hlc == NextHlc(log, DevicePrefix(deviceId), wall)
    {
      var clock := new HybridClock(WithoutHyphens(deviceId));
      var maxHlc := MaxHlc(log);
      if maxHlc.Some? {
        var remote := FromStr(maxHlc.value);
        if remote.Some? {
          hlc := clock.UpdateAt(remote.value, wall);
          return;
        }
      }
      hlc := clock.NowAt(wall);
    }

    /** `emit_local_op`: nothing without a device identity. For a book the provenance rows come first;
        they need the book to exist. */
    method EmitLocalOp(d: Draft, wall: nat) returns (ok: bool)
      modifies this`log, db`books
      ensures old(device).None? ==> ok && log == old(log) && db.books == old(db.books)
      ensures old(device).Some? ==>
        var op := LocalOp(old(log), old(device).value, d, wall);
        var keyed := d.entity == BookEntity && d.opType != Delete && d.fields.Some? && d.fields.value != map[];
        && ok == ((keyed ==> d.entityId in old(db.books)) && !HasOp(old(log), d.opId))
        && (ok ==> log == Emit(old(log), old(device).value, d, wall))
        && (!ok ==> log == old(log))
        && (keyed && d.entityId in old(db.books) ==>
            db.books == old(db.books)[d.entityId :=
              old(db.books)[d.entityId].(clocks := Raise(old(db.books)[d.entityId].clocks, d.fields.value.Keys,
                                                         op.hlc))])
        && (!keyed ==> db.books == old(db.books))
    {
      if device.None? {
        return true;
      }
      hide NextHlc, DevicePrefix, ToCanonical;
      var hlc := NextLocalHlc(device.value, wall);
      var text := ToCanonical(hlc);
      if d.entity == BookEntity && d.opType != Delete && d.fields.Some? && d.fields.value != map[] {
        if d.entityId !in db.books {
          return false;
        }
        UpsertBookProvenance(d.entityId, d.fields.value.Keys, text);
      }
      var op := Op(d.opId, device.value, text, d.entity, d.entityId, d.opType, d.fields, d.createdAt);
      if HasOp(log, d.opId) {
        return false;
      }
      log := log + [LogRow(op, false)];
      ok := true;
    }

    /** `upsert_book_provenance` for each of the field names, in any order. */
    method UpsertBookProvenance(book: Id, names: set<Key>, hlc: string)
      requires book in db.books
      modifies db`books
      ensures db.books ==
        old(db.books)[book := old(db.books)[book].(clocks := Raise(old(db.books)[book].clocks, names, hlc))]
    {
      hide Raise, RaiseField;
      var clocks := db.books[book].clocks;
      ghost var start := clocks;
      var left := names;
      RaiseNothing(start, names, hlc);
      while left != {}
        invariant left <= names
        invariant clocks == Raise(start, names - left, hlc)
        invariant db.books == old(db.books)
        decreases |left|
      {
        var name :| name in left;
        RaiseGrows(start, names, left, name, hlc);
        clocks := RaiseField(clocks, name, hlc);
        left := left - {name};
      }
      db.books := db.books[book := db.books[book].(clocks := clocks)];
    }

    /** `insert_remote_op`. */
    method InsertRemoteOp(op: Op)
      modifies this`log
      ensures log == Receive(old(log), op)
    {
      if !HasOp(log, op.opId) {
        log := log + [LogRow(op, true)];
      }
    }

    /** `get_unpushed_ops`. */
    method GetUnpushedOps() returns (ops: seq<Op>)
      ensures ops == SortByHlc(Unpushed(log))
      ensures LocalsAscend(log) ==> ops == Unpushed(log)
    {
      if LocalsAscend(log) {
        UnpushedAscend(log);
        AscendingIsSorted(Unpushed(log));
      }
      ops := SortByHlc(Unpushed(log));
    }

    /** `mark_ops_pushed`: an empty list runs no statement; otherwise every named row is updated. */
    method MarkOpsPushed(ids: set<Id>) returns (count: nat)
      modifies this`log
      ensures log == MarkPushed(old(log), ids)
      ensures Unpushed(log) == Without(old(Unpushed(log)), ids)
      ensures count == |set i | 0 <= i < |old(log)| && old(log)[i].op.opId in ids|
    {
      MarkedLeaveQueue(log, ids);
      count := |set i | 0 <= i < |log| && log[i].op.opId in ids|;
      log := MarkPushed(log, ids);
    }
  }

  // ---------------------------------------------------------------------------
  // Local edits against stale remote ones
  // ---------------------------------------------------------------------------

  /** A field whose clock is not older than the op keeps its value through the whole update. */
  lemma {:induction false} WalkKeepsNewerField(w: Walk, ks: seq<Key>, obj: Object, hlc: string, k: Key)
    requires !Newer(hlc, ClockOf(w.book, k))
    ensures CellOf(VisitAll(w, ks, obj, hlc).book, k) == CellOf(w.book, k)
    decreases |ks|
  {
    hide StatusVerdict, Storable, ToCell, Newer;
    if ks != [] {
      WalkKeepsNewerField(Visit(w, ks[0], obj, hlc), ks[1..], obj, hlc, k);
    }
  }

  lemma RaisedIsNotOlder(clocks: map<Key, Option<string>>, names: set<Key>, hlc: string, k: Key, stale: string)
    requires k in names && !Less(hlc, stale)
    ensures k in Raise(clocks, names, hlc) && !Newer(stale, Raise(clocks, names, hlc)[k])
  {
    LessTrichotomy(hlc, stale);
    if k in clocks && !Newer(hlc, clocks[k]) {
      var c := clocks[k].value;
      LessTrichotomy(c, hlc);
      LessTrichotomy(c, stale);
      if Less(c, stale) && hlc != c && hlc != stale {
        LessTransitive(stale, hlc, c);
      }
    }
  }

  lemma UpdateKeepsNewerField(t: Tables, op: Op, k: Key)
    requires op.entityId in t.books && !Newer(op.hlc, ClockOf(t.books[op.entityId], k))
    ensures CellOf(BookUpdate(t, op).0.books[op.entityId], k) == CellOf(t.books[op.entityId], k)
  {
    hide VisitAll, Newer, CellOf, ClockOf;
    if t.books[op.entityId].tombstone.None? && op.fields.Some? {
      var w := Walk(t.books[op.entityId], false, Going);
      WalkKeepsNewerField(w, BOOK_FIELDS, op.fields.value, op.hlc, k);
      assert BookUpdate(t, op).0.books[op.entityId] == VisitAll(w, BOOK_FIELDS, op.fields.value, op.hlc).book;
    }
  }

  /** A clock is raised exactly if its field is named, and it is missing or older; no other clock changes. */
  lemma RaisedExactly(clocks: map<Key, Option<string>>, names: set<Key>, hlc: string, k: Key)
    ensures var r := Raise(clocks, names, hlc);
      && (k in r <==> k in clocks || k in names)
      && (k in names && (k !in clocks || clocks[k].None? || Less(clocks[k].value, hlc)) ==> r[k] == Some(hlc))
      && (k in clocks && (k !in names || (clocks[k].Some? && !Less(clocks[k].value, hlc))) ==> r[k] == clocks[k])
  {
  }

  /** Emitting a book op raises the clock of every field it names to at least its own, so a remote
      update that is not newer can no longer change those fields. */
  lemma EmittedFieldsAreProtected(b: Book, names: set<Key>, hlc: string, k: Key, t: Tables, op: Op)
    requires k in names && !Less(hlc, op.hlc)
    requires op.entityId in t.books && t.books[op.entityId] == b.(clocks := Raise(b.clocks, names, hlc))
    ensures CellOf(BookUpdate(t, op).0.books[op.entityId], k) == CellOf(b, k)
  {
    hide BookUpdate, Raise, Newer, Less;
    RaisedIsNotOlder(b.clocks, names, hlc, k, op.hlc);
    UpdateKeepsNewerField(t, op, k);
  }
}
