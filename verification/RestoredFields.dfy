/** What a merge restore leaves in each field of a book the library already had. */
module RestoredFields {
  import opened Wrappers
  import opened Text
  import opened Library
  import opened Lww
  import opened Catalogs
  import opened Backups
  import opened RestoredBooks

  /** What a restore can write of a field. The work has a clock but no column to write. */
  function Restorable(b: FullBook, k: Key): Cell
  {
    if IsMapped(k) then Column(b, k) else Nil
  }

  /** A field of a book with its effective clock. */
  function ColumnSlot(b: FullBook, provenance: ProvenanceTable, id: Id, k: Key): Slot<Cell>
  {
    Slot(Restorable(b, k), if (id, k) in provenance then Some(Effective(provenance[(id, k)])) else None)
  }

  /** What the first `n` provenance rows offer for one field of an incoming book. */
  function RowOffers(rows: seq<((Id, Key), Provenance)>, id: Id, k: Key, b: FullBook, n: nat): seq<Write<Cell>>
    requires n <= |rows|
  {
    if n == 0 then [] else
    RowOffers(rows, id, k, b,
              n - 1) + (if rows[n - 1].0 == (id, k) then [Write(Effective(rows[n - 1].1), Restorable(b, k))] else [])
  }

  /** What the first `n` books, as far as they are mapped to `local`, offer for one of its fields. */
  function Offers(data: Backup, ids: IdMap, local: Id, k: Key, n: nat): seq<Write<Cell>>
    requires n <= |data.books|
  {
    if n == 0 then [] else
    Offers(data, ids, local, k, n - 1) +
    (if Resolve(ids, data.books[n - 1].0) == local
     then RowOffers(data.provenance, data.books[n - 1].0, k, data.books[n - 1].1, |data.provenance|) else [])
  }

  lemma FieldPut(s: FieldStage, local: Id, k: Key, incoming: FullBook, p: Provenance, field: Key)
    ensures var r := MergeField(s, local, k, incoming, p);
      ColumnSlot(r.row, r.provenance, local, field) ==
        if k == field
        then Put(ColumnSlot(s.row, s.provenance, local, field), Write(Effective(p), Restorable(incoming, k)))
        else ColumnSlot(s.row, s.provenance, local, field)
  {
    hide IsStars, Less;
  }

  lemma {:induction false} FieldsPut(s: FieldStage, local: Id, id: Id, incoming: FullBook,
                                     rows: seq<((Id, Key), Provenance)>, n: nat, field: Key)
    requires n <= |rows|
    ensures var r := MergeFields(s, local, id, incoming, rows, n);
      ColumnSlot(r.row, r.provenance, local, field) ==
        PutAll(ColumnSlot(s.row, s.provenance, local, field), RowOffers(rows, id, field, incoming, n))
  {
    hide MergeField, ColumnSlot, Put, Effective, Restorable;
    if n > 0 {
      FieldsPut(s, local, id, incoming, rows, n - 1, field);
      var before := MergeFields(s, local, id, incoming, rows, n - 1);
      if rows[n - 1].0.0 == id {
        FieldPut(before, local, rows[n - 1].0.1, incoming, rows[n - 1].1, field);
      }
      assert RowOffers(rows, id, field, incoming, n - 1) + [] == RowOffers(rows, id, field, incoming, n - 1);
      if rows[n - 1].0 == (id, field) {
        var w := Write(Effective(rows[n - 1].1), Restorable(incoming, field));
        PutAllAppend(ColumnSlot(s.row, s.provenance, local, field), RowOffers(rows, id, field, incoming, n - 1), [w]);
        assert [w][1..] == [];
      }
    }
  }

  lemma {:induction false} OtherBooksKeepRows(s: FieldStage, local: Id, id: Id, incoming: FullBook,
                                              rows: seq<((Id, Key), Provenance)>, n: nat, key: (Id, Key))
    requires n <= |rows| && key.0 != local
    ensures var r := MergeFields(s, local, id, incoming, rows, n);
      (key in r.provenance <==> key in s.provenance) && (key in s.provenance ==> r.provenance[key] == s.provenance[key])
  {
    hide Effective, ApplyField, IsStars, Less;
    if n > 0 {
      OtherBooksKeepRows(s, local, id, incoming, rows, n - 1, key);
    }
  }

  /** One step of the restore, seen from one field of a book that is already there. */
  lemma StepPuts(s: BookStage, isbns: map<string, Id>, data: Backup, id: Id, b: FullBook, local: Id, k: Key)
    requires s.ok && local in s.books
    requires forall i, j :: 0 <= i < j < |data.provenance| ==> data.provenance[i].0 != data.provenance[j].0
    requires forall key :: key in s.provenance ==> key.0 in s.books
    requires RestoreBook(s, isbns, data, MergeInto, id, b).ok
    ensures var m, r := FindExisting(s.books, isbns, data.isbns, id, b), RestoreBook(s, isbns, data, MergeInto, id, b);
      && local in r.books
      && ColumnSlot(r.books[local], r.provenance, local, k) ==
        if m == Some(local) then PutAll(ColumnSlot(s.books[local], s.provenance, local, k),
                                        RowOffers(data.provenance, id, k, b, |data.provenance|))
        else ColumnSlot(s.books[local], s.provenance, local, k)
  {
    hide FindExisting, MergeFields, CopyProvenance, Effective, Restorable, RowOffers, IsStars;
    var m := FindExisting(s.books, isbns, data.isbns, id, b);
    if m.None? {
      CopyRises(s.provenance, id, data.provenance, |data.provenance|);
      assert RestoreBook(s, isbns, data, MergeInto, id, b) == InsertBook(s, id, b, data.provenance);
    } else {
      var start := FieldStage(s.books[m.value], s.provenance, true);
      assert RestoreBook(s, isbns, data, MergeInto, id, b) == MergeBook(s, m.value, id, b, data.provenance);
      if m.value == local {
        FieldsPut(start, local, id, b, data.provenance, |data.provenance|, k);
      } else {
        OtherBooksKeepRows(start, m.value, id, b, data.provenance, |data.provenance|, (local, k));
      }
    }
  }

  /** What book `n` offers for the field. */
  function StepOffers(data: Backup, ids: IdMap, local: Id, k: Key, n: nat): seq<Write<Cell>>
    requires n < |data.books|
  {
    if Resolve(ids, data.books[n].0) == local
    then RowOffers(data.provenance, data.books[n].0, k, data.books[n].1, |data.provenance|) else []
  }

  ghost predicate SlotIs(s: BookStage, local: Id, k: Key, slot: Slot<Cell>)
  {
    local in s.books && ColumnSlot(s.books[local], s.provenance, local, k) == slot
  }

  lemma MappedToTarget(store: Store, src: Store, data: Backup, local: Id, n: nat)
    requires HasBooks(store) && ListsBooks(src, data) && n < |data.books|
    ensures var last := RestoreBooks(store, data, MergeInto, |data.books|);
      Resolve(last.ids, data.books[n].0) == Target(store, data, n)
    ensures local in RestoreBooks(store, data, MergeInto, n).books ==>
      (Target(store, data, n) == local <==>
       FindExisting(RestoreBooks(store, data, MergeInto, n).books, store.isbns, data.isbns, data.books[n].0,
                    data.books[n].1) == Some(local))
  {
    hide RestoreBook, HasBooks, ListsBooks;
    StageStep(store, src, data, n);
    StageGrows(store, src, data, n + 1, |data.books|);
  }

  lemma OneMoreOffer(store: Store, src: Store, data: Backup, local: Id, k: Key, n: nat, slot: Slot<Cell>)
    requires HasBooks(store) && ListsBooks(src, data) && n < |data.books|
    requires SlotIs(RestoreBooks(store, data, MergeInto, n), local, k, slot)
    ensures SlotIs(RestoreBooks(store, data, MergeInto, n + 1), local, k,
                   PutAll(slot, StepOffers(data, RestoreBooks(store, data, MergeInto, |data.books|).ids, local, k, n)))
  {
    hide RestoreBook, RowOffers, HasBooks, FindExisting, ColumnSlot, SoundIds, SoundClocks, SoundBooks;
    hide SourceIdsUnique, Target;
    StageIsSound(store, src, data, n);
    StageInfo(store, src, data, n + 1);
    DistinctKeys(src, data);
    hide ListsBooks;
    UnfoldBooks(store, data, n);
    MappedToTarget(store, src, data, local, n);
    StepPuts(RestoreBooks(store, data, MergeInto, n), store.isbns, data, data.books[n].0, data.books[n].1, local, k);
  }

  lemma {:induction false} StagePuts(store: Store, src: Store, data: Backup, local: Id, k: Key, n: nat)
    requires HasBooks(store) && ListsBooks(src, data) && local in store.books && n <= |data.books|
    ensures SlotIs(RestoreBooks(store, data, MergeInto, n), local, k,
                   PutAll(ColumnSlot(store.books[local], store.provenance, local, k),
                          Offers(data, RestoreBooks(store, data, MergeInto, |data.books|).ids, local, k, n)))
  {
    hide RestoreBook, ColumnSlot, RowOffers, HasBooks, ListsBooks;
    if n > 0 {
      var m := n - 1;
      var start := ColumnSlot(store.books[local], store.provenance, local, k);
      var ids := RestoreBooks(store, data, MergeInto, |data.books|).ids;
      StagePuts(store, src, data, local, k, m);
      OneMoreOffer(store, src, data, local, k, m, PutAll(start, Offers(data, ids, local, k, m)));
      PutAllAppend(start, Offers(data, ids, local, k, m), StepOffers(data, ids, local, k, m));
    }
  }

  /** Each field of a book the library already had ends with the greatest effective clock among its own and
      those the backup offers for it, the work included, and each field with a column with the value of that
      clock: nothing older wins, and nothing newer is lost. */
  lemma RestoredFieldIsLatest(store: Store, src: Store, data: Backup, local: Id, k: Key)
    requires HasBooks(store) && ListsBooks(src, data) && local in store.books
    ensures var last := RestoreBooks(store, data, MergeInto, |data.books|);
      && local in last.books
      && Latest(ColumnSlot(store.books[local], store.provenance, local, k),
                Offers(data, last.ids, local, k, |data.books|),
                ColumnSlot(last.books[local], last.provenance, local, k))
  {
    hide RestoreBook, ColumnSlot, Offers, HasBooks, ListsBooks, Latest;
    StagePuts(store, src, data, local, k, |data.books|);
    PutAllIsLatest(ColumnSlot(store.books[local], store.provenance, local, k),
                   Offers(data, RestoreBooks(store, data, MergeInto, |data.books|).ids, local, k, |data.books|));
  }

  /** The rest of such a book is untouched: its source ids, its creation time, its tombstone either way,
      and its work, even when the clock of the work rises. */
  lemma RestoreKeepsIdentity(store: Store, src: Store, data: Backup, local: Id)
    requires HasBooks(store) && ListsBooks(src, data) && local in store.books
    ensures var last := RestoreBooks(store, data, MergeInto, |data.books|);
      local in last.books && SameIdentity(last.books[local], store.books[local])
  {
    hide RestoreBook, SameIdentity, HasBooks, ListsBooks;
    StageInfo(store, src, data, |data.books|);
  }

  /** The clock that a backup carries for a field is reached in the restored library, whichever field it is. */
  lemma RestoreReachesClocks(store: Store, src: Store, data: Backup, i: nat)
    requires HasBooks(store) && ListsBooks(src, data) && i < |data.provenance|
    requires data.provenance[i].0.0 in src.books
    ensures var last := RestoreBooks(store, data, MergeInto, |data.books|);
      AtLeast(last.provenance, (Resolve(last.ids, data.provenance[i].0.0), data.provenance[i].0.1),
              Effective(data.provenance[i].1))
  {
    hide RestoreBook, AtLeast, Effective, HasBooks;
    StageInfo(store, src, data, |data.books|);
  }

  // ---------------------------------------------------------------------------
  // What a merge writes beside the fields
  // ---------------------------------------------------------------------------

  /** The clock of a provenance row: its sync clock, or the date of its source. */
  lemma EffectiveClock(p: Provenance)
    ensures Effective(p) == match p.syncHlc { case Some(hlc) => hlc case None => p.sourceDate }
  {
  }

  /** The provenance of the field is another than before. */
  predicate IsRaised(before: ProvenanceTable, after: ProvenanceTable, local: Id, k: Key)
  {
    (local, k) in after && ((local, k) in before ==> after[(local, k)] != before[(local, k)])
  }

  /** Every provenance row is what it was, or one of the incoming book's with its clock made explicit. */
  ghost predicate ProvenanceFrom(before: ProvenanceTable, after: ProvenanceTable, local: Id, id: Id,
                                 rows: seq<((Id, Key), Provenance)>, n: nat)
    requires n <= |rows|
  {
    forall key :: key in after ==>
      (key in before && after[key] == before[key]) || (key.0 == local && IsFrom(rows, n, id, key.1, after[key]))
  }

  predicate IsFrom(rows: seq<((Id, Key), Provenance)>, n: nat, id: Id, k: Key, p: Provenance)
    requires n <= |rows|
  {
    exists i :: 0 <= i < n && rows[i].0 == (id, k) && p == rows[i].1.(syncHlc := Some(Effective(rows[i].1)))
  }

  /** One provenance row: the book gets the incoming update time exactly if a column is written. */
  lemma FieldStamps(s: FieldStage, local: Id, k: Key, incoming: FullBook, p: Provenance)
    ensures var r := MergeField(s, local, k, incoming, p);
      && (IsRaised(s.provenance, r.provenance, local, k) <==>
          (local, k) !in s.provenance || Less(Effective(s.provenance[(local, k)]), Effective(p)))
      && (IsRaised(s.provenance, r.provenance, local, k) ==>
          r.provenance == s.provenance[(local, k) := p.(syncHlc := Some(Effective(p)))])
      && (!IsRaised(s.provenance, r.provenance, local, k) ==> r.provenance == s.provenance)
      && (if IsRaised(s.provenance, r.provenance, local, k) && IsMapped(k)
          then r.row.updatedAt == incoming.updatedAt else r.row == s.row)
  {
    LessTrichotomy(Effective(p), Effective(p));
    hide IsStars, Less;
  }

  /** Merging a book leaves the row alone unless a clock of a written column rises, and then gives it the incoming
      update time. */
  lemma {:induction false} MergeStamps(s: FieldStage, local: Id, id: Id, incoming: FullBook,
                                       rows: seq<((Id, Key), Provenance)>, n: nat)
    requires n <= |rows|
    ensures var r := MergeFields(s, local, id, incoming, rows, n);
      && ProvenanceFrom(s.provenance, r.provenance, local, id, rows, n)
      && (r.row == s.row || r.row.updatedAt == incoming.updatedAt)
      && (r.row != s.row ==> exists k :: IsMapped(k) && IsRaised(s.provenance, r.provenance, local, k))
  {
    hide MergeField, Effective, IsMapped, IsRaised;
    if n > 0 {
      MergeStamps(s, local, id, incoming, rows, n - 1);
      var before := MergeFields(s, local, id, incoming, rows, n - 1);
      if rows[n - 1].0.0 == id {
        var k := rows[n - 1].0.1;
        FieldStamps(before, local, k, incoming, rows[n - 1].1);
        var r := MergeField(before, local, k, incoming, rows[n - 1].1);
        MergeFieldsRise(s, local, id, incoming, rows, n - 1);
        StillRaised(s, before, r, local, id, incoming, rows, n);
      } else {
        MoreRows(s.provenance, before.provenance, local, id, rows, n);
      }
    }
  }

  lemma MoreRows(a: ProvenanceTable, b: ProvenanceTable, local: Id, id: Id, rows: seq<((Id, Key), Provenance)>, n: nat)
    requires 1 <= n <= |rows| && ProvenanceFrom(a, b, local, id, rows, n - 1)
    ensures ProvenanceFrom(a, b, local, id, rows, n)
  {
    hide Effective;
    forall key | key in b && !(key in a && b[key] == a[key]) ensures IsFrom(rows, n, id, key.1, b[key]) {
      assert IsFrom(rows, n - 1, id, key.1, b[key]);
    }
  }

  /** A clock that has risen does not come back to what it was. */
  lemma StillRaised(s: FieldStage, before: FieldStage, r: FieldStage, local: Id, id: Id, incoming: FullBook,
                    rows: seq<((Id, Key), Provenance)>, n: nat)
    requires 1 <= n <= |rows| && rows[n - 1].0.0 == id
    requires ProvenanceFrom(s.provenance, before.provenance, local, id, rows, n - 1)
    requires Rises(s.provenance, before.provenance)
    requires var k, p := rows[n - 1].0.1, rows[n - 1].1;
      && (IsRaised(before.provenance, r.provenance, local, k) <==>
          (local, k) !in before.provenance || Less(Effective(before.provenance[(local, k)]), Effective(p)))
      && (IsRaised(before.provenance, r.provenance, local, k) ==>
          r.provenance == before.provenance[(local, k) := p.(syncHlc := Some(Effective(p)))])
      && (!IsRaised(before.provenance, r.provenance, local, k) ==> r.provenance == before.provenance)
    ensures ProvenanceFrom(s.provenance, r.provenance, local, id, rows, n)
    ensures forall k :: IsRaised(s.provenance, before.provenance, local, k) ==>
      IsRaised(s.provenance, r.provenance, local, k)
    ensures IsRaised(before.provenance, r.provenance, local, rows[n - 1].0.1) ==>
      IsRaised(s.provenance, r.provenance, local, rows[n - 1].0.1)
  {
    var k, p := rows[n - 1].0.1, rows[n - 1].1;
    MoreRows(s.provenance, before.provenance, local, id, rows, n);
    if IsRaised(before.provenance, r.provenance, local, k) {
      var row := p.(syncHlc := Some(Effective(p)));
      assert Effective(row) == Effective(p);
      assert IsFrom(rows, n, id, k, row);
      if (local, k) in s.provenance {
        assert AtLeast(before.provenance, (local, k), Effective(s.provenance[(local, k)]));
        LessTrichotomy(Effective(before.provenance[(local, k)]), Effective(p));
      }
    }
    hide Effective, Less, IsFrom;
  }
}
